// The bounded min-heap that the similarity index uses to keep the k best
// hits: parallel arrays of keys (record indices) and values (scores), slots
// 1 .. size-1 live, slot 0 unused.

module MinBinaryHeaps {

  type Entry = (int, real)

  function Parent(i: int): int { i / 2 }
  function Left(i: int): int { 2 * i }
  function Right(i: int): int { 2 * i + 1 }

  /** Heap order over the live slots 1 .. n-1: no value is below its parent's. */
  ghost predicate Ordered(v: seq<real>, n: int)
    requires n <= |v|
  {
    forall j :: 2 <= j < n ==> v[Parent(j)] <= v[j]
  }

  /** Heap order everywhere except between slot i and its children; those
      children are still no smaller than i's parent. */
  ghost predicate OrderedBut(v: seq<real>, n: int, i: int)
    requires n <= |v|
  {
    (forall j :: 2 <= j < n && Parent(j) != i ==> v[Parent(j)] <= v[j]) &&
    (forall j :: 2 <= j < n && Parent(j) == i && i > 1 ==> v[Parent(i)] <= v[j])
  }

  /** While a value c sifts up to the hole at slot i: order holds around every
      other slot (and around i too once i has been vacated by a move), and c
      is no larger than any child of the hole. */
  ghost predicate HoleOrdered(v: seq<real>, n: int, i: int, c: real)
    requires n <= |v|
  {
    (forall j :: 2 <= j < n && (j != i || i < n - 1) ==> v[Parent(j)] <= v[j]) &&
    (forall j :: 2 <= j < n && Parent(j) == i ==> c <= v[j])
  }

  /** The live (key, value) pairs of slots 1 .. n-1, in slot order. */
  function PairsOf(k: seq<int>, v: seq<real>, n: int): (ps: seq<Entry>)
    requires 1 <= n <= |k| == |v|
    ensures |ps| == n - 1
    ensures forall t :: 0 <= t < n - 1 ==> ps[t] == (k[t + 1], v[t + 1])
  {
    seq(n - 1, t requires 0 <= t < n - 1 => (k[t + 1], v[t + 1]))
  }

  function KeysOf(ps: seq<Entry>): (ks: seq<int>)
    ensures |ks| == |ps| && forall t :: 0 <= t < |ps| ==> ks[t] == ps[t].0
  {
    seq(|ps|, t requires 0 <= t < |ps| => ps[t].0)
  }

  /** Pair p is worth no more than pair e. */
  predicate NoBetter(p: Entry, e: Entry)
  {
    p.1 <= e.1
  }

  /**
   * The k best of everything offered: `held` is drawn from `offered`, holds
   * min(k, |offered|) pairs, and no pair left out is worth more than a pair held.
   */
  ghost predicate KeepsBest(offered: multiset<Entry>, held: multiset<Entry>, k: nat)
  {
    held <= offered &&
    |held| == (if |offered| < k then |offered| else k) &&
    forall p, e {:trigger NoBetter(p, e)} :: p in offered - held && e in held ==> NoBetter(p, e)
  }

  lemma SubMultisetSize<T>(a: multiset<T>, b: multiset<T>)
    requires a <= b && |a| == |b|
    ensures a == b
  {
    assert b == a + (b - a);
  }

  /** Below capacity the offered pair goes in, and everything offered is held. */
  lemma {:induction false} OfferBelowCapacity(offered: multiset<Entry>, held: multiset<Entry>, k: nat, x: Entry)
    requires KeepsBest(offered, held, k) && |held| < k
    ensures KeepsBest(offered + multiset{x}, held + multiset{x}, k)
  {
    SubMultisetSize(held, offered);
    assert (offered + multiset{x}) - (held + multiset{x}) == multiset{};
  }

  /** At capacity a pair worth more than the least held pair replaces it. */
  lemma {:induction false} OfferReplacesRoot(offered: multiset<Entry>, held: multiset<Entry>, k: nat, x: Entry, root: Entry)
    requires KeepsBest(offered, held, k) && |held| == k
    requires root in held && forall e :: e in held ==> root.1 <= e.1
    requires x.1 > root.1
    ensures KeepsBest(offered + multiset{x}, held - multiset{root} + multiset{x}, k)
  {
    var offered', after := offered + multiset{x}, held - multiset{root} + multiset{x};
    assert offered' - after == (offered - held) + multiset{root};
    forall p, e | p in offered' - after && e in after
      ensures NoBetter(p, e)
    {
      if e != x {
        assert e in held;
      }
      if p != root {
        assert p in offered - held;
        assert NoBetter(p, root);
      }
    }
  }

  /** At capacity a pair worth no more than the least held pair is dropped. */
  lemma {:induction false} OfferDropped(offered: multiset<Entry>, held: multiset<Entry>, k: nat, x: Entry, root: Entry)
    requires KeepsBest(offered, held, k) && |held| == k
    requires forall e :: e in held ==> root.1 <= e.1
    requires x.1 <= root.1
    ensures KeepsBest(offered + multiset{x}, held, k)
  {
    assert (offered + multiset{x}) - held == (offered - held) + multiset{x};
  }

  /**
   * What `add` does to the held pairs keeps them the k best: below capacity
   * the pair goes in; at capacity it replaces the least pair `root` when its
   * value is larger, and is dropped otherwise.
   */
  lemma {:induction false} OfferKeepsBest(offered: multiset<Entry>, held: multiset<Entry>, after: multiset<Entry>,
                                          k: nat, x: Entry, root: Entry)
    requires KeepsBest(offered, held, k)
    requires |held| < k ==> after == held + multiset{x}
    requires |held| == k ==> root in held && forall e :: e in held ==> root.1 <= e.1
    requires |held| == k && x.1 > root.1 ==> after == held - multiset{root} + multiset{x}
    requires |held| == k && x.1 <= root.1 ==> after == held
    ensures KeepsBest(offered + multiset{x}, after, k)
  {
    if |held| < k {
      OfferBelowCapacity(offered, held, k, x);
    } else if x.1 > root.1 {
      OfferReplacesRoot(offered, held, k, x, root);
    } else {
      OfferDropped(offered, held, k, x, root);
    }
  }

  /** Pairs no larger than a bound below every held value leave the k best unchanged. */
  lemma {:induction false} SkipKeepsBest(offered: multiset<Entry>, held: multiset<Entry>, k: nat,
                                         skipped: multiset<Entry>, c: real)
    requires KeepsBest(offered, held, k) && |held| == k
    requires forall p :: p in skipped ==> p.1 <= c
    requires forall e :: e in held ==> c < e.1
    ensures KeepsBest(offered + skipped, held, k)
  {
    assert (offered + skipped) - held == (offered - held) + skipped;
  }

  /** The root of an ordered heap holds its least value. */
  lemma {:induction false} RootIsMin(v: seq<real>, n: int, j: int)
    requires n <= |v| && Ordered(v, n) && 1 <= j < n
    ensures v[1] <= v[j]
    decreases j
  {
    if j > 1 {
      RootIsMin(v, n, Parent(j));
    }
  }

  lemma MultisetSwap<T>(s: seq<T>, a: nat, b: nat)
    requires a < |s| && b < |s|
    ensures multiset(s[a := s[b]][b := s[a]]) == multiset(s)
  {}

  lemma MultisetUpdate<T>(s: seq<T>, a: nat, x: T)
    requires a < |s|
    ensures multiset(s[a := x]) == multiset(s) - multiset{s[a]} + multiset{x}
  {}

  /** Moving the parent's pair down into the hole at slot i and opening the
      hole at the parent p permutes the pairs-with-c-in-the-hole. */
  lemma SiftUpPairs(k: seq<int>, v: seq<real>, n: int, i: int, x: int, c: real)
    requires 1 <= n <= |k| == |v| && 1 < i < n
    ensures var p := Parent(i); var q := PairsOf(k, v, n)[i - 1 := (x, c)];
      PairsOf(k[i := k[p]], v[i := v[p]], n)[p - 1 := (x, c)] == q[i - 1 := q[p - 1]][p - 1 := q[i - 1]]
  {}

  lemma SiftUpOrder(v: seq<real>, n: int, i: int, c: real)
    requires 2 <= n <= |v| && 1 < i < n && HoleOrdered(v, n, i, c) && v[Parent(i)] > c
    ensures HoleOrdered(v[i := v[Parent(i)]], n, Parent(i), c)
  {
    var p := Parent(i);
    var w := v[i := v[p]];
    forall j | 2 <= j < n
      ensures w[Parent(j)] <= w[j]
    {
      if Parent(j) == i {
        assert 2 * i < n;
        assert v[p] <= v[i] <= v[j];
      }
    }
    forall j | 2 <= j < n && Parent(j) == p
      ensures c <= w[j]
    {
      if j != i {
        assert v[p] <= v[j];
      }
    }
  }

  lemma SiftUpDone(v: seq<real>, n: int, i: int, c: real)
    requires 2 <= n <= |v| && 1 <= i < n && HoleOrdered(v, n, i, c)
    requires i == 1 || v[Parent(i)] <= c
    ensures Ordered(v[i := c], n)
  {}

  /** The pairs with c written into the hole at slot i are the heap's former
      pairs plus (x, c). */
  ghost predicate HoleHolds(k: seq<int>, v: seq<real>, n: int, i: int, x: int, c: real, e: multiset<Entry>)
    requires 1 <= n <= |k| == |v| && 1 <= i < n
  {
    multiset(PairsOf(k, v, n)[i - 1 := (x, c)]) == e + multiset{(x, c)}
  }

  /** Writing (x, c) into the hole ends the sift-up with an ordered heap. */
  lemma SiftUpPlace(k: seq<int>, v: seq<real>, n: int, i: int, x: int, c: real, e: multiset<Entry>)
    requires 2 <= n <= |k| == |v| && 1 <= i < n && (i == 1 || v[Parent(i)] <= c)
    requires HoleOrdered(v, n, i, c) && HoleHolds(k, v, n, i, x, c, e)
    ensures Ordered(v[i := c], n)
    ensures multiset(PairsOf(k[i := x], v[i := c], n)) == e + multiset{(x, c)}
  {
    SiftUpDone(v, n, i, c);
    assert PairsOf(k[i := x], v[i := c], n) == PairsOf(k, v, n)[i - 1 := (x, c)];
  }

  /** One move of the sift-up loop keeps both of its invariants. */
  lemma SiftUpStep(k: seq<int>, v: seq<real>, n: int, i: int, x: int, c: real, e: multiset<Entry>)
    requires 2 <= n <= |k| == |v| && 1 < i < n && v[Parent(i)] > c
    requires HoleOrdered(v, n, i, c) && HoleHolds(k, v, n, i, x, c, e)
    ensures HoleOrdered(v[i := v[Parent(i)]], n, Parent(i), c)
    ensures HoleHolds(k[i := k[Parent(i)]], v[i := v[Parent(i)]], n, Parent(i), x, c, e)
  {
    SiftUpOrder(v, n, i, c);
    SiftUpPairs(k, v, n, i, x, c);
    MultisetSwap(PairsOf(k, v, n)[i - 1 := (x, c)], i - 1, Parent(i) - 1);
  }

  lemma HeapifyStep(v: seq<real>, n: int, i: int, lo: int)
    requires n <= |v| && 1 <= i && OrderedBut(v, n, i)
    requires (lo == Left(i) || lo == Right(i)) && lo < n && v[lo] < v[i]
    requires Left(i) < n ==> v[lo] <= v[Left(i)]
    requires Right(i) < n ==> v[lo] <= v[Right(i)]
    ensures OrderedBut(v[i := v[lo]][lo := v[i]], n, lo)
  {}

  lemma HeapifyDone(v: seq<real>, n: int, i: int)
    requires n <= |v| && 1 <= i < |v| && OrderedBut(v, n, i)
    requires Left(i) < n ==> v[i] <= v[Left(i)]
    requires Right(i) < n ==> v[i] <= v[Right(i)]
    ensures Ordered(v, n)
  {}

  lemma ExchPairs(k: seq<int>, v: seq<real>, n: int, i: int, j: int)
    requires 1 <= n <= |k| == |v| && 1 <= i < n && 1 <= j < n
    ensures multiset(PairsOf(k[i := k[j]][j := k[i]], v[i := v[j]][j := v[i]], n)) == multiset(PairsOf(k, v, n))
  {
    var ps := PairsOf(k, v, n);
    assert PairsOf(k[i := k[j]][j := k[i]], v[i := v[j]][j := v[i]], n)
        == ps[i - 1 := ps[j - 1]][j - 1 := ps[i - 1]];
    MultisetSwap(ps, i - 1, j - 1);
  }

  /** Writing a new root replaces exactly the root's pair. */
  lemma ReplaceRoot(k: seq<int>, v: seq<real>, n: int, x: int, c: real)
    requires 2 <= n <= |k| == |v| && Ordered(v, n)
    ensures OrderedBut(v[1 := c], n, 1)
    ensures multiset(PairsOf(k[1 := x], v[1 := c], n))
         == multiset(PairsOf(k, v, n)) - multiset{(k[1], v[1])} + multiset{(x, c)}
  {
    var ps := PairsOf(k, v, n);
    assert PairsOf(k[1 := x], v[1 := c], n) == ps[0 := (x, c)];
    MultisetUpdate(ps, 0, (x, c));
  }

  /** Moving the last pair to the root and shrinking by one drops exactly the root's pair. */
  lemma DropRoot(k: seq<int>, v: seq<real>, n: int)
    requires 2 <= n <= |k| == |v|
    ensures multiset(PairsOf(k[1 := k[n - 1]], v[1 := v[n - 1]], n - 1))
         == multiset(PairsOf(k, v, n)) - multiset{(k[1], v[1])}
  {
    var ps := PairsOf(k, v, n);
    var qs := PairsOf(k[1 := k[n - 1]], v[1 := v[n - 1]], n - 1);
    if n == 2 {
      assert ps == [(k[1], v[1])];
    } else {
      assert qs == ps[..n - 2][0 := ps[n - 2]];
      MultisetUpdate(ps[..n - 2], 0, ps[n - 2]);
      assert ps == ps[..n - 2] + [ps[n - 2]];
    }
  }

  lemma OrderedShrink(v: seq<real>, n: int, m: int)
    requires m <= n <= |v| && Ordered(v, n)
    ensures Ordered(v, m) && OrderedBut(v, m, 1)
  {}

  lemma GrowPairs(k: seq<int>, v: seq<real>, n: int, x: int, c: real)
    requires 2 <= n <= |k| == |v|
    ensures PairsOf(k, v, n)[n - 2 := (x, c)] == PairsOf(k, v, n - 1) + [(x, c)]
  {}

  /** A bounded min-heap of (key, value) pairs with room for key.Length - 1 pairs. */
  class MinBinaryHeap {
    const key: array<int>
    const val: array<real>
    var size: int

    /** Slots 1 .. size-1 are live; slot 0 is never used. */
    ghost predicate Shaped()
      reads this
    {
      key.Length == val.Length && 2 <= key.Length && 1 <= size <= key.Length
    }

    ghost predicate Valid()
      reads this, val
    {
      Shaped() && Ordered(val[..], size)
    }

    ghost function Entries(): multiset<Entry>
      reads this, key, val
      requires Shaped()
    {
      multiset(PairsOf(key[..], val[..], size))
    }

    /** A heap with room for k pairs. */
    constructor (k: int)
      requires k >= 1
      ensures Valid() && key.Length == k + 1 && size == 1 && Entries() == multiset{}
      ensures forall j :: 0 <= j < val.Length ==> val[j] == 0.0
      ensures fresh(key) && fresh(val)
    {
      key := new int[k + 1](_ => 0);
      val := new real[k + 1](_ => 0.0);
      size := 1;
    }

    /** Swaps the key and the value of slots i and j, and nothing else. */
    method Exch(i: int, j: int)
      requires 0 <= i < key.Length && 0 <= j < key.Length && key.Length == val.Length
      modifies key, val
      ensures key[..] == old(key[..])[i := old(key[j])][j := old(key[i])]
      ensures val[..] == old(val[..])[i := old(val[j])][j := old(val[i])]
    {
      var tmpId := key[i];
      var tmpSim := val[i];
      key[i] := key[j];
      val[i] := val[j];
      key[j] := tmpId;
      val[j] := tmpSim;
    }

    /** The least value held; the source asserts the heap is non-empty. */
    function Min(): (m: real)
      reads this, val
      requires Valid() && size > 1
      ensures m == val[1]
      ensures forall j :: 1 <= j < size ==> m <= val[j]
    {
      assert forall j :: 1 <= j < size ==> val[1] <= val[j] by {
        forall j | 1 <= j < size {
          RootIsMin(val[..], size, j);
        }
      }
      val[1]
    }

    /** The root pair is held and no held value is below it. */
    lemma RootLeast()
      requires Valid() && size > 1
      ensures (key[1], val[1]) in Entries()
      ensures forall e :: e in Entries() ==> val[1] <= e.1
    {
      var ps := PairsOf(key[..], val[..], size);
      assert ps[0] == (key[1], val[1]);
      forall e | e in Entries()
        ensures val[1] <= e.1
      {
        var t :| 0 <= t < |ps| && ps[t] == e;
        RootIsMin(val[..], size, t + 1);
      }
    }

    /** Adds a pair to a heap that has room, sifting the hole up from the new slot. */
    method Insert(x: int, c: real)
      requires Valid() && size < key.Length
      modifies this, key, val
      ensures Valid() && size == old(size) + 1
      ensures Entries() == old(Entries()) + multiset{(x, c)}
    {
      size := size + 1;
      var i := size - 1;
      GrowPairs(key[..], val[..], size, x, c);
      while i > 1 && val[Parent(i)] > c
        invariant Shaped() && size == old(size) + 1 && 1 <= i < size
        invariant HoleOrdered(val[..], size, i, c)
        invariant HoleHolds(key[..], val[..], size, i, x, c, old(Entries()))
        decreases i
      {
        ghost var k0, v0 := key[..], val[..];
        var p := Parent(i);
        key[i] := key[p];
        val[i] := val[p];
        assert key[..] == k0[i := k0[p]];
        assert val[..] == v0[i := v0[p]];
        SiftUpStep(k0, v0, size, i, x, c, old(Entries()));
        i := p;
      }
      ghost var k1, v1 := key[..], val[..];
      key[i] := x;
      val[i] := c;
      assert key[..] == k1[i := x] && val[..] == v1[i := c];
      SiftUpPlace(k1, v1, size, i, x, c, old(Entries()));
    }

    /** Restores heap order below slot i by swapping it with its smaller child. */
    method Heapify(i: int)
      requires Shaped() && 1 <= i < key.Length && OrderedBut(val[..], size, i)
      modifies key, val
      ensures Valid() && Entries() == old(Entries())
      decreases size - i
    {
      var l := Left(i);
      var r := Right(i);
      var lo := -1;
      if l < size && val[l] < val[i] {
        lo := l;
      } else {
        lo := i;
      }
      if r < size && val[r] < val[lo] {
        lo := r;
      }
      if lo == i {
        HeapifyDone(val[..], size, i);
        return;
      }
      ghost var k0, v0 := key[..], val[..];
      Exch(i, lo);
      HeapifyStep(v0, size, i, lo);
      ExchPairs(k0, v0, size, i, lo);
      Heapify(lo);
    }

    /** Offers a pair: it is inserted while there is room; once the heap is
        full it replaces the least pair only if its value is larger. */
    method Add(x: int, c: real)
      requires Valid()
      modifies this, key, val
      ensures Valid()
      ensures old(size) < key.Length ==>
        size == old(size) + 1 && Entries() == old(Entries()) + multiset{(x, c)}
      ensures old(size) == key.Length && c > old(val[1]) ==>
        size == old(size) && Entries() == old(Entries()) - multiset{(old(key[1]), old(val[1]))} + multiset{(x, c)}
      ensures old(size) == key.Length && c <= old(val[1]) ==>
        size == old(size) && key[..] == old(key[..]) && val[..] == old(val[..])
    {
      if size < key.Length {
        Insert(x, c);
      } else if c > val[1] {
        ReplaceRoot(key[..], val[..], size, x, c);
        key[1] := x;
        val[1] := c;
        Heapify(1);
      }
    }

    /** `deleteMin` as the source writes it: the last key moves to the root but
        its value does not, so the root keeps the removed pair's value. */
    method DeleteMinAsWritten() returns (r: int)
      requires Valid() && size > 1
      modifies this, key, val
      ensures Valid() && size == old(size) - 1 && r == old(key[1])
      ensures Entries() == multiset(PairsOf(old(key[..])[1 := old(key[size - 1])], old(val[..]), old(size) - 1))
    {
      var min := key[1];
      ghost var k0 := key[..];
      size := size - 1;
      key[1] := key[size];
      assert key[..] == k0[1 := k0[size]];
      OrderedShrink(val[..], size + 1, size);
      Heapify(1);
      return min;
    }

    /** Removes the pair with the least value and returns its key, moving the
        last pair (key and value) to the root before restoring order. */
    method DeleteMin() returns (r: int)
      requires Valid() && size > 1
      modifies this, key, val
      ensures Valid() && size == old(size) - 1 && r == old(key[1])
      ensures forall j :: 1 <= j < old(size) ==> old(val[1]) <= old(val[j])
      ensures Entries() == old(Entries()) - multiset{(old(key[1]), old(val[1]))}
    {
      ghost var m := Min();
      ghost var k0, v0 := key[..], val[..];
      DropRoot(k0, v0, size);
      var min := key[1];
      size := size - 1;
      key[1] := key[size];
      val[1] := val[size];
      assert key[..] == k0[1 := k0[size]] && val[..] == v0[1 := v0[size]];
      OrderedShrinkBut(v0, val[..], size);
      Heapify(1);
      return min;
    }

    /** The live pairs in slot order, stably sorted by non-increasing value. */
    method Pairs() returns (ps: seq<Entry>)
      requires Shaped()
      ensures ps == SortDesc(PairsOf(key[..], val[..], size))
      ensures multiset(ps) == Entries() && NonIncreasing(ps)
      ensures forall v :: WithValue(ps, v) == WithValue(PairsOf(key[..], val[..], size), v)
    {
      var entries: seq<Entry> := [];
      var i := 1;
      while i < size
        invariant 1 <= i <= size
        invariant entries == PairsOf(key[..], val[..], i)
      {
        entries := entries + [(key[i], val[i])];
        i := i + 1;
      }
      ps := SortDesc(entries);
      forall v
        ensures WithValue(ps, v) == WithValue(entries, v)
      {
        SortDescStable(entries, v);
      }
    }

    /** The live keys in slot order. */
    method Keys() returns (ks: seq<int>)
      requires Shaped()
      ensures ks == KeysOf(PairsOf(key[..], val[..], size))
    {
      ks := [];
      var i := 1;
      while i < size
        invariant 1 <= i <= size
        invariant ks == KeysOf(PairsOf(key[..], val[..], i))
      {
        ks := ks + [key[i]];
        i := i + 1;
      }
    }
  }

  /** With the source's `deleteMin` the heap {(7, 1.0), (8, 2.0)} keeps the
      pair (8, 1.0): key 8 is paired with the removed key's value. */
  lemma DeleteMinStaleValue()
    ensures var k, v := [0, 7, 8], [0.0, 1.0, 2.0];
      Ordered(v, 3) &&
      multiset(PairsOf(k[1 := k[2]], v, 2)) == multiset{(8, 1.0)} &&
      multiset(PairsOf(k, v, 3)) - multiset{(k[1], v[1])} == multiset{(8, 2.0)}
  {
    var k, v := [0, 7, 8], [0.0, 1.0, 2.0];
    assert PairsOf(k[1 := k[2]], v, 2) == [(8, 1.0)];
    assert PairsOf(k, v, 3) == [(7, 1.0), (8, 2.0)];
  }

  /** Replacing the root after dropping the last slot leaves the rest ordered. */
  lemma OrderedShrinkBut(v: seq<real>, w: seq<real>, n: int)
    requires 1 <= n < |v| == |w| && Ordered(v, n + 1)
    requires forall j :: 2 <= j < |v| ==> w[j] == v[j]
    ensures OrderedBut(w, n, 1)
  {}

  ghost predicate NonIncreasing(ps: seq<Entry>)
  {
    forall i, j :: 0 <= i < j < |ps| ==> ps[i].1 >= ps[j].1
  }

  /** Places p after every pair whose value is at least p's. */
  function InsertDesc(p: Entry, s: seq<Entry>): (r: seq<Entry>)
    ensures multiset(r) == multiset(s) + multiset{p}
    ensures |r| > 0 && (r[0] == p || (s != [] && r[0] == s[0]))
  {
    if s == [] then [p]
    else if s[0].1 >= p.1 then
      assert s == [s[0]] + s[1..];
      [s[0]] + InsertDesc(p, s[1..])
    else [p] + s
  }

  lemma {:induction false} InsertDescSorted(p: Entry, s: seq<Entry>)
    requires NonIncreasing(s)
    ensures NonIncreasing(InsertDesc(p, s))
  {
    if s != [] && s[0].1 >= p.1 {
      InsertDescSorted(p, s[1..]);
      var r := InsertDesc(p, s[1..]);
      assert r[0].1 <= s[0].1;
      assert forall j :: 0 <= j < |r| ==> r[j].1 <= r[0].1;
      assert InsertDesc(p, s) == [s[0]] + r;
    }
  }

  /** A stable sort by non-increasing value (the list sort the source calls). */
  function SortDesc(s: seq<Entry>): (r: seq<Entry>)
    ensures multiset(r) == multiset(s) && NonIncreasing(r)
  {
    if s == [] then []
    else
      assert s == s[..|s| - 1] + [s[|s| - 1]];
      InsertDescSorted(s[|s| - 1], SortDesc(s[..|s| - 1]));
      InsertDesc(s[|s| - 1], SortDesc(s[..|s| - 1]))
  }

  /** The pairs of s whose value is v, in the order s has them. */
  function WithValue(s: seq<Entry>, v: real): seq<Entry>
  {
    if s == [] then [] else (if s[0].1 == v then [s[0]] else []) + WithValue(s[1..], v)
  }

  lemma WithValueCons(x: Entry, r: seq<Entry>, v: real)
    ensures WithValue([x] + r, v) == (if x.1 == v then [x] else []) + WithValue(r, v)
  {
    assert ([x] + r)[1..] == r;
  }

  lemma {:induction false} WithValueAppend(a: seq<Entry>, b: seq<Entry>, v: real)
    ensures WithValue(a + b, v) == WithValue(a, v) + WithValue(b, v)
  {
    if a != [] {
      assert (a + b)[1..] == a[1..] + b;
      WithValueAppend(a[1..], b, v);
    } else {
      assert a + b == b;
    }
  }

  /** No pair of s has value v when every value of s is below it. */
  lemma {:induction false} WithValueBelow(s: seq<Entry>, v: real)
    requires forall j :: 0 <= j < |s| ==> s[j].1 < v
    ensures WithValue(s, v) == []
  {
    if s != [] {
      WithValueBelow(s[1..], v);
    }
  }

  /** Inserting p into a sorted list puts it after the pairs of equal value. */
  lemma {:induction false} InsertDescStable(p: Entry, s: seq<Entry>, v: real)
    requires NonIncreasing(s)
    ensures WithValue(InsertDesc(p, s), v) == WithValue(s, v) + (if p.1 == v then [p] else [])
  {
    if s == [] {
      WithValueCons(p, [], v);
      assert [p] + [] == [p];
    } else if s[0].1 >= p.1 {
      InsertDescStable(p, s[1..], v);
      InsertAfterHead(p, s, v);
    } else {
      InsertAtHead(p, s, v);
    }
  }

  /** p goes after a head of value at least its own. */
  lemma InsertAfterHead(p: Entry, s: seq<Entry>, v: real)
    requires s != [] && s[0].1 >= p.1
    requires WithValue(InsertDesc(p, s[1..]), v) == WithValue(s[1..], v) + (if p.1 == v then [p] else [])
    ensures WithValue(InsertDesc(p, s), v) == WithValue(s, v) + (if p.1 == v then [p] else [])
  {
    InsertDescKeep(p, s);
    assert [s[0]] + s[1..] == s;
    ConsKeepsTail(s[0], InsertDesc(p, s[1..]), s[1..], if p.1 == v then [p] else [], v);
  }

  lemma InsertDescKeep(p: Entry, s: seq<Entry>)
    requires s != [] && s[0].1 >= p.1
    ensures InsertDesc(p, s) == [s[0]] + InsertDesc(p, s[1..])
  {
  }

  /** A pair put in front of two lists keeps equal what follows their v-pairs. */
  lemma ConsKeepsTail(x: Entry, r: seq<Entry>, t: seq<Entry>, tail: seq<Entry>, v: real)
    requires WithValue(r, v) == WithValue(t, v) + tail
    ensures WithValue([x] + r, v) == WithValue([x] + t, v) + tail
  {
    WithValueCons(x, r, v);
    WithValueCons(x, t, v);
  }

  /** p goes first in a sorted list whose head has a smaller value. */
  lemma InsertAtHead(p: Entry, s: seq<Entry>, v: real)
    requires NonIncreasing(s) && s != [] && s[0].1 < p.1
    ensures WithValue(InsertDesc(p, s), v) == WithValue(s, v) + (if p.1 == v then [p] else [])
  {
    assert InsertDesc(p, s) == [p] + s;
    WithValueCons(p, s, v);
    if p.1 == v {
      WithValueBelow(s, v);
    }
  }

  /**
   * `SortDesc` is stable: the pairs of any one value keep the order they
   * have in the input, as the list sort the source calls promises.
   */
  lemma {:induction false} SortDescStable(s: seq<Entry>, v: real)
    ensures WithValue(SortDesc(s), v) == WithValue(s, v)
  {
    if s != [] {
      var init, last := s[..|s| - 1], s[|s| - 1];
      SortDescLast(s);
      SortDescStable(init, v);
      InsertDescStable(last, SortDesc(init), v);
      WithValueSnoc(s, v);
    }
  }

  /** The last pair is inserted into the sorted rest. */
  lemma SortDescLast(s: seq<Entry>)
    requires s != []
    ensures SortDesc(s) == InsertDesc(s[|s| - 1], SortDesc(s[..|s| - 1]))
  {
  }

  lemma WithValueSnoc(s: seq<Entry>, v: real)
    requires s != []
    ensures WithValue(s, v) == WithValue(s[..|s| - 1], v) + (if s[|s| - 1].1 == v then [s[|s| - 1]] else [])
  {
    var init, last := s[..|s| - 1], s[|s| - 1];
    assert s == init + [last];
    WithValueAppend(init, [last], v);
    WithValueCons(last, [], v);
    assert [last] + [] == [last];
  }
}
