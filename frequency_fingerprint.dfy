// `FrequencyFingerprint`: a multiset fingerprint, a `TreeMap` from feature
// hash to a positive counter. The map is modelled as its entry list in
// ascending key order, which is what `entrySet().toArray` hands to
// `similarity`.

module FrequencyFingerprints {
  import opened Similarity

  /** One map entry: a feature hash and its counter. */
  datatype Entry = Entry(key: int, count: int)

  /** Keys strictly ascending, as a `TreeMap` iterates them. */
  predicate Sorted(es: seq<Entry>)
  {
    forall i, j :: 0 <= i < j < |es| ==> es[i].key < es[j].key
  }

  /** Every stored counter is at least 1. */
  predicate Positive(es: seq<Entry>)
  {
    forall i :: 0 <= i < |es| ==> es[i].count >= 1
  }

  predicate HasKey(es: seq<Entry>, x: int)
  {
    exists i :: 0 <= i < |es| && es[i].key == x
  }

  /** The counter stored under x, or 0 when x has no entry. */
  function CountOf(es: seq<Entry>, x: int): (n: int)
    ensures Positive(es) ==> n >= 0 && (n > 0 <==> HasKey(es, x))
  {
    if es == [] then 0
    else if es[0].key == x then es[0].count
    else
      assert forall i :: 0 <= i < |es| - 1 ==> es[1..][i] == es[i + 1];
      CountOf(es[1..], x)
  }

  lemma {:induction false} CountOfAt(es: seq<Entry>, i: int)
    requires Sorted(es) && Positive(es) && 0 <= i < |es|
    ensures CountOf(es, es[i].key) == es[i].count
  {
    if i > 0 {
      assert es[1..][i - 1] == es[i];
      CountOfAt(es[1..], i - 1);
    }
  }

  /** A key strictly between the neighbours of position j is not stored. */
  lemma CountOfGap(es: seq<Entry>, x: int, j: int)
    requires Sorted(es) && Positive(es) && 0 <= j <= |es|
    requires 0 < j ==> es[j - 1].key < x
    requires j < |es| ==> x < es[j].key
    ensures CountOf(es, x) == 0
  {
    forall i | 0 <= i < |es|
      ensures es[i].key != x
    {
      if i < j - 1 { assert es[i].key < es[j - 1].key; }
      if j < i { assert es[j].key < es[i].key; }
    }
  }

  // ------------------------------------------------------------ TreeMap updates

  /** `TreeMap.put(k, v)`: replace k's entry, or insert one in key order. */
  function Put(es: seq<Entry>, k: int, v: int): (r: seq<Entry>)
    requires Sorted(es)
    ensures r != [] && (r[0].key == k || (es != [] && r[0] == es[0]))
    ensures |r| == if HasKey(es, k) then |es| else |es| + 1
  {
    if es == [] then [Entry(k, v)]
    else if k < es[0].key then
      assert !HasKey(es, k) by {
        forall i | 0 < i < |es| ensures es[i].key != k { assert es[0].key < es[i].key; }
      }
      [Entry(k, v)] + es
    else if k == es[0].key then
      assert !HasKey(es[1..], k) by {
        forall i | 0 <= i < |es| - 1 ensures es[1..][i].key != k { assert es[0].key < es[i + 1].key; }
      }
      [Entry(k, v)] + es[1..]
    else
      assert HasKey(es, k) <==> HasKey(es[1..], k) by {
        if HasKey(es, k) {
          var i :| 0 <= i < |es| && es[i].key == k;
          assert es[1..][i - 1].key == k;
        }
        if HasKey(es[1..], k) {
          var i :| 0 <= i < |es| - 1 && es[1..][i].key == k;
          assert es[i + 1].key == k;
        }
      }
      [es[0]] + Put(es[1..], k, v)
  }

  lemma SortedTail(es: seq<Entry>)
    requires Sorted(es) && Positive(es) && es != []
    ensures Sorted(es[1..]) && Positive(es[1..])
  {
    assert forall i :: 0 <= i < |es| - 1 ==> es[1..][i] == es[i + 1];
  }

  lemma SortedCons(e: Entry, t: seq<Entry>)
    requires Sorted(t) && Positive(t) && e.count >= 1
    requires t != [] ==> e.key < t[0].key
    ensures Sorted([e] + t) && Positive([e] + t)
  {
    var r := [e] + t;
    assert forall i :: 0 < i < |r| ==> r[i] == t[i - 1];
    forall i, j | 0 <= i < j < |r| ensures r[i].key < r[j].key {
      if i == 0 && j > 1 { assert t[0].key < t[j - 1].key; }
    }
  }

  lemma CountOfCons(e: Entry, t: seq<Entry>, y: int)
    requires Positive(t) && e.count >= 1
    ensures Positive([e] + t)
    ensures CountOf([e] + t, y) == if e.key == y then e.count else CountOf(t, y)
  {
    assert ([e] + t)[1..] == t;
  }

  /** After `put(k, v)` the map holds v under k and nothing else changed. */
  lemma {:induction false} PutSpec(es: seq<Entry>, k: int, v: int)
    requires Sorted(es) && Positive(es) && v >= 1
    ensures Sorted(Put(es, k, v)) && Positive(Put(es, k, v))
    ensures forall y :: CountOf(Put(es, k, v), y) == if y == k then v else CountOf(es, y)
  {
    if es == [] {
    } else if k < es[0].key {
      SortedCons(Entry(k, v), es);
      forall y ensures CountOf(Put(es, k, v), y) == if y == k then v else CountOf(es, y) {
        CountOfCons(Entry(k, v), es, y);
      }
    } else if k == es[0].key {
      var t := es[1..];
      SortedTail(es);
      SortedCons(Entry(k, v), t);
      forall y ensures CountOf(Put(es, k, v), y) == if y == k then v else CountOf(es, y) {
        CountOfCons(Entry(k, v), t, y);
        CountOfCons(es[0], t, y);
        assert [es[0]] + t == es;
      }
    } else {
      var t := es[1..];
      SortedTail(es);
      PutSpec(t, k, v);
      var pt := Put(t, k, v);
      assert t != [] ==> es[0].key < t[0].key;
      SortedCons(es[0], pt);
      forall y ensures CountOf(Put(es, k, v), y) == if y == k then v else CountOf(es, y) {
        CountOfCons(es[0], pt, y);
        CountOfCons(es[0], t, y);
        assert [es[0]] + t == es;
      }
    }
  }

  /** `TreeMap.remove(k)`: drop k's entry if there is one. */
  function Delete(es: seq<Entry>, k: int): (r: seq<Entry>)
    requires Sorted(es) && Positive(es)
    ensures r != [] ==> es != [] && es[0].key <= r[0].key
  {
    if es == [] then []
    else if es[0].key == k then
      assert |es| > 1 ==> es[0].key < es[1].key;
      es[1..]
    else
      SortedTail(es);
      assert |es| > 1 ==> es[0].key < es[1].key;
      [es[0]] + Delete(es[1..], k)
  }

  /** After `remove(k)` the map holds nothing under k and nothing else changed. */
  lemma {:induction false} DeleteSpec(es: seq<Entry>, k: int)
    requires Sorted(es) && Positive(es)
    ensures Sorted(Delete(es, k)) && Positive(Delete(es, k))
    ensures forall y :: CountOf(Delete(es, k), y) == if y == k then 0 else CountOf(es, y)
  {
    if es == [] {
    } else if es[0].key == k {
      var t := es[1..];
      SortedTail(es);
      CountOfGap(t, k, 0);
      forall y ensures CountOf(Delete(es, k), y) == if y == k then 0 else CountOf(es, y) {
        CountOfCons(es[0], t, y);
        assert [es[0]] + t == es;
      }
    } else {
      var t := es[1..];
      SortedTail(es);
      DeleteSpec(t, k);
      var dt := Delete(t, k);
      assert dt != [] ==> es[0].key < dt[0].key;
      SortedCons(es[0], dt);
      forall y ensures CountOf(Delete(es, k), y) == if y == k then 0 else CountOf(es, y) {
        CountOfCons(es[0], dt, y);
        CountOfCons(es[0], t, y);
        assert [es[0]] + t == es;
      }
    }
  }

  // ------------------------------------------------------------ the overlap tallies

  /** What one entry of count p adds to its side's tally when the other side holds r. */
  function Excess1(p: int, r: int): int
  {
    if p > r then p - r else 0
  }

  /** What one shared entry adds to `both` as written: 1 for equal counts, else the smaller. */
  function Shared1(p: int, r: int): int
  {
    if r == 0 then 0 else if p == r then 1 else Min(p, r)
  }

  /** The count of xs's keys not matched by ys: per key, the amount it exceeds ys by. */
  function Excess(xs: seq<Entry>, ys: seq<Entry>): int
  {
    if xs == [] then 0
    else
      var init := xs[..|xs| - 1];
      Excess(init, ys) + Excess1(xs[|xs| - 1].count, CountOf(ys, xs[|xs| - 1].key))
  }

  /** `both` as `similarity` tallies it, summed over the keys of xs. */
  function Shared(xs: seq<Entry>, ys: seq<Entry>): int
  {
    if xs == [] then 0
    else
      var init := xs[..|xs| - 1];
      Shared(init, ys) + Shared1(xs[|xs| - 1].count, CountOf(ys, xs[|xs| - 1].key))
  }

  lemma KeysAscend(es: seq<Entry>, i: int)
    requires Sorted(es) && 0 <= i < |es|
    ensures i + 1 < |es| ==> es[i].key < es[i + 1].key
  {}

  lemma ExcessSnoc(xs: seq<Entry>, ys: seq<Entry>, i: int)
    requires 0 <= i < |xs|
    ensures Excess(xs[..i + 1], ys) == Excess(xs[..i], ys) + Excess1(xs[i].count, CountOf(ys, xs[i].key))
    ensures Shared(xs[..i + 1], ys) == Shared(xs[..i], ys) + Shared1(xs[i].count, CountOf(ys, xs[i].key))
  {
    assert xs[..i + 1][..i] == xs[..i];
  }

  /**
   * The two-pointer merge of `similarity` over the entry lists of this (xs)
   * and that (ys): a, b and both are the per-key tallies.
   */
  method Tally(xs: seq<Entry>, ys: seq<Entry>) returns (a: int, b: int, both: int)
    requires Sorted(xs) && Sorted(ys) && Positive(xs) && Positive(ys)
    ensures a == Excess(xs, ys) && b == Excess(ys, xs) && both == Shared(xs, ys)
  {
    var i, j;
    i, j, a, b, both := Merge(xs, ys);
    i, a := DrainThis(xs, ys, i, j, a, b, both);
    j, b := DrainThat(xs, ys, i, j, a, b, both);
    assert xs[..i] == xs && ys[..j] == ys;
  }

  /**
   * The state of the merge after xs[..i] and ys[..j]: the tallies so far, and
   * the last entry taken from one list lies below the next one of the other.
   */
  predicate Tallied(xs: seq<Entry>, ys: seq<Entry>, i: int, j: int, a: int, b: int, both: int)
  {
    0 <= i <= |xs| && 0 <= j <= |ys| &&
    a == Excess(xs[..i], ys) && both == Shared(xs[..i], ys) && b == Excess(ys[..j], xs) &&
    (i < |xs| && 0 < j ==> ys[j - 1].key < xs[i].key) &&
    (j < |ys| && 0 < i ==> xs[i - 1].key < ys[j].key)
  }

  /** A key only this fingerprint has adds its whole count to a. */
  lemma TallyThis(xs: seq<Entry>, ys: seq<Entry>, i: int, j: int, a: int, b: int, both: int)
    requires Sorted(xs) && Sorted(ys) && Positive(xs) && Positive(ys)
    requires Tallied(xs, ys, i, j, a, b, both) && i < |xs| && (j < |ys| ==> xs[i].key < ys[j].key)
    ensures Tallied(xs, ys, i + 1, j, a + xs[i].count, b, both)
  {
    KeysAscend(xs, i);
    CountOfGap(ys, xs[i].key, j);
    ExcessSnoc(xs, ys, i);
  }

  /** A key only that fingerprint has adds its whole count to b. */
  lemma TallyThat(xs: seq<Entry>, ys: seq<Entry>, i: int, j: int, a: int, b: int, both: int)
    requires Sorted(xs) && Sorted(ys) && Positive(xs) && Positive(ys)
    requires Tallied(xs, ys, i, j, a, b, both) && j < |ys| && (i < |xs| ==> ys[j].key < xs[i].key)
    ensures Tallied(xs, ys, i, j + 1, a, b + ys[j].count, both)
  {
    KeysAscend(ys, j);
    CountOfGap(xs, ys[j].key, i);
    ExcessSnoc(ys, xs, j);
  }

  /** A shared key splits into the excess on either side and the overlap. */
  lemma TallyBoth(xs: seq<Entry>, ys: seq<Entry>, i: int, j: int, a: int, b: int, both: int)
    requires Sorted(xs) && Sorted(ys) && Positive(xs) && Positive(ys)
    requires Tallied(xs, ys, i, j, a, b, both) && i < |xs| && j < |ys| && xs[i].key == ys[j].key
    ensures var ap, bp := xs[i].count, ys[j].count;
      Tallied(xs, ys, i + 1, j + 1, a + Excess1(ap, bp), b + Excess1(bp, ap), both + Shared1(ap, bp))
  {
    KeysAscend(xs, i);
    KeysAscend(ys, j);
    CountOfAt(ys, j);
    CountOfAt(xs, i);
    ExcessSnoc(xs, ys, i);
    ExcessSnoc(ys, xs, j);
  }

  /** One step of the merge, whichever of the two next keys is smaller. */
  lemma TallyStep(xs: seq<Entry>, ys: seq<Entry>, i: int, j: int, a: int, b: int, both: int)
    requires Sorted(xs) && Sorted(ys) && Positive(xs) && Positive(ys)
    requires Tallied(xs, ys, i, j, a, b, both) && i < |xs| && j < |ys|
    ensures xs[i].key < ys[j].key ==> Tallied(xs, ys, i + 1, j, a + xs[i].count, b, both)
    ensures ys[j].key < xs[i].key ==> Tallied(xs, ys, i, j + 1, a, b + ys[j].count, both)
    ensures xs[i].key == ys[j].key ==> var ap, bp := xs[i].count, ys[j].count;
      Tallied(xs, ys, i + 1, j + 1, a + Excess1(ap, bp), b + Excess1(bp, ap), both + Shared1(ap, bp))
  {
    if xs[i].key < ys[j].key {
      TallyThis(xs, ys, i, j, a, b, both);
    } else if ys[j].key < xs[i].key {
      TallyThat(xs, ys, i, j, a, b, both);
    } else {
      TallyBoth(xs, ys, i, j, a, b, both);
    }
  }

  /** The second loop of `similarity`: the keys left in xs once ys is exhausted go to a. */
  method DrainThis(xs: seq<Entry>, ys: seq<Entry>, i0: int, j: int, a0: int, b: int, both: int) returns (i: int, a: int)
    requires Sorted(xs) && Sorted(ys) && Positive(xs) && Positive(ys)
    requires Tallied(xs, ys, i0, j, a0, b, both) && (i0 == |xs| || j == |ys|)
    ensures Tallied(xs, ys, i, j, a, b, both) && i == |xs|
  {
    i, a := i0, a0;
    while i < |xs|
      invariant Tallied(xs, ys, i, j, a, b, both) && (i == |xs| || j == |ys|)
      decreases |xs| - i
    {
      TallyThis(xs, ys, i, j, a, b, both);
      a := a + xs[i].count;
      i := i + 1;
    }
  }

  /** The third loop of `similarity`: the keys left in ys go to b. */
  method DrainThat(xs: seq<Entry>, ys: seq<Entry>, i: int, j0: int, a: int, b0: int, both: int) returns (j: int, b: int)
    requires Sorted(xs) && Sorted(ys) && Positive(xs) && Positive(ys)
    requires Tallied(xs, ys, i, j0, a, b0, both) && i == |xs|
    ensures Tallied(xs, ys, i, j, a, b, both) && j == |ys|
  {
    j, b := j0, b0;
    while j < |ys|
      invariant Tallied(xs, ys, i, j, a, b, both) && i == |xs|
      decreases |ys| - j
    {
      TallyThat(xs, ys, i, j, a, b, both);
      b := b + ys[j].count;
      j := j + 1;
    }
  }

  /** A shared key with counts ap and bp: equal counts add 1 to both, else the smaller, and the rest to one side. */
  method TakeShared(ap: int, bp: int, a: int, b: int, both: int) returns (a': int, b': int, both': int)
    requires bp > 0
    ensures a' == a + Excess1(ap, bp) && b' == b + Excess1(bp, ap) && both' == both + Shared1(ap, bp)
  {
    a', b', both' := a, b, both;
    if ap == bp {
      both' := both + 1;
    } else if ap > bp {
      a' := a + (ap - bp);
      both' := both + bp;
    } else if bp > ap {
      b' := b + (bp - ap);
      both' := both + ap;
    }
  }

  /** The first loop of `similarity`: walk both entry lists while neither is exhausted. */
  method Merge(xs: seq<Entry>, ys: seq<Entry>) returns (i: int, j: int, a: int, b: int, both: int)
    requires Sorted(xs) && Sorted(ys) && Positive(xs) && Positive(ys)
    ensures Tallied(xs, ys, i, j, a, b, both) && (i == |xs| || j == |ys|)
  {
    a, b, both := 0, 0, 0;
    i, j := 0, 0;
    while i < |xs| && j < |ys|
      invariant Tallied(xs, ys, i, j, a, b, both)
      decreases |xs| + |ys| - i - j
    {
      TallyStep(xs, ys, i, j, a, b, both);
      var aKey, bKey := xs[i].key, ys[j].key;
      if aKey < bKey {
        a := a + xs[i].count;
        i := i + 1;
      } else if aKey > bKey {
        b := b + ys[j].count;
        j := j + 1;
      } else {
        a, b, both := TakeShared(xs[i].count, ys[j].count, a, b, both);
        i, j := i + 1, j + 1;
      }
    }
  }

  // ------------------------------------------------------------ what the tallies mean

  /** The total of all counters: the size of the multiset. */
  function Total(es: seq<Entry>): int
  {
    if es == [] then 0 else Total(es[..|es| - 1]) + es[|es| - 1].count
  }

  /** `both` as intended: the multiset intersection, the smaller count per shared key. */
  function SharedIntended(xs: seq<Entry>, ys: seq<Entry>): int
  {
    if xs == [] then 0
    else
      var init := xs[..|xs| - 1];
      SharedIntended(init, ys) + Min(xs[|xs| - 1].count, CountOf(ys, xs[|xs| - 1].key))
  }

  /**
   * With the intended `both`, the tallies split this multiset exactly:
   * a + both is its total count.
   */
  lemma {:induction false} IntendedTalliesAddUp(xs: seq<Entry>, ys: seq<Entry>)
    ensures Excess(xs, ys) + SharedIntended(xs, ys) == Total(xs)
  {
    if xs != [] {
      IntendedTalliesAddUp(xs[..|xs| - 1], ys);
    }
  }

  /**
   * As written, a key stored twice in both fingerprints adds 1 to `both`,
   * so a + both falls short of the total: {7: 2} against itself tallies
   * a = b = 0, both = 1 and not both = 2.
   */
  lemma EqualCountsUndercount(xs: seq<Entry>)
    requires xs == [Entry(7, 2)]
    ensures Excess(xs, xs) == 0 && Shared(xs, xs) == 1 && SharedIntended(xs, xs) == 2
    ensures Excess(xs, xs) + Shared(xs, xs) < Total(xs)
  {
    assert xs[..0] == [];
  }

  /**
   * When every counter is 1 (a plain set of features) the as-written and the
   * intended `both` agree, and a + both is the set's size.
   */
  lemma {:induction false} SetsTallyAsIntended(xs: seq<Entry>, ys: seq<Entry>)
    requires Positive(ys)
    requires forall i :: 0 <= i < |xs| ==> xs[i].count == 1
    requires forall i :: 0 <= i < |ys| ==> ys[i].count == 1
    ensures Shared(xs, ys) == SharedIntended(xs, ys)
    ensures Excess(xs, ys) + Shared(xs, ys) == |xs|
  {
    if xs != [] {
      SetsTallyAsIntended(xs[..|xs| - 1], ys);
      var k := xs[|xs| - 1].key;
      if HasKey(ys, k) {
        var j :| 0 <= j < |ys| && ys[j].key == k;
        CountOfOne(ys, k, j);
      }
      IntendedTalliesAddUp(xs, ys);
      TotalOnes(xs);
    }
  }

  lemma {:induction false} CountOfOne(es: seq<Entry>, x: int, j: int)
    requires 0 <= j < |es| && es[j].key == x
    requires forall i :: 0 <= i < |es| ==> es[i].count == 1
    ensures CountOf(es, x) == 1
  {
    if es[0].key != x {
      assert es[1..][j - 1] == es[j];
      CountOfOne(es[1..], x, j - 1);
    }
  }

  lemma {:induction false} TotalOnes(es: seq<Entry>)
    requires forall i :: 0 <= i < |es| ==> es[i].count == 1
    ensures Total(es) == |es|
  {
    if es != [] {
      TotalOnes(es[..|es| - 1]);
    }
  }

  // ------------------------------------------------------------ the fingerprint

  class FrequencyFingerprint {
    /** The `TreeMap` freqs, as its entries in key order. */
    var entries: seq<Entry>

    ghost predicate Valid()
      reads this
    {
      Sorted(entries) && Positive(entries)
    }

    constructor()
      ensures Valid() && entries == []
    {
      entries := [];
    }

    /** `add(x)`: one more occurrence of x; a new key starts at 1. */
    method Add(x: int) returns (r: int)
      requires Valid()
      modifies this
      ensures Valid() && r == x
      ensures forall y :: CountOf(entries, y) == if y == x then old(CountOf(entries, x)) + 1 else old(CountOf(entries, y))
    {
      var cnt := CountOf(entries, x);
      PutSpec(entries, x, cnt + 1);
      if cnt != 0 {
        entries := Put(entries, x, cnt + 1);
      } else {
        entries := Put(entries, x, 1);
      }
      r := x;
    }

    /** `remove(x)`: one occurrence fewer; a counter of 1 takes its key out. */
    method Remove(x: int)
      requires Valid()
      modifies this
      ensures Valid()
      ensures forall y :: CountOf(entries, y) == if y == x && old(CountOf(entries, x)) > 0 then old(CountOf(entries, x)) - 1 else old(CountOf(entries, y))
    {
      var cnt := CountOf(entries, x);
      if cnt == 0 {
        return;
      }
      if cnt == 1 {
        DeleteSpec(entries, x);
        entries := Delete(entries, x);
      } else {
        PutSpec(entries, x, cnt - 1);
        entries := Put(entries, x, cnt - 1);
      }
    }

    /** `clear(x)`: x's key goes, whatever its count. */
    method Clear(x: int)
      requires Valid()
      modifies this
      ensures Valid()
      ensures forall y :: CountOf(entries, y) == if y == x then 0 else old(CountOf(entries, y))
    {
      DeleteSpec(entries, x);
      entries := Delete(entries, x);
    }

    /** `get(x)`: whether x has an entry, which is whether it occurs at all. */
    function Get(x: int): (b: bool)
      reads this
      requires Valid()
      ensures b <==> CountOf(entries, x) > 0
    {
      HasKey(entries, x)
    }

    /** `freq(x)`: the number of occurrences of x, 0 when it has no entry. */
    function Freq(x: int): (n: int)
      reads this
      requires Valid()
      ensures n >= 0 && (n == 0 <==> !Get(x))
    {
      CountOf(entries, x)
    }

    /**
     * `similarity(that, m)`: the measure over the merged tallies, with
     * `neither` always 0.
     */
    method Similarity(that: FrequencyFingerprint, m: Measure) returns (s: Double)
      requires Valid() && that.Valid()
      ensures s == Compute(m, Excess(entries, that.entries), Excess(that.entries, entries), Shared(entries, that.entries), 0)
    {
      var a, b, both := Tally(entries, that.entries);
      s := Compute(m, a, b, both, 0);
    }
  }
}
