// The neighbour lists of a molecule and the relaxation they define: the
// specification that every relaxation kernel of the benchmark computes.

module Relaxations {
  import Words
  import opened Wrappers
  import opened GraphRefs

  // ------------------------------------------------------------ neighbour lists

  /**
   * The other ends of the first n bonds, listed at v in bond order: what
   * CDK's `GraphUtil.toAdjList` builds, one entry per bond end, so a loop
   * at v lists v twice.
   */
  function Neighbours(ends: seq<(nat, nat)>, v: nat, n: nat): seq<nat>
    requires n <= |ends|
  {
    if n == 0 then [] else Neighbours(ends, v, n - 1) + EndsAt(ends[n - 1], v)
  }

  /** What bond e adds to v's list: the other end, once for each of e's ends that is v. */
  function EndsAt(e: (nat, nat), v: nat): seq<nat>
  {
    (if e.0 == v then [e.1] else []) + (if e.1 == v then [e.0] else [])
  }

  /** `GraphUtil.toAdjList(mol)`: the neighbour list of every atom. */
  function AdjList(mol: Mol): (g: seq<seq<nat>>)
  {
    seq(|mol.atoms|, v requires 0 <= v < |mol.atoms| => Neighbours(mol.ends, v, |mol.ends|))
  }

  /**
   * `mol.getConnectedBondsList(atom)` for the atom at v: the first n bonds
   * holding v, in bond order, each once, a loop included.
   */
  function ConnectedBonds(ends: seq<(nat, nat)>, v: nat, n: nat): seq<nat>
    requires n <= |ends|
  {
    if n == 0 then [] else
      ConnectedBonds(ends, v, n - 1) + (if ends[n - 1].0 == v || ends[n - 1].1 == v then [n - 1] else [])
  }

  /** The atoms at the other ends of the listed bonds, as `bond.getConnectedAtom(atom)` names them. */
  function Others(ends: seq<(nat, nat)>, bs: seq<nat>, v: nat): (r: seq<nat>)
    requires forall k :: 0 <= k < |bs| ==> bs[k] < |ends|
  {
    seq(|bs|, k requires 0 <= k < |bs| => Other(ends[bs[k]], v))
  }

  /** Every listed bond is one of the first n. */
  lemma {:induction false} ConnectedBondsBelow(ends: seq<(nat, nat)>, v: nat, n: nat)
    requires n <= |ends|
    ensures forall k :: 0 <= k < |ConnectedBonds(ends, v, n)| ==> ConnectedBonds(ends, v, n)[k] < n
  {
    if n > 0 {
      ConnectedBondsBelow(ends, v, n - 1);
    }
  }

  /** The neighbours the vertex-wise kernel reads: one per connected bond. */
  function VertexAdj(mol: Mol): (g: seq<seq<nat>>)
  {
    seq(|mol.atoms|, v requires 0 <= v < |mol.atoms| =>
      ConnectedBondsBelow(mol.ends, v, |mol.ends|);
      Others(mol.ends, ConnectedBonds(mol.ends, v, |mol.ends|), v))
  }

  /** Every entry of every list is an atom. */
  predicate InRange(g: seq<seq<nat>>)
  {
    forall v, k :: 0 <= v < |g| && 0 <= k < |g[v]| ==> g[v][k] < |g|
  }

  /** The neighbours of v are the atoms bonded to it. */
  lemma {:induction false} NeighboursBelow(ends: seq<(nat, nat)>, v: nat, n: nat, bound: nat)
    requires n <= |ends| && forall b :: 0 <= b < |ends| ==> ends[b].0 < bound && ends[b].1 < bound
    ensures forall k :: 0 <= k < |Neighbours(ends, v, n)| ==> Neighbours(ends, v, n)[k] < bound
  {
    if n > 0 {
      NeighboursBelow(ends, v, n - 1, bound);
    }
  }

  /** Every bond's two ends are atoms of the molecule, as `Mol.Valid` promises. */
  predicate EndsInRange(mol: Mol)
  {
    forall b :: 0 <= b < |mol.ends| ==> mol.ends[b].0 < |mol.atoms| && mol.ends[b].1 < |mol.atoms|
  }

  lemma AdjListInRange(mol: Mol)
    requires EndsInRange(mol)
    ensures |AdjList(mol)| == |mol.atoms| && InRange(AdjList(mol))
  {
    forall v | 0 <= v < |mol.atoms| {
      NeighboursBelow(mol.ends, v, |mol.ends|, |mol.atoms|);
    }
  }

  lemma VertexAdjInRange(mol: Mol)
    requires EndsInRange(mol)
    ensures |VertexAdj(mol)| == |mol.atoms| && InRange(VertexAdj(mol))
  {
    forall v, k | 0 <= v < |mol.atoms| && 0 <= k < |VertexAdj(mol)[v]|
      ensures VertexAdj(mol)[v][k] < |mol.atoms|
    {
      var bs := ConnectedBonds(mol.ends, v, |mol.ends|);
      ConnectedBondsBelow(mol.ends, v, |mol.ends|);
      assert VertexAdj(mol)[v][k] == Other(mol.ends[bs[k]], v);
    }
  }

  /** Entry k of ns is the other end, from v, of bond bs[k]. */
  predicate OthersOf(ends: seq<(nat, nat)>, v: nat, ns: seq<nat>, bs: seq<nat>)
  {
    |ns| == |bs| && forall k :: 0 <= k < |bs| ==> bs[k] < |ends| && ns[k] == Other(ends[bs[k]], v)
  }

  lemma OthersAppend(ends: seq<(nat, nat)>, v: nat, ns: seq<nat>, bs: seq<nat>, ns': seq<nat>, bs': seq<nat>)
    requires OthersOf(ends, v, ns, bs) && OthersOf(ends, v, ns', bs')
    ensures OthersOf(ends, v, ns + ns', bs + bs')
  {
    forall k | 0 <= k < |bs + bs'|
      ensures (bs + bs')[k] < |ends| && (ns + ns')[k] == Other(ends[(bs + bs')[k]], v)
    {
      if k < |bs| {
        assert (bs + bs')[k] == bs[k] && (ns + ns')[k] == ns[k];
      } else {
        assert (bs + bs')[k] == bs'[k - |bs|] && (ns + ns')[k] == ns'[k - |bs|];
      }
    }
  }

  /** The adjacency list read off the incident bonds: entry k of v's list is the other end of v's k-th bond. */
  lemma {:induction false} NeighboursOthers(ends: seq<(nat, nat)>, v: nat, n: nat)
    requires n <= |ends|
    ensures OthersOf(ends, v, Neighbours(ends, v, n), Incident(ends, v, n))
  {
    if n > 0 {
      NeighboursOthers(ends, v, n - 1);
      var e := ends[n - 1];
      var q := Incident(ends, v, n - 1);
      var x', y' := (if e.0 == v then [n - 1] else []), (if e.1 == v then [n - 1] else []);
      ConcatAssoc(q, x', y');
      BondOthers(ends, v, n - 1);
      OthersAppend(ends, v, Neighbours(ends, v, n - 1), q, EndsAt(e, v), x' + y');
    }
  }

  /** Bond b's own entries: the other end, once for each of its ends that is v. */
  lemma BondOthers(ends: seq<(nat, nat)>, v: nat, b: nat)
    requires b < |ends|
    ensures var e := ends[b];
      OthersOf(ends, v, EndsAt(e, v), (if e.0 == v then [b] else []) + (if e.1 == v then [b] else []))
  {
  }

  /** Without loops, the connected bonds of v are its incident bonds. */
  lemma {:induction false} ConnectedIncident(ends: seq<(nat, nat)>, v: nat, n: nat)
    requires n <= |ends| && NoSelfLoops(ends)
    ensures ConnectedBonds(ends, v, n) == Incident(ends, v, n)
  {
    if n > 0 {
      ConnectedIncident(ends, v, n - 1);
    }
  }

  /** Without loops, the vertex-wise kernel reads exactly the adjacency list. */
  lemma VertexAdjNoLoops(mol: Mol)
    requires NoSelfLoops(mol.ends)
    ensures VertexAdj(mol) == AdjList(mol)
  {
    forall v | 0 <= v < |mol.atoms|
      ensures VertexAdj(mol)[v] == AdjList(mol)[v]
    {
      ConnectedIncident(mol.ends, v, |mol.ends|);
      NeighboursOthers(mol.ends, v, |mol.ends|);
    }
  }

  /** A loop is counted once per bond by the vertex-wise kernel, twice by the adjacency list. */
  lemma LoopCountedOnce(a: Atom)
    ensures var mol := Mol([a], [(0, 0)]);
      VertexAdj(mol) == [[0]] && AdjList(mol) == [[0, 0]]
  {
    var mol := Mol([a], [(0, 0)]);
    assert ConnectedBonds(mol.ends, 0, 1) == ConnectedBonds(mol.ends, 0, 0) + [0] == [0];
    assert VertexAdj(mol)[0] == Others(mol.ends, [0], 0) == [0];
    assert Neighbours(mol.ends, 0, 1) == Neighbours(mol.ends, 0, 0) + [0] + [0] == [0, 0];
    assert AdjList(mol)[0] == [0, 0];
  }

  /** How many times w is listed in s. */
  function Count(s: seq<nat>, w: nat): nat
  {
    if s == [] then 0 else Count(s[..|s| - 1], w) + (if s[|s| - 1] == w then 1 else 0)
  }

  lemma {:induction false} CountAppend(p: seq<nat>, q: seq<nat>, w: nat)
    ensures Count(p + q, w) == Count(p, w) + Count(q, w)
    decreases |q|
  {
    if q == [] {
      assert p + q == p;
    } else {
      assert (p + q)[..|p + q| - 1] == p + q[..|q| - 1];
      CountAppend(p, q[..|q| - 1], w);
    }
  }

  lemma {:induction false} CountMultiset(s: seq<nat>, w: nat)
    ensures Count(s, w) == multiset(s)[w]
    decreases |s|
  {
    if s != [] {
      CountMultiset(s[..|s| - 1], w);
      assert s == s[..|s| - 1] + [s[|s| - 1]];
    }
  }

  lemma EndsJoin(e: (nat, nat), v: nat, w: nat)
    ensures Count(EndsAt(e, v), w) == Joins(e, v, w)
  {
    var x, y := (if e.0 == v then [e.1] else []), (if e.1 == v then [e.0] else []);
    CountAppend(x, y, w);
    assert x != [] ==> x[..0] == [];
    assert y != [] ==> y[..0] == [];
  }

  /** How many of bond e's two ends are v with w at the other end. */
  function Joins(e: (nat, nat), v: nat, w: nat): nat
  {
    (if e.0 == v && e.1 == w then 1 else 0) + (if e.1 == v && e.0 == w then 1 else 0)
  }

  /** How many times the first n bonds list w at v. */
  function Adjacency(ends: seq<(nat, nat)>, v: nat, w: nat, n: nat): nat
    requires n <= |ends|
  {
    if n == 0 then 0 else Adjacency(ends, v, w, n - 1) + Joins(ends[n - 1], v, w)
  }

  lemma {:induction false} NeighboursCount(ends: seq<(nat, nat)>, v: nat, w: nat, n: nat)
    requires n <= |ends|
    ensures Count(Neighbours(ends, v, n), w) == Adjacency(ends, v, w, n)
  {
    if n > 0 {
      NeighboursCount(ends, v, w, n - 1);
      CountAppend(Neighbours(ends, v, n - 1), EndsAt(ends[n - 1], v), w);
      EndsJoin(ends[n - 1], v, w);
    }
  }

  lemma {:induction false} AdjacencySymmetric(ends: seq<(nat, nat)>, v: nat, w: nat, n: nat)
    requires n <= |ends|
    ensures Adjacency(ends, v, w, n) == Adjacency(ends, w, v, n)
  {
    if n > 0 {
      AdjacencySymmetric(ends, v, w, n - 1);
    }
  }

  /** w is listed at v as often as v at w: the adjacency list is undirected. */
  lemma NeighboursSymmetric(ends: seq<(nat, nat)>, v: nat, w: nat, n: nat)
    requires n <= |ends|
    ensures multiset(Neighbours(ends, v, n))[w] == multiset(Neighbours(ends, w, n))[v]
  {
    NeighboursCount(ends, v, w, n);
    NeighboursCount(ends, w, v, n);
    AdjacencySymmetric(ends, v, w, n);
    CountMultiset(Neighbours(ends, v, n), w);
    CountMultiset(Neighbours(ends, w, n), v);
  }

  // ------------------------------------------------------------ one round

  /** x[w] summed over the listed w, in `int` arithmetic before wrapping. */
  function Sum(x: seq<int>, ws: seq<nat>): int
  {
    if ws == [] then 0 else
      var w := ws[|ws| - 1];
      Sum(x, ws[..|ws| - 1]) + (if w < |x| then x[w] else 0)
  }

  /** A sum over two lists is the sum of their sums. */
  lemma {:induction false} SumAppend(x: seq<int>, a: seq<nat>, b: seq<nat>)
    ensures Sum(x, a + b) == Sum(x, a) + Sum(x, b)
    decreases |b|
  {
    if b == [] {
      assert a + b == a;
    } else {
      var c := a + b;
      assert c[..|c| - 1] == a + b[..|b| - 1] && c[|c| - 1] == b[|b| - 1];
      SumAppend(x, a, b[..|b| - 1]);
    }
  }

  /** A list one entry longer adds that entry's value. */
  lemma SumPrefix(x: seq<int>, ws: seq<nat>, k: nat)
    requires k < |ws| && ws[k] < |x|
    ensures Sum(x, ws[..k + 1]) == Sum(x, ws[..k]) + x[ws[k]]
  {
    assert ws[..k + 1][..k] == ws[..k];
  }

  /** Listing the same neighbours in another order gives the same sum. */
  lemma {:induction false} SumPermutation(x: seq<int>, a: seq<nat>, b: seq<nat>)
    requires multiset(a) == multiset(b)
    ensures Sum(x, a) == Sum(x, b)
    decreases |a|
  {
    if a != [] {
      var w := a[|a| - 1];
      assert w in multiset(b);
      var i :| 0 <= i < |b| && b[i] == w;
      var rest := b[..i] + b[i + 1..];
      assert b == b[..i] + [w] + b[i + 1..];
      assert a == a[..|a| - 1] + [w];
      assert multiset(a) == multiset(a[..|a| - 1]) + multiset{w};
      assert multiset(b) == multiset(b[..i]) + multiset{w} + multiset(b[i + 1..]);
      assert multiset(rest) == multiset(b[..i]) + multiset(b[i + 1..]);
      assert multiset(a[..|a| - 1]) == multiset(a) - multiset{w};
      assert multiset(rest) == multiset(b) - multiset{w};
      SumPermutation(x, a[..|a| - 1], rest);
      SumAppend(x, b[..i] + [w], b[i + 1..]);
      SumAppend(x, b[..i], [w]);
      SumAppend(x, b[..i], b[i + 1..]);
    }
  }

  /** The new value of atom v: its value plus its neighbours' values, added as Java `int`s. */
  function RoundAt(x: seq<Words.Int32>, g: seq<seq<nat>>, v: nat): Words.Int32
    requires |g| == |x| && v < |x|
  {
    Words.ToInt32(x[v] + Sum(x, g[v]))
  }

  /** One round: every atom's value grows by its neighbours' values. */
  function Round(x: seq<Words.Int32>, g: seq<seq<nat>>): (r: seq<Words.Int32>)
    requires |g| == |x|
    ensures |r| == |x| && forall v :: 0 <= v < |x| ==> r[v] == RoundAt(x, g, v)
  {
    seq(|x|, v requires 0 <= v < |x| => RoundAt(x, g, v))
  }

  /** y holds the round's values for the atoms before v and the old values for the rest. */
  predicate RowsDone(x: seq<Words.Int32>, y: seq<Words.Int32>, g: seq<seq<nat>>, v: nat)
    requires |g| == |x|
  {
    |y| == |x| && v <= |x| &&
    (forall j :: 0 <= j < v ==> y[j] == RoundAt(x, g, j)) &&
    (forall j :: v <= j < |x| ==> y[j] == x[j])
  }

  /** Giving atom v its round's value, and changing nothing else, extends RowsDone by one atom. */
  lemma RowStep(x: seq<Words.Int32>, y: seq<Words.Int32>, y': seq<Words.Int32>, g: seq<seq<nat>>, v: nat)
    requires |g| == |x| && v < |x| && RowsDone(x, y, g, v)
    requires |y'| == |y| && y'[v] == Words.ToInt32(x[v] + Sum(x, g[v]))
    requires forall j :: 0 <= j < |y| && j != v ==> y'[j] == y[j]
    ensures RowsDone(x, y', g, v + 1)
  {
  }

  /** Once every atom has had its round, the values are the round. */
  lemma RowsRound(x: seq<Words.Int32>, y: seq<Words.Int32>, g: seq<seq<nat>>)
    requires |g| == |x| && RowsDone(x, y, g, |x|)
    ensures y == Round(x, g)
  {
  }

  /** r rounds from x. */
  function Iterate(x: seq<Words.Int32>, g: seq<seq<nat>>, r: nat): (y: seq<Words.Int32>)
    requires |g| == |x|
    ensures |y| == |x|
  {
    if r == 0 then x else Round(Iterate(x, g, r - 1), g)
  }

  /** The atomic numbers, the values relaxation starts from. */
  function AtomicNumbers(mol: Mol): (x: seq<Words.Int32>)
  {
    seq(|mol.atoms|, i requires 0 <= i < |mol.atoms| => mol.atoms[i].atomicNumber)
  }

  /** The values summed, as `check += aNext` adds them. */
  function Total(x: seq<int>): int
  {
    if x == [] then 0 else Total(x[..|x| - 1]) + x[|x| - 1]
  }

  lemma TotalPrefix(x: seq<int>, k: nat)
    requires k < |x|
    ensures Total(x[..k + 1]) == Total(x[..k]) + x[k]
  {
    assert x[..k + 1][..k] == x[..k];
  }

  /** An atom with no bonds keeps its value round after round. */
  lemma {:induction false} IsolatedKeeps(x: seq<Words.Int32>, g: seq<seq<nat>>, r: nat, v: nat)
    requires |g| == |x| && v < |x| && g[v] == []
    ensures Iterate(x, g, r)[v] == x[v]
  {
    if r > 0 {
      IsolatedKeeps(x, g, r - 1, v);
      Words.WrapInt32(x[v]);
    }
  }

  /** Equal sums give equal new values. */
  lemma RoundAgrees(y: seq<Words.Int32>, g: seq<seq<nat>>, h: seq<seq<nat>>, v: nat, s: int)
    requires |g| == |y| && |h| == |y| && v < |y|
    requires Sum(y, g[v]) == s && Sum(y, h[v]) == s
    ensures Round(y, g)[v] == Round(y, h)[v]
  {
  }

  lemma RoundOrderFree(y: seq<Words.Int32>, g: seq<seq<nat>>, h: seq<seq<nat>>)
    requires |g| == |y| && |h| == |y|
    requires forall v :: 0 <= v < |y| ==> multiset(g[v]) == multiset(h[v])
    ensures Round(y, g) == Round(y, h)
  {
    forall v | 0 <= v < |y| ensures Round(y, g)[v] == Round(y, h)[v] {
      SumPermutation(y, g[v], h[v]);
      RoundAgrees(y, g, h, v, Sum(y, g[v]));
    }
  }

  /** Lists that hold the same neighbours, in whatever order, relax alike. */
  lemma {:induction false} IterateOrderFree(x: seq<Words.Int32>, g: seq<seq<nat>>, h: seq<seq<nat>>, r: nat)
    requires |g| == |x| && |h| == |x|
    requires forall v :: 0 <= v < |x| ==> multiset(g[v]) == multiset(h[v])
    ensures Iterate(x, g, r) == Iterate(x, h, r)
  {
    if r > 0 {
      IterateOrderFree(x, g, h, r - 1);
      RoundOrderFree(Iterate(x, g, r - 1), g, h);
    }
  }

  // ------------------------------------------------------------ kernel steps

  /** Adding the next listed neighbour's value to a running `int` sum. */
  lemma AccumulateStep(x: seq<Words.Int32>, ws: seq<nat>, v: nat, k: nat, acc: Words.Int32)
    requires v < |x| && k < |ws| && ws[k] < |x|
    requires acc == Words.ToInt32(x[v] + Sum(x, ws[..k]))
    ensures Words.ToInt32(acc + x[ws[k]]) == Words.ToInt32(x[v] + Sum(x, ws[..k + 1]))
  {
    SumPrefix(x, ws, k);
    Words.WrapAdd(x[v] + Sum(x, ws[..k]), x[ws[k]]);
  }

  /** A running sum over no neighbours is the value itself. */
  lemma AccumulateStart(x: seq<Words.Int32>, ws: seq<nat>, v: nat)
    requires v < |x|
    ensures x[v] == Words.ToInt32(x[v] + Sum(x, ws[..0]))
  {
    assert ws[..0] == [];
    Words.WrapInt32(x[v]);
  }

  /** One more bond adds, at v, the value at its other end once per end at v. */
  lemma NeighboursSum(x: seq<int>, ends: seq<(nat, nat)>, v: nat, n: nat)
    requires 0 < n <= |ends|
    ensures var e := ends[n - 1];
      Sum(x, Neighbours(ends, v, n)) == Sum(x, Neighbours(ends, v, n - 1)) +
        (if e.0 == v && e.1 < |x| then x[e.1] else 0) + (if e.1 == v && e.0 < |x| then x[e.0] else 0)
  {
    var e := ends[n - 1];
    var p := Neighbours(ends, v, n - 1);
    var a, b := (if e.0 == v then [e.1] else []), (if e.1 == v then [e.0] else []);
    assert Neighbours(ends, v, n) == (p + a) + b;
    SumAppend(x, p + a, b);
    SumAppend(x, p, a);
    assert a != [] ==> a[..0] == [];
    assert b != [] ==> b[..0] == [];
  }

  /**
   * In a snapshot, entry k of atom i's adjacency list is the atom that
   * `getConnectedAtom` and `getOtherIdx` name for the k-th bond on i's list.
   */
  lemma SnapshotAdjacency(refs: seq<AtomRef>, mol: Mol, i: nat, k: nat)
    requires Snapshot(refs, mol) && i < |refs|
    ensures |refs[i].bonds| == |Neighbours(mol.ends, i, |mol.ends|)|
    ensures k < |refs[i].bonds| ==>
      var w := Neighbours(mol.ends, i, |mol.ends|)[k];
      w < |refs| && refs[w].idx == w && refs[i].bonds[k].Valid() &&
      refs[i].bonds[k].GetConnectedAtom(Ref(refs[i])) == Ok(refs[w]) &&
      refs[i].bonds[k].GetOtherIdx(i) == w
  {
    SnapshotOthers(refs, mol, i);
    NeighboursOthers(mol.ends, i, |mol.ends|);
    if k < |refs[i].bonds| {
      SnapshotNeighbour(refs, mol, i, k);
    }
  }

  /** What a relaxation leaves in `next`: atomCount rounds from the atomic numbers over the lists g. */
  function Relaxed(mol: Mol, g: seq<seq<nat>>): (y: seq<Words.Int32>)
    requires |g| == |mol.atoms|
    ensures |y| == |mol.atoms|
  {
    Iterate(AtomicNumbers(mol), g, |mol.atoms|)
  }

  /** What the bonds before n add to atom v, bond by bond: the other end's value at each end that is v. */
  function EdgeSum(x: seq<int>, ends: seq<(nat, nat)>, v: nat, n: nat): int
    requires n <= |ends|
  {
    if n == 0 then 0
    else
      var e := ends[n - 1];
      EdgeSum(x, ends, v, n - 1) + (if e.0 == v && e.1 < |x| then x[e.1] else 0) + (if e.1 == v && e.0 < |x| then x[e.0] else 0)
  }

  /** Adding bond by bond gives the sum over the adjacency list. */
  lemma {:induction false} EdgeSumNeighbours(x: seq<int>, ends: seq<(nat, nat)>, v: nat, n: nat)
    requires n <= |ends|
    ensures EdgeSum(x, ends, v, n) == Sum(x, Neighbours(ends, v, n))
  {
    if n > 0 {
      EdgeSumNeighbours(x, ends, v, n - 1);
      NeighboursSum(x, ends, v, n);
    }
  }

  /** Values of the atoms after the bonds before b have been added edge-wise. */
  predicate EdgesDone(x: seq<Words.Int32>, y: seq<Words.Int32>, ends: seq<(nat, nat)>, b: nat)
    requires b <= |ends|
  {
    |y| == |x| && forall v :: 0 <= v < |x| ==> y[v] == Words.ToInt32(x[v] + EdgeSum(x, ends, v, b))
  }

  /** Before any bond, every value is its own. */
  lemma EdgesStart(x: seq<Words.Int32>, ends: seq<(nat, nat)>)
    ensures EdgesDone(x, x, ends, 0)
  {
    forall v | 0 <= v < |x| ensures x[v] == Words.ToInt32(x[v] + EdgeSum(x, ends, v, 0)) {
      Words.WrapInt32(x[v]);
    }
  }

  /** `next[begIdx] += prev[endIdx]; next[endIdx] += prev[begIdx];` adds bond b. */
  lemma EdgeStep(x: seq<Words.Int32>, y: seq<Words.Int32>, ends: seq<(nat, nat)>, b: nat)
    requires b < |ends| && ends[b].0 < |x| && ends[b].1 < |x| && EdgesDone(x, y, ends, b)
    ensures var u, w := ends[b].0, ends[b].1;
      var y' := y[u := Words.ToInt32(y[u] as int + x[w])];
      EdgesDone(x, y'[w := Words.ToInt32(y'[w] as int + x[u])], ends, b + 1)
  {
    var u, w := ends[b].0, ends[b].1;
    var y' := y[u := Words.ToInt32(y[u] as int + x[w])];
    var y'' := y'[w := Words.ToInt32(y'[w] as int + x[u])];
    forall v | 0 <= v < |x| ensures y''[v] == Words.ToInt32(x[v] + EdgeSum(x, ends, v, b + 1)) {
      var y1 := if v == u then Words.ToInt32(y[v] as int + x[w]) else y[v];
      assert y'[v] == y1;
      var p, q := (if v == u then x[w] else 0), (if v == w then x[u] else 0);
      EdgeValue(x[v], EdgeSum(x, ends, v, b), y[v], p, q, y1, y''[v], v == u, v == w, EdgeSum(x, ends, v, b + 1));
    }
  }

  /** The value at one atom after the two additions, as plain 32-bit arithmetic. */
  lemma EdgeValue(xv: int, s: int, yv: Words.Int32, p: int, q: int, y1: Words.Int32, r: int, atBeg: bool, atEnd: bool, total: int)
    requires yv == Words.ToInt32(xv + s)
    requires total == s + p + q
    requires !atBeg ==> p == 0
    requires !atEnd ==> q == 0
    requires y1 == if atBeg then Words.ToInt32(yv + p) else yv
    requires r == if atEnd then Words.ToInt32(y1 + q) else y1
    ensures r == Words.ToInt32(xv + total)
  {
    Words.WrapAdd(xv + s, p);
    Words.WrapAdd(xv + s + p, q);
    if !atBeg {
      Words.WrapInt32(yv);
    }
    if !atEnd {
      Words.WrapInt32(y1);
    }
  }

  /** Once every bond is added, the edge-wise values are one round over the adjacency list. */
  lemma EdgesRound(x: seq<Words.Int32>, y: seq<Words.Int32>, mol: Mol)
    requires |x| == |mol.atoms| && EdgesDone(x, y, mol.ends, |mol.ends|)
    ensures y == Round(x, AdjList(mol))
  {
    forall v | 0 <= v < |x| ensures y[v] == Round(x, AdjList(mol))[v] {
      EdgeSumNeighbours(x, mol.ends, v, |mol.ends|);
    }
  }
}
