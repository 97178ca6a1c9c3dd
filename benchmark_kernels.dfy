// The algorithms the readopt-ds benchmark times: depth-first searches that
// count the atoms they reach, and relaxations that sum neighbour values,
// over CDK's containers, adjacency lists and the AtomRef/BondRef snapshot.

module BenchmarkKernels {
  import Words
  import opened Wrappers
  import opened GraphRefs
  import opened Relaxations

  /** The fourteen algorithms, in the order the benchmark lists them. */
  datatype Kind =
    | DepthFirstContainer    // AtomContainer, DepthFirst
    | DepthFirstAdjFlag      // GraphUtil, DepthFirst, VisitFlag
    | DepthFirstAdjMapFlag   // GraphUtil+BondMap, DepthFirst, VisitFlag
    | DepthFirstAdjMapArray  // GraphUtil+BondMap, DepthFirst, VisitArray
    | DepthFirstAdjArray     // GraphUtil, DepthFirst, VisitArray
    | DepthFirstRefFlag      // AtomRef, DepthFirst, VisitFlag
    | DepthFirstRefArray     // AtomRef, DepthFirst, VisitArray
    | RelaxContainer         // AtomContainer, Relaxation
    | RelaxImproved          // AtomContainer, Relaxation, Improved
    | RelaxAdj               // GraphUtil, Relaxation
    | RelaxRef               // AtomRef, Relaxation
    | RelaxXor               // AtomRef, Relaxation, Xor
    | RelaxBonds             // BondRef, Relaxation
    | RelaxAdjMap            // GraphUtil+BondMap, Relaxation
  {
    predicate DepthFirst()
    {
      this in {DepthFirstContainer, DepthFirstAdjFlag, DepthFirstAdjMapFlag, DepthFirstAdjMapArray,
               DepthFirstAdjArray, DepthFirstRefFlag, DepthFirstRefArray}
    }

    /** Whether the algorithm first builds a structure (adjacency list or snapshot), timed apart as `tInit`. */
    predicate HasInit()
    {
      this != DepthFirstContainer && this != RelaxContainer && this != RelaxImproved
    }
  }

  /** `MeasureAlgorithm`: an algorithm's description, its accumulated times and its checksum. */
  class MeasureAlgorithm {
    var tInit: int
    var tRun: int
    var check: int
    const desc: string
    const kind: Kind

    constructor (desc: string, kind: Kind)
      ensures this.desc == desc && this.kind == kind
      ensures tInit == 0 && tRun == 0 && check == 0
    {
      this.desc := desc;
      this.kind := kind;
      tInit, tRun, check := 0, 0, 0;
    }
  }

  // ------------------------------------------------------------ visit marks

  /** How many atoms are marked visited. */
  function Marked(s: seq<bool>): (m: nat)
    ensures m <= |s|
  {
    if s == [] then 0 else Marked(s[..|s| - 1]) + (if s[|s| - 1] then 1 else 0)
  }

  /** Marks are only ever added. */
  predicate Grows(a: seq<bool>, b: seq<bool>)
  {
    |a| == |b| && forall i :: 0 <= i < |a| && a[i] ==> b[i]
  }

  /** Marking an unmarked atom adds one. */
  lemma {:induction false} MarkOne(s: seq<bool>, i: nat)
    requires i < |s| && !s[i]
    ensures Marked(s[i := true]) == Marked(s) + 1
  {
    var t := s[i := true];
    if i < |s| - 1 {
      assert t[..|t| - 1] == s[..|s| - 1][i := true];
      MarkOne(s[..|s| - 1], i);
    } else {
      assert t[..|t| - 1] == s[..|s| - 1];
    }
  }

  /** More marks, a larger count. */
  lemma {:induction false} MarkedGrows(a: seq<bool>, b: seq<bool>)
    requires Grows(a, b)
    ensures Marked(a) <= Marked(b)
  {
    if a != [] {
      MarkedGrows(a[..|a| - 1], b[..|b| - 1]);
    }
  }

  /** No marks count zero, all marks count every atom. */
  lemma {:induction false} MarkedExtremes(s: seq<bool>)
    ensures (forall i :: 0 <= i < |s| ==> !s[i]) ==> Marked(s) == 0
    ensures (forall i :: 0 <= i < |s| ==> s[i]) ==> Marked(s) == |s|
  {
    if s != [] {
      MarkedExtremes(s[..|s| - 1]);
    }
  }

  /** Atom w is marked. */
  predicate Reached(visit: seq<bool>, w: nat)
  {
    w < |visit| && visit[w]
  }

  /** A marked atom stays marked. */
  lemma ReachedGrows(a: seq<bool>, b: seq<bool>, w: nat)
    requires Grows(a, b) && Reached(a, w)
    ensures Reached(b, w)
  {
  }

  /** The atom bond b leads to from a is marked. */
  predicate ReachedBy(visit: seq<bool>, a: AtomRef, b: BondRef)
  {
    var r := b.GetConnectedAtom(Ref(a));
    r.Ok? && Reached(visit, r.value.idx)
  }

  // ------------------------------------------------------------ depth-first search

  /**
   * `dfs(mol, adjlist, src, prev, visit)`: count src, mark it, and recurse
   * into every unmarked neighbour except the one we came from. Every call
   * marks one more atom, so `check` grows by the number of atoms it marks.
   */
  method DfsAdj(alg: MeasureAlgorithm, g: seq<seq<nat>>, src: nat, prev: nat, visit: array<bool>)
    requires InRange(g) && visit.Length == |g| && src < |g| && !visit[src]
    modifies alg`check, visit
    ensures Grows(old(visit[..]), visit[..]) && visit[src]
    ensures alg.check == old(alg.check) + Marked(visit[..]) - old(Marked(visit[..]))
    ensures forall k :: 0 <= k < |g[src]| && g[src][k] != prev ==> visit[g[src][k]]
    decreases |g| - Marked(visit[..])
  {
    alg.check := alg.check + 1;
    MarkOne(visit[..], src);
    visit[src] := true;
    for k := 0 to |g[src]|
      invariant Grows(old(visit[..]), visit[..]) && visit[src]
      invariant alg.check == old(alg.check) + Marked(visit[..]) - old(Marked(visit[..]))
      invariant Marked(visit[..]) > old(Marked(visit[..]))
      invariant forall j :: 0 <= j < k && g[src][j] != prev ==> visit[g[src][j]]
    {
      var dst := g[src][k];
      if dst == prev {
        continue;
      }
      if !visit[dst] {
        ghost var before := visit[..];
        DfsAdj(alg, g, dst, src, visit);
        MarkedGrows(before, visit[..]);
      }
    }
  }

  /**
   * The search loop of the adjacency-list variants: a search from every
   * atom not yet marked. Each atom is counted once.
   */
  method VisitAllAdj(alg: MeasureAlgorithm, g: seq<seq<nat>>) returns (visit: array<bool>)
    requires InRange(g)
    modifies alg`check
    ensures fresh(visit) && visit.Length == |g| && forall i :: 0 <= i < |g| ==> visit[i]
    ensures alg.check == old(alg.check) + |g|
  {
    visit := new bool[|g|](_ => false);
    MarkedExtremes(visit[..]);
    for i := 0 to |g|
      invariant forall j :: 0 <= j < i ==> visit[j]
      invariant alg.check == old(alg.check) + Marked(visit[..])
    {
      if !visit[i] {
        DfsAdj(alg, g, i, i, visit);
      }
    }
    MarkedExtremes(visit[..]);
  }

  /** Bond b on a's list leads, by `getConnectedAtom`, to an atom of refs at its own index. */
  predicate Leads(refs: seq<AtomRef>, a: AtomRef, b: BondRef)
  {
    var r := b.GetConnectedAtom(Ref(a));
    r.Ok? && r.value.idx < |refs| && refs[r.value.idx] == r.value
  }

  /** Every bond on every list of refs leads to an atom of refs. */
  predicate Navigable(refs: seq<AtomRef>)
    reads refs
  {
    forall i, k :: 0 <= i < |refs| && 0 <= k < |refs[i].bonds| ==> Leads(refs, refs[i], refs[i].bonds[k])
  }

  /** A snapshot can be walked: every bond on every list leads to an atom of the snapshot. */
  lemma SnapshotNavigable(refs: seq<AtomRef>, mol: Mol)
    requires Snapshot(refs, mol)
    ensures Navigable(refs)
  {
    forall i, k | 0 <= i < |refs| && 0 <= k < |refs[i].bonds|
      ensures Leads(refs, refs[i], refs[i].bonds[k])
    {
      SnapshotAdjacency(refs, mol, i, k);
    }
  }

  /** The atom bond k of atom i leads to is entry k of i's adjacency list. */
  lemma SnapshotWalksAdjList(refs: seq<AtomRef>, mol: Mol)
    requires Snapshot(refs, mol)
    ensures forall i :: 0 <= i < |refs| ==> |refs[i].bonds| == |AdjList(mol)[i]|
    ensures forall i, k :: 0 <= i < |refs| && 0 <= k < |refs[i].bonds| ==>
      refs[i].bonds[k].GetConnectedAtom(Ref(refs[i])).Ok? &&
      refs[i].bonds[k].GetConnectedAtom(Ref(refs[i])).value.idx == AdjList(mol)[i][k]
  {
    forall i | 0 <= i < |refs| ensures |refs[i].bonds| == |AdjList(mol)[i]| {
      SnapshotAdjacency(refs, mol, i, 0);
    }
    forall i, k | 0 <= i < |refs| && 0 <= k < |refs[i].bonds|
      ensures refs[i].bonds[k].GetConnectedAtom(Ref(refs[i])).Ok? &&
        refs[i].bonds[k].GetConnectedAtom(Ref(refs[i])).value.idx == AdjList(mol)[i][k]
    {
      SnapshotAdjacency(refs, mol, i, k);
    }
  }

  /**
   * The AtomRef `dfs(src, prev, visit)`: the same search over the snapshot,
   * stepping along src's bond list with `getConnectedAtom`; prev is the bond
   * we came by, null at a root.
   */
  method DfsRef(alg: MeasureAlgorithm, ghost refs: seq<AtomRef>, src: AtomRef, prev: BondRef?, visit: array<bool>)
    requires Navigable(refs) && visit.Length == |refs|
    requires src.idx < |refs| && refs[src.idx] == src && !visit[src.idx]
    modifies alg`check, visit
    ensures Grows(old(visit[..]), visit[..]) && visit[src.idx]
    ensures alg.check == old(alg.check) + Marked(visit[..]) - old(Marked(visit[..]))
    ensures forall k :: 0 <= k < |src.bonds| && src.bonds[k] != prev ==> ReachedBy(visit[..], src, src.bonds[k])
    decreases |refs| - Marked(visit[..]), 0
  {
    alg.check := alg.check + 1;
    MarkOne(visit[..], src.idx);
    visit[src.idx] := true;
    var bonds := src.bonds;
    for k := 0 to |bonds|
      invariant Grows(old(visit[..]), visit[..]) && visit[src.idx]
      invariant alg.check == old(alg.check) + Marked(visit[..]) - old(Marked(visit[..]))
      invariant Marked(visit[..]) > old(Marked(visit[..]))
      invariant forall j :: 0 <= j < k && bonds[j] != prev ==> ReachedBy(visit[..], src, bonds[j])
    {
      ghost var before := visit[..];
      DfsRefStep(alg, refs, src, k, prev, visit);
      MarkedGrows(before, visit[..]);
      ReachedByGrows(before, visit[..], src, prev, k);
      GrowsTrans(old(visit[..]), before, visit[..]);
    }
  }

  /** The bonds already followed still lead to marked atoms after more marking. */
  lemma ReachedByGrows(a: seq<bool>, b: seq<bool>, src: AtomRef, prev: BondRef?, k: nat)
    requires Grows(a, b) && k <= |src.bonds|
    requires forall j :: 0 <= j < k && src.bonds[j] != prev ==> ReachedBy(a, src, src.bonds[j])
    ensures forall j :: 0 <= j < k && src.bonds[j] != prev ==> ReachedBy(b, src, src.bonds[j])
  {
    forall j | 0 <= j < k && src.bonds[j] != prev ensures ReachedBy(b, src, src.bonds[j]) {
      ReachedGrows(a, b, src.bonds[j].GetConnectedAtom(Ref(src)).value.idx);
    }
  }

  lemma GrowsTrans(a: seq<bool>, b: seq<bool>, c: seq<bool>)
    requires Grows(a, b) && Grows(b, c)
    ensures Grows(a, c)
  {
  }

  /** One pass of the loop in the AtomRef `dfs`: bond k of src, skipped when it is prev. */
  method DfsRefStep(alg: MeasureAlgorithm, ghost refs: seq<AtomRef>, src: AtomRef, k: nat, prev: BondRef?, visit: array<bool>)
    requires Navigable(refs) && visit.Length == |refs|
    requires src.idx < |refs| && refs[src.idx] == src && visit[src.idx] && k < |src.bonds|
    modifies alg`check, visit
    ensures Grows(old(visit[..]), visit[..])
    ensures alg.check == old(alg.check) + Marked(visit[..]) - old(Marked(visit[..]))
    ensures src.bonds[k] != prev ==> ReachedBy(visit[..], src, src.bonds[k])
    decreases |refs| - Marked(visit[..]), 1
  {
    var bond := src.bonds[k];
    if bond == prev {
      return;
    }
    assert Leads(refs, refs[src.idx], refs[src.idx].bonds[k]);
    var dst := bond.GetConnectedAtom(Ref(src)).value;
    if !visit[dst.idx] {
      DfsRef(alg, refs, dst, bond, visit);
    }
  }

  /** The search loop of the AtomRef variants, over the snapshot's atoms in order. */
  method VisitAllRefs(alg: MeasureAlgorithm, arefs: array<AtomRef>, ghost mol: Mol) returns (visit: array<bool>)
    requires Snapshot(arefs[..], mol)
    modifies alg`check
    ensures fresh(visit) && visit.Length == arefs.Length && forall i :: 0 <= i < arefs.Length ==> visit[i]
    ensures alg.check == old(alg.check) + arefs.Length
  {
    SnapshotNavigable(arefs[..], mol);
    visit := SearchRefs(alg, arefs);
  }

  /** The loop itself, over refs that can be walked and sit at their own indices. */
  method SearchRefs(alg: MeasureAlgorithm, arefs: array<AtomRef>) returns (visit: array<bool>)
    requires Navigable(arefs[..]) && forall i :: 0 <= i < arefs.Length ==> arefs[i].idx == i
    modifies alg`check
    ensures fresh(visit) && visit.Length == arefs.Length && forall i :: 0 <= i < arefs.Length ==> visit[i]
    ensures alg.check == old(alg.check) + arefs.Length
  {
    visit := new bool[arefs.Length](_ => false);
    MarkedExtremes(visit[..]);
    for i := 0 to arefs.Length
      invariant forall j :: 0 <= j < i ==> visit[j]
      invariant alg.check == old(alg.check) + Marked(visit[..])
    {
      var aref := arefs[i];
      if !visit[aref.idx] {
        DfsRef(alg, arefs[..], aref, null, visit);
      }
    }
    MarkedExtremes(visit[..]);
  }

  /**
   * The AtomContainer `dfs(mol, src, prev)`: the same search over the
   * container, stepping along `getConnectedBondsList(src)`; prev is the bond
   * we came by, -1 for null at a root.
   */
  method DfsContainer(alg: MeasureAlgorithm, mol: Mol, src: nat, prev: int, visit: array<bool>)
    requires mol.Valid() && visit.Length == |mol.atoms| && src < |mol.atoms| && !visit[src]
    modifies alg`check, visit
    ensures Grows(old(visit[..]), visit[..]) && visit[src]
    ensures alg.check == old(alg.check) + Marked(visit[..]) - old(Marked(visit[..]))
    ensures forall k :: 0 <= k < |ConnectedBonds(mol.ends, src, |mol.ends|)| ==>
      (ConnectedBonds(mol.ends, src, |mol.ends|)[k] != prev ==>
        k < |VertexAdj(mol)[src]| && Reached(visit[..], VertexAdj(mol)[src][k]))
    decreases |mol.atoms| - Marked(visit[..])
  {
    alg.check := alg.check + 1;
    MarkOne(visit[..], src);
    visit[src] := true;
    var bonds := ConnectedBonds(mol.ends, src, |mol.ends|);
    ConnectedBondsBelow(mol.ends, src, |mol.ends|);
    VertexAdjInRange(mol);
    for k := 0 to |bonds|
      invariant Grows(old(visit[..]), visit[..]) && visit[src]
      invariant alg.check == old(alg.check) + Marked(visit[..]) - old(Marked(visit[..]))
      invariant Marked(visit[..]) > old(Marked(visit[..]))
      invariant forall j :: 0 <= j < k && bonds[j] != prev ==> Reached(visit[..], VertexAdj(mol)[src][j])
    {
      var bond := bonds[k];
      if bond == prev {
        continue;
      }
      var dst := Other(mol.ends[bond], src);
      assert dst == VertexAdj(mol)[src][k];
      if !visit[dst] {
        ghost var before := visit[..];
        DfsContainer(alg, mol, dst, bond, visit);
        MarkedGrows(before, visit[..]);
      }
    }
  }

  /** The search loop of the AtomContainer variant, over the atoms in order. */
  method VisitAllContainer(alg: MeasureAlgorithm, mol: Mol) returns (visit: array<bool>)
    requires mol.Valid()
    modifies alg`check
    ensures fresh(visit) && visit.Length == |mol.atoms| && forall i :: 0 <= i < |mol.atoms| ==> visit[i]
    ensures alg.check == old(alg.check) + |mol.atoms|
  {
    visit := new bool[|mol.atoms|](_ => false);
    MarkedExtremes(visit[..]);
    for i := 0 to |mol.atoms|
      invariant forall j :: 0 <= j < i ==> visit[j]
      invariant alg.check == old(alg.check) + Marked(visit[..])
    {
      if !visit[i] {
        DfsContainer(alg, mol, i, -1, visit);
      }
    }
    MarkedExtremes(visit[..]);
  }

  // ------------------------------------------------------------ relaxation

  /** `next[i] = prev[i] = mol.getAtom(i).getAtomicNumber()` for every atom. */
  method StartValues(mol: Mol) returns (prev: array<Words.Int32>, next: array<Words.Int32>)
    ensures fresh(prev) && fresh(next) && prev != next
    ensures prev[..] == AtomicNumbers(mol) && next[..] == AtomicNumbers(mol)
  {
    prev := new Words.Int32[|mol.atoms|];
    next := new Words.Int32[|mol.atoms|];
    for i := 0 to |mol.atoms|
      invariant forall j :: 0 <= j < i ==> prev[j] == AtomicNumbers(mol)[j] && next[j] == AtomicNumbers(mol)[j]
    {
      prev[i] := mol.atoms[i].atomicNumber;
      next[i] := prev[i];
    }
  }

  /** `System.arraycopy(next, 0, prev, 0, next.length)`. */
  method CopyInto(src: array<Words.Int32>, dst: array<Words.Int32>)
    requires src != dst && src.Length == dst.Length
    modifies dst
    ensures dst[..] == src[..]
  {
    forall i | 0 <= i < dst.Length {
      dst[i] := src[i];
    }
  }

  /** `for (int aNext : next) check += aNext;` */
  method AddChecksum(alg: MeasureAlgorithm, next: array<Words.Int32>)
    modifies alg`check
    ensures alg.check == old(alg.check) + Total(next[..])
  {
    for i := 0 to next.Length
      invariant alg.check == old(alg.check) + Total(next[..i])
    {
      TotalPrefix(next[..], i);
      alg.check := alg.check + next[i];
    }
    assert next[..next.Length] == next[..];
  }

  /** `for (int dst : g[idx]) next[idx] += prev[dst];` gives atom v its round over the lists g. */
  method AddListed(prev: array<Words.Int32>, next: array<Words.Int32>, g: seq<seq<nat>>, v: nat)
    requires prev != next && prev.Length == next.Length == |g| && v < |g| && InRange(g)
    requires RowsDone(prev[..], next[..], g, v)
    modifies next
    ensures RowsDone(prev[..], next[..], g, v + 1)
  {
    ghost var x, y := prev[..], next[..];
    var ws := g[v];
    AccumulateStart(x, ws, v);
    for k := 0 to |ws|
      invariant next[v] == Words.ToInt32(x[v] + Sum(x, ws[..k]))
      invariant forall j :: 0 <= j < next.Length && j != v ==> next[j] == y[j]
    {
      AccumulateStep(x, ws, v, k, next[v]);
      next[v] := Words.ToInt32(next[v] as int + prev[ws[k]]);
    }
    assert ws[..|ws|] == ws;
    RowStep(x, y, next[..], g, v);
  }

  /**
   * `for (IBond bond : mol.getConnectedBondsList(atom)) next[j] += prev[mol.getAtomNumber(bond.getConnectedAtom(atom))];`
   * gives atom v its round.
   */
  method AddConnected(prev: array<Words.Int32>, next: array<Words.Int32>, mol: Mol, v: nat)
    requires EndsInRange(mol) && prev != next && prev.Length == next.Length == |mol.atoms| && v < |mol.atoms|
    requires RowsDone(prev[..], next[..], VertexAdj(mol), v)
    modifies next
    ensures RowsDone(prev[..], next[..], VertexAdj(mol), v + 1)
  {
    ghost var x, y := prev[..], next[..];
    var bonds := ConnectedBonds(mol.ends, v, |mol.ends|);
    ConnectedBondsBelow(mol.ends, v, |mol.ends|);
    VertexAdjInRange(mol);
    AddAcross(prev, next, mol.ends, bonds, v, VertexAdj(mol)[v]);
    RowStep(x, y, next[..], VertexAdj(mol), v);
  }

  /** The bond loop of AddConnected: bond k of the list adds the value at its other end, ws[k], to atom v. */
  method AddAcross(prev: array<Words.Int32>, next: array<Words.Int32>, ends: seq<(nat, nat)>, bonds: seq<nat>, v: nat, ghost ws: seq<nat>)
    requires prev != next && prev.Length == next.Length && v < next.Length && next[v] == prev[v]
    requires forall k :: 0 <= k < |bonds| ==> bonds[k] < |ends|
    requires ws == Others(ends, bonds, v) && forall k :: 0 <= k < |ws| ==> ws[k] < prev.Length
    modifies next
    ensures next[v] == Words.ToInt32(prev[v] + Sum(prev[..], ws))
    ensures forall j :: 0 <= j < next.Length && j != v ==> next[j] == old(next[j])
  {
    ghost var x := prev[..];
    AccumulateStart(x, ws, v);
    for k := 0 to |bonds|
      invariant next[v] == Words.ToInt32(x[v] + Sum(x, ws[..k]))
      invariant forall j :: 0 <= j < next.Length && j != v ==> next[j] == old(next[j])
    {
      var nbr := Other(ends[bonds[k]], v);
      AccumulateStep(x, ws, v, k, next[v]);
      next[v] := Words.ToInt32(next[v] as int + prev[nbr]);
    }
    assert ws[..|ws|] == ws;
  }

  /** Bond b, read from atom a, leads to the atom at w, by `getConnectedAtom` and by `getOtherIdx` alike. */
  predicate LeadsTo(b: BondRef, a: AtomRef, w: nat)
  {
    (b.beg == a && b.end.idx == w) || (b.end == a && b.beg.idx == w)
  }

  /** In a snapshot, bond k on ref i's list leads to entry k of i's adjacency list. */
  lemma SnapshotLeads(refs: seq<AtomRef>, mol: Mol)
    requires Snapshot(refs, mol)
    ensures forall i :: 0 <= i < |refs| ==> refs[i].idx == i && |ListsOf(refs)[i]| == |AdjList(mol)[i]|
    ensures forall i, k :: 0 <= i < |refs| && 0 <= k < |ListsOf(refs)[i]| ==>
      AdjList(mol)[i][k] < |refs| && LeadsTo(ListsOf(refs)[i][k], refs[i], AdjList(mol)[i][k]) && ListsOf(refs)[i][k].Valid()
  {
    forall i | 0 <= i < |refs| ensures refs[i].idx == i && |ListsOf(refs)[i]| == |AdjList(mol)[i]| {
      SnapshotAdjacency(refs, mol, i, 0);
    }
    forall i, k | 0 <= i < |refs| && 0 <= k < |ListsOf(refs)[i]|
      ensures AdjList(mol)[i][k] < |refs| && LeadsTo(ListsOf(refs)[i][k], refs[i], AdjList(mol)[i][k]) && ListsOf(refs)[i][k].Valid()
    {
      SnapshotAdjacency(refs, mol, i, k);
    }
  }

  /** The index across bond from aref: `bond.getConnectedAtom(aref).getIndex()`, or with xor set `bond.getOtherIdx(idx)`. */
  method Across(bond: BondRef, aref: AtomRef, xor: bool, ghost w: nat) returns (nbr: nat)
    requires LeadsTo(bond, aref, w) && bond.Valid()
    ensures nbr == w
  {
    if xor {
      nbr := bond.GetOtherIdx(aref.idx);
    } else {
      nbr := bond.GetConnectedAtom(Ref(aref)).value.idx;
    }
  }

  /**
   * The inner loop of the AtomRef relaxations for one ref and its bond list,
   * whose bonds lead to the atoms ws: `next[idx] += prev[bond.getConnectedAtom(aref).getIndex()]`,
   * or with xor set `next[idx] += prev[bond.getOtherIdx(idx)]`, per bond.
   */
  method AddRefs(prev: array<Words.Int32>, next: array<Words.Int32>, aref: AtomRef, bonds: seq<BondRef>, ghost g: seq<seq<nat>>, xor: bool)
    requires prev != next && prev.Length == next.Length == |g| && aref.idx < |g|
    requires |bonds| == |g[aref.idx]|
    requires forall k :: 0 <= k < |bonds| ==> g[aref.idx][k] < |g| && LeadsTo(bonds[k], aref, g[aref.idx][k]) && bonds[k].Valid()
    requires RowsDone(prev[..], next[..], g, aref.idx)
    modifies next
    ensures RowsDone(prev[..], next[..], g, aref.idx + 1)
  {
    ghost var x, y := prev[..], next[..];
    AddBonds(prev, next, aref, bonds, g[aref.idx], xor);
    RowStep(x, y, next[..], g, aref.idx);
  }

  /** The bond loop of AddRefs: bond k of aref's list leads to ws[k] and adds its value to aref's atom. */
  method AddBonds(prev: array<Words.Int32>, next: array<Words.Int32>, aref: AtomRef, bonds: seq<BondRef>, ghost ws: seq<nat>, xor: bool)
    requires |bonds| == |ws| && forall k :: 0 <= k < |ws| ==> ws[k] < prev.Length && LeadsTo(bonds[k], aref, ws[k]) && bonds[k].Valid()
    requires prev != next && prev.Length == next.Length && aref.idx < next.Length && next[aref.idx] == prev[aref.idx]
    modifies next
    ensures next[aref.idx] == Words.ToInt32(prev[aref.idx] + Sum(prev[..], ws))
    ensures forall j :: 0 <= j < next.Length && j != aref.idx ==> next[j] == old(next[j])
  {
    ghost var x := prev[..];
    var idx := aref.idx;
    AccumulateStart(x, ws, idx);
    for k := 0 to |bonds|
      invariant next[idx] == Words.ToInt32(x[idx] + Sum(x, ws[..k]))
      invariant forall j :: 0 <= j < next.Length && j != idx ==> next[j] == old(next[j])
    {
      var nbr := Across(bonds[k], aref, xor, ws[k]);
      AccumulateStep(x, ws, idx, k, next[idx]);
      next[idx] := Words.ToInt32(next[idx] as int + prev[nbr]);
    }
    assert ws[..|ws|] == ws;
  }

  /** One round over the adjacency lists g, atom by atom: `for (int idx ...) for (int dst : g[idx]) ...`. */
  method RoundListed(prev: array<Words.Int32>, next: array<Words.Int32>, g: seq<seq<nat>>)
    requires prev != next && prev.Length == next.Length == |g| && InRange(g) && next[..] == prev[..]
    modifies next
    ensures next[..] == Round(prev[..], g)
  {
    ghost var x := prev[..];
    for v := 0 to |g|
      invariant RowsDone(x, next[..], g, v)
    {
      AddListed(prev, next, g, v);
    }
    RowsRound(x, next[..], g);
  }

  /** One round of the AtomContainer relaxation: every atom adds the atoms across its connected bonds. */
  method RoundConnected(prev: array<Words.Int32>, next: array<Words.Int32>, mol: Mol)
    requires EndsInRange(mol) && prev != next && prev.Length == next.Length == |mol.atoms| && next[..] == prev[..]
    modifies next
    ensures next[..] == Round(prev[..], VertexAdj(mol))
  {
    ghost var x := prev[..];
    ghost var g := VertexAdj(mol);
    for v := 0 to |mol.atoms|
      invariant RowsDone(x, next[..], g, v)
    {
      AddConnected(prev, next, mol, v);
    }
    RowsRound(x, next[..], g);
  }

  /** One round of the AtomRef relaxations, over the snapshot's atoms in order. */
  method RoundRefs(prev: array<Words.Int32>, next: array<Words.Int32>, arefs: array<AtomRef>, ghost mol: Mol, xor: bool)
    requires Snapshot(arefs[..], mol) && prev != next && prev.Length == next.Length == arefs.Length
    requires next[..] == prev[..]
    modifies next
    ensures next[..] == Round(prev[..], AdjList(mol))
  {
    ghost var x := prev[..];
    ghost var g := AdjList(mol);
    ghost var refs := arefs[..];
    ghost var lists := ListsOf(refs);
    SnapshotLeads(refs, mol);
    for i := 0 to arefs.Length
      invariant RowsDone(x, next[..], g, i)
    {
      var aref := arefs[i];
      var bonds := aref.bonds;
      assert aref == refs[i] && aref.idx == i && bonds == lists[i];
      AddRefs(prev, next, aref, bonds, g, xor);
    }
    RowsRound(x, next[..], g);
  }

  /** `next[begIdx] += prev[endIdx]; next[endIdx] += prev[begIdx];` for bond b. */
  method AddEdge(prev: array<Words.Int32>, next: array<Words.Int32>, ghost ends: seq<(nat, nat)>, b: nat, begIdx: nat, endIdx: nat)
    requires b < |ends| && ends[b] == (begIdx, endIdx) && begIdx < prev.Length && endIdx < prev.Length
    requires prev != next && prev.Length == next.Length && EdgesDone(prev[..], next[..], ends, b)
    modifies next
    ensures EdgesDone(old(prev[..]), next[..], ends, b + 1)
  {
    ghost var x, y := prev[..], next[..];
    EdgeStep(x, y, ends, b);
    next[begIdx] := Words.ToInt32(next[begIdx] as int + prev[endIdx]);
    ghost var y' := next[..];
    assert y' == y[begIdx := Words.ToInt32(y[begIdx] as int + x[endIdx])];
    next[endIdx] := Words.ToInt32(next[endIdx] as int + prev[begIdx]);
    assert next[..] == y'[endIdx := Words.ToInt32(y'[endIdx] as int + x[begIdx])];
  }

  /** One round of the Improved relaxation: every bond adds each end's value to the other. */
  method RoundEdges(prev: array<Words.Int32>, next: array<Words.Int32>, mol: Mol)
    requires EndsInRange(mol) && prev != next && prev.Length == next.Length == |mol.atoms| && next[..] == prev[..]
    modifies next
    ensures next[..] == Round(prev[..], AdjList(mol))
  {
    ghost var x := prev[..];
    EdgesStart(x, mol.ends);
    var ends := mol.ends;
    for b := 0 to |ends|
      invariant EdgesDone(x, next[..], ends, b)
    {
      AddEdge(prev, next, ends, b, ends[b].0, ends[b].1);
    }
    EdgesRound(x, next[..], mol);
  }

  /** One round of the BondRef relaxation: the same per bond, reading the ends with `getAtom(0)` and `getAtom(1)`. */
  method RoundBondRefs(prev: array<Words.Int32>, next: array<Words.Int32>, bonds: array<BondRef>, ghost refs: seq<AtomRef>, ghost mol: Mol)
    requires Snapshot(refs, mol) && bonds.Length == |mol.ends|
    requires forall b :: 0 <= b < bonds.Length ==> bonds[b].idx == b && Links(refs, mol.ends, bonds[b])
    requires prev != next && prev.Length == next.Length == |mol.atoms| && next[..] == prev[..]
    modifies next
    ensures next[..] == Round(prev[..], AdjList(mol))
  {
    ghost var x := prev[..];
    ghost var ends := mol.ends;
    EdgesStart(x, ends);
    for b := 0 to bonds.Length
      invariant EdgesDone(x, next[..], ends, b)
    {
      var bond := bonds[b];
      SnapshotEnds(refs, mol, bond);
      AddEdge(prev, next, ends, b, bond.GetAtom(0).value.idx, bond.GetAtom(1).value.idx);
    }
    EdgesRound(x, next[..], mol);
  }

  // ------------------------------------------------------------ process

  /** The adjacency lists a relaxation kind reads: the container's bond lists, or the neighbour lists. */
  function Graph(kind: Kind, mol: Mol): (g: seq<seq<nat>>)
    ensures |g| == |mol.atoms|
  {
    if kind == RelaxContainer then VertexAdj(mol) else AdjList(mol)
  }

  /** What `process` adds to `check`: one per atom for a search, the relaxed values' sum otherwise. */
  function Expected(kind: Kind, mol: Mol): int
  {
    if kind.DepthFirst() then |mol.atoms| else Total(Relaxed(mol, Graph(kind, mol)))
  }

  /**
   * The repetition loop every relaxation shares, with the AtomContainer
   * kernels as its rounds: `|atoms|` rounds, each followed by
   * `System.arraycopy(next, 0, prev, 0, next.length)`.
   */
  method RelaxContainerKinds(mol: Mol, improved: bool) returns (next: array<Words.Int32>)
    requires EndsInRange(mol)
    ensures fresh(next) && next[..] == Relaxed(mol, if improved then AdjList(mol) else VertexAdj(mol))
  {
    ghost var g := if improved then AdjList(mol) else VertexAdj(mol);
    var prev;
    prev, next := StartValues(mol);
    for rep := 0 to |mol.atoms|
      invariant prev[..] == Iterate(AtomicNumbers(mol), g, rep) && next[..] == prev[..]
    {
      if improved {
        RoundEdges(prev, next, mol);
      } else {
        RoundConnected(prev, next, mol);
      }
      CopyInto(next, prev);
    }
  }

  /** The same loop over adjacency lists g, as `toAdjList` builds them, with or without a bond map. */
  method RelaxListed(mol: Mol, g: seq<seq<nat>>) returns (next: array<Words.Int32>)
    requires |g| == |mol.atoms| && InRange(g)
    ensures fresh(next) && next[..] == Relaxed(mol, g)
  {
    var prev;
    prev, next := StartValues(mol);
    for rep := 0 to |mol.atoms|
      invariant prev[..] == Iterate(AtomicNumbers(mol), g, rep) && next[..] == prev[..]
    {
      RoundListed(prev, next, g);
      CopyInto(next, prev);
    }
  }

  /** The same loop over the AtomRef snapshot, stepping with `getConnectedAtom`, or `getOtherIdx` when xor is set. */
  method RelaxRefs(arefs: array<AtomRef>, mol: Mol, xor: bool) returns (next: array<Words.Int32>)
    requires Snapshot(arefs[..], mol)
    ensures fresh(next) && next[..] == Relaxed(mol, AdjList(mol))
  {
    var prev;
    prev, next := StartValues(mol);
    for rep := 0 to |mol.atoms|
      invariant prev[..] == Iterate(AtomicNumbers(mol), AdjList(mol), rep) && next[..] == prev[..]
    {
      RoundRefs(prev, next, arefs, mol, xor);
      CopyInto(next, prev);
    }
  }

  /** The same loop over the BondRef snapshot, bond by bond. */
  method RelaxBondRefs(bonds: array<BondRef>, ghost refs: seq<AtomRef>, mol: Mol) returns (next: array<Words.Int32>)
    requires Snapshot(refs, mol) && bonds.Length == |mol.ends|
    requires forall b :: 0 <= b < bonds.Length ==> bonds[b].idx == b && Links(refs, mol.ends, bonds[b])
    ensures fresh(next) && next[..] == Relaxed(mol, AdjList(mol))
  {
    var prev;
    prev, next := StartValues(mol);
    for rep := 0 to |mol.atoms|
      invariant prev[..] == Iterate(AtomicNumbers(mol), AdjList(mol), rep) && next[..] == prev[..]
    {
      RoundBondRefs(prev, next, bonds, refs, mol);
      CopyInto(next, prev);
    }
  }

  /** The run of a depth-first kind, between its clock readings: one search from every unmarked atom. */
  method Search(alg: MeasureAlgorithm, mol: Mol)
    requires mol.Valid() && alg.kind.DepthFirst()
    modifies alg`check
    ensures alg.check == old(alg.check) + |mol.atoms|
  {
    AdjListInRange(mol);
    match alg.kind {
      case DepthFirstContainer =>
        var _ := VisitAllContainer(alg, mol);
      case DepthFirstAdjFlag =>
        var _ := VisitAllAdj(alg, AdjList(mol));
      case DepthFirstAdjMapFlag =>
        var _ := VisitAllAdj(alg, AdjList(mol));
      case DepthFirstAdjMapArray =>
        var _ := VisitAllAdj(alg, AdjList(mol));
      case DepthFirstAdjArray =>
        var _ := VisitAllAdj(alg, AdjList(mol));
      case DepthFirstRefFlag =>
        var arefs := GetAtomRefs(mol);
        var _ := VisitAllRefs(alg, arefs, mol);
      case DepthFirstRefArray =>
        var arefs := GetAtomRefs(mol);
        var _ := VisitAllRefs(alg, arefs, mol);
    }
  }

  /** The run of a relaxation kind: the repetitions, then `for (int aNext : next) check += aNext`. */
  method Relax(alg: MeasureAlgorithm, mol: Mol)
    requires mol.Valid() && !alg.kind.DepthFirst()
    modifies alg`check
    ensures alg.check == old(alg.check) + Total(Relaxed(mol, Graph(alg.kind, mol)))
  {
    AdjListInRange(mol);
    var next;
    match alg.kind {
      case RelaxContainer =>
        next := RelaxContainerKinds(mol, false);
      case RelaxImproved =>
        next := RelaxContainerKinds(mol, true);
      case RelaxAdj =>
        next := RelaxListed(mol, AdjList(mol));
      case RelaxAdjMap =>
        next := RelaxListed(mol, AdjList(mol));
      case RelaxRef =>
        var arefs := GetAtomRefs(mol);
        next := RelaxRefs(arefs, mol, false);
      case RelaxXor =>
        var arefs := GetAtomRefs(mol);
        next := RelaxRefs(arefs, mol, true);
      case RelaxBonds =>
        var bonds, refs := GetBondRefs(mol);
        next := RelaxBondRefs(bonds, refs, mol);
    }
    AddChecksum(alg, next);
  }

  /** What `process` adds to `tInit`: `t1 - t0` for the kinds that build a structure first, nothing otherwise. */
  function InitTime(kind: Kind, t0: int, t1: int, t2: int): int
  {
    if kind.HasInit() then t1 - t0 else 0
  }

  /** What `process` adds to `tRun`: `t2 - t1` after a timed build, `t1 - t0` for the AtomContainer kinds. */
  function RunTime(kind: Kind, t0: int, t1: int, t2: int): int
  {
    if kind.HasInit() then t2 - t1 else t1 - t0
  }

  /**
   * `alg.process(mol)`: run the algorithm of alg's kind on mol. The clock
   * readings t0, t1, t2 are parameters; the kinds that build a structure
   * first time it apart (`tInit += t1 - t0; tRun += t2 - t1`), the two
   * AtomContainer kinds time only the run (`tRun += t1 - t0`).
   */
  method Process(alg: MeasureAlgorithm, mol: Mol, t0: int, t1: int, t2: int)
    requires mol.Valid()
    modifies alg`check, alg`tInit, alg`tRun
    ensures alg.check == old(alg.check) + Expected(alg.kind, mol)
    ensures alg.tInit == old(alg.tInit) + InitTime(alg.kind, t0, t1, t2)
    ensures alg.tRun == old(alg.tRun) + RunTime(alg.kind, t0, t1, t2)
  {
    if alg.kind.DepthFirst() {
      Search(alg, mol);
    } else {
      Relax(alg, mol);
    }
    if alg.kind.HasInit() {
      alg.tInit := alg.tInit + (t1 - t0);
      alg.tRun := alg.tRun + (t2 - t1);
    } else {
      alg.tRun := alg.tRun + (t1 - t0);
    }
  }

  /** Without self-loops every relaxation kind adds the same checksum. */
  lemma RelaxationsAgree(mol: Mol, k: Kind, k': Kind)
    requires NoSelfLoops(mol.ends) && !k.DepthFirst() && !k'.DepthFirst()
    ensures Expected(k, mol) == Expected(k', mol)
  {
    VertexAdjNoLoops(mol);
  }

  /** With a self-loop the AtomContainer relaxation and the others part: the loop counts once there, twice elsewhere. */
  lemma RelaxationsDiffer(a: Atom)
    requires a.atomicNumber == 6
    ensures var mol := Mol([a], [(0, 0)]);
      Expected(RelaxContainer, mol) == 12 && Expected(RelaxAdj, mol) == 18
  {
    var mol := Mol([a], [(0, 0)]);
    LoopCountedOnce(a);
    var x := AtomicNumbers(mol);
    assert x == [6];
    assert Sum(x, [0]) == 6 by { assert [0][..0] == []; }
    assert Sum(x, [0, 0]) == 12 by { assert [0, 0][..1] == [0]; }
    Words.WrapInt32(12);
    Words.WrapInt32(18);
    assert Round(x, [[0]]) == [12];
    assert Round(x, [[0, 0]]) == [18];
    assert Relaxed(mol, VertexAdj(mol)) == Iterate(x, [[0]], 1) == [12];
    assert Relaxed(mol, AdjList(mol)) == Iterate(x, [[0, 0]], 1) == [18];
    assert Total([12]) == 12 && Total([18]) == 18;
  }
}
