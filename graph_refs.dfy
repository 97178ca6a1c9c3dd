// `AtomRef` and `BondRef`: a read-optimised snapshot of a CDK molecule.
// Each atom is wrapped with its index and the list of its bonds, each bond
// with its index, its two wrapped end atoms and the xor of their indices, so
// that traversals find neighbours without the container's linear searches.
// The CDK molecule is reduced to what the snapshot reads: the atoms, in
// order, and for each bond the positions of its two atoms in that order.

module GraphRefs {
  import opened Wrappers
  import Words

  /** A non-negative Java `int`, as used for atom and bond indices. */
  type Index = i: nat | i < 0x8000_0000

  /** Property keys (`Object description`). */
  type Key = string

  /** The property values the modelled calls move around. */
  datatype Value = Null | Point3d(x: real, y: real, z: real) | Obj(id: nat)

  /** A CDK atom. Atoms are compared by identity. */
  class Atom {
    const atomicNumber: Words.Int32
    var properties: map<Key, Value>
    var fractionalPoint3d: Value

    constructor (atomicNumber: Words.Int32, point: Value)
      ensures this.atomicNumber == atomicNumber && properties == map[] && fractionalPoint3d == point
    {
      this.atomicNumber := atomicNumber;
      properties := map[];
      fractionalPoint3d := point;
    }
  }

  /** A CDK bond that is not part of a snapshot. */
  class Bond {
    constructor () {}
  }

  /** An `IAtom` argument: a wrapped atom of some snapshot, or a plain CDK atom. */
  datatype AnyAtom = Ref(r: AtomRef) | Plain(a: Atom)

  /** An `IBond` argument: a wrapped bond of some snapshot, or a plain CDK bond. */
  datatype AnyBond = RefBond(r: BondRef) | PlainBond(b: Bond)

  /** The molecule: its atoms, and each bond's two atoms as positions among them. */
  datatype Mol = Mol(atoms: seq<Atom>, ends: seq<(nat, nat)>)
  {
    /** What an `IAtomContainer` guarantees: each atom held once, and every bond's atoms held. */
    predicate Valid()
    {
      |atoms| <= 0x8000_0000 && |ends| <= 0x8000_0000 &&
      (forall i, j :: 0 <= i < j < |atoms| ==> atoms[i] != atoms[j]) &&
      forall b :: 0 <= b < |ends| ==> ends[b].0 < |atoms| && ends[b].1 < |atoms|
    }
  }

  // ------------------------------------------------------------ incident bonds

  /**
   * The bonds among the first n that touch atom v, in bond order; a bond
   * whose two ends are both v is listed twice, once per end.
   */
  function Incident(ends: seq<(nat, nat)>, v: nat, n: nat): seq<nat>
    requires n <= |ends|
  {
    if n == 0 then [] else
      var e := ends[n - 1];
      Incident(ends, v, n - 1) + (if e.0 == v then [n - 1] else []) + (if e.1 == v then [n - 1] else [])
  }

  /** The atom at the other end of a bond from v. */
  function Other(e: (nat, nat), v: nat): nat
  {
    if e.0 == v then e.1 else e.0
  }

  predicate NoSelfLoops(ends: seq<(nat, nat)>)
  {
    forall b :: 0 <= b < |ends| ==> ends[b].0 != ends[b].1
  }

  /** The two ends of each of the first n bonds, in order. */
  function Endpoints(ends: seq<(nat, nat)>, n: nat): seq<nat>
    requires n <= |ends|
  {
    if n == 0 then [] else Endpoints(ends, n - 1) + [ends[n - 1].0, ends[n - 1].1]
  }

  /** A bond is listed for v exactly when it is one of the first n and v is one of its ends. */
  lemma {:induction false} IncidentMembers(ends: seq<(nat, nat)>, v: nat, n: nat)
    requires n <= |ends|
    ensures forall b :: b in Incident(ends, v, n) ==> b < n
    ensures forall b: nat :: b < n ==> (b in Incident(ends, v, n) <==> ends[b].0 == v || ends[b].1 == v)
  {
    if n > 0 {
      IncidentMembers(ends, v, n - 1);
      var p, e := Incident(ends, v, n - 1), ends[n - 1];
      var x, y := (if e.0 == v then [n - 1] else []), (if e.1 == v then [n - 1] else []);
      assert Incident(ends, v, n) == p + x + y;
      forall b | b in p + x + y ensures b < n {
        assert b in p || b in x || b in y;
      }
    }
  }

  /** The list is in ascending bond order, strictly so when no bond is a loop. */
  lemma {:induction false} IncidentAscending(ends: seq<(nat, nat)>, v: nat, n: nat)
    requires n <= |ends|
    ensures forall k, l :: 0 <= k < l < |Incident(ends, v, n)| ==> Incident(ends, v, n)[k] <= Incident(ends, v, n)[l]
    ensures NoSelfLoops(ends) ==>
      forall k, l :: 0 <= k < l < |Incident(ends, v, n)| ==> Incident(ends, v, n)[k] < Incident(ends, v, n)[l]
  {
    if n > 0 {
      IncidentAscending(ends, v, n - 1);
      IncidentMembers(ends, v, n - 1);
      var p, e := Incident(ends, v, n - 1), ends[n - 1];
      var x, y := (if e.0 == v then [n - 1] else []), (if e.1 == v then [n - 1] else []);
      var r := p + x + y;
      assert Incident(ends, v, n) == r;
      forall k, l | 0 <= k < l < |r| ensures r[k] <= r[l] && (NoSelfLoops(ends) ==> r[k] < r[l]) {
        if l < |p| {
          assert r[k] == p[k] && r[l] == p[l];
          assert p[k] <= p[l] && (NoSelfLoops(ends) ==> p[k] < p[l]);
        } else {
          assert r[l] == n - 1;
          if k < |p| {
            assert r[k] == p[k] && p[k] in p;
          } else {
            assert r[k] == n - 1 && |x| == 1 && |y| == 1;
            assert NoSelfLoops(ends) ==> e.0 != e.1;
          }
        }
      }
    }
  }

  /** How many of the bond's two ends are v. */
  function Hits(e: (nat, nat), v: nat): nat
  {
    (if e.0 == v then 1 else 0) + (if e.1 == v then 1 else 0)
  }

  /** One more bond adds its ends at v to the list of v. */
  lemma IncidentStep(ends: seq<(nat, nat)>, v: nat, n: nat)
    requires 0 < n <= |ends|
    ensures |Incident(ends, v, n)| == |Incident(ends, v, n - 1)| + Hits(ends[n - 1], v)
  {}

  lemma MultisetPair(s: seq<nat>, a: nat, b: nat, v: nat)
    ensures multiset(s + [a, b])[v] == multiset(s)[v] + (if a == v then 1 else 0) + (if b == v then 1 else 0)
  {
    assert s + [a, b] == (s + [a]) + [b];
  }

  /** The number of bond ends at v among the first n bonds: v's degree. */
  function EndCount(ends: seq<(nat, nat)>, v: nat, n: nat): nat
    requires n <= |ends|
  {
    multiset(Endpoints(ends, n))[v]
  }

  /** One more bond adds its ends at v to the count of v among the ends. */
  lemma EndpointsStep(ends: seq<(nat, nat)>, v: nat, n: nat)
    requires 0 < n <= |ends|
    ensures EndCount(ends, v, n) == EndCount(ends, v, n - 1) + Hits(ends[n - 1], v)
  {
    MultisetPair(Endpoints(ends, n - 1), ends[n - 1].0, ends[n - 1].1, v);
  }

  /** With one more bond, the list and the count of ends at v grow alike. */
  lemma DegreeStep(ends: seq<(nat, nat)>, v: nat, n: nat)
    requires 0 < n <= |ends|
    requires |Incident(ends, v, n - 1)| == EndCount(ends, v, n - 1)
    ensures |Incident(ends, v, n)| == EndCount(ends, v, n)
  {
    IncidentStep(ends, v, n);
    EndpointsStep(ends, v, n);
  }

  /** The list is as long as v's degree. */
  lemma {:induction false} IncidentDegree(ends: seq<(nat, nat)>, v: nat, n: nat)
    requires n <= |ends|
    ensures |Incident(ends, v, n)| == EndCount(ends, v, n)
  {
    if n > 0 {
      IncidentDegree(ends, v, n - 1);
      DegreeStep(ends, v, n);
    }
  }

  // ------------------------------------------------------------ the wrappers

  /** `AtomRef`: an atom with its index and its bonds. */
  class AtomRef {
    const idx: Index
    const atom: Atom
    var bonds: seq<BondRef>

    constructor (idx: Index, atom: Atom, bonds: seq<BondRef>)
      ensures this.idx == idx && this.atom == atom && this.bonds == bonds
    {
      this.idx := idx;
      this.atom := atom;
      this.bonds := bonds;
    }

    /** `setProperty(key, value)` as written: the atom receives its 3D fractional point, not `value`. */
    method SetPropertyAsWritten(key: Key, value: Value)
      modifies atom
      ensures atom.properties == old(atom.properties)[key := old(atom.fractionalPoint3d)]
      ensures atom.fractionalPoint3d == old(atom.fractionalPoint3d)
    {
      atom.properties := atom.properties[key := atom.fractionalPoint3d];
    }

    /** `setProperty(key, value)` forwarding the value it is given. */
    method SetProperty(key: Key, value: Value)
      modifies atom
      ensures atom.properties == old(atom.properties)[key := value]
      ensures atom.fractionalPoint3d == old(atom.fractionalPoint3d)
    {
      atom.properties := atom.properties[key := value];
    }

    /** `setProperties(props)`: the atom's properties become exactly props. */
    method SetProperties(props: map<Key, Value>)
      modifies atom
      ensures atom.properties == props && atom.fractionalPoint3d == old(atom.fractionalPoint3d)
    {
      atom.properties := props;
    }

    /** `addProperties(props)` as written: it calls `setProperties`, dropping the atom's other properties. */
    method AddPropertiesAsWritten(props: map<Key, Value>)
      modifies atom
      ensures atom.properties == props && atom.fractionalPoint3d == old(atom.fractionalPoint3d)
    {
      SetProperties(props);
    }

    /** `addProperties(props)` as CDK defines it: props are added, the other properties kept. */
    method AddProperties(props: map<Key, Value>)
      modifies atom
      ensures atom.properties == old(atom.properties) + props
      ensures atom.fractionalPoint3d == old(atom.fractionalPoint3d)
    {
      atom.properties := atom.properties + props;
    }

    /** `clone()`: a snapshot atom cannot be copied. */
    function Clone(): (r: Result<AtomRef, Exception>)
      ensures r.Err? && r.error == CloneNotSupported
    {
      Err(CloneNotSupported)
    }
  }

  /** `BondRef`: a bond with its index, its two wrapped atoms and the xor of their indices. */
  class BondRef {
    const idx: Index
    const beg: AtomRef
    const end: AtomRef
    const xor: Words.Word

    /** The xor is the one the constructor stored. */
    predicate Valid()
    {
      xor == Words.WordXor(beg.idx, end.idx)
    }

    constructor (idx: Index, beg: AtomRef, end: AtomRef)
      ensures this.idx == idx && this.beg == beg && this.end == end && Valid()
    {
      this.idx := idx;
      this.beg := beg;
      this.end := end;
      this.xor := Words.WordXor(beg.idx, end.idx);
    }

    /** `getAtom(position)`: 0 is the first atom, 1 the second, anything else null. */
    function GetAtom(position: int): (r: Option<AtomRef>)
      ensures r.Some? <==> position == 0 || position == 1
      ensures r.Some? ==> r.value == (if position == 0 then beg else end)
    {
      if position == 0 then Some(beg) else if position == 1 then Some(end) else None
    }

    /** `getOtherIdx(i)`: the index of the other end, given the index of one end. */
    function GetOtherIdx(i: Index): (r: Words.Word)
      requires Valid()
      ensures i == beg.idx ==> r == end.idx
      ensures i == end.idx ==> r == beg.idx
    {
      Words.XorCancel(beg.idx, end.idx);
      Words.WordXor(xor, i)
    }

    /** `contains(x)`: x is one of the two wrapped atoms, or the CDK atom one of them wraps. */
    predicate Contains(x: AnyAtom)
    {
      x == Ref(beg) || x == Ref(end) || x == Plain(beg.atom) || x == Plain(end.atom)
    }

    /** `getConnectedAtom(x)`: the other wrapped atom; an atom not on the bond is an IllegalArgumentException. */
    function GetConnectedAtom(x: AnyAtom): (r: Result<AtomRef, Exception>)
      ensures r.Ok? <==> Contains(x)
      ensures r.Err? ==> r.error == IllegalArgument
      ensures x == Ref(beg) || x == Plain(beg.atom) ==> r == Ok(end)
      ensures r.Ok? && r.value != end ==> r.value == beg && (x == Ref(end) || x == Plain(end.atom))
    {
      if x == Ref(beg) then Ok(end)
      else if x == Ref(end) then Ok(beg)
      else if x == Plain(beg.atom) then Ok(end)
      else if x == Plain(end.atom) then Ok(beg)
      else Err(IllegalArgument)
    }

    /** `setAtoms(atoms)`: the ends of a snapshot bond cannot be replaced. */
    function SetAtoms(atoms: seq<AnyAtom>): (r: Result<(), Exception>)
      ensures r.Err? && r.error == UnsupportedOperation
    {
      Err(UnsupportedOperation)
    }

    /** `setAtom(atom, position)`: neither end can be replaced. */
    function SetAtom(atom: AnyAtom, position: int): (r: Result<(), Exception>)
      ensures r.Err? && r.error == IllegalArgument
    {
      Err(IllegalArgument)
    }

    /** `clone()`: a snapshot bond cannot be copied. */
    function Clone(): (r: Result<BondRef, Exception>)
      ensures r.Err? && r.error == CloneNotSupported
    {
      Err(CloneNotSupported)
    }

    /**
     * `isConnectedTo(bond)` as written: the parameter shadows the field, so
     * the call goes to the argument, with the argument. A plain CDK bond
     * answers `selfConnected`; a snapshot bond calls itself again, one more
     * frame each time, until the `frames` the stack has left run out.
     */
    function IsConnectedToAsWritten(other: AnyBond, frames: nat, selfConnected: Bond -> bool): Result<bool, Exception>
      decreases frames
    {
      match other
      case PlainBond(b) => Ok(selfConnected(b))
      case RefBond(r) =>
        if frames == 0 then Err(StackOverflow)
        else r.IsConnectedToAsWritten(other, frames - 1, selfConnected)
    }

    /** `isConnectedTo(other)` asking the wrapped bond, as intended: the bonds share an atom. */
    predicate IsConnectedTo(other: BondRef)
    {
      other.Contains(Plain(beg.atom)) || other.Contains(Plain(end.atom))
    }
  }

  // ------------------------------------------------------------ the snapshot

  /** The bond indices of a bond list. */
  function Indices(bs: seq<BondRef>): (r: seq<nat>)
    ensures |r| == |bs| && forall k :: 0 <= k < |bs| ==> r[k] == bs[k].idx
  {
    seq(|bs|, k requires 0 <= k < |bs| => bs[k].idx)
  }

  /** Bond b wraps bond b.idx of the molecule, between the refs at its two ends. */
  predicate Links(refs: seq<AtomRef>, ends: seq<(nat, nat)>, b: BondRef)
  {
    b.Valid() && b.idx < |ends| && ends[b.idx].0 < |refs| && ends[b.idx].1 < |refs| &&
    b.beg == refs[ends[b.idx].0] && b.end == refs[ends[b.idx].1]
  }

  /** The bond lists of the refs. */
  function ListsOf(refs: seq<AtomRef>): (r: seq<seq<BondRef>>)
    reads refs
    ensures |r| == |refs| && forall j :: 0 <= j < |refs| ==> r[j] == refs[j].bonds
  {
    seq(|refs|, j requires 0 <= j < |refs| reads refs => refs[j].bonds)
  }

  /**
   * List j holds the bonds among the first n that touch atom j, in bond
   * order, each linked to the refs at its two ends.
   */
  predicate Linked(lists: seq<seq<BondRef>>, refs: seq<AtomRef>, ends: seq<(nat, nat)>, n: nat)
    requires n <= |ends|
  {
    (forall j :: 0 <= j < |lists| ==> Indices(lists[j]) == Incident(ends, j, n)) &&
    forall j, k :: 0 <= j < |lists| && 0 <= k < |lists[j]| ==> Links(refs, ends, lists[j][k])
  }

  /**
   * What `getAtomRefs` builds: ref i wraps atom i, and its bond list holds the
   * bonds incident to atom i, in bond order, each linked to the refs at its ends.
   */
  predicate Snapshot(refs: seq<AtomRef>, mol: Mol)
    reads refs
  {
    |refs| == |mol.atoms| &&
    (forall i :: 0 <= i < |refs| ==> refs[i].idx == i && refs[i].atom == mol.atoms[i]) &&
    Linked(ListsOf(refs), refs, mol.ends, |mol.ends|)
  }

  /** Appending bond i to the lists of its two ends extends the linking from i bonds to i + 1. */
  lemma LinkedStep(lists: seq<seq<BondRef>>, refs: seq<AtomRef>, ends: seq<(nat, nat)>, i: nat, b: BondRef)
    requires i < |ends| && |lists| == |refs| && Linked(lists, refs, ends, i)
    requires b.idx == i && Links(refs, ends, b)
    ensures var u, v := ends[i].0, ends[i].1;
      var once := lists[u := lists[u] + [b]];
      Linked(once[v := once[v] + [b]], refs, ends, i + 1)
  {
    var u, v := ends[i].0, ends[i].1;
    var once := lists[u := lists[u] + [b]];
    var twice := once[v := once[v] + [b]];
    forall j | 0 <= j < |twice| ensures Indices(twice[j]) == Incident(ends, j, i + 1) {
      IndicesSnoc(lists[j], b);
      IndicesSnoc(once[j], b);
    }
  }

  /** First loop of `getAtomRefs` and `getBondRefs`: a ref per atom, and the identity map to it. */
  method NewAtomRefs(mol: Mol) returns (refs: seq<AtomRef>, cache: map<Atom, AtomRef>)
    requires mol.Valid()
    ensures |refs| == |mol.atoms|
    ensures forall i :: 0 <= i < |refs| ==> fresh(refs[i])
    ensures forall i :: 0 <= i < |refs| ==>
      refs[i].idx == i && refs[i].atom == mol.atoms[i] && refs[i].bonds == []
    ensures forall i :: 0 <= i < |refs| ==> mol.atoms[i] in cache && cache[mol.atoms[i]] == refs[i]
  {
    refs, cache := [], map[];
    var i := 0;
    while i < |mol.atoms|
      invariant 0 <= i <= |mol.atoms| && |refs| == i
      invariant forall j :: 0 <= j < i ==> fresh(refs[j])
      invariant forall j :: 0 <= j < i ==>
        refs[j].idx == j && refs[j].atom == mol.atoms[j] && refs[j].bonds == []
      invariant forall j :: 0 <= j < i ==> mol.atoms[j] in cache && cache[mol.atoms[j]] == refs[j]
    {
      var atomrf := new AtomRef(i, mol.atoms[i], []);
      cache := cache[atomrf.atom := atomrf];
      refs := refs + [atomrf];
      i := i + 1;
    }
  }

  /** Appending a bond to a list appends its index. */
  lemma IndicesSnoc(bs: seq<BondRef>, b: BondRef)
    ensures Indices(bs + [b]) == Indices(bs) + [b.idx]
  {}

  /** `r.bonds.add(b)`. */
  method Attach(refs: seq<AtomRef>, j: nat, b: BondRef)
    requires j < |refs| && forall i :: 0 <= i < |refs| ==> refs[i].idx == i
    modifies refs[j]
    ensures ListsOf(refs) == old(ListsOf(refs))[j := old(ListsOf(refs))[j] + [b]]
  {
    refs[j].bonds := refs[j].bonds + [b];
  }

  /** Loop body of the second loop: bond i wrapped and appended to the lists of both its ends. */
  method LinkBond(mol: Mol, refs: seq<AtomRef>, cache: map<Atom, AtomRef>, i: nat) returns (bondref: BondRef)
    requires mol.Valid() && |refs| == |mol.atoms| && i < |mol.ends|
    requires forall j :: 0 <= j < |refs| ==> refs[j].idx == j
    requires forall j :: 0 <= j < |refs| ==> mol.atoms[j] in cache && cache[mol.atoms[j]] == refs[j]
    requires Linked(ListsOf(refs), refs, mol.ends, i)
    modifies refs
    ensures Linked(ListsOf(refs), refs, mol.ends, i + 1)
    ensures bondref.idx == i && Links(refs, mol.ends, bondref)
  {
    var beg := cache[mol.atoms[mol.ends[i].0]];
    var end := cache[mol.atoms[mol.ends[i].1]];
    bondref := new BondRef(i, beg, end);
    LinkedStep(ListsOf(refs), refs, mol.ends, i, bondref);
    Attach(refs, mol.ends[i].0, bondref);
    Attach(refs, mol.ends[i].1, bondref);
  }

  /** Second loop: each bond wrapped and appended to the lists of both its ends. */
  method LinkBonds(mol: Mol, refs: seq<AtomRef>, cache: map<Atom, AtomRef>) returns (bonds: seq<BondRef>)
    requires mol.Valid() && |refs| == |mol.atoms|
    requires forall i :: 0 <= i < |refs| ==>
      refs[i].idx == i && refs[i].atom == mol.atoms[i] && refs[i].bonds == []
    requires forall i :: 0 <= i < |refs| ==> mol.atoms[i] in cache && cache[mol.atoms[i]] == refs[i]
    modifies refs
    ensures Snapshot(refs, mol)
    ensures |bonds| == |mol.ends|
    ensures forall b :: 0 <= b < |bonds| ==> bonds[b].idx == b && Links(refs, mol.ends, bonds[b])
  {
    bonds := [];
    var i := 0;
    assert Linked(ListsOf(refs), refs, mol.ends, 0);
    while i < |mol.ends|
      invariant 0 <= i <= |mol.ends| && |bonds| == i
      invariant BondsLinked(bonds, refs, mol.ends)
      invariant Linked(ListsOf(refs), refs, mol.ends, i)
    {
      var bondref := LinkBond(mol, refs, cache, i);
      BondsLinkedSnoc(bonds, refs, mol.ends, bondref);
      bonds := bonds + [bondref];
      i := i + 1;
    }
  }

  /** Bond b of the list has index b and sits between the refs of its ends. */
  predicate BondsLinked(bonds: seq<BondRef>, refs: seq<AtomRef>, ends: seq<(nat, nat)>)
  {
    forall b :: 0 <= b < |bonds| ==> bonds[b].idx == b && Links(refs, ends, bonds[b])
  }

  lemma BondsLinkedSnoc(bonds: seq<BondRef>, refs: seq<AtomRef>, ends: seq<(nat, nat)>, x: BondRef)
    requires BondsLinked(bonds, refs, ends) && x.idx == |bonds| && Links(refs, ends, x)
    ensures BondsLinked(bonds + [x], refs, ends)
  {
  }

  /** `AtomRef.getAtomRefs(mol)`: the snapshot's atom array. */
  method GetAtomRefs(mol: Mol) returns (atoms: array<AtomRef>)
    requires mol.Valid()
    ensures fresh(atoms) && Snapshot(atoms[..], mol)
  {
    var refs, cache := NewAtomRefs(mol);
    var _ := LinkBonds(mol, refs, cache);
    atoms := new AtomRef[|refs|](i requires 0 <= i < |refs| => refs[i]);
    assert atoms[..] == refs;
  }

  /**
   * `BondRef.getBondRefs(mol)`: the snapshot's bond array. The atom refs are
   * reached only through the bonds; `atoms` names them for the contract.
   */
  method GetBondRefs(mol: Mol) returns (bonds: array<BondRef>, ghost atoms: seq<AtomRef>)
    requires mol.Valid()
    ensures fresh(bonds) && bonds.Length == |mol.ends| && Snapshot(atoms, mol)
    ensures forall b :: 0 <= b < bonds.Length ==> bonds[b].idx == b && Links(atoms, mol.ends, bonds[b])
  {
    var refs, cache := NewAtomRefs(mol);
    var list := LinkBonds(mol, refs, cache);
    bonds := new BondRef[|list|](i requires 0 <= i < |list| => list[i]);
    atoms := refs;
  }

  /** A bond linked into a snapshot sits between the refs of its two atoms, whose lists are complete. */
  lemma SnapshotEnds(refs: seq<AtomRef>, mol: Mol, b: BondRef)
    requires Snapshot(refs, mol) && Links(refs, mol.ends, b)
    ensures var e := mol.ends[b.idx];
      b.beg.idx == e.0 && b.end.idx == e.1 && b.beg.atom == mol.atoms[e.0] && b.end.atom == mol.atoms[e.1] &&
      Indices(b.beg.bonds) == Incident(mol.ends, e.0, |mol.ends|) &&
      Indices(b.end.bonds) == Incident(mol.ends, e.1, |mol.ends|)
  {
    var e := mol.ends[b.idx];
    assert ListsOf(refs)[e.0] == b.beg.bonds && ListsOf(refs)[e.1] == b.end.bonds;
  }

  // ------------------------------------------------------------ what the snapshot promises

  /**
   * In a snapshot, every bond on atom i's list has i at one end, and
   * `getConnectedAtom` and `getOtherIdx` both name the atom at the other end.
   */
  lemma SnapshotNeighbour(refs: seq<AtomRef>, mol: Mol, i: nat, k: nat)
    requires Snapshot(refs, mol) && i < |refs| && k < |refs[i].bonds|
    ensures var b := refs[i].bonds[k];
      b.idx < |mol.ends| && Other(mol.ends[b.idx], i) < |refs| &&
      (mol.ends[b.idx].0 == i || mol.ends[b.idx].1 == i) &&
      b.GetConnectedAtom(Ref(refs[i])) == Ok(refs[Other(mol.ends[b.idx], i)]) &&
      b.GetOtherIdx(i) == Other(mol.ends[b.idx], i)
  {
    var b := refs[i].bonds[k];
    IncidentMembers(mol.ends, i, |mol.ends|);
    assert Indices(refs[i].bonds)[k] == b.idx;
    assert b.idx in Incident(mol.ends, i, |mol.ends|);
  }

  /** The snapshot's bond list of atom i, read as neighbour indices, is the incident list's other ends. */
  lemma SnapshotOthers(refs: seq<AtomRef>, mol: Mol, i: nat)
    requires Snapshot(refs, mol) && i < |refs|
    ensures |refs[i].bonds| == |Incident(mol.ends, i, |mol.ends|)|
    ensures forall k :: 0 <= k < |refs[i].bonds| ==>
      refs[i].bonds[k].idx == Incident(mol.ends, i, |mol.ends|)[k]
  {
    assert Indices(refs[i].bonds) == Incident(mol.ends, i, |mol.ends|);
  }

  /** Reading a bond's ends by position and by `getConnectedAtom`/`getOtherIdx` agree. */
  lemma EndpointViews(b: BondRef)
    requires b.Valid()
    ensures b.GetConnectedAtom(Ref(b.GetAtom(0).value)) == Ok(b.GetAtom(1).value)
    ensures b.GetOtherIdx(b.GetAtom(0).value.idx) == b.GetAtom(1).value.idx
    ensures b.GetOtherIdx(b.GetAtom(1).value.idx) == b.GetAtom(0).value.idx
    ensures b.Contains(Ref(b.GetAtom(0).value)) && b.Contains(Ref(b.GetAtom(1).value))
  {
  }

  /** As written, `isConnectedTo` on a snapshot bond recurses until the stack is exhausted, whatever `this` is. */
  lemma {:induction false} IsConnectedToOverflows(self: BondRef, r: BondRef, frames: nat, selfConnected: Bond -> bool)
    ensures self.IsConnectedToAsWritten(RefBond(r), frames, selfConnected) == Err(StackOverflow)
    decreases frames
  {
    if frames > 0 {
      IsConnectedToOverflows(r, r, frames - 1, selfConnected);
    }
  }

  /** As written, the answer never depends on the bond it is asked of. */
  lemma IsConnectedToIgnoresReceiver(b1: BondRef, b2: BondRef, other: AnyBond, frames: nat, selfConnected: Bond -> bool)
    ensures b1.IsConnectedToAsWritten(other, frames, selfConnected) == b2.IsConnectedToAsWritten(other, frames, selfConnected)
  {
    match other
    case PlainBond(_) =>
    case RefBond(r) =>
      IsConnectedToOverflows(b1, r, frames, selfConnected);
      IsConnectedToOverflows(b2, r, frames, selfConnected);
  }

  /** In a snapshot, the intended `isConnectedTo` holds exactly when the two bonds share an end. */
  lemma IsConnectedToSharesEnd(refs: seq<AtomRef>, mol: Mol, b: BondRef, c: BondRef)
    requires Snapshot(refs, mol) && mol.Valid() && Links(refs, mol.ends, b) && Links(refs, mol.ends, c)
    ensures b.IsConnectedTo(c) <==>
      var e, f := mol.ends[b.idx], mol.ends[c.idx];
      e.0 == f.0 || e.0 == f.1 || e.1 == f.0 || e.1 == f.1
    ensures b.IsConnectedTo(c) == c.IsConnectedTo(b)
  {
  }

  /** With the source's `setProperty`, a value other than the atom's 3D point is never stored. */
  lemma SetPropertyStoresPoint(props: map<Key, Value>, point: Value, key: Key, value: Value)
    requires value != point
    ensures props[key := point] != props[key := value]
  {
    assert props[key := point][key] != props[key := value][key];
  }

  /** With the source's `addProperties`, a property the argument does not mention is lost. */
  lemma AddPropertiesDropsOthers(props: map<Key, Value>, added: map<Key, Value>, key: Key)
    requires key in props && key !in added
    ensures added != props + added && (props + added)[key] == props[key]
  {
    assert key in props + added;
  }
}
