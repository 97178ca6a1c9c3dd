// The counting sort that lays fingerprints out by popcount: a histogram of
// cardinalities, its prefix sums, and a stable scatter, used both to sort a
// list and to write the on-disk index (an int header followed by fixed-stride
// fingerprint records).

module FingerprintSorts {
  import opened Wrappers
  import Words

  /** The cardinality of each input, in input order. */
  function Cards<T>(src: seq<T>, card: T -> nat): (cs: seq<nat>)
    ensures |cs| == |src| && forall i :: 0 <= i < |src| ==> cs[i] == card(src[i])
  {
    seq(|src|, i requires 0 <= i < |src| => card(src[i]))
  }

  /** Every cardinality has a histogram slot: `count[c + 1]` exists for a
      count array of length + 1 entries. */
  predicate Fits(cs: seq<nat>, length: int)
  {
    forall i :: 0 <= i < |cs| ==> cs[i] < length
  }

  /** How many inputs have cardinality below c. */
  function Below(cs: seq<nat>, c: int): (b: nat)
    ensures b <= |cs|
  {
    if cs == [] then 0
    else Below(cs[..|cs| - 1], c) + (if cs[|cs| - 1] < c then 1 else 0)
  }

  /** How many inputs have cardinality exactly c. */
  function Occ(cs: seq<nat>, c: int): (m: nat)
    ensures m <= |cs|
  {
    if cs == [] then 0
    else Occ(cs[..|cs| - 1], c) + (if cs[|cs| - 1] == c then 1 else 0)
  }

  /** Where input i lands: after every input of smaller cardinality and after
      the earlier inputs of its own cardinality. */
  function Slot(cs: seq<nat>, i: int): (s: int)
    requires 0 <= i < |cs|
    ensures 0 <= s < |cs|
  {
    SlotBound(cs, i);
    Below(cs, cs[i]) + Occ(cs[..i], cs[i])
  }

  lemma {:induction false} BelowZero(cs: seq<nat>)
    ensures Below(cs, 0) == 0
    decreases |cs|
  {
    if cs != [] {
      BelowZero(cs[..|cs| - 1]);
    }
  }

  lemma {:induction false} BelowStep(cs: seq<nat>, c: int)
    ensures Below(cs, c + 1) == Below(cs, c) + Occ(cs, c)
    decreases |cs|
  {
    if cs != [] {
      BelowStep(cs[..|cs| - 1], c);
    }
  }

  lemma {:induction false} BelowAll(cs: seq<nat>, length: int)
    requires Fits(cs, length)
    ensures Below(cs, length) == |cs|
    decreases |cs|
  {
    if cs != [] {
      BelowAll(cs[..|cs| - 1], length);
    }
  }

  lemma {:induction false} BelowMono(cs: seq<nat>, c: int, d: int)
    requires c <= d
    ensures Below(cs, c) <= Below(cs, d)
    decreases |cs|
  {
    if cs != [] {
      BelowMono(cs[..|cs| - 1], c, d);
    }
  }

  lemma {:induction false} OccSnoc(cs: seq<nat>, i: int, c: int)
    requires 0 <= i < |cs|
    ensures Occ(cs[..i + 1], c) == Occ(cs[..i], c) + (if cs[i] == c then 1 else 0)
  {
    assert cs[..i + 1][..i] == cs[..i];
  }

  lemma {:induction false} OccPrefixMono(cs: seq<nat>, i: int, j: int, c: int)
    requires 0 <= i <= j <= |cs|
    ensures Occ(cs[..i], c) <= Occ(cs[..j], c)
    decreases j - i
  {
    if i < j {
      OccPrefixMono(cs, i, j - 1, c);
      OccSnoc(cs, j - 1, c);
    }
  }

  lemma {:induction false} SlotBound(cs: seq<nat>, i: int)
    requires 0 <= i < |cs|
    ensures Below(cs, cs[i]) + Occ(cs[..i], cs[i]) < Below(cs, cs[i] + 1) <= |cs|
  {
    var c := cs[i];
    OccSnoc(cs, i, c);
    OccPrefixMono(cs, i + 1, |cs|, c);
    PrefixFull(cs);
    BelowStep(cs, c);
  }

  /** A slot lies inside its input's bucket, which lies inside 0 .. |cs|-1. */
  lemma {:induction false} SlotRange(cs: seq<nat>, i: int)
    requires 0 <= i < |cs|
    ensures Below(cs, cs[i]) <= Slot(cs, i) < Below(cs, cs[i] + 1) <= |cs|
  {
    SlotBound(cs, i);
  }

  /** Slots follow (cardinality, input position) order: sorted and stable. */
  lemma {:induction false} SlotOrder(cs: seq<nat>, i: int, j: int)
    requires 0 <= i < |cs| && 0 <= j < |cs|
    ensures Slot(cs, i) < Slot(cs, j) <==> cs[i] < cs[j] || (cs[i] == cs[j] && i < j)
  {
    if cs[i] < cs[j] {
      SlotRange(cs, i);
      SlotRange(cs, j);
      BelowMono(cs, cs[i] + 1, cs[j]);
    } else if cs[j] < cs[i] {
      SlotRange(cs, i);
      SlotRange(cs, j);
      BelowMono(cs, cs[j] + 1, cs[i]);
    } else if i < j {
      OccSnoc(cs, i, cs[i]);
      OccPrefixMono(cs, i + 1, j, cs[i]);
    } else if j < i {
      OccSnoc(cs, j, cs[j]);
      OccPrefixMono(cs, j + 1, i, cs[j]);
    }
  }

  lemma {:induction false} FindBucket(cs: seq<nat>, s: int, m: int)
    requires 0 <= s < Below(cs, m)
    ensures exists c :: 0 <= c < m && Below(cs, c) <= s < Below(cs, c + 1)
    decreases m
  {
    BelowZero(cs);
    if m <= 0 {
      BelowMono(cs, m, 0);
    }
    if m > 0 && s < Below(cs, m - 1) {
      FindBucket(cs, s, m - 1);
    } else {
      assert m > 0;
      assert Below(cs, m - 1) <= s < Below(cs, m - 1 + 1);
    }
  }

  lemma {:induction false} KthOcc(cs: seq<nat>, c: int, k: int)
    requires 0 <= k < Occ(cs, c)
    ensures exists i :: 0 <= i < |cs| && cs[i] == c && Occ(cs[..i], c) == k
    decreases |cs|
  {
    var init := cs[..|cs| - 1];
    if k < Occ(init, c) {
      KthOcc(init, c, k);
      var i :| 0 <= i < |init| && init[i] == c && Occ(init[..i], c) == k;
      assert init[..i] == cs[..i];
    } else {
      assert cs[..|cs| - 1] == init;
    }
  }

  /** Every slot below the input count receives some input. */
  lemma {:induction false} SlotOnto(cs: seq<nat>, length: int, s: int)
    requires Fits(cs, length) && 0 <= s < |cs|
    ensures exists i :: 0 <= i < |cs| && Slot(cs, i) == s
  {
    BelowAll(cs, length);
    FindBucket(cs, s, length);
    var c :| 0 <= c < length && Below(cs, c) <= s < Below(cs, c + 1);
    BelowStep(cs, c);
    KthOcc(cs, c, s - Below(cs, c));
    var i :| 0 <= i < |cs| && cs[i] == c && Occ(cs[..i], c) == s - Below(cs, c);
    assert Slot(cs, i) == s;
  }

  /** Inputs 0 .. i-1 have been written to their slots. */
  ghost predicate Placed<U>(ds: seq<U>, xs: seq<U>, cs: seq<nat>, i: int)
    requires 0 <= i <= |xs| == |cs| == |ds|
  {
    forall j :: 0 <= j < i ==> ds[Slot(cs, j)] == xs[j]
  }

  lemma {:induction false} PlaceStep<U>(ds: seq<U>, xs: seq<U>, cs: seq<nat>, i: int)
    requires 0 <= i < |xs| == |cs| == |ds| && Placed(ds, xs, cs, i)
    ensures 0 <= Slot(cs, i) < |ds|
    ensures Placed(ds[Slot(cs, i) := xs[i]], xs, cs, i + 1)
  {
    SlotRange(cs, i);
    forall j | 0 <= j < i
      ensures Slot(cs, j) != Slot(cs, i)
    {
      SlotOrder(cs, j, i);
      SlotOrder(cs, i, j);
    }
  }

  /** The scatter cursors after inputs 0 .. i-1: bucket start plus the inputs
      of that bucket already placed. */
  ghost predicate Cursors(count: seq<int>, cs: seq<nat>, i: int)
    requires 0 <= i <= |cs|
  {
    forall c :: 0 <= c < |count| ==> count[c] == Below(cs, c) + Occ(cs[..i], c)
  }

  lemma {:induction false} CursorStep(count: seq<int>, cs: seq<nat>, i: int)
    requires 0 <= i < |cs| && cs[i] < |count| && Cursors(count, cs, i)
    ensures count[cs[i]] == Slot(cs, i)
    ensures Cursors(count[cs[i] := count[cs[i]] + 1], cs, i + 1)
  {
    forall c | 0 <= c < |count| {
      OccSnoc(cs, i, c);
    }
  }

  /** The histogram after inputs 0 .. i-1: slot c + 1 counts cardinality c. */
  ghost predicate Tally(count: seq<int>, cs: seq<nat>, i: int)
    requires 0 <= i <= |cs|
  {
    |count| > 0 && count[0] == 0 &&
    forall d :: 1 <= d < |count| ==> count[d] == Occ(cs[..i], d - 1)
  }

  lemma {:induction false} TallyStep(count: seq<int>, cs: seq<nat>, i: int)
    requires 0 <= i < |cs| && cs[i] + 1 < |count| && Tally(count, cs, i)
    ensures Tally(count[cs[i] + 1 := count[cs[i] + 1] + 1], cs, i + 1)
  {
    var count' := count[cs[i] + 1 := count[cs[i] + 1] + 1];
    forall d | 1 <= d < |count|
      ensures count'[d] == Occ(cs[..i + 1], d - 1)
    {
      OccSnoc(cs, i, d - 1);
    }
  }

  /** The prefix-sum pass after slots 0 .. j-1: those hold the bucket starts,
      the rest still hold the histogram. */
  ghost predicate PrefixSums(count: seq<int>, cs: seq<nat>, j: int)
    requires 1 <= j <= |count|
  {
    (forall c :: 0 <= c < j ==> count[c] == Below(cs, c)) &&
    (forall d :: j <= d < |count| ==> count[d] == Occ(cs, d - 1))
  }

  lemma {:induction false} PrefixStep(count: seq<int>, cs: seq<nat>, j: int)
    requires 1 <= j < |count| && PrefixSums(count, cs, j)
    ensures PrefixSums(count[j := count[j] + count[j - 1]], cs, j + 1)
  {
    BelowStep(cs, j - 1);
  }

  lemma {:induction false} TallyDone(count: seq<int>, cs: seq<nat>)
    requires Tally(count, cs, |cs|)
    ensures PrefixSums(count, cs, 1)
  {
    assert cs[..|cs|] == cs;
    BelowZero(cs);
  }

  /** The histogram pass and the prefix sums, shared by `sort` and `index`:
      `count[c]` ends as the number of inputs of cardinality below c. A
      cardinality of `length` or more indexes past the array. */
  method Histogram<T>(src: seq<T>, card: T -> nat, length: nat) returns (r: Result<array<int>, Exception>)
    ensures r.Ok? <==> Fits(Cards(src, card), length)
    ensures r.Err? ==> r.error == ArrayIndexOutOfBounds
    ensures r.Ok? ==> fresh(r.value) && r.value.Length == length + 1
    ensures r.Ok? ==> forall c :: 0 <= c <= length ==> r.value[c] == Below(Cards(src, card), c)
  {
    ghost var cs := Cards(src, card);
    var count := new int[length + 1](_ => 0);
    assert cs[..0] == [];
    var i := 0;
    while i < |src|
      invariant 0 <= i <= |src|
      invariant Fits(cs[..i], length)
      invariant Tally(count[..], cs, i)
    {
      var c := card(src[i]);
      if c + 1 >= count.Length {
        return Err(ArrayIndexOutOfBounds);
      }
      ghost var cnt := count[..];
      TallyStep(cnt, cs, i);
      count[c + 1] := count[c + 1] + 1;
      assert count[..] == cnt[c + 1 := cnt[c + 1] + 1];
      assert cs[..i + 1] == cs[..i] + [cs[i]];
      i := i + 1;
    }
    assert cs[..i] == cs;
    TallyDone(count[..], cs);
    var j := 1;
    while j < count.Length
      invariant 1 <= j <= count.Length
      invariant PrefixSums(count[..], cs, j)
    {
      ghost var cnt := count[..];
      PrefixStep(cnt, cs, j);
      count[j] := count[j] + count[j - 1];
      assert count[..] == cnt[j := cnt[j] + cnt[j - 1]];
      j := j + 1;
    }
    return Ok(count);
  }

  /** Sorts fingerprints by cardinality; fewer than two are returned as they are. */
  method Sort<T>(src: seq<T>, card: T -> nat, length: nat) returns (r: Result<seq<T>, Exception>)
    ensures r.Ok? <==> |src| < 2 || Fits(Cards(src, card), length)
    ensures r.Err? ==> r.error == ArrayIndexOutOfBounds
    ensures r.Ok? && |src| < 2 ==> r.value == src
    ensures r.Ok? ==>
      |r.value| == |src| &&
      (forall i :: 0 <= i < |src| ==> r.value[Slot(Cards(src, card), i)] == src[i])
  {
    if |src| < 2 {
      return Ok(src);
    }
    ghost var cs := Cards(src, card);
    var h := Histogram(src, card, length);
    if h.Err? {
      return Err(h.error);
    }
    var count := h.value;
    var dest := new T[|src|](_ => src[0]);
    var i := 0;
    while i < |src|
      invariant 0 <= i <= |src|
      invariant Cursors(count[..], cs, i)
      invariant Placed(dest[..], src, cs, i)
    {
      SortOne(count, dest, src, card, cs, length, i);
      i := i + 1;
    }
    return Ok(dest[..]);
  }

  /** One step of the sort scatter: input i goes to the next cursor of its bucket. */
  method SortOne<T>(count: array<int>, dest: array<T>, src: seq<T>, card: T -> nat, ghost cs: seq<nat>, length: nat, i: int)
    requires cs == Cards(src, card) && 0 <= i < |src| && Fits(cs, length)
    requires count.Length == length + 1 && dest.Length == |src| && count as object != dest as object
    requires Cursors(count[..], cs, i) && Placed(dest[..], src, cs, i)
    modifies count, dest
    ensures Cursors(count[..], cs, i + 1) && Placed(dest[..], src, cs, i + 1)
  {
    var c := card(src[i]);
    ghost var cnt, ds := count[..], dest[..];
    CursorStep(cnt, cs, i);
    PlaceStep(ds, src, cs, i);
    dest[count[c]] := src[i];
    assert dest[..] == ds[Slot(cs, i) := src[i]];
    count[c] := count[c] + 1;
    assert count[..] == cnt[c := cnt[c] + 1];
  }

  /** Bytes from the start of the region to the record in slot s. */
  function Offset(length: int, s: int): int
  {
    4 + 4 * (length + 1) + (length / 8) * s
  }

  /** The mapped region holds the header and n records of length/8 bytes. */
  function RegionSize(length: int, n: int): (size: int)
    ensures size == Offset(length, n)
  {
    4 + 4 * (length + 1) + (length / 8) * n
  }

  /** Records of distinct slots do not overlap, and each fits in the region. */
  lemma RecordsDisjoint(length: nat, n: int, s: int, t: int)
    requires 0 <= s < t <= n
    ensures Offset(length, s) + length / 8 <= Offset(length, t) <= RegionSize(length, n)
  {
    var w := length / 8;
    MulGap(w, s, t);
    MulGap(w, t, n);
  }

  lemma MulGap(w: nat, s: int, t: int)
    requires s <= t
    ensures w * s + (if s < t then w else 0) <= w * t
  {
    var d := t - s;
    assert w * t == w * s + w * d;
    if s < t {
      assert w * d == w + w * (d - 1);
    }
  }

  /** The memory-mapped output file: the ints written from byte 0 and the
      fingerprint records, keyed by the byte offset they start at. */
  class MappedBuffer<T> {
    const capacity: int
    var position: int
    var ints: seq<int>
    var records: map<int, T>

    constructor (capacity: int)
      ensures this.capacity == capacity && position == 0 && ints == [] && records == map[]
    {
      this.capacity := capacity;
      position := 0;
      ints := [];
      records := map[];
    }

    /** `putInt`: writes one int at the cursor and moves past it; with
        fewer than four bytes left it is a `BufferOverflowException`. */
    method PutInt(x: int) returns (fault: Option<Exception>)
      requires position == 4 * |ints|
      modifies this
      ensures fault == if capacity - old(position) < 4 then Some(BufferOverflow) else None
      ensures fault.None? ==> ints == old(ints) + [x] && position == old(position) + 4 && records == old(records)
      ensures fault.Some? ==> ints == old(ints) && position == old(position) && records == old(records)
    {
      if capacity - position < 4 {
        return Some(BufferOverflow);
      }
      ints := ints + [x];
      position := position + 4;
      fault := None;
    }

    /** `asIntBuffer().put(xs)`: writes ints after the cursor through a view,
        leaving the buffer's own cursor where it was; a view too small for
        xs is a `BufferOverflowException`. */
    method PutIntView(xs: seq<int>) returns (fault: Option<Exception>)
      requires position == 4 * |ints|
      modifies this
      ensures fault == if capacity - old(position) < 4 * |xs| then Some(BufferOverflow) else None
      ensures fault.None? ==> ints == old(ints) + xs
      ensures fault.Some? ==> ints == old(ints)
      ensures position == old(position) && records == old(records)
    {
      if capacity - position < 4 * |xs| {
        return Some(BufferOverflow);
      }
      ints := ints + xs;
      fault := None;
    }

    /** `put`: moves the cursor to pos and writes a fingerprint of `width`
        bytes there. A pos outside [0, capacity] is the
        `IllegalArgumentException` of `position(pos)`; fewer than `width`
        bytes after it is a `BufferOverflowException`. */
    method Put(pos: int, fp: T, width: int) returns (fault: Option<Exception>)
      modifies this
      ensures fault == if pos < 0 || pos > capacity then Some(IllegalArgument)
                       else if capacity - pos < width then Some(BufferOverflow) else None
      ensures fault.None? ==> records == old(records)[pos := fp] && position == pos + width
      ensures fault.Some? ==> records == old(records)
      ensures ints == old(ints)
    {
      if pos < 0 || pos > capacity {
        return Some(IllegalArgument);
      }
      if capacity - pos < width {
        return Some(BufferOverflow);
      }
      position := pos;
      records := records[pos := fp];
      position := position + width;
      fault := None;
    }
  }

  /** The size `map` is asked for: `RegionSize` computed in `int` arithmetic. */
  function MappedSize(length: int, n: int): Words.Int32
  {
    Words.ToInt32(RegionSize(length, n))
  }

  /** The record of slot s, at its `int` offset, lies inside a region of
      `capacity` bytes. */
  predicate SlotFits(length: int, capacity: int, s: int)
  {
    var p := Words.ToInt32(Offset(length, s));
    0 <= p <= capacity && capacity - p >= length / 8
  }

  /** In a region that fits an `int`, every slot's record fits. */
  lemma SlotFitsRegion(length: nat, n: int, s: int)
    requires 0 <= s < n && RegionSize(length, n) < 0x8000_0000
    ensures Words.ToInt32(Offset(length, s)) == Offset(length, s)
    ensures SlotFits(length, RegionSize(length, n), s)
  {
    RecordsDisjoint(length, n, s, n);
    Words.WrapInt32(Offset(length, s));
  }

  /** The last multiple of step at most d. */
  lemma FloorMultiple(d: nat, step: int) returns (s: nat)
    requires step > 0
    ensures step * s <= d < step * s + step
  {
    s := d / step;
  }

  /** A record starting below 2^31 but ending past it does not fit an `int`-sized region. */
  lemma StraddleOverruns(length: nat, capacity: Words.Int32, s: int)
    requires 0 <= Offset(length, s) < 0x8000_0000 <= Offset(length, s) + length / 8
    ensures !SlotFits(length, capacity, s)
  {
    Words.WrapInt32(Offset(length, s));
  }

  /**
   * A region of 2^31 bytes or more whose size wraps to a non-negative `int`
   * that still holds the header: some slot's record does not fit. The last
   * record starting below 2^31 runs past it.
   */
  lemma {:induction false} WrappedRegionOverruns(length: nat, n: nat, capacity: int)
    requires capacity == MappedSize(length, n) && Offset(length, 0) <= capacity
    requires RegionSize(length, n) >= 0x8000_0000
    ensures exists s :: 0 <= s < n && !SlotFits(length, capacity, s)
  {
    var step, base := length / 8, 4 + 4 * (length + 1);
    assert Offset(length, 0) == base;
    assert RegionSize(length, n) == base + step * n;
    if step == 0 {
      assert false;
    }
    var s := FloorMultiple(0x7FFF_FFFF - base, step);
    assert Offset(length, s) == base + step * s;
    if s >= n {
      MulGap(step, n, s);
      assert false;
    }
    StraddleOverruns(length, capacity, s);
  }

  /** Inputs 0 .. i-1 have a record at the offset of their slot; with a
      stride of at least one byte the records do not overwrite each other. */
  ghost predicate Written<T>(records: map<int, T>, src: seq<T>, cs: seq<nat>, length: nat, i: int)
    requires 0 <= i <= |src| == |cs|
  {
    (forall j :: 0 <= j < i ==> Offset(length, Slot(cs, j)) in records) &&
    (length >= 8 ==> forall j :: 0 <= j < i ==> records[Offset(length, Slot(cs, j))] == src[j])
  }

  lemma {:induction false} WrittenStep<T>(records: map<int, T>, src: seq<T>, cs: seq<nat>, length: nat, i: int)
    requires 0 <= i < |src| == |cs| && Written(records, src, cs, length, i)
    ensures Written(records[Offset(length, Slot(cs, i)) := src[i]], src, cs, length, i + 1)
  {
    if length >= 8 {
      RecordsApart(length, cs, i);
    }
  }

  function Positions(n: nat): (ps: seq<int>)
    ensures |ps| == n && forall j :: 0 <= j < n ==> ps[j] == j
  {
    seq(n, j => j)
  }

  /** One step of the index scatter: input n takes the next cursor of its
      bucket, its record is written at the `int` offset of that slot and its
      position is recorded; a record outside the region is `put`'s fault. */
  method IndexOne<T>(buffer: MappedBuffer<T>, count: array<int>, ordering: array<int>, src: seq<T>, card: T -> nat,
                     ghost cs: seq<nat>, length: nat, offset: int, n: int)
    returns (fault: Option<Exception>)
    requires cs == Cards(src, card) && 0 <= n < |src| && Fits(cs, length)
    requires count.Length == length + 1 && ordering.Length == |src| && count != ordering
    requires offset == Offset(length, 0)
    requires Cursors(count[..], cs, n) && Placed(ordering[..], Positions(|src|), cs, n)
    requires buffer.capacity == RegionSize(length, |src|) < 0x8000_0000 ==> Written(buffer.records, src, cs, length, n)
    modifies buffer, count, ordering
    ensures buffer.ints == old(buffer.ints)
    ensures fault.None? <==> SlotFits(length, buffer.capacity, Slot(cs, n))
    ensures fault.None? ==> Cursors(count[..], cs, n + 1) && Placed(ordering[..], Positions(|src|), cs, n + 1)
    ensures fault.None? && buffer.capacity == RegionSize(length, |src|) < 0x8000_0000 ==>
      Written(buffer.records, src, cs, length, n + 1)
  {
    var c := card(src[n]);
    var step := length / 8;
    ghost var cnt, os, recs := count[..], ordering[..], buffer.records;
    CursorStep(cnt, cs, n);
    PlaceStep(os, Positions(|src|), cs, n);
    var idx := count[c];
    count[c] := count[c] + 1;
    assert count[..] == cnt[c := cnt[c] + 1];
    assert offset + (step * idx) == Offset(length, Slot(cs, n));
    var pos := Words.ToInt32(offset + (step * idx));
    assert pos == Words.ToInt32(Offset(length, Slot(cs, n)));
    if buffer.capacity == RegionSize(length, |src|) < 0x8000_0000 {
      SlotRange(cs, n);
      SlotFitsRegion(length, |src|, Slot(cs, n));
      WrittenStep(recs, src, cs, length, n);
    }
    fault := buffer.Put(pos, src[n], step);
    if fault.Some? {
      return;
    }
    ordering[idx] := n;
    assert ordering[..] == os[Slot(cs, n) := n];
  }

  /**
   * The loop of `index` after the header: each input in turn is written at
   * its slot's `int` offset, until one does not fit the region. Every slot
   * fits when the loop completes.
   */
  method Scatter<T>(buffer: MappedBuffer<T>, count: array<int>, src: seq<T>, card: T -> nat,
                    ghost cs: seq<nat>, length: nat, offset: int)
    returns (ordering: array<int>, fault: Option<Exception>)
    requires cs == Cards(src, card) && Fits(cs, length)
    requires count.Length == length + 1 && offset == Offset(length, 0)
    requires Cursors(count[..], cs, 0) && cs[..0] == []
    modifies buffer, count
    ensures fresh(ordering) && ordering.Length == |src| && buffer.ints == old(buffer.ints)
    ensures buffer.capacity == RegionSize(length, |src|) < 0x8000_0000 ==> fault.None?
    ensures fault.None? ==> forall s :: 0 <= s < |src| ==> SlotFits(length, buffer.capacity, s)
    ensures fault.None? ==> forall i :: 0 <= i < |src| ==> ordering[Slot(cs, i)] == i
    ensures fault.None? && buffer.capacity == RegionSize(length, |src|) < 0x8000_0000 ==>
      Written(buffer.records, src, cs, length, |src|)
  {
    ordering := new int[|src|](_ => 0);
    ghost var regionFits := buffer.capacity == RegionSize(length, |src|) < 0x8000_0000;
    var n := 0;
    while n < |src|
      invariant 0 <= n <= |src| && buffer.ints == old(buffer.ints)
      invariant regionFits == (buffer.capacity == RegionSize(length, |src|) < 0x8000_0000)
      invariant Cursors(count[..], cs, n)
      invariant Placed(ordering[..], Positions(|src|), cs, n)
      invariant forall j :: 0 <= j < n ==> SlotFits(length, buffer.capacity, Slot(cs, j))
      invariant regionFits ==> Written(buffer.records, src, cs, length, n)
      modifies buffer, count, ordering
    {
      fault := IndexOne(buffer, count, ordering, src, card, cs, length, offset, n);
      if fault.Some? {
        if regionFits {
          SlotRange(cs, n);
          SlotFitsRegion(length, |src|, Slot(cs, n));
          assert false;
        }
        return;
      }
      n := n + 1;
    }
    fault := None;
    forall s | 0 <= s < |src|
      ensures SlotFits(length, buffer.capacity, s)
    {
      SlotOnto(cs, length, s);
    }
  }

  /**
   * `index(src, length, f)`: maps a region of the `int` size `4 + 4 *
   * (length + 1) + step * n` (a negative size is `map`'s
   * `IllegalArgumentException`), counts the popcounts, then writes the count
   * header and each fingerprint at the offset of its slot; returns, per slot,
   * the input position stored there. It succeeds exactly when every popcount
   * fits and the true size is below 2^31: a size that wraps to a
   * non-negative `int` maps too small a region for the records.
   */
  method Index<T>(src: seq<T>, card: T -> nat, length: nat) returns (r: Result<(MappedBuffer<T>, seq<int>), Exception>)
    ensures r.Ok? <==> Fits(Cards(src, card), length) && RegionSize(length, |src|) < 0x8000_0000
    ensures MappedSize(length, |src|) < 0 ==> r == Err(IllegalArgument)
    ensures MappedSize(length, |src|) >= 0 && !Fits(Cards(src, card), length) ==> r == Err(ArrayIndexOutOfBounds)
    ensures r.Ok? ==>
      var (buffer, ordering) := r.value;
      buffer.capacity == RegionSize(length, |src|) &&
      buffer.ints == [length + 1] + seq(length + 1, c => Below(Cards(src, card), c)) &&
      |ordering| == |src| &&
      (forall i :: 0 <= i < |src| ==> ordering[Slot(Cards(src, card), i)] == i) &&
      Written(buffer.records, src, Cards(src, card), length, |src|)
  {
    ghost var cs := Cards(src, card);
    var size := Words.ToInt32(4 + 4 * (length + 1) + (length / 8) * |src|);
    assert size == MappedSize(length, |src|);
    if RegionSize(length, |src|) < 0x8000_0000 {
      Words.WrapInt32(RegionSize(length, |src|));
    }
    if size < 0 {
      return Err(IllegalArgument);
    }
    var buffer := new MappedBuffer<T>(size);
    var h := Histogram(src, card, length);
    if h.Err? {
      return Err(h.error);
    }
    var count := h.value;
    var fault := buffer.PutInt(count.Length);
    if fault.Some? {
      return Err(fault.value);
    }
    fault := buffer.PutIntView(count[..]);
    if fault.Some? {
      return Err(fault.value);
    }
    var offset := buffer.position + (count.Length * 4);
    assert buffer.ints == [length + 1] + seq(length + 1, c => Below(cs, c));
    assert cs[..0] == [];
    var ordering;
    ordering, fault := Scatter(buffer, count, src, card, cs, length, offset);
    if fault.Some? {
      return Err(fault.value);
    }
    if RegionSize(length, |src|) >= 0x8000_0000 {
      WrappedRegionOverruns(length, |src|, size);
      assert false;
    }
    return Ok((buffer, ordering[..]));
  }

  lemma {:induction false} RecordsApart(length: nat, cs: seq<nat>, n: int)
    requires length >= 8 && 0 <= n < |cs|
    ensures forall j :: 0 <= j < n ==> Offset(length, Slot(cs, j)) != Offset(length, Slot(cs, n))
  {
    forall j | 0 <= j < n
      ensures Offset(length, Slot(cs, j)) != Offset(length, Slot(cs, n))
    {
      SlotOrder(cs, j, n);
      SlotOrder(cs, n, j);
      SlotRange(cs, j);
      SlotRange(cs, n);
      if Slot(cs, j) < Slot(cs, n) {
        RecordsDisjoint(length, |cs|, Slot(cs, j), Slot(cs, n));
      } else {
        RecordsDisjoint(length, |cs|, Slot(cs, n), Slot(cs, j));
      }
    }
  }

  /** The sorted output is a permutation: each slot holds exactly one input. */
  lemma {:induction false} SortPermutation(cs: seq<nat>, length: int, s: int)
    requires Fits(cs, length) && 0 <= s < |cs|
    ensures exists i :: 0 <= i < |cs| && Slot(cs, i) == s
    ensures forall i, j :: 0 <= i < |cs| && 0 <= j < |cs| && Slot(cs, i) == s && Slot(cs, j) == s ==> i == j
  {
    SlotOnto(cs, length, s);
    forall i, j | 0 <= i < |cs| && 0 <= j < |cs| && Slot(cs, i) == s && Slot(cs, j) == s
      ensures i == j
    {
      SlotOrder(cs, i, j);
      SlotOrder(cs, j, i);
    }
  }
}
