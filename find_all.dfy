// `SimilarityIndex.findAll`: the records of the index that score at least a
// threshold against a query, found by scanning buckets outward from the
// query's popcount.
//
// The source's scan is modelled as written (the members ending in
// `AsWritten`), with lemmas that exhibit where it goes wrong, next to a
// corrected scan whose result is proved to be exactly the records meeting
// the threshold.

module FindAlls {
  import opened Wrappers
  import opened Words
  import opened Similarity
  import opened BinaryFingerprints
  import opened IndexLayouts

  /** `new int[counts.length + 2]`: the size of the ordering array findAll fills. */
  const OrderCapacity: int := Length + 3

  // ------------------------------------------------------------ scores

  /**
   * The score findAll computes for a record of bucket `bin` that shares
   * `both` bits with a query of popcount q: `onlyA = q - both`,
   * `onlyB = bin - both`, `neither = length - (both + onlyA + onlyB)`.
   */
  function Score(m: Measure, q: int, bin: int, both: int): Double
  {
    Compute(m, q - both, bin - both, both, Length - (both + (q - both) + (bin - both)))
  }

  /** The score of record rec against the query. */
  function RecordScore(m: Measure, query: seq<Word>, rec: seq<Word>): Double
    requires |query| == |rec|
  {
    Score(m, Popcount(query), Popcount(rec), Popcount(AndWords(query, rec)))
  }

  /** Record rec is a hit: its score is at least the threshold (`sim >= threshold`). */
  predicate IsHit(m: Measure, query: seq<Word>, rec: seq<Word>, threshold: real)
    requires |query| == |rec|
  {
    AtLeast(RecordScore(m, query, rec), Num(threshold))
  }

  /** The score is the measure applied to the four counts of the two fingerprints. */
  lemma RecordScoreTallies(m: Measure, query: seq<Word>, rec: seq<Word>)
    requires |query| == |rec|
    ensures var t := Tallies(query, rec, Length);
      RecordScore(m, query, rec) == Compute(m, t.onlyA, t.onlyB, t.both, t.neither)
  {
  }

  /**
   * Soundness of pruning: a record whose bucket's bound is below the
   * threshold is not a hit.
   */
  lemma {:induction false} BelowBoundNoHit(m: Measure, query: seq<Word>, rec: seq<Word>, threshold: real)
    requires |query| == |rec| == Stride
    requires Less(Bound(m, Popcount(query), Popcount(rec)), Num(threshold))
    ensures !IsHit(m, query, rec, threshold)
  {
    var t := Tallies(query, rec, Length);
    TallySound(query, rec, Length);
    var a, b, both: nat := t.onlyA, t.onlyB, t.both;
    var s := RecordScore(m, query, rec);
    assert s == Compute(m, a, b, both, t.neither);
    assert Popcount(query) == a + both && Popcount(rec) == b + both;
    if a + b + both == 0 {
    } else if m == Tanimoto {
      TanimotoBoundSound(a, b, both, t.neither);
    } else {
      ConstantBoundsSound(m, a, b, both, t.neither);
    }
  }

  /**
   * Moving away from q on one side, a bound below the threshold stays below
   * it: the Tanimoto bound shrinks and the others are constant.
   */
  lemma {:induction false} BelowBoundAway(m: Measure, q: int, t1: int, t2: int, threshold: real)
    requires 0 <= q && 0 <= t2 && ((q < t1 <= t2) || (t2 <= t1 < q))
    requires Less(Bound(m, q, t1), Num(threshold))
    ensures Less(Bound(m, q, t2), Num(threshold))
  {
    if m == Tanimoto {
      if q == 0 {
        assert Bound(m, q, t1) == Num(0.0) && Bound(m, q, t2) == Num(0.0);
      } else {
        TanimotoBoundMonotone(q, t1, t2);
        TanimotoBoundMonotone(q, t2, t1);
      }
    }
  }

  // ------------------------------------------------------------ the query's words

  /** `BitSet.toLongArray()`: the words up to the last non-zero one. */
  function LongArray(ws: seq<Word>): (r: seq<Word>)
    ensures |r| <= |ws| && r == ws[..|r|]
    ensures r == [] || r[|r| - 1] != 0
    ensures forall i :: |r| <= i < |ws| ==> ws[i] == 0
  {
    if ws == [] || ws[|ws| - 1] != 0 then ws else LongArray(ws[..|ws| - 1])
  }

  /** Dropping the trailing zero words keeps every set bit. */
  lemma {:induction false} LongArrayPopcount(ws: seq<Word>)
    ensures Popcount(LongArray(ws)) == Popcount(ws)
    decreases |ws|
  {
    if ws != [] && ws[|ws| - 1] == 0 {
      LongArrayPopcount(ws[..|ws| - 1]);
    }
  }

  /**
   * The bits qw shares with the payload words from pos on, summed over the
   * first t words of qw.
   */
  function SharedBits(payload: seq<Word>, qw: seq<Word>, pos: int, t: int): nat
    requires 0 <= pos && 0 <= t <= |qw| && pos + |qw| <= |payload|
  {
    if t == 0 then 0 else SharedBits(payload, qw, pos, t - 1) + BitCount(WordAnd(qw[t - 1], payload[pos + t - 1]))
  }

  /** Summed over all of qw, the shared bits are the popcount of the word-wise AND. */
  lemma {:induction false} SharedBitsPopcount(payload: seq<Word>, qw: seq<Word>, pos: int, t: int)
    requires 0 <= pos && 0 <= t <= |qw| && pos + |qw| <= |payload|
    ensures SharedBits(payload, qw, pos, t) == Popcount(AndWords(qw[..t], payload[pos..pos + t]))
  {
    if t > 0 {
      SharedBitsPopcount(payload, qw, pos, t - 1);
      var w := AndWords(qw[..t], payload[pos..pos + t]);
      assert w[..t - 1] == AndWords(qw[..t - 1], payload[pos..pos + t - 1]);
    }
  }

  /**
   * `for (long word : queryWords) both += Long.bitCount(word & buffer.getLong())`
   * with the buffer at word pos.
   */
  method CountBoth(payload: seq<Word>, qw: seq<Word>, pos: int) returns (both: int)
    requires 0 <= pos && pos + |qw| <= |payload|
    ensures both == SharedBits(payload, qw, pos, |qw|)
  {
    both := 0;
    var t := 0;
    while t < |qw|
      invariant 0 <= t <= |qw|
      invariant both == SharedBits(payload, qw, pos, t)
    {
      both := both + BitCount(WordAnd(qw[t], payload[pos + t]));
      t := t + 1;
    }
  }

  // ------------------------------------------------------------ the ordering as written

  /**
   * findAll's ordering loop from its (p+1)-th pass on, with 2p + 1 slots of
   * the array used, jHi = q + p + 1 and jLo = q - p - 1. A pass stops when
   * `bound(q, jHi) < threshold`, checked before storing jHi and again, on the
   * next jHi, before storing jLo; a store past the array raises
   * ArrayIndexOutOfBoundsException.
   */
  function SweepAsWritten(q: int, threshold: real, m: Measure, p: nat): Result<seq<int>, Exception>
    decreases OrderCapacity - 2 * p
  {
    var n, jHi, jLo := 2 * p + 1, q + p + 1, q - p - 1;
    if Less(Bound(m, q, jHi), Num(threshold)) then Ok([])
    else if n >= OrderCapacity then Err(ArrayIndexOutOfBounds)
    else if Less(Bound(m, q, jHi + 1), Num(threshold)) then Ok([jHi])
    else if n + 1 >= OrderCapacity then Err(ArrayIndexOutOfBounds)
    else match SweepAsWritten(q, threshold, m, p + 1)
      case Ok(rest) => Ok([jHi, jLo] + rest)
      case Err(e) => Err(e)
  }

  /** The buckets findAll visits, in order, starting with q itself. */
  function OrderAsWritten(q: int, threshold: real, m: Measure): Result<seq<int>, Exception>
  {
    match SweepAsWritten(q, threshold, m, 0)
    case Ok(rest) => Ok([q] + rest)
    case Err(e) => Err(e)
  }

  /** The j-th bucket of the outward order q, q+1, q-1, q+2, q-2, ... */
  function Outward(q: int, j: int): int
  {
    if j % 2 == 1 then q + (j + 1) / 2 else q - j / 2
  }

  /** The ordering array's first n slots followed by what the loop stores next. */
  function Then(done: seq<int>, rest: Result<seq<int>, Exception>): Result<seq<int>, Exception>
  {
    match rest
    case Ok(r) => Ok(done + r)
    case Err(e) => Err(e)
  }

  /** findAll's ordering loop (`while (true)` with its two breaks), filling an array of counts.length + 2 slots. */
  method OrderingAsWritten(q: int, threshold: real, m: Measure) returns (r: Result<seq<int>, Exception>)
    ensures r == OrderAsWritten(q, threshold, m)
  {
    var ordering := new int[OrderCapacity];
    var n := 0;
    ordering[n] := q;
    n := n + 1;
    var jHi, jLo := q + 1, q - 1;
    ghost var p: nat := 0;
    ghost var stored := [q];
    while true
      invariant n == |stored| == 2 * p + 1 <= ordering.Length && jHi == q + p + 1 && jLo == q - p - 1
      invariant forall i :: 0 <= i < n ==> ordering[i] == stored[i]
      invariant OrderAsWritten(q, threshold, m) == Then(stored, SweepAsWritten(q, threshold, m, p))
      decreases OrderCapacity - n
    {
      SweepCases(q, threshold, m, p, stored);
      if Less(Bound(m, q, jHi), Num(threshold)) {
        assert ordering[..n] == stored;
        return Ok(ordering[..n]);
      }
      if n >= ordering.Length {
        return Err(ArrayIndexOutOfBounds);
      }
      ordering[n] := jHi;
      n := n + 1;
      jHi := jHi + 1;
      if Less(Bound(m, q, jHi), Num(threshold)) {
        assert ordering[..n] == stored + [jHi - 1];
        return Ok(ordering[..n]);
      }
      if n >= ordering.Length {
        return Err(ArrayIndexOutOfBounds);
      }
      ordering[n] := jLo;
      n := n + 1;
      jLo := jLo - 1;
      stored := stored + [jHi - 1, jLo + 1];
      p := p + 1;
    }
  }

  /** One pass of the ordering loop, in terms of what it has stored so far. */
  lemma SweepCases(q: int, threshold: real, m: Measure, p: nat, done: seq<int>)
    ensures var jHi, n := q + p + 1, 2 * p + 1;
      var after := Then(done, SweepAsWritten(q, threshold, m, p));
      && (Less(Bound(m, q, jHi), Num(threshold)) ==> after == Ok(done))
      && (!Less(Bound(m, q, jHi), Num(threshold)) && n >= OrderCapacity ==> after == Err(ArrayIndexOutOfBounds))
      && (!Less(Bound(m, q, jHi), Num(threshold)) && n < OrderCapacity && Less(Bound(m, q, jHi + 1), Num(threshold)) ==>
            after == Ok(done + [jHi]))
      && (!Less(Bound(m, q, jHi), Num(threshold)) && n + 1 == OrderCapacity && !Less(Bound(m, q, jHi + 1), Num(threshold)) ==>
            after == Err(ArrayIndexOutOfBounds))
      && (!Less(Bound(m, q, jHi), Num(threshold)) && n + 1 < OrderCapacity && !Less(Bound(m, q, jHi + 1), Num(threshold)) ==>
            after == Then(done + [jHi, q - p - 1], SweepAsWritten(q, threshold, m, p + 1)))
  {
    assert done + [] == done;
    ThenAssoc(done, [q + p + 1, q - p - 1], SweepAsWritten(q, threshold, m, p + 1));
  }

  lemma ThenAssoc(a: seq<int>, b: seq<int>, rest: Result<seq<int>, Exception>)
    ensures Then(a, Then(b, rest)) == Then(a + b, rest)
  {
    if rest.Ok? {
      ConcatAssoc(a, b, rest.value);
    }
  }

  /** The test the ordering loop passes before storing its j-th bucket (j >= 1): bound(q, q + j / 2 + 1) meets the threshold. */
  predicate Passes(m: Measure, q: int, threshold: real, j: int)
  {
    !Less(Bound(m, q, q + j / 2 + 1), Num(threshold))
  }

  /**
   * rest holds the outward buckets from the start-th on, each after passing
   * its test, and the test after the last one fails.
   */
  predicate Shaped(q: int, threshold: real, m: Measure, start: int, rest: seq<int>)
  {
    && (forall i :: 0 <= i < |rest| ==> rest[i] == Outward(q, start + i) && Passes(m, q, threshold, start + i))
    && !Passes(m, q, threshold, start + |rest|)
  }

  /**
   * What the ordering loop stores from pass p + 1 on: the outward order,
   * each bucket only after passing its test, up to the first test that
   * fails.
   */
  lemma {:induction false} SweepShape(q: int, threshold: real, m: Measure, p: nat)
    requires SweepAsWritten(q, threshold, m, p).Ok?
    ensures Shaped(q, threshold, m, 2 * p + 1, SweepAsWritten(q, threshold, m, p).value)
    decreases OrderCapacity - 2 * p
  {
    var jHi := q + p + 1;
    var rest := SweepAsWritten(q, threshold, m, p).value;
    assert (2 * p + 1) / 2 == p && (2 * p + 2) / 2 == p + 1;
    if Less(Bound(m, q, jHi), Num(threshold)) {
      assert rest == [];
    } else if Less(Bound(m, q, jHi + 1), Num(threshold)) {
      assert rest == [jHi];
      assert (2 * p + 1) % 2 == 1;
      assert rest[0] == Outward(q, 2 * p + 1 + 0) && Passes(m, q, threshold, 2 * p + 1 + 0);
      assert !Passes(m, q, threshold, 2 * p + 1 + 1);
    } else {
      var tail := SweepAsWritten(q, threshold, m, p + 1).value;
      assert rest == [jHi, q - p - 1] + tail;
      SweepShape(q, threshold, m, p + 1);
      assert Passes(m, q, threshold, 2 * p + 1) && Passes(m, q, threshold, 2 * p + 2);
      ShapeCons(q, threshold, m, p, tail, rest);
    }
  }

  /** Two more outward buckets in front of a well-shaped rest of the sweep. */
  lemma {:induction false} ShapeCons(q: int, threshold: real, m: Measure, p: nat, tail: seq<int>, rest: seq<int>)
    requires rest == [q + p + 1, q - p - 1] + tail
    requires Passes(m, q, threshold, 2 * p + 1) && Passes(m, q, threshold, 2 * p + 2)
    requires Shaped(q, threshold, m, 2 * (p + 1) + 1, tail)
    ensures Shaped(q, threshold, m, 2 * p + 1, rest)
  {
    forall i | 0 <= i < |rest|
      ensures rest[i] == Outward(q, 2 * p + 1 + i) && Passes(m, q, threshold, 2 * p + 1 + i)
    {
      if i >= 2 {
        var k := i - 2;
        assert rest[i] == tail[k];
        assert 2 * (p + 1) + 1 + k == 2 * p + 1 + i;
      } else if i == 0 {
        assert (2 * p + 1) % 2 == 1 && (2 * p + 2) / 2 == p + 1;
      } else {
        assert (2 * p + 2) % 2 == 0 && (2 * p + 2) / 2 == p + 1;
      }
    }
    var stop := 2 * p + 1 + |rest|;
    assert stop == 2 * (p + 1) + 1 + |tail|;
    assert !Passes(m, q, threshold, stop);
  }

  /**
   * The ordering as written: the outward order from q, each bucket after
   * the first stored only once it passed its test, ending at the first test
   * that fails. So the low bucket q - d is visited only when
   * bound(q, q + d + 1), a high bucket's bound, meets the threshold; its own
   * bound is never looked at.
   */
  lemma {:induction false} OrderShape(q: int, threshold: real, m: Measure)
    requires OrderAsWritten(q, threshold, m).Ok?
    ensures var o := OrderAsWritten(q, threshold, m).value;
      && |o| >= 1
      && (forall j :: 0 <= j < |o| ==> o[j] == Outward(q, j))
      && (forall j :: 1 <= j < |o| ==> Passes(m, q, threshold, j))
      && !Passes(m, q, threshold, |o|)
  {
    SweepShape(q, threshold, m, 0);
    var o := OrderAsWritten(q, threshold, m).value;
    var rest := SweepAsWritten(q, threshold, m, 0).value;
    assert o == [q] + rest;
    forall j | 1 <= j < |o|
      ensures o[j] == Outward(q, j) && Passes(m, q, threshold, j)
    {
      var i := j - 1;
      assert o[j] == rest[i] && 1 + i == j;
    }
    assert o[0] == Outward(q, 0);
    assert 1 + |rest| == |o|;
  }

  /**
   * With a threshold no bound falls below (any threshold <= 0 for Tanimoto,
   * any threshold <= 1 for the constant bounds) the ordering loop never
   * breaks and runs off the end of its array.
   */
  lemma {:induction false} OrderOverflows(q: int, threshold: real, m: Measure)
    requires q >= 0 && (if m == Tanimoto then threshold <= 0.0 else threshold <= 1.0)
    ensures OrderAsWritten(q, threshold, m) == Err(ArrayIndexOutOfBounds)
  {
    SweepOverflows(q, threshold, m, 0);
  }

  lemma {:induction false} SweepOverflows(q: int, threshold: real, m: Measure, p: nat)
    requires q >= 0 && (if m == Tanimoto then threshold <= 0.0 else threshold <= 1.0)
    ensures SweepAsWritten(q, threshold, m, p) == Err(ArrayIndexOutOfBounds)
    decreases OrderCapacity - 2 * p
  {
    NeverBelow(q, threshold, m, q + p + 1);
    NeverBelow(q, threshold, m, q + p + 2);
    if 2 * p + 2 < OrderCapacity {
      SweepOverflows(q, threshold, m, p + 1);
    }
  }

  lemma NeverBelow(q: int, threshold: real, m: Measure, t: int)
    requires 0 <= q < t && (if m == Tanimoto then threshold <= 0.0 else threshold <= 1.0)
    ensures !Less(Bound(m, q, t), Num(threshold))
  {
    if m == Tanimoto {
      assert Bound(m, q, t) == Num(q as real / t as real);
    }
  }

  /**
   * A query of popcount 10 at threshold 0.85 (Tanimoto): findAll visits
   * buckets 10 and 11 only, although bucket 9's bound is 0.9 and a record
   * there can score 0.9.
   */
  lemma OrderSkipsLowBucket()
    ensures OrderAsWritten(10, 0.85, Tanimoto) == Ok([10, 11])
    ensures !Less(Bound(Tanimoto, 10, 9), Num(0.85))
    ensures Compute(Tanimoto, 1, 0, 9, 0) == Num(0.9)
  {
    assert Bound(Tanimoto, 10, 11) == Num(10.0 / 11.0);
    assert Bound(Tanimoto, 10, 12) == Num(10.0 / 12.0);
    assert SweepAsWritten(10, 0.85, Tanimoto, 0) == Ok([11]);
    assert [10] + [11] == [10, 11];
  }

  // ------------------------------------------------------------ the scan as written

  /** `xs.add(1)`, n times. */
  function Ones(n: nat): (xs: seq<int>)
    ensures |xs| == n && forall i :: 0 <= i < n ==> xs[i] == 1
  {
    seq(n, _ => 1)
  }

  /**
   * The hits among n records of bucket bin as the source reads them: the
   * buffer starts at word pos and each record takes the next |qw| words, so
   * that with fewer than 16 query words record r is read from word pos + r * |qw|.
   */
  function BucketHitsAsWritten(payload: seq<Word>, qw: seq<Word>, q: int, threshold: real, m: Measure,
                               bin: int, pos: int, n: int): nat
    requires |qw| <= Stride && 0 <= pos && 0 <= n && pos + 16 * n <= |payload|
    decreases n
  {
    if n == 0 then 0
    else
      var both := SharedBits(payload, qw, pos, |qw|);
      (if AtLeast(Score(m, q, bin, both), Num(threshold)) then 1 else 0) +
      BucketHitsAsWritten(payload, qw, q, threshold, m, bin, pos + |qw|, n - 1)
  }

  /**
   * The inner loop of findAll over one bucket: `while (binSize-- > 0)`,
   * appending 1 to xs for each hit.
   */
  method ScanBucketAsWritten(payload: seq<Word>, qw: seq<Word>, q: int, threshold: real, m: Measure,
                             bin: int, pos0: int, size: int, xs0: seq<int>) returns (xs: seq<int>)
    requires |qw| <= Stride && 0 <= pos0 && 0 <= size && pos0 + 16 * size <= |payload|
    ensures xs == xs0 + Ones(BucketHitsAsWritten(payload, qw, q, threshold, m, bin, pos0, size))
  {
    xs := xs0;
    var pos, binSize := pos0, size;
    ghost var hits: nat := 0;
    while binSize > 0
      invariant 0 <= binSize && 0 <= pos && pos + 16 * binSize <= |payload|
      invariant xs == xs0 + Ones(hits)
      invariant hits + BucketHitsAsWritten(payload, qw, q, threshold, m, bin, pos, binSize) ==
                BucketHitsAsWritten(payload, qw, q, threshold, m, bin, pos0, size)
    {
      var both := CountBoth(payload, qw, pos);
      var onlyA := q - both;
      var onlyB := bin - both;
      var neither := Length - (both + onlyA + onlyB);
      var sim := Compute(m, onlyA, onlyB, both, neither);
      var hit := AtLeast(sim, Num(threshold));
      BucketHitsStep(payload, qw, q, threshold, m, bin, pos, binSize, both, hit);
      if hit {
        OnesSnoc(xs0, hits);
        xs := xs + [1];
        hits := hits + 1;
      }
      pos := pos + |qw|;
      binSize := binSize - 1;
    }
  }

  lemma BucketHitsStep(payload: seq<Word>, qw: seq<Word>, q: int, threshold: real, m: Measure,
                       bin: int, pos: int, n: int, both: int, hit: bool)
    requires |qw| <= Stride && 0 <= pos && 0 < n && pos + 16 * n <= |payload|
    requires both == SharedBits(payload, qw, pos, |qw|)
    requires hit == AtLeast(Compute(m, q - both, bin - both, both, Length - (both + (q - both) + (bin - both))), Num(threshold))
    ensures BucketHitsAsWritten(payload, qw, q, threshold, m, bin, pos, n) ==
            (if hit then 1 else 0) +
            BucketHitsAsWritten(payload, qw, q, threshold, m, bin, pos + |qw|, n - 1)
  {
  }

  lemma OnesSnoc(xs0: seq<int>, n: nat)
    ensures xs0 + Ones(n) + [1] == xs0 + Ones(n + 1)
  {
    assert Ones(n) + [1] == Ones(n + 1);
  }

  /** Where the scan stands: hits so far, `nChecked`, and whether it has thrown. */
  datatype Scan = Scan(hits: nat, checked: int, failed: bool)

  /**
   * findAll's outer loop over the ordering as written: `nChecked` starts at
   * 0; buckets outside [0, counts.length) are skipped; any other bucket
   * reads counts[bin + 1], which throws for bin = counts.length - 1, and
   * otherwise adds its size to `nChecked` and its hits to the list.
   */
  function ScanAsWritten(counts: seq<int>, payload: seq<Word>, qw: seq<Word>, q: int, threshold: real, m: Measure,
                         order: seq<int>): Scan
    requires WellFormed(counts, payload) && |qw| <= Stride
  {
    if order == [] then Scan(0, 0, false)
    else
      var prev := ScanAsWritten(counts, payload, qw, q, threshold, m, order[..|order| - 1]);
      var bin := order[|order| - 1];
      if prev.failed || bin < 0 || bin >= |counts| then prev
      else if bin + 1 >= |counts| then Scan(prev.hits, prev.checked, true)
      else
        var size := counts[bin + 1] - counts[bin];
        Scan(prev.hits + BucketHitsAsWritten(payload, qw, q, threshold, m, bin, 16 * counts[bin], size),
             prev.checked + size, false)
  }

  lemma {:induction false} ScanPrefix(counts: seq<int>, payload: seq<Word>, qw: seq<Word>, q: int, threshold: real,
                                      m: Measure, order: seq<int>, i: int)
    requires WellFormed(counts, payload) && |qw| <= Stride && 0 <= i < |order|
    ensures var prev := ScanAsWritten(counts, payload, qw, q, threshold, m, order[..i]);
      var bin := order[i];
      ScanAsWritten(counts, payload, qw, q, threshold, m, order[..i + 1]) ==
        if prev.failed || bin < 0 || bin >= |counts| then prev
        else if bin + 1 >= |counts| then Scan(prev.hits, prev.checked, true)
        else
          var size := counts[bin + 1] - counts[bin];
          Scan(prev.hits + BucketHitsAsWritten(payload, qw, q, threshold, m, bin, 16 * counts[bin], size),
               prev.checked + size, false)
  {
    assert order[..i + 1][..i] == order[..i];
  }

  /** The scan over one more bucket of the ordering, with its hits counted as found. */
  lemma ScanStep(counts: seq<int>, payload: seq<Word>, qw: seq<Word>, q: int, threshold: real, m: Measure,
                 order: seq<int>, i: int, bin: int, size: int, hits: nat, checked: int, found: nat)
    requires WellFormed(counts, payload) && |qw| <= Stride && 0 <= i < |order|
    requires bin == order[i] && 0 <= bin && bin + 1 < |counts| && size == counts[bin + 1] - counts[bin]
    requires ScanAsWritten(counts, payload, qw, q, threshold, m, order[..i]) == Scan(hits, checked, false)
    requires found == BucketHitsAsWritten(payload, qw, q, threshold, m, bin, 16 * counts[bin], size)
    ensures ScanAsWritten(counts, payload, qw, q, threshold, m, order[..i + 1]) == Scan(hits + found, checked + size, false)
  {
    ScanPrefix(counts, payload, qw, q, threshold, m, order, i);
  }

  /** Once the scan has thrown, the rest of the ordering changes nothing. */
  lemma {:induction false} ScanFailureSticks(counts: seq<int>, payload: seq<Word>, qw: seq<Word>, q: int,
                                             threshold: real, m: Measure, order: seq<int>, i: int)
    requires WellFormed(counts, payload) && |qw| <= Stride && 0 <= i <= |order|
    requires ScanAsWritten(counts, payload, qw, q, threshold, m, order[..i]).failed
    ensures ScanAsWritten(counts, payload, qw, q, threshold, m, order) ==
            ScanAsWritten(counts, payload, qw, q, threshold, m, order[..i])
    decreases |order| - i
  {
    if i == |order| {
      assert order[..i] == order;
    } else {
      ScanPrefix(counts, payload, qw, q, threshold, m, order, i);
      ScanFailureSticks(counts, payload, qw, q, threshold, m, order, i + 1);
    }
  }

  /** The highest bucket the first n outward buckets reach, plus one. */
  function UpTo(q: int, n: int): int { q + n / 2 + 1 }

  /** The lowest bucket at or above 0 the first n outward buckets reach. */
  function DownTo(q: int, n: int): int { if q - (n - 1) / 2 < 0 then 0 else q - (n - 1) / 2 }

  /**
   * Along the outward order from q, the scan has not thrown only while it
   * stays below bucket 1024, and then `nChecked` counts exactly the records
   * of the buckets from max(q - (n-1)/2, 0) up to q + n/2.
   */
  lemma {:induction false} ScanInterval(counts: seq<int>, payload: seq<Word>, qw: seq<Word>, q: int,
                                        threshold: real, m: Measure, o: seq<int>)
    requires WellFormed(counts, payload) && |qw| <= Stride && 0 <= q <= Length
    requires forall j :: 0 <= j < |o| ==> o[j] == Outward(q, j)
    requires |o| >= 1
    ensures var s := ScanAsWritten(counts, payload, qw, q, threshold, m, o);
      !s.failed ==> UpTo(q, |o|) <= Length && s.checked == counts[UpTo(q, |o|)] - counts[DownTo(q, |o|)]
    decreases |o|
  {
    var n := |o| - 1;
    var prefix := o[..n];
    ScanPrefix(counts, payload, qw, q, threshold, m, o, n);
    assert o[..n + 1] == o;
    if n == 0 {
      assert prefix == [];
    } else {
      OutwardNext(q, n);
      ScanInterval(counts, payload, qw, q, threshold, m, prefix);
    }
  }

  /** Bucket n of the outward order widens the interval by one at the top (n odd) or at the bottom (n even). */
  lemma OutwardNext(q: int, n: int)
    requires n >= 1
    ensures n % 2 == 1 ==> Outward(q, n) == UpTo(q, n) && UpTo(q, n + 1) == UpTo(q, n) + 1 && DownTo(q, n + 1) == DownTo(q, n)
    ensures n % 2 == 0 ==>
      (Outward(q, n) == q - n / 2 && UpTo(q, n + 1) == UpTo(q, n) &&
       DownTo(q, n + 1) == (if Outward(q, n) < 0 then DownTo(q, n) else Outward(q, n)))
  {
  }

  /** Along the outward order `nChecked` never exceeds the number of records. */
  lemma {:induction false} ScanCheckedBound(counts: seq<int>, payload: seq<Word>, qw: seq<Word>, q: int,
                                            threshold: real, m: Measure, o: seq<int>)
    requires WellFormed(counts, payload) && |qw| <= Stride && 0 <= q <= Length
    requires forall j :: 0 <= j < |o| ==> o[j] == Outward(q, j)
    requires !ScanAsWritten(counts, payload, qw, q, threshold, m, o).failed
    ensures 0 <= ScanAsWritten(counts, payload, qw, q, threshold, m, o).checked <= counts[Length]
  {
    if |o| >= 1 {
      ScanInterval(counts, payload, qw, q, threshold, m, o);
    }
  }

  /** Over any prefix of the ordering as written, `nChecked` stays within the number of records. */
  lemma OrderCheckedBound(counts: seq<int>, payload: seq<Word>, qw: seq<Word>, q: int, threshold: real, m: Measure,
                          order: seq<int>, n: int)
    requires WellFormed(counts, payload) && |qw| <= Stride && 0 <= q <= Length
    requires OrderAsWritten(q, threshold, m) == Ok(order) && 0 <= n <= |order|
    requires !ScanAsWritten(counts, payload, qw, q, threshold, m, order[..n]).failed
    ensures 0 <= ScanAsWritten(counts, payload, qw, q, threshold, m, order[..n]).checked <= counts[Length]
  {
    OrderShape(q, threshold, m);
    ScanCheckedBound(counts, payload, qw, q, threshold, m, order[..n]);
  }

  /** findAll as written: the ordering, then the scan; either can throw. */
  function FindAllAsWrittenResult(counts: seq<int>, payload: seq<Word>, query: seq<Word>, threshold: real,
                                  m: Measure): Result<seq<int>, Exception>
    requires WellFormed(counts, payload) && |query| == Stride
  {
    match OrderAsWritten(Popcount(query), threshold, m)
    case Err(e) => Err(e)
    case Ok(o) =>
      var s := ScanAsWritten(counts, payload, LongArray(query), Popcount(query), threshold, m, o);
      if s.failed then Err(ArrayIndexOutOfBounds) else Ok(Ones(s.hits))
  }

  /**
   * A Tanimoto query whose popcount q has bound(q, 1024) at or above the
   * threshold (q >= 1024 * threshold) makes findAll throw, whatever the
   * index holds: the ordering reaches bucket 1024 and reading
   * counts[1025] fails.
   */
  lemma {:induction false} FindAllFailsNearFull(counts: seq<int>, payload: seq<Word>, query: seq<Word>, threshold: real)
    requires WellFormed(counts, payload) && |query| == Stride
    requires 1 <= Popcount(query) && !Less(Bound(Tanimoto, Popcount(query), Length), Num(threshold))
    ensures FindAllAsWrittenResult(counts, payload, query, threshold, Tanimoto) == Err(ArrayIndexOutOfBounds)
  {
    var q := Popcount(query);
    PopcountPositions(query);
    var order := OrderAsWritten(q, threshold, Tanimoto);
    if order.Ok? {
      var o := order.value;
      OrderShape(q, threshold, Tanimoto);
      var stop := UpTo(q, |o|);
      if stop <= Length {
        if stop < Length {
          BelowBoundAway(Tanimoto, q, stop, Length, threshold);
        }
        assert false;
      }
      var qw := LongArray(query);
      ScanInterval(counts, payload, qw, q, threshold, Tanimoto, o);
    } else {
      OrderIsOverflow(q, threshold, Tanimoto);
    }
  }

  /** The only way the ordering fails is by overflowing its array. */
  lemma {:induction false} OrderIsOverflow(q: int, threshold: real, m: Measure)
    requires OrderAsWritten(q, threshold, m).Err?
    ensures OrderAsWritten(q, threshold, m) == Err(ArrayIndexOutOfBounds)
  {
    SweepIsOverflow(q, threshold, m, 0);
  }

  lemma {:induction false} SweepIsOverflow(q: int, threshold: real, m: Measure, p: nat)
    requires SweepAsWritten(q, threshold, m, p).Err?
    ensures SweepAsWritten(q, threshold, m, p) == Err(ArrayIndexOutOfBounds)
    decreases OrderCapacity - 2 * p
  {
    var jHi := q + p + 1;
    if !Less(Bound(m, q, jHi), Num(threshold)) && 2 * p + 1 < OrderCapacity &&
       !Less(Bound(m, q, jHi + 1), Num(threshold)) && 2 * p + 2 < OrderCapacity {
      SweepIsOverflow(q, threshold, m, p + 1);
    }
  }

  /**
   * Two records of bucket 1 and the one-word query 1: the second record
   * equals the query and scores 1.0, but the as-written scan reads it from
   * word 1, the first record's second word, and counts no hit at all.
   */
  lemma MisalignedReadMissesHit(payload: seq<Word>, query: seq<Word>)
    requires query == [1] + seq(15, _ => 0)
    requires payload == [2] + seq(15, _ => 0) + query
    ensures LongArray(query) == [1]
    ensures Record(payload, 1) == query && IsHit(Tanimoto, query, query, 0.5)
    ensures BucketHitsAsWritten(payload, [1], 1, 0.5, Tanimoto, 1, 0, 2) == 0
  {
    LongArrayZeros(query, 1);
    assert query[..1] == [1];
    assert payload[16..32] == query;
    PopcountOneWord(query);
    AndSelfWords(query);
    assert BitCount(0) == 0 && BitCount(1) == 1;
    assert RecordScore(Tanimoto, query, query) == Num(1.0);
    assert payload[0] == 2 && payload[1] == 0;
    assert And(0, 1) == 0 && And(1, 2) == 0 && And(1, 0) == 0;
    assert WordAnd(1, payload[0]) == 0 && WordAnd(1, payload[1]) == 0;
    assert SharedBits(payload, [1], 0, 1) == 0;
    assert SharedBits(payload, [1], 1, 0) == 0;
    assert SharedBits(payload, [1], 1, 1) == 0;
    assert Score(Tanimoto, 1, 1, 0) == Num(0.0);
    assert BucketHitsAsWritten(payload, [1], 1, 0.5, Tanimoto, 1, 1, 1) == 0;
  }

  lemma {:induction false} LongArrayZeros(ws: seq<Word>, k: int)
    requires 1 <= k <= |ws| && ws[k - 1] != 0 && forall i :: k <= i < |ws| ==> ws[i] == 0
    ensures LongArray(ws) == ws[..k]
    decreases |ws|
  {
    if |ws| > k {
      LongArrayZeros(ws[..|ws| - 1], k);
      assert ws[..|ws| - 1][..k] == ws[..k];
    } else {
      assert ws[..k] == ws;
    }
  }

  lemma {:induction false} PopcountOneWord(ws: seq<Word>)
    requires |ws| >= 1 && forall i :: 1 <= i < |ws| ==> ws[i] == 0
    ensures Popcount(ws) == BitCount(ws[0])
    decreases |ws|
  {
    if |ws| > 1 {
      PopcountOneWord(ws[..|ws| - 1]);
    } else {
      assert ws[..0] == [];
    }
  }

  lemma AndSelfWords(ws: seq<Word>)
    ensures AndWords(ws, ws) == ws
  {
    forall k | 0 <= k < |ws| ensures WordAnd(ws[k], ws[k]) == ws[k] { AndSelf(ws[k]); }
  }

  // ------------------------------------------------------------ the corrected scan

  /** The first bucket at or above j whose bound falls below the threshold, or 1024. */
  function ReachHi(q: int, threshold: real, m: Measure, j: int): (h: int)
    ensures h >= j
    decreases Length - j
  {
    if j < Length && !Less(Bound(m, q, j), Num(threshold)) then ReachHi(q, threshold, m, j + 1) else j
  }

  /** The first bucket at or below j whose bound falls below the threshold, or -1. */
  function ReachLo(q: int, threshold: real, m: Measure, j: int): (l: int)
    ensures l <= j && (j >= -1 ==> l >= -1)
    decreases j + 1
  {
    if j >= 0 && !Less(Bound(m, q, j), Num(threshold)) then ReachLo(q, threshold, m, j - 1) else j
  }

  /** Buckets from j up to ReachHi all meet the threshold; ReachHi itself does not, or is 1024 or beyond. */
  lemma {:induction false} ReachHiStops(q: int, threshold: real, m: Measure, j: int)
    ensures var h := ReachHi(q, threshold, m, j);
      (h < Length ==> Less(Bound(m, q, h), Num(threshold))) &&
      forall b :: j <= b < h ==> !Less(Bound(m, q, b), Num(threshold))
    decreases Length - j
  {
    if j < Length && !Less(Bound(m, q, j), Num(threshold)) {
      ReachHiStops(q, threshold, m, j + 1);
    }
  }

  lemma {:induction false} ReachLoStops(q: int, threshold: real, m: Measure, j: int)
    ensures var l := ReachLo(q, threshold, m, j);
      (l >= 0 ==> Less(Bound(m, q, l), Num(threshold))) &&
      forall b :: l < b <= j ==> !Less(Bound(m, q, b), Num(threshold))
    decreases j + 1
  {
    if j >= 0 && !Less(Bound(m, q, j), Num(threshold)) {
      ReachLoStops(q, threshold, m, j - 1);
    }
  }

  /**
   * One bucket of the corrected scan: each record st of bin read from its
   * own 16 words at 16 * st, with its slot appended on a hit.
   */
  method ScanBucket(payload: seq<Word>, query: seq<Word>, q: int, threshold: real, m: Measure,
                    bin: int, lo: int, hi: int) returns (found: seq<int>)
    requires |query| == Stride && q == Popcount(query) && 0 <= lo <= hi && 16 * hi <= |payload|
    requires forall s :: lo <= s < hi ==> Popcount(Record(payload, s)) == bin
    ensures forall s :: s in found <==> lo <= s < hi && IsHit(m, query, Record(payload, s), threshold)
  {
    found := [];
    var st := lo;
    while st < hi
      invariant lo <= st <= hi
      invariant forall s :: s in found <==> lo <= s < st && IsHit(m, query, Record(payload, s), threshold)
    {
      var both := CountBoth(payload, query, 16 * st);
      SharedBitsPopcount(payload, query, 16 * st, |query|);
      assert query[..|query|] == query;
      assert payload[16 * st .. 16 * st + |query|] == Record(payload, st);
      var onlyA := q - both;
      var onlyB := bin - both;
      var neither := Length - (both + onlyA + onlyB);
      var sim := Compute(m, onlyA, onlyB, both, neither);
      assert sim == RecordScore(m, query, Record(payload, st));
      if AtLeast(sim, Num(threshold)) {
        found := found + [st];
      }
      st := st + 1;
    }
  }

  /** The bucket of record s: the b with counts[b] <= s < counts[b + 1]. */
  lemma {:induction false} BucketOf(counts: seq<int>, payload: seq<Word>, s: int, b0: int) returns (b: int)
    requires WellFormed(counts, payload) && 0 <= b0 < Length && counts[b0] <= s < counts[Length]
    ensures b0 <= b < Length && counts[b] <= s < counts[b + 1] && Popcount(Record(payload, s)) == b
    decreases Length - b0
  {
    if s < counts[b0 + 1] {
      b := b0;
    } else {
      b := BucketOf(counts, payload, s, b0 + 1);
    }
  }

  /**
   * No record outside buckets lo+1 .. hi-1 is a hit when lo < q <= hi, the
   * bound of bucket lo is below the threshold (when lo >= 0), and so is that
   * of bucket hi (when hi < 1024, and then q < hi).
   */
  lemma {:induction false} NoHitOutside(counts: seq<int>, payload: seq<Word>, query: seq<Word>, threshold: real,
                                        m: Measure, lo: int, hi: int, s: int)
    requires WellFormed(counts, payload) && |query| == Stride
    requires -1 <= lo < Popcount(query) <= hi <= Length
    requires lo >= 0 ==> Less(Bound(m, Popcount(query), lo), Num(threshold))
    requires hi < Length ==> Popcount(query) < hi && Less(Bound(m, Popcount(query), hi), Num(threshold))
    requires 0 <= s < counts[Length] && (s < counts[lo + 1] || s >= counts[hi])
    ensures !IsHit(m, query, Record(payload, s), threshold)
  {
    var q := Popcount(query);
    var b := BucketOf(counts, payload, s, 0);
    if b < lo {
      BelowBoundAway(m, q, lo, b, threshold);
    } else if b > hi {
      BelowBoundAway(m, q, hi, b, threshold);
    } else if lo < b < hi {
      assert false;
    }
    BelowBoundNoHit(m, query, Record(payload, s), threshold);
  }

  /** Bucket records lie inside the payload. */
  lemma BucketInside(counts: seq<int>, payload: seq<Word>, b: int)
    requires WellFormed(counts, payload) && 0 <= b < Length
    ensures 0 <= counts[b] <= counts[b + 1] <= counts[Length] && 16 * counts[b + 1] <= |payload|
  {
  }

  /** A fingerprint of n words has at most 64n bits set. */
  lemma {:induction false} PopcountAtMost(ws: seq<Word>)
    ensures Popcount(ws) <= 64 * |ws|
  {
    if ws != [] {
      PopcountAtMost(ws[..|ws| - 1]);
      WordBitCount(ws[|ws| - 1]);
    }
  }

  /**
   * The upward half of the corrected scan: bucket q, then buckets q+1,
   * q+2, ... while their bound meets the threshold, stopping at bucket
   * 1024. It stops at bucket j and finds exactly the hits among the records
   * of buckets q .. j-1.
   */
  method SweepUp(counts: seq<int>, payload: seq<Word>, query: seq<Word>, threshold: real, m: Measure)
    returns (found: seq<int>, j: int)
    requires WellFormed(counts, payload) && |query| == Stride
    ensures var q := Popcount(query);
      && q <= j <= Length && j == Min(ReachHi(q, threshold, m, q + 1), Length)
      && (j < Length ==> q < j && Less(Bound(m, q, j), Num(threshold)))
      && forall s :: s in found <==> counts[q] <= s < counts[j] && IsHit(m, query, Record(payload, s), threshold)
  {
    var q := Popcount(query);
    PopcountAtMost(query);
    found := [];
    j := q;
    while j < Length && (j == q || !Less(Bound(m, q, j), Num(threshold)))
      invariant q <= j <= Length
      invariant j > q ==> ReachHi(q, threshold, m, q + 1) == ReachHi(q, threshold, m, j)
      invariant forall s :: s in found <==> counts[q] <= s < counts[j] && IsHit(m, query, Record(payload, s), threshold)
    {
      BucketInside(counts, payload, j);
      var more := ScanBucket(payload, query, q, threshold, m, j, counts[j], counts[j + 1]);
      found := found + more;
      j := j + 1;
    }
  }

  /**
   * The downward half of the corrected scan: buckets q-1, q-2, ... while
   * their bound meets the threshold, stopping below bucket 0. It stops at
   * bucket l and finds exactly the hits among the records of buckets
   * l+1 .. q-1.
   */
  method SweepDown(counts: seq<int>, payload: seq<Word>, query: seq<Word>, threshold: real, m: Measure)
    returns (found: seq<int>, l: int)
    requires WellFormed(counts, payload) && |query| == Stride
    ensures var q := Popcount(query);
      && -1 <= l < q <= Length && l == ReachLo(q, threshold, m, q - 1)
      && (l >= 0 ==> Less(Bound(m, q, l), Num(threshold)))
      && forall s :: s in found <==> counts[l + 1] <= s < counts[q] && IsHit(m, query, Record(payload, s), threshold)
  {
    var q: int := Popcount(query);
    PopcountAtMost(query);
    found := [];
    l := q - 1;
    while l >= 0 && !Less(Bound(m, q, l), Num(threshold))
      invariant -1 <= l < q
      invariant ReachLo(q, threshold, m, q - 1) == ReachLo(q, threshold, m, l)
      invariant forall s :: s in found <==> counts[l + 1] <= s < counts[q] && IsHit(m, query, Record(payload, s), threshold)
    {
      BucketInside(counts, payload, l);
      var more := ScanBucket(payload, query, q, threshold, m, l, counts[l], counts[l + 1]);
      found := found + more;
      l := l - 1;
    }
  }

  /** `xs.add(1)` a times, then b times. */
  lemma OnesAppend(a: nat, b: nat)
    ensures Ones(a) + Ones(b) == Ones(a + b)
  {
  }
}
