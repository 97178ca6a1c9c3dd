// `SimilarityIndex`: the index file of 1024-bit fingerprints written by
// `FpsToIdx`, searched bucket by bucket. counts[b] is the first record of the
// fingerprints with popcount b, counts[1024] the number of records; the
// payload holds the records back to back, 16 words each, in bucket order.

module SimilarityIndexes {
  import opened Wrappers
  import opened Words
  import opened Similarity
  import opened BinaryFingerprints
  import opened MinBinaryHeaps
  import opened IndexLayouts
  import opened FindAlls

  // ------------------------------------------------------------ top: scores

  /** `fp.similarity(query, Tanimoto)` for the record fp. */
  function TopScore(rec: seq<Word>, query: seq<Word>): Double
    requires |rec| == |query|
  {
    var t := Tallies(rec, query, Length);
    Compute(Tanimoto, t.onlyA, t.onlyB, t.both, t.neither)
  }

  /**
   * Against a non-empty query a record's Tanimoto score is a number in [0, 1]
   * no larger than any measure's bound for the two popcounts.
   */
  lemma {:induction false} TopScoreBounded(rec: seq<Word>, query: seq<Word>, m: Measure)
    requires |rec| == |query| == Stride && Popcount(query) >= 1
    ensures var s := TopScore(rec, query);
      var u := Bound(m, Popcount(query), Popcount(rec));
      s.Num? && u.Num? && 0.0 <= s.r <= 1.0 && s.r <= u.r
  {
    var t := Tallies(rec, query, Length);
    var a, b := Popcount(rec), Popcount(query);
    PopcountUnion(rec, query);
    var onlyA, onlyB, both: nat := t.onlyA, t.onlyB, t.both;
    TanimotoRange(onlyA, onlyB, both, t.neither);
    if m == Tanimoto {
      TanimotoBoundSound(onlyA, onlyB, both, t.neither);
      TanimotoBoundShape(a, b);
    }
  }

  function Value(d: Double): real
  {
    if d.Num? then d.r else 0.0
  }

  /**
   * all[s] is the pair top offers the heap for record s of the payload: the
   * key s with the record's Tanimoto score against the query.
   */
  ghost predicate Scored(all: seq<Entry>, payload: seq<Word>, query: seq<Word>)
  {
    |payload| == 16 * |all| && |query| == Stride &&
    forall s {:trigger TopScore(Record(payload, s), query)} :: 0 <= s < |all| ==>
      all[s] == (s, Value(TopScore(Record(payload, s), query)))
  }

  /** The pairs top can offer for the n records of the payload. */
  function Candidates(payload: seq<Word>, query: seq<Word>, n: nat): (all: seq<Entry>)
    requires |payload| == 16 * n && |query| == Stride
    ensures |all| == n && Scored(all, payload, query)
  {
    seq(n, s requires 0 <= s < n => (s, Value(TopScore(Record(payload, s), query))))
  }

  /** The pairs of records lo .. hi-1. */
  function RecordPairs(all: seq<Entry>, lo: int, hi: int): multiset<Entry>
    requires 0 <= lo <= hi <= |all|
    decreases hi - lo
  {
    if lo == hi then multiset{} else RecordPairs(all, lo, hi - 1) + multiset{all[hi - 1]}
  }

  /** The pairs of records lo .. hi-1 are those records, each with its own score. */
  lemma {:induction false} RecordPairsExactly(all: seq<Entry>, payload: seq<Word>, query: seq<Word>, lo: int, hi: int)
    requires Scored(all, payload, query) && 0 <= lo <= hi <= |all|
    ensures forall p :: p in RecordPairs(all, lo, hi) <==>
      lo <= p.0 < hi && p.1 == Value(TopScore(Record(payload, p.0), query))
    decreases hi - lo
  {
    if lo < hi {
      var h := hi - 1;
      RecordPairsExactly(all, payload, query, lo, h);
      assert all[h] == (h, Value(TopScore(Record(payload, h), query)));
    }
  }

  /** Offering record st after records lo .. st-1. */
  lemma {:induction false} RecordPairsStep(offered: multiset<Entry>, acc: multiset<Entry>, all: seq<Entry>, lo: int, st: int)
    requires 0 <= lo <= st < |all| && acc == offered + RecordPairs(all, lo, st)
    ensures acc + multiset{all[st]} == offered + RecordPairs(all, lo, st + 1)
  {
  }

  /** Records a .. c-1 are records a .. b-1 followed by records b .. c-1. */
  lemma {:induction false} RecordPairsSplit(all: seq<Entry>, a: int, b: int, c: int)
    requires 0 <= a <= b <= c <= |all|
    ensures RecordPairs(all, a, c) == RecordPairs(all, a, b) + RecordPairs(all, b, c)
    decreases c - b
  {
    if b < c {
      RecordPairsSplit(all, a, b, c - 1);
    }
  }

  /** The pairs of bucket b's records; none for a bucket outside 0 .. 1023. */
  function BucketOffers(all: seq<Entry>, counts: seq<int>, b: int): multiset<Entry>
  {
    if 0 <= b < |counts| - 1 && 0 <= counts[b] <= counts[b + 1] <= |all|
    then RecordPairs(all, counts[b], counts[b + 1]) else multiset{}
  }

  /** The pairs of the buckets bs, bucket after bucket. */
  function Visited(all: seq<Entry>, counts: seq<int>, bs: seq<int>): multiset<Entry>
  {
    if bs == [] then multiset{}
    else Visited(all, counts, bs[..|bs| - 1]) + BucketOffers(all, counts, bs[|bs| - 1])
  }

  lemma {:induction false} VisitedSnoc(all: seq<Entry>, counts: seq<int>, bs: seq<int>, b: int)
    ensures Visited(all, counts, bs + [b]) == Visited(all, counts, bs) + BucketOffers(all, counts, b)
  {
    assert (bs + [b])[..|bs|] == bs;
  }

  /** The buckets at positions 0 .. i of an ordering. */
  lemma {:induction false} VisitedPrefix(all: seq<Entry>, counts: seq<int>, order: seq<int>, i: int)
    requires 0 <= i < |order|
    ensures Visited(all, counts, order[..i + 1]) == Visited(all, counts, order[..i]) + BucketOffers(all, counts, order[i])
  {
    assert order[..i + 1] == order[..i] + [order[i]];
    VisitedSnoc(all, counts, order[..i], order[i]);
  }

  lemma {:induction false} VisitedAppend(all: seq<Entry>, counts: seq<int>, a: seq<int>, b: seq<int>)
    ensures Visited(all, counts, a + b) == Visited(all, counts, a) + Visited(all, counts, b)
    decreases |b|
  {
    if b != [] {
      var m := |b| - 1;
      assert a + b == (a + b[..m]) + [b[m]];
      assert b == b[..m] + [b[m]];
      VisitedSnoc(all, counts, a + b[..m], b[m]);
      VisitedSnoc(all, counts, b[..m], b[m]);
      VisitedAppend(all, counts, a, b[..m]);
    } else {
      assert a + b == a;
    }
  }

  lemma {:induction false} Cancel<T>(u: multiset<T>, v: multiset<T>, x: T)
    requires u + multiset{x} == v + multiset{x}
    ensures u == v
  {
    forall y
      ensures u[y] == v[y]
    {
      assert (u + multiset{x})[y] == (v + multiset{x})[y];
    }
  }

  /** What the buckets hold does not depend on the order they are visited in. */
  lemma {:induction false} VisitedPerm(all: seq<Entry>, counts: seq<int>, a: seq<int>, b: seq<int>)
    requires multiset(a) == multiset(b)
    ensures Visited(all, counts, a) == Visited(all, counts, b)
    decreases |a|
  {
    if a != [] {
      var m := |a| - 1;
      var x := a[m];
      assert a == a[..m] + [x];
      assert x in multiset(b);
      var j :| 0 <= j < |b| && b[j] == x;
      var rest := b[..j] + b[j + 1..];
      assert b == (b[..j] + [x]) + b[j + 1..];
      assert multiset(b) == multiset(b[..j] + [x]) + multiset(b[j + 1..]);
      assert multiset(b[..j] + [x]) == multiset(b[..j]) + multiset{x};
      assert multiset(rest) == multiset(b[..j]) + multiset(b[j + 1..]);
      assert multiset(a) == multiset(a[..m]) + multiset{x};
      Cancel(multiset(a[..m]), multiset(rest), x);
      VisitedPerm(all, counts, a[..m], rest);
      VisitedAppend(all, counts, b[..j] + [x], b[j + 1..]);
      VisitedSnoc(all, counts, b[..j], x);
      VisitedAppend(all, counts, b[..j], b[j + 1..]);
    } else {
      assert |b| == |multiset(b)| == 0;
    }
  }

  /** Bucket h, next after buckets lo .. h-1. */
  lemma {:induction false} VisitedRangeSnoc(all: seq<Entry>, counts: seq<int>, lo: int, h: int, hi: int)
    requires 0 <= lo <= h && hi == h + 1
    requires h < |counts| - 1 && 0 <= counts[h] <= counts[hi] <= |all|
    ensures Visited(all, counts, Range(lo, hi)) == Visited(all, counts, Range(lo, h)) + RecordPairs(all, counts[h], counts[hi])
  {
    RangeSnoc(lo, h, hi);
    VisitedSnoc(all, counts, Range(lo, h), h);
  }

  /** Buckets lo .. hi-1 together hold the records counts[lo] .. counts[hi]-1. */
  lemma {:induction false} VisitedRange(all: seq<Entry>, counts: seq<int>, lo: int, hi: int)
    requires 0 <= lo <= hi < |counts|
    requires forall i, j :: 0 <= i <= j < |counts| ==> counts[i] <= counts[j]
    requires 0 <= counts[0] && counts[|counts| - 1] <= |all|
    ensures Visited(all, counts, Range(lo, hi)) == RecordPairs(all, counts[lo], counts[hi])
    decreases hi - lo
  {
    if lo < hi {
      var h := hi - 1;
      assert 0 <= counts[0] <= counts[lo] <= counts[h] <= counts[hi] <= counts[|counts| - 1] <= |all|;
      VisitedRangeSnoc(all, counts, lo, h, hi);
      VisitedRange(all, counts, lo, h);
      RecordPairsSplit(all, counts[lo], counts[h], counts[hi]);
    }
  }

  /** No record of bucket b scores above the bound for b. */
  lemma {:induction false} BucketBelowBound(counts: seq<int>, payload: seq<Word>, query: seq<Word>, all: seq<Entry>,
                                            m: Measure, b: int)
    requires WellFormed(counts, payload) && Scored(all, payload, query)
    requires Popcount(query) >= 1 && 0 <= b < Length
    ensures Bound(m, Popcount(query), b).Num?
    ensures forall p :: p in BucketOffers(all, counts, b) ==> p.1 <= Bound(m, Popcount(query), b).r
  {
    var c := Bound(m, Popcount(query), b);
    if counts[b] < counts[b + 1] {
      TopScoreBounded(Record(payload, counts[b]), query, m);
    } else {
      TanimotoBoundShape(Popcount(query), b);
    }
    RecordPairsExactly(all, payload, query, counts[b], counts[b + 1]);
    forall p | p in BucketOffers(all, counts, b)
      ensures p.1 <= c.r
    {
      TopScoreBounded(Record(payload, p.0), query, m);
    }
  }

  // ------------------------------------------------------------ top: ordering

  /** The source's exit test `jLo == 0 && jHi == max`. */
  predicate TopExitAsWritten(jHi: int, jLo: int, max: int)
  {
    jLo == 0 && jHi == max
  }

  /** The exit test that ends the loop once both sides have run out. */
  predicate TopExit(jHi: int, jLo: int, max: int)
  {
    jLo <= 0 && jHi >= max
  }

  /** One pass of top's ordering loop on (jHi, jLo). */
  function TopPass(jHi: int, jLo: int, max: int): (int, int)
  {
    (if jHi < max then jHi + 1 else jHi, if jLo > 0 then jLo - 1 else jLo)
  }

  /** The buckets one pass appends: jHi while below max, then jLo while above 0. */
  function TopEmit(jHi: int, jLo: int, max: int): seq<int>
  {
    HiEmit(jHi, max) + LoEmit(jLo)
  }

  function HiEmit(jHi: int, max: int): seq<int>
  {
    if jHi < max then [jHi] else []
  }

  function LoEmit(jLo: int): seq<int>
  {
    if jLo > 0 then [jLo] else []
  }

  /** The buckets the loop appends from (jHi, jLo) on, stopping at `TopExit`. */
  function TopSweep(jHi: int, jLo: int, max: int): seq<int>
    decreases (if jHi < max then max - jHi else 0) + (if jLo > 0 then jLo else 0)
  {
    var next := TopPass(jHi, jLo, max);
    TopEmit(jHi, jLo, max) + (if TopExit(next.0, next.1, max) then [] else TopSweep(next.0, next.1, max))
  }

  /** The state of the source's loop after t passes from query popcount q. */
  function TopPasses(q: int, max: int, t: nat): (int, int)
  {
    if t == 0 then (q + 1, q - 1)
    else var prev := TopPasses(q, max, t - 1); TopPass(prev.0, prev.1, max)
  }

  /**
   * With an empty query (q = 0) or one at least as full as max the source's
   * loop never exits: jLo stays at -1, or jHi stays above max.
   */
  lemma {:induction false} TopLoopDiverges(q: int, max: int, t: nat)
    requires q <= 0 || q >= max
    ensures q <= 0 ==> TopPasses(q, max, t).1 == q - 1
    ensures q >= max ==> TopPasses(q, max, t).0 == q + 1
    ensures !TopExitAsWritten(TopPasses(q, max, t).0, TopPasses(q, max, t).1, max)
  {
    if t > 0 {
      TopLoopDiverges(q, max, t - 1);
    }
  }

  /** For 1 <= q < max the loop stays inside [0, max], where both exit tests agree. */
  lemma {:induction false} TopLoopExits(q: int, max: int, t: nat)
    requires 1 <= q < max
    ensures 0 <= TopPasses(q, max, t).1 && TopPasses(q, max, t).0 <= max
    ensures TopExitAsWritten(TopPasses(q, max, t).0, TopPasses(q, max, t).1, max) <==>
      TopExit(TopPasses(q, max, t).0, TopPasses(q, max, t).1, max)
  {
    if t > 0 {
      TopLoopExits(q, max, t - 1);
    }
  }

  /** The sweep visits jHi .. max-1 and 1 .. jLo, each once. */
  lemma {:induction false} HiRange(jHi: int, jLo: int, max: int)
    ensures multiset(Range(jHi, max)) == multiset(HiEmit(jHi, max)) + multiset(Range(TopPass(jHi, jLo, max).0, max))
  {
  }

  lemma {:induction false} LoRange(jHi: int, jLo: int, max: int)
    ensures multiset(Range(1, jLo + 1)) == multiset(Range(1, TopPass(jHi, jLo, max).1 + 1)) + multiset(LoEmit(jLo))
  {
    if jLo > 0 {
      RangeSnoc(1, jLo, jLo + 1);
    }
  }

  lemma {:induction false} TopSweepContents(jHi: int, jLo: int, max: int)
    ensures multiset(TopSweep(jHi, jLo, max)) == multiset(Range(jHi, max)) + multiset(Range(1, jLo + 1))
    decreases (if jHi < max then max - jHi else 0) + (if jLo > 0 then jLo else 0)
  {
    var next := TopPass(jHi, jLo, max);
    var rest := if TopExit(next.0, next.1, max) then [] else TopSweep(next.0, next.1, max);
    assert multiset(rest) == multiset(Range(next.0, max)) + multiset(Range(1, next.1 + 1)) by {
      if !TopExit(next.0, next.1, max) {
        TopSweepContents(next.0, next.1, max);
      }
    }
    var h, l := HiEmit(jHi, max), LoEmit(jLo);
    assert TopSweep(jHi, jLo, max) == h + l + rest;
    HiRange(jHi, jLo, max);
    LoRange(jHi, jLo, max);
    Regroup(TopSweep(jHi, jLo, max), h, l, rest, Range(jHi, max), Range(1, jLo + 1),
            multiset(Range(next.0, max)), multiset(Range(1, next.1 + 1)));
  }

  /** The multiset algebra of one pass of top's sweep. */
  lemma {:induction false} Regroup(sweep: seq<int>, h: seq<int>, l: seq<int>, rest: seq<int>, his: seq<int>, los: seq<int>,
                                   hisRest: multiset<int>, losRest: multiset<int>)
    requires sweep == h + l + rest && multiset(rest) == hisRest + losRest
    requires multiset(his) == multiset(h) + hisRest && multiset(los) == losRest + multiset(l)
    ensures multiset(sweep) == multiset(his) + multiset(los)
  {
    assert multiset(sweep) == multiset(h) + multiset(l) + multiset(rest);
  }

  /** Starting from q, top's ordering is a permutation of the buckets 1 .. max-1. */
  lemma {:induction false} TopOrderCovers(q: int, max: int)
    requires 1 <= q < max
    ensures multiset([q] + TopSweep(q + 1, q - 1, max)) == multiset(Range(1, max))
  {
    TopSweepContents(q + 1, q - 1, max);
    RangeSplit(1, q, max);
    assert Range(q, max) == [q] + Range(q + 1, max);
  }

  /** A permutation of lo .. hi-1 holds only values in that range. */
  lemma {:induction false} InRange(o: seq<int>, lo: int, hi: int)
    requires multiset(o) == multiset(Range(lo, hi))
    ensures forall i :: 0 <= i < |o| ==> lo <= o[i] < hi
  {
    forall i | 0 <= i < |o|
      ensures lo <= o[i] < hi
    {
      assert o[i] in multiset(o);
      assert o[i] in Range(lo, hi);
      RangeMember(lo, hi, o[i]);
    }
  }

  /**
   * `top`'s ordering loop with the exit test `TopExit`: the query's bucket
   * first, then alternately the next bucket above and below.
   */
  method TopOrdering(q: int, max: int) returns (ordering: seq<int>)
    requires 0 <= q <= max
    ensures ordering == [q] + TopSweep(q + 1, q - 1, max)
    ensures |ordering| <= max + 2
  {
    ordering := [q];
    var jHi, jLo := q + 1, q - 1;
    var done := false;
    while !done
      invariant q + 1 <= jHi <= (if q + 1 < max then max else q + 1)
      invariant (if q - 1 > 0 then 0 else q - 1) <= jLo <= q - 1
      invariant |ordering| == 1 + (jHi - q - 1) + (q - 1 - jLo)
      invariant ordering + (if done then [] else TopSweep(jHi, jLo, max)) == [q] + TopSweep(q + 1, q - 1, max)
      decreases (if jHi < max then max - jHi else 0) + (if jLo > 0 then jLo else 0), if done then 0 else 1
    {
      ghost var start, h0, l0 := ordering, jHi, jLo;
      if jHi < max {
        ordering := ordering + [jHi];
        jHi := jHi + 1;
      }
      if jLo > 0 {
        ordering := ordering + [jLo];
        jLo := jLo - 1;
      }
      assert ordering == start + TopEmit(h0, l0, max);
      done := TopExit(jHi, jLo, max);
      ConcatAssoc(start, TopEmit(h0, l0, max), if done then [] else TopSweep(jHi, jLo, max));
    }
  }

  // ------------------------------------------------------------ top: pruning

  /**
   * The source's pruning test `k <= heap.size && heap.min() > bound`. The
   * heap's size counts its unused slot 0, so the test already fires when
   * k - 1 pairs are held.
   */
  predicate TopPrunesAsWritten(k: int, size: int, min: real, bound: Double)
  {
    k <= size && Greater(Num(min), bound)
  }

  /** Pruning once the heap is full: size - 1 == k pairs held. */
  predicate TopPrunes(k: int, size: int, min: real, bound: Double)
  {
    k < size && Greater(Num(min), bound)
  }

  /**
   * k = 2 with one pair of score 1 held (size 2): the source prunes bucket 11
   * of a query of popcount 10 although a record there scores 10/11 and the
   * heap has room for it.
   */
  lemma {:induction false} TopPrunesEarly()
    ensures TopPrunesAsWritten(2, 2, 1.0, Bound(Tanimoto, 10, 11))
    ensures !TopPrunes(2, 2, 1.0, Bound(Tanimoto, 10, 11))
    ensures Compute(Tanimoto, 0, 1, 10, 0) == Bound(Tanimoto, 10, 11)
  {
    TanimotoBoundAttained(10, 11);
    Ratio(10, 11);
  }

  /**
   * The bound is not monotone along top's ordering: for q = 3 bucket 1
   * (bound 1/3) comes before bucket 6 (bound 1/2), and a record of bucket 6
   * scores 1/2. A full heap whose least score is 0.4 makes the source break
   * at bucket 1 and never offer that record.
   */
  lemma {:induction false} TopBreakSkipsBucket(max: int)
    requires max >= 7
    ensures |TopSweep(4, 2, max)| >= 5 && ([3] + TopSweep(4, 2, max))[..6] == [3, 4, 2, 5, 1, 6]
    ensures Greater(Num(0.4), Bound(Tanimoto, 3, 1))
    ensures Compute(Tanimoto, 0, 3, 3, 0) == Bound(Tanimoto, 3, 6) && Bound(Tanimoto, 3, 6).r > 0.4
  {
    TopBreakOrder(max);
    TanimotoBoundAttained(3, 6);
  }

  lemma TopBreakOrder(max: int)
    requires max >= 7
    ensures |TopSweep(4, 2, max)| >= 5 && ([3] + TopSweep(4, 2, max))[..6] == [3, 4, 2, 5, 1, 6]
  {
    var rest := TopSweep(7, 0, max);
    TopBreakOrderHead(max);
    TopBreakOrderTail(max);
    assert [3] + TopSweep(4, 2, max) == [3, 4, 2, 5, 1, 6] + rest;
  }

  /** The first pass from 4 and 2 emits both and moves on to 5 and 1. */
  lemma TopBreakOrderHead(max: int)
    requires max >= 7
    ensures TopSweep(4, 2, max) == [4, 2] + TopSweep(5, 1, max)
  {
  }

  /** The passes after the first: 5 and 1, then 6 once the low side has run out. */
  lemma TopBreakOrderTail(max: int)
    requires max >= 7
    ensures TopSweep(5, 1, max) == [5, 1] + ([6] + TopSweep(7, 0, max))
  {
    var s2 := TopSweep(6, 0, max);
    assert s2 == [6] + TopSweep(7, 0, max);
    assert TopSweep(5, 1, max) == [5, 1] + s2;
  }

  // ------------------------------------------------------------ top: offering

  /** `heap.add(st, fp.similarity(query, Tanimoto))` for record st. */
  method OfferOne(payload: seq<Word>, heap: MinBinaryHeap, query: seq<Word>, ghost all: seq<Entry>,
                  st: int, k: int, ghost offered: multiset<Entry>)
    requires Scored(all, payload, query) && Popcount(query) >= 1 && 0 <= st < |all|
    requires heap.Valid() && heap.key.Length == k + 1 && k >= 1
    requires KeepsBest(offered, heap.Entries(), k)
    modifies heap, heap.key, heap.val
    ensures heap.Valid() && heap.key.Length == k + 1
    ensures KeepsBest(offered + multiset{all[st]}, heap.Entries(), k)
  {
    var d := TopScore(Record(payload, st), query);
    TopScoreBounded(Record(payload, st), query, Tanimoto);
    ghost var held := heap.Entries();
    ghost var root: Entry := (0, 0.0);
    if heap.size > 1 {
      heap.RootLeast();
      root := (heap.key[1], heap.val[1]);
    }
    heap.Add(st, d.r);
    OfferKeepsBest(offered, held, heap.Entries(), k, (st, d.r), root);
  }

  /**
   * The inner loop of top from record st on: offers records st .. hi-1 of a
   * bucket starting at lo to the heap, one `heap.add` each; acc is what has
   * been offered so far.
   */
  method OfferRange(payload: seq<Word>, heap: MinBinaryHeap, query: seq<Word>, ghost all: seq<Entry>,
                    lo: int, st: int, hi: int, k: int, ghost offered: multiset<Entry>, ghost acc: multiset<Entry>)
    requires Scored(all, payload, query) && Popcount(query) >= 1 && 0 <= lo <= st <= hi <= |all|
    requires heap.Valid() && heap.key.Length == k + 1 && k >= 1
    requires acc == offered + RecordPairs(all, lo, st) && KeepsBest(acc, heap.Entries(), k)
    modifies heap, heap.key, heap.val
    ensures heap.Valid() && heap.key.Length == k + 1
    ensures KeepsBest(offered + RecordPairs(all, lo, hi), heap.Entries(), k)
    decreases hi - st
  {
    if st == hi {
      return;
    }
    OfferOne(payload, heap, query, all, st, k, acc);
    RecordPairsStep(offered, acc, all, lo, st);
    OfferRange(payload, heap, query, all, lo, st + 1, hi, k, offered, acc + multiset{all[st]});
  }

  /** Offers every record of bucket bin to the heap. */
  method OfferBucket(counts: seq<int>, payload: seq<Word>, heap: MinBinaryHeap, query: seq<Word>, ghost all: seq<Entry>,
                     bin: int, k: int, ghost offered: multiset<Entry>)
    requires Scored(all, payload, query) && Popcount(query) >= 1
    requires 0 <= bin < |counts| - 1 && 0 <= counts[bin] <= counts[bin + 1] <= |all|
    requires heap.Valid() && heap.key.Length == k + 1 && k >= 1
    requires KeepsBest(offered, heap.Entries(), k)
    modifies heap, heap.key, heap.val
    ensures heap.Valid() && heap.key.Length == k + 1
    ensures KeepsBest(offered + BucketOffers(all, counts, bin), heap.Entries(), k)
  {
    OfferRange(payload, heap, query, all, counts[bin], counts[bin], counts[bin + 1], k, offered, offered);
  }

  /**
   * One pass of top's outer loop: bucket bin is skipped when the heap is full
   * and its least score beats the bucket's bound, and offered record by
   * record otherwise.
   */
  method VisitBucket(counts: seq<int>, payload: seq<Word>, heap: MinBinaryHeap, query: seq<Word>, ghost all: seq<Entry>,
                     m: Measure, q: int, bin: int, k: int, ghost acc: multiset<Entry>)
    requires WellFormed(counts, payload) && Scored(all, payload, query) && q == Popcount(query) >= 1
    requires 0 <= bin < Length
    requires heap.Valid() && heap.key.Length == k + 1 && k >= 1
    requires KeepsBest(acc, heap.Entries(), k)
    modifies heap, heap.key, heap.val
    ensures heap.Valid() && heap.key.Length == k + 1
    ensures KeepsBest(acc + BucketOffers(all, counts, bin), heap.Entries(), k)
  {
    if k < heap.size && Greater(Num(heap.Min()), Bound(m, q, bin)) {
      BucketBelowBound(counts, payload, query, all, m, bin);
      heap.RootLeast();
      SkipKeepsBest(acc, heap.Entries(), k, BucketOffers(all, counts, bin), Bound(m, q, bin).r);
    } else {
      OfferBucket(counts, payload, heap, query, all, bin, k, acc);
    }
  }

  /**
   * The outer loop of top from position i of the ordering on; acc is what
   * the buckets before position i hold.
   */
  method VisitBuckets(counts: seq<int>, payload: seq<Word>, heap: MinBinaryHeap, query: seq<Word>, ghost all: seq<Entry>,
                      m: Measure, q: int, order: seq<int>, i: int, k: int, ghost acc: multiset<Entry>)
    requires WellFormed(counts, payload) && Scored(all, payload, query) && q == Popcount(query) >= 1
    requires 0 <= i <= |order| && forall j :: 0 <= j < |order| ==> 0 <= order[j] < Length
    requires heap.Valid() && heap.key.Length == k + 1 && k >= 1
    requires acc == Visited(all, counts, order[..i]) && KeepsBest(acc, heap.Entries(), k)
    modifies heap, heap.key, heap.val
    ensures heap.Valid() && heap.key.Length == k + 1
    ensures KeepsBest(Visited(all, counts, order), heap.Entries(), k)
    decreases |order| - i
  {
    if i == |order| {
      assert order[..i] == order;
      return;
    }
    var bin := order[i];
    VisitBucket(counts, payload, heap, query, all, m, q, bin, k, acc);
    VisitedPrefix(all, counts, order, i);
    VisitBuckets(counts, payload, heap, query, all, m, q, order, i + 1, k, acc + BucketOffers(all, counts, bin));
  }

  /** top's ordering visits every bucket from 1 to 1023, and so every record of those buckets. */
  lemma {:induction false} TopVisitsAll(counts: seq<int>, all: seq<Entry>, q: int, order: seq<int>, n: int)
    requires |counts| == Length + 1 && 0 <= counts[0] && n == counts[Length] == |all|
    requires forall i, j :: 0 <= i <= j < |counts| ==> counts[i] <= counts[j]
    requires 1 <= q < Length && order == [q] + TopSweep(q + 1, q - 1, Length)
    ensures forall j :: 0 <= j < |order| ==> 1 <= order[j] < Length
    ensures Visited(all, counts, order) == RecordPairs(all, counts[1], n)
  {
    TopOrderCovers(q, Length);
    InRange(order, 1, Length);
    VisitedPerm(all, counts, order, Range(1, Length));
    VisitedRange(all, counts, 1, Length);
  }

  class SimilarityIndex {
    const counts: seq<int>
    /** `offset`: where the payload starts in the file. */
    const offset: int
    /** `step`: bytes per record. */
    const step: int
    /** The payload as the words `getLong` reads, record after record. */
    const payload: seq<Word>
    const nEntries: int
    var nChecked: int

    ghost predicate Valid()
      reads this
    {
      WellFormed(counts, payload) && step == (|counts| - 1) / 8 && nEntries == counts[|counts| - 1] &&
      0 <= nChecked <= nEntries
    }

    /** The index over a well-formed file, its payload at byte `position`. */
    constructor (counts: seq<int>, payload: seq<Word>, position: int)
      requires WellFormed(counts, payload)
      ensures Valid() && this.counts == counts && this.payload == payload && offset == position
      ensures nChecked == 0
    {
      this.counts := counts;
      this.payload := payload;
      this.offset := position;
      this.step := (|counts| - 1) / 8;
      this.nEntries := counts[|counts| - 1];
      this.nChecked := 0;
    }

    /** `size()`: the number of records the payload holds. */
    function Size(): (n: int)
      reads this
      requires Valid()
      ensures n >= 0 && 16 * n == |payload|
    {
      nEntries
    }

    /** `checked()`: how many records the last `findAll` scored. */
    function Checked(): (c: int)
      reads this
      requires Valid()
      ensures 0 <= c <= Size()
    {
      nChecked
    }

    /**
     * `top(query, k, measure)`: the keys of the k records scoring highest
     * (Tanimoto) among buckets 1 .. 1023, visiting buckets outward from the
     * query's popcount and skipping a bucket whose bound is below the least
     * score of a full heap. A k below 1 faults on the heap's arrays.
     */
    method Top(query: seq<Word>, k: int, m: Measure) returns (r: Result<seq<int>, Exception>, ghost best: seq<Entry>)
      requires Valid() && |query| == Stride
      requires 1 <= Popcount(query) < Length
      ensures k < 1 ==> r == Err(if k < -1 then NegativeArraySize else ArrayIndexOutOfBounds)
      ensures k >= 1 ==>
        (r.Ok? && r.value == KeysOf(best) &&
         KeepsBest(RecordPairs(Candidates(payload, query, nEntries), counts[1], nEntries), multiset(best), k))
    {
      var q := Popcount(query);
      var order := TopOrdering(q, |counts| - 1);
      best := [];
      if k < 1 {
        if k < -1 {
          return Err(NegativeArraySize), best;
        }
        return Err(ArrayIndexOutOfBounds), best;
      }
      var heap := new MinBinaryHeap(k);
      ghost var all := Candidates(payload, query, nEntries);
      TopVisitsAll(counts, all, q, order, nEntries);
      assert order[..0] == [];
      VisitBuckets(counts, payload, heap, query, all, m, q, order, 0, k, multiset{});
      var ks := heap.Keys();
      best := PairsOf(heap.key[..], heap.val[..], heap.size);
      r := Ok(ks);
    }

    /**
     * `top(query, k, measure)` as written, with the `chunks` system property
     * unset so that `cache` is null. The first bucket of the ordering is the
     * query's own, which lies within `counts`, and its bound is 1. A fresh
     * heap is never pruned against: `k <= heap.size` needs k = 1, and then
     * `min()` reads slot 1, which holds 0.0. So the first pass reaches
     * `cache.get(bin)` and throws.
     */
    method TopAsWritten(query: seq<Word>, k: int, m: Measure) returns (r: Result<seq<int>, Exception>)
      requires Valid() && |query| == Stride
      requires 1 <= Popcount(query) < Length
      ensures r == Err(if k < -1 then NegativeArraySize else if k < 1 then ArrayIndexOutOfBounds else NullPointer)
    {
      var q := Popcount(query);
      var order := TopOrdering(q, |counts| - 1);
      if k < 1 {
        if k < -1 {
          return Err(NegativeArraySize);
        }
        return Err(ArrayIndexOutOfBounds);
      }
      var heap := new MinBinaryHeap(k);
      var bin := order[0];
      var skipped := bin < 0 || bin >= |counts|;
      Ratio(q, q);
      var pruned := k <= heap.size && Greater(Num(heap.val[1]), Bound(m, q, bin));
      if skipped || pruned {
        assert false;
      }
      r := Err(NullPointer);
    }

    /**
     * `findAll(query, threshold, measure)` as written: the ordering of
     * buckets, then the scan over it. Either step can throw; an ordering
     * that throws leaves `nChecked` as it was.
     */
    method FindAllAsWritten(query: seq<Word>, threshold: real, m: Measure) returns (r: Result<seq<int>, Exception>)
      requires Valid() && |query| == Stride
      modifies this
      ensures Valid()
      ensures r == FindAllAsWrittenResult(counts, payload, query, threshold, m)
      ensures var order := OrderAsWritten(Popcount(query), threshold, m);
        nChecked == if order.Err? then old(nChecked)
                    else ScanAsWritten(counts, payload, LongArray(query), Popcount(query), threshold, m, order.value).checked
    {
      var q := Popcount(query);
      var ordering := OrderingAsWritten(q, threshold, m);
      if ordering.Err? {
        return Err(ordering.error);
      }
      PopcountAtMost(query);
      r := ScanAsWrittenLoop(LongArray(query), q, threshold, m, ordering.value);
    }

    /**
     * The scan of findAll as written over the ordering: `nChecked` starts at
     * 0 and grows by each visited bucket's size, and a 1 is added for each
     * record the misaligned reads score at least the threshold.
     */
    method ScanAsWrittenLoop(qw: seq<Word>, q: int, threshold: real, m: Measure, order: seq<int>)
      returns (r: Result<seq<int>, Exception>)
      requires Valid() && |qw| <= Stride && 0 <= q <= Length && OrderAsWritten(q, threshold, m) == Ok(order)
      modifies this
      ensures Valid()
      ensures var s := ScanAsWritten(counts, payload, qw, q, threshold, m, order);
        nChecked == s.checked && r == if s.failed then Err(ArrayIndexOutOfBounds) else Ok(Ones(s.hits))
    {
      nChecked := 0;
      var xs: seq<int> := [];
      ghost var hits: nat := 0;
      var i := 0;
      assert order[..0] == [];
      while i < |order|
        invariant 0 <= i <= |order| && WellFormed(counts, payload)
        invariant ScanAsWritten(counts, payload, qw, q, threshold, m, order[..i]) == Scan(hits, nChecked, false)
        invariant xs == Ones(hits)
      {
        var failed;
        xs, hits, failed := VisitAsWritten(qw, q, threshold, m, order, i, xs, hits);
        if failed {
          ScanFailureSticks(counts, payload, qw, q, threshold, m, order, i + 1);
          OrderCheckedBound(counts, payload, qw, q, threshold, m, order, i);
          assert order[..|order|] == order;
          return Err(ArrayIndexOutOfBounds);
        }
        i := i + 1;
      }
      assert order[..i] == order;
      OrderCheckedBound(counts, payload, qw, q, threshold, m, order, i);
      r := Ok(xs);
    }

    /**
     * One pass of the scan as written, for bucket order[i]: skipped outside
     * [0, counts.length); reading counts[bin + 1] throws for the last
     * bucket; otherwise `nChecked` grows by the bucket's size and xs by its
     * hits.
     */
    method VisitAsWritten(qw: seq<Word>, q: int, threshold: real, m: Measure, order: seq<int>, i: int,
                          xs0: seq<int>, ghost hits0: nat)
      returns (xs: seq<int>, ghost hits: nat, failed: bool)
      requires WellFormed(counts, payload) && |qw| <= Stride && 0 <= i < |order|
      requires ScanAsWritten(counts, payload, qw, q, threshold, m, order[..i]) == Scan(hits0, nChecked, false)
      requires xs0 == Ones(hits0)
      modifies this
      ensures ScanAsWritten(counts, payload, qw, q, threshold, m, order[..i + 1]) == Scan(hits, nChecked, failed)
      ensures failed ==> hits == hits0 && nChecked == old(nChecked)
      ensures xs == Ones(hits)
    {
      var bin := order[i];
      ScanPrefix(counts, payload, qw, q, threshold, m, order, i);
      xs, hits, failed := xs0, hits0, false;
      if bin < 0 || bin >= |counts| {
        return;
      }
      if bin + 1 >= |counts| {
        return xs, hits, true;
      }
      var binSize := counts[bin + 1] - counts[bin];
      ghost var found := BucketHitsAsWritten(payload, qw, q, threshold, m, bin, 16 * counts[bin], binSize);
      ScanStep(counts, payload, qw, q, threshold, m, order, i, bin, binSize, hits, nChecked, found);
      nChecked := nChecked + binSize;
      xs := ScanBucketAsWritten(payload, qw, q, threshold, m, bin, 16 * counts[bin], binSize, xs);
      OnesAppend(hits, found);
      hits := hits + found;
    }

    /**
     * `findAll` as evidently intended: the buckets whose bound meets the
     * threshold, outward from the query's popcount on each side, each record
     * read from its own 16 words; returns the slots of exactly the records
     * scoring at least the threshold, and `nChecked` counts the records of the
     * buckets visited.
     */
    method FindAll(query: seq<Word>, threshold: real, m: Measure) returns (hits: seq<int>)
      requires Valid() && |query| == Stride
      modifies this
      ensures Valid()
      ensures forall s :: s in hits <==> 0 <= s < Size() && IsHit(m, query, Record(payload, s), threshold)
      ensures var q := Popcount(query);
        q <= Length && nChecked == counts[Min(ReachHi(q, threshold, m, q + 1), Length)] - counts[ReachLo(q, threshold, m, q - 1) + 1]
    {
      PopcountAtMost(query);
      var up, hi := SweepUp(counts, payload, query, threshold, m);
      var down, lo := SweepDown(counts, payload, query, threshold, m);
      hits := up + down;
      nChecked := counts[hi] - counts[lo + 1];
      forall s | 0 <= s < nEntries && !(counts[lo + 1] <= s < counts[hi])
        ensures !IsHit(m, query, Record(payload, s), threshold)
      {
        NoHitOutside(counts, payload, query, threshold, m, lo, hi, s);
      }
    }
  }
}
