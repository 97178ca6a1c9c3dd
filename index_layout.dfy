// The layout of a `SimilarityIndex` file as the searches see it: 1024
// buckets of records, counts[b] the first record of bucket b (the
// fingerprints with popcount b) and counts[1024] the number of records; the
// payload holds the records back to back, 16 words each, in bucket order.

module IndexLayouts {
  import opened Words
  import opened BinaryFingerprints

  /** `length`: the index holds fingerprints of 1024 bits. */
  const Length: int := 1024
  /**
   * Words per record: `step` is (counts.length - 1) / 8 = 128 bytes. Record
   * offsets below are written 16 * s, with the literal, to keep them linear.
   */
  const Stride: int := 16

  // ------------------------------------------------------------ bucket ranges

  /** The integers lo, lo+1, ..., hi-1. */
  function Range(lo: int, hi: int): (r: seq<int>)
    ensures |r| == if lo < hi then hi - lo else 0
    decreases hi - lo
  {
    if lo >= hi then [] else [lo] + Range(lo + 1, hi)
  }

  lemma {:induction false} RangeSplit(lo: int, mid: int, hi: int)
    requires lo <= mid <= hi
    ensures Range(lo, hi) == Range(lo, mid) + Range(mid, hi)
    decreases mid - lo
  {
    if lo < mid {
      RangeSplit(lo + 1, mid, hi);
    }
  }

  lemma {:induction false} RangeSnoc(lo: int, h: int, hi: int)
    requires lo <= h && hi == h + 1
    ensures Range(lo, hi) == Range(lo, h) + [h]
  {
    RangeSplit(lo, h, hi);
  }

  lemma {:induction false} RangeMember(lo: int, hi: int, x: int)
    ensures x in Range(lo, hi) <==> lo <= x < hi
    decreases hi - lo
  {
    if lo < hi {
      RangeMember(lo + 1, hi, x);
    }
  }

  // ------------------------------------------------------------ the index file

  /** Record s of the payload: the words of the s-th fingerprint. */
  function Record(payload: seq<Word>, s: int): (rec: seq<Word>)
    requires 0 <= s && 16 * (s + 1) <= |payload|
    ensures |rec| == Stride
  {
    payload[16 * s .. 16 * (s + 1)]
  }

  /**
   * What a well-formed index file holds: 1025 non-decreasing bucket starts
   * beginning at 0, 16 words per record, and each record in the bucket of its
   * popcount.
   */
  ghost predicate WellFormed(counts: seq<int>, payload: seq<Word>)
  {
    |counts| == Length + 1 && counts[0] == 0 &&
    (forall i, j :: 0 <= i <= j < |counts| ==> counts[i] <= counts[j]) &&
    |payload| == 16 * counts[Length] &&
    forall b, s :: 0 <= b < Length && counts[b] <= s < counts[b + 1] ==> Popcount(Record(payload, s)) == b
  }
}
