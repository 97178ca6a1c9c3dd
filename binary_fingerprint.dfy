// `BinaryFingerprint`: a fixed-length bit vector over an array of Java
// `long` words. Bit i lives in bit `i % 64` of word `i / 64`, so the array of
// a fingerprint of `length` bits holds `length / 64` words.

module BinaryFingerprints {
  import opened Wrappers
  import opened Words
  import opened Similarity
  import opened FpsFmt

  /** `Integer.MIN_VALUE`. */
  const IntMin: int := -0x8000_0000

  /**
   * `powerOfTwo(n)`: `n != 0 && (n & (n - 1)) == 0` on Java ints. Besides the
   * positive powers of two it accepts `Integer.MIN_VALUE`, whose predecessor
   * wraps to `Integer.MAX_VALUE`.
   */
  function PowerOfTwo(n: Int32): (b: bool)
    ensures b <==> (n > 0 && IsPow2(n)) || n == IntMin
  {
    PowerOfTwoBits(n);
    n != 0 && And(U32(n), U32(n - 1)) == 0
  }

  lemma PowerOfTwoBits(n: Int32)
    ensures (n != 0 && And(U32(n), U32(n - 1)) == 0) <==> (n > 0 && IsPow2(n)) || n == IntMin
  {
    if n > 0 {
      assert U32(n) == n && U32(n - 1) == n - 1;
      AndPred(n);
    } else if n < 0 {
      NegativePowerOfTwo(n);
    }
  }

  /** Among negative ints only `Integer.MIN_VALUE` has a single bit set. */
  lemma NegativePowerOfTwo(n: Int32)
    requires n < 0
    ensures And(U32(n), U32(n - 1)) == 0 <==> n == IntMin
  {
    var u := n + 0x1_0000_0000;
    assert U32(n) == u && U32(n - 1) == u - 1;
    AndPred(u);
    Pow2Int();
    Pow2IsPow2(31);
    Pow2Between(u, 0x8000_0000);
  }

  lemma Pow2Int()
    ensures Pow2(31) == 0x8000_0000
  {
    assert Pow2(16) == 0x1_0000 by { Pow2Add(8, 8); }
    Pow2Add(16, 15);
  }

  lemma {:induction false} Pow2IsPow2(k: nat)
    ensures IsPow2(Pow2(k))
  {
    if k > 0 { Pow2IsPow2(k - 1); }
  }

  // ---------------------------------------------------------------- bit positions

  /** Bit i of a word array: bit `i % 64` of word `i / 64`, as `get` reads it. */
  predicate BitAt(ws: seq<Word>, i: nat)
    requires i < 64 * |ws|
  {
    Bit(ws[i / 64], i % 64)
  }

  /** Position 64k + j is bit j of word k. */
  lemma BitAtWord(ws: seq<Word>, k: nat, j: nat)
    requires k < |ws| && j < 64
    ensures BitAt(ws, 64 * k + j) <==> Bit(ws[k], j)
  {
    assert (64 * k + j) / 64 == k && (64 * k + j) % 64 == j;
  }

  /** The number of set positions below n. */
  function CountSet(ws: seq<Word>, n: nat): (c: nat)
    requires n <= 64 * |ws|
    ensures c <= n
  {
    if n == 0 then 0 else CountSet(ws, n - 1) + (if BitAt(ws, n - 1) then 1 else 0)
  }

  /** `Long.bitCount` summed over the words. */
  function Popcount(ws: seq<Word>): nat
  {
    if ws == [] then 0 else Popcount(ws[..|ws| - 1]) + BitCount(ws[|ws| - 1])
  }

  lemma PopcountSnoc(ws: seq<Word>, i: nat)
    requires i < |ws|
    ensures Popcount(ws[..i + 1]) == Popcount(ws[..i]) + BitCount(ws[i])
  {
    PrefixPrefix(ws, i + 1, i);
  }

  /** Counting within word k adds that word's own count. */
  lemma {:induction false} CountSetWord(ws: seq<Word>, k: nat, j: nat)
    requires k < |ws| && j <= 64
    ensures CountSet(ws, 64 * k + j) == CountSet(ws, 64 * k) + CountBelow(ws[k], j)
  {
    if j > 0 {
      CountSetWord(ws, k, j - 1);
      BitAtWord(ws, k, j - 1);
    }
  }

  /** Counting below 64m only looks at the first m words. */
  lemma {:induction false} CountSetPrefix(ws: seq<Word>, m: nat, n: nat)
    requires m <= |ws| && n <= 64 * m
    ensures CountSet(ws, n) == CountSet(ws[..m], n)
  {
    if n > 0 {
      CountSetPrefix(ws, m, n - 1);
      assert (n - 1) / 64 < m;
    }
  }

  /** The sum of the words' `bitCount`s is the number of set positions. */
  lemma {:induction false} PopcountPositions(ws: seq<Word>)
    ensures Popcount(ws) == CountSet(ws, 64 * |ws|)
  {
    if ws != [] {
      var m := |ws| - 1;
      PopcountPositions(ws[..m]);
      CountSetPrefix(ws, m, 64 * m);
      CountSetWord(ws, m, 64);
      WordBitCount(ws[m]);
    }
  }

  /** Every set bit of ws1 is set in ws2, word by word and position by position. */
  lemma WordsSubset(ws1: seq<Word>, ws2: seq<Word>)
    requires |ws1| == |ws2|
    ensures (forall k :: 0 <= k < |ws1| ==> SubsetBits(ws1[k], ws2[k]))
        <==> (forall i :: 0 <= i < 64 * |ws1| ==> BitAt(ws1, i) ==> BitAt(ws2, i))
  {
    if forall k :: 0 <= k < |ws1| ==> SubsetBits(ws1[k], ws2[k]) {
      forall i | 0 <= i < 64 * |ws1| && BitAt(ws1, i) ensures BitAt(ws2, i) {
        assert SubsetBits(ws1[i / 64], ws2[i / 64]);
      }
    }
    if forall i :: 0 <= i < 64 * |ws1| ==> BitAt(ws1, i) ==> BitAt(ws2, i) {
      forall k | 0 <= k < |ws1| ensures SubsetBits(ws1[k], ws2[k]) {
        forall j: nat | j < 64 && Bit(ws1[k], j) ensures Bit(ws2[k], j) {
          BitAtWord(ws1, k, j);
          BitAtWord(ws2, k, j);
        }
      }
    }
  }

  /** No word pair shares a bit exactly when no position is set in both. */
  lemma WordsDisjoint(ws1: seq<Word>, ws2: seq<Word>)
    requires |ws1| == |ws2|
    ensures (forall k :: 0 <= k < |ws1| ==> WordAnd(ws1[k], ws2[k]) == 0)
        <==> !(exists i :: 0 <= i < 64 * |ws1| && BitAt(ws1, i) && BitAt(ws2, i))
  {
    if exists i :: 0 <= i < 64 * |ws1| && BitAt(ws1, i) && BitAt(ws2, i) {
      var i :| 0 <= i < 64 * |ws1| && BitAt(ws1, i) && BitAt(ws2, i);
      var k := i / 64;
      ZeroWord(WordAnd(ws1[k], ws2[k]));
      assert Bit(WordAnd(ws1[k], ws2[k]), i % 64);
    } else {
      forall k | 0 <= k < |ws1| ensures WordAnd(ws1[k], ws2[k]) == 0 {
        forall j: nat | j < 64 ensures !Bit(WordAnd(ws1[k], ws2[k]), j) {
          BitAtWord(ws1, k, j);
          BitAtWord(ws2, k, j);
        }
        ZeroWord(WordAnd(ws1[k], ws2[k]));
      }
    }
  }

  // ---------------------------------------------------------------- bytes

  /** The bytes of a word array, eight per word, least significant first. */
  function WordsBytes(ws: seq<Word>): (bs: seq<Byte>)
    ensures |bs| == 8 * |ws|
  {
    seq(8 * |ws|, t requires 0 <= t < 8 * |ws| => ByteOf(ws[t / 8], t % 8))
  }

  /** Eight bytes, least significant first, as a word. */
  function AssembleWord(b: seq<Byte>): (w: Word)
    requires |b| == 8
  {
    BytesAssemble(b);
    Assemble(b)
  }

  /** The words of a byte array, one per eight bytes. */
  function BytesWords(bs: seq<Byte>): (ws: seq<Word>)
    ensures |ws| == |bs| / 8
  {
    seq(|bs| / 8, k requires 0 <= k < |bs| / 8 => AssembleWord(bs[8 * k .. 8 * k + 8]))
  }

  /** Bit k of byte 8w + j is bit 8j + k of word w: the byte order is little-endian. */
  lemma LittleEndian(ws: seq<Word>, w: nat, j: nat, k: nat)
    requires w < |ws| && j < 8 && k < 8
    ensures WordsBytes(ws)[8 * w + j] == ByteOf(ws[w], j)
    ensures Bit(WordsBytes(ws)[8 * w + j], k) <==> BitAt(ws, 64 * w + 8 * j + k)
  {
    assert (8 * w + j) / 8 == w && (8 * w + j) % 8 == j;
    ByteBit(ws[w], j, k);
    BitAtWord(ws, w, 8 * j + k);
  }

  lemma WordsBytesSlice(ws: seq<Word>, k: nat)
    requires k < |ws|
    ensures WordsBytes(ws)[8 * k .. 8 * k + 8] == Bytes(ws[k])
  {
    forall j | 0 <= j < 8 ensures WordsBytes(ws)[8 * k .. 8 * k + 8][j] == Bytes(ws[k])[j] {
      assert (8 * k + j) / 8 == k && (8 * k + j) % 8 == j;
    }
  }

  /** Reading the bytes of a word array back restores the words. */
  lemma BytesRoundTrip(ws: seq<Word>)
    ensures BytesWords(WordsBytes(ws)) == ws
  {
    forall k | 0 <= k < |ws| ensures BytesWords(WordsBytes(ws))[k] == ws[k] {
      WordsBytesSlice(ws, k);
      AssembleBytes(ws[k]);
    }
  }

  /** Writing the words of a whole number of 8-byte groups gives the bytes back. */
  lemma WordsRoundTrip(bs: seq<Byte>)
    requires |bs| % 8 == 0
    ensures WordsBytes(BytesWords(bs)) == bs
  {
    var ws := BytesWords(bs);
    forall t | 0 <= t < |bs| ensures WordsBytes(ws)[t] == bs[t] {
      var k, j := t / 8, t % 8;
      assert t == 8 * k + j;
      BytesAssemble(bs[8 * k .. 8 * k + 8]);
      assert Bytes(ws[k])[j] == bs[8 * k .. 8 * k + 8][j];
    }
  }

  /**
   * The word `fromBytes` builds from the eight bytes at `b`, as Java writes it:
   * `(b[7] << 56 | b[6] << 48) | ... | b[0]`, the OR taken from the high byte down.
   */
  function OrFrom(b: seq<Byte>, j: nat): nat
    requires |b| == 8 && j < 8
    decreases 8 - j
  {
    if j == 7 then ShiftLeft(b[7], 56) else Or(OrFrom(b, j + 1), ShiftLeft(b[j], 8 * j))
  }

  /** The OR of the shifted bytes j..7 is those bytes assembled, shifted by 8j. */
  lemma {:induction false} OrFromAssemble(b: seq<Byte>, j: nat)
    requires |b| == 8 && j < 8
    ensures OrFrom(b, j) == ShiftLeft(Assemble(b[j..]), 8 * j)
    decreases 8 - j
  {
    assert b[j..][1..] == b[j + 1..];
    if j == 7 {
      assert b[j + 1..] == [];
    } else {
      OrFromAssemble(b, j + 1);
      OrByteStep(Assemble(b[j + 1..]), b[j], 8 * j);
    }
  }

  /** OR-ing byte c under a value a shifted one byte higher places c below a. */
  lemma OrByteStep(a: nat, c: Byte, m: nat)
    ensures Or(ShiftLeft(a, 8 * 1 + m), ShiftLeft(c, m)) == ShiftLeft(c + 256 * a, m)
  {
    ShiftLeftAdd(a, 8, m);
    OrShift(ShiftLeft(a, 8), c, m);
    OrComm(ShiftLeft(a, 8), c);
    ShiftLeftMul(a, 8);
    assert Pow2(8) == 256;
    OrDisjoint(c, a, 8);
  }

  /** `fromBytes`' word expression is the eight bytes assembled little-endian. */
  lemma LongOfBytes(b: seq<Byte>)
    requires |b| == 8
    ensures OrFrom(b, 0) == AssembleWord(b)
  {
    OrFromAssemble(b, 0);
    assert b[0..] == b;
  }

  // ---------------------------------------------------------------- hex

  /** `Long.toHexString(n)` for n >= 0: lowercase, no leading zeros. */
  function LongHex(n: nat): (s: seq<char>)
    ensures |s| >= 1
  {
    if n < 16 then [HexDigit(n)] else LongHex(n / 16) + [HexDigit(n % 16)]
  }

  /** `toHex` pads `toHexString(b)` to two digits: that is the byte's two-digit hex. */
  lemma PaddedHex(b: Byte)
    ensures PadHex(LongHex(b)) == ByteHex(b)
  {
    if b >= 16 {
      assert LongHex(b / 16) == [HexDigit(b / 16)];
    }
  }

  /** `x & (p - 1)` on Java ints is x's bit pattern modulo the power of two p. */
  lemma LowBitsMask(x: Int32, p: int)
    requires 0 < p < 0x8000_0000 && IsPow2(p)
    ensures And(U32(x), U32(p - 1)) == U32(x) % p < p
    ensures x >= 0 ==> U32(x) == x
  {
    assert U32(p - 1) == p - 1;
    AndLowMask(U32(x), p);
  }

  // ---------------------------------------------------------------- single-bit updates

  /** `words[h >> 6] |= 1L << h` sets position h and no other. */
  lemma SetBitAt(ws: seq<Word>, h: nat)
    requires h < 64 * |ws|
    ensures forall i :: 0 <= i < 64 * |ws| ==>
      (BitAt(ws[h / 64 := WordOr(ws[h / 64], Mask(h % 64))], i) <==> i == h || BitAt(ws, i))
  {
    var r := ws[h / 64 := WordOr(ws[h / 64], Mask(h % 64))];
    forall i | 0 <= i < 64 * |ws| ensures BitAt(r, i) <==> i == h || BitAt(ws, i) {
      assert i == 64 * (i / 64) + i % 64 && h == 64 * (h / 64) + h % 64;
    }
  }

  /** `words[x >> 6] &= ~(1L << x)` clears position x and no other. */
  lemma ClearBitAt(ws: seq<Word>, x: nat)
    requires x < 64 * |ws|
    ensures forall i :: 0 <= i < 64 * |ws| ==>
      (BitAt(ws[x / 64 := WordAnd(ws[x / 64], Not(Mask(x % 64)))], i) <==> i != x && BitAt(ws, i))
  {
    var r := ws[x / 64 := WordAnd(ws[x / 64], Not(Mask(x % 64)))];
    forall i | 0 <= i < 64 * |ws| ensures BitAt(r, i) <==> i != x && BitAt(ws, i) {
      assert i == 64 * (i / 64) + i % 64 && x == 64 * (x / 64) + x % 64;
      NotBit(Mask(x % 64), i % 64);
    }
  }

  // ---------------------------------------------------------------- similarity counts

  /** The word-wise AND of two word arrays. */
  function AndWords(ws1: seq<Word>, ws2: seq<Word>): (r: seq<Word>)
    requires |ws1| == |ws2|
    ensures |r| == |ws1|
    ensures forall i :: 0 <= i < 64 * |ws1| ==> (BitAt(r, i) <==> BitAt(ws1, i) && BitAt(ws2, i))
  {
    seq(|ws1|, k requires 0 <= k < |ws1| => WordAnd(ws1[k], ws2[k]))
  }

  /** The word-wise OR of two word arrays. */
  function OrWords(ws1: seq<Word>, ws2: seq<Word>): (r: seq<Word>)
    requires |ws1| == |ws2|
    ensures |r| == |ws1|
    ensures forall i :: 0 <= i < 64 * |ws1| ==> (BitAt(r, i) <==> BitAt(ws1, i) || BitAt(ws2, i))
  {
    seq(|ws1|, k requires 0 <= k < |ws1| => WordOr(ws1[k], ws2[k]))
  }

  /** The four counts `similarity` hands to `Measure.compute`. */
  datatype Tally = Tally(onlyA: int, onlyB: int, both: int, neither: int)

  /** `onlyA = a - both`, `onlyB = b - both`, `neither = length - (both + onlyA + onlyB)`. */
  function Tallies(ws1: seq<Word>, ws2: seq<Word>, length: int): Tally
    requires |ws1| == |ws2|
  {
    var a, b, both := Popcount(ws1), Popcount(ws2), Popcount(AndWords(ws1, ws2));
    Tally(a - both, b - both, both, length - (both + (a - both) + (b - both)))
  }

  /** `bitCount(x) + bitCount(y) = bitCount(x & y) + bitCount(x | y)`, summed over the words. */
  lemma {:induction false} PopcountUnion(ws1: seq<Word>, ws2: seq<Word>)
    requires |ws1| == |ws2|
    ensures Popcount(ws1) + Popcount(ws2) == Popcount(AndWords(ws1, ws2)) + Popcount(OrWords(ws1, ws2))
    ensures Popcount(AndWords(ws1, ws2)) <= Popcount(ws1) && Popcount(AndWords(ws1, ws2)) <= Popcount(ws2)
  {
    if ws1 != [] {
      var m := |ws1| - 1;
      PopcountUnion(ws1[..m], ws2[..m]);
      assert AndWords(ws1, ws2)[..m] == AndWords(ws1[..m], ws2[..m]);
      assert OrWords(ws1, ws2)[..m] == OrWords(ws1[..m], ws2[..m]);
      WordCountUnion(ws1[m], ws2[m]);
    }
  }

  /**
   * For fingerprints of `length` bits, the counts are the numbers of positions
   * set only in the first, only in the second, in both and in neither; none is
   * negative and together they cover `length`.
   */
  lemma TallySound(ws1: seq<Word>, ws2: seq<Word>, length: int)
    requires |ws1| == |ws2| && 64 * |ws1| <= length
    ensures var t := Tallies(ws1, ws2, length);
      && t.both == CountSet(AndWords(ws1, ws2), 64 * |ws1|)
      && t.onlyA + t.both == CountSet(ws1, 64 * |ws1|)
      && t.onlyB + t.both == CountSet(ws2, 64 * |ws1|)
      && t.onlyA >= 0 && t.onlyB >= 0 && t.neither >= length - 64 * |ws1|
      && t.onlyA + t.onlyB + t.both + t.neither == length
  {
    PopcountUnion(ws1, ws2);
    PopcountPositions(ws1);
    PopcountPositions(ws2);
    PopcountPositions(AndWords(ws1, ws2));
    PopcountPositions(OrWords(ws1, ws2));
  }

  // ---------------------------------------------------------------- folding

  /** Position h of the n-bit fold: some set position below m maps onto it. */
  ghost predicate FoldsOnto(ws: seq<Word>, n: int, m: nat, h: int)
    requires n > 0 && m <= 64 * |ws|
  {
    exists i :: 0 <= i < m && BitAt(ws, i) && i % n == h
  }

  lemma FoldsStep(ws: seq<Word>, n: int, m: nat)
    requires n > 0 && m < 64 * |ws|
    ensures forall h :: FoldsOnto(ws, n, m + 1, h) <==> FoldsOnto(ws, n, m, h) || (BitAt(ws, m) && m % n == h)
  {
    forall h ensures FoldsOnto(ws, n, m + 1, h) <==> FoldsOnto(ws, n, m, h) || (BitAt(ws, m) && m % n == h) {
      if FoldsOnto(ws, n, m + 1, h) {
        var i :| 0 <= i < m + 1 && BitAt(ws, i) && i % n == h;
        if i < m { assert FoldsOnto(ws, n, m, h); }
      }
    }
  }

  /** `8 * len` is a power of two exactly when len is. */
  lemma Pow2Times8(len: nat)
    requires len > 0
    ensures IsPow2(8 * len) <==> IsPow2(len)
  {
    assert (8 * len) / 2 == 4 * len && (4 * len) / 2 == 2 * len && (2 * len) / 2 == len;
    assert IsPow2(8 * len) <==> IsPow2(4 * len);
    assert IsPow2(4 * len) <==> IsPow2(2 * len);
    assert IsPow2(2 * len) <==> IsPow2(len);
  }

  /** A set position below m makes the count below m positive. */
  lemma {:induction false} CountSetPositive(ws: seq<Word>, m: nat, i: nat)
    requires i < m <= 64 * |ws| && BitAt(ws, i)
    ensures CountSet(ws, m) > 0
  {
    if i < m - 1 { CountSetPositive(ws, m - 1, i); }
  }

  // ---------------------------------------------------------------- the fingerprint

  class BinaryFingerprint {
    const length: int
    const words: array<Word>

    /** A power-of-two bit length that fits a Java int, and `length / 64` words. */
    ghost predicate Valid()
    {
      0 < length < 0x8000_0000 && IsPow2(length) && words.Length == length / 64
    }

    constructor (n: int, ws: array<Word>)
      requires 0 < n < 0x8000_0000 && IsPow2(n) && ws.Length == n / 64
      ensures Valid() && length == n && words == ws
    {
      length := n;
      words := ws;
    }

    /** At 64 bits or more the words hold exactly `length` positions; below, they hold none. */
    lemma WordsCover()
      requires Valid()
      ensures length >= 64 ==> 64 * words.Length == length
      ensures length < 64 ==> words.Length == 0
    {
      if length >= 64 {
        assert Pow2(6) == 64;
        Pow2Multiple(length, 6);
      }
    }

    /**
     * `new BinaryFingerprint(n)`: n must pass `powerOfTwo`; the words start at
     * zero. `Integer.MIN_VALUE` passes the test but its negative word count
     * faults the allocation.
     */
    static method New(n: Int32) returns (r: Result<BinaryFingerprint, Exception>)
      ensures r.Ok? <==> n > 0 && IsPow2(n)
      ensures r.Err? ==> r.error == (if n == IntMin then NegativeArraySize else IllegalArgument)
      ensures r.Ok? ==> fresh(r.value) && fresh(r.value.words) && r.value.Valid() && r.value.length == n
      ensures r.Ok? ==> forall k :: 0 <= k < r.value.words.Length ==> r.value.words[k] == 0
    {
      if !PowerOfTwo(n) {
        return Err(IllegalArgument);
      }
      if JavaDiv(n, 64) < 0 {
        return Err(NegativeArraySize);
      }
      var ws := new Word[n / 64](_ => 0);
      var fp := new BinaryFingerprint(n, ws);
      r := Ok(fp);
    }

    /** `hash(x)`: `x & (length - 1)`, the low bits of x's two's complement pattern. */
    function Hash(x: Int32): (h: int)
      requires Valid()
      ensures 0 <= h < length && h == U32(x) % length
      ensures x >= 0 ==> h == x % length
    {
      LowBitsMask(x, length);
      And(U32(x), U32(length - 1))
    }

    /**
     * `get(x)`: `(words[x >> 6] & 1L << x) != 0`. The shift takes x modulo 64;
     * a negative x or one past the words faults.
     */
    function Get(x: Int32): (r: Result<bool, Exception>)
      reads words
      requires Valid()
      ensures r.Ok? <==> 0 <= x < 64 * words.Length
      ensures r.Ok? ==> (r.value <==> BitAt(words[..], x))
      ensures r.Err? ==> r.error == ArrayIndexOutOfBounds
    {
      if x < 0 || x / 64 >= words.Length then Err(ArrayIndexOutOfBounds)
      else
        AndMask(words[x / 64], x % 64);
        Ok(WordAnd(words[x / 64], Mask(x % 64)) != 0)
    }

    /** `freq(x)`: 1 for a set bit, 0 for a clear one. */
    function Freq(x: Int32): (r: Result<int, Exception>)
      reads words
      requires Valid()
      ensures r.Ok? <==> Get(x).Ok?
      ensures r.Ok? ==> (r.value == 1 <==> Get(x).value) && (r.value == 0 <==> !Get(x).value)
      ensures r.Err? ==> r.error == Get(x).error
    {
      match Get(x)
      case Ok(b) => Ok(if b then 1 else 0)
      case Err(e) => Err(e)
    }

    /**
     * `add(x)`: sets bit `hash(x)` and returns it; every other bit keeps its
     * value. A fingerprint shorter than 64 bits has no words and faults.
     */
    method Add(x: Int32) returns (r: Result<int, Exception>)
      requires Valid()
      modifies words
      ensures r.Ok? <==> Hash(x) < 64 * words.Length
      ensures r.Ok? ==> r.value == Hash(x)
      ensures r.Ok? ==> forall i :: 0 <= i < 64 * words.Length ==>
        (BitAt(words[..], i) <==> i == r.value || BitAt(old(words[..]), i))
      ensures r.Err? ==> r.error == ArrayIndexOutOfBounds && words[..] == old(words[..])
    {
      var h := Hash(x);
      if h / 64 >= words.Length {
        return Err(ArrayIndexOutOfBounds);
      }
      SetBitAt(words[..], h);
      words[h / 64] := WordOr(words[h / 64], Mask(h % 64));
      r := Ok(h);
    }

    /** `clear(x)`: clears bit x and no other; faults where `get` does. */
    method Clear(x: Int32) returns (r: Result<(), Exception>)
      requires Valid()
      modifies words
      ensures r.Ok? <==> 0 <= x < 64 * words.Length
      ensures r.Ok? ==> forall i :: 0 <= i < 64 * words.Length ==>
        (BitAt(words[..], i) <==> i != x && BitAt(old(words[..]), i))
      ensures r.Ok? ==> Get(x) == Ok(false)
      ensures r.Err? ==> r.error == ArrayIndexOutOfBounds && words[..] == old(words[..])
    {
      if x < 0 || x / 64 >= words.Length {
        return Err(ArrayIndexOutOfBounds);
      }
      ghost var ws := words[..];
      ClearBitAt(ws, x);
      words[x / 64] := WordAnd(words[x / 64], Not(Mask(x % 64)));
      assert words[..] == ws[x / 64 := WordAnd(ws[x / 64], Not(Mask(x % 64)))];
      r := Ok(());
    }

    /** `cardinality()`: the number of set positions. */
    method Cardinality() returns (sum: int)
      requires Valid()
      ensures sum == CountSet(words[..], 64 * words.Length)
    {
      sum := 0;
      for i := 0 to words.Length
        invariant sum == Popcount(words[..i])
      {
        PopcountSnoc(words[..], i);
        sum := sum + BitCount(words[i]);
      }
      PrefixFull(words[..]);
      PopcountPositions(words[..]);
    }

    /** `contains(other)`: every set bit of this fingerprint is set in `other`. */
    method Contains(other: BinaryFingerprint) returns (r: bool)
      requires Valid() && other.Valid() && other.length == length
      ensures r <==> forall i :: 0 <= i < 64 * words.Length ==> BitAt(words[..], i) ==> BitAt(other.words[..], i)
    {
      WordsSubset(words[..], other.words[..]);
      for i := 0 to words.Length
        invariant forall k :: 0 <= k < i ==> SubsetBits(words[k], other.words[k])
      {
        SubsetWord(words[i], other.words[i]);
        if words[i] != WordAnd(words[i], other.words[i]) {
          assert !SubsetBits(words[..][i], other.words[..][i]);
          return false;
        }
      }
      r := true;
    }

    /** `intersects(other)`: some position is set in both; equally, some word AND is non-zero. */
    method Intersects(other: BinaryFingerprint) returns (r: bool)
      requires Valid() && other.Valid() && other.length == length
      ensures r <==> exists i :: 0 <= i < 64 * words.Length && BitAt(words[..], i) && BitAt(other.words[..], i)
      ensures r <==> exists k :: 0 <= k < words.Length && WordAnd(words[k], other.words[k]) != 0
    {
      WordsDisjoint(words[..], other.words[..]);
      for i := 0 to words.Length
        invariant forall k :: 0 <= k < i ==> WordAnd(words[k], other.words[k]) == 0
      {
        if WordAnd(words[i], other.words[i]) != 0 {
          return true;
        }
      }
      r := false;
    }

    /**
     * `xor(fp)`: a fresh fingerprint of the same length whose bits are the
     * exclusive or of the two. A shorter `fp` faults.
     */
    method Xor(fp: BinaryFingerprint) returns (r: Result<BinaryFingerprint, Exception>)
      requires Valid() && fp.Valid()
      ensures r.Ok? <==> words.Length <= fp.words.Length
      ensures r.Err? ==> r.error == ArrayIndexOutOfBounds
      ensures r.Ok? ==> fresh(r.value) && fresh(r.value.words) && r.value.Valid() && r.value.length == length
      ensures r.Ok? ==> forall i :: 0 <= i < 64 * words.Length ==>
        (BitAt(r.value.words[..], i) <==> BitAt(words[..], i) != BitAt(fp.words[..], i))
    {
      if fp.words.Length < words.Length {
        return Err(ArrayIndexOutOfBounds);
      }
      var xor := new Word[words.Length];
      for i := 0 to xor.Length
        invariant forall k :: 0 <= k < i ==> xor[k] == WordXor(words[k], fp.words[k])
      {
        xor[i] := WordXor(words[i], fp.words[i]);
      }
      var res := new BinaryFingerprint(length, xor);
      forall i | 0 <= i < 64 * words.Length
        ensures BitAt(xor[..], i) <==> BitAt(words[..], i) != BitAt(fp.words[..], i)
      {
        assert xor[i / 64] == WordXor(words[i / 64], fp.words[i / 64]);
      }
      r := Ok(res);
    }

    /**
     * `similarity(that, measure)`: the measure of the counts of positions set
     * only here, only in `that`, in both and in neither.
     */
    method Similarity(that: BinaryFingerprint, m: Measure) returns (s: Double)
      requires Valid() && that.Valid() && that.length == length
      ensures var t := Tallies(words[..], that.words[..], length);
        s == Compute(m, t.onlyA, t.onlyB, t.both, t.neither)
    {
      var a, b, both := 0, 0, 0;
      ghost var ands := AndWords(words[..], that.words[..]);
      for i := 0 to words.Length
        invariant a == Popcount(words[..i])
        invariant b == Popcount(that.words[..i])
        invariant both == Popcount(ands[..i])
      {
        PopcountSnoc(words[..], i);
        PopcountSnoc(that.words[..], i);
        PopcountSnoc(ands, i);
        a := a + BitCount(words[i]);
        b := b + BitCount(that.words[i]);
        both := both + BitCount(WordAnd(words[i], that.words[i]));
      }
      PrefixFull(words[..]);
      PrefixFull(that.words[..]);
      PrefixFull(ands);
      var onlyA := a - both;
      var onlyB := b - both;
      var neither := length - (both + onlyA + onlyB);
      s := Compute(m, onlyA, onlyB, both, neither);
    }

    /**
     * `fromBytes(bytes)`: a fingerprint of `8 * bytes.length` bits whose word k
     * is bytes 8k .. 8k+7, least significant first. A byte count that is not a
     * power of two fails the constructor; 1, 2 or 4 bytes give a fingerprint
     * without words, and the first store faults.
     */
    static method FromBytes(bytes: seq<Byte>) returns (r: Result<BinaryFingerprint, Exception>)
      requires |bytes| < 0x1000_0000
      ensures r.Ok? <==> |bytes| >= 8 && IsPow2(|bytes|)
      ensures r.Err? ==> r.error == (if |bytes| > 0 && IsPow2(|bytes|) then ArrayIndexOutOfBounds else IllegalArgument)
      ensures r.Ok? ==> fresh(r.value) && fresh(r.value.words) && r.value.Valid()
      ensures r.Ok? ==> r.value.length == 8 * |bytes| && r.value.words[..] == BytesWords(bytes)
    {
      if |bytes| > 0 {
        Pow2Times8(|bytes|);
      }
      if |bytes| >= 8 && IsPow2(|bytes|) {
        assert Pow2(3) == 8;
        Pow2Multiple(|bytes|, 3);
      }
      var g := New(|bytes| * 8);
      if g.Err? {
        return Err(g.error);
      }
      var fp := g.value;
      var n := 0;
      var i := 0;
      while i < |bytes|
        invariant 0 <= i <= |bytes| && i == 8 * n && n <= fp.words.Length
        invariant fp.Valid() && fp.length == 8 * |bytes| && fresh(fp) && fresh(fp.words)
        invariant forall k :: 0 <= k < n ==> fp.words[k] == AssembleWord(bytes[8 * k .. 8 * k + 8])
      {
        if n >= fp.words.Length || i + 7 >= |bytes| {
          return Err(ArrayIndexOutOfBounds);
        }
        LongOfBytes(bytes[i .. i + 8]);
        fp.words[n] := OrFrom(bytes[i .. i + 8], 0);
        n := n + 1;
        i := i + 8;
      }
      r := Ok(fp);
    }

    /**
     * `valueOf(words, len)`: a fingerprint of `len` bits over a copy of the
     * first `len / 64` words, padded with zero words. The copy is taken before
     * the length is checked, so a negative word count faults first.
     */
    static method ValueOf(ws: seq<Word>, len: Int32) returns (r: Result<BinaryFingerprint, Exception>)
      ensures r.Ok? <==> len > 0 && IsPow2(len)
      ensures r.Err? ==> r.error == (if len <= -64 then NegativeArraySize else IllegalArgument)
      ensures r.Ok? ==> fresh(r.value) && fresh(r.value.words) && r.value.Valid() && r.value.length == len
      ensures r.Ok? ==> r.value.words[..] == CopyOf(ws, len / 64)
    {
      var m := JavaDiv(len, 64);
      if m < 0 {
        return Err(NegativeArraySize);
      }
      var copy := new Word[m](k requires 0 <= k < m => if k < |ws| then ws[k] else 0);
      if !PowerOfTwo(len) {
        return Err(IllegalArgument);
      }
      var fp := new BinaryFingerprint(len, copy);
      r := Ok(fp);
    }

    /**
     * `fold(n)`: a fresh n-bit fingerprint with bit `i % n` set for every set
     * bit i. Reading bit 0 of a fingerprint without words faults, and so does
     * adding a bit to an n-bit fold without words.
     */
    method Fold(n: Int32) returns (r: Result<BinaryFingerprint, Exception>)
      requires Valid()
      ensures r.Ok? <==> n > 0 && IsPow2(n) && length >= 64 && (n >= 64 || CountSet(words[..], 64 * words.Length) == 0)
      ensures r.Err? && !(n > 0 && IsPow2(n)) ==> r.error == (if n == IntMin then NegativeArraySize else IllegalArgument)
      ensures r.Err? && n > 0 && IsPow2(n) ==> r.error == ArrayIndexOutOfBounds
      ensures r.Ok? ==> fresh(r.value) && fresh(r.value.words) && r.value.Valid() && r.value.length == n
      ensures r.Ok? ==> forall h :: 0 <= h < 64 * r.value.words.Length ==>
        (BitAt(r.value.words[..], h) <==> FoldsOnto(words[..], n, 64 * words.Length, h))
    {
      var g := New(n);
      if g.Err? {
        return Err(g.error);
      }
      var fp := g.value;
      WordsCover();
      forall h | 0 <= h < 64 * fp.words.Length ensures !BitAt(fp.words[..], h) {
        ZeroBits(h % 64);
      }
      var i := 0;
      while i < length
        invariant 0 <= i <= length && i <= 64 * words.Length
        invariant i > 0 ==> length >= 64
        invariant fp.Valid() && fp.length == n && fresh(fp) && fresh(fp.words)
        invariant forall h :: 0 <= h < 64 * fp.words.Length ==>
          (BitAt(fp.words[..], h) <==> FoldsOnto(words[..], n, i, h))
        invariant n < 64 ==> CountSet(words[..], i) == 0
      {
        var b := Get(i);
        if b.Err? {
          return Err(b.error);
        }
        FoldsStep(words[..], n, i);
        if b.value {
          var a := fp.Add(i);
          if a.Err? {
            fp.WordsCover();
            CountSetPositive(words[..], 64 * words.Length, i);
            return Err(a.error);
          }
        }
        i := i + 1;
      }
      r := Ok(fp);
    }

    /** `toByteArray()`: eight bytes per word, least significant first. */
    method ToByteArray() returns (bs: array<Byte>)
      requires Valid()
      ensures fresh(bs) && bs[..] == WordsBytes(words[..])
    {
      bs := new Byte[words.Length * 8];
      var i := 0;
      for k := 0 to words.Length
        invariant i == 8 * k
        invariant forall t :: 0 <= t < i ==> bs[t] == ByteOf(words[t / 8], t % 8)
      {
        var word: nat := words[k];
        for j := 0 to 8
          invariant i == 8 * k + j
          invariant word == ShiftBytes(words[k], j)
          invariant forall t :: 0 <= t < i ==> bs[t] == ByteOf(words[t / 8], t % 8)
        {
          ByteOfShift(words[k], j);
          assert i / 8 == k && i % 8 == j;
          bs[i] := word % 256;
          i := i + 1;
          word := word / 256;
        }
      }
    }

    /**
     * `toHex()`: per word, per byte from the least significant,
     * `Long.toHexString(word & 0xff)` padded to two digits.
     */
    method ToHex() returns (s: string)
      requires Valid()
      ensures s == EncodeHex(words[..])
    {
      s := [];
      for k := 0 to words.Length
        invariant s == EncodeHex(words[..k])
      {
        EncodeHexSnoc(words[..], k + 1);
        PrefixPrefix(words[..], k + 1, k);
        s := AppendLongHex(s, words[k]);
      }
      PrefixFull(words[..]);
    }
  }

  /** The body of `toHex`'s outer loop. */
  method AppendLongHex(sb: string, w: Word) returns (out: string)
    ensures out == sb + WordHex(w)
  {
    out := sb;
    var word: nat := w;
    for j := 0 to 8
      invariant out == sb + BytesHex(Bytes(w)[..j])
      invariant word == ShiftBytes(w, j)
    {
      var hex := LongHex(word % 256);
      LongHexStep(w, j, word);
      ConcatAssoc(sb, BytesHex(Bytes(w)[..j]), PadHex(hex));
      if |hex| < 2 {
        ConcatAssoc(out, ['0'], hex);
        out := out + ['0'];
      }
      out := out + hex;
      word := word / 256;
    }
    PrefixFull(Bytes(w));
  }

  /** `toHex`'s padding: a single digit gets a leading '0'. */
  function PadHex(hex: seq<char>): seq<char>
  {
    if |hex| < 2 then ['0'] + hex else hex
  }

  /** The padded `toHexString` of byte j extends the hex of bytes 0 .. j-1. */
  lemma LongHexStep(w: Word, j: nat, word: nat)
    requires j < 8 && word == ShiftBytes(w, j)
    ensures BytesHex(Bytes(w)[..j + 1]) == BytesHex(Bytes(w)[..j]) + PadHex(LongHex(word % 256))
  {
    WordHexStep(w, j, word);
    PaddedHex(word % 256);
    Nibbles(word);
  }
}
