// Java `long` words as unsigned 64-bit patterns.
//
// A `long` is modelled as a natural number below 2^64 that reads its two's
// complement bit pattern as unsigned. The bitwise operators the source uses
// (`&`, `|`, `^`, `~`, `1L << h`, `>>> 8`, `& 0xff`, `Long.bitCount`) are
// defined bit by bit, and every fact about them is proved from the single
// notion `Bit(w, i)`.

module Words {

  /** 2^n. */
  function Pow2(n: nat): (p: nat)
    ensures p >= 1
  {
    if n == 0 then 1 else 2 * Pow2(n - 1)
  }

  const WordBound: nat := 0x1_0000_0000_0000_0000

  /** A Java `long` seen as an unsigned bit pattern. */
  type Word = w: nat | w < WordBound

  /** A Java `byte` seen as an unsigned bit pattern (`b & 0xff`). */
  type Byte = b: nat | b < 256

  lemma Pow2Word()
    ensures Pow2(8) == 256 && Pow2(64) == WordBound
  {
    Pow2Byte();
    Pow2Square(8, 256);
    Pow2Square(16, 0x1_0000);
    Pow2Square(32, 0x1_0000_0000);
  }

  lemma Pow2Byte()
    ensures Pow2(8) == 256
  {}

  lemma Pow2Square(k: nat, v: nat)
    requires Pow2(k) == v
    ensures Pow2(k + k) == v * v
  {
    Pow2Add(k, k);
  }

  lemma {:induction false} Pow2Add(a: nat, b: nat)
    ensures Pow2(a + b) == Pow2(a) * Pow2(b)
  {
    if b > 0 {
      Pow2Add(a, b - 1);
      assert Pow2(a + b) == 2 * Pow2(a + b - 1);
    }
  }

  lemma {:induction false} Pow2Monotone(k: nat, n: nat)
    requires k <= n
    ensures Pow2(k) <= Pow2(n)
  {
    if k < n { Pow2Monotone(k, n - 1); }
  }

  // ---------------------------------------------------------------- bits

  /** Bit `i` of `w`; bit 0 is the least significant. */
  predicate Bit(w: nat, i: nat)
  {
    if i == 0 then w % 2 == 1 else Bit(w / 2, i - 1)
  }

  lemma {:induction false} ZeroBits(i: nat)
    ensures !Bit(0, i)
  {
    if i > 0 { ZeroBits(i - 1); }
  }

  /** Bits at or above n of a value below 2^n are clear. */
  lemma {:induction false} HighBits(w: nat, n: nat, i: nat)
    requires w < Pow2(n) && n <= i
    ensures !Bit(w, i)
  {
    if w == 0 {
      ZeroBits(i);
    } else {
      HighBits(w / 2, n - 1, i - 1);
    }
  }

  /** The only bit of 2^h is bit h: Java's `1L << h` for 0 <= h < 64. */
  lemma {:induction false} Pow2Bit(h: nat, i: nat)
    ensures Bit(Pow2(h), i) <==> i == h
  {
    if i == 0 {
    } else if h == 0 {
      ZeroBits(i - 1);
    } else {
      Pow2Bit(h - 1, i - 1);
    }
  }

  /** Values below 2^n with the same bits below n are equal. */
  lemma {:induction false} Extensional(x: nat, y: nat, n: nat)
    requires x < Pow2(n) && y < Pow2(n)
    requires forall i: nat :: i < n ==> Bit(x, i) == Bit(y, i)
    ensures x == y
  {
    if n > 0 {
      assert Bit(x, 0) == Bit(y, 0);
      forall i: nat | i < n - 1 ensures Bit(x / 2, i) == Bit(y / 2, i) {
        assert Bit(x, i + 1) == Bit(y, i + 1);
      }
      Extensional(x / 2, y / 2, n - 1);
    }
  }

  // ---------------------------------------------------------------- operators

  /** Java's `x & y`. */
  function And(x: nat, y: nat): nat
    decreases x
  {
    if x == 0 || y == 0 then 0
    else 2 * And(x / 2, y / 2) + (if x % 2 == 1 && y % 2 == 1 then 1 else 0)
  }

  /** Java's `x | y`. */
  function Or(x: nat, y: nat): nat
    decreases x + y
  {
    if x == 0 then y
    else if y == 0 then x
    else 2 * Or(x / 2, y / 2) + (if x % 2 == 1 || y % 2 == 1 then 1 else 0)
  }

  /** Java's `x ^ y`. */
  function Xor(x: nat, y: nat): nat
    decreases x + y
  {
    if x == 0 then y
    else if y == 0 then x
    else 2 * Xor(x / 2, y / 2) + (if x % 2 != y % 2 then 1 else 0)
  }

  /** Java's `~x` on a `long`. */
  function Not(x: Word): Word
  {
    WordBound - 1 - x
  }

  lemma {:induction false} AndBit(x: nat, y: nat, i: nat)
    ensures Bit(And(x, y), i) <==> Bit(x, i) && Bit(y, i)
    decreases x
  {
    if x == 0 {
      ZeroBits(i);
    } else if y == 0 {
      ZeroBits(i);
    } else if i > 0 {
      AndBit(x / 2, y / 2, i - 1);
    }
  }

  lemma {:induction false} OrBit(x: nat, y: nat, i: nat)
    ensures Bit(Or(x, y), i) <==> Bit(x, i) || Bit(y, i)
    decreases x + y
  {
    if x == 0 {
      ZeroBits(i);
    } else if y == 0 {
      ZeroBits(i);
    } else if i > 0 {
      OrBit(x / 2, y / 2, i - 1);
    }
  }

  lemma {:induction false} XorBit(x: nat, y: nat, i: nat)
    ensures Bit(Xor(x, y), i) <==> Bit(x, i) != Bit(y, i)
    decreases x + y
  {
    if x == 0 {
      ZeroBits(i);
    } else if y == 0 {
      ZeroBits(i);
    } else if i > 0 {
      XorBit(x / 2, y / 2, i - 1);
    }
  }

  lemma {:induction false} ComplementBit(x: nat, n: nat, i: nat)
    requires x < Pow2(n) && i < n
    ensures Bit(Pow2(n) - 1 - x, i) <==> !Bit(x, i)
  {
    if i > 0 {
      assert (Pow2(n) - 1 - x) / 2 == Pow2(n - 1) - 1 - x / 2;
      ComplementBit(x / 2, n - 1, i - 1);
    }
  }

  lemma NotBit(x: Word, i: nat)
    requires i < 64
    ensures Bit(Not(x), i) <==> !Bit(x, i)
  {
    Pow2Word();
    ComplementBit(x, 64, i);
  }

  lemma {:induction false} AndBound(x: nat, y: nat)
    ensures And(x, y) <= x && And(x, y) <= y
    decreases x
  {
    if x != 0 && y != 0 { AndBound(x / 2, y / 2); }
  }

  lemma {:induction false} OrBound(x: nat, y: nat, n: nat)
    requires x < Pow2(n) && y < Pow2(n)
    ensures Or(x, y) < Pow2(n)
    decreases x + y
  {
    if x != 0 && y != 0 { OrBound(x / 2, y / 2, n - 1); }
  }

  lemma {:induction false} XorBound(x: nat, y: nat, n: nat)
    requires x < Pow2(n) && y < Pow2(n)
    ensures Xor(x, y) < Pow2(n)
    decreases x + y
  {
    if x != 0 && y != 0 { XorBound(x / 2, y / 2, n - 1); }
  }

  function WordAnd(x: Word, y: Word): (r: Word)
    ensures forall i: nat :: Bit(r, i) <==> Bit(x, i) && Bit(y, i)
  {
    AndBound(x, y);
    forall i: nat ensures Bit(And(x, y), i) <==> Bit(x, i) && Bit(y, i) { AndBit(x, y, i); }
    And(x, y)
  }

  function WordOr(x: Word, y: Word): (r: Word)
    ensures forall i: nat :: Bit(r, i) <==> Bit(x, i) || Bit(y, i)
  {
    Pow2Word();
    OrBound(x, y, 64);
    forall i: nat ensures Bit(Or(x, y), i) <==> Bit(x, i) || Bit(y, i) { OrBit(x, y, i); }
    Or(x, y)
  }

  function WordXor(x: Word, y: Word): (r: Word)
    ensures forall i: nat :: Bit(r, i) <==> Bit(x, i) != Bit(y, i)
  {
    Pow2Word();
    XorBound(x, y, 64);
    forall i: nat ensures Bit(Xor(x, y), i) <==> Bit(x, i) != Bit(y, i) { XorBit(x, y, i); }
    Xor(x, y)
  }

  /** Xor-ing twice with the same value gives the other operand back. */
  lemma XorCancel(a: Word, b: Word)
    ensures WordXor(WordXor(a, b), a) == b && WordXor(WordXor(a, b), b) == a
  {
    var x := WordXor(a, b);
    WordExtensional(WordXor(x, a), b);
    WordExtensional(WordXor(x, b), a);
  }

  /** Java's `1L << h` for 0 <= h < 64. */
  function Mask(h: nat): (m: Word)
    requires h < 64
    ensures forall i: nat :: Bit(m, i) <==> i == h
  {
    Pow2Word();
    Pow2Monotone(h + 1, 64);
    forall i: nat ensures Bit(Pow2(h), i) <==> i == h { Pow2Bit(h, i); }
    Pow2(h)
  }

  /** Two words are equal exactly when they have the same 64 bits. */
  lemma WordExtensional(x: Word, y: Word)
    requires forall i: nat :: i < 64 ==> Bit(x, i) == Bit(y, i)
    ensures x == y
  {
    Pow2Word();
    Extensional(x, y, 64);
  }

  /** A word has a bit at or above 64 never. */
  lemma WordHighBits(w: Word, i: nat)
    requires 64 <= i
    ensures !Bit(w, i)
  {
    Pow2Word();
    HighBits(w, 64, i);
  }

  /** Every bit of x is a bit of y. */
  predicate SubsetBits(x: Word, y: Word)
  {
    forall i: nat :: i < 64 ==> (Bit(x, i) ==> Bit(y, i))
  }

  /** No bit of x is set. */
  predicate NoBits(x: Word)
  {
    forall i: nat :: i < 64 ==> !Bit(x, i)
  }

  /** `x == (x & y)` exactly when every bit of x is a bit of y. */
  lemma SubsetWord(x: Word, y: Word)
    ensures x == WordAnd(x, y) <==> SubsetBits(x, y)
  {
    var r := WordAnd(x, y);
    if SubsetBits(x, y) {
      WordExtensional(x, r);
    }
    if x == r {
      forall i: nat | i < 64 ensures Bit(x, i) ==> Bit(y, i) {
        assert Bit(r, i) <==> Bit(x, i) && Bit(y, i);
      }
    }
  }

  /** A word is zero exactly when no bit is set. */
  lemma ZeroWord(x: Word)
    ensures x == 0 <==> NoBits(x)
  {
    if NoBits(x) {
      forall i: nat | i < 64 ensures Bit(x, i) == Bit(0, i) { ZeroBits(i); }
      WordExtensional(x, 0);
    }
    if x == 0 {
      forall i: nat | i < 64 ensures !Bit(x, i) { ZeroBits(i); }
    }
  }

  // ---------------------------------------------------------------- popcount

  /** Number of set bits among bits 0..n-1 of `w`. */
  function CountBelow(w: nat, n: nat): (c: nat)
    ensures c <= n
  {
    if n == 0 then 0 else CountBelow(w, n - 1) + (if Bit(w, n - 1) then 1 else 0)
  }

  /** Java's `Long.bitCount`. */
  function BitCount(w: nat): nat
  {
    if w == 0 then 0 else w % 2 + BitCount(w / 2)
  }

  lemma {:induction false} CountBelowHalf(w: nat, n: nat)
    requires n > 0
    ensures CountBelow(w, n) == w % 2 + CountBelow(w / 2, n - 1)
  {
    if n > 1 {
      CountBelowHalf(w, n - 1);
    }
  }

  /** `Long.bitCount` counts the set bits of a value below 2^n. */
  lemma {:induction false} BitCountBelow(w: nat, n: nat)
    requires w < Pow2(n)
    ensures BitCount(w) == CountBelow(w, n)
  {
    if n == 0 {
    } else {
      CountBelowHalf(w, n);
      BitCountBelow(w / 2, n - 1);
    }
  }

  lemma WordBitCount(w: Word)
    ensures BitCount(w) == CountBelow(w, 64) <= 64
  {
    Pow2Word();
    BitCountBelow(w, 64);
  }

  // ---------------------------------------------------------------- bytes

  /** Byte `j` of `w`, least significant first: `(w >>> 8j) & 0xff`. */
  function ByteOf(w: nat, j: nat): Byte
  {
    if j == 0 then w % 256 else ByteOf(w / 256, j - 1)
  }

  /** The value whose bytes, least significant first, are `b`. */
  function Assemble(b: seq<Byte>): nat
  {
    if b == [] then 0 else b[0] + 256 * Assemble(b[1..])
  }

  /** The eight bytes of a word, least significant first. */
  function Bytes(w: Word): (b: seq<Byte>)
    ensures |b| == 8
  {
    seq(8, j requires 0 <= j < 8 => ByteOf(w, j))
  }

  lemma {:induction false} AssembleBound(b: seq<Byte>)
    ensures Assemble(b) < Pow2(8 * |b|)
  {
    if b != [] {
      AssembleBound(b[1..]);
      Pow2Add(8, 8 * (|b| - 1));
      Pow2Word();
    }
  }

  lemma {:induction false} ByteOfAssemble(b: seq<Byte>, j: nat)
    requires j < |b|
    ensures ByteOf(Assemble(b), j) == b[j]
  {
    if j > 0 {
      ByteOfAssemble(b[1..], j - 1);
    }
  }

  lemma {:induction false} AssembleBytesOf(w: nat, n: nat)
    requires w < Pow2(8 * n)
    ensures Assemble(seq(n, j requires 0 <= j < n => ByteOf(w, j))) == w
  {
    if n > 0 {
      var s := seq(n, j requires 0 <= j < n => ByteOf(w, j));
      var t := seq(n - 1, j requires 0 <= j < n - 1 => ByteOf(w / 256, j));
      assert s[1..] == t;
      Pow2Add(8, 8 * (n - 1));
      Pow2Word();
      DivBound(w, 256, Pow2(8 * (n - 1)));
      AssembleBytesOf(w / 256, n - 1);
    }
  }

  lemma DivBound(w: nat, d: nat, p: nat)
    requires 0 < d && w < d * p
    ensures w / d < p && w == d * (w / d) + w % d
  {}

  /** Splitting a word into bytes and putting them back restores it. */
  lemma AssembleBytes(w: Word)
    ensures Assemble(Bytes(w)) == w
  {
    Pow2Word();
    AssembleBytesOf(w, 8);
  }

  /** Assembling eight bytes gives a word whose bytes are those eight. */
  lemma BytesAssemble(b: seq<Byte>)
    requires |b| == 8
    ensures Assemble(b) < WordBound && Bytes(Assemble(b)) == b
  {
    AssembleBound(b);
    Pow2Word();
    forall j | 0 <= j < 8 ensures Bytes(Assemble(b))[j] == b[j] { ByteOfAssemble(b, j); }
  }

  /** Bit k of byte j of w is bit 8j + k of w: the byte order is little-endian. */
  lemma {:induction false} ByteBit(w: nat, j: nat, k: nat)
    requires k < 8
    ensures Bit(ByteOf(w, j), k) <==> Bit(w, 8 * j + k)
  {
    if j == 0 {
      LowBits(w, k);
    } else {
      ByteBit(w / 256, j - 1, k);
      Shift8(w, 8 * (j - 1) + k);
    }
  }

  /** The low 8 bits of w % 256 are those of w. */
  lemma LowBits(w: nat, k: nat)
    requires k < 8
    ensures Bit(w % 256, k) <==> Bit(w, k)
  {
    Pow2Word();
    assert w == 256 * (w / 256) + w % 256;
    LowBitsOf(w / 256, w % 256, 8, k);
  }

  /** Adding a multiple of 2^n does not change the bits below n. */
  lemma {:induction false} LowBitsOf(q: nat, r: nat, n: nat, k: nat)
    requires k < n
    ensures Bit(Pow2(n) * q + r, k) <==> Bit(r, k)
  {
    var m := Pow2(n - 1) * q;
    assert Pow2(n) * q == 2 * m;
    if k > 0 {
      assert (2 * m + r) / 2 == m + r / 2;
      LowBitsOf(q, r / 2, n - 1, k - 1);
    }
  }

  /** Bit i of w / 256 is bit i + 8 of w. */
  lemma {:induction false} Shift8(w: nat, i: nat)
    ensures Bit(w / 256, i) <==> Bit(w, i + 8)
  {
    assert w / 4 == w / 2 / 2;
    assert w / 8 == w / 4 / 2;
    assert w / 16 == w / 8 / 2;
    assert w / 32 == w / 16 / 2;
    assert w / 64 == w / 32 / 2;
    assert w / 128 == w / 64 / 2;
    assert w / 256 == w / 128 / 2;
    Shift1(w / 128, i);
    Shift1(w / 64, i + 1);
    Shift1(w / 32, i + 2);
    Shift1(w / 16, i + 3);
    Shift1(w / 8, i + 4);
    Shift1(w / 4, i + 5);
    Shift1(w / 2, i + 6);
    Shift1(w, i + 7);
  }

  lemma Shift1(w: nat, i: nat)
    ensures Bit(w / 2, i) <==> Bit(w, i + 1)
  {}

  lemma MulShift(b: nat, k: nat, p: nat)
    ensures b * (k * p) == k * (b * p)
  {}

  /** Assembling one more byte adds it at the next byte position. */
  lemma {:induction false} AssembleAppend(bs: seq<Byte>, b: Byte)
    ensures Assemble(bs + [b]) == Assemble(bs) + b * Pow2(8 * |bs|)
  {
    if bs != [] {
      var p := Pow2(8 * (|bs| - 1));
      assert (bs + [b])[1..] == bs[1..] + [b];
      AssembleAppend(bs[1..], b);
      Pow2Add(8, 8 * (|bs| - 1));
      Pow2Word();
      assert Pow2(8 * |bs|) == 256 * p;
      MulShift(b, 256, p);
    }
  }

  /** OR with a value shifted above x is addition. */
  lemma {:induction false} OrDisjoint(x: nat, y: nat, n: nat)
    requires x < Pow2(n)
    ensures Or(x, y * Pow2(n)) == x + y * Pow2(n)
  {
    if x != 0 && y != 0 {
      var m := y * Pow2(n - 1);
      MulShift(y, 2, Pow2(n - 1));
      assert y * Pow2(n) == 2 * m;
      OrDisjoint(x / 2, y, n - 1);
      assert Or(x, 2 * m) == 2 * Or(x / 2, m) + x % 2;
    }
  }

  /** `w >>> 8 * j`, one byte at a time. */
  function ShiftBytes(w: nat, j: nat): nat
  {
    if j == 0 then w else ShiftBytes(w, j - 1) / 256
  }

  lemma {:induction false} ShiftBytesFront(w: nat, j: nat)
    ensures ShiftBytes(w / 256, j) == ShiftBytes(w, j + 1)
  {
    if j > 0 { ShiftBytesFront(w, j - 1); }
  }

  /** Byte j of w is the low byte of w shifted right by j bytes. */
  lemma {:induction false} ByteOfShift(w: nat, j: nat)
    ensures ByteOf(w, j) == ShiftBytes(w, j) % 256
  {
    if j > 0 {
      ByteOfShift(w / 256, j - 1);
      ShiftBytesFront(w, j - 1);
    }
  }

  /** Java's `x << k`, before any truncation to the word. */
  function ShiftLeft(x: nat, k: nat): nat
  {
    if k == 0 then x else 2 * ShiftLeft(x, k - 1)
  }

  lemma {:induction false} ShiftLeftMul(x: nat, k: nat)
    ensures ShiftLeft(x, k) == x * Pow2(k)
  {
    if k > 0 {
      ShiftLeftMul(x, k - 1);
      MulShift(x, 2, Pow2(k - 1));
    }
  }

  // ---------------------------------------------------------------- Java ints

  /** A Java `int`. */
  type Int32 = x: int | -0x8000_0000 <= x < 0x8000_0000

  /** The 32-bit two's complement pattern of x, read unsigned. */
  function U32(x: int): (u: nat)
    ensures u < 0x1_0000_0000
  {
    x % 0x1_0000_0000
  }

  /** Java's `int` arithmetic: the result of an operation wrapped to 32 bits. */
  function ToInt32(x: int): (r: Int32)
    ensures U32(r) == U32(x)
  {
    if U32(x) < 0x8000_0000 then U32(x) else U32(x) - 0x1_0000_0000
  }

  /** An `int` is its own wrapped value. */
  lemma WrapInt32(x: Int32)
    ensures ToInt32(x) == x
  {}

  /** Wrapping between additions changes nothing: `int` addition is addition modulo 2^32. */
  lemma WrapAdd(a: int, b: int)
    ensures ToInt32(ToInt32(a) + b) == ToInt32(a + b)
  {
    var r := ToInt32(a);
    assert (r - a) % 0x1_0000_0000 == 0;
    assert U32(r + b) == U32(a + b);
  }

  /** Java's `a / b` for b > 0: the quotient truncated toward zero. */
  function JavaDiv(a: int, b: int): (q: int)
    requires b > 0
    ensures a >= 0 ==> q == a / b
    ensures a < 0 ==> q <= 0 && -b < a - q * b <= 0
  {
    if a >= 0 then a / b else -((-a) / b)
  }

  /** x is a power of two. */
  predicate IsPow2(x: nat)
  {
    x == 1 || (x > 1 && x % 2 == 0 && IsPow2(x / 2))
  }

  lemma {:induction false} AndSelf(y: nat)
    ensures And(y, y) == y
  {
    if y != 0 { AndSelf(y / 2); }
  }

  /** `(x & (x - 1)) == 0` exactly when the positive x is a power of two. */
  lemma {:induction false} AndPred(x: nat)
    requires x >= 1
    ensures And(x, x - 1) == 0 <==> IsPow2(x)
  {
    if x > 1 {
      if x % 2 == 0 {
        assert (x - 1) / 2 == x / 2 - 1;
        AndPred(x / 2);
      } else {
        assert (x - 1) / 2 == x / 2;
        AndSelf(x / 2);
      }
    }
  }

  /** The only power of two in [p, 2p) is p. */
  lemma {:induction false} Pow2Between(u: nat, p: nat)
    requires IsPow2(p) && p <= u < 2 * p
    ensures IsPow2(u) <==> u == p
  {
    if p > 1 && IsPow2(u) {
      Pow2Between(u / 2, p / 2);
    }
  }

  lemma DivModUnique(v: nat, p: nat, q: nat, r: nat)
    requires 0 <= r < p && v == q * p + r
    ensures v % p == r && v / p == q
  {
    var q', r' := v / p, v % p;
    assert v == q' * p + r';
    if q' > q {
      assert (q' - q) * p == q' * p - q * p;
      MulAtLeast(q' - q, p);
    } else if q' < q {
      assert (q - q') * p == q * p - q' * p;
      MulAtLeast(q - q', p);
    }
  }

  lemma MulAtLeast(k: nat, p: nat)
    requires k >= 1
    ensures k * p >= p
  {}

  /** `v & (p - 1)` is `v % p` for a power of two p. */
  lemma {:induction false} AndLowMask(v: nat, p: nat)
    requires IsPow2(p)
    ensures And(v, p - 1) == v % p
    decreases p
  {
    if p > 1 && v != 0 {
      var h := p / 2;
      AndLowMask(v / 2, h);
      AndHalfMask(v, p);
      HalfSplit(v, p);
    }
  }

  lemma AndHalfMask(v: nat, p: nat)
    requires p > 1 && p % 2 == 0 && v != 0
    ensures And(v, p - 1) == 2 * And(v / 2, p / 2 - 1) + v % 2
  {
    assert (p - 1) / 2 == p / 2 - 1 && (p - 1) % 2 == 1;
  }

  lemma HalfSplit(v: nat, p: nat)
    requires p > 1 && p % 2 == 0
    ensures v % p == 2 * ((v / 2) % (p / 2)) + v % 2
  {
    var h := p / 2;
    var q, r := (v / 2) / h, (v / 2) % h;
    assert v == q * p + (2 * r + v % 2);
    DivModUnique(v, p, q, 2 * r + v % 2);
  }

  /** A power of two at least 2^k is a multiple of 2^k. */
  lemma {:induction false} Pow2Multiple(x: nat, k: nat)
    requires IsPow2(x) && x >= Pow2(k)
    ensures x % Pow2(k) == 0
  {
    if k > 0 {
      var c := (x / 2) / Pow2(k - 1);
      Pow2Multiple(x / 2, k - 1);
      assert x / 2 == c * Pow2(k - 1);
      assert x == c * Pow2(k);
      DivModUnique(x, Pow2(k), c, 0);
    }
  }

  // ---------------------------------------------------------------- counting two words

  /** Per bit, |x| + |y| = |x & y| + |x | y|. */
  lemma {:induction false} CountBelowUnion(x: nat, y: nat, n: nat)
    ensures CountBelow(x, n) + CountBelow(y, n) == CountBelow(And(x, y), n) + CountBelow(Or(x, y), n)
    ensures CountBelow(And(x, y), n) <= CountBelow(x, n)
    ensures CountBelow(And(x, y), n) <= CountBelow(y, n)
  {
    if n > 0 {
      CountBelowUnion(x, y, n - 1);
      AndBit(x, y, n - 1);
      OrBit(x, y, n - 1);
    }
  }

  /** `bitCount(x) + bitCount(y) == bitCount(x & y) + bitCount(x | y)`, and `x & y` has no more bits than either. */
  lemma WordCountUnion(x: Word, y: Word)
    ensures BitCount(x) + BitCount(y) == BitCount(WordAnd(x, y)) + BitCount(WordOr(x, y))
    ensures BitCount(WordAnd(x, y)) <= BitCount(x) && BitCount(WordAnd(x, y)) <= BitCount(y)
  {
    WordBitCount(x);
    WordBitCount(y);
    WordBitCount(WordAnd(x, y));
    WordBitCount(WordOr(x, y));
    CountBelowUnion(x, y, 64);
  }

  // ---------------------------------------------------------------- more operator facts

  lemma {:induction false} OrComm(x: nat, y: nat)
    ensures Or(x, y) == Or(y, x)
    decreases x + y
  {
    if x != 0 && y != 0 { OrComm(x / 2, y / 2); }
  }

  /** Shifting both operands left by n shifts their OR. */
  lemma {:induction false} OrShift(x: nat, y: nat, n: nat)
    ensures Or(ShiftLeft(x, n), ShiftLeft(y, n)) == ShiftLeft(Or(x, y), n)
  {
    if n > 0 {
      OrShift(x, y, n - 1);
      OrDouble(ShiftLeft(x, n - 1), ShiftLeft(y, n - 1));
    }
  }

  lemma OrDouble(a: nat, b: nat)
    ensures Or(2 * a, 2 * b) == 2 * Or(a, b)
  {}

  /** `(w & 1L << k) != 0` tests bit k. */
  lemma AndMask(w: Word, k: nat)
    requires k < 64
    ensures WordAnd(w, Mask(k)) != 0 <==> Bit(w, k)
  {
    ZeroWord(WordAnd(w, Mask(k)));
  }

  lemma {:induction false} ShiftLeftAdd(x: nat, a: nat, b: nat)
    ensures ShiftLeft(x, a + b) == ShiftLeft(ShiftLeft(x, a), b)
  {
    if b > 0 { ShiftLeftAdd(x, a, b - 1); }
  }
}
