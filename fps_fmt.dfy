// The hex codec of the chemfp FPS 1.0 format (`FpsFmt`).
//
// A fingerprint of n words is written as 16n hex characters. Each word is
// written least-significant byte first, and each byte as two lowercase
// digits, high nibble first. Reading decodes with a 103 x 103 lookup table
// (`ints[hi][lo]`) built by `genArray`, whose quirks are modelled: a non-hex
// low digit reads as 0, and a non-hex high digit or any char above 'f' faults.

module FpsFmt {
  import opened Wrappers
  import opened Words
  import opened ByteBuffers

  /** `FpsFmt.hex`. */
  const HexDigits: seq<char> := "0123456789abcdef"

  /** The characters `genArray` and `genSwitch` iterate over. */
  const HexAlphabet: seq<char> := "0123456789ABCDEFabcdef"

  /** Rows and columns of the lookup table: `'f' + 1`. */
  const TableSize: nat := 'f' as int + 1

  function HexDigit(n: nat): char
    requires n < 16
  {
    HexDigits[n]
  }

  predicate IsHexChar(c: char)
  {
    '0' <= c <= '9' || 'a' <= c <= 'f' || 'A' <= c <= 'F'
  }

  /** `hexToNibble`: the value of one hex digit of either case; `None` where Java throws. */
  function HexToNibble(c: char): (r: Option<nat>)
    ensures r.Some? <==> IsHexChar(c)
    ensures r.Some? ==> r.value < 16
  {
    if '0' <= c <= '9' then Some(c as int - '0' as int)
    else if 'a' <= c <= 'f' then Some(c as int - 'a' as int + 10)
    else if 'A' <= c <= 'F' then Some(c as int - 'A' as int + 10)
    else None
  }

  function Lower(c: char): char
  {
    if 'A' <= c <= 'Z' then (c as int - 'A' as int + 'a' as int) as char else c
  }

  /** A hex digit of either case reads as the value whose lowercase digit it is. */
  lemma NibbleDigit(c: char)
    requires IsHexChar(c)
    ensures HexDigit(HexToNibble(c).value) == Lower(c)
  {}

  /** Every lowercase digit written reads back as its value, and so does its uppercase form. */
  lemma NibbleRoundTrip(n: nat)
    requires n < 16
    ensures HexToNibble(HexDigit(n)) == Some(n)
    ensures n >= 10 ==> HexToNibble((n - 10 + 'A' as int) as char) == Some(n)
  {}

  /** `Integer.parseInt(new String(new char[]{c1, c2}), 16)` for two hex digits. */
  function ParseHex2(c1: char, c2: char): (v: nat)
    requires IsHexChar(c1) && IsHexChar(c2)
    ensures v < 256
  {
    16 * HexToNibble(c1).value + HexToNibble(c2).value
  }

  /** `ints[c1][c2]` of the table `genArray` builds. */
  function Cell(c1: char, c2: char): (v: nat)
    requires IsHexChar(c1)
    ensures v < 256
  {
    if IsHexChar(c2) then ParseHex2(c1, c2) else 0
  }

  type Table = seq<Option<seq<int>>>

  /** Row `c1` of the table: `ints[c1][c2]` for every c2 up to 'f'. */
  function Row(c1: char): (row: seq<int>)
    requires IsHexChar(c1)
    ensures |row| == TableSize
  {
    seq(TableSize, d requires 0 <= d < TableSize => Cell(c1, d as char))
  }

  /** The table `ints` holds: a row for each hex char of either case, `null` for every other char up to 'f'. */
  function HexTable(): (xs: Table)
    ensures |xs| == TableSize
  {
    seq(TableSize, c requires 0 <= c < TableSize => if IsHexChar(c as char) then Some(Row(c as char)) else None)
  }

  /** The entries of the table: the value of the pair for two hex chars, 0 for a bad low char. */
  lemma HexTableCells(c1: char, c2: char)
    requires c1 as int < TableSize && c2 as int < TableSize
    ensures HexTable()[c1 as int].Some? <==> IsHexChar(c1)
    ensures IsHexChar(c1) ==> HexTable()[c1 as int].value[c2 as int] == if IsHexChar(c2) then ParseHex2(c1, c2) else 0
  {
    assert (c1 as int) as char == c1 && (c2 as int) as char == c2;
  }

  lemma AlphabetHex(t: nat)
    requires t < |HexAlphabet|
    ensures IsHexChar(HexAlphabet[t])
  {}

  /** Whether c is among the first i chars of the alphabet. */
  predicate InPrefix(c: char, i: nat)
    requires i <= |HexAlphabet|
    ensures InPrefix(c, i) ==> IsHexChar(c)
  {
    if i == 0 then false
    else AlphabetHex(i - 1); HexAlphabet[i - 1] == c || InPrefix(c, i - 1)
  }

  lemma {:induction false} InPrefixOf(c: char, t: nat, i: nat)
    requires t < i <= |HexAlphabet| && HexAlphabet[t] == c
    ensures InPrefix(c, i)
  {
    if t < i - 1 { InPrefixOf(c, t, i - 1); }
  }

  lemma AlphabetIsHex(c: char)
    ensures InPrefix(c, |HexAlphabet|) <==> IsHexChar(c)
  {
    if '0' <= c <= '9' {
      InPrefixOf(c, c as int - '0' as int, |HexAlphabet|);
    } else if 'A' <= c <= 'F' {
      InPrefixOf(c, c as int - 'A' as int + 10, |HexAlphabet|);
    } else if 'a' <= c <= 'f' {
      InPrefixOf(c, c as int - 'a' as int + 16, |HexAlphabet|);
    }
  }

  lemma RowComplete(c1: char, row: seq<int>)
    requires IsHexChar(c1) && |row| == TableSize
    requires forall d :: 0 <= d < TableSize ==> row[d] == if InPrefix(d as char, |HexAlphabet|) then Cell(c1, d as char) else 0
    ensures row == Row(c1)
  {
    forall d | 0 <= d < TableSize ensures row[d] == Row(c1)[d] {
      AlphabetIsHex(d as char);
    }
  }

  lemma TableComplete(xs: Table)
    requires |xs| == TableSize
    requires forall c :: 0 <= c < TableSize ==>
      xs[c] == if InPrefix(c as char, |HexAlphabet|) then Some(Row(c as char)) else None
    ensures xs == HexTable()
  {
    forall c | 0 <= c < TableSize ensures xs[c] == HexTable()[c] {
      AlphabetIsHex(c as char);
    }
  }

  /** `genArray`: builds the hex lookup table. */
  method GenArray() returns (xs: Table)
    ensures xs == HexTable()
  {
    xs := seq(TableSize, _ => None);
    for i := 0 to |HexAlphabet|
      invariant |xs| == TableSize
      invariant forall c :: 0 <= c < TableSize ==>
        xs[c] == if InPrefix(c as char, i) then Some(Row(c as char)) else None
    {
      var c1 := HexAlphabet[i];
      AlphabetHex(i);
      var row: seq<int> := seq(TableSize, _ => 0);
      for k := 0 to |HexAlphabet|
        invariant |row| == TableSize
        invariant forall d :: 0 <= d < TableSize ==>
          row[d] == if InPrefix(d as char, k) then Cell(c1, d as char) else 0
      {
        var c2 := HexAlphabet[k];
        AlphabetHex(k);
        row := row[c2 as int := ParseHex2(c1, c2)];
      }
      RowComplete(c1, row);
      xs := xs[c1 as int := Some(row)];
    }
    TableComplete(xs);
  }

  /**
   * What `ints[hi][lo]` gives, stated without the table: an index above 'f'
   * faults, a `null` row (non-hex `hi`) faults, and a non-hex `lo` reads the
   * row's default 0.
   */
  function HexPair(hi: char, lo: char): (r: Result<int, Exception>)
    ensures r.Ok? ==> 0 <= r.value < 256
  {
    if hi as int >= TableSize then Err(ArrayIndexOutOfBounds)
    else match HexToNibble(hi)
      case None => Err(NullPointer)
      case Some(h) =>
        if lo as int >= TableSize then Err(ArrayIndexOutOfBounds)
        else match HexToNibble(lo)
          case None => Ok(0)
          case Some(l) => Ok(16 * h + l)
  }

  /** `hexToByte(hi, lo)`: `ints[hi][lo]`, faulting as Java does on a short or missing row. */
  function HexToByte(ints: Table, hi: char, lo: char): Result<int, Exception>
  {
    if hi as int >= |ints| then Err(ArrayIndexOutOfBounds)
    else match ints[hi as int]
      case None => Err(NullPointer)
      case Some(row) =>
        if lo as int >= |row| then Err(ArrayIndexOutOfBounds)
        else Ok(row[lo as int])
  }

  /** A table whose every lookup is the one `HexPair` describes. */
  ghost predicate HexLookup(ints: Table)
  {
    forall hi: char, lo: char :: HexToByte(ints, hi, lo) == HexPair(hi, lo)
  }

  /**
   * Looking up the `genArray` table: a pair of hex digits of either case
   * gives its value, a bad low digit below 'g' gives 0, and a bad high digit
   * or any char above 'f' faults.
   */
  lemma HexTableLookup()
    ensures HexLookup(HexTable())
  {
    forall hi: char, lo: char ensures HexToByte(HexTable(), hi, lo) == HexPair(hi, lo) {
      if hi as int < TableSize {
        HexTableCells(hi, if lo as int < TableSize then lo else 'f');
      }
    }
  }

  /** The cases of a lookup, as `hexToByte`'s callers meet them. */
  lemma HexPairCases(hi: char, lo: char)
    ensures IsHexChar(hi) && IsHexChar(lo) ==> HexPair(hi, lo) == Ok(ParseHex2(hi, lo))
    ensures IsHexChar(hi) && !IsHexChar(lo) && lo as int < TableSize ==> HexPair(hi, lo) == Ok(0)
    ensures HexPair(hi, lo).Err? <==> !IsHexChar(hi) || lo as int >= TableSize
  {}

  // ---------------------------------------------------------------- decoding

  /** The byte held by the two chars at `p`; `eof` when the input ends first. */
  function PairAt(s: seq<char>, p: nat, eof: Exception): (r: Result<int, Exception>)
    ensures r.Ok? ==> 0 <= r.value < 256
  {
    if p + 1 >= |s| then Err(eof) else HexPair(s[p], s[p + 1])
  }

  /** The k bytes held by chars p .. p + 2k - 1, or the first fault. */
  function DecodePairs(s: seq<char>, p: nat, k: nat, eof: Exception): (r: Result<seq<Byte>, Exception>)
    ensures r.Ok? ==> |r.value| == k
  {
    if k == 0 then Ok([])
    else match DecodePairs(s, p, k - 1, eof)
      case Err(e) => Err(e)
      case Ok(bs) =>
        match PairAt(s, p + 2 * (k - 1), eof)
        case Err(e) => Err(e)
        case Ok(b) => Ok(bs + [b])
  }

  /** The word held by the 16 chars at `p`. */
  function DecodeWord(s: seq<char>, p: nat, eof: Exception): Result<Word, Exception>
  {
    match DecodePairs(s, p, 8, eof)
    case Err(e) => Err(e)
    case Ok(bs) => BytesAssemble(bs); Ok(Assemble(bs))
  }

  /** The n words held by the first 16n chars, or the first fault. */
  function DecodeHex(s: seq<char>, n: nat, eof: Exception): (r: Result<seq<Word>, Exception>)
    ensures r.Ok? ==> |r.value| == n
  {
    if n == 0 then Ok([])
    else match DecodeHex(s, n - 1, eof)
      case Err(e) => Err(e)
      case Ok(ws) =>
        match DecodeWord(s, 16 * (n - 1), eof)
        case Err(e) => Err(e)
        case Ok(w) => Ok(ws + [w])
  }

  // ---------------------------------------------------------------- encoding

  /** A byte as two lowercase hex digits, high nibble first. */
  function ByteHex(b: Byte): seq<char>
  {
    [HexDigit(b / 16), HexDigit(b % 16)]
  }

  /** Bytes in hex, in order. */
  function BytesHex(bs: seq<Byte>): (s: seq<char>)
    ensures |s| == 2 * |bs|
  {
    if bs == [] then [] else BytesHex(bs[..|bs| - 1]) + ByteHex(bs[|bs| - 1])
  }

  /** A word in hex, least significant byte first. */
  function WordHex(w: Word): seq<char>
  {
    BytesHex(Bytes(w))
  }

  /** The FPS hex field of a word array. */
  function EncodeHex(ws: seq<Word>): (s: seq<char>)
    ensures |s| == 16 * |ws|
  {
    if ws == [] then [] else EncodeHex(ws[..|ws| - 1]) + WordHex(ws[|ws| - 1])
  }

  /** `Arrays.copyOf(words, m)`: truncated, or padded with zero words. */
  function CopyOf(ws: seq<Word>, m: nat): (r: seq<Word>)
    ensures |r| == m
    ensures forall i :: 0 <= i < m ==> r[i] == if i < |ws| then ws[i] else 0
  {
    if m <= |ws| then ws[..m] else ws + seq(m - |ws|, _ => 0)
  }

  lemma Nibbles(x: nat)
    ensures (x / 16) % 16 == (x % 256) / 16
    ensures x % 16 == (x % 256) % 16
  {
    var q, r := x / 256, x % 256;
    assert x == 256 * q + r;
    assert x / 16 == 16 * q + r / 16;
  }

  /** The number of words `writeHex` visits: one per started block of 64 bits. */
  function Blocks(len: int): nat
  {
    if len <= 0 then 0 else (len + 63) / 64
  }

  /** The array length `writeHex` reads from after its `copyOf`. */
  function Padded(n: nat, len: int): nat
  {
    if n * 64 < len then len / 64 else n
  }

  /**
   * `writeHex(sb, len, words)`: appends the hex of `words` to `sb`, 16 chars
   * per started block of 64 bits, reading missing trailing words as zero.
   * When `len` is not a multiple of 64 and exceeds the words given, the
   * padded copy is one word short and the last read faults after the
   * complete words were appended.
   */
  method WriteHex(sb: seq<char>, len: int, words: seq<Word>) returns (out: seq<char>, r: Result<bool, Exception>)
    ensures r.Ok? <==> Blocks(len) <= Padded(|words|, len)
    ensures r.Ok? ==> r.value && out == sb + EncodeHex(CopyOf(words, Padded(|words|, len))[..Blocks(len)])
    ensures r.Err? ==> r.error == ArrayIndexOutOfBounds && out == sb + EncodeHex(CopyOf(words, Padded(|words|, len)))
  {
    var ws := words;
    if |ws| * 64 < len {
      ws := CopyOf(ws, len / 64);
    } else {
      CopyOfAll(ws);
    }
    assert ws == CopyOf(words, Padded(|words|, len));
    out := sb;
    var nWords := 0;
    var i := 0;
    while i < len
      invariant i == 64 * nWords && nWords <= |ws|
      invariant nWords <= Blocks(len)
      invariant out == sb + EncodeHex(ws[..nWords])
      decreases len - i
    {
      BlocksStep(len, nWords);
      if nWords >= |ws| {
        PrefixFull(ws);
        return out, Err(ArrayIndexOutOfBounds);
      }
      out := AppendWordHex(out, ws[nWords]);
      EncodeHexSnoc(ws, nWords + 1);
      ConcatAssoc(sb, EncodeHex(ws[..nWords]), WordHex(ws[nWords]));
      nWords := nWords + 1;
      i := i + 64;
    }
    BlocksExit(len, nWords);
    r := Ok(true);
  }

  /** The body of `writeHex`'s loop: the 16 digits of one word, low byte first. */
  method AppendWordHex(sb: seq<char>, w: Word) returns (out: seq<char>)
    ensures out == sb + WordHex(w)
  {
    out := sb;
    var word: nat := w;
    var j := 0;
    while j < 8
      invariant 0 <= j <= 8
      invariant out == sb + BytesHex(Bytes(w)[..j])
      invariant word == ShiftBytes(w, j)
    {
      WordHexStep(w, j, word);
      ConcatAssoc(sb, BytesHex(Bytes(w)[..j]), [HexDigits[(word / 16) % 16], HexDigits[word % 16]]);
      out := out + [HexDigits[(word / 16) % 16], HexDigits[word % 16]];
      word := word / 256;
      j := j + 1;
    }
    PrefixFull(Bytes(w));
  }

  /** The two digits `writeHex` emits for the low byte of `w >>> 8 * j`. */
  lemma WordHexStep(w: Word, j: nat, word: nat)
    requires j < 8 && word == ShiftBytes(w, j)
    ensures BytesHex(Bytes(w)[..j + 1]) == BytesHex(Bytes(w)[..j]) + [HexDigits[(word / 16) % 16], HexDigits[word % 16]]
  {
    ByteOfShift(w, j);
    Nibbles(word);
    PrefixPrefix(Bytes(w), j + 1, j);
  }

  lemma CopyOfAll(ws: seq<Word>)
    ensures CopyOf(ws, |ws|) == ws
  {}

  lemma EncodeHexSnoc(ws: seq<Word>, n: nat)
    requires 0 < n <= |ws|
    ensures EncodeHex(ws[..n]) == EncodeHex(ws[..n - 1]) + WordHex(ws[n - 1])
  {
    PrefixPrefix(ws, n, n - 1);
  }

  lemma BlocksStep(len: int, n: nat)
    requires 64 * n < len
    ensures n + 1 <= Blocks(len)
  {}

  lemma BlocksExit(len: int, n: nat)
    requires 64 * n >= len && n <= Blocks(len)
    ensures n == Blocks(len)
  {}

  /** `writeHex` faults exactly when `len` is not a multiple of 64 and exceeds the words given. */
  lemma WriteHexFaults(n: nat, len: int)
    ensures Blocks(len) <= Padded(n, len) <==> !(n * 64 < len && len % 64 != 0)
  {}

  /** For `len = 64n` over n words `writeHex` appends exactly the hex of the words, `len / 4` chars. */
  lemma WriteHexWhole(words: seq<Word>)
    ensures Blocks(64 * |words|) <= Padded(|words|, 64 * |words|)
    ensures CopyOf(words, Padded(|words|, 64 * |words|))[..Blocks(64 * |words|)] == words
    ensures |EncodeHex(words)| == 64 * |words| / 4
  {}

  // ---------------------------------------------------------------- round trip

  lemma BytesHexDigits(bs: seq<Byte>, j: nat)
    requires j < |bs|
    ensures BytesHex(bs)[2 * j] == ByteHex(bs[j])[0] && BytesHex(bs)[2 * j + 1] == ByteHex(bs[j])[1]
  {
    BytesHexAt(bs, j);
    SliceIndex(BytesHex(bs), 2 * j, 2 * j + 2, 0);
    SliceIndex(BytesHex(bs), 2 * j, 2 * j + 2, 1);
  }

  lemma {:induction false} BytesHexAt(bs: seq<Byte>, j: nat)
    requires j < |bs|
    ensures BytesHex(bs)[2 * j .. 2 * j + 2] == ByteHex(bs[j])
  {
    if j < |bs| - 1 {
      BytesHexAt(bs[..|bs| - 1], j);
      assert BytesHex(bs)[..2 * (|bs| - 1)] == BytesHex(bs[..|bs| - 1]);
    }
  }

  lemma {:induction false} EncodeHexAt(ws: seq<Word>, k: nat)
    requires k < |ws|
    ensures EncodeHex(ws)[16 * k .. 16 * k + 16] == WordHex(ws[k])
  {
    if k < |ws| - 1 {
      EncodeHexAt(ws[..|ws| - 1], k);
      assert EncodeHex(ws)[..16 * (|ws| - 1)] == EncodeHex(ws[..|ws| - 1]);
    }
  }

  /** The two digits a byte is written as read back as that byte. */
  lemma HexPairDigits(b: Byte)
    ensures HexPair(ByteHex(b)[0], ByteHex(b)[1]) == Ok(b)
  {
    NibbleRoundTrip(b / 16);
    NibbleRoundTrip(b % 16);
  }

  lemma PairOfWord(s: seq<char>, p: nat, w: Word, j: nat, eof: Exception)
    requires j < 8 && p + 16 <= |s| && s[p .. p + 16] == WordHex(w)
    ensures PairAt(s, p + 2 * j, eof) == Ok(ByteOf(w, j))
  {
    SliceIndex(s, p, p + 16, 2 * j);
    SliceIndex(s, p, p + 16, 2 * j + 1);
    BytesHexDigits(Bytes(w), j);
    HexPairDigits(ByteOf(w, j));
  }

  lemma {:induction false} DecodePairsOfWord(s: seq<char>, p: nat, w: Word, k: nat, eof: Exception)
    requires k <= 8 && p + 16 <= |s| && s[p .. p + 16] == WordHex(w)
    ensures DecodePairs(s, p, k, eof) == Ok(Bytes(w)[..k])
  {
    if k > 0 {
      DecodePairsOfWord(s, p, w, k - 1, eof);
      PairOfWord(s, p, w, k - 1, eof);
      PrefixSnoc(Bytes(w), k);
    }
  }

  lemma DecodeWordOf(s: seq<char>, p: nat, w: Word, eof: Exception)
    requires p + 16 <= |s| && s[p .. p + 16] == WordHex(w)
    ensures DecodeWord(s, p, eof) == Ok(w)
  {
    DecodePairsOfWord(s, p, w, 8, eof);
    assert Bytes(w)[..8] == Bytes(w);
    AssembleBytes(w);
  }

  /** Reading back the hex of any word array restores the words exactly. */
  lemma {:induction false} HexRoundTrip(ws: seq<Word>, n: nat, eof: Exception)
    requires n <= |ws|
    ensures DecodeHex(EncodeHex(ws), n, eof) == Ok(ws[..n])
  {
    if n > 0 {
      var s := EncodeHex(ws);
      HexRoundTrip(ws, n - 1, eof);
      EncodeHexAt(ws, n - 1);
      DecodeWordOf(s, 16 * (n - 1), ws[n - 1], eof);
      DecodeHexStep(s, n, eof);
      PrefixSnoc(ws, n);
    }
  }

  // ---------------------------------------------------------------- readers

  /** One more word of a successful decode: it extends the earlier words. */
  lemma DecodeHexStep(s: seq<char>, n: nat, eof: Exception)
    requires n > 0 && DecodeHex(s, n - 1, eof).Ok? && DecodeWord(s, 16 * (n - 1), eof).Ok?
    ensures DecodeHex(s, n, eof) == Ok(DecodeHex(s, n - 1, eof).value + [DecodeWord(s, 16 * (n - 1), eof).value])
  {}

  /** OR-ing byte j into a word holding bytes 0 .. j-1 appends it. */
  lemma OrShiftedByte(bs: seq<Byte>, j: nat, b: Byte)
    requires j == |bs| < 8
    ensures Or(Assemble(bs), ShiftLeft(b, 8 * j)) == Assemble(bs + [b]) < WordBound
  {
    AssembleBound(bs);
    AssembleBound(bs + [b]);
    AssembleAppend(bs, b);
    ShiftLeftMul(b, 8 * j);
    Pow2Word();
    Pow2Monotone(8 * (j + 1), 64);
    Pow2Monotone(8 * j, 64);
    OrDisjoint(Assemble(bs), b, 8 * j);
  }

  /**
   * `readHex(str, len, words)`: fills `words` from the first
   * `16 * words.length` chars of `str` and returns true; `len` is not used.
   * A short string (`StringIndexOutOfBoundsException`) or a bad digit faults
   * with the exception the decode names.
   */
  method ReadHex(ints: Table, str: seq<char>, len: int, words: array<Word>) returns (r: Result<bool, Exception>)
    requires HexLookup(ints)
    modifies words
    ensures var d := DecodeHex(str, words.Length, StringIndexOutOfBounds);
      (r.Ok? <==> d.Ok?) &&
      (r.Ok? ==> r.value && words[..] == d.value) &&
      (r.Err? ==> r.error == d.error)
  {
    var nWords := 0;
    while nWords < words.Length
      invariant 0 <= nWords <= words.Length
      invariant DecodeHex(str, nWords, StringIndexOutOfBounds) == Ok(words[..nWords])
    {
      var x := ReadWordAt(ints, str, 16 * nWords);
      if x.Err? {
        DecodeHexErr(str, nWords, words.Length, StringIndexOutOfBounds);
        return Err(x.error);
      }
      words[nWords] := x.value;
      DecodeHexStep(str, nWords + 1, StringIndexOutOfBounds);
      PrefixSnoc(words[..], nWords + 1);
      nWords := nWords + 1;
    }
    PrefixFull(words[..]);
    r := Ok(true);
  }

  /**
   * One iteration of `readHex(String)`: the eight `hexToByte` calls on the
   * 16 chars at `p`, each byte OR-ed into place.
   */
  method ReadWordAt(ints: Table, str: seq<char>, p: nat) returns (r: Result<Word, Exception>)
    requires HexLookup(ints)
    ensures r == DecodeWord(str, p, StringIndexOutOfBounds)
  {
    var word: Word := 0;
    var j := 0;
    ghost var bs: seq<Byte> := [];
    while j < 8
      invariant 0 <= j <= 8
      invariant DecodePairs(str, p, j, StringIndexOutOfBounds) == Ok(bs)
      invariant word == Assemble(bs)
    {
      if p + 2 * j + 1 >= |str| {
        PairsFault(str, p, j, StringIndexOutOfBounds);
        return Err(StringIndexOutOfBounds);
      }
      var x := HexToByte(ints, str[p + 2 * j], str[p + 2 * j + 1]);
      if x.Err? {
        PairsFault(str, p, j, StringIndexOutOfBounds);
        return Err(x.error);
      }
      ReadStep(str, p, j, StringIndexOutOfBounds, bs, x.value);
      if j == 0 {
        word := x.value;
      } else {
        word := Or(word, ShiftLeft(x.value, 8 * j));
      }
      bs := bs + [x.value];
      j := j + 1;
    }
    BytesAssemble(bs);
    r := Ok(word);
  }

  /** Reading the pair at `p + 2j` after j good pairs: the word and the decode both grow by its byte. */
  lemma ReadStep(s: seq<char>, p: nat, j: nat, eof: Exception, bs: seq<Byte>, b: Byte)
    requires j < 8 && DecodePairs(s, p, j, eof) == Ok(bs) && PairAt(s, p + 2 * j, eof) == Ok(b)
    ensures (if j == 0 then b else Or(Assemble(bs), ShiftLeft(b, 8 * j))) == Assemble(bs + [b]) < WordBound
    ensures DecodePairs(s, p, j + 1, eof) == Ok(bs + [b])
  {
    OrShiftedByte(bs, j, b);
    if j == 0 {
      assert bs + [b] == [b];
    }
  }

  /** One more good pair extends the bytes read so far. */
  lemma PairsStep(s: seq<char>, p: nat, j: nat, eof: Exception)
    requires DecodePairs(s, p, j, eof).Ok? && PairAt(s, p + 2 * j, eof).Ok?
    ensures DecodePairs(s, p, j + 1, eof) == Ok(DecodePairs(s, p, j, eof).value + [PairAt(s, p + 2 * j, eof).value])
  {}

  /** A bad pair inside a word is the fault of the whole word. */
  lemma PairsFault(s: seq<char>, p: nat, j: nat, eof: Exception)
    requires j < 8 && DecodePairs(s, p, j, eof).Ok? && PairAt(s, p + 2 * j, eof).Err?
    ensures DecodeWord(s, p, eof) == Err(PairAt(s, p + 2 * j, eof).error)
  {
    DecodePairsErr(s, p, j + 1, 8, eof);
  }

  /** `(char) b` for a Java byte: bytes from 0x80 sign-extend to chars above 0xFF7F. */
  function CharOf(b: Byte): (c: char)
    ensures b < 128 ==> c as int == b
    ensures b >= 128 ==> c as int > 'f' as int
  {
    if b < 128 then b as char else (b + 0xFF00) as char
  }

  /** The chars `(char) buf.get()` yields for a run of bytes. */
  function CharsOf(bs: seq<Byte>): (cs: seq<char>)
    ensures |cs| == |bs|
    ensures forall i :: 0 <= i < |bs| ==> cs[i] == CharOf(bs[i])
  {
    seq(|bs|, i requires 0 <= i < |bs| => CharOf(bs[i]))
  }

  /**
   * `readHex(buf, len, words)`: decodes exactly as the String reader does,
   * from the chars of the bytes after the buffer's cursor, and on success
   * moves the cursor past the `16 * words.length` bytes read. Running out of
   * bytes is a `BufferUnderflowException`.
   */
  method ReadHexBuffer(ints: Table, buf: ByteBuffer, len: int, words: array<Word>) returns (r: Result<bool, Exception>)
    requires HexLookup(ints) && buf.Valid()
    modifies words, buf`position
    ensures buf.Valid()
    ensures var d := DecodeHex(CharsOf(buf.data[old(buf.position)..]), words.Length, BufferUnderflow);
      (r.Ok? <==> d.Ok?) &&
      (r.Ok? ==> r.value && words[..] == d.value && buf.position == old(buf.position) + 16 * words.Length) &&
      (r.Err? ==> r.error == d.error)
  {
    var start := buf.position;
    ghost var codes := CharsOf(buf.data[start..]);
    var nWords := 0;
    while nWords < words.Length
      invariant 0 <= nWords <= words.Length
      invariant buf.Valid() && buf.position == start + 16 * nWords
      invariant DecodeHex(codes, nWords, BufferUnderflow) == Ok(words[..nWords])
    {
      var x := ReadWordBuffer(ints, buf, start, nWords);
      if x.Err? {
        DecodeHexErr(codes, nWords, words.Length, BufferUnderflow);
        return Err(x.error);
      }
      words[nWords] := x.value;
      DecodeHexStep(codes, nWords + 1, BufferUnderflow);
      PrefixSnoc(words[..], nWords + 1);
      nWords := nWords + 1;
    }
    PrefixFull(words[..]);
    r := Ok(true);
  }

  /** One iteration of `readHex(ByteBuffer)`: sixteen `get()`s, each pair OR-ed into place as a byte. */
  method ReadWordBuffer(ints: Table, buf: ByteBuffer, start: nat, n: nat) returns (r: Result<Word, Exception>)
    requires HexLookup(ints)
    requires buf.Valid() && start <= |buf.data| && buf.position == start + 16 * n
    modifies buf`position
    ensures buf.Valid()
    ensures r == DecodeWord(CharsOf(buf.data[start..]), 16 * n, BufferUnderflow)
    ensures r.Ok? ==> buf.position == old(buf.position) + 16
  {
    ghost var codes := CharsOf(buf.data[start..]);
    ghost var p := 16 * n;
    var word: Word := 0;
    var j := 0;
    ghost var bs: seq<Byte> := [];
    while j < 8
      invariant 0 <= j <= 8
      invariant buf.Valid() && buf.position == start + p + 2 * j
      invariant DecodePairs(codes, p, j, BufferUnderflow) == Ok(bs)
      invariant word == Assemble(bs)
    {
      var hi := buf.Get();
      if hi.Err? {
        PairsFault(codes, p, j, BufferUnderflow);
        return Err(BufferUnderflow);
      }
      var lo := buf.Get();
      if lo.Err? {
        PairsFault(codes, p, j, BufferUnderflow);
        return Err(BufferUnderflow);
      }
      assert codes[p + 2 * j] == CharOf(hi.value) && codes[p + 2 * j + 1] == CharOf(lo.value);
      var x := HexToByte(ints, CharOf(hi.value), CharOf(lo.value));
      if x.Err? {
        PairsFault(codes, p, j, BufferUnderflow);
        return Err(x.error);
      }
      ReadStep(codes, p, j, BufferUnderflow, bs, x.value);
      if j == 0 {
        word := x.value;
      } else {
        word := Or(word, ShiftLeft(x.value, 8 * j));
      }
      bs := bs + [x.value];
      j := j + 1;
    }
    BytesAssemble(bs);
    r := Ok(word);
  }


  lemma {:induction false} DecodePairsErr(s: seq<char>, p: nat, j: nat, k: nat, eof: Exception)
    requires j <= k && DecodePairs(s, p, j, eof).Err?
    ensures DecodePairs(s, p, k, eof) == DecodePairs(s, p, j, eof)
  {
    if j < k { DecodePairsErr(s, p, j, k - 1, eof); }
  }

  lemma {:induction false} DecodeHexErr(s: seq<char>, n: nat, m: nat, eof: Exception)
    requires n < m && DecodeHex(s, n, eof).Ok? && DecodeWord(s, 16 * n, eof).Err?
    ensures DecodeHex(s, m, eof) == Err(DecodeWord(s, 16 * n, eof).error)
  {
    if n < m - 1 { DecodeHexErr(s, n, m - 1, eof); }
  }

  // ---------------------------------------------------------------- output alphabet

  lemma {:induction false} BytesHexLower(bs: seq<Byte>)
    ensures forall i :: 0 <= i < |BytesHex(bs)| ==> BytesHex(bs)[i] in HexDigits
  {
    if bs != [] {
      BytesHexLower(bs[..|bs| - 1]);
    }
  }

  /** Everything `writeHex` appends is a lowercase hex digit. */
  lemma {:induction false} EncodeHexLower(ws: seq<Word>)
    ensures forall i :: 0 <= i < |EncodeHex(ws)| ==> EncodeHex(ws)[i] in HexDigits
  {
    if ws != [] {
      EncodeHexLower(ws[..|ws| - 1]);
      BytesHexLower(Bytes(ws[|ws| - 1]));
    }
  }

  /** The ASCII bytes of a string of chars below 0x80, as an FPS file stores them. */
  function Ascii(s: seq<char>): (bs: seq<Byte>)
    requires forall i :: 0 <= i < |s| ==> s[i] as int < 128
    ensures |bs| == |s|
  {
    seq(|s|, i requires 0 <= i < |s| => s[i] as int)
  }

  /** The buffer reader decodes the stored hex of any word array back to the words. */
  lemma BufferRoundTrip(ws: seq<Word>)
    ensures forall i :: 0 <= i < |EncodeHex(ws)| ==> EncodeHex(ws)[i] as int < 128
    ensures DecodeHex(CharsOf(Ascii(EncodeHex(ws))), |ws|, BufferUnderflow) == Ok(ws)
  {
    EncodeHexLower(ws);
    var s := EncodeHex(ws);
    forall i | 0 <= i < |s| ensures s[i] as int < 128 {
      assert s[i] in HexDigits;
    }
    assert CharsOf(Ascii(s)) == s;
    HexRoundTrip(ws, |ws|, BufferUnderflow);
    PrefixFull(ws);
  }
}
