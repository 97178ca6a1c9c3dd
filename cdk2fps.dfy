// The FPS writer of the native `cdk2fps` demo: fingerprint bytes as
// lowercase hex, the record's title, the header lines, and the line
// reader that splits the SMILES input at LF, CR LF or a lone CR.
//
// Streams are objects holding the characters still to read or already
// written; `getc` returning EOF (-1) is the `Eof` value of `Got`.

module Cdk2Fps {
  import opened Wrappers
  import opened Words
  import opened FpsFmt
  import opened Decimals

  // ------------------------------------------------------------ streams

  /** A `FILE *` opened for writing: everything written so far. */
  class OutStream {
    var written: seq<char>

    constructor ()
      ensures written == []
    {
      written := [];
    }

    /** `fputc(c, fp)`. */
    method Putc(c: char)
      modifies this
      ensures written == old(written) + [c]
    {
      written := written + [c];
    }

    /** `fputs(s, fp)`. */
    method Puts(s: seq<char>)
      modifies this
      ensures written == old(written) + s
    {
      written := written + s;
    }
  }

  /** What `getc` returns: a character, or EOF. */
  datatype Got = Eof | Char(c: char)

  /** A `FILE *` opened for reading: the characters not yet read. */
  class InStream {
    var rest: seq<char>

    constructor (data: seq<char>)
      ensures rest == data
    {
      rest := data;
    }

    /** `getc_unlocked(fp)`. */
    method Getc() returns (g: Got)
      modifies this
      ensures old(rest) == [] ==> g == Eof && rest == []
      ensures old(rest) != [] ==> g == Char(old(rest)[0]) && rest == old(rest)[1..]
    {
      if rest == [] {
        g := Eof;
      } else {
        g := Char(rest[0]);
        rest := rest[1..];
      }
    }

    /** `ungetc(c, fp)`: c is read again next. */
    method Ungetc(c: char)
      modifies this
      ensures rest == [c] + old(rest)
    {
      rest := [c] + rest;
    }
  }

  /** The characters of a C string held in s: those before its first NUL (`c_str()` of a line). */
  function CStr(s: seq<char>): (r: seq<char>)
    ensures |r| <= |s| && r == s[..|r|] && '\0' !in r
    ensures |r| < |s| ==> s[|r|] == '\0'
  {
    if s == [] || s[0] == '\0' then [] else [s[0]] + CStr(s[1..])
  }

  // ------------------------------------------------------------ hex and records

  /** `WriteHex`: a byte as two lowercase digits, high nibble first. */
  method WriteHex(x: Byte, fp: OutStream)
    modifies fp
    ensures fp.written == old(fp.written) + ByteHex(x)
    ensures HexPair(fp.written[|fp.written| - 2], fp.written[|fp.written| - 1]) == Ok(x)
  {
    fp.Putc(HexDigits[x / 16]);
    fp.Putc(HexDigits[x % 16]);
    HexPairDigits(x);
  }

  predicate IsSep(c: char)
  {
    c == '\t' || c == ' '
  }

  /** Where the title starts: the first tab or space, or the end of the string. */
  function FirstSep(smi: seq<char>): (k: nat)
    ensures k <= |smi| && (k < |smi| ==> IsSep(smi[k]))
    ensures forall j :: 0 <= j < k ==> !IsSep(smi[j])
  {
    if smi == [] || IsSep(smi[0]) then 0 else 1 + FirstSep(smi[1..])
  }

  /**
   * What follows the hex on a record: the SMILES string from its first
   * separator on, or a space and the whole SMILES when it has none.
   */
  function Title(smi: seq<char>): seq<char>
  {
    var k := FirstSep(smi);
    if k < |smi| then smi[k..] else [' '] + smi
  }

  /** A record line: the fingerprint's bytes in hex, the title, and a newline. */
  function FpsLine(fp: seq<Byte>, smi: seq<char>): seq<char>
  {
    BytesHex(fp) + Title(smi) + ['\n']
  }

  /** `WriteFps`: the hex loop, the scan for the title, and the newline. */
  method WriteFps(fpdata: seq<Byte>, smi: seq<char>, fp: OutStream)
    requires '\0' !in smi
    modifies fp
    ensures fp.written == old(fp.written) + FpsLine(fpdata, smi)
  {
    ghost var w := fp.written;
    for i := 0 to |fpdata|
      invariant fp.written == w + BytesHex(fpdata[..i])
    {
      WriteHex(fpdata[i], fp);
      BytesHexSnoc(fpdata, i);
      ConcatAssoc(w, BytesHex(fpdata[..i]), ByteHex(fpdata[i]));
    }
    PrefixFull(fpdata);
    WriteTitle(smi, fp);
    fp.Putc('\n');
    ConcatAssoc(w, BytesHex(fpdata), Title(smi));
    ConcatAssoc(w, BytesHex(fpdata) + Title(smi), ['\n']);
  }

  /** The title part of `WriteFps`: scan for the first separator and write from there, or a space and the SMILES. */
  method WriteTitle(smi: seq<char>, fp: OutStream)
    requires '\0' !in smi
    modifies fp
    ensures fp.written == old(fp.written) + Title(smi)
  {
    var ttl := 0;
    while ttl < |smi| && !IsSep(smi[ttl])
      invariant ttl <= |smi| && forall j :: 0 <= j < ttl ==> !IsSep(smi[j])
    {
      ttl := ttl + 1;
    }
    TitleStart(smi, ttl);
    if ttl < |smi| {
      fp.Puts(smi[ttl..]);
    } else {
      fp.Putc(' ');
      fp.Puts(smi);
    }
  }

  lemma BytesHexSnoc(bs: seq<Byte>, i: nat)
    requires i < |bs|
    ensures BytesHex(bs[..i + 1]) == BytesHex(bs[..i]) + ByteHex(bs[i])
  {
    assert bs[..i + 1][..i] == bs[..i];
  }

  /** FirstSep is the only index with no separator before it and a separator or the end at it. */
  lemma TitleStart(smi: seq<char>, k: nat)
    requires k <= |smi| && (k < |smi| ==> IsSep(smi[k])) && forall j :: 0 <= j < k ==> !IsSep(smi[j])
    ensures k == FirstSep(smi)
  {
  }

  /**
   * The title begins with a separator, and it keeps what the SMILES held:
   * the SMILES is its separator-free name followed by the title, or the
   * title is a space and the whole SMILES.
   */
  lemma TitleParts(smi: seq<char>)
    ensures var t := Title(smi); |t| > 0 && IsSep(t[0])
    ensures var k := FirstSep(smi);
      (k < |smi| && smi == smi[..k] + Title(smi)) || (k == |smi| && Title(smi) == [' '] + smi)
  {
    var k := FirstSep(smi);
    if k < |smi| {
      assert smi == smi[..k] + smi[k..];
    }
  }

  /** The j-th pair of text that starts with the hex of bs is the j-th byte. */
  lemma PairOfHex(s: seq<char>, bs: seq<Byte>, j: nat, eof: Exception)
    requires j < |bs| && 2 * |bs| <= |s| && s[..2 * |bs|] == BytesHex(bs)
    ensures PairAt(s, 2 * j, eof) == Ok(bs[j])
  {
    SliceIndex(s, 0, 2 * |bs|, 2 * j);
    SliceIndex(s, 0, 2 * |bs|, 2 * j + 1);
    BytesHexDigits(bs, j);
    HexPairDigits(bs[j]);
  }

  /** Text that starts with the hex of bs decodes, pair by pair, to the bytes of bs. */
  lemma {:induction false} HexPrefixDecodes(s: seq<char>, bs: seq<Byte>, k: nat, eof: Exception)
    requires k <= |bs| && 2 * |bs| <= |s| && s[..2 * |bs|] == BytesHex(bs)
    ensures DecodePairs(s, 0, k, eof) == Ok(bs[..k])
  {
    if k > 0 {
      HexPrefixDecodes(s, bs, k - 1, eof);
      PairOfHex(s, bs, k - 1, eof);
      PrefixSnoc(bs, k);
    }
  }

  /** The record the Java `FpsFmt` reader meets: its first 2n chars decode to the n bytes written. */
  lemma FpsLineDecodes(fp: seq<Byte>, smi: seq<char>, eof: Exception)
    ensures DecodePairs(FpsLine(fp, smi), 0, |fp|, eof) == Ok(fp)
  {
    assert FpsLine(fp, smi)[..2 * |fp|] == BytesHex(fp);
    HexPrefixDecodes(FpsLine(fp, smi), fp, |fp|, eof);
    PrefixFull(fp);
  }

  // ------------------------------------------------------------ flavours and header

  const ECFP0: nat := 0x10000
  const ECFP2: nat := 0x10001
  const ECFP4: nat := 0x10002
  const ECFP6: nat := 0x10003
  const FCFP0: nat := 0x20000
  const FCFP2: nat := 0x20001
  const FCFP4: nat := 0x20002
  const FCFP6: nat := 0x20003
  const PATH5: nat := 0x30005
  const PATH6: nat := 0x30006
  const PATH7: nat := 0x30007
  const EXTPATH5: nat := 0x40005
  const EXTPATH6: nat := 0x40006
  const EXTPATH7: nat := 0x40007
  const PUBCHEM: nat := 0x50000
  const MACCS: nat := 0x60000
  const LINGOS: nat := 0x70000

  /** The flavours the header can name. */
  predicate Named(flavor: nat)
  {
    flavor == ECFP0 || flavor == ECFP2 || flavor == ECFP4 || flavor == ECFP6 ||
    flavor == FCFP0 || flavor == FCFP2 || flavor == FCFP4 || flavor == FCFP6 ||
    flavor == MACCS || flavor == PATH6 || flavor == PATH7
  }

  /** `GetFpType`: the chemfp type string of a flavour, "???" for the others. */
  function FpType(flavor: nat): string
  {
    if flavor == ECFP0 then "cdk/ecfp/radius=0"
    else if flavor == ECFP2 then "cdk/ecfp/radius=2"
    else if flavor == ECFP4 then "cdk/ecfp/radius=4"
    else if flavor == ECFP6 then "cdk/ecfp/radius=6"
    else if flavor == FCFP0 then "cdk/fcfp/radius=0"
    else if flavor == FCFP2 then "cdk/fcfp/radius=2"
    else if flavor == FCFP4 then "cdk/fcfp/radius=4"
    else if flavor == FCFP6 then "cdk/fcfp/radius=6"
    else if flavor == MACCS then "cdk/maccs"
    else if flavor == PATH6 then "cdk/path/depth=6"
    else if flavor == PATH7 then "cdk/path/depth=7"
    else "???"
  }

  /**
   * A flavour has a name exactly when it is one of the eleven, and every
   * name starts "cdk/"; PATH5, the extended paths, PubChem and LINGO fall
   * to "???".
   */
  lemma FpTypeNamed(flavor: nat)
    ensures FpType(flavor) != "???" <==> Named(flavor)
    ensures Named(flavor) ==> |FpType(flavor)| > 4 && FpType(flavor)[..4] == "cdk/"
    ensures !Named(flavor) ==> FpType(flavor) == "???"
  {
    if Named(flavor) {
      assert FpType(flavor)[0] == 'c';
    }
  }

  /** The family letter and the radius or depth digit of a named flavour's type string. */
  function Tag(flavor: nat): (char, char)
  {
    var s := FpType(flavor);
    if |s| > 4 then (s[4], s[|s| - 1]) else ('?', '?')
  }

  /** No two flavours share a type string: their family and digit differ. */
  lemma FpTypeDistinct(flavor: nat, other: nat)
    requires Named(flavor) && Named(other) && flavor != other
    ensures FpType(flavor) != FpType(other)
  {
    assert Tag(flavor) != Tag(other);
  }

  /** `%d` of an int: a minus sign before a negative value. */
  function SignedDecimal(x: int): seq<char>
  {
    if x < 0 then ['-'] + Decimal(-x) else Decimal(x)
  }

  function MagicLine(): seq<char>
  {
    "#FPS1\n"
  }

  /** `%d` prints the unsigned length as a signed int. */
  function NumBitsLine(fplen: nat): seq<char>
  {
    "#num_bits=" + SignedDecimal(ToInt32(fplen)) + "\n"
  }

  function TypeLine(flavor: nat): seq<char>
  {
    "#type=" + FpType(flavor) + "\n"
  }

  function SoftwareLine(): seq<char>
  {
    "#software=cdk2fps JNI demo\n"
  }

  /** The four header lines. */
  function Header(fplen: nat, flavor: nat): seq<char>
  {
    MagicLine() + NumBitsLine(fplen) + TypeLine(flavor) + SoftwareLine()
  }

  /** `WriteFpsHeader`, with the options it reads as parameters. */
  method WriteFpsHeader(fp: OutStream, fplen: nat, flavor: nat)
    modifies fp
    ensures fp.written == old(fp.written) + Header(fplen, flavor)
  {
    ghost var w := fp.written;
    fp.Puts(MagicLine());
    fp.Puts(NumBitsLine(fplen));
    fp.Puts(TypeLine(flavor));
    fp.Puts(SoftwareLine());
    ConcatAssoc(w, MagicLine(), NumBitsLine(fplen));
    ConcatAssoc(w, MagicLine() + NumBitsLine(fplen), TypeLine(flavor));
    ConcatAssoc(w, MagicLine() + NumBitsLine(fplen) + TypeLine(flavor), SoftwareLine());
  }

  // ------------------------------------------------------------ reading lines

  /** A call of `ReadLine`: its result, what it left in the buffer, and the input after it. */
  datatype LineRead = LineRead(ok: bool, line: seq<char>, rest: seq<char>)

  /** What `ReadLine` does with the characters s still to read. */
  function NextLine(s: seq<char>): (r: LineRead)
    ensures r.ok ==> |r.rest| < |s|
    ensures !r.ok ==> r.rest == []
  {
    if s == [] then LineRead(false, [], [])
    else if s[0] == '\n' then LineRead(true, [], s[1..])
    else if s[0] == '\r' then
      if |s| == 1 then LineRead(false, [], [])
      else if s[1] == '\n' then LineRead(true, [], s[2..])
      else LineRead(true, [], s[1..])
    else
      var r := NextLine(s[1..]);
      LineRead(r.ok, [s[0]] + r.line, r.rest)
  }

  predicate NoBreak(s: seq<char>)
  {
    forall i :: 0 <= i < |s| ==> s[i] != '\n' && s[i] != '\r'
  }

  /** How a line ends: LF, CR LF, or a CR followed by anything but LF. */
  predicate Ends(t: seq<char>, rest: seq<char>)
  {
    t == "\n" || t == "\r\n" || (t == "\r" && rest != [] && rest[0] != '\n')
  }

  /** The buffer `ReadLine` leaves never holds a line break. */
  lemma {:induction false} NextLineNoBreak(s: seq<char>)
    ensures NoBreak(NextLine(s).line)
  {
    if s != [] && s[0] != '\n' && s[0] != '\r' {
      NextLineNoBreak(s[1..]);
      var l := NextLine(s[1..]).line;
      assert forall i :: 1 <= i < |[s[0]] + l| ==> ([s[0]] + l)[i] == l[i - 1];
    }
  }

  /** When `ReadLine` succeeds, the input was the line, a line break, and what is left to read. */
  lemma {:induction false} NextLineSplits(s: seq<char>)
    requires NextLine(s).ok
    ensures exists t :: Ends(t, NextLine(s).rest) && s == NextLine(s).line + t + NextLine(s).rest
  {
    if s[0] == '\n' {
      assert s == [] + "\n" + s[1..];
    } else if s[0] == '\r' && s[1] == '\n' {
      assert s == [] + "\r\n" + s[2..];
    } else if s[0] == '\r' {
      assert s == [] + "\r" + s[1..];
    } else {
      NextLineSplits(s[1..]);
      var r := NextLine(s[1..]);
      var t :| Ends(t, r.rest) && s[1..] == r.line + t + r.rest;
      assert s == ([s[0]] + r.line) + t + r.rest;
    }
  }

  /** When `ReadLine` fails nothing is left to read: the input held no line break, or only a final CR. */
  lemma {:induction false} NextLineFails(s: seq<char>)
    requires !NextLine(s).ok
    ensures NextLine(s).rest == [] && (s == NextLine(s).line || s == NextLine(s).line + "\r")
  {
    if s != [] && s[0] != '\r' {
      NextLineFails(s[1..]);
      assert s == [s[0]] + s[1..];
    }
  }

  /** A line broken off inside s is broken off the same way whatever follows s. */
  lemma {:induction false} NextLineExtends(s: seq<char>, u: seq<char>)
    requires NextLine(s).ok
    ensures NextLine(s + u) == LineRead(true, NextLine(s).line, NextLine(s).rest + u)
  {
    if s[0] != '\n' && s[0] != '\r' {
      NextLineExtends(s[1..], u);
      assert (s + u)[1..] == s[1..] + u;
    } else if s[0] == '\r' && s[1] == '\n' {
      assert (s + u)[2..] == s[2..] + u;
    } else {
      assert (s + u)[1..] == s[1..] + u;
    }
  }

  /** `ReadLine(buffer, fp)`: returns whether a line was read, and the buffer. */
  method ReadLine(fp: InStream) returns (ok: bool, buffer: seq<char>)
    modifies fp
    ensures NextLine(old(fp.rest)) == LineRead(ok, buffer, fp.rest)
  {
    buffer := [];
    while true
      invariant var r := NextLine(fp.rest); NextLine(old(fp.rest)) == LineRead(r.ok, buffer + r.line, r.rest)
      decreases |fp.rest|
    {
      ghost var s := fp.rest;
      var ch := fp.Getc();
      if ch == Char('\n') {
        return true, buffer;
      }
      if ch == Char('\r') {
        ch := fp.Getc();
        if ch != Char('\n') {
          if ch == Eof {
            return false, buffer;
          }
          fp.Ungetc(ch.c);
          assert fp.rest == s[1..];
        }
        return true, buffer;
      }
      if ch == Eof {
        return false, buffer;
      }
      ConcatAssoc(buffer, [ch.c], NextLine(fp.rest).line);
      buffer := buffer + [ch.c];
    }
  }

  /** The lines `ProcessFile` encodes: every one `ReadLine` returns before it fails. */
  function Lines(s: seq<char>): (ls: seq<seq<char>>)
    decreases |s|
  {
    var r := NextLine(s);
    if r.ok then [r.line] + Lines(r.rest) else []
  }

  predicate EndsInNewline(s: seq<char>)
  {
    s == [] || s[|s| - 1] == '\n'
  }

  /** One successful `ReadLine` call: its line comes first, then the lines of what it left. */
  lemma LinesStep(s: seq<char>)
    requires NextLine(s).ok
    ensures Lines(s) == [NextLine(s).line] + Lines(NextLine(s).rest)
  {
  }

  /** Text ending in LF holds a whole line, and what follows that line is again empty or ends in LF. */
  lemma {:induction false} NewlineEndsLine(s: seq<char>)
    requires s != [] && s[|s| - 1] == '\n'
    ensures NextLine(s).ok && EndsInNewline(NextLine(s).rest)
  {
    if s[0] != '\n' && s[0] != '\r' {
      NewlineEndsLine(s[1..]);
    }
  }

  /** Text without a line break is never returned as a line. */
  lemma {:induction false} NoBreakFails(u: seq<char>)
    requires NoBreak(u)
    ensures !NextLine(u).ok
  {
    if u != [] {
      NoBreakFails(u[1..]);
    }
  }

  /**
   * Text after the last newline that holds no line break is never
   * returned as a line: `ReadLine` fails on it, so the final line of a file
   * without a trailing newline is not encoded.
   */
  lemma {:induction false} UnterminatedLineDropped(s: seq<char>, u: seq<char>)
    requires EndsInNewline(s) && NoBreak(u)
    ensures Lines(s + u) == Lines(s)
    decreases |s|
  {
    if s == [] {
      assert [] + u == u;
      NoBreakFails(u);
    } else {
      NewlineEndsLine(s);
      var r := NextLine(s);
      NextLineExtends(s, u);
      LinesStep(s);
      LinesStep(s + u);
      UnterminatedLineDropped(r.rest, u);
    }
  }

  /** Two files of whole lines read back as the lines of the first and then those of the second. */
  lemma {:induction false} LinesAppend(s: seq<char>, u: seq<char>)
    requires EndsInNewline(s)
    ensures Lines(s + u) == Lines(s) + Lines(u)
    decreases |s|
  {
    if s == [] {
      assert [] + u == u;
    } else {
      NewlineEndsLine(s);
      var r := NextLine(s);
      NextLineExtends(s, u);
      LinesStep(s);
      LinesStep(s + u);
      LinesAppend(r.rest, u);
      ConcatAssoc([r.line], Lines(r.rest), Lines(u));
    }
  }

  /** A line ended by LF reads back as itself. */
  lemma {:induction false} LineReadsBack(line: seq<char>)
    requires NoBreak(line)
    ensures NextLine(line + "\n") == LineRead(true, line, [])
    ensures Lines(line + "\n") == [line]
  {
    if line != [] {
      LineReadsBack(line[1..]);
      assert (line + "\n")[1..] == line[1..] + "\n";
    }
    assert NextLine(line + "\n").rest == [];
  }

  /** A record written for a SMILES line is read back, by the same reader, as one line: the hex and the title. */
  lemma FpsLineReadsBack(fp: seq<Byte>, smi: seq<char>)
    requires NoBreak(smi)
    ensures Lines(FpsLine(fp, smi)) == [BytesHex(fp) + Title(smi)]
  {
    var body := BytesHex(fp) + Title(smi);
    BytesHexLower(fp);
    forall i | 0 <= i < |body| ensures body[i] != '\n' && body[i] != '\r' {
      if i < |BytesHex(fp)| {
        assert body[i] in HexDigits;
      } else {
        var k := FirstSep(smi);
        assert Title(smi)[i - |BytesHex(fp)|] in smi || Title(smi)[i - |BytesHex(fp)|] == ' ';
      }
    }
    LineReadsBack(body);
  }

  lemma NoBreakAppend(a: seq<char>, b: seq<char>)
    requires NoBreak(a) && NoBreak(b)
    ensures NoBreak(a + b)
  {
    assert forall i :: |a| <= i < |a + b| ==> (a + b)[i] == b[i - |a|];
  }

  lemma FpTypeNoBreak(flavor: nat)
    ensures NoBreak(FpType(flavor))
  {
    if flavor == ECFP0 {} else if flavor == ECFP2 {} else if flavor == ECFP4 {} else if flavor == ECFP6 {}
    else if flavor == FCFP0 {} else if flavor == FCFP2 {} else if flavor == FCFP4 {} else if flavor == FCFP6 {}
    else if flavor == MACCS {} else if flavor == PATH6 {} else if flavor == PATH7 {}
  }

  /** A file ending in LF followed by one more line reads back as its lines and that line. */
  lemma LinesSnoc(s: seq<char>, line: seq<char>)
    requires EndsInNewline(s) && NoBreak(line)
    ensures Lines(s + (line + "\n")) == Lines(s) + [line]
  {
    LinesAppend(s, line + "\n");
    LineReadsBack(line);
  }

  lemma MagicLineBody()
    ensures MagicLine() == "#FPS1" + "\n" && NoBreak("#FPS1")
  {
  }

  lemma SoftwareLineBody()
    ensures SoftwareLine() == "#software=cdk2fps JNI demo" + "\n" && NoBreak("#software=cdk2fps JNI demo")
  {
  }

  lemma NumBitsLineBody(fplen: nat)
    requires fplen < 0x8000_0000
    ensures NumBitsLine(fplen) == ("#num_bits=" + Decimal(fplen)) + "\n" && NoBreak("#num_bits=" + Decimal(fplen))
  {
    assert ToInt32(fplen) == fplen;
    assert NoBreak("#num_bits=");
    NoBreakAppend("#num_bits=", Decimal(fplen));
  }

  lemma TypeLineBody(flavor: nat)
    ensures TypeLine(flavor) == ("#type=" + FpType(flavor)) + "\n" && NoBreak("#type=" + FpType(flavor))
  {
    assert NoBreak("#type=");
    FpTypeNoBreak(flavor);
    NoBreakAppend("#type=", FpType(flavor));
  }

  /** Four lines, each ended by LF, read back as themselves. */
  lemma FourLines(a: seq<char>, b: seq<char>, c: seq<char>, d: seq<char>)
    requires NoBreak(a) && NoBreak(b) && NoBreak(c) && NoBreak(d)
    ensures Lines((a + "\n") + (b + "\n") + (c + "\n") + (d + "\n")) == [a, b, c, d]
  {
    var l1, l2, l3 := a + "\n", b + "\n", c + "\n";
    LinesSnoc([], a);
    assert [] + l1 == l1;
    LinesSnoc(l1, b);
    LinesSnoc(l1 + l2, c);
    LinesSnoc(l1 + l2 + l3, d);
  }

  /** The header reads back as four lines, and a length below 2^31 as the number of bits. */
  lemma HeaderReadsBack(fplen: nat, flavor: nat)
    requires fplen < 0x8000_0000
    ensures Lines(Header(fplen, flavor)) ==
      ["#FPS1", "#num_bits=" + Decimal(fplen), "#type=" + FpType(flavor), "#software=cdk2fps JNI demo"]
    ensures DecimalValue(Decimal(fplen)) == fplen
  {
    DecimalRoundTrip(fplen);
    MagicLineBody();
    NumBitsLineBody(fplen);
    TypeLineBody(flavor);
    SoftwareLineBody();
    FourLines("#FPS1", "#num_bits=" + Decimal(fplen), "#type=" + FpType(flavor), "#software=cdk2fps JNI demo");
  }

  // ------------------------------------------------------------ the file loop

  /** The records written for the lines: one per line the encoder accepts, in order. */
  function Records(lines: seq<seq<char>>, encode: seq<char> -> Option<seq<Byte>>): seq<char>
  {
    if lines == [] then [] else
      var smi := CStr(lines[|lines| - 1]);
      Records(lines[..|lines| - 1], encode) + (if encode(smi).Some? then FpsLine(encode(smi).value, smi) else [])
  }

  /** The error messages for the lines the encoder rejects, in order. */
  function Errors(lines: seq<seq<char>>, encode: seq<char> -> Option<seq<Byte>>): seq<char>
  {
    if lines == [] then [] else
      var smi := CStr(lines[|lines| - 1]);
      Errors(lines[..|lines| - 1], encode) + (if encode(smi).Some? then [] else "Error: " + smi + "\n")
  }

  lemma RecordsSnoc(read: seq<seq<char>>, line: seq<char>, encode: seq<char> -> Option<seq<Byte>>)
    ensures var smi := CStr(line);
      && Records(read + [line], encode) == Records(read, encode) + (if encode(smi).Some? then FpsLine(encode(smi).value, smi) else [])
      && Errors(read + [line], encode) == Errors(read, encode) + (if encode(smi).Some? then [] else "Error: " + smi + "\n")
  {
    assert (read + [line])[..|read|] == read;
  }

  /**
   * `ProcessFile`: each line read is encoded (the JNI call into CDK, here
   * encode) and written as a record, or reported on err.
   */
  method ProcessFile(ifp: InStream, ofp: OutStream, err: OutStream, encode: seq<char> -> Option<seq<Byte>>)
    requires ofp != err
    modifies ifp, ofp, err
    ensures ifp.rest == []
    ensures ofp.written == old(ofp.written) + Records(Lines(old(ifp.rest)), encode)
    ensures err.written == old(err.written) + Errors(Lines(old(ifp.rest)), encode)
  {
    ghost var read: seq<seq<char>> := [];
    ghost var cur := ifp.rest;
    ghost var w, e := ofp.written, err.written;
    var ok, line := ReadLine(ifp);
    while ok
      invariant NextLine(cur) == LineRead(ok, line, ifp.rest)
      invariant Lines(old(ifp.rest)) == read + Lines(cur)
      invariant ofp.written == w + Records(read, encode) && err.written == e + Errors(read, encode)
      decreases |ifp.rest|, ok
    {
      var smi := CStr(line);
      var data := encode(smi);
      RecordsSnoc(read, line, encode);
      if data.Some? {
        WriteFps(data.value, smi, ofp);
        ConcatAssoc(w, Records(read, encode), FpsLine(data.value, smi));
      } else {
        err.Puts("Error: " + smi + "\n");
        ConcatAssoc(e, Errors(read, encode), "Error: " + smi + "\n");
      }
      assert Lines(cur) == [line] + Lines(ifp.rest);
      ConcatAssoc(read, [line], Lines(ifp.rest));
      read, cur := read + [line], ifp.rest;
      ok, line := ReadLine(ifp);
    }
    assert Lines(cur) == [] && ifp.rest == [];
    assert read == Lines(old(ifp.rest));
  }
}
