// `FpsToIdx`: reads an FPS file of 1024-bit fingerprints (a hex field, one
// separator byte, an id up to the end of the line), builds the popcount index
// with the counting sort, and writes the id file that maps each index slot
// back to its record's id.

module FpsToIdxs {
  import opened Wrappers
  import opened Words
  import opened FpsFmt
  import opened ByteBuffers
  import opened BinaryFingerprints
  import opened FingerprintSorts
  import opened Decimals

  /** The fixed fingerprint length of the tool, and its words. */
  const Len: int := 1024
  const NWords: int := 16

  // ------------------------------------------------------------ readToEnd

  /** Where the first '\n' byte lies, or the length when there is none. */
  function FirstNewline(bs: seq<Byte>): (k: nat)
    ensures k <= |bs| && (k < |bs| ==> bs[k] == 10)
    ensures forall i :: 0 <= i < k ==> bs[i] != 10
  {
    if bs == [] then 0
    else if bs[0] == 10 then 0
    else
      var k := FirstNewline(bs[1..]);
      assert forall i :: 1 <= i < 1 + k ==> bs[i] == bs[1..][i - 1];
      1 + k
  }

  /** A position before which no '\n' occurs and at which one does (or the end) is the first. */
  lemma {:induction false} FirstNewlineAt(bs: seq<Byte>, k: nat)
    requires k <= |bs| && (k < |bs| ==> bs[k] == 10)
    requires forall i :: 0 <= i < k ==> bs[i] != 10
    ensures FirstNewline(bs) == k
  {
    if bs != [] && bs[0] != 10 {
      assert forall i :: 0 <= i < k - 1 ==> bs[1..][i] == bs[i + 1];
      FirstNewlineAt(bs[1..], k - 1);
    }
  }

  /** The bytes of the rest of the line at `pos`, and the cursor after it and its '\n'. */
  function LineFrom(data: seq<Byte>, pos: nat): (r: (seq<char>, nat))
    requires pos <= |data|
    ensures pos <= r.1 <= |data| && '\n' !in r.0
  {
    var k := FirstNewline(data[pos..]);
    var line := CharsOf(data[pos..pos + k]);
    assert forall i :: 0 <= i < k ==> line[i] == CharOf(data[pos..][i]);
    (line, if pos + k < |data| then pos + k + 1 else pos + k)
  }

  /**
   * `readToEnd(buffer, sb)`: appends the chars of the bytes up to the next
   * '\n', which is consumed and not appended, or up to the end of the buffer.
   */
  method ReadToEnd(buf: ByteBuffer, sb: seq<char>) returns (out: seq<char>)
    requires buf.Valid()
    modifies buf`position
    ensures buf.Valid()
    ensures var (line, next) := LineFrom(buf.data, old(buf.position));
      out == sb + line && buf.position == next
  {
    ghost var start := buf.position;
    out := sb;
    while buf.Remaining() > 0
      invariant buf.Valid() && start <= buf.position
      invariant forall i :: start <= i < buf.position ==> buf.data[i] != 10
      invariant out == sb + CharsOf(buf.data[start..buf.position])
      decreases buf.Remaining()
    {
      ghost var at := buf.position;
      var c := buf.Get();
      var ch := CharOf(c.value);
      if ch == '\n' {
        FirstNewlineAt(buf.data[start..], at - start);
        return;
      }
      assert buf.data[start..buf.position] == buf.data[start..at] + [c.value];
      out := out + [ch];
    }
    FirstNewlineAt(buf.data[start..], buf.position - start);
  }

  // ------------------------------------------------------------ the record loop

  /** The fingerprints and ids read so far, in lockstep. */
  type Records = (seq<seq<Word>>, seq<seq<char>>)

  /** Records r put after the ones already read; an error stays an error. */
  function Prepend(fps: seq<seq<Word>>, ids: seq<seq<char>>, r: Result<Records, Exception>): Result<Records, Exception>
  {
    if r.Err? then r else Ok((fps + r.value.0, ids + r.value.1))
  }

  /**
   * The records of the file from byte `pos` on: `16 * NWords` hex chars
   * decoded as by `readHex`, one separator byte skipped whatever it is, then
   * the id up to the end of the line. Short input is a
   * `BufferUnderflowException`, a bad hex digit the decoder's fault.
   */
  function ParseFrom(data: seq<Byte>, pos: nat): (r: Result<Records, Exception>)
    requires pos <= |data|
    ensures r.Ok? ==> |r.value.0| == |r.value.1|
    ensures r.Ok? ==> forall i :: 0 <= i < |r.value.0| ==> |r.value.0[i]| == NWords
    ensures r.Ok? ==> forall i :: 0 <= i < |r.value.1| ==> '\n' !in r.value.1[i]
    decreases |data| - pos
  {
    if pos == |data| then Ok(([], []))
    else
      var d := DecodeHex(CharsOf(data[pos..]), NWords, BufferUnderflow);
      if d.Err? then Err(d.error)
      else if pos + 16 * NWords >= |data| then Err(BufferUnderflow)
      else
        var (id, next) := LineFrom(data, pos + 16 * NWords + 1);
        var rest := ParseFrom(data, next);
        if rest.Err? then rest
        else
          var r := Ok(([d.value] + rest.value.0, [id] + rest.value.1));
          assert forall i :: 1 <= i < |r.value.1| ==> r.value.1[i] == rest.value.1[i - 1];
          assert forall i :: 1 <= i < |r.value.0| ==> r.value.0[i] == rest.value.0[i - 1];
          r
  }

  /** Reading one record, then the rest, is reading from where that record began. */
  lemma ParseStep(data: seq<Byte>, pos: nat, w: seq<Word>, id: seq<char>, next: nat)
    requires pos < |data| && pos + 16 * NWords < |data|
    requires DecodeHex(CharsOf(data[pos..]), NWords, BufferUnderflow) == Ok(w)
    requires LineFrom(data, pos + 16 * NWords + 1) == (id, next)
    ensures ParseFrom(data, pos) == Prepend([w], [id], ParseFrom(data, next))
  {}

  /**
   * The read loop of `main`: while bytes remain, `readHex` into the shared
   * `words` array, `get()` the separator, `readToEnd` into a cleared
   * builder, and append a copy of the words and the id. The result is the
   * records of the file from the cursor on; since each fingerprint is a copy,
   * refilling `words` for the next record leaves the stored ones as read.
   */
  method ReadRecords(ints: Table, buf: ByteBuffer, words: array<Word>) returns (r: Result<Records, Exception>)
    requires HexLookup(ints) && buf.Valid() && words.Length == NWords
    modifies words, buf`position
    ensures buf.Valid()
    ensures r == ParseFrom(buf.data, old(buf.position))
  {
    ghost var start := buf.position;
    var fps: seq<seq<Word>> := [];
    var ids: seq<seq<char>> := [];
    PrependNothing(ParseFrom(buf.data, start));
    while buf.Remaining() > 0
      invariant buf.Valid() && words.Length == NWords && start <= buf.position
      invariant ParseFrom(buf.data, start) == Prepend(fps, ids, ParseFrom(buf.data, buf.position))
      decreases buf.Remaining()
    {
      ghost var pos := buf.position;
      var rec := ReadRecord(ints, buf, words);
      if rec.Err? {
        return Err(rec.error);
      }
      var (fp, id) := rec.value;
      PrependAssoc(fps, ids, [fp], [id], ParseFrom(buf.data, buf.position));
      fps := fps + [fp];
      ids := ids + [id];
    }
    assert fps + [] == fps && ids + [] == ids;
    r := Ok((fps, ids));
  }

  lemma PrependNothing(r: Result<Records, Exception>)
    ensures Prepend([], [], r) == r
  {
    if r.Ok? {
      assert [] + r.value.0 == r.value.0 && [] + r.value.1 == r.value.1;
    }
  }

  lemma PrependAssoc(fps: seq<seq<Word>>, ids: seq<seq<char>>, fs: seq<seq<Word>>, more: seq<seq<char>>,
                     r: Result<Records, Exception>)
    ensures Prepend(fps, ids, Prepend(fs, more, r)) == Prepend(fps + fs, ids + more, r)
  {
    if r.Ok? {
      assert fps + (fs + r.value.0) == (fps + fs) + r.value.0;
      assert ids + (more + r.value.1) == (ids + more) + r.value.1;
    }
  }

  /**
   * One pass of the read loop: the hex field into `words`, the separator
   * byte, the id; a copy of the words and the id are the record.
   */
  method ReadRecord(ints: Table, buf: ByteBuffer, words: array<Word>) returns (r: Result<(seq<Word>, seq<char>), Exception>)
    requires HexLookup(ints) && buf.Valid() && words.Length == NWords && buf.position < |buf.data|
    modifies words, buf`position
    ensures buf.Valid()
    ensures r.Err? ==> ParseFrom(buf.data, old(buf.position)) == Err(r.error)
    ensures r.Ok? ==> old(buf.position) < buf.position
    ensures r.Ok? ==> ParseFrom(buf.data, old(buf.position)) == Prepend([r.value.0], [r.value.1], ParseFrom(buf.data, buf.position))
  {
    ghost var pos := buf.position;
    var idStr: seq<char> := [];
    var h := ReadHexBuffer(ints, buf, Len, words);
    if h.Err? {
      return Err(h.error);
    }
    var tab := buf.Get();
    if tab.Err? {
      return Err(BufferUnderflow);
    }
    ghost var line := LineFrom(buf.data, buf.position).0;
    idStr := ReadToEnd(buf, idStr);
    assert idStr == line;
    ParseStep(buf.data, pos, words[..], idStr, buf.position);
    r := Ok((words[..], idStr));
  }

  // ------------------------------------------------------------ the id file

  /** One line of the id file: the slot, a tab, the id, a newline. */
  function IdLine(slot: nat, id: seq<char>): seq<char>
  {
    Decimal(slot) + ['\t'] + id + ['\n']
  }

  /** The id file for the first n slots: slot s names the id of record `order[s]`. */
  function IdFile(ids: seq<seq<char>>, order: seq<int>, n: nat): seq<char>
    requires n <= |order| && forall s :: 0 <= s < |order| ==> 0 <= order[s] < |ids|
  {
    if n == 0 then [] else IdFile(ids, order, n - 1) + IdLine(n - 1, ids[order[n - 1]])
  }

  /** Where the first c lies in s, or |s|. */
  function IndexOf(s: seq<char>, c: char): (k: nat)
    ensures k <= |s| && (k < |s| ==> s[k] == c) && forall i :: 0 <= i < k ==> s[i] != c
  {
    if s == [] then 0
    else if s[0] == c then 0
    else
      var k := IndexOf(s[1..], c);
      assert forall i :: 1 <= i < 1 + k ==> s[i] == s[1..][i - 1];
      1 + k
  }

  lemma {:induction false} IndexOfAt(s: seq<char>, c: char, k: nat)
    requires k < |s| && s[k] == c && forall i :: 0 <= i < k ==> s[i] != c
    ensures IndexOf(s, c) == k
  {
    if s[0] != c {
      assert forall i :: 0 <= i < k - 1 ==> s[1..][i] == s[i + 1];
      IndexOfAt(s[1..], c, k - 1);
    }
  }

  /**
   * A line of the id file splits back at its first tab into the slot number
   * and the id, whatever the id holds.
   */
  lemma IdLineRoundTrip(slot: nat, id: seq<char>)
    ensures var line := IdLine(slot, id); var t := IndexOf(line, '\t');
      t < |line| && DecimalValue(line[..t]) == slot && line[t + 1..|line| - 1] == id && line[|line| - 1] == '\n'
  {
    var line := IdLine(slot, id);
    var ds := Decimal(slot);
    IndexOfAt(line, '\t', |ds|);
    assert line[..|ds|] == ds;
    assert line[|ds| + 1..|line| - 1] == id;
    DecimalRoundTrip(slot);
  }

  /**
   * The id-file loop of `main`: for each slot i of the index, `i`, a tab,
   * the id of the record the index placed there, and a line break.
   */
  method WriteIdFile(ids: seq<seq<char>>, order: seq<int>) returns (out: seq<char>)
    requires forall s :: 0 <= s < |order| ==> 0 <= order[s] < |ids|
    ensures out == IdFile(ids, order, |order|)
  {
    out := [];
    var i := 0;
    while i < |order|
      invariant 0 <= i <= |order| && out == IdFile(ids, order, i)
    {
      out := out + Decimal(i);
      out := out + ['\t'];
      out := out + ids[order[i]];
      out := out + ['\n'];
      i := i + 1;
    }
  }

  // ------------------------------------------------------------ paths and the whole run

  /** The index path: the second argument, or the input path + ".idx"; none without arguments. */
  function IndexPath(args: seq<seq<char>>): (p: Option<seq<char>>)
    ensures p.Some? <==> |args| >= 1
    ensures |args| == 1 ==> p == Some(args[0] + ".idx")
    ensures |args| >= 2 ==> p == Some(args[1])
  {
    if |args| < 1 then None
    else if |args| < 2 then Some(args[0] + ".idx")
    else Some(args[1])
  }

  /** The id file sits beside the index. */
  function IdPath(idxPath: seq<char>): (p: seq<char>)
    ensures |p| == |idxPath| + 3 && p[..|idxPath|] == idxPath && p[|idxPath|..] == ".id"
  {
    idxPath + ".id"
  }

  function Card(fp: seq<Word>): nat
  {
    Popcount(fp)
  }

  /**
   * `main` after the argument check: read every record, index the
   * fingerprints by popcount, and write the id file in index order. It
   * succeeds exactly when the file parses and no fingerprint has all its
   * bits set. The index holds the count header, then each fingerprint at the
   * offset of its slot; each slot's line of the id file names the id of the
   * record the index stored there.
   */
  method Convert(ints: Table, data: seq<Byte>) returns (r: Result<(MappedBuffer<seq<Word>>, seq<char>), Exception>)
    requires HexLookup(ints)
    ensures r.Ok? <==> ParseFrom(data, 0).Ok? && Fits(Cards(ParseFrom(data, 0).value.0, Card), Len) &&
                       RegionSize(Len, |ParseFrom(data, 0).value.0|) < 0x8000_0000
    ensures ParseFrom(data, 0).Err? ==> r == Err(ParseFrom(data, 0).error)
    ensures ParseFrom(data, 0).Ok? && MappedSize(Len, |ParseFrom(data, 0).value.0|) < 0 ==> r == Err(IllegalArgument)
    ensures (ParseFrom(data, 0).Ok? && MappedSize(Len, |ParseFrom(data, 0).value.0|) >= 0 &&
             !Fits(Cards(ParseFrom(data, 0).value.0, Card), Len)) ==> r == Err(ArrayIndexOutOfBounds)
    ensures r.Ok? ==>
      var (fps, ids) := ParseFrom(data, 0).value;
      var cs := Cards(fps, Card);
      var index := r.value.0;
      index.capacity == RegionSize(Len, |fps|) &&
      index.ints == [Len + 1] + seq(Len + 1, c => Below(cs, c)) &&
      Written(index.records, fps, cs, Len, |fps|)
    ensures r.Ok? ==>
      var (fps, ids) := ParseFrom(data, 0).value;
      var cs := Cards(fps, Card);
      exists order: seq<int> ::
        |order| == |fps| &&
        (forall i :: 0 <= i < |fps| ==> order[Slot(cs, i)] == i) &&
        (forall s :: 0 <= s < |order| ==> 0 <= order[s] < |ids|) &&
        r.value.1 == IdFile(ids, order, |order|)
  {
    var buf := new ByteBuffer(data);
    var words := new Word[NWords](_ => 0);
    var recs := ReadRecords(ints, buf, words);
    if recs.Err? {
      return Err(recs.error);
    }
    var (fps, ids) := recs.value;
    var idx := Index(fps, Card, Len);
    if idx.Err? {
      return Err(idx.error);
    }
    var (index, order) := idx.value;
    ghost var cs := Cards(fps, Card);
    forall s | 0 <= s < |order|
      ensures 0 <= order[s] < |ids|
    {
      SlotOnto(cs, Len, s);
    }
    var idFile := WriteIdFile(ids, order);
    r := Ok((index, idFile));
  }
}
