/**
 * The paid-delivery store of src/live/delivery-store.ts: a newline-separated byte file with an in-memory
 * offset index.  The disk is a byte string; JSON is an arbitrary line codec with the laws named below.
 */
module DeliveryStore {
  import opened ByteStrings

  const NEWLINE: Byte := 10

  // ------------------------------------------------------------ lines of a file

  datatype Line = Line(offset: nat, text: Bytes)

  /** buf.indexOf(0x0a, from), or |file| when there is none. */
  function FirstNewline(file: Bytes, from: nat): (nl: nat)
    requires from <= |file|
    ensures from <= nl <= |file|
    ensures forall i :: from <= i < nl ==> file[i] != NEWLINE
    ensures nl < |file| ==> file[nl] == NEWLINE
    decreases |file| - from
  {
    if from == |file| || file[from] == NEWLINE then from else FirstNewline(file, from + 1)
  }

  /** The newline-terminated lines starting at or after `from`. */
  function LinesFrom(file: Bytes, from: nat): seq<Line>
    requires from <= |file|
    decreases |file| - from
  {
    var nl := FirstNewline(file, from);
    if nl == |file| then [] else [Line(from, file[from..nl])] + LinesFrom(file, nl + 1)
  }

  /** Where the unterminated rest of the file begins. */
  function TailStart(file: Bytes, from: nat): (start: nat)
    requires from <= |file|
    ensures from <= start <= |file|
    decreases |file| - from
  {
    var nl := FirstNewline(file, from);
    if nl == |file| then from else TailStart(file, nl + 1)
  }

  function Lines(file: Bytes): seq<Line> {
    LinesFrom(file, 0)
  }

  function Tail(file: Bytes): Bytes {
    file[TailStart(file, 0)..]
  }

  predicate Terminated(file: Bytes) {
    |file| == 0 || file[|file| - 1] == NEWLINE
  }

  lemma FirstNewlineIsUnique(file: Bytes, from: nat, nl: nat)
    requires from <= nl <= |file|
    requires forall i :: from <= i < nl ==> file[i] != NEWLINE
    requires nl < |file| ==> file[nl] == NEWLINE
    ensures FirstNewline(file, from) == nl
  {
  }

  /** Bytes without a newline only lengthen the tail. */
  lemma {:induction false} UnterminatedBytes(file: Bytes, extra: Bytes, from: nat)
    requires from <= |file| && NEWLINE !in extra
    ensures LinesFrom(file + extra, from) == LinesFrom(file, from)
    ensures TailStart(file + extra, from) == TailStart(file, from)
    decreases |file| - from
  {
    var nl := FirstNewline(file, from);
    if nl == |file| {
      FirstNewlineIsUnique(file + extra, from, |file + extra|);
    } else {
      EarlierLine(file, extra, from);
      UnterminatedBytes(file, extra, nl + 1);
      Unfold(file, from);
      Unfold(file + extra, from);
    }
  }

  lemma LastLine(file: Bytes, extra: Bytes, from: nat)
    requires from <= |file| && NEWLINE !in extra && FirstNewline(file, from) == |file|
    ensures var whole := file + extra + [NEWLINE];
      && LinesFrom(whole, from) == [Line(from, file[from..] + extra)]
      && TailStart(whole, from) == |whole|
  {
    var whole, n := file + extra + [NEWLINE], |file| + |extra|;
    FirstNewlineIsUnique(whole, from, n);
    assert whole[from..n] == file[from..] + extra;
    FirstNewlineIsUnique(whole, n + 1, n + 1);
  }

  lemma EarlierLine(file: Bytes, more: Bytes, from: nat)
    requires from <= |file| && FirstNewline(file, from) < |file|
    ensures var nl := FirstNewline(file, from);
      && FirstNewline(file + more, from) == nl && (file + more)[from..nl] == file[from..nl]
  {
    FirstNewlineIsUnique(file + more, from, FirstNewline(file, from));
  }

  lemma Unfold(file: Bytes, from: nat)
    requires from <= |file| && FirstNewline(file, from) < |file|
    ensures var nl := FirstNewline(file, from);
      && LinesFrom(file, from) == [Line(from, file[from..nl])] + LinesFrom(file, nl + 1)
      && TailStart(file, from) == TailStart(file, nl + 1)
  {
  }

  lemma Associate<T>(a: seq<T>, b: seq<T>, c: seq<T>)
    ensures a + (b + c) == (a + b) + c
  {
  }

  /** The line a newline would make of the tail. */
  function TailLine(file: Bytes, extra: Bytes, from: nat): Line
    requires from <= |file|
  {
    Line(TailStart(file, from), file[TailStart(file, from)..] + extra)
  }

  lemma {:induction false} TerminatedWhole(file: Bytes, extra: Bytes, whole: Bytes, from: nat)
    requires from <= |file| && NEWLINE !in extra && whole == file + (extra + [NEWLINE])
    ensures LinesFrom(whole, from) == LinesFrom(file, from) + [TailLine(file, extra, from)]
    ensures TailStart(whole, from) == |whole|
    decreases |file| - from
  {
    var nl := FirstNewline(file, from);
    if nl == |file| {
      LastLine(file, extra, from);
      Associate(file, extra, [NEWLINE]);
    } else {
      TerminatedWhole(file, extra, whole, nl + 1);
      Unfold(file, from);
      EarlierLine(file, extra + [NEWLINE], from);
      Unfold(whole, from);
      Associate([Line(from, file[from..nl])], LinesFrom(file, nl + 1), [TailLine(file, extra, nl + 1)]);
    }
  }

  /** A newline turns the tail into one more line. */
  lemma TerminatedBytes(file: Bytes, extra: Bytes, from: nat)
    requires from <= |file| && NEWLINE !in extra
    ensures LinesFrom(file + extra + [NEWLINE], from) == LinesFrom(file, from) + [TailLine(file, extra, from)]
    ensures TailStart(file + extra + [NEWLINE], from) == |file + extra| + 1
  {
    Associate(file, extra, [NEWLINE]);
    TerminatedWhole(file, extra, file + extra + [NEWLINE], from);
  }

  lemma {:induction false} TerminatedHasNoTail(file: Bytes, from: nat)
    requires from <= |file|
    ensures NEWLINE !in file[TailStart(file, from)..]
    ensures from < |file| ==> (file[|file| - 1] == NEWLINE <==> TailStart(file, from) == |file|)
    decreases |file| - from
  {
    var nl := FirstNewline(file, from);
    if nl < |file| {
      TerminatedHasNoTail(file, nl + 1);
    }
  }

  // ------------------------------------------------------------------ the codec

  /** What a line parses to: its header verdict (version and scope both match), and its key and payload if text. */
  datatype Parsed =
    | Blank
    | Unparsable
    | NullValue
    | Value(headerMatches: bool, key: Option<string>, payload: Option<string>)

  datatype Codec = Codec(
    parse: Bytes -> Parsed,
    header: Bytes,
    row: (string, string, string) -> Bytes  // key, payload, time
  )

  /** Printed documents hold no newline, parse back, and are not valid when cut short: the closing brace is last. */
  ghost predicate Lawful(c: Codec) {
    && NEWLINE !in c.header && |c.header| > 0
    && c.parse(c.header).Value? && c.parse(c.header).headerMatches
    && (forall k, p, at :: NEWLINE !in c.row(k, p, at) && |c.row(k, p, at)| > 0)
    && (forall k, p, at :: c.parse(c.row(k, p, at)).Value?
          && c.parse(c.row(k, p, at)).key == Some(k) && c.parse(c.row(k, p, at)).payload == Some(p))
    && (forall k, p, at, n :: 0 < n < |c.row(k, p, at)| ==> c.parse(c.row(k, p, at)[..n]).Unparsable?)
  }

  // ------------------------------------------------------------------- scanning

  datatype Entry = Entry(offset: nat, length: nat)

  datatype Failure = ScopeMismatch | TypeError

  datatype Scan = Scan(first: bool, index: map<string, Entry>, corrupt: nat, failure: Option<Failure>)

  const NEW_SCAN := Scan(true, map[], 0, None)

  predicate IsRecord(p: Parsed) {
    p.Value? && p.key.Some? && p.payload.Some?
  }

  function ScanLine(c: Codec, s: Scan, line: Line): Scan {
    if s.failure.Some? then s
    else
      var parsed := c.parse(line.text);
      match parsed
      case Blank => s
      case Unparsable => s.(corrupt := s.corrupt + 1)
      case NullValue => s.(first := false, failure := Some(TypeError))
      case Value(headerMatches, key, payload) =>
        if s.first then
          s.(first := false, failure := if headerMatches then None else Some(ScopeMismatch))
        else if IsRecord(parsed) then
          s.(index := s.index[key.value := Entry(line.offset, |line.text|)])
        else s.(corrupt := s.corrupt + 1)
  }

  function ScanLines(c: Codec, lines: seq<Line>): Scan {
    if |lines| == 0 then NEW_SCAN else ScanLine(c, ScanLines(c, lines[..|lines| - 1]), lines[|lines| - 1])
  }

  /** The scan of a whole file: a torn tail counts as corrupt, a non-empty file without a header is refused. */
  function ScanFile(c: Codec, file: Bytes): Scan {
    var s := ScanLines(c, Lines(file));
    if s.failure.Some? then s
    else
      var s' := if |Tail(file)| > 0 then s.(corrupt := s.corrupt + 1) else s;
      if s.first && |file| > 0 then s'.(failure := Some(ScopeMismatch)) else s'
  }

  lemma ScanSnoc(c: Codec, lines: seq<Line>, line: Line)
    ensures ScanLines(c, lines + [line]) == ScanLine(c, ScanLines(c, lines), line)
  {
    assert (lines + [line])[..|lines|] == lines;
  }

  lemma {:induction false} FailureIsSticky(c: Codec, lines: seq<Line>, more: seq<Line>)
    requires ScanLines(c, lines).failure.Some?
    ensures ScanLines(c, lines + more) == ScanLines(c, lines)
  {
    if |more| == 0 {
      assert lines + more == lines;
    } else {
      FailureIsSticky(c, lines, more[..|more| - 1]);
      assert lines + more == lines + more[..|more| - 1] + [more[|more| - 1]];
      ScanSnoc(c, lines + more[..|more| - 1], more[|more| - 1]);
    }
  }

  lemma NextLine(file: Bytes, done: seq<Line>, offset: nat)
    requires offset <= |file| && FirstNewline(file, offset) < |file|
    ensures var nl := FirstNewline(file, offset);
      && done + LinesFrom(file, offset) == (done + [Line(offset, file[offset..nl])]) + LinesFrom(file, nl + 1)
      && TailStart(file, offset) == TailStart(file, nl + 1)
  {
    var nl := FirstNewline(file, offset);
    Unfold(file, offset);
    Associate(done, [Line(offset, file[offset..nl])], LinesFrom(file, nl + 1));
  }

  /** `s` is the scan of the lines `done`, which end where `offset` is. */
  ghost predicate Scanning(c: Codec, file: Bytes, done: seq<Line>, offset: nat, s: Scan) {
    && offset <= |file|
    && done + LinesFrom(file, offset) == Lines(file)
    && TailStart(file, offset) == TailStart(file, 0)
    && ScanLines(c, done) == s
  }

  lemma StartOfScan(c: Codec, file: Bytes)
    ensures Scanning(c, file, [], 0, NEW_SCAN)
  {
    assert [] + LinesFrom(file, 0) == Lines(file);
  }

  lemma ScanStep(c: Codec, file: Bytes, done: seq<Line>, offset: nat, s: Scan)
    requires offset <= |file| && FirstNewline(file, offset) < |file|
    requires Scanning(c, file, done, offset, s)
    ensures
      var nl := FirstNewline(file, offset);
      var line := Line(offset, file[offset..nl]);
      && Scanning(c, file, done + [line], nl + 1, ScanLine(c, s, line))
      && (ScanLine(c, s, line).failure.Some? ==> ScanFile(c, file) == ScanLine(c, s, line))
  {
    var nl := FirstNewline(file, offset);
    var line := Line(offset, file[offset..nl]);
    ScanSnoc(c, done, line);
    NextLine(file, done, offset);
    if ScanLine(c, s, line).failure.Some? {
      FailureIsSticky(c, done + [line], LinesFrom(file, nl + 1));
    }
  }

  lemma EndOfScan(c: Codec, file: Bytes, done: seq<Line>, offset: nat, s: Scan)
    requires offset <= |file| && FirstNewline(file, offset) == |file|
    requires Scanning(c, file, done, offset, s) && s.failure.None?
    ensures ScanFile(c, file) == Scan(s.first, s.index, if offset < |file| then s.corrupt + 1 else s.corrupt,
                                      if s.first && |file| > 0 then Some(ScopeMismatch) else None)
  {
    assert done == Lines(file);
  }

  // ------------------------------------------------------- what a scan finds, said of the lines

  /** A line that parses, be it to null. */
  predicate IsDocument(c: Codec, lines: seq<Line>, i: int) {
    0 <= i < |lines| && (c.parse(lines[i].text).Value? || c.parse(lines[i].text).NullValue?)
  }

  ghost predicate FirstDocumentAt(c: Codec, lines: seq<Line>, i: int) {
    IsDocument(c, lines, i) && forall j :: 0 <= j < i ==> !IsDocument(c, lines, j)
  }

  /** The first line that parses is a value, and not this scope's header. */
  ghost predicate Foreign(c: Codec, lines: seq<Line>) {
    exists i :: FirstDocumentAt(c, lines, i) && c.parse(lines[i].text).Value? && !c.parse(lines[i].text).headerMatches
  }

  /** Another scope's file, or one that is not empty and yet holds no document. */
  ghost predicate IsOtherScopes(c: Codec, file: Bytes) {
    Foreign(c, Lines(file)) || (|file| > 0 && forall i :: !IsDocument(c, Lines(file), i))
  }

  ghost predicate HasNull(c: Codec, lines: seq<Line>) {
    exists i :: 0 <= i < |lines| && c.parse(lines[i].text).NullValue?
  }

  /** A line after the first document that holds a key and a payload. */
  ghost predicate RecordAt(c: Codec, lines: seq<Line>, i: int, key: string) {
    && 0 <= i < |lines| && c.parse(lines[i].text).Value?
    && c.parse(lines[i].text).key == Some(key) && c.parse(lines[i].text).payload.Some?
    && exists j :: 0 <= j < i && IsDocument(c, lines, j)
  }

  /** Each key is indexed at the extent of its last record. */
  ghost predicate IndexesLastRecords(c: Codec, lines: seq<Line>, index: map<string, Entry>) {
    && (forall key, i :: RecordAt(c, lines, i, key) ==> key in index)
    && (forall key :: key in index ==> exists i :: LastRecordAt(c, lines, i, key) && index[key] == EntryAt(lines, i))
  }

  ghost predicate LastRecordAt(c: Codec, lines: seq<Line>, i: int, key: string) {
    RecordAt(c, lines, i, key) && forall j :: i < j < |lines| ==> !RecordAt(c, lines, j, key)
  }

  function EntryAt(lines: seq<Line>, i: int): Entry
    requires 0 <= i < |lines|
  {
    Entry(lines[i].offset, |lines[i].text|)
  }

  /** Lines that are neither blank, nor the first document, nor a record. */
  ghost predicate UselessAt(c: Codec, lines: seq<Line>, i: int) {
    && 0 <= i < |lines|
    && (c.parse(lines[i].text).Unparsable?
        || (c.parse(lines[i].text).Value? && !FirstDocumentAt(c, lines, i)
            && (c.parse(lines[i].text).key.None? || c.parse(lines[i].text).payload.None?)))
  }

  ghost function UselessLines(c: Codec, lines: seq<Line>): set<int> {
    set i | 0 <= i < |lines| && UselessAt(c, lines, i)
  }

  lemma DocumentsSnoc(c: Codec, init: seq<Line>, last: Line)
    ensures var lines := init + [last];
      && (forall i :: i < |init| ==> (IsDocument(c, lines, i) <==> IsDocument(c, init, i)))
      && (forall i :: i < |init| ==> (FirstDocumentAt(c, lines, i) <==> FirstDocumentAt(c, init, i)))
      && (FirstDocumentAt(c, lines, |init|) <==>
            IsDocument(c, lines, |init|) && forall i :: !IsDocument(c, init, i))
  {
  }

  lemma ForeignSnoc(c: Codec, init: seq<Line>, last: Line)
    ensures var lines := init + [last];
      && (Foreign(c, lines) <==>
            (Foreign(c, init)
            || ((forall i :: !IsDocument(c, init, i))
                && c.parse(last.text).Value? && !c.parse(last.text).headerMatches)))
      && (HasNull(c, lines) <==> HasNull(c, init) || c.parse(last.text).NullValue?)
  {
    var lines := init + [last];
    DocumentsSnoc(c, init, last);
    assert lines[|init|] == last;
    if HasNull(c, init) {
      var i :| 0 <= i < |init| && c.parse(init[i].text).NullValue?;
      assert lines[i] == init[i];
    }
    if Foreign(c, init) {
      var i :| FirstDocumentAt(c, init, i) && c.parse(init[i].text).Value? && !c.parse(init[i].text).headerMatches;
      assert lines[i] == init[i];
    }
  }

  lemma RecordsAtSnoc(c: Codec, init: seq<Line>, last: Line, key: string)
    ensures var lines := init + [last];
      && (forall i :: i < |init| ==> (RecordAt(c, lines, i, key) <==> RecordAt(c, init, i, key)))
      && (RecordAt(c, lines, |init|, key) <==>
            && IsRecord(c.parse(last.text)) && c.parse(last.text).key == Some(key)
            && exists j :: IsDocument(c, init, j))
  {
    var lines := init + [last];
    DocumentsSnoc(c, init, last);
    assert lines[|init|] == last;
  }

  /** `s.first` tells whether no document was seen; a foreign header stops the scan, else a null does. */
  ghost predicate FailsAsLinesSay(c: Codec, lines: seq<Line>, s: Scan) {
    && (s.first <==> forall i :: !IsDocument(c, lines, i))
    && s.failure == (if Foreign(c, lines) then Some(ScopeMismatch)
                     else if HasNull(c, lines) then Some(TypeError) else None)
  }

  lemma {:induction false} ScanFails(c: Codec, lines: seq<Line>)
    ensures FailsAsLinesSay(c, lines, ScanLines(c, lines))
  {
    if |lines| > 0 {
      var init, last := lines[..|lines| - 1], lines[|lines| - 1];
      assert lines == init + [last];
      ScanFails(c, init);
      ForeignSnoc(c, init, last);
      DocumentsSnoc(c, init, last);
      assert IsDocument(c, lines, |init|) <==> c.parse(last.text).Value? || c.parse(last.text).NullValue?;
      FailureKeepsDocuments(c, init);
    }
  }

  /** What stops a scan is a document. */
  lemma FailureKeepsDocuments(c: Codec, lines: seq<Line>)
    ensures Foreign(c, lines) || HasNull(c, lines) ==> exists i :: IsDocument(c, lines, i)
  {
    if i :| 0 <= i < |lines| && c.parse(lines[i].text).NullValue? {
      assert IsDocument(c, lines, i);
    }
  }

  lemma IndexSnoc(c: Codec, init: seq<Line>, last: Line, index: map<string, Entry>)
    requires IndexesLastRecords(c, init, index)
    ensures
      var parsed, lines := c.parse(last.text), init + [last];
      IndexesLastRecords(c, lines,
        if IsRecord(parsed) && exists j :: IsDocument(c, init, j)
        then index[parsed.key.value := Entry(last.offset, |last.text|)] else index)
  {
    var parsed, lines := c.parse(last.text), init + [last];
    var grows := IsRecord(parsed) && exists j :: IsDocument(c, init, j);
    var index' := if grows then index[parsed.key.value := Entry(last.offset, |last.text|)] else index;
    forall key, i | RecordAt(c, lines, i, key) ensures key in index' {
      RecordsAtSnoc(c, init, last, key);
      if i < |init| { assert RecordAt(c, init, i, key); }
    }
    forall key | key in index'
      ensures exists i :: LastRecordAt(c, lines, i, key) && index'[key] == EntryAt(lines, i)
    {
      RecordsAtSnoc(c, init, last, key);
      if grows && key == parsed.key.value {
        assert LastRecordAt(c, lines, |init|, key) && lines[|init|] == last;
      } else {
        var i :| LastRecordAt(c, init, i, key) && index[key] == EntryAt(init, i);
        assert LastRecordAt(c, lines, i, key) && lines[i] == init[i];
      }
    }
  }

  lemma {:induction false} ScanIndexes(c: Codec, lines: seq<Line>)
    requires ScanLines(c, lines).failure.None?
    ensures IndexesLastRecords(c, lines, ScanLines(c, lines).index)
    ensures ScanLines(c, lines).corrupt == |UselessLines(c, lines)|
  {
    if |lines| == 0 {
      assert UselessLines(c, lines) == {};
    } else {
      var init, last := lines[..|lines| - 1], lines[|lines| - 1];
      assert lines == init + [last];
      ScanIndexes(c, init);
      ScanFails(c, init);
      IndexSnoc(c, init, last, ScanLines(c, init).index);
      UselessSnoc(c, init, last);
      LastIsUseless(c, init, last);
    }
  }

  lemma UselessStays(c: Codec, init: seq<Line>, last: Line)
    ensures forall i :: i < |init| ==> (UselessAt(c, init + [last], i) <==> UselessAt(c, init, i))
  {
    DocumentsSnoc(c, init, last);
    forall i | 0 <= i < |init| ensures UselessAt(c, init + [last], i) <==> UselessAt(c, init, i) {
      assert (init + [last])[i] == init[i];
    }
  }

  lemma LastIsUseless(c: Codec, init: seq<Line>, last: Line)
    ensures
      var parsed := c.parse(last.text);
      UselessAt(c, init + [last], |init|) <==>
        parsed.Unparsable? || (parsed.Value? && (exists i :: IsDocument(c, init, i)) && !IsRecord(parsed))
  {
    DocumentsSnoc(c, init, last);
    assert (init + [last])[|init|] == last;
  }

  lemma UselessSnoc(c: Codec, init: seq<Line>, last: Line)
    ensures |UselessLines(c, init + [last])| ==
      |UselessLines(c, init)| + if UselessAt(c, init + [last], |init|) then 1 else 0
  {
    UselessStays(c, init, last);
    var more := if UselessAt(c, init + [last], |init|) then {|init|} else {};
    assert UselessLines(c, init + [last]) == UselessLines(c, init) + more;
  }

  /**
   * Loading fails with a scope mismatch exactly for a non-empty file without any document, or with another scope's
   * first one, and with a type error exactly for a null line in a file that is not foreign.
   */
  lemma LoadFailsExactlyWhen(c: Codec, file: Bytes)
    ensures ScanFile(c, file).failure == Some(ScopeMismatch) <==> IsOtherScopes(c, file)
    ensures ScanFile(c, file).failure == Some(TypeError) <==> !Foreign(c, Lines(file)) && HasNull(c, Lines(file))
  {
    ScanFails(c, Lines(file));
    FailureKeepsDocuments(c, Lines(file));
  }

  /** A successful load indexes every key at its last record, and counts the useless lines and a torn tail. */
  lemma LoadIndexesLastRecords(c: Codec, file: Bytes)
    ensures ScanFile(c, file).failure.None? ==>
      && IndexesLastRecords(c, Lines(file), ScanFile(c, file).index)
      && ScanFile(c, file).corrupt == |UselessLines(c, Lines(file))| + (if |Tail(file)| > 0 then 1 else 0)
  {
    if ScanFile(c, file).failure.None? {
      ScanIndexes(c, Lines(file));
    }
  }

  lemma {:induction false} TailIsUnterminated(file: Bytes, from: nat)
    requires from <= |file|
    ensures TailStart(file, from) == |file| <==> from == |file| || file[|file| - 1] == NEWLINE
    decreases |file| - from
  {
    var nl := FirstNewline(file, from);
    if nl < |file| {
      TailIsUnterminated(file, nl + 1);
    }
  }

  lemma TerminatedExactlyWithoutTail(file: Bytes)
    ensures Terminated(file) <==> |Tail(file)| == 0
  {
    TailIsUnterminated(file, 0);
  }

  /** The lines of a file: its bytes between consecutive newlines, each where the one before ends. */
  lemma {:induction false} LinesSplitTheFile(file: Bytes, from: nat, i: nat)
    requires from <= |file| && i < |LinesFrom(file, from)|
    ensures
      var lines := LinesFrom(file, from);
      var line := lines[i];
      && line.offset == (if i == 0 then from else lines[i - 1].offset + |lines[i - 1].text| + 1)
      && line.offset + |line.text| < |file| && line.text == file[line.offset..line.offset + |line.text|]
      && 10 !in line.text && file[line.offset + |line.text|] == 10
    ensures
      var lines := LinesFrom(file, from);
      i == |lines| - 1 ==> 10 !in file[lines[i].offset + |lines[i].text| + 1..]
    decreases |file| - from
  {
    var nl := FirstNewline(file, from);
    if i > 0 {
      LinesSplitTheFile(file, nl + 1, i - 1);
    } else if |LinesFrom(file, from)| == 1 {
      assert FirstNewline(file, nl + 1) == |file|;
    }
  }

  datatype LoadResult = Loaded(keys: set<string>, corrupt: nat) | Threw(failure: Failure)

  /** What a load returns and leaves in the index, said of the file's lines. */
  ghost predicate LoadMeans(c: Codec, file: Bytes, index: map<string, Entry>, result: LoadResult) {
    && (result == Threw(ScopeMismatch) <==> IsOtherScopes(c, file))
    && (result == Threw(TypeError) <==> !Foreign(c, Lines(file)) && HasNull(c, Lines(file)))
    && (result.Loaded? ==>
          && IndexesLastRecords(c, Lines(file), index) && result.keys == index.Keys
          && result.corrupt == |UselessLines(c, Lines(file))| + (if Terminated(file) then 0 else 1))
  }

  function ResultOf(s: Scan): LoadResult {
    if s.failure.Some? then Threw(s.failure.value) else Loaded(s.index.Keys, s.corrupt)
  }

  lemma LoadResultMeans(c: Codec, file: Bytes)
    ensures LoadMeans(c, file, ScanFile(c, file).index, ResultOf(ScanFile(c, file)))
  {
    LoadFailsExactlyWhen(c, file);
    LoadIndexesLastRecords(c, file);
    TerminatedExactlyWithoutTail(file);
  }

  function Lookup(c: Codec, disk: Bytes, index: map<string, Entry>, key: string): Option<string> {
    if key !in index || index[key].offset + index[key].length > |disk| then None
    else
      match c.parse(disk[index[key].offset..index[key].offset + index[key].length])
      case Value(_, _, payload) => payload
      case _ => None
  }

  /** What an append writes before its row: a header on an empty file, a newline after a torn tail. */
  function Lead(c: Codec, disk: Bytes): Bytes {
    if |disk| == 0 then c.header + [NEWLINE]
    else if disk[|disk| - 1] != NEWLINE then [NEWLINE]
    else []
  }

  function AppendedBytes(c: Codec, disk: Bytes, key: string, payload: string, at: string): Bytes {
    Lead(c, disk) + c.row(key, payload, at) + [NEWLINE]
  }

  class FileDeliveryStore {
    const codec: Codec
    var disk: Bytes
    var index: map<string, Entry>
    var loaded: bool

    constructor (codec: Codec, disk: Bytes)
      ensures this.codec == codec && this.disk == disk && index == map[] && !loaded
    {
      this.codec, this.disk := codec, disk;
      index, loaded := map[], false;
    }

    /** One complete line: skip it, count it, check it as the header, index it or give up. */
    method TakeLine(first: bool, corrupt: nat, lineOffset: nat, line: Bytes)
      returns (first': bool, corrupt': nat, failure: Option<Failure>)
      modifies this`index
      ensures Scan(first', index, corrupt', failure)
           == ScanLine(codec, Scan(first, old(index), corrupt, None), Line(lineOffset, line))
    {
      first', corrupt', failure := first, corrupt, None;
      match codec.parse(line) {
        case Blank =>
        case Unparsable =>
          corrupt' := corrupt + 1;
        case NullValue =>
          first', failure := false, Some(TypeError);
        case Value(headerMatches, key, payload) =>
          if first {
            first' := false;
            if !headerMatches {
              failure := Some(ScopeMismatch);
            }
          } else if key.None? || payload.None? {
            corrupt' := corrupt + 1;
          } else {
            index := index[key.value := Entry(lineOffset, |line|)];
          }
      }
    }

    /** The scan loop: stops at a torn tail, returns early on a failure. */
    method ScanBuffer(buf: Bytes) returns (first: bool, corrupt: nat, failure: Option<Failure>)
      requires index == map[]
      modifies this`index
      ensures index == ScanFile(codec, buf).index
      ensures failure.Some? ==> ScanFile(codec, buf).failure == failure
      ensures failure.None? ==> ScanFile(codec, buf).corrupt == corrupt
      ensures failure.None? ==> ScanFile(codec, buf).failure == if first && |buf| > 0 then Some(ScopeMismatch) else None
    {
      first, corrupt, failure := true, 0, None;
      var offset := 0;
      ghost var done: seq<Line> := [];
      StartOfScan(codec, buf);
      while offset < |buf|
        invariant offset <= |buf| && failure.None?
        invariant Scanning(codec, buf, done, offset, Scan(first, index, corrupt, None))
        decreases |buf| - offset
      {
        var nl := FirstNewline(buf, offset);
        if nl == |buf| {
          break;
        }
        ghost var line := Line(offset, buf[offset..nl]);
        ScanStep(codec, buf, done, offset, Scan(first, index, corrupt, None));
        done := done + [line];
        first, corrupt, failure := TakeLine(first, corrupt, offset, buf[offset..nl]);
        if failure.Some? {
          return;
        }
        offset := nl + 1;
      }
      EndOfScan(codec, buf, done, offset, Scan(first, index, corrupt, None));
      if offset < |buf| {
        corrupt := corrupt + 1;
      }
    }

    method Load() returns (result: LoadResult)
      modifies this`index, this`loaded
      ensures index == ScanFile(codec, disk).index
      ensures var s := ScanFile(codec, disk);
        if s.failure.Some? then result == Threw(s.failure.value) && loaded == old(loaded)
        else result == Loaded(s.index.Keys, s.corrupt) && loaded
      ensures LoadMeans(codec, disk, index, result)
    {
      LoadResultMeans(codec, disk);
      index := map[];
      var buf := disk;
      var first, corrupt, failure := ScanBuffer(buf);
      if failure.Some? {
        return Threw(failure.value);
      }
      if first && |buf| > 0 {
        return Threw(ScopeMismatch);
      }
      loaded := true;
      result := Loaded(index.Keys, corrupt);
    }

    method Get(key: string) returns (payload: Option<string>)
      ensures payload == Lookup(codec, disk, index, key)
      ensures payload.Some? ==>
        && key in index && index[key].offset + index[key].length <= |disk|
        && codec.parse(disk[index[key].offset..index[key].offset + index[key].length]).Value?
        && codec.parse(disk[index[key].offset..index[key].offset + index[key].length]).payload == payload
      ensures (&& key in index && index[key].offset + index[key].length <= |disk|
               && codec.parse(disk[index[key].offset..index[key].offset + index[key].length]).Value?) ==>
        payload == codec.parse(disk[index[key].offset..index[key].offset + index[key].length]).payload
    {
      if key !in index || index[key].offset + index[key].length > |disk| {
        return None;
      }
      match codec.parse(disk[index[key].offset..index[key].offset + index[key].length]) {
        case Value(_, _, found) =>
          payload := found;
        case _ =>
          payload := None;
      }
    }

    method Append(key: string, payload: string, at: string)
      modifies this`disk, this`index
      ensures disk == old(disk) + AppendedBytes(codec, old(disk), key, payload, at)
      ensures disk ==
        old(disk)
        + ((if old(disk) == [] then codec.header + [10] else if old(disk)[|old(disk)| - 1] != 10 then [10] else [])
        + (codec.row(key, payload, at) + [10]))
      ensures var row := codec.row(key, payload, at);
        index == if loaded then old(index)[key := Entry(|disk| - 1 - |row|, |row|)] else old(index)
    {
      var isFresh := |disk| == 0;
      var position := |disk|;
      if isFresh {
        disk := disk + (codec.header + [NEWLINE]);
        position := position + |codec.header| + 1;
      } else {
        if disk[position - 1] != NEWLINE {
          disk := disk + [NEWLINE];
          position := position + 1;
        }
      }
      var line := codec.row(key, payload, at) + [NEWLINE];
      disk := disk + line;
      assert disk == old(disk) + AppendedBytes(codec, old(disk), key, payload, at);
      if loaded {
        index := index[key := Entry(position, |line| - 1)];
      }
    }
  }

  // ---------------------------------------------------------------- the re-parse

  datatype Record = Record(key: string, payload: string)

  /** A plain line-by-line reading: every record line after the header line, in order. */
  function RecordsIn(c: Codec, lines: seq<Line>): seq<Record> {
    if |lines| == 0 then []
    else
      var init, parsed := lines[..|lines| - 1], c.parse(lines[|lines| - 1].text);
      RecordsIn(c, init)
      + if HasHeader(c, init) && IsRecord(parsed) then [Record(parsed.key.value, parsed.payload.value)] else []
  }

  predicate HasHeader(c: Codec, lines: seq<Line>) {
    exists i :: 0 <= i < |lines| && c.parse(lines[i].text).Value?
  }

  function Records(c: Codec, file: Bytes): seq<Record> {
    RecordsIn(c, Lines(file))
  }

  function LastPayload(records: seq<Record>, key: string): Option<string> {
    if |records| == 0 then None
    else if records[|records| - 1].key == key then Some(records[|records| - 1].payload)
    else LastPayload(records[..|records| - 1], key)
  }

  /** The file is usable: loading it would not throw, and its header line is complete. */
  predicate Open(c: Codec, file: Bytes) {
    ScanLines(c, Lines(file)).failure.None? && !ScanLines(c, Lines(file)).first
  }

  /** The index finds, for every key, the payload of the last record a fresh parse finds. */
  ghost predicate Agrees(c: Codec, file: Bytes, index: map<string, Entry>) {
    forall k :: Lookup(c, file, index, k) == LastPayload(Records(c, file), k)
  }

  // ------------------------------------------------------- loading agrees with it

  lemma {:induction false} FirstMeansNoHeader(c: Codec, lines: seq<Line>)
    requires ScanLines(c, lines).failure.None?
    ensures ScanLines(c, lines).first <==> !HasHeader(c, lines)
  {
    if |lines| > 0 {
      var init := lines[..|lines| - 1];
      FirstMeansNoHeader(c, init);
      assert HasHeader(c, lines) <==> HasHeader(c, init) || c.parse(lines[|lines| - 1].text).Value?;
    }
  }

  /** An index entry is the extent of a line holding the last record for its key. */
  ghost predicate EntryOfLine(c: Codec, lines: seq<Line>, k: string, e: Entry) {
    exists i :: (0 <= i < |lines| && e == Entry(lines[i].offset, |lines[i].text|)
      && IsRecord(c.parse(lines[i].text)) && c.parse(lines[i].text).payload == LastPayload(RecordsIn(c, lines), k))
  }

  lemma EntryStays(c: Codec, init: seq<Line>, last: Line, k: string, e: Entry)
    requires EntryOfLine(c, init, k, e)
    requires LastPayload(RecordsIn(c, init + [last]), k) == LastPayload(RecordsIn(c, init), k)
    ensures EntryOfLine(c, init + [last], k, e)
  {
    var i :| 0 <= i < |init| && e == Entry(init[i].offset, |init[i].text|)
      && IsRecord(c.parse(init[i].text)) && c.parse(init[i].text).payload == LastPayload(RecordsIn(c, init), k);
    assert (init + [last])[i] == init[i];
  }

  lemma RecordsGrow(c: Codec, init: seq<Line>, last: Line)
    ensures var records, parsed := RecordsIn(c, init + [last]), c.parse(last.text);
      if HasHeader(c, init) && IsRecord(parsed)
      then |records| > 0 && records[..|records| - 1] == RecordsIn(c, init)
        && LastPayload(records, parsed.key.value) == parsed.payload
        && forall k :: k != parsed.key.value ==> LastPayload(records, k) == LastPayload(RecordsIn(c, init), k)
      else records == RecordsIn(c, init)
  {
    assert (init + [last])[..|init|] == init;
  }

  lemma {:induction false} ScanIndexesLastRecords(c: Codec, lines: seq<Line>)
    requires ScanLines(c, lines).failure.None?
    ensures forall k :: k in ScanLines(c, lines).index <==> LastPayload(RecordsIn(c, lines), k).Some?
    ensures forall k :: k in ScanLines(c, lines).index ==> EntryOfLine(c, lines, k, ScanLines(c, lines).index[k])
  {
    if |lines| > 0 {
      var init, last := lines[..|lines| - 1], lines[|lines| - 1];
      assert lines == init + [last];
      ScanIndexesLastRecords(c, init);
      FirstMeansNoHeader(c, init);
      RecordsGrow(c, init, last);
      var parsed := c.parse(last.text);
      forall k | k in ScanLines(c, lines).index ensures EntryOfLine(c, lines, k, ScanLines(c, lines).index[k]) {
        if HasHeader(c, init) && IsRecord(parsed) && parsed.key.value == k {
          assert lines[|lines| - 1] == last;
        } else {
          EntryStays(c, init, last, k, ScanLines(c, init).index[k]);
        }
      }
    }
  }

  lemma {:induction false} LinesAreExtents(file: Bytes, from: nat, i: nat)
    requires from <= |file| && i < |LinesFrom(file, from)|
    ensures var line := LinesFrom(file, from)[i];
      line.offset + |line.text| <= |file| && file[line.offset..line.offset + |line.text|] == line.text
    decreases |file| - from
  {
    var nl := FirstNewline(file, from);
    if i > 0 {
      LinesAreExtents(file, nl + 1, i - 1);
    }
  }

  lemma EntryLookup(c: Codec, file: Bytes, k: string, index: map<string, Entry>)
    requires k in index && EntryOfLine(c, Lines(file), k, index[k])
    ensures Lookup(c, file, index, k) == LastPayload(Records(c, file), k)
    ensures index[k].offset + index[k].length <= |file|
  {
    var lines := Lines(file);
    var i :| 0 <= i < |lines| && index[k] == Entry(lines[i].offset, |lines[i].text|)
      && IsRecord(c.parse(lines[i].text)) && c.parse(lines[i].text).payload == LastPayload(RecordsIn(c, lines), k);
    LinesAreExtents(file, 0, i);
  }

  /** A successful load indexes exactly what a fresh parse of the file finds. */
  lemma LoadAgrees(c: Codec, file: Bytes)
    requires ScanFile(c, file).failure.None?
    ensures Agrees(c, file, ScanFile(c, file).index)
    ensures WithinFile(file, ScanFile(c, file).index)
  {
    ScanIndexesLastRecords(c, Lines(file));
    var index := ScanFile(c, file).index;
    assert index == ScanLines(c, Lines(file)).index;
    forall k
      ensures Lookup(c, file, index, k) == LastPayload(Records(c, file), k)
      ensures k in index ==> index[k].offset + index[k].length <= |file|
    {
      if k in index {
        EntryLookup(c, file, k, index);
      }
    }
  }

  /** The fresh parse finds, for every key, what the last line holding a record of it says. */
  lemma ParseFindsTheLastRecord(c: Codec, file: Bytes, key: string)
    requires ScanFile(c, file).failure.None?
    ensures LastPayload(Records(c, file), key).Some? <==> exists i :: LastRecordAt(c, Lines(file), i, key)
    ensures forall i :: LastRecordAt(c, Lines(file), i, key) ==>
      LastPayload(Records(c, file), key) == c.parse(Lines(file)[i].text).payload
  {
    LoadAgrees(c, file);
    LoadIndexesLastRecords(c, file);
    var lines, index := Lines(file), ScanFile(c, file).index;
    assert Lookup(c, file, index, key) == LastPayload(Records(c, file), key);
    if key in index {
      var n :| LastRecordAt(c, lines, n, key) && index[key] == EntryAt(lines, n);
      LinesAreExtents(file, 0, n);
      forall i | LastRecordAt(c, lines, i, key) ensures i == n {
        assert RecordAt(c, lines, n, key) && RecordAt(c, lines, i, key);
      }
    }
  }

  // -------------------------------------------------------------- one append

  function TailRecord(c: Codec, file: Bytes): seq<Record> {
    var parsed := c.parse(Tail(file));
    if |Tail(file)| > 0 && IsRecord(parsed) then [Record(parsed.key.value, parsed.payload.value)] else []
  }

  lemma RecordsSnoc(c: Codec, lines: seq<Line>, line: Line)
    requires HasHeader(c, lines)
    ensures RecordsIn(c, lines + [line]) == RecordsIn(c, lines) +
      (if IsRecord(c.parse(line.text))
       then [Record(c.parse(line.text).key.value, c.parse(line.text).payload.value)]
       else [])
    ensures HasHeader(c, lines + [line])
  {
    assert (lines + [line])[..|lines|] == lines;
    var i :| 0 <= i < |lines| && c.parse(lines[i].text).Value?;
    assert (lines + [line])[i] == lines[i];
  }

  /** `led` is `file` plus what precedes an appended row: it ends a line, has a header, and shows the torn record. */
  ghost predicate LeadsTo(c: Codec, file: Bytes, led: Bytes) {
    && TailStart(led, 0) == |led| && HasHeader(c, Lines(led))
    && Records(c, led) == Records(c, file) + TailRecord(c, file)
    && ((|Tail(file)| > 0 && c.parse(Tail(file)).NullValue?) || Open(c, led))
  }

  lemma HeaderLine(c: Codec)
    requires Lawful(c)
    ensures LeadsTo(c, [], c.header + [NEWLINE])
  {
    TerminatedBytes([], c.header, 0);
    assert [] + c.header == c.header;
    var header := Line(0, c.header);
    var lines := Lines(c.header + [NEWLINE]);
    assert lines == [] + [header];
    ScanSnoc(c, [], header);
    assert c.parse(lines[0].text).Value?;
    assert lines[..0] == [];
  }

  lemma TornLine(c: Codec, file: Bytes)
    requires Open(c, file) && |Tail(file)| > 0
    ensures LeadsTo(c, file, file + [NEWLINE])
  {
    TerminatedHasNoTail(file, 0);
    TerminatedBytes(file, [], 0);
    assert file + [] == file && Tail(file) + [] == Tail(file);
    var torn := Line(TailStart(file, 0), Tail(file));
    FirstMeansNoHeader(c, Lines(file));
    RecordsSnoc(c, Lines(file), torn);
    ScanSnoc(c, Lines(file), torn);
  }

  lemma LeadLines(c: Codec, file: Bytes)
    requires Lawful(c) && (|file| == 0 || Open(c, file))
    ensures LeadsTo(c, file, file + Lead(c, file))
  {
    TerminatedHasNoTail(file, 0);
    if |file| == 0 {
      HeaderLine(c);
      assert file + Lead(c, file) == c.header + [NEWLINE];
    } else if file[|file| - 1] == NEWLINE {
      FirstMeansNoHeader(c, Lines(file));
      assert file + [] == file;
    } else {
      TornLine(c, file);
    }
  }

  /** A row and its newline add exactly one record to a file without a tail. */
  lemma RowLine(c: Codec, led: Bytes, key: string, payload: string, at: string)
    requires Lawful(c) && TailStart(led, 0) == |led| && HasHeader(c, Lines(led))
    ensures var file' := led + c.row(key, payload, at) + [NEWLINE];
      && Records(c, file') == Records(c, led) + [Record(key, payload)]
      && TailStart(file', 0) == |file'| && HasHeader(c, Lines(file'))
      && (Open(c, led) ==> Open(c, file'))
  {
    var row := c.row(key, payload, at);
    TerminatedBytes(led, row, 0);
    assert led[|led|..] + row == row;
    RecordsSnoc(c, Lines(led), Line(|led|, row));
  }

  lemma AppendIsLeadThenRow(c: Codec, file: Bytes, key: string, payload: string, at: string)
    ensures var file' := file + AppendedBytes(c, file, key, payload, at);
      && file' == (file + Lead(c, file)) + c.row(key, payload, at) + [NEWLINE]
      && |file'| > 0 && file'[|file'| - 1] == NEWLINE
  {
  }

  /** Every append adds its own record last; a torn tail surfaces before it exactly when it is a whole record. */
  lemma RecordsAfterAppend(c: Codec, file: Bytes, key: string, payload: string, at: string)
    requires Lawful(c) && (|file| == 0 || Open(c, file))
    ensures var file' := file + AppendedBytes(c, file, key, payload, at);
      && Records(c, file') == Records(c, file) + TailRecord(c, file) + [Record(key, payload)]
      && Terminated(file') && |file'| > 0 && TailStart(file', 0) == |file'|
      && ((|Tail(file)| > 0 && c.parse(Tail(file)).NullValue?) || Open(c, file'))
  {
    var led, file' := file + Lead(c, file), file + AppendedBytes(c, file, key, payload, at);
    LeadLines(c, file);
    RowLine(c, led, key, payload, at);
    AppendIsLeadThenRow(c, file, key, payload, at);
  }

  /** The index a loaded store holds after an append. */
  function IndexAfter(c: Codec, file: Bytes, index: map<string, Entry>, key: string, payload: string,
                      at: string): map<string, Entry> {
    index[key := Entry(|file| + |Lead(c, file)|, |c.row(key, payload, at)|)]
  }

  lemma LookupAfterAppend(c: Codec, file: Bytes, index: map<string, Entry>, key: string, payload: string, at: string,
                          k: string)
    requires Lawful(c)
    requires k in index ==> index[k].offset + index[k].length <= |file|
    ensures var file' := file + AppendedBytes(c, file, key, payload, at);
      Lookup(c, file', IndexAfter(c, file, index, key, payload, at), k) ==
        if k == key then Some(payload) else Lookup(c, file, index, k)
  {
    var file' := file + AppendedBytes(c, file, key, payload, at);
    var n, row := |file| + |Lead(c, file)|, c.row(key, payload, at);
    assert file' == file + Lead(c, file) + row + [NEWLINE];
    assert file'[n..n + |row|] == row;
    if k in index {
      assert file'[index[k].offset..index[k].offset + index[k].length] ==
        file[index[k].offset..index[k].offset + index[k].length];
    }
  }

  ghost predicate WithinFile(file: Bytes, index: map<string, Entry>) {
    forall k :: k in index ==> index[k].offset + index[k].length <= |file|
  }

  lemma LastPayloadSnoc(records: seq<Record>, r: Record, k: string)
    ensures LastPayload(records + [r], k) == if r.key == k then Some(r.payload) else LastPayload(records, k)
  {
    assert (records + [r])[..|records|] == records;
  }

  /**
   * After an append the index still agrees with a fresh parse exactly when the file had no torn tail, or the
   * tail was no record, or the tail's key is the appended one or already had that very payload.  A complete
   * row that only lacked its newline was skipped by the load but becomes a line when the append terminates it.
   */
  lemma AppendKeepsAgreementExactlyWhen(c: Codec, file: Bytes, index: map<string, Entry>, key: string, payload: string,
                                        at: string)
    requires Lawful(c) && (|file| == 0 || Open(c, file))
    requires Agrees(c, file, index) && WithinFile(file, index)
    ensures var file' := file + AppendedBytes(c, file, key, payload, at);
      Agrees(c, file', IndexAfter(c, file, index, key, payload, at)) <==>
        (forall r :: r in TailRecord(c, file) ==>
          r.key == key || LastPayload(Records(c, file), r.key) == Some(r.payload))
  {
    var file' := file + AppendedBytes(c, file, key, payload, at);
    var index' := IndexAfter(c, file, index, key, payload, at);
    var tail := TailRecord(c, file);
    RecordsAfterAppend(c, file, key, payload, at);
    forall k
      ensures Lookup(c, file', index', k) == (if k == key then Some(payload) else LastPayload(Records(c, file), k)) {
      LookupAfterAppend(c, file, index, key, payload, at, k);
    }
    forall k ensures LastPayload(Records(c, file'), k) ==
      if k == key then Some(payload)
      else if tail != [] && tail[0].key == k then Some(tail[0].payload)
      else LastPayload(Records(c, file), k)
    {
      LastPayloadSnoc(Records(c, file) + tail, Record(key, payload), k);
      if tail != [] {
        LastPayloadSnoc(Records(c, file), tail[0], k);
        assert tail == [tail[0]];
      } else {
        assert Records(c, file) + tail == Records(c, file);
      }
    }
    if tail != [] {
      assert tail[0] in tail;
      var k := tail[0].key;
      assert Lookup(c, file', index', k) == LastPayload(Records(c, file'), k) <==>
        k == key || LastPayload(Records(c, file), k) == Some(tail[0].payload);
    }
  }

  // ---------------------------------------------------------------- a session

  datatype Write = Write(key: string, payload: string, at: string)

  function Written(ws: seq<Write>): (r: seq<Record>)
    ensures |r| == |ws|
  {
    seq(|ws|, i requires 0 <= i < |ws| => Record(ws[i].key, ws[i].payload))
  }

  /** Disk and index of a loaded store after some appends. */
  function Session(c: Codec, file: Bytes, index: map<string, Entry>, ws: seq<Write>): (Bytes, map<string, Entry>) {
    if |ws| == 0 then (file, index)
    else
      var (f, ix) := Session(c, file, index, ws[..|ws| - 1]);
      var w := ws[|ws| - 1];
      (f + AppendedBytes(c, f, w.key, w.payload, w.at), IndexAfter(c, f, ix, w.key, w.payload, w.at))
  }

  lemma TerminatedMeansNoTailRecord(c: Codec, file: Bytes)
    requires Terminated(file)
    ensures Tail(file) == [] && TailRecord(c, file) == []
  {
    TerminatedHasNoTail(file, 0);
  }

  lemma IndexStaysWithinFile(c: Codec, file: Bytes, index: map<string, Entry>, w: Write)
    requires WithinFile(file, index)
    ensures WithinFile(file + AppendedBytes(c, file, w.key, w.payload, w.at),
      IndexAfter(c, file, index, w.key, w.payload, w.at))
  {
  }

  ghost predicate InSession(c: Codec, file: Bytes, index: map<string, Entry>) {
    Agrees(c, file, index) && WithinFile(file, index) && Terminated(file) && (|file| == 0 || Open(c, file))
  }

  lemma SessionStep(c: Codec, file: Bytes, index: map<string, Entry>, w: Write)
    requires Lawful(c) && InSession(c, file, index)
    ensures var file' := file + AppendedBytes(c, file, w.key, w.payload, w.at);
      && InSession(c, file', IndexAfter(c, file, index, w.key, w.payload, w.at))
      && Records(c, file') == Records(c, file) + [Record(w.key, w.payload)]
  {
    TerminatedMeansNoTailRecord(c, file);
    AppendKeepsAgreementExactlyWhen(c, file, index, w.key, w.payload, w.at);
    RecordsAfterAppend(c, file, w.key, w.payload, w.at);
    IndexStaysWithinFile(c, file, index, w);
    assert Records(c, file) + [] == Records(c, file);
  }

  lemma WrittenSnoc(earlier: seq<Record>, ws: seq<Write>)
    requires |ws| > 0
    ensures earlier + Written(ws) ==
        earlier + Written(ws[..|ws| - 1]) + [Record(ws[|ws| - 1].key, ws[|ws| - 1].payload)]
  {
  }

  /**
   * From an empty or newline-terminated file of this scope, a load and any appends keep index and file in agreement.
   */
  lemma {:induction false} SessionAgrees(c: Codec, file: Bytes, ws: seq<Write>)
    requires Lawful(c) && Terminated(file) && ScanFile(c, file).failure.None?
    ensures var (file', index') := Session(c, file, ScanFile(c, file).index, ws);
      InSession(c, file', index') && Records(c, file') == Records(c, file) + Written(ws)
    decreases |ws|
  {
    if |ws| == 0 {
      LoadAgrees(c, file);
    } else {
      var w, init := ws[|ws| - 1], ws[..|ws| - 1];
      SessionAgrees(c, file, init);
      var (f, ix) := Session(c, file, ScanFile(c, file).index, init);
      SessionStep(c, f, ix, w);
      WrittenSnoc(Records(c, file), ws);
    }
  }

  // -------------------------------------------------------------------- crashes

  /** An append that returned, or one cut short after `bytes` bytes and followed by a restart. */
  datatype Op = Complete(w: Write) | Crash(w: Write, bytes: nat)

  function DiskAfter(c: Codec, disk: Bytes, op: Op): Bytes {
    var appended := AppendedBytes(c, disk, op.w.key, op.w.payload, op.w.at);
    disk + if op.Crash? && op.bytes < |appended| then appended[..op.bytes] else appended
  }

  datatype Torn = Clean | Whole(record: Record) | Partial

  /** The records a re-parse finds, and what kind of unterminated tail follows them. */
  datatype Survivors = Survivors(records: seq<Record>, torn: Torn)

  function Surfaced(torn: Torn): seq<Record> {
    if torn.Whole? then [torn.record] else []
  }

  function SurvivorsAfter(c: Codec, s: Survivors, op: Op): Survivors {
    var record := Record(op.w.key, op.w.payload);
    var lead := if s.torn.Clean? then 0 else 1;
    var row := |c.row(op.w.key, op.w.payload, op.w.at)|;
    if op.Complete? || op.bytes > lead + row then Survivors(s.records + Surfaced(s.torn) + [record], Clean)
    else if op.bytes < lead || op.bytes == 0 then s
    else
      var kept := s.records + Surfaced(s.torn);
      if op.bytes == lead then Survivors(kept, Clean)
      else if op.bytes < lead + row then Survivors(kept, Partial)
      else Survivors(kept, Whole(record))
  }

  ghost predicate Holds(c: Codec, disk: Bytes, s: Survivors) {
    && |disk| > 0 && Open(c, disk) && Records(c, disk) == s.records
    && match s.torn
       case Clean => Tail(disk) == []
       case Whole(r) => |Tail(disk)| > 0 && TailRecord(c, disk) == [r]
       case Partial => |Tail(disk)| > 0 && c.parse(Tail(disk)).Unparsable?
  }

  lemma LeadOfTorn(c: Codec, disk: Bytes, s: Survivors)
    requires Holds(c, disk, s)
    ensures Lead(c, disk) == if s.torn.Clean? then [] else [NEWLINE]
    ensures TailRecord(c, disk) == Surfaced(s.torn)
  {
    TerminatedHasNoTail(disk, 0);
  }

  /** Part of a row on a file without a tail becomes its tail. */
  lemma PartialRow(c: Codec, led: Bytes, w: Write, n: nat)
    requires Lawful(c) && TailStart(led, 0) == |led| && Open(c, led) && |led| > 0
    requires n <= |c.row(w.key, w.payload, w.at)|
    ensures var row := c.row(w.key, w.payload, w.at);
      && Open(c, led + row[..n]) && Records(c, led + row[..n]) == Records(c, led) && Tail(led + row[..n]) == row[..n]
  {
    var row := c.row(w.key, w.payload, w.at);
    assert NEWLINE !in row[..n];
    UnterminatedBytes(led, row[..n], 0);
  }

  lemma CrashDisk(c: Codec, disk: Bytes, w: Write, n: nat)
    requires var appended := AppendedBytes(c, disk, w.key, w.payload, w.at); |Lead(c, disk)| <= n < |appended|
    ensures DiskAfter(c, disk, Crash(w, n)) ==
      (disk + Lead(c, disk)) + c.row(w.key, w.payload, w.at)[..n - |Lead(c, disk)|]
  {
    var lead, row := Lead(c, disk), c.row(w.key, w.payload, w.at);
    assert (lead + row + [NEWLINE])[..n] == lead + row[..n - |lead|];
  }

  lemma CrashKeepsSurvivors(c: Codec, disk: Bytes, s: Survivors, w: Write, n: nat)
    requires Lawful(c) && Holds(c, disk, s)
    requires n < |AppendedBytes(c, disk, w.key, w.payload, w.at)|
    ensures Holds(c, DiskAfter(c, disk, Crash(w, n)), SurvivorsAfter(c, s, Crash(w, n)))
  {
    LeadOfTorn(c, disk, s);
    var lead, row := Lead(c, disk), c.row(w.key, w.payload, w.at);
    if n == 0 && |lead| > 0 {
      assert DiskAfter(c, disk, Crash(w, n)) == disk + [] == disk;
    } else {
      var led, m := disk + lead, n - |lead|;
      LeadLines(c, disk);
      PartialRow(c, led, w, m);
      CrashDisk(c, disk, w, n);
      assert m < |row| || row[..m] == row;
      if lead == [] {
        assert led == disk;
      }
    }
  }

  lemma CompleteKeepsSurvivors(c: Codec, disk: Bytes, s: Survivors, w: Write)
    requires Lawful(c) && Holds(c, disk, s)
    ensures Holds(c, DiskAfter(c, disk, Complete(w)), SurvivorsAfter(c, s, Complete(w)))
  {
    LeadOfTorn(c, disk, s);
    RecordsAfterAppend(c, disk, w.key, w.payload, w.at);
  }

  function RunSurvivors(c: Codec, s: Survivors, ops: seq<Op>): Survivors {
    if |ops| == 0 then s else SurvivorsAfter(c, RunSurvivors(c, s, ops[..|ops| - 1]), ops[|ops| - 1])
  }

  lemma SurvivorsStep(c: Codec, disk: Bytes, s: Survivors, op: Op)
    requires Lawful(c) && Holds(c, disk, s)
    ensures Holds(c, DiskAfter(c, disk, op), SurvivorsAfter(c, s, op))
  {
    CompleteKeepsSurvivors(c, disk, s, op.w);
    LeadOfTorn(c, disk, s);
    if op.Crash? && op.bytes < |AppendedBytes(c, disk, op.w.key, op.w.payload, op.w.at)| {
      CrashKeepsSurvivors(c, disk, s, op.w, op.bytes);
    }
  }

  // ------------------------------------------------------- from the first append on

  /** What a file is: never written to, cut inside its header, or a list of survivors. */
  datatype Condition = Fresh | Refused | Surviving(s: Survivors)

  /** An operation on a file that startup refuses does not happen. */
  function Attempted(c: Codec, disk: Bytes, op: Op): Bytes {
    if ScanFile(c, disk).failure.Some? then disk else DiskAfter(c, disk, op)
  }

  /** The first write puts the header before the row; cut inside the header line it is refused from then on. */
  function FirstWrite(c: Codec, op: Op): Condition {
    var record, row := Record(op.w.key, op.w.payload), |c.row(op.w.key, op.w.payload, op.w.at)|;
    var lead := |c.header| + 1;
    if op.Complete? || op.bytes > lead + row then Surviving(Survivors([record], Clean))
    else if op.bytes == 0 then Fresh
    else if op.bytes < lead then Refused
    else Surviving(Survivors([],
      if op.bytes == lead then Clean else if op.bytes < lead + row then Partial else Whole(record)))
  }

  function ConditionAfter(c: Codec, condition: Condition, op: Op): Condition {
    match condition
    case Fresh => FirstWrite(c, op)
    case Refused => Refused
    case Surviving(s) => Surviving(SurvivorsAfter(c, s, op))
  }

  function RunDisk(c: Codec, disk: Bytes, ops: seq<Op>): Bytes {
    if |ops| == 0 then disk else Attempted(c, RunDisk(c, disk, ops[..|ops| - 1]), ops[|ops| - 1])
  }

  function RunCondition(c: Codec, condition: Condition, ops: seq<Op>): Condition {
    if |ops| == 0 then condition else ConditionAfter(c, RunCondition(c, condition, ops[..|ops| - 1]), ops[|ops| - 1])
  }

  ghost predicate Meets(c: Codec, disk: Bytes, condition: Condition) {
    match condition
    case Fresh => disk == []
    case Refused => ScanFile(c, disk).failure == Some(ScopeMismatch)
    case Surviving(s) => Holds(c, disk, s)
  }

  /** The condition of a file that ends with a newline, or is empty. */
  function StartOf(c: Codec, file: Bytes): Condition {
    if |file| == 0 then Fresh else Surviving(Survivors(Records(c, file), Clean))
  }

  lemma StartMeets(c: Codec, file: Bytes)
    requires Terminated(file) && ScanFile(c, file).failure.None?
    ensures Meets(c, file, StartOf(c, file))
  {
    TerminatedMeansNoTailRecord(c, file);
  }

  lemma HeaderPrefixIsTail(c: Codec, n: nat)
    requires Lawful(c) && n <= |c.header|
    ensures Lines(c.header[..n]) == [] && Tail(c.header[..n]) == c.header[..n]
  {
    UnterminatedBytes([], c.header[..n], 0);
    assert [] + c.header[..n] == c.header[..n];
  }

  /** Cut inside the header: the next load is refused, unless nothing was written at all. */
  lemma CrashInsideHeader(c: Codec, w: Write, n: nat)
    requires Lawful(c) && n <= |c.header|
    ensures var disk := DiskAfter(c, [], Crash(w, n));
      ScanFile(c, disk).failure == (if n == 0 then None else Some(ScopeMismatch)) && (n == 0 ==> disk == [])
  {
    assert AppendedBytes(c, [], w.key, w.payload, w.at)[..n] == c.header[..n];
    assert DiskAfter(c, [], Crash(w, n)) == c.header[..n];
    HeaderPrefixIsTail(c, n);
  }

  /** The header line alone: an open file that holds nothing yet. */
  lemma HeaderLineIsOpen(c: Codec)
    requires Lawful(c)
    ensures var lead := c.header + [NEWLINE];
      Lead(c, []) == lead && TailStart(lead, 0) == |lead| && Open(c, lead) && Records(c, lead) == []
  {
    HeaderLine(c);
    assert Tail([]) == [] && Records(c, []) + TailRecord(c, []) == [];
  }

  /** Cut after the header line: the file is open and holds no record yet. */
  lemma CrashAfterHeader(c: Codec, w: Write, n: nat)
    requires Lawful(c) && |c.header| < n < |AppendedBytes(c, [], w.key, w.payload, w.at)|
    ensures Meets(c, DiskAfter(c, [], Crash(w, n)), FirstWrite(c, Crash(w, n)))
  {
    var lead, row := c.header + [NEWLINE], c.row(w.key, w.payload, w.at);
    var m := n - |lead|;
    HeaderLineIsOpen(c);
    CrashDisk(c, [], w, n);
    assert [] + lead == lead;
    PartialRow(c, lead, w, m);
    TornRow(c, lead + row[..m], w, m);
  }

  /** What a tail of `m` bytes of a row is. */
  lemma TornRow(c: Codec, disk: Bytes, w: Write, m: nat)
    requires Lawful(c) && m <= |c.row(w.key, w.payload, w.at)| && |disk| > 0 && Open(c, disk)
    requires Tail(disk) == c.row(w.key, w.payload, w.at)[..m]
    ensures Holds(c, disk, Survivors(Records(c, disk),
      if m == 0 then Clean
      else if m < |c.row(w.key, w.payload, w.at)| then Partial
      else Whole(Record(w.key, w.payload))))
  {
    var row := c.row(w.key, w.payload, w.at);
    assert row[..|row|] == row;
  }

  lemma FirstAppendReturns(c: Codec, w: Write)
    requires Lawful(c)
    ensures Holds(c, DiskAfter(c, [], Complete(w)), Survivors([Record(w.key, w.payload)], Clean))
  {
    RecordsAfterAppend(c, [], w.key, w.payload, w.at);
    TerminatedHasNoTail(DiskAfter(c, [], Complete(w)), 0);
    assert Records(c, []) + TailRecord(c, []) + [Record(w.key, w.payload)] == [Record(w.key, w.payload)];
  }

  lemma FirstWriteMeets(c: Codec, op: Op)
    requires Lawful(c)
    ensures Meets(c, DiskAfter(c, [], op), FirstWrite(c, op))
  {
    var appended := AppendedBytes(c, [], op.w.key, op.w.payload, op.w.at);
    if op.Complete? || op.bytes >= |appended| {
      FirstAppendReturns(c, op.w);
      assert DiskAfter(c, [], op) == DiskAfter(c, [], Complete(op.w));
    } else if op.bytes <= |c.header| {
      CrashInsideHeader(c, op.w, op.bytes);
    } else {
      CrashAfterHeader(c, op.w, op.bytes);
    }
  }

  lemma AttemptMeets(c: Codec, disk: Bytes, condition: Condition, op: Op)
    requires Lawful(c) && Meets(c, disk, condition)
    ensures Meets(c, Attempted(c, disk, op), ConditionAfter(c, condition, op))
  {
    match condition
    case Fresh => FirstWriteMeets(c, op);
    case Refused =>
    case Surviving(s) => SurvivorsStep(c, disk, s, op);
  }

  lemma {:induction false} RunMeets(c: Codec, disk: Bytes, condition: Condition, ops: seq<Op>)
    requires Lawful(c) && Meets(c, disk, condition)
    ensures Meets(c, RunDisk(c, disk, ops), RunCondition(c, condition, ops))
    decreases |ops|
  {
    if |ops| > 0 {
      var init := ops[..|ops| - 1];
      RunMeets(c, disk, condition, init);
      AttemptMeets(c, RunDisk(c, disk, init), RunCondition(c, condition, init), ops[|ops| - 1]);
    }
  }

  /**
   * Over any run of appends and crashes, from an empty or newline-terminated file of this scope: unless the first
   * write was cut inside the header, the file stays loadable, every load agrees with the fresh parse, and that
   * parse finds exactly the survivors.  So an append never merges with torn bytes, and an unfinished record
   * surfaces only if its whole row reached the disk.
   */
  lemma CrashRunsKeepSurvivors(c: Codec, file: Bytes, ops: seq<Op>)
    requires Lawful(c) && Terminated(file) && ScanFile(c, file).failure.None?
    ensures var disk, condition := RunDisk(c, file, ops), RunCondition(c, StartOf(c, file), ops);
      && Meets(c, disk, condition)
      && (ScanFile(c, disk).failure.Some? <==> condition.Refused?)
      && (!condition.Refused? ==> Agrees(c, disk, ScanFile(c, disk).index))
  {
    StartMeets(c, file);
    RunMeets(c, file, StartOf(c, file), ops);
    var disk := RunDisk(c, file, ops);
    if ScanFile(c, disk).failure.None? {
      LoadAgrees(c, disk);
    }
  }

  /** The first operation that writes anything at all is a crash inside the header line of an empty file. */
  ghost predicate CutInHeader(c: Codec, condition: Condition, ops: seq<Op>, at: nat) {
    && condition.Fresh? && at < |ops|
    && (forall i :: 0 <= i < at ==> ops[i].Crash? && ops[i].bytes == 0)
    && ops[at].Crash? && 0 < ops[at].bytes <= |c.header|
  }

  /** A file is refused exactly when its first write was cut inside the header; no append had returned by then. */
  lemma {:induction false} RefusedExactlyWhen(c: Codec, condition: Condition, ops: seq<Op>)
    requires !condition.Refused?
    ensures RunCondition(c, condition, ops).Refused? <==> exists at :: CutInHeader(c, condition, ops, at)
    ensures RunCondition(c, condition, ops).Fresh? <==>
      condition.Fresh? && forall i :: 0 <= i < |ops| ==> ops[i].Crash? && ops[i].bytes == 0
    decreases |ops|
  {
    if |ops| > 0 {
      var init, last := ops[..|ops| - 1], |ops| - 1;
      RefusedExactlyWhen(c, condition, init);
      if at :| CutInHeader(c, condition, init, at) {
        assert CutInHeader(c, condition, ops, at);
      }
      if RunCondition(c, condition, ops).Refused? && !RunCondition(c, condition, init).Refused? {
        assert CutInHeader(c, condition, ops, last);
      }
      if at :| CutInHeader(c, condition, ops, at) {
        assert at == last || CutInHeader(c, condition, init, at);
      }
    }
  }

  /** Nothing pending in the tail or written later concerns this key. */
  predicate Settled(torn: Torn, later: seq<Op>, key: string) {
    && (torn.Whole? ==> torn.record.key != key)
    && forall i :: 0 <= i < |later| ==> later[i].w.key != key
  }

  lemma {:induction false} LaterWritesOfOtherKeys(c: Codec, s: Survivors, later: seq<Op>, key: string)
    requires Settled(s.torn, later, key)
    ensures LastPayload(RunSurvivors(c, s, later).records, key) == LastPayload(s.records, key)
    ensures Settled(RunSurvivors(c, s, later).torn, [], key)
    decreases |later|
  {
    if |later| > 0 {
      var init, op := later[..|later| - 1], later[|later| - 1];
      LaterWritesOfOtherKeys(c, s, init, key);
      var v := RunSurvivors(c, s, init);
      if v.torn.Whole? {
        LastPayloadSnoc(v.records, v.torn.record, key);
        LastPayloadSnoc(v.records + [v.torn.record], Record(op.w.key, op.w.payload), key);
      } else {
        assert v.records + [] == v.records;
        LastPayloadSnoc(v.records, Record(op.w.key, op.w.payload), key);
      }
    }
  }

  lemma {:induction false} SurvivorsRun(c: Codec, s: Survivors, ops: seq<Op>)
    ensures RunCondition(c, Surviving(s), ops) == Surviving(RunSurvivors(c, s, ops))
    decreases |ops|
  {
    if |ops| > 0 {
      SurvivorsRun(c, s, ops[..|ops| - 1]);
    }
  }

  /** The record of an append that returns comes last, with nothing torn after it. */
  lemma ReturnedAppendIsLast(c: Codec, condition: Condition, w: Write) returns (s: Survivors)
    requires !condition.Refused?
    ensures ConditionAfter(c, condition, Complete(w)) == Surviving(s) && s.torn.Clean?
    ensures LastPayload(s.records, w.key) == Some(w.payload)
  {
    s := ConditionAfter(c, condition, Complete(w)).s;
    var before := match condition case Surviving(v) => v.records + Surfaced(v.torn) case _ => [];
    LastPayloadSnoc(before, Record(w.key, w.payload), w.key);
    assert before + [Record(w.key, w.payload)] == s.records;
  }

  lemma LoadFindsSurvivors(c: Codec, disk: Bytes, s: Survivors, key: string)
    requires Holds(c, disk, s)
    ensures ScanFile(c, disk).failure.None?
    ensures Lookup(c, disk, ScanFile(c, disk).index, key) == LastPayload(s.records, key)
  {
    LoadAgrees(c, disk);
  }

  /** A record with nothing pending for its key outlives any operations on other keys. */
  lemma SurvivorOutlivesOtherKeys(c: Codec, disk: Bytes, s: Survivors, key: string, later: seq<Op>)
    requires Lawful(c) && Holds(c, disk, s) && Settled(s.torn, later, key)
    ensures var disk' := RunDisk(c, disk, later);
      && ScanFile(c, disk').failure.None?
      && Lookup(c, disk', ScanFile(c, disk').index, key) == LastPayload(s.records, key)
  {
    RunMeets(c, disk, Surviving(s), later);
    SurvivorsRun(c, s, later);
    LaterWritesOfOtherKeys(c, s, later, key);
    LoadFindsSurvivors(c, RunDisk(c, disk, later), RunSurvivors(c, s, later), key);
  }

  /**
   * Every payload whose append returned is recovered by the next load, whatever came before and after it, the
   * first append on an empty file included, unless its key was written again.
   */
  lemma ReturnedAppendIsRecovered(c: Codec, file: Bytes, earlier: seq<Op>, w: Write, later: seq<Op>)
    requires Lawful(c) && Terminated(file) && ScanFile(c, file).failure.None?
    requires !RunCondition(c, StartOf(c, file), earlier).Refused?
    requires forall i :: 0 <= i < |later| ==> later[i].w.key != w.key
    ensures var disk := RunDisk(c, Attempted(c, RunDisk(c, file, earlier), Complete(w)), later);
      && ScanFile(c, disk).failure.None?
      && Lookup(c, disk, ScanFile(c, disk).index, w.key) == Some(w.payload)
  {
    var before, condition := RunDisk(c, file, earlier), RunCondition(c, StartOf(c, file), earlier);
    StartMeets(c, file);
    RunMeets(c, file, StartOf(c, file), earlier);
    AttemptMeets(c, before, condition, Complete(w));
    var s := ReturnedAppendIsLast(c, condition, w);
    SurvivorOutlivesOtherKeys(c, Attempted(c, before, Complete(w)), s, w.key, later);
  }

  /**
   * The disagreement AppendKeepsAgreementExactlyWhen describes is reachable: a crash that loses only the row's
   * newline, a load, and an append for another key leave an index that misses the row a fresh parse now finds.
   */
  lemma LostNewlineBreaksAgreement(c: Codec, file: Bytes, w: Write, next: Write)
    requires Lawful(c) && Terminated(file) && ScanFile(c, file).failure.None?
    requires next.key != w.key && LastPayload(Records(c, file), w.key) != Some(w.payload)
    ensures
      var disk := DiskAfter(c, file, Crash(w, |Lead(c, file)| + |c.row(w.key, w.payload, w.at)|));
      var index := ScanFile(c, disk).index;
      && ScanFile(c, disk).failure.None? && Agrees(c, disk, index)
      && !Agrees(c, disk + AppendedBytes(c, disk, next.key, next.payload, next.at),
                 IndexAfter(c, disk, index, next.key, next.payload, next.at))
  {
    var cut := Crash(w, |Lead(c, file)| + |c.row(w.key, w.payload, w.at)|);
    var disk, record := DiskAfter(c, file, cut), Record(w.key, w.payload);
    LostNewlineLeavesTheRow(c, file, w);
    LoadAgrees(c, disk);
    AppendKeepsAgreementExactlyWhen(c, disk, ScanFile(c, disk).index, next.key, next.payload, next.at);
    assert record in TailRecord(c, disk);
  }

  lemma LostNewlineLeavesTheRow(c: Codec, file: Bytes, w: Write)
    requires Lawful(c) && Terminated(file) && ScanFile(c, file).failure.None?
    ensures Holds(c, DiskAfter(c, file, Crash(w, |Lead(c, file)| + |c.row(w.key, w.payload, w.at)|)),
                  Survivors(Records(c, file), Whole(Record(w.key, w.payload))))
  {
    var n := |Lead(c, file)| + |c.row(w.key, w.payload, w.at)|;
    StartMeets(c, file);
    if |file| == 0 {
      FirstWriteMeets(c, Crash(w, n));
      assert FirstWrite(c, Crash(w, n)) == Surviving(Survivors([], Whole(Record(w.key, w.payload))));
    } else {
      var s := Survivors(Records(c, file), Clean);
      LeadOfTorn(c, file, s);
      SurvivorsStep(c, file, s, Crash(w, n));
      WholeRowSurvives(c, s, w, n);
    }
  }

  lemma WholeRowSurvives(c: Codec, s: Survivors, w: Write, n: nat)
    requires Lawful(c) && s.torn.Clean? && n == |c.row(w.key, w.payload, w.at)|
    ensures SurvivorsAfter(c, s, Crash(w, n)) == Survivors(s.records, Whole(Record(w.key, w.payload)))
  {
    assert s.records + [] == s.records;
  }
}
