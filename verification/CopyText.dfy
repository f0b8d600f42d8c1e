/**
 Writing embedding results through COPY in text format: escaping, row framing, and a reader of that format
 that gets the rows back.
 */
module CopyText {
  import opened Basics

  /** The null mark the first COPY is opened with. */
  const NULL_MARK: string := "NULL"

  /** The null mark of a COPY opened without one. */
  const DEFAULT_MARK: string := "\\N"

  // ----- escaping

  /** str::replace of one character by a string. */
  function Replace(s: string, c: char, repl: string): string {
    if s == [] then [] else (if s[0] == c then repl else [s[0]]) + Replace(s[1..], c, repl)
  }

  /** The four replacements in the order the code makes them. */
  function Escape(s: string): string {
    Replace(Replace(Replace(Replace(s, '\\', "\\\\"), '\n', "\\n"), '\r', "\\r"), '\t', "\\t")
  }

  function EscapeChar(c: char): (r: string)
    ensures r != []
  {
    if c == '\\' then "\\\\"
    else if c == '\n' then "\\n"
    else if c == '\r' then "\\r"
    else if c == '\t' then "\\t"
    else [c]
  }

  /** The single-pass reference. */
  function EscapeOnce(s: string): string {
    if s == [] then [] else EscapeChar(s[0]) + EscapeOnce(s[1..])
  }

  lemma {:induction false} Associative(a: string, b: string, c: string)
    ensures a + (b + c) == a + b + c
  {
  }

  lemma {:induction false} ReplaceConcat(a: string, b: string, c: char, repl: string)
    ensures Replace(a + b, c, repl) == Replace(a, c, repl) + Replace(b, c, repl)
    decreases |a|
  {
    if a == [] {
      assert a + b == b;
    } else {
      ReplaceConcat(a[1..], b, c, repl);
      assert (a + b)[1..] == a[1..] + b;
      var head := if a[0] == c then repl else [a[0]];
      Associative(head, Replace(a[1..], c, repl), Replace(b, c, repl));
    }
  }

  lemma {:induction false} EscapeConcat(a: string, b: string)
    ensures Escape(a + b) == Escape(a) + Escape(b)
  {
    hide Replace;
    ReplaceConcat(a, b, '\\', "\\\\");
    var a1, b1 := Replace(a, '\\', "\\\\"), Replace(b, '\\', "\\\\");
    ReplaceConcat(a1, b1, '\n', "\\n");
    var a2, b2 := Replace(a1, '\n', "\\n"), Replace(b1, '\n', "\\n");
    ReplaceConcat(a2, b2, '\r', "\\r");
    var a3, b3 := Replace(a2, '\r', "\\r"), Replace(b2, '\r', "\\r");
    ReplaceConcat(a3, b3, '\t', "\\t");
  }

  lemma {:induction false} ReplaceOne(d: char, c: char, repl: string)
    ensures Replace([d], c, repl) == if d == c then repl else [d]
  {
    assert [d][1..] == [];
  }

  lemma {:induction false} ReplaceTwo(d: char, e: char, c: char, repl: string)
    requires d != c && e != c
    ensures Replace([d, e], c, repl) == [d, e]
  {
    ReplaceOne(d, c, repl);
    ReplaceOne(e, c, repl);
    ReplaceConcat([d], [e], c, repl);
    assert [d] + [e] == [d, e];
  }

  lemma {:induction false} EscapeOneChar(c: char)
    ensures Escape([c]) == EscapeChar(c)
  {
    hide Replace;
    ReplaceOne(c, '\\', "\\\\");
    ReplaceOne(c, '\n', "\\n");
    ReplaceOne(c, '\r', "\\r");
    ReplaceOne(c, '\t', "\\t");
    ReplaceTwo('\\', '\\', '\n', "\\n");
    ReplaceTwo('\\', '\\', '\r', "\\r");
    ReplaceTwo('\\', '\\', '\t', "\\t");
    ReplaceTwo('\\', 'n', '\r', "\\r");
    ReplaceTwo('\\', 'n', '\t', "\\t");
    ReplaceTwo('\\', 'r', '\t', "\\t");
  }

  /** The four replacements, each over the whole output of the one before, are one pass. */
  lemma {:induction false} FourPassesAreOne(s: string)
    ensures Escape(s) == EscapeOnce(s)
    decreases |s|
  {
    hide Escape, EscapeChar;
    if s == [] {
      EscapeEmpty();
    } else {
      FourPassesAreOne(s[1..]);
      EscapeOneChar(s[0]);
      EscapeConcat([s[0]], s[1..]);
      assert [s[0]] + s[1..] == s;
    }
  }

  lemma {:induction false} EscapeEmpty()
    ensures Escape([]) == []
  {
  }

  predicate Special(c: char) {
    c == '\t' || c == '\n' || c == '\r'
  }

  lemma {:induction false} EscapedHasNoSpecial(s: string)
    ensures forall i :: 0 <= i < |EscapeOnce(s)| ==> !Special(EscapeOnce(s)[i])
    decreases |s|
  {
    if s != [] {
      EscapedHasNoSpecial(s[1..]);
    }
  }

  // ----- the reader

  function UnescapeChar(c: char): char {
    if c == 'n' then '\n'
    else if c == 'r' then '\r'
    else if c == 't' then '\t'
    else if c == 'b' then 8 as char
    else if c == 'f' then 12 as char
    else if c == 'v' then 11 as char
    else c
  }

  function Unescape(raw: string): string {
    if raw == [] then []
    else if raw[0] == '\\' && |raw| >= 2 then [UnescapeChar(raw[1])] + Unescape(raw[2..])
    else [raw[0]] + Unescape(raw[1..])
  }

  /** Length of the raw field at the head of the text: up to a tab or newline no backslash precedes. */
  function FieldLength(text: string): (n: nat)
    ensures n <= |text|
  {
    if text == [] || text[0] == '\t' || text[0] == '\n' then 0
    else if text[0] == '\\' && |text| >= 2 then 2 + FieldLength(text[2..])
    else 1 + FieldLength(text[1..])
  }

  /** A field that is the null mark, before any unescaping, is null. */
  function FieldValue(raw: string, mark: string): Option<string> {
    if raw == mark then None else Some(Unescape(raw))
  }

  datatype Line = Line(fields: seq<Option<string>>, rest: string)

  function ReadLine(text: string, mark: string): Line
    decreases |text|
  {
    var n := FieldLength(text);
    var value := FieldValue(text[..n], mark);
    if n < |text| && text[n] == '\t' then
      var more := ReadLine(text[n + 1..], mark);
      Line([value] + more.fields, more.rest)
    else if n < |text| then Line([value], text[n + 1..])
    else Line([value], [])
  }

  function ReadRows(text: string, mark: string, rows: nat): seq<seq<Option<string>>>
    decreases rows
  {
    if rows == 0 then []
    else
      var line := ReadLine(text, mark);
      [line.fields] + ReadRows(line.rest, mark, rows - 1)
  }

  // ----- round trip of a value

  lemma {:induction false} UnescapeStep(c: char, rest: string)
    ensures Unescape(EscapeChar(c) + rest) == [c] + Unescape(rest)
  {
    var e := EscapeChar(c);
    if |e| == 2 {
      assert (e + rest)[2..] == rest;
    } else {
      assert (e + rest)[1..] == rest;
    }
  }

  lemma {:induction false} UnescapeEscaped(s: string)
    ensures Unescape(EscapeOnce(s)) == s
    decreases |s|
  {
    hide EscapeChar;
    if s == [] {
    } else {
      UnescapeEscaped(s[1..]);
      UnescapeStep(s[0], EscapeOnce(s[1..]));
      assert s == [s[0]] + s[1..];
    }
  }

  lemma {:induction false} FieldStep(c: char, rest: string)
    ensures FieldLength(EscapeChar(c) + rest) == |EscapeChar(c)| + FieldLength(rest)
  {
    var e := EscapeChar(c);
    if |e| == 2 {
      assert (e + rest)[2..] == rest;
    } else {
      assert (e + rest)[1..] == rest;
    }
  }

  /** An escaped value ends exactly where the frame says, whatever follows the terminator. */
  lemma {:induction false} EscapedFieldEnds(s: string, tail: string)
    requires tail != [] && (tail[0] == '\t' || tail[0] == '\n')
    ensures FieldLength(EscapeOnce(s) + tail) == |EscapeOnce(s)|
    decreases |s|
  {
    hide EscapeChar;
    if s == [] {
      assert EscapeOnce(s) + tail == tail;
    } else {
      EscapedFieldEnds(s[1..], tail);
      var rest := EscapeOnce(s[1..]);
      FieldStep(s[0], rest + tail);
      assert EscapeOnce(s) + tail == EscapeChar(s[0]) + (rest + tail);
    }
  }

  predicate Plain(s: string) {
    forall i :: 0 <= i < |s| ==> !Special(s[i]) && s[i] != '\\'
  }

  lemma {:induction false} PlainIsItsEscape(s: string)
    requires Plain(s)
    ensures EscapeOnce(s) == s
    decreases |s|
  {
    if s != [] {
      PlainIsItsEscape(s[1..]);
      assert s == [s[0]] + s[1..];
    }
  }

  /** Which values are taken for null: under the NULL mark only the text NULL, under the default mark none. */
  lemma {:induction false} MarkMeets(s: string)
    ensures EscapeOnce(s) == NULL_MARK <==> s == NULL_MARK
    ensures EscapeOnce(s) != DEFAULT_MARK
  {
    PlainIsItsEscape(NULL_MARK);
    UnescapeEscaped(s);
    UnescapeEscaped(NULL_MARK);
    if s != [] {
      assert EscapeOnce(s)[0] == EscapeChar(s[0])[0];
      if |EscapeChar(s[0])| == 2 {
        assert EscapeOnce(s)[1] == EscapeChar(s[0])[1];
      }
    }
  }

  // ----- rows

  datatype Record = Record(pk: string, text: string)

  /** EmbeddingRecord::from_string. */
  function FromString(pk: string, value: string): Record {
    if |value| > 0 then Record(pk, Escape(value)) else Record(pk, NULL_MARK)
  }

  function Frame(r: Record): string {
    r.pk + "\t" + r.text + "\n"
  }

  datatype Result = Result(pk: string, value: string)

  function FrameAll(results: seq<Result>): string {
    if results == [] then []
    else Frame(FromString(results[0].pk, results[0].value)) + FrameAll(results[1..])
  }

  function Shown(value: string): string {
    if value == "" then NULL_MARK else value
  }

  /** What the reader makes of one result. */
  function AsRead(r: Result, mark: string): seq<Option<string>> {
    [Some(r.pk), if mark == NULL_MARK && Shown(r.value) == NULL_MARK then None else Some(Shown(r.value))]
  }

  predicate IsMark(mark: string) {
    mark == NULL_MARK || mark == DEFAULT_MARK
  }

  predicate WritablePk(pk: string, mark: string) {
    Plain(pk) && pk != mark
  }

  lemma {:induction false} RecordText(r: Result)
    ensures FromString(r.pk, r.value) == Record(r.pk, EscapeOnce(Shown(r.value)))
  {
    FourPassesAreOne(r.value);
    PlainIsItsEscape(NULL_MARK);
  }

  lemma {:induction false} ReadLastField(s: string, mark: string, tail: string)
    ensures ReadLine(EscapeOnce(s) + ("\n" + tail), mark) == Line([FieldValue(EscapeOnce(s), mark)], tail)
  {
    hide EscapeOnce, FieldLength, FieldValue;
    var e := EscapeOnce(s);
    var text := e + ("\n" + tail);
    EscapedFieldEnds(s, "\n" + tail);
    assert text[..|e|] == e && text[|e|] == '\n' && text[|e| + 1..] == tail;
  }

  lemma {:induction false} ReadFirstField(pk: string, mark: string, more: string)
    requires WritablePk(pk, mark)
    ensures var rest := ReadLine(more, mark);
      ReadLine(pk + ("\t" + more), mark) == Line([Some(pk)] + rest.fields, rest.rest)
  {
    hide EscapeOnce, FieldLength, Unescape, Plain;
    PlainIsItsEscape(pk);
    var text := pk + ("\t" + more);
    EscapedFieldEnds(pk, "\t" + more);
    UnescapeEscaped(pk);
    assert text[..|pk|] == pk && text[|pk|] == '\t' && text[|pk| + 1..] == more;
  }

  /** One row, followed by anything, is read back as its two fields and leaves what followed. */
  lemma {:induction false} ReadOneRow(r: Result, mark: string, tail: string)
    requires WritablePk(r.pk, mark) && IsMark(mark)
    ensures ReadLine(Frame(FromString(r.pk, r.value)) + tail, mark) == Line(AsRead(r, mark), tail)
  {
    hide EscapeOnce, Unescape, ReadLine, FromString, Shown, WritablePk;
    RecordText(r);
    var shown := Shown(r.value);
    var second := EscapeOnce(shown) + ("\n" + tail);
    assert Frame(FromString(r.pk, r.value)) + tail == r.pk + ("\t" + second);
    ReadFirstField(r.pk, mark, second);
    ReadLastField(shown, mark, tail);
    MarkMeets(shown);
    UnescapeEscaped(shown);
  }

  /** The reader recovers every row written, in order. */
  lemma {:induction false} ReadAllRows(results: seq<Result>, mark: string)
    requires IsMark(mark)
    requires forall i :: 0 <= i < |results| ==> WritablePk(results[i].pk, mark)
    ensures var rows := ReadRows(FrameAll(results), mark, |results|);
      |rows| == |results| && forall i :: 0 <= i < |results| ==> rows[i] == AsRead(results[i], mark)
    decreases |results|
  {
    hide ReadLine, Frame, FromString, AsRead, WritablePk, IsMark;
    if results == [] {
    } else {
      ReadOneRow(results[0], mark, FrameAll(results[1..]));
      ReadAllRows(results[1..], mark);
    }
  }

  // ----- the exporter

  const CHUNK_SIZE := 10485760
  const MIN_FLUSH_ROWS := 50
  const MAX_FLUSH_ROWS := 1000

  lemma {:induction false} FrameAllConcat(a: seq<Result>, b: seq<Result>)
    ensures FrameAll(a + b) == FrameAll(a) + FrameAll(b)
    decreases |a|
  {
    hide Frame, FromString;
    if a == [] {
      assert a + b == b;
    } else {
      FrameAllConcat(a[1..], b);
      assert (a + b)[1..] == a[1..] + b;
    }
  }

  method AppendRows(start: string, rows: seq<Result>) returns (buf: string)
    ensures buf == start + FrameAll(rows)
  {
    hide Frame, FromString;
    buf := start;
    for i := 0 to |rows|
      invariant buf + FrameAll(rows[i..]) == start + FrameAll(rows)
    {
      var rec := FromString(rows[i].pk, rows[i].value);
      assert rows[i..][1..] == rows[i + 1..];
      FrameIs(rec);
      buf := buf + rec.pk;
      buf := buf + "\t";
      buf := buf + rec.text;
      buf := buf + "\n";
    }
  }

  lemma {:induction false} FrameIs(r: Record)
    ensures Frame(r) == r.pk + "\t" + r.text + "\n"
  {
  }

  /** The rows of a sequence of batches, in order. */
  ghost function AllRows(batches: seq<seq<Result>>): seq<Result> {
    if batches == [] then [] else AllRows(batches[..|batches| - 1]) + batches[|batches| - 1]
  }

  lemma {:induction false} AllRowsPush(batches: seq<seq<Result>>, batch: seq<Result>)
    ensures AllRows(batches + [batch]) == AllRows(batches) + batch
  {
    assert (batches + [batch])[..|batches|] == batches;
  }

  /** The committed COPY texts hold exactly these groups of rows. */
  ghost predicate Carries(segments: seq<string>, groups: seq<seq<Result>>) {
    |segments| == |groups| && forall i :: 0 <= i < |groups| ==> segments[i] == FrameAll(groups[i])
  }

  datatype Flushing = Flushing(groups: seq<seq<Result>>, group: seq<Result>)

  /** The groups committed after `n` batches, and the rows collected since. */
  ghost function Flushed(batches: seq<seq<Result>>, stream: bool, elapsed: seq<bool>, n: nat): Flushing
    requires n <= |batches| == |elapsed|
  {
    if n == 0 then Flushing([], [])
    else
      var before := Flushed(batches, stream, elapsed, n - 1);
      var group := before.group + batches[n - 1];
      if stream && (|group| >= MAX_FLUSH_ROWS || (elapsed[n - 1] && |group| >= MIN_FLUSH_ROWS))
      then Flushing(before.groups + [group], [])
      else Flushing(before.groups, group)
  }

  /** The rows of each COPY of a run. */
  ghost function Groups(batches: seq<seq<Result>>, stream: bool, elapsed: seq<bool>): seq<seq<Result>>
    requires |batches| == |elapsed|
  {
    var f := Flushed(batches, stream, elapsed, |batches|);
    if AllRows(batches) == [] then [] else f.groups + [f.group]
  }

  /** Batch i closes the group that began with batch `from`. */
  ghost predicate Closes(batches: seq<seq<Result>>, stream: bool, elapsed: seq<bool>, from: nat, i: nat)
    requires from <= i < |batches| == |elapsed|
  {
    var rows := |AllRows(batches[from..i + 1])|;
    stream && (rows >= MAX_FLUSH_ROWS || (elapsed[i] && rows >= MIN_FLUSH_ROWS))
  }

  /** The batches from `from` to `to`, the last of them excepted, leave the group open. */
  ghost predicate StaysOpen(batches: seq<seq<Result>>, stream: bool, elapsed: seq<bool>, from: nat, to: nat)
    requires to <= |batches| == |elapsed|
  {
    forall i :: from <= i < to ==> !Closes(batches, stream, elapsed, from, i)
  }

  /** Group k is the batches from cuts[k] to cuts[k + 1]; the last of them is the first that closes it. */
  ghost predicate IsCut(batches: seq<seq<Result>>, stream: bool, elapsed: seq<bool>, cuts: seq<nat>,
                        groups: seq<seq<Result>>, n: nat)
    requires n <= |batches| == |elapsed|
  {
    && |cuts| == |groups| + 1 && cuts[0] == 0 && cuts[|groups|] <= n
    && forall k :: 0 <= k < |groups| ==> IsGroup(batches, stream, elapsed, cuts[k], CutAfter(cuts, k), groups[k])
  }

  ghost function CutAfter(cuts: seq<nat>, k: nat): nat
    requires k + 1 < |cuts|
  {
    cuts[k + 1]
  }

  ghost predicate IsGroup(batches: seq<seq<Result>>, stream: bool, elapsed: seq<bool>, from: nat, to: nat, group: seq<Result>)
    requires |batches| == |elapsed|
  {
    && from < to <= |batches| && group == AllRows(batches[from..to])
    && Closes(batches, stream, elapsed, from, to - 1) && StaysOpen(batches, stream, elapsed, from, to - 1)
  }

  /** When groups are closed: after the first batch with which the rows since the last one reach 1000, or reach
      50 with the timer run out. */
  lemma {:induction false} FlushedIsCut(batches: seq<seq<Result>>, stream: bool, elapsed: seq<bool>, n: nat)
    returns (cuts: seq<nat>)
    requires n <= |batches| == |elapsed|
    ensures var f := Flushed(batches, stream, elapsed, n);
      && IsCut(batches, stream, elapsed, cuts, f.groups, n)
      && f.group == AllRows(batches[cuts[|f.groups|]..n])
      && StaysOpen(batches, stream, elapsed, cuts[|f.groups|], n)
    decreases n
  {
    hide AllRows, Closes;
    if n == 0 {
      cuts := [0];
      NoRows();
    } else {
      var before := Flushed(batches, stream, elapsed, n - 1);
      cuts := FlushedIsCut(batches, stream, elapsed, n - 1);
      var m := |before.groups|;
      var from := cuts[m];
      assert batches[from..n] == batches[from..n - 1] + [batches[n - 1]];
      AllRowsPush(batches[from..n - 1], batches[n - 1]);
      ClosesNow(batches, stream, elapsed, from, n - 1, before.group + batches[n - 1]);
      if Closes(batches, stream, elapsed, from, n - 1) {
        var longer, groups := cuts + [n], before.groups + [before.group + batches[n - 1]];
        assert batches[n..n] == [];
        NoRows();
        forall k | 0 <= k < |groups| ensures IsGroup(batches, stream, elapsed, longer[k], CutAfter(longer, k), groups[k]) {
          if k < m {
            assert IsGroup(batches, stream, elapsed, cuts[k], CutAfter(cuts, k), before.groups[k]);
          }
        }
        cuts := longer;
      }
    }
  }

  lemma {:induction false} ClosesNow(batches: seq<seq<Result>>, stream: bool, elapsed: seq<bool>, from: nat, i: nat, group: seq<Result>)
    requires from <= i < |batches| == |elapsed| && group == AllRows(batches[from..i + 1])
    ensures Closes(batches, stream, elapsed, from, i)
            <==> stream && (|group| >= MAX_FLUSH_ROWS || (elapsed[i] && |group| >= MIN_FLUSH_ROWS))
  {
  }

  /**
   The exporter: rows are framed into a buffer, sent to the open COPY, and each flush commits that COPY
   and opens the next. elapsed says at which batches the flush timer has run out.
   */
  method Export(batches: seq<seq<Result>>, stream: bool, elapsed: seq<bool>)
    returns (segments: seq<string>, processed: nat, ghost groups: seq<seq<Result>>)
    requires |elapsed| == |batches|
    ensures groups == Groups(batches, stream, elapsed)
    ensures Carries(segments, groups)
    ensures AllRows(groups) == AllRows(batches) && processed == |AllRows(batches)|
    ensures !stream ==> |segments| <= 1
    ensures segments == [] <==> AllRows(batches) == []
    ensures forall i :: 0 <= i < |groups| - 1 ==> |groups[i]| >= MIN_FLUSH_ROWS
  {
    hide AllRows, FrameAll;
    var buf, sink, collected := "", "", 0;
    segments, processed, groups := [], 0, [];
    ghost var group: seq<Result> := [];
    NoRows();
    for i := 0 to |batches|
      invariant Flushing(groups, group) == Flushed(batches, stream, elapsed, i)
      invariant sink + buf == FrameAll(group) && collected == |group|
      invariant Carries(segments, groups) && (!stream ==> segments == [])
      invariant AllRows(groups) + group == AllRows(batches[..i]) && processed == |AllRows(batches[..i])|
      invariant forall j :: 0 <= j < |groups| ==> |groups[j]| >= MIN_FLUSH_ROWS
      invariant segments != [] ==> processed > 0
    {
      FrameAllConcat(group, batches[i]);
      AllRowsPush(batches[..i], batches[i]);
      assert batches[..i + 1] == batches[..i] + [batches[i]];
      buf := AppendRows(buf, batches[i]);
      collected := collected + |batches[i]|;
      group := group + batches[i];
      if |buf| > CHUNK_SIZE {
        sink, buf := sink + buf, "";
      }
      processed := processed + |batches[i]|;
      if stream && (collected >= MAX_FLUSH_ROWS || (elapsed[i] && collected >= MIN_FLUSH_ROWS)) {
        if buf != "" {
          sink, buf := sink + buf, "";
        }
        AllRowsPush(groups, group);
        segments, groups := segments + [sink], groups + [group];
        sink, collected, group := "", 0, [];
      }
    }
    assert batches[..|batches|] == batches;
    if processed == 0 {
      return;
    }
    if buf != "" {
      sink, buf := sink + buf, "";
    }
    AllRowsPush(groups, group);
    segments, groups := segments + [sink], groups + [group];
  }

  lemma {:induction false} NoRows()
    ensures FrameAll([]) == [] && AllRows([]) == []
  {
  }

  /** The first COPY declares the null mark, the ones opened after a flush do not. */
  function MarkOf(segment: nat): (mark: string)
    ensures IsMark(mark)
  {
    if segment == 0 then NULL_MARK else DEFAULT_MARK
  }

  /** What should reach the table: an empty value as null, any other as itself. */
  function Intended(r: Result): seq<Option<string>> {
    [Some(r.pk), if r.value == "" then None else Some(r.value)]
  }

  /** The value a segment gets wrong: the text NULL in the first, the empty value in every later one. */
  function Misread(segment: nat): string {
    if segment == 0 then NULL_MARK else ""
  }

  /** Every row of a segment reaches the table as intended exactly if the segment has no value it misreads. */
  lemma {:induction false} SegmentIsRightExactly(group: seq<Result>, segment: nat)
    requires forall i :: 0 <= i < |group| ==> WritablePk(group[i].pk, MarkOf(segment))
    ensures var rows := ReadRows(FrameAll(group), MarkOf(segment), |group|);
      |rows| == |group| &&
      forall i :: 0 <= i < |group| ==> (rows[i] == Intended(group[i]) <==> group[i].value != Misread(segment))
  {
    hide ReadRows, FrameAll, WritablePk;
    ReadAllRows(group, MarkOf(segment));
  }

  /** A whole run: every exported row is in one segment, and is read there as intended unless misread there. */
  lemma {:induction false} ExportIsRightExactly(segments: seq<string>, groups: seq<seq<Result>>)
    requires Carries(segments, groups)
    requires forall r :: r in AllRows(groups) ==> WritablePk(r.pk, NULL_MARK)
    ensures (forall k, i :: 0 <= k < |groups| && 0 <= i < |groups[k]| ==>
               ReadRow(segments[k], k, |groups[k]|, i) == Intended(groups[k][i]))
            <==>
            (forall k, i :: 0 <= k < |groups| && 0 <= i < |groups[k]| ==> groups[k][i].value != Misread(k))
  {
    hide FrameAll, WritablePk, Intended, Misread, ReadRow;
    forall k, i | 0 <= k < |groups| && 0 <= i < |groups[k]|
      ensures ReadRow(segments[k], k, |groups[k]|, i) == Intended(groups[k][i]) <==> groups[k][i].value != Misread(k)
    {
      RowIsRightExactly(groups, k, i);
    }
  }

  function ReadRow(text: string, segment: nat, rows: nat, i: nat): seq<Option<string>> {
    var read := ReadRows(text, MarkOf(segment), rows);
    if i < |read| then read[i] else []
  }

  lemma {:induction false} RowIsRightExactly(groups: seq<seq<Result>>, k: nat, i: nat)
    requires k < |groups| && i < |groups[k]|
    requires forall r :: r in AllRows(groups) ==> WritablePk(r.pk, NULL_MARK)
    ensures ReadRow(FrameAll(groups[k]), k, |groups[k]|, i) == Intended(groups[k][i])
            <==> groups[k][i].value != Misread(k)
  {
    hide FrameAll, ReadRows, AllRows, Intended, Misread;
    forall j | 0 <= j < |groups[k]|
      ensures WritablePk(groups[k][j].pk, MarkOf(k))
    {
      PartOfAll(groups, k, j);
      PlainHasNoMark(groups[k][j].pk);
    }
    SegmentIsRightExactly(groups[k], k);
  }

  lemma {:induction false} PlainHasNoMark(s: string)
    requires Plain(s)
    ensures s != DEFAULT_MARK
  {
    assert DEFAULT_MARK[0] == '\\';
  }

  lemma {:induction false} PartOfAll(parts: seq<seq<Result>>, k: nat, i: nat)
    requires k < |parts| && i < |parts[k]|
    ensures parts[k][i] in AllRows(parts)
    decreases |parts|
  {
    if k == |parts| - 1 {
    } else {
      PartOfAll(parts[..|parts| - 1], k, i);
    }
  }

  /** Every streamed run of 1000 rows and then a row with an empty value loses that null: the flush after the
      first batch leaves the second COPY without the null mark, and the value arrives as the text NULL. */
  lemma {:induction false} LateEmptyValueBecomesText(first: seq<Result>, pk: string, elapsed: seq<bool>)
    requires |first| >= MAX_FLUSH_ROWS && |elapsed| == 2 && WritablePk(pk, DEFAULT_MARK)
    ensures var groups := Groups([first, [Result(pk, "")]], true, elapsed);
      && groups == [first, [Result(pk, "")]]
      && ReadRow(FrameAll(groups[1]), 1, |groups[1]|, 0) == [Some(pk), Some("NULL")]
  {
    hide ReadRows, FrameAll, WritablePk;
    var row := [Result(pk, "")];
    var batches := [first, row];
    assert [] + first == first && [] + row == row;
    assert Flushed(batches, true, elapsed, 1) == Flushing([first], []);
    assert batches[..1] == [first] && AllRows(batches) == AllRows(batches[..1]) + row;
    ReadAllRows(row, DEFAULT_MARK);
  }
}
