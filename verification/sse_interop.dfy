/**
 * The browser side of a streaming turn (`fetchSse`): the response body arrives in chunks,
 * is cut into records at blank lines (`"\n\n"`), each record's `event: ` and `data: ` lines
 * are read, and every record with both a type and data becomes an `OnSseEvent` call on the
 * .NET side; the tail left when the body ends is read the same way before `OnSseComplete`.
 *
 * This is a simplified reading of the event-stream format of section 9.2.6 of the WHATWG HTML
 * Living Standard: the space after the colon is required, the last `data: ` line of a record
 * wins instead of being joined with the others, and a carriage return is not a line end.
 *
 * The splitting is specified by `Split`; `FetchSse` is the loop of the client, proved to
 * dispatch the records of the whole body whatever the chunk boundaries.
 */
module SseInterop {

  import opened Wrappers
  import opened Text

  // ---------------------------------------------------------------------------------
  // Splitting

  /** `sep` occurs in `s` at position `j`. */
  predicate OccursAt(s: string, sep: string, j: nat) {
    j + |sep| <= |s| && s[j..j + |sep|] == sep
  }

  /** The first position at or after `from` where `sep` occurs in `s`, if any. */
  function FindSep(s: string, sep: string, from: nat): (r: Option<nat>)
    decreases |s| - from
    ensures r.Some? ==> from <= r.value && OccursAt(s, sep, r.value)
    ensures r.Some? ==> forall j: nat :: from <= j < r.value ==> !OccursAt(s, sep, j)
    ensures r.None? ==> forall j: nat :: from <= j ==> !OccursAt(s, sep, j)
  {
    if from + |sep| > |s| then None
    else if OccursAt(s, sep, from) then Some(from)
    else FindSep(s, sep, from + 1)
  }

  /**
   * JavaScript's `s.split(sep)` for a non-empty separator: the pieces between the leftmost,
   * non-overlapping occurrences of `sep`. There is always at least one piece, and no piece
   * contains the separator.
   */
  function Split(s: string, sep: string): (parts: seq<string>)
    requires |sep| > 0
    decreases |s|
    ensures |parts| >= 1
  {
    match FindSep(s, sep, 0)
    case None => [s]
    case Some(i) => [s[..i]] + Split(s[i + |sep|..], sep)
  }

  /** No piece contains the separator. */
  lemma {:induction false} SplitPiecesClean(s: string, sep: string)
    requires |sep| > 0
    ensures forall k, j: nat :: 0 <= k < |Split(s, sep)| ==> !OccursAt(Split(s, sep)[k], sep, j)
    decreases |s|
  {
    match FindSep(s, sep, 0)
    case None =>
      assert Split(s, sep) == [s];
    case Some(i) =>
      var rest := s[i + |sep|..];
      SplitStep(s, sep, i);
      SplitPiecesClean(rest, sep);
      forall j: nat | OccursAt(s[..i], sep, j) ensures false {
        assert s[..i][j..j + |sep|] == s[j..j + |sep|];
        assert OccursAt(s, sep, j);
      }
      var parts := Split(s, sep);
      forall k, j: nat | 0 <= k < |parts| ensures !OccursAt(parts[k], sep, j) {
        if k > 0 {
          assert parts[k] == Split(rest, sep)[k - 1];
        }
      }
  }

  /** The pieces joined again with the separator (`parts.join(sep)`). */
  function Join(parts: seq<string>, sep: string): string
    requires |parts| >= 1
  {
    if |parts| == 1 then parts[0] else parts[0] + sep + Join(parts[1..], sep)
  }

  /** Splitting loses nothing: joining the pieces gives back the text. */
  lemma {:induction false} SplitJoin(s: string, sep: string)
    requires |sep| > 0
    ensures Join(Split(s, sep), sep) == s
    decreases |s|
  {
    match FindSep(s, sep, 0)
    case None =>
      assert Split(s, sep) == [s];
    case Some(i) =>
      var rest := s[i + |sep|..];
      SplitJoin(rest, sep);
      var parts := Split(s, sep);
      SplitStep(s, sep, i);
      assert |parts| > 1 && parts[0] == s[..i] && parts[1..] == Split(rest, sep);
      assert Join(parts, sep) == s[..i] + sep + Join(Split(rest, sep), sep);
      assert s[i..i + |sep|] == sep;
      assert s == s[..i] + s[i..i + |sep|] + rest;
  }

  /** Helper: the first piece ends at the first occurrence; the rest is the split of what follows it. */
  lemma SplitStep(s: string, sep: string, i: nat)
    requires |sep| > 0 && FindSep(s, sep, 0) == Some(i)
    ensures i + |sep| <= |s|
    ensures Split(s, sep) == [s[..i]] + Split(s[i + |sep|..], sep)
  {
  }

  /** All pieces but the last. */
  function Init(parts: seq<string>): seq<string>
    requires |parts| >= 1
  {
    parts[..|parts| - 1]
  }

  /** The last piece. */
  function Last(parts: seq<string>): string
    requires |parts| >= 1
  {
    parts[|parts| - 1]
  }

  /** Helper: an occurrence found in `x` is the first one in every extension of `x`. */
  lemma {:induction false} FindSepExtends(x: string, y: string, sep: string, from: nat)
    requires FindSep(x, sep, from).Some?
    ensures FindSep(x + y, sep, from) == FindSep(x, sep, from)
    decreases |x| - from
  {
    assert (x + y)[from..from + |sep|] == x[from..from + |sep|];
    if !OccursAt(x, sep, from) {
      FindSepExtends(x, y, sep, from + 1);
    }
  }

  /**
   * Splitting a text that grows: the complete pieces of `x` stay as they are, and the rest
   * is the split of `x`'s unfinished last piece followed by the new text.
   */
  lemma {:induction false} SplitAppend(x: string, y: string, sep: string)
    requires |sep| > 0
    ensures Split(x + y, sep) == Init(Split(x, sep)) + Split(Last(Split(x, sep)) + y, sep)
    decreases |x|
  {
    match FindSep(x, sep, 0)
    case None =>
      assert Split(x, sep) == [x];
      assert Init([x]) == [] && Last([x]) == x;
    case Some(i) =>
      SplitAppend(x[i + |sep|..], y, sep);
      SplitAppendCut(x, y, sep, i);
  }

  /** Helper: the step of `SplitAppend` past the first separator of `x`. */
  lemma SplitAppendCut(x: string, y: string, sep: string, i: nat)
    requires |sep| > 0 && FindSep(x, sep, 0) == Some(i)
    requires i + |sep| <= |x|
    requires var p := Split(x[i + |sep|..], sep);
      Split(x[i + |sep|..] + y, sep) == Init(p) + Split(Last(p) + y, sep)
    ensures Split(x + y, sep) == Init(Split(x, sep)) + Split(Last(Split(x, sep)) + y, sep)
  {
    SplitAtFirst(x, y, sep, i);
    var p := Split(x[i + |sep|..], sep);
    var sx := Split(x, sep);
    var tail := Split(Last(p) + y, sep);
    assert Init(sx) == [x[..i]] + Init(p);
    assert Last(sx) + y == Last(p) + y;
    assert Split(Last(sx) + y, sep) == tail;
    assert Split(x + y, sep) == [x[..i]] + (Init(p) + tail);
    Associative([x[..i]], Init(p), tail);
  }

  /** Helper: cutting `x + y` at the first separator of `x`. */
  lemma SplitAtFirst(x: string, y: string, sep: string, i: nat)
    requires |sep| > 0 && FindSep(x, sep, 0) == Some(i)
    ensures Split(x, sep) == [x[..i]] + Split(x[i + |sep|..], sep)
    ensures Split(x + y, sep) == [x[..i]] + Split(x[i + |sep|..] + y, sep)
  {
    SplitStep(x, sep, i);
    FindSepExtends(x, y, sep, 0);
    SplitStep(x + y, sep, i);
    assert (x + y)[..i] == x[..i];
    assert (x + y)[i + |sep|..] == x[i + |sep|..] + y;
  }

  // ---------------------------------------------------------------------------------
  // Records

  /** The separator of records: a blank line. */
  const RecordSeparator: string := "\n\n"

  /** The prefix of the line that names the event type. */
  const EventPrefix: string := "event: "

  /** The prefix of the line that carries the data. */
  const DataPrefix: string := "data: "

  /** The calls made on the .NET object. */
  datatype Call =
    | OnSseEvent(eventType: string, data: string)
    | OnSseComplete
    | OnSseError(message: string)

  /** What follows `prefix` on the last of `lines` that starts with it, if any line does. */
  function LastValue(lines: seq<string>, prefix: string): (r: Option<string>)
    ensures r.Some? <==> exists k :: 0 <= k < |lines| && StartsWith(lines[k], prefix)
    ensures r.Some? ==>
      exists k :: (0 <= k < |lines| && StartsWith(lines[k], prefix) && r.value == lines[k][|prefix|..] &&
                   forall m :: k < m < |lines| ==> !StartsWith(lines[m], prefix))
  {
    if lines == [] then None
    else if StartsWith(lines[|lines| - 1], prefix) then Some(lines[|lines| - 1][|prefix|..])
    else LastValue(lines[..|lines| - 1], prefix)
  }

  /** JavaScript truthiness of a string that may be null: present and not empty. */
  predicate Truthy(s: Option<string>) {
    s.Some? && s.value != []
  }

  /** The calls one record causes: none for a blank record or one lacking a type or data. */
  function RecordCalls(part: string): (r: seq<Call>)
    ensures |r| <= 1
    ensures IsBlankJs(part) ==> r == []
    ensures r != [] ==> r[0].OnSseEvent? && r[0].eventType != [] && r[0].data != []
  {
    if IsBlankJs(part) then []
    else
      var lines := Split(part, "\n");
      var eventType := LastValue(lines, EventPrefix);
      var data := LastValue(lines, DataPrefix);
      if Truthy(eventType) && Truthy(data) then [OnSseEvent(eventType.value, data.value)] else []
  }

  /** The calls for a sequence of records, in order. */
  function Dispatched(parts: seq<string>): seq<Call> {
    if parts == [] then [] else Dispatched(parts[..|parts| - 1]) + RecordCalls(parts[|parts| - 1])
  }

  /** Helper: the calls for two runs of records are the calls for each. */
  lemma {:induction false} DispatchedAppend(a: seq<string>, b: seq<string>)
    ensures Dispatched(a + b) == Dispatched(a) + Dispatched(b)
    decreases |b|
  {
    if b == [] {
      assert a + b == a;
    } else {
      var b' := b[..|b| - 1];
      var x := b[|b| - 1];
      assert b == b' + [x];
      Associative(a, b', [x]);
      DispatchedAppend(a, b');
      DispatchedTail(a + b', x);
      DispatchedTail(b', x);
      Associative(Dispatched(a), Dispatched(b'), RecordCalls(x));
    }
  }

  /** The lines of a record, read one at a time: the last `event: ` and the last `data: ` line win. */
  method ReadFields(lines: seq<string>) returns (eventType: Option<string>, data: Option<string>)
    ensures eventType == LastValue(lines, EventPrefix) && data == LastValue(lines, DataPrefix)
  {
    eventType, data := None, None;
    var i := 0;
    while i < |lines|
      invariant i <= |lines|
      invariant eventType == LastValue(lines[..i], EventPrefix)
      invariant data == LastValue(lines[..i], DataPrefix)
    {
      LastValueStep(lines, i, EventPrefix);
      LastValueStep(lines, i, DataPrefix);
      var line := lines[i];
      PrefixesExclusive(line);
      if StartsWith(line, EventPrefix) {
        eventType := Some(line[7..]);
      } else if StartsWith(line, DataPrefix) {
        data := Some(line[6..]);
      }
      i := i + 1;
    }
    assert lines[..i] == lines;
  }

  /** Helper: the two prefixes have 7 and 6 characters, and no line carries both. */
  lemma PrefixesExclusive(line: string)
    ensures |EventPrefix| == 7 && |DataPrefix| == 6
    ensures !(StartsWith(line, EventPrefix) && StartsWith(line, DataPrefix))
  {
    if StartsWith(line, EventPrefix) {
      assert line[0] == EventPrefix[0] == 'e';
    }
  }

  /** Helper: one more line changes the last value only when it carries the prefix. */
  lemma LastValueStep(lines: seq<string>, i: nat, prefix: string)
    requires i < |lines|
    ensures LastValue(lines[..i + 1], prefix) ==
      if StartsWith(lines[i], prefix) then Some(lines[i][|prefix|..]) else LastValue(lines[..i], prefix)
  {
    var pre := lines[..i + 1];
    assert pre[|pre| - 1] == lines[i];
    assert pre[..|pre| - 1] == lines[..i];
  }

  /** One record: skipped when blank, otherwise dispatched when it has both a type and data. */
  method ProcessRecord(part: string) returns (calls: seq<Call>)
    ensures calls == RecordCalls(part)
  {
    if IsBlankJs(part) {
      return [];
    }
    var eventType, data := ReadFields(Split(part, "\n"));
    if Truthy(eventType) && Truthy(data) {
      calls := [OnSseEvent(eventType.value, data.value)];
    } else {
      calls := [];
    }
  }

  // ---------------------------------------------------------------------------------
  // The client loop

  /** What `fetch` gave: a rejection with an error message, or a response with its status line. */
  datatype FetchResult =
    | Rejected(message: string)
    | Response(status: int, statusText: string)

  /** `response.ok`: a status in the range 200 to 299. */
  predicate Ok(status: int) {
    200 <= status <= 299
  }

  /** The message reported for a caught error: its message, or "Unknown error" when that is empty. */
  function ErrorText(message: string): string {
    if message == [] then "Unknown error" else message
  }

  /** The message reported for a response that is not ok. */
  function HttpErrorText(status: int, statusText: string): string {
    "HTTP " + IntToString(status) + ": " + statusText
  }

  /**
   * `fetchSse`: `chunks` are the decoded pieces of the body in order, and `readError` is the
   * error a read raised after them, if any. A rejected fetch or a failed read ends with one
   * `OnSseError`; a response that is not ok produces one `OnSseError` and nothing else;
   * otherwise the calls are those of every record of the whole body, however it was cut into
   * chunks, then `OnSseComplete`. A read error drops the unfinished last record.
   */
  method FetchSse(response: FetchResult, chunks: seq<string>, readError: Option<string>) returns (calls: seq<Call>)
    ensures response.Rejected? ==> calls == [OnSseError(ErrorText(response.message))]
    ensures response.Response? && !Ok(response.status) ==>
      calls == [OnSseError(HttpErrorText(response.status, response.statusText))]
    ensures response.Response? && Ok(response.status) && readError.None? ==>
      calls == Dispatched(Split(Concat(chunks), RecordSeparator)) + [OnSseComplete]
    ensures response.Response? && Ok(response.status) && readError.Some? ==>
      calls == Dispatched(Init(Split(Concat(chunks), RecordSeparator))) + [OnSseError(ErrorText(readError.value))]
  {
    if response.Rejected? {
      return [OnSseError(ErrorText(response.message))];
    }
    if !Ok(response.status) {
      return [OnSseError(HttpErrorText(response.status, response.statusText))];
    }
    calls := ReadStream(chunks, readError);
  }

  /**
   * An ok response: the body is read to its end, then the unfinished last record is flushed and
   * `OnSseComplete` is called; a read error instead drops that record and reports the error.
   */
  method ReadStream(chunks: seq<string>, readError: Option<string>) returns (calls: seq<Call>)
    ensures readError.None? ==> calls == Dispatched(Split(Concat(chunks), RecordSeparator)) + [OnSseComplete]
    ensures readError.Some? ==>
      calls == Dispatched(Init(Split(Concat(chunks), RecordSeparator))) + [OnSseError(ErrorText(readError.value))]
  {
    var buffer;
    calls, buffer := ReadBody(chunks);
    if readError.Some? {
      return calls + [OnSseError(ErrorText(readError.value))];
    }
    var tailCalls := ProcessRecord(buffer);
    DispatchedLast(Split(Concat(chunks), RecordSeparator));
    calls := calls + tailCalls + [OnSseComplete];
  }

  /**
   * The read loop: after the given chunks, the complete records of everything received have
   * been dispatched in order, and the buffer holds the unfinished last piece.
   */
  method ReadBody(chunks: seq<string>) returns (calls: seq<Call>, buffer: string)
    ensures buffer == Last(Split(Concat(chunks), RecordSeparator))
    ensures calls == Dispatched(Init(Split(Concat(chunks), RecordSeparator)))
    ensures forall j: nat :: !OccursAt(buffer, RecordSeparator, j)
  {
    buffer := "";
    calls := [];
    var i := 0;
    while i < |chunks|
      invariant i <= |chunks|
      invariant buffer == Last(Split(Concat(chunks[..i]), RecordSeparator))
      invariant calls == Dispatched(Init(Split(Concat(chunks[..i]), RecordSeparator)))
    {
      ghost var received := Concat(chunks[..i]);
      assert Concat(chunks[..i + 1]) == received + chunks[i] by {
        assert chunks[..i + 1][..i] == chunks[..i];
      }
      buffer := buffer + chunks[i];
      var parts := Split(buffer, RecordSeparator);
      ChunkStep(received, chunks[i], parts);
      buffer := parts[|parts| - 1];
      var recordCalls := DispatchRecords(parts);
      DispatchedAppend(Init(Split(received, RecordSeparator)), Init(parts));
      calls := calls + recordCalls;
      i := i + 1;
    }
    assert chunks[..i] == chunks;
    SplitPiecesClean(Concat(chunks), RecordSeparator);
  }

  /** The complete records of one read, in order: every piece but the unfinished last one. */
  method DispatchRecords(parts: seq<string>) returns (calls: seq<Call>)
    requires |parts| >= 1
    ensures calls == Dispatched(Init(parts))
  {
    calls := [];
    var j := 0;
    while j < |parts| - 1
      invariant j <= |parts| - 1
      invariant calls == Dispatched(parts[..j])
    {
      assert parts[..j + 1][..j] == parts[..j];
      var recordCalls := ProcessRecord(parts[j]);
      calls := calls + recordCalls;
      j := j + 1;
    }
  }

  /** Helper for the chunk loop: the split of the grown buffer extends the complete records received so far. */
  lemma ChunkStep(received: string, chunk: string, parts: seq<string>)
    requires parts == Split(Last(Split(received, RecordSeparator)) + chunk, RecordSeparator)
    ensures Init(Split(received + chunk, RecordSeparator)) == Init(Split(received, RecordSeparator)) + Init(parts)
    ensures Last(Split(received + chunk, RecordSeparator)) == Last(parts)
  {
    SplitAppend(received, chunk, RecordSeparator);
    var whole := Split(received + chunk, RecordSeparator);
    assert whole == Init(Split(received, RecordSeparator)) + parts;
    assert Init(whole) == Init(Split(received, RecordSeparator)) + Init(parts);
  }

  // ---------------------------------------------------------------------------------
  // A reference writer

  /** No line break in `s`. */
  predicate OneLine(s: string) {
    forall k :: 0 <= k < |s| ==> s[k] != '\n'
  }

  /** A call the writer below can frame: an event whose type and data are non-empty single lines. */
  predicate Writable(c: Call) {
    c.OnSseEvent? && c.eventType != [] && c.data != [] && OneLine(c.eventType) && OneLine(c.data)
  }

  /** The record of one event: its `event: ` line and its `data: ` line. */
  function RecordOf(c: Call): string
    requires Writable(c)
  {
    EventPrefix + c.eventType + "\n" + DataPrefix + c.data
  }

  /** A reference writer of a stream: each event's record followed by a blank line. */
  function Frames(events: seq<Call>): string
    requires forall k :: 0 <= k < |events| ==> Writable(events[k])
  {
    if events == [] then "" else RecordOf(events[0]) + RecordSeparator + Frames(events[1..])
  }

  /** Helper: a text without a line break splits on `"\n"` into itself. */
  lemma {:induction false} NoBreakFindsNothing(s: string, from: nat)
    requires OneLine(s)
    ensures FindSep(s, "\n", from) == None
    decreases |s| - from
  {
    if from + 1 <= |s| {
      assert s[from..from + 1] == [s[from]];
      NoBreakFindsNothing(s, from + 1);
    }
  }

  /** Helper: cutting at the first separator when nothing before it holds one. */
  lemma SplitAtPiece(p: string, rest: string, sep: string)
    requires |sep| > 0
    requires forall j: nat :: j < |p| ==> !OccursAt(p + sep + rest, sep, j)
    ensures Split(p + sep + rest, sep) == [p] + Split(rest, sep)
  {
    var s := p + sep + rest;
    assert OccursAt(s, sep, |p|) by {
      assert s[|p|..|p| + |sep|] == sep;
    }
    FindSepFirst(s, sep, 0, |p|);
    assert s[..|p|] == p;
    assert s[|p| + |sep|..] == rest;
  }

  /** Helper: `FindSep` returns the first occurrence. */
  lemma {:induction false} FindSepFirst(s: string, sep: string, from: nat, i: nat)
    requires from <= i && OccursAt(s, sep, i)
    requires forall j: nat :: from <= j < i ==> !OccursAt(s, sep, j)
    ensures FindSep(s, sep, from) == Some(i)
    decreases i - from
  {
    if from < i {
      FindSepFirst(s, sep, from + 1, i);
    }
  }

  /** The record of a writable event is read back as that event. */
  lemma RecordRoundTrip(c: Call)
    requires Writable(c)
    ensures RecordCalls(RecordOf(c)) == [c]
  {
    var e := EventPrefix + c.eventType;
    var d := DataPrefix + c.data;
    RecordLines(c);
    var lines := Split(RecordOf(c), "\n");
    assert StartsWith(e, EventPrefix) && !StartsWith(d, EventPrefix) by {
      assert d[0] == 'd';
    }
    assert StartsWith(d, DataPrefix) && !StartsWith(e, DataPrefix) by {
      assert e[0] == 'e';
    }
    assert LastValue(lines, EventPrefix) == Some(c.eventType) by {
      assert lines[..1] == [e];
      assert e[|EventPrefix|..] == c.eventType;
    }
    assert LastValue(lines, DataPrefix) == Some(c.data) by {
      assert d[|DataPrefix|..] == c.data;
    }
    assert !IsBlankJs(RecordOf(c)) by {
      assert RecordOf(c)[0] == 'e';
    }
  }

  /** Helper: a written record has two lines, its `event: ` line and its `data: ` line. */
  lemma RecordLines(c: Call)
    requires Writable(c)
    ensures Split(RecordOf(c), "\n") == [EventPrefix + c.eventType, DataPrefix + c.data]
  {
    var e := EventPrefix + c.eventType;
    var d := DataPrefix + c.data;
    assert OneLine(e) && OneLine(d);
    assert RecordOf(c) == e + "\n" + d;
    NoBreakFindsNothing(d, 0);
    assert forall j: nat :: j < |e| ==> !OccursAt(e + "\n" + d, "\n", j) by {
      forall j: nat | j < |e| ensures !OccursAt(e + "\n" + d, "\n", j) {
        assert (e + "\n" + d)[j] == e[j];
      }
    }
    SplitAtPiece(e, d, "\n");
  }

  /** Helper: the records of a framed stream, each cut at its own blank line. */
  lemma {:induction false} SplitFrames(events: seq<Call>)
    requires forall k :: 0 <= k < |events| ==> Writable(events[k])
    ensures Split(Frames(events), RecordSeparator) == RecordsOf(events) + [""]
  {
    if events != [] {
      var c := events[0];
      var r := RecordOf(c);
      var rest := Frames(events[1..]);
      assert forall j: nat :: j < |r| ==> !OccursAt(r + RecordSeparator + rest, RecordSeparator, j) by {
        forall j: nat | j < |r| ensures !OccursAt(r + RecordSeparator + rest, RecordSeparator, j) {
          RecordHasNoBlankLine(c, r + RecordSeparator + rest, j);
        }
      }
      SplitAtPiece(r, rest, RecordSeparator);
      SplitFrames(events[1..]);
    }
  }

  /** Helper: no blank line starts inside a written record. */
  lemma RecordHasNoBlankLine(c: Call, s: string, j: nat)
    requires Writable(c) && RecordOf(c) + RecordSeparator <= s && j < |RecordOf(c)|
    ensures !OccursAt(s, RecordSeparator, j)
  {
    var e := EventPrefix + c.eventType;
    var r := RecordOf(c);
    assert r == e + "\n" + DataPrefix + c.data;
    assert s[..|r| + 2] == r + RecordSeparator;
    if j < |e| {
      assert s[j] == e[j] != '\n';
    } else if j == |e| {
      assert s[j + 1] == 'd';
    } else if j < |e| + 1 + |DataPrefix| {
      assert s[j] == DataPrefix[j - |e| - 1] != '\n';
    } else {
      assert s[j] == c.data[j - |e| - 1 - |DataPrefix|];
    }
  }

  /** The records a framed stream holds, in order. */
  function RecordsOf(events: seq<Call>): (r: seq<string>)
    requires forall k :: 0 <= k < |events| ==> Writable(events[k])
    ensures |r| == |events|
  {
    if events == [] then [] else [RecordOf(events[0])] + RecordsOf(events[1..])
  }

  /**
   * Round trip: the records of a framed stream dispatch exactly the events written. With
   * `FetchSse`, a body that is `Frames(events)`, cut into chunks anywhere, produces the calls
   * `events` and then `OnSseComplete`.
   */
  lemma {:induction false} StreamRoundTrip(events: seq<Call>)
    requires forall k :: 0 <= k < |events| ==> Writable(events[k])
    ensures Dispatched(Split(Frames(events), RecordSeparator)) == events
  {
    SplitFrames(events);
    RecordsDispatch(events);
    DispatchedTail(RecordsOf(events), "");
    assert RecordCalls("") == [];
  }

  /** Helper: the calls of all pieces are those of all but the last, then the last one's. */
  lemma DispatchedLast(parts: seq<string>)
    requires |parts| >= 1
    ensures Dispatched(parts) == Dispatched(Init(parts)) + RecordCalls(Last(parts))
  {
  }

  /** Helper: one more record adds its calls at the end. */
  lemma DispatchedTail(parts: seq<string>, part: string)
    ensures Dispatched(parts + [part]) == Dispatched(parts) + RecordCalls(part)
  {
    assert (parts + [part])[..|parts|] == parts;
  }

  /** Helper: the written records dispatch the written events. */
  lemma {:induction false} RecordsDispatch(events: seq<Call>)
    requires forall k :: 0 <= k < |events| ==> Writable(events[k])
    ensures Dispatched(RecordsOf(events)) == events
  {
    if events != [] {
      RecordsDispatch(events[1..]);
      RecordRoundTrip(events[0]);
      DispatchedAppend([RecordOf(events[0])], RecordsOf(events[1..]));
      assert Dispatched([RecordOf(events[0])]) == [events[0]] by {
        assert [RecordOf(events[0])][..0] == [];
      }
      assert events == [events[0]] + events[1..];
    }
  }
}
