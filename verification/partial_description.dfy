/**
 * The partial-field extractor of the game master: it reads the value of the `description`
 * string field out of a JSON text that may still be cut off anywhere, so that the scene
 * description can be shown while the model is still writing it.
 *
 * The specification is given by recursive functions (`FindMarker`, `SkipSeparators`,
 * `Scan`); the method `TryExtractPartialDescription` is the loop the service runs and is
 * proved to compute `Extract`.
 */
module PartialDescription {

  import opened Wrappers

  /** The key searched for, quotes included. */
  const Marker: string := "\"description\""

  /** ASCII lower-casing; every other character is left alone. */
  function AsciiLower(c: char): char {
    if 'A' <= c <= 'Z' then (c as int + 32) as char else c
  }

  /** `t` with its ASCII letters lower-cased. */
  function Folded(t: string): (r: string)
    ensures |r| == |t|
  {
    if t == [] then [] else [AsciiLower(t[0])] + Folded(t[1..])
  }

  /** Helper: folding leaves a text without upper-case ASCII letters unchanged. */
  lemma {:induction false} FoldedLowerCase(t: string)
    requires forall k :: 0 <= k < |t| ==> !('A' <= t[k] <= 'Z')
    ensures Folded(t) == t
  {
    if t != [] {
      FoldedLowerCase(t[1..]);
    }
  }

  /** `s` holds the marker at `i`, ignoring the case of ASCII letters. */
  predicate MarkerAt(s: string, i: nat)
    requires i + |Marker| <= |s|
  {
    Folded(s[i..i + |Marker|]) == Marker
  }

  /** The first position at or after `from` where the marker occurs (`IndexOf` with `OrdinalIgnoreCase`). */
  function FindMarker(s: string, from: nat): (r: Option<nat>)
    decreases |s| - from
    ensures r.Some? ==> from <= r.value && r.value + |Marker| <= |s| && MarkerAt(s, r.value)
    ensures r.Some? ==> forall j :: from <= j < r.value ==> !MarkerAt(s, j)
    ensures r.None? ==> forall j :: from <= j && j + |Marker| <= |s| ==> !MarkerAt(s, j)
  {
    if from + |Marker| > |s| then None
    else if MarkerAt(s, from) then Some(from)
    else FindMarker(s, from + 1)
  }

  /** The characters skipped between the key and the opening quote; a tab is not among them. */
  predicate IsSeparator(c: char) {
    c == ':' || c == ' ' || c == '\n' || c == '\r'
  }

  /** The first position at or after `i` that does not hold a separator. */
  function SkipSeparators(s: string, i: nat): (j: nat)
    requires i <= |s|
    decreases |s| - i
    ensures i <= j <= |s|
    ensures forall k :: i <= k < j ==> IsSeparator(s[k])
    ensures j < |s| ==> !IsSeparator(s[j])
  {
    if i < |s| && IsSeparator(s[i]) then SkipSeparators(s, i + 1) else i
  }

  /** The position just after the opening quote of the value, if the value has started. */
  function ValueStart(s: string): (r: Option<nat>)
    ensures r.Some? ==> 0 < r.value <= |s| && s[r.value - 1] == '"'
  {
    match FindMarker(s, 0)
    case None => None
    case Some(m) =>
      var j := SkipSeparators(s, m + |Marker|);
      if j < |s| && s[j] == '"' then Some(j + 1) else None
  }

  /** The five escape pairs the extractor decodes: `\"`, `\\`, `\n`, `\r`, `\t`. */
  function Unescape(e: char): Option<char> {
    if e == '"' then Some('"')
    else if e == '\\' then Some('\\')
    else if e == 'n' then Some('\n')
    else if e == 'r' then Some('\r')
    else if e == 't' then Some('\t')
    else None
  }

  /**
   * The value decoded from position `i` up to the first unescaped quote or the end of `s`.
   * A backslash before any other character is kept and the character is then read on its
   * own; a backslash that is the last character of `s` is kept.
   */
  function Scan(s: string, i: nat): (v: string)
    requires i <= |s|
    decreases |s| - i
    ensures |v| <= |s| - i
  {
    if i == |s| then []
    else if s[i] == '\\' && i + 1 < |s| then
      match Unescape(s[i + 1])
      case Some(c) => [c] + Scan(s, i + 2)
      case None => ['\\'] + Scan(s, i + 1)
    else if s[i] == '"' then []
    else [s[i]] + Scan(s, i + 1)
  }

  /** How a scan ends: at a closing quote, at the end of the text, or on a lone final backslash. */
  datatype Stop = Closed(at: nat) | Open | HeldBackslash

  /** Where and how `Scan(s, i)` stops. */
  function ScanStop(s: string, i: nat): (r: Stop)
    requires i <= |s|
    decreases |s| - i
    ensures r.Closed? ==> i <= r.at < |s| && s[r.at] == '"'
    ensures r.HeldBackslash? ==> |s| > 0 && s[|s| - 1] == '\\'
  {
    if i == |s| then Open
    else if s[i] == '\\' then
      if i + 1 == |s| then HeldBackslash
      else if Unescape(s[i + 1]).Some? then ScanStop(s, i + 2)
      else ScanStop(s, i + 1)
    else if s[i] == '"' then Closed(i)
    else ScanStop(s, i + 1)
  }

  /**
   * The description decoded so far, or `None` when the key is missing, the value has not
   * started (after the separators the text ends or the next character is not a quote), or
   * nothing has been decoded yet.
   */
  function Extract(s: string): (r: Option<string>)
    ensures r.Some? ==> r.value != [] && ValueStart(s).Some?
  {
    match ValueStart(s)
    case None => None
    case Some(start) =>
      var v := Scan(s, start);
      if |v| > 0 then Some(v) else None
  }

  /** The text decoded so far, the empty string standing for "nothing yet". */
  function DescriptionSoFar(s: string): string {
    Extract(s).GetOr("")
  }

  /** The value has started and its scan ends on a lone final backslash. */
  predicate HeldEscape(s: string) {
    ValueStart(s).Some? && ScanStop(s, ValueStart(s).value).HeldBackslash?
  }

  /** The value has started and its closing quote is already in `s`. */
  predicate ValueClosed(s: string) {
    ValueStart(s).Some? && ScanStop(s, ValueStart(s).value).Closed?
  }

  /** Helper for the extraction loop: one decoding step moves a character from the scan to the output. */
  lemma ScanAppend(s: string, i: nat, width: nat, sb: string, c: char)
    requires i + width <= |s|
    requires Scan(s, i) == [c] + Scan(s, i + width)
    ensures (sb + [c]) + Scan(s, i + width) == sb + Scan(s, i)
  {
  }

  /** The extraction routine of the game master, proved to compute `Extract`. */
  method TryExtractPartialDescription(partialJson: string) returns (r: Option<string>)
    ensures r == Extract(partialJson)
  {
    var found := FindMarker(partialJson, 0);
    if found.None? {
      return None;
    }
    var idx := found.value + |Marker|;
    while idx < |partialJson| && IsSeparator(partialJson[idx])
      invariant found.value + |Marker| <= idx <= |partialJson|
      invariant SkipSeparators(partialJson, idx) == SkipSeparators(partialJson, found.value + |Marker|)
    {
      idx := idx + 1;
    }
    assert idx == SkipSeparators(partialJson, found.value + |Marker|);
    if idx >= |partialJson| || partialJson[idx] != '"' {
      assert ValueStart(partialJson).None?;
      return None;
    }
    assert ValueStart(partialJson) == Some(idx + 1);
    var sb := ReadStringValue(partialJson, idx + 1);
    r := if |sb| > 0 then Some(sb) else None;
  }

  /**
   * The decoding loop of the extractor: reads from `start` (just after the opening quote)
   * up to the first unescaped quote or the end of the text.
   */
  method ReadStringValue(partialJson: string, start: nat) returns (sb: string)
    requires start <= |partialJson|
    ensures sb == Scan(partialJson, start)
  {
    var idx := start;
    sb := "";
    while idx < |partialJson|
      invariant start <= idx <= |partialJson|
      invariant sb + Scan(partialJson, idx) == Scan(partialJson, start)
    {
      var ch := partialJson[idx];
      if ch == '\\' && idx + 1 < |partialJson| {
        var c, width := ReadEscape(partialJson, idx);
        ScanAppend(partialJson, idx, width, sb, c);
        sb := sb + [c];
        idx := idx + width;
        continue;
      }
      if ch == '"' {
        assert Scan(partialJson, idx) == [];
        break;
      }
      assert Scan(partialJson, idx) == [ch] + Scan(partialJson, idx + 1);
      ScanAppend(partialJson, idx, 1, sb, ch);
      sb := sb + [ch];
      idx := idx + 1;
    }
  }

  /**
   * The `switch` on the character after a backslash: a known escape gives its character and
   * consumes both; any other character leaves the backslash as is and consumes only it.
   */
  method ReadEscape(partialJson: string, idx: nat) returns (c: char, width: nat)
    requires idx + 1 < |partialJson| && partialJson[idx] == '\\'
    ensures 1 <= width <= 2 && idx + width <= |partialJson|
    ensures Scan(partialJson, idx) == [c] + Scan(partialJson, idx + width)
    ensures width == 2 <==> Unescape(partialJson[idx + 1]).Some?
  {
    match partialJson[idx + 1] {
      case '"' => c, width := '"', 2;
      case '\\' => c, width := '\\', 2;
      case 'n' => c, width := '\n', 2;
      case 'r' => c, width := '\r', 2;
      case 't' => c, width := '\t', 2;
      case _ => c, width := '\\', 1;
    }
  }

  // ---------------------------------------------------------------------------------
  // Growing buffers

  /** Helper: the first marker of a prefix is the first marker of every extension. */
  lemma {:induction false} FindMarkerExtends(s1: string, s2: string, from: nat)
    requires s1 <= s2
    requires FindMarker(s1, from).Some?
    ensures FindMarker(s2, from) == FindMarker(s1, from)
    decreases |s1| - from
  {
    assert s2[from..from + |Marker|] == s1[from..from + |Marker|];
    if !MarkerAt(s1, from) {
      FindMarkerExtends(s1, s2, from + 1);
    }
  }

  /** Helper: skipping separators stops at the same place once a non-separator has arrived. */
  lemma {:induction false} SkipExtends(s1: string, s2: string, i: nat)
    requires s1 <= s2 && i <= |s1|
    requires SkipSeparators(s1, i) < |s1|
    ensures SkipSeparators(s2, i) == SkipSeparators(s1, i)
    decreases |s1| - i
  {
    assert s2[i] == s1[i];
    if IsSeparator(s1[i]) {
      SkipExtends(s1, s2, i + 1);
    }
  }

  /** Once the value has started, it starts at the same place in every extension. */
  lemma ValueStartExtends(s1: string, s2: string)
    requires s1 <= s2
    requires ValueStart(s1).Some?
    ensures ValueStart(s2) == ValueStart(s1)
  {
    var m := FindMarker(s1, 0).value;
    FindMarkerExtends(s1, s2, 0);
    SkipExtends(s1, s2, m + |Marker|);
    var j := SkipSeparators(s1, m + |Marker|);
    assert s2[j] == s1[j];
  }

  /**
   * Scanning a prefix yields a prefix of the scan of the whole, unless the prefix ends on a
   * lone backslash; a scan that already met its closing quote does not change.
   */
  lemma {:induction false} ScanExtends(s1: string, s2: string, i: nat)
    requires s1 <= s2 && i <= |s1|
    requires !ScanStop(s1, i).HeldBackslash?
    ensures Scan(s1, i) <= Scan(s2, i)
    ensures ScanStop(s1, i).Closed? ==> Scan(s2, i) == Scan(s1, i) && ScanStop(s2, i) == ScanStop(s1, i)
    decreases |s1| - i
  {
    if i < |s1| {
      assert s2[i] == s1[i];
      if s1[i] == '\\' {
        assert s2[i + 1] == s1[i + 1];
        if Unescape(s1[i + 1]).Some? {
          ScanExtends(s1, s2, i + 2);
        } else {
          ScanExtends(s1, s2, i + 1);
        }
      } else if s1[i] != '"' {
        ScanExtends(s1, s2, i + 1);
      }
    }
  }

  /**
   * Prefix monotonicity: when a buffer grows, a description already extracted can only be
   * extended, unless the shorter buffer ended on a lone backslash; once the closing quote has
   * arrived the description no longer changes.
   */
  lemma ExtractMonotone(b1: string, b2: string)
    requires b1 <= b2
    requires Extract(b1).Some? && !HeldEscape(b1)
    ensures Extract(b2).Some? && Extract(b1).value <= Extract(b2).value
    ensures ValueClosed(b1) ==> Extract(b2) == Extract(b1) && ValueClosed(b2)
  {
    ValueStartExtends(b1, b2);
    ScanExtends(b1, b2, ValueStart(b1).value);
  }

  // ---------------------------------------------------------------------------------
  // Escapes

  /** The encoding of one character using only the five escape pairs the extractor knows. */
  function EscapeChar(c: char): (code: string)
    ensures 1 <= |code| <= 2
  {
    if c == '"' then "\\\""
    else if c == '\\' then "\\\\"
    else if c == '\n' then "\\n"
    else if c == '\r' then "\\r"
    else if c == '\t' then "\\t"
    else [c]
  }

  /** A JSON-style encoding of a whole string, character by character. */
  function Escape(v: string): (e: string)
    ensures |v| <= |e|
  {
    if v == [] then [] else EscapeChar(v[0]) + Escape(v[1..])
  }

  /** Helper: one encoded character followed by a non-empty text decodes to that character. */
  lemma ScanEscapedChar(c: char, t: string)
    requires t != []
    ensures Scan(EscapeChar(c) + t, 0) == [c] + Scan(t, 0)
    ensures ScanStop(EscapeChar(c) + t, 0).Closed? <==> ScanStop(t, 0).Closed?
  {
    var code := EscapeChar(c);
    var s := code + t;
    EscapeCharShape(c);
    ScanShift(code, t, 0);
    StopShift(code, t, 0);
    if |code| == 2 {
      assert s[0] == '\\' && s[1] == code[1];
      assert Scan(s, 0) == [c] + Scan(s, 2);
      assert ScanStop(s, 0) == ScanStop(s, 2);
    } else {
      assert s[0] == c;
      assert Scan(s, 0) == [c] + Scan(s, 1);
      assert ScanStop(s, 0) == ScanStop(s, 1);
    }
  }

  /** Helper: a character's code is either a backslash and a decodable letter, or the plain character. */
  lemma EscapeCharShape(c: char)
    ensures |EscapeChar(c)| == 2 ==> EscapeChar(c)[0] == '\\' && Unescape(EscapeChar(c)[1]) == Some(c)
    ensures |EscapeChar(c)| == 1 ==> EscapeChar(c) == [c] && c != '\\' && c != '"'
  {
  }

  /** Scanning an escaped string followed by a quote decodes exactly the string and stops at the quote. */
  lemma {:induction false} ScanEscaped(v: string, rest: string)
    ensures Scan(Escape(v) + "\"" + rest, 0) == v
    ensures ScanStop(Escape(v) + "\"" + rest, 0).Closed?
  {
    if v != [] {
      var t := Escape(v[1..]) + "\"" + rest;
      assert Escape(v) + "\"" + rest == EscapeChar(v[0]) + t;
      ScanEscapedChar(v[0], t);
      ScanEscaped(v[1..], rest);
      assert [v[0]] + v[1..] == v;
    }
  }

  /** What the system prompt puts before the key: the brace on a line of its own, then an indent of four spaces. */
  const Lead: string := "{\n    "

  /** The opening of a scene as the system prompt lays it out, up to the value's opening quote. */
  const Opening: string := Lead + Marker + ": \""

  /** The opening the system prompt asks for is a complete header: the value starts at its end. */
  lemma OpeningValueStart()
    ensures ValueStart(Opening) == Some(|Opening|)
  {
    LeadQuoteFree();
    MarkerFolded();
    ValueStartAfterLead(Lead, Marker);
  }

  /** Helper: the lead holds no quote. */
  lemma LeadQuoteFree()
    ensures '"' !in Lead
  {
  }

  /** Helper: where the value starts in a quote-free lead, a spelling of the key, a colon, a space and a quote. */
  lemma ValueStartAfterLead(lead: string, key: string)
    requires '"' !in lead
    requires Folded(key) == Marker
    ensures ValueStart(lead + key + ": \"") == Some(|lead + key + ": \""|)
  {
    var rest := ": \"";
    KeyAfterLead(lead, key, rest);
    ValueStartAfterKey(lead, key, rest);
    assert SkipSeparators(rest, 2) == 2;
    assert SkipSeparators(rest, 0) == 2;
  }

  /** Helper: scanning inside `h + t` from the end of `h` is scanning `t`. */
  lemma ScanShift(h: string, t: string, i: nat)
    requires i <= |t|
    ensures Scan(h + t, |h| + i) == Scan(t, i)
  {
    assert (h + t)[|h| + i..] == t[i..];
    ScanAgree(h + t, |h| + i, t, i);
  }

  /** Helper: two scans see the same value when the texts agree from where they start. */
  lemma {:induction false} ScanAgree(s1: string, i1: nat, s2: string, i2: nat)
    requires i1 <= |s1| && i2 <= |s2| && s1[i1..] == s2[i2..]
    ensures Scan(s1, i1) == Scan(s2, i2)
    decreases |s1| - i1
  {
    if i1 < |s1| {
      assert s1[i1] == s1[i1..][0] == s2[i2];
      assert s1[i1 + 1..] == s1[i1..][1..] == s2[i2..][1..] == s2[i2 + 1..];
      if s1[i1] == '\\' && i1 + 1 < |s1| {
        assert s1[i1 + 1] == s1[i1..][1] == s2[i2 + 1];
        if Unescape(s1[i1 + 1]).Some? {
          assert s1[i1 + 2..] == s1[i1..][2..] == s2[i2..][2..] == s2[i2 + 2..];
          ScanAgree(s1, i1 + 2, s2, i2 + 2);
        } else {
          ScanAgree(s1, i1 + 1, s2, i2 + 1);
        }
      } else if s1[i1] != '"' {
        ScanAgree(s1, i1 + 1, s2, i2 + 1);
      }
    }
  }

  /** Helper: the scan of `h + t` from the end of `h` stops the way the scan of `t` does. */
  lemma {:induction false} StopShift(h: string, t: string, i: nat)
    requires i <= |t|
    ensures ScanStop(t, i).Closed? <==> ScanStop(h + t, |h| + i).Closed?
    ensures ScanStop(t, i).HeldBackslash? <==> ScanStop(h + t, |h| + i).HeldBackslash?
    decreases |t| - i
  {
    var s := h + t;
    if i < |t| {
      assert s[|h| + i] == t[i];
      if t[i] == '\\' && i + 1 < |t| {
        assert s[|h| + i + 1] == t[i + 1];
        if Unescape(t[i + 1]).Some? {
          StopShift(h, t, i + 2);
        } else {
          StopShift(h, t, i + 1);
        }
      } else if t[i] != '"' {
        StopShift(h, t, i + 1);
      }
    }
  }

  /** What follows a complete header (a buffer ending just after the opening quote) decodes on its own. */
  lemma ExtractAfterHeader(h: string, t: string)
    requires ValueStart(h) == Some(|h|)
    ensures Extract(h + t) == if Scan(t, 0) != [] then Some(Scan(t, 0)) else None
    ensures HeldEscape(h + t) <==> ScanStop(t, 0).HeldBackslash?
    ensures ValueClosed(h + t) <==> ScanStop(t, 0).Closed?
  {
    ValueStartExtends(h, h + t);
    ScanShift(h, t, 0);
    StopShift(h, t, 0);
  }

  /**
   * Round trip: after any complete header `h` (such as `Opening`), the extractor decodes an
   * escaped description back to the original text and sees the value closed.
   */
  lemma ExtractEscaped(h: string, v: string, rest: string)
    requires ValueStart(h) == Some(|h|)
    requires v != []
    ensures Extract(h + Escape(v) + "\"" + rest) == Some(v)
    ensures ValueClosed(h + Escape(v) + "\"" + rest)
  {
    var t := Escape(v) + "\"" + rest;
    assert h + Escape(v) + "\"" + rest == h + t;
    ExtractAfterHeader(h, t);
    ScanEscaped(v, rest);
  }

  /**
   * Every description extracted from a prefix of a complete, escaped scene is a prefix of the
   * true description, provided the prefix does not end between a backslash and its partner.
   */
  lemma ExtractedIsPrefixOfDescription(h: string, v: string, rest: string, b: string)
    requires ValueStart(h) == Some(|h|)
    requires v != []
    requires b <= h + Escape(v) + "\"" + rest
    requires Extract(b).Some? && !HeldEscape(b)
    ensures Extract(b).value <= v
  {
    ExtractEscaped(h, v, rest);
    ExtractMonotone(b, h + Escape(v) + "\"" + rest);
  }

  /** A text with neither a backslash nor a quote. */
  predicate Plain(t: string) {
    forall k :: 0 <= k < |t| ==> t[k] != '\\' && t[k] != '"'
  }

  /** Plain text is copied through unchanged and the scan goes on after it. */
  lemma {:induction false} ScanPlain(t: string, rest: string)
    requires Plain(t)
    ensures Scan(t + rest, 0) == t + Scan(rest, 0)
  {
    if t != [] {
      var c := t[0];
      var x := t[1..] + rest;
      assert t + rest == [c] + x;
      assert Plain(t[1..]);
      ScanPlain(t[1..], rest);
      ScanShift([c], x, 0);
      assert ([c] + x)[0] == c;
      assert Scan([c] + x, 0) == [c] + Scan(x, 0);
      Associative([c], t[1..], Scan(rest, 0));
      assert t == [c] + t[1..];
    } else {
      assert t + rest == rest;
    }
  }

  // ---------------------------------------------------------------------------------
  // Open, closed and empty values

  /** Helper: a scan walks over characters that are neither a backslash nor a quote without stopping. */
  lemma {:induction false} StopPlain(s: string, i: nat, j: nat)
    requires i <= j <= |s|
    requires forall k :: i <= k < j ==> s[k] != '\\' && s[k] != '"'
    ensures ScanStop(s, i) == ScanStop(s, j)
    decreases j - i
  {
    if i < j {
      StopPlain(s, i + 1, j);
    }
  }

  /**
   * After a complete header `h` (such as `Opening`), a value whose closing quote has not
   * arrived yields everything that has arrived, and is not closed.
   */
  lemma ExtractOpenValue(h: string, t: string)
    requires ValueStart(h) == Some(|h|)
    requires t != [] && Plain(t)
    ensures Extract(h + t) == Some(t)
    ensures !ValueClosed(h + t)
  {
    ExtractAfterHeader(h, t);
    ScanPlain(t, "");
    assert t + "" == t;
    StopPlain(t, 0, |t|);
  }

  /**
   * After a complete header, a closed value yields the text up to its closing quote, whatever
   * follows the quote, and is closed.
   */
  lemma ExtractClosedValue(h: string, t: string, rest: string)
    requires ValueStart(h) == Some(|h|)
    requires t != [] && Plain(t)
    ensures Extract(h + t + "\"" + rest) == Some(t)
    ensures ValueClosed(h + t + "\"" + rest)
  {
    var tail := t + ("\"" + rest);
    assert h + t + "\"" + rest == h + tail;
    ExtractAfterHeader(h, tail);
    ScanPlain(t, "\"" + rest);
    assert Scan("\"" + rest, 0) == [];
    assert t + [] == t;
    assert tail[|t|] == '"';
    StopPlain(tail, 0, |t|);
  }

  /** Helper: skipping separators inside `h + t` from the end of `h` is skipping them in `t`. */
  lemma {:induction false} SkipShift(h: string, t: string, i: nat)
    requires i <= |t|
    ensures SkipSeparators(h + t, |h| + i) == |h| + SkipSeparators(t, i)
    decreases |t| - i
  {
    if i < |t| {
      assert (h + t)[|h| + i] == t[i];
      if IsSeparator(t[i]) {
        SkipShift(h, t, i + 1);
      }
    }
  }

  /** Helper: the marker folds to itself. */
  lemma MarkerFolded()
    ensures Folded(Marker) == Marker
  {
    var s := "{" + Marker;
    assert s[1..14] == Marker;
    FoldedLowerCase(s[1..14]);
  }

  /** Two texts of the same length whose characters agree up to the case of ASCII letters. */
  predicate SameFold(s1: string, s2: string) {
    |s1| == |s2| && forall i :: 0 <= i < |s1| ==> AsciiLower(s1[i]) == AsciiLower(s2[i])
  }

  /** Helper: folding works character by character. */
  lemma {:induction false} FoldedAt(t: string)
    ensures forall k :: 0 <= k < |t| ==> Folded(t)[k] == AsciiLower(t[k])
  {
    if t != [] {
      FoldedAt(t[1..]);
      assert Folded(t) == [AsciiLower(t[0])] + Folded(t[1..]);
    }
  }

  /** Helper: texts that agree up to case fold to the same text. */
  lemma {:induction false} FoldedSame(s1: string, s2: string)
    requires SameFold(s1, s2)
    ensures Folded(s1) == Folded(s2)
  {
    if s1 != [] {
      assert SameFold(s1[1..], s2[1..]);
      FoldedSame(s1[1..], s2[1..]);
    }
  }

  /** Helper: the marker search cannot tell apart texts that agree up to case. */
  lemma {:induction false} FindMarkerSameFold(s1: string, s2: string, from: nat)
    requires SameFold(s1, s2)
    ensures FindMarker(s1, from) == FindMarker(s2, from)
    decreases |s1| - from
  {
    if from + |Marker| <= |s1| {
      var w1, w2 := s1[from..from + |Marker|], s2[from..from + |Marker|];
      assert SameFold(w1, w2);
      FoldedSame(w1, w2);
      assert MarkerAt(s1, from) == MarkerAt(s2, from);
      FindMarkerSameFold(s1, s2, from + 1);
    }
  }

  /** Helper: the search from `from` finds `m` when the marker is at `m` and at no earlier position. */
  lemma {:induction false} FindMarkerAt(s: string, from: nat, m: nat)
    requires from <= m && m + |Marker| <= |s| && MarkerAt(s, m)
    requires forall j :: from <= j < m ==> !MarkerAt(s, j)
    ensures FindMarker(s, from) == Some(m)
    decreases m - from
  {
    if from < m {
      FindMarkerAt(s, from + 1, m);
    }
  }

  /**
   * Helper: a spelling of the key after a lead without quotes is the first marker, since every
   * spelling of the marker opens with a quote.
   */
  lemma KeyAfterLead(lead: string, key: string, rest: string)
    requires '"' !in lead
    requires Folded(key) == Marker
    ensures |key| == |Marker| && FindMarker(lead + key + rest, 0) == Some(|lead|)
  {
    var s := lead + key + rest;
    assert s[|lead|..|lead| + |Marker|] == key;
    forall j | 0 <= j < |lead|
      ensures !MarkerAt(s, j)
    {
      FoldedAt(s[j..j + |Marker|]);
      assert s[j] == lead[j];
    }
    FindMarkerAt(s, 0, |lead|);
  }

  /**
   * Where the value starts in a text whose first marker ends after `n` characters and is
   * followed by `rest`: after the separators that open `rest`, if a quote comes next.
   */
  function StartAfterKey(n: nat, rest: string): Option<nat> {
    var j := SkipSeparators(rest, 0);
    if j < |rest| && rest[j] == '"' then Some(n + j + 1) else None
  }

  /** Helper: where the value starts when the first marker is a spelling `key` of the key, right after `pre`. */
  lemma ValueStartAfterKey(pre: string, key: string, rest: string)
    requires Folded(key) == Marker
    requires FindMarker(pre + key + rest, 0) == Some(|pre|)
    ensures ValueStart(pre + key + rest) == StartAfterKey(|pre| + |key|, rest)
  {
    var h := pre + key;
    ValueStartAfterHead(h, rest, |pre|);
  }

  /** Helper: where the value starts when the first marker ends where the head `h` ends. */
  lemma ValueStartAfterHead(h: string, rest: string, m: nat)
    requires m + |Marker| == |h|
    requires FindMarker(h + rest, 0) == Some(m)
    ensures ValueStart(h + rest) == StartAfterKey(|h|, rest)
  {
    var s := h + rest;
    SkipShift(h, rest, 0);
    var j := SkipSeparators(rest, 0);
    assert SkipSeparators(s, m + |Marker|) == |h| + j;
    if j < |rest| {
      assert s[|h| + j] == rest[j];
    }
  }

  /**
   * The key is matched whatever the case of its ASCII letters: two texts that differ only in
   * the spelling of their first key extract the same description, whatever comes before it.
   */
  lemma ExtractIgnoresKeyCase(pre: string, key1: string, key2: string, rest: string)
    requires Folded(key1) == Marker && Folded(key2) == Marker
    requires FindMarker(pre + key1 + rest, 0) == Some(|pre|)
    ensures Extract(pre + key1 + rest) == Extract(pre + key2 + rest)
  {
    var s1, s2 := pre + key1 + rest, pre + key2 + rest;
    FoldedAt(key1);
    FoldedAt(key2);
    forall i | 0 <= i < |s1|
      ensures AsciiLower(s1[i]) == AsciiLower(s2[i])
    {
      if |pre| <= i < |pre| + |key1| {
        assert s1[i] == key1[i - |pre|] && s2[i] == key2[i - |pre|];
      } else {
        assert s1[i] == s2[i];
      }
    }
    FindMarkerSameFold(s1, s2, 0);
    ExtractAfterKey(pre, key1, rest);
    ExtractAfterKey(pre, key2, rest);
  }

  /** What is extracted when the first marker is followed by `rest`: the value that opens after its separators. */
  function ExtractAfter(rest: string): Option<string> {
    match StartAfterKey(0, rest)
    case None => None
    case Some(i) => if Scan(rest, i) != [] then Some(Scan(rest, i)) else None
  }

  /** Helper: what is extracted once the first marker is a spelling of the key depends only on what follows the key. */
  lemma ExtractAfterKey(pre: string, key: string, rest: string)
    requires Folded(key) == Marker
    requires FindMarker(pre + key + rest, 0) == Some(|pre|)
    ensures Extract(pre + key + rest) == ExtractAfter(rest)
  {
    ExtractAfterHead(pre + key, rest, |pre|);
  }

  /** Helper: what is extracted when the first marker ends where the head `h` ends. */
  lemma ExtractAfterHead(h: string, rest: string, m: nat)
    requires m + |Marker| == |h|
    requires FindMarker(h + rest, 0) == Some(m)
    ensures Extract(h + rest) == ExtractAfter(rest)
  {
    ValueStartAfterHead(h, rest, m);
    var j := SkipSeparators(rest, 0);
    if j < |rest| && rest[j] == '"' {
      assert ValueStart(h + rest) == Some(|h| + j + 1);
      assert StartAfterKey(0, rest) == Some(j + 1);
      ScanShift(h, rest, j + 1);
    } else {
      assert ValueStart(h + rest) == None && StartAfterKey(0, rest) == None;
    }
  }

  /** A tab between the key and the value is not skipped, so nothing is extracted, however the key is spelled and whatever precedes it. */
  lemma TabIsNotSkipped(pre: string, key: string, v: string)
    requires Folded(key) == Marker
    requires FindMarker(pre + key + ":\t\"" + v, 0) == Some(|pre|)
    ensures Extract(pre + key + ":\t\"" + v) == None
  {
    var rest := ":\t\"" + v;
    Associative(pre + key, ":\t\"", v);
    ValueStartAfterKey(pre, key, rest);
    assert SkipSeparators(rest, 0) == 1 by {
      assert rest[0] == ':' && rest[1] == '\t';
    }
  }

  /** After a complete header, an empty value extracts as nothing, whatever follows its closing quote. */
  lemma EmptyValueIsNone(h: string, rest: string)
    requires ValueStart(h) == Some(|h|)
    ensures Extract(h + "\"" + rest) == None
  {
    ExtractAfterHeader(h, "\"" + rest);
    assert h + "\"" + rest == h + ("\"" + rest);
    assert Scan("\"" + rest, 0) == [];
  }

  /** After a complete header, an escape pair other than the five known ones keeps its backslash: `\u0041` stays six characters. */
  lemma UnknownEscapeKeepsBackslash(h: string)
    requires ValueStart(h) == Some(|h|)
    ensures Extract(h + "\\u0041\"") == Some("\\u0041")
  {
    ExtractAfterHeader(h, "\\u0041\"");
    assert Scan("\\u0041\"", 0) == "\\u0041";
  }

  /**
   * The exception to monotonicity: after any opening `h` (such as `Opening`), a buffer ending on
   * a backslash yields a literal backslash, which the next character turns into a new line.
   */
  lemma HeldBackslashIsNotMonotone(h: string)
    requires ValueStart(h) == Some(|h|)
    ensures h + "a\\" <= h + "a\\n\"}"
    ensures HeldEscape(h + "a\\")
    ensures Extract(h + "a\\") == Some("a\\")
    ensures Extract(h + "a\\n\"}") == Some("a\n")
  {
    ExtractAfterHeader(h, "a\\");
    assert Scan("a\\", 0) == "a\\";
    assert ScanStop("a\\", 0) == HeldBackslash;
    ExtractAfterHeader(h, "a\\n\"}");
    assert Scan("a\\n\"}", 0) == "a\n";
  }
}
