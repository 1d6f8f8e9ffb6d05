/**
 * Removal of a markdown code fence around the model's reply. The game master applies the same
 * steps to the streamed reply and to the non-streamed one: trim; if the text opens a fence,
 * drop its first line, drop one closing fence, and trim again.
 */
module CodeFence {

  import opened Text

  /** The three backticks that open and close a fence. */
  const Fence: string := "```"

  /** `t` without its first line, or `t` itself when it has a single line. */
  function AfterFirstLine(t: string): (r: string)
    ensures |r| <= |t| && r == t[|t| - |r|..]
    ensures r == t <==> IndexOfChar(t, '\n') == |t|
  {
    var i := IndexOfChar(t, '\n');
    if i < |t| then t[i + 1..] else t
  }

  /** `t` without one closing fence, or `t` itself when it does not end with one. */
  function DropClosingFence(t: string): (r: string)
    ensures r <= t
    ensures EndsWith(t, Fence) ==> |r| == |t| - |Fence|
    ensures !EndsWith(t, Fence) ==> r == t
  {
    if EndsWith(t, Fence) then t[..|t| - |Fence|] else t
  }

  /**
   * The text handed to the JSON decoder. A reply whose trimmed form does not open a fence is
   * only trimmed; the result never starts or ends with white space, and it is never longer
   * than the reply.
   */
  function StripFence(s: string): (r: string)
    ensures !StartsWith(Trim(s), Fence) ==> r == Trim(s)
    ensures r != [] ==> !IsDotNetWhiteSpace(r[0]) && !IsDotNetWhiteSpace(r[|r| - 1])
    ensures |r| <= |s|
  {
    var t := Trim(s);
    if StartsWith(t, Fence) then Trim(DropClosingFence(AfterFirstLine(t))) else t
  }

  /** The statements of the service that strip the fence, one reassignment of `json` at a time. */
  method StripCodeFence(text: string) returns (json: string)
    ensures json == StripFence(text)
  {
    json := Trim(text);
    if StartsWith(json, Fence) {
      ghost var trimmed := json;
      assert StripFence(text) == Trim(DropClosingFence(AfterFirstLine(trimmed)));
      var firstNewline := IndexOfChar(json, '\n');
      if firstNewline < |json| {
        json := json[firstNewline + 1..];
      }
      ghost var body := json;
      assert body == AfterFirstLine(trimmed);
      if EndsWith(json, Fence) {
        assert |Fence| == 3;
        json := json[..|json| - 3];
      }
      assert json == DropClosingFence(body);
      json := Trim(json);
    } else {
      assert StripFence(text) == json;
    }
  }

  /** A reference writer of fenced replies: an opening fence with an info string, the body, a closing fence. */
  function Fenced(info: string, body: string): (r: string)
    ensures StartsWith(r, Fence) && EndsWith(r, Fence)
  {
    Fence + info + "\n" + body + "\n" + Fence
  }

  /** Helper: trimming a text that starts and ends with a backtick leaves it unchanged. */
  lemma TrimBackticks(s: string)
    requires |s| > 0 && s[0] == '`' && s[|s| - 1] == '`'
    ensures Trim(s) == s
  {
  }

  /**
   * Round trip: stripping a fenced reply whose info string is on one line gives back the
   * trimmed body, whatever the body holds (even further fences or new lines).
   */
  lemma StripFenced(info: string, body: string)
    requires forall k :: 0 <= k < |info| ==> info[k] != '\n'
    ensures StripFence(Fenced(info, body)) == Trim(body)
  {
    var s := Fenced(info, body);
    TrimBackticks(s);
    assert StripFence(s) == Trim(DropClosingFence(AfterFirstLine(s)));
    FencedFirstLine(info, body);
    assert DropClosingFence((body + "\n") + Fence) == body + "\n";
    TrimIgnoresTrailingSpace(body, "\n");
  }

  /** Helper: the first line of a fenced reply is the opening fence with its info string. */
  lemma FencedFirstLine(info: string, body: string)
    requires forall k :: 0 <= k < |info| ==> info[k] != '\n'
    ensures AfterFirstLine(Fenced(info, body)) == (body + "\n") + Fence
  {
    var s := Fenced(info, body);
    var i := |Fence + info|;
    assert s == (Fence + info) + "\n" + ((body + "\n") + Fence);
    assert s[i] == '\n';
    assert forall k :: 0 <= k < i ==> s[k] != '\n' by {
      forall k | 0 <= k < i ensures s[k] != '\n' {
        if k >= |Fence| {
          assert s[k] == info[k - |Fence|];
        }
      }
    }
    assert IndexOfChar(s, '\n') == i;
    assert s[i + 1..] == (body + "\n") + Fence;
  }

  /** A reply that is already bare JSON (it opens with a brace after any white space) is only trimmed. */
  lemma BareJsonIsTrimmed(w: string, json: string)
    requires forall k :: 0 <= k < |w| ==> IsDotNetWhiteSpace(w[k])
    requires json != [] && json[0] == '{'
    ensures StripFence(w + json) == Trim(w + json)
    ensures Trim(w + json) == Trim(json)
  {
    TrimStartSkipsSpace(w, json);
    assert TrimStart(json) == json;
    var r := TrimEnd(json);
    assert r != [] && r[0] == '{';
    assert !StartsWith(r, Fence) by {
      assert Fence[0] == '`';
    }
  }

  /** Helper: `TrimStart` skips a white-space prefix and stops at a non-space character. */
  lemma {:induction false} TrimStartSkipsSpace(w: string, t: string)
    requires forall k :: 0 <= k < |w| ==> IsDotNetWhiteSpace(w[k])
    requires t != [] && !IsDotNetWhiteSpace(t[0])
    ensures TrimStart(w + t) == t
  {
    if w != [] {
      assert (w + t)[1..] == w[1..] + t;
      TrimStartSkipsSpace(w[1..], t);
    }
  }
}
