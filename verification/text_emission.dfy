/**
 * The first half of a streaming turn: the model's reply arrives fragment by fragment, the
 * service appends each fragment to `fullJson`, re-extracts the partial description and sends
 * the part of it the client has not seen yet as a `text` event, tracking in
 * `lastDescriptionLength` how much has been sent.
 *
 * `Feed` is the specification (a left fold of `Step` over the fragments); the method
 * `EmitDescriptionText` is the loop of the service, proved to compute it.
 */
module TextEmission {

  import opened Wrappers
  import opened Text
  import opened Scenes
  import opened PartialDescription

  /** The loop's state: the text received so far, the length already sent, the texts sent. */
  datatype Emission = Emission(buffer: string, last: nat, texts: seq<string>)

  /** The state before the first fragment. */
  const Initial: Emission := Emission("", 0, [])

  /**
   * One update of the model's stream. An empty fragment changes nothing; otherwise the buffer
   * grows, and a text is sent exactly when the description extracted from the grown buffer is
   * longer than what was sent, the text being the part beyond that length.
   */
  function Step(st: Emission, fragment: string): (r: Emission)
    ensures fragment == [] ==> r == st
    ensures r.buffer == st.buffer + fragment
    ensures st.last <= r.last
    ensures |r.texts| == |st.texts| + 1 <==> fragment != [] && |DescriptionSoFar(r.buffer)| > st.last
    ensures |r.texts| == |st.texts| + 1 ==>
      r.texts == st.texts + [DescriptionSoFar(r.buffer)[st.last..]] && r.last == |DescriptionSoFar(r.buffer)|
    ensures |r.texts| != |st.texts| + 1 ==> r.texts == st.texts && r.last == st.last
  {
    if fragment == [] then st
    else
      var b := st.buffer + fragment;
      var p := Extract(b);
      if p.Some? && |p.value| > st.last then Emission(b, |p.value|, st.texts + [p.value[st.last..]])
      else Emission(b, st.last, st.texts)
  }

  /** The state after the fragments, in order. */
  function Feed(fragments: seq<string>): Emission {
    if fragments == [] then Initial else Step(Feed(fragments[..|fragments| - 1]), fragments[|fragments| - 1])
  }

  /** The `text` events carrying `texts`, in order. */
  function TextEvents(texts: seq<string>, gameId: string): (r: seq<StreamEvent>)
    ensures |r| == |texts|
    ensures forall i :: 0 <= i < |r| ==> r[i] == StreamEvent(Text, texts[i], gameId)
  {
    if texts == [] then [] else TextEvents(texts[..|texts| - 1], gameId) + [StreamEvent(Text, texts[|texts| - 1], gameId)]
  }

  /**
   * The loop of `StreamSceneAsync` over the model's updates: it returns the events it yields,
   * the accumulated reply and the final `lastDescriptionLength`.
   */
  method EmitDescriptionText(gameId: string, fragments: seq<string>)
    returns (events: seq<StreamEvent>, fullJson: string, lastDescriptionLength: nat)
    ensures fullJson == Concat(fragments)
    ensures events == TextEvents(Feed(fragments).texts, gameId)
    ensures lastDescriptionLength == Feed(fragments).last == |Concat(Feed(fragments).texts)|
  {
    fullJson := "";
    lastDescriptionLength := 0;
    events := [];
    var i := 0;
    while i < |fragments|
      invariant i <= |fragments|
      invariant Feed(fragments[..i]).buffer == fullJson
      invariant Feed(fragments[..i]).last == lastDescriptionLength
      invariant events == TextEvents(Feed(fragments[..i]).texts, gameId)
    {
      ghost var st := Feed(fragments[..i]);
      assert Feed(fragments[..i + 1]) == Step(st, fragments[i]) by {
        assert fragments[..i + 1][..i] == fragments[..i];
      }
      var sent;
      fullJson, lastDescriptionLength, sent := EmitFragment(gameId, st, fragments[i], fullJson, lastDescriptionLength);
      events := events + sent;
      i := i + 1;
    }
    assert fragments[..i] == fragments;
    FeedInvariant(fragments);
  }

  /**
   * One pass of the loop's body: an empty update is skipped; otherwise the update is appended,
   * the description re-extracted, and its unsent part sent when there is one.
   */
  method EmitFragment(gameId: string, ghost st: Emission, text: string, fullJson: string, lastDescriptionLength: nat)
    returns (json: string, last: nat, sent: seq<StreamEvent>)
    requires st.buffer == fullJson && st.last == lastDescriptionLength
    ensures json == Step(st, text).buffer && last == Step(st, text).last
    ensures TextEvents(Step(st, text).texts, gameId) == TextEvents(st.texts, gameId) + sent
  {
    json, last, sent := fullJson, lastDescriptionLength, [];
    if |text| > 0 {
      json := json + text;
      var partialDescription := TryExtractPartialDescription(json);
      if partialDescription.Some? && |partialDescription.value| > last {
        var newText := partialDescription.value[last..];
        last := |partialDescription.value|;
        assert Step(st, text) == Emission(json, last, st.texts + [newText]);
        TextEventsAppend(st.texts, newText, gameId);
        sent := [StreamEvent(Text, newText, gameId)];
      } else {
        assert Step(st, text) == Emission(json, last, st.texts);
      }
    } else {
      assert Step(st, text) == st;
    }
  }

  /** Helper: one more text adds one more event. */
  lemma TextEventsAppend(texts: seq<string>, text: string, gameId: string)
    ensures TextEvents(texts + [text], gameId) == TextEvents(texts, gameId) + [StreamEvent(Text, text, gameId)]
  {
    assert (texts + [text])[..|texts|] == texts;
  }

  // ---------------------------------------------------------------------------------
  // Properties of the fold

  /**
   * The counter's invariant: the buffer is everything received, the counter is the total
   * length of the texts sent, no text sent is empty, and the description extracted from the
   * buffer is never longer than the counter.
   */
  lemma {:induction false} FeedInvariant(fragments: seq<string>)
    ensures Feed(fragments).buffer == Concat(fragments)
    ensures Feed(fragments).last == |Concat(Feed(fragments).texts)|
    ensures forall i :: 0 <= i < |Feed(fragments).texts| ==> Feed(fragments).texts[i] != []
    ensures |DescriptionSoFar(Feed(fragments).buffer)| <= Feed(fragments).last
  {
    if fragments != [] {
      var init := fragments[..|fragments| - 1];
      FeedInvariant(init);
      var st := Feed(init);
      var r := Feed(fragments);
      if |r.texts| == |st.texts| + 1 {
        assert r.texts[..|st.texts|] == st.texts;
      }
    }
  }

  /** The counter never decreases and texts once sent stay sent: every prefix's state is below the whole's. */
  lemma {:induction false} FeedGrows(fragments: seq<string>, k: nat)
    requires k <= |fragments|
    ensures Feed(fragments[..k]).last <= Feed(fragments).last
    ensures Feed(fragments[..k]).texts <= Feed(fragments).texts
    decreases |fragments|
  {
    if k < |fragments| {
      var init := fragments[..|fragments| - 1];
      assert init[..k] == fragments[..k];
      FeedGrows(init, k);
    } else {
      assert fragments[..k] == fragments;
    }
  }

  /** The fragments without the empty ones. */
  function NonEmpty(fragments: seq<string>): (r: seq<string>)
    ensures |r| <= |fragments|
    ensures forall i :: 0 <= i < |r| ==> r[i] != []
  {
    if fragments == [] then []
    else if fragments[|fragments| - 1] == [] then NonEmpty(fragments[..|fragments| - 1])
    else NonEmpty(fragments[..|fragments| - 1]) + [fragments[|fragments| - 1]]
  }

  /** Updates with empty text are ignored: dropping them changes neither the buffer, the counter nor the texts. */
  lemma {:induction false} FeedIgnoresEmpty(fragments: seq<string>)
    ensures Feed(NonEmpty(fragments)) == Feed(fragments)
  {
    if fragments != [] {
      var init := fragments[..|fragments| - 1];
      FeedIgnoresEmpty(init);
      var f := fragments[|fragments| - 1];
      if f != [] {
        var ne := NonEmpty(init) + [f];
        assert ne[..|ne| - 1] == NonEmpty(init);
      }
    }
  }

  /** No buffer seen before a fragment ends inside the description on a lone backslash. */
  predicate NoHeldEscape(fragments: seq<string>) {
    forall k :: 0 <= k < |fragments| ==> !HeldEscape(Concat(fragments[..k]))
  }

  /**
   * Faithfulness: unless a fragment boundary falls between a backslash and the character it
   * escapes, the texts sent so far add up to exactly the description extracted from the buffer.
   */
  lemma {:induction false} FeedFaithful(fragments: seq<string>)
    requires NoHeldEscape(fragments)
    ensures Concat(Feed(fragments).texts) == DescriptionSoFar(Concat(fragments))
  {
    FeedInvariant(fragments);
    if fragments != [] {
      var init := fragments[..|fragments| - 1];
      var f := fragments[|fragments| - 1];
      assert NoHeldEscape(init) by {
        forall k | 0 <= k < |init| ensures !HeldEscape(Concat(init[..k])) {
          assert init[..k] == fragments[..k];
        }
      }
      assert fragments[..|init|] == init;
      FeedFaithful(init);
      FeedInvariant(init);
      FaithfulStep(Feed(init), f);
    }
  }

  /** Helper: one step keeps the texts sent equal to the description, unless the buffer held a backslash. */
  lemma FaithfulStep(st: Emission, f: string)
    requires Concat(st.texts) == DescriptionSoFar(st.buffer)
    requires st.last == |Concat(st.texts)|
    requires !HeldEscape(st.buffer)
    ensures Concat(Step(st, f).texts) == DescriptionSoFar(st.buffer + f)
  {
    var b := st.buffer + f;
    var p := DescriptionSoFar(b);
    if f != [] {
      if Extract(st.buffer).Some? {
        ExtractMonotone(st.buffer, b);
        assert p[..st.last] == DescriptionSoFar(st.buffer);
      }
      if |p| > st.last {
        assert Step(st, f).texts == st.texts + [p[st.last..]];
        assert (st.texts + [p[st.last..]])[..|st.texts|] == st.texts;
        assert p == p[..st.last] + p[st.last..];
      } else {
        assert Step(st, f).texts == st.texts;
      }
    }
  }

  /**
   * End to end: when the reply is a scene that opens with a complete header `h` (such as
   * `Opening`) followed by a description written with the standard escapes, and no fragment
   * boundary splits an escape, the texts sent add up to the description.
   */
  lemma StreamedTextIsDescription(fragments: seq<string>, h: string, description: string, rest: string)
    requires ValueStart(h) == Some(|h|)
    requires description != []
    requires Concat(fragments) == h + Escape(description) + "\"" + rest
    requires NoHeldEscape(fragments)
    ensures Concat(Feed(fragments).texts) == description
  {
    FeedFaithful(fragments);
    ExtractEscaped(h, description, rest);
  }

  // ---------------------------------------------------------------------------------
  // Concrete runs

  /** Helper: the state after two fragments. */
  lemma FeedTwo(f1: string, f2: string)
    ensures Feed([f1, f2]) == Step(Step(Initial, f1), f2)
    ensures Concat([f1, f2]) == f1 + f2
  {
    assert [f1, f2][..1] == [f1];
    assert [f1][..0] == [];
    assert Feed([f1]) == Step(Initial, f1);
    assert Concat([f1]) == "" + f1 == f1;
  }

  /** Helper: the state after three fragments. */
  lemma FeedThree(f1: string, f2: string, f3: string)
    ensures Feed([f1, f2, f3]) == Step(Step(Step(Initial, f1), f2), f3)
  {
    assert [f1, f2, f3][..2] == [f1, f2];
    FeedTwo(f1, f2);
  }

  /** Helper: regrouping a concatenation of four texts. */
  lemma Regroup(a: string, b: string, c: string, d: string)
    ensures a + b + (c + d) == a + ((b + c) + d)
  {
  }

  /**
   * A run where the key itself is cut between the first two fragments and the description
   * arrives in two plain pieces: the first fragment sends nothing, and then each piece is sent
   * as one text. `h` is any opening that ends just after the value's opening quote, such as
   * `Opening`.
   */
  lemma SplitKeyRun(h1: string, h2: string, d1: string, d2: string)
    requires ValueStart(h1 + h2) == Some(|h1 + h2|) && |h1| < |Marker|
    requires d1 != [] && d2 != [] && Plain(d1) && Plain(d2)
    ensures Feed([h1, h2 + d1, d2 + "\"}"]).texts == [d1, d2]
  {
    FeedThree(h1, h2 + d1, d2 + "\"}");
    SplitKeyFirstStep(h1);
    SplitKeySecondStep(h1, h2, d1);
    SplitKeyThirdStep(h1 + h2, d1, d2);
  }

  /** Helper: a fragment too short to hold the key sends nothing. */
  lemma SplitKeyFirstStep(h1: string)
    requires |h1| < |Marker|
    ensures Step(Initial, h1) == Emission(h1, 0, [])
  {
    assert FindMarker(h1, 0) == None;
    assert Initial.buffer + h1 == h1;
  }

  /** Helper: the rest of the key and a first plain piece send that piece. */
  lemma SplitKeySecondStep(h1: string, h2: string, d1: string)
    requires ValueStart(h1 + h2) == Some(|h1 + h2|)
    requires d1 != [] && Plain(d1)
    ensures Step(Emission(h1, 0, []), h2 + d1) == Emission((h1 + h2) + d1, |d1|, [d1])
  {
    var h := h1 + h2;
    assert h1 + (h2 + d1) == h + d1;
    ExtractAfterHeader(h, d1);
    ScanPlain(d1, "");
    assert d1 + "" == d1;
  }

  /** Helper: a second plain piece with the closing quote sends that piece. */
  lemma SplitKeyThirdStep(h: string, d1: string, d2: string)
    requires ValueStart(h) == Some(|h|)
    requires d1 != [] && d2 != [] && Plain(d1) && Plain(d2)
    ensures Step(Emission(h + d1, |d1|, [d1]), d2 + "\"}").texts == [d1, d2]
  {
    var tail := (d1 + d2) + "\"}";
    Regroup(h, d1, d2, "\"}");
    ExtractAfterHeader(h, tail);
    ScanPlain(d1 + d2, "\"}");
    assert Scan("\"}", 0) == [];
    assert (d1 + d2) + [] == d1 + d2;
    assert Extract(h + tail) == Some(d1 + d2);
    assert (d1 + d2)[|d1|..] == d2;
    var s3 := Step(Emission(h + d1, |d1|, [d1]), d2 + "\"}");
    assert s3.buffer == h + tail;
    assert s3.texts == [d1] + [d2];
  }

  /** Helper: the first step of `HeldBackslashLosesText` sends the backslash. */
  lemma HeldBackslashFirstStep(h: string)
    requires ValueStart(h) == Some(|h|)
    ensures Step(Initial, h + "a\\") == Emission(h + "a\\", 2, ["a\\"])
  {
    HeldBackslashIsNotMonotone(h);
    var f := h + "a\\";
    var d := "a\\";
    assert Initial.buffer + f == f;
    assert Extract(f) == Some(d) && |d| == 2 && d[0..] == d;
    assert Step(Initial, f) == Emission(f, |d|, [] + [d[0..]]);
    assert [] + [d[0..]] == [d];
  }

  /** Helper: the second step of `HeldBackslashLosesText` sends nothing. */
  lemma HeldBackslashSecondStep(h: string)
    requires ValueStart(h) == Some(|h|)
    ensures Step(Emission(h + "a\\", 2, ["a\\"]), "n\"}").texts == ["a\\"]
    ensures (h + "a\\") + "n\"}" == h + "a\\n\"}"
  {
    HeldBackslashIsNotMonotone(h);
    assert "a\\" + "n\"}" == "a\\n\"}";
    assert (h + "a\\") + "n\"}" == h + ("a\\" + "n\"}");
  }

  /**
   * A fragment that ends on a backslash makes the service send the backslash itself; the
   * character that follows turns it into a new line, which is then never sent, so the client's
   * text differs from the description.
   */
  lemma HeldBackslashLosesText(h: string)
    requires ValueStart(h) == Some(|h|)
    ensures Concat(Feed([h + "a\\", "n\"}"]).texts) == "a\\"
    ensures DescriptionSoFar(Concat([h + "a\\", "n\"}"])) == "a\n"
  {
    FeedTwo(h + "a\\", "n\"}");
    HeldBackslashFirstStep(h);
    HeldBackslashSecondStep(h);
    HeldBackslashIsNotMonotone(h);
    assert ["a\\"][..0] == [];
  }
}
