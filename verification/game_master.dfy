/**
 * The game master service: the store of running games (each a conversation history), the
 * preparation of a new game and of a player's action, the non-streaming turns, and the
 * streaming turn that sends description text, then the scene, then the image.
 *
 * The language model, the JSON decoder and encoder and the image generator are outside the
 * model: a turn receives the model's reply (as fragments when streaming), `decode` stands for
 * deserialization (`None` for both a null result and a thrown exception), `serialize` for
 * serialization, and `image` for the URL the image generator would return (`None` for a
 * failure, which the service turns into a missing image rather than an error).
 */
module GameMaster {

  import opened Wrappers
  import opened Text
  import opened Scenes
  import opened CodeFence
  import opened TextEmission

  /** The failures a request can end with. */
  datatype Error =
    | GameNotFound(gameId: string)  // `KeyNotFoundException`
    | ParseFailure                  // `InvalidOperationException("Failed to parse AI response.")`

  // ---------------------------------------------------------------------------------
  // Opening a game

  /** The player's first request when no theme is given. */
  const NewGameRequest: string := "Start a new adventure game. Set the scene and give me my first choices."

  /** The player's first request for a given theme. */
  function ThemedRequest(theme: string): string {
    "Start a new adventure game with the theme: " + theme + ". Set the scene and give me my first choices."
  }

  /** The player's first request: a null or blank theme counts as no theme. */
  function StartRequest(theme: Option<string>): string {
    if IsNullOrWhiteSpace(theme) then NewGameRequest else ThemedRequest(theme.value)
  }

  /** The history a new game starts with: the system prompt and the player's first request. */
  function OpeningMessages(systemPrompt: string, theme: Option<string>): (r: seq<Message>)
    ensures |r| == 2 && r[0] == Message(System, systemPrompt) && r[1].role == User
  {
    [Message(System, systemPrompt), Message(User, StartRequest(theme))]
  }

  /**
   * The first request tells themes apart: equal requests come from two missing or blank
   * themes, or from the same theme.
   */
  lemma StartRequestDistinguishesThemes(t1: Option<string>, t2: Option<string>)
    requires StartRequest(t1) == StartRequest(t2)
    ensures IsNullOrWhiteSpace(t1) <==> IsNullOrWhiteSpace(t2)
    ensures !IsNullOrWhiteSpace(t1) ==> t1.value == t2.value
  {
    var prefix := "Start a new adventure game with the theme: ";
    if !IsNullOrWhiteSpace(t1) && !IsNullOrWhiteSpace(t2) {
      var r := StartRequest(t1);
      assert |t1.value| == |t2.value|;
      assert r[|prefix|..|prefix| + |t1.value|] == t1.value;
      assert r[|prefix|..|prefix| + |t2.value|] == t2.value;
    }
  }

  // ---------------------------------------------------------------------------------
  // Naming the chosen action

  /** The position of the most recent assistant message (`LastOrDefault`), if any. */
  function LastAssistantIndex(history: seq<Message>): (r: Option<nat>)
    ensures r.Some? ==> r.value < |history| && history[r.value].role == Assistant
    ensures r.Some? ==> forall j :: r.value < j < |history| ==> history[j].role != Assistant
    ensures r.None? ==> forall j :: 0 <= j < |history| ==> history[j].role != Assistant
  {
    if history == [] then None
    else if history[|history| - 1].role == Assistant then Some(|history| - 1)
    else LastAssistantIndex(history[..|history| - 1])
  }

  /** The position of the first action with the given id (`FirstOrDefault`), if any. */
  function FirstActionIndex(actions: seq<GameAction>, actionId: int): (r: Option<nat>)
    ensures r.Some? ==> r.value < |actions| && actions[r.value].id == actionId
    ensures r.Some? ==> forall j :: 0 <= j < r.value ==> actions[j].id != actionId
    ensures r.None? ==> forall j :: 0 <= j < |actions| ==> actions[j].id != actionId
  {
    if actions == [] then None
    else if actions[0].id == actionId then Some(0)
    else match FirstActionIndex(actions[1..], actionId)
      case None => None
      case Some(i) => Some(i + 1)
  }

  /**
   * The action the player chose, looked up in the scene of the most recent assistant message,
   * decoded as stored (without removing a fence).
   */
  function ChosenAction(history: seq<Message>, actionId: int, decode: string -> Option<AiScene>): (r: Option<GameAction>)
    ensures r.Some? ==> r.value.id == actionId
    ensures r.Some? <==>
      && LastAssistantIndex(history).Some?
      && decode(history[LastAssistantIndex(history).value].text).Some?
      && FirstActionIndex(decode(history[LastAssistantIndex(history).value].text).value.actions, actionId).Some?
  {
    match LastAssistantIndex(history)
    case None => None
    case Some(k) =>
      match decode(history[k].text)
      case None => None
      case Some(scene) =>
        match FirstActionIndex(scene.actions, actionId)
        case None => None
        case Some(i) => Some(scene.actions[i])
  }

  /** The label used when the chosen action cannot be named. */
  function FallbackLabel(actionId: int): string {
    "I choose action " + IntToString(actionId)
  }

  /** The prefix of a label that names the chosen action. */
  const ChoicePrefix: string := "I choose: "

  /** The user message that reports the player's choice. */
  function ActionLabel(history: seq<Message>, actionId: int, decode: string -> Option<AiScene>): string {
    match ChosenAction(history, actionId, decode)
    case Some(action) => ChoicePrefix + action.text
    case None => FallbackLabel(actionId)
  }

  /**
   * The label names the action exactly when the action was found, and then carries its text;
   * otherwise it is the fallback, which never looks like a named choice.
   */
  lemma ActionLabelNamesAction(history: seq<Message>, actionId: int, decode: string -> Option<AiScene>)
    ensures StartsWith(ActionLabel(history, actionId, decode), ChoicePrefix)
      <==> ChosenAction(history, actionId, decode).Some?
    ensures ChosenAction(history, actionId, decode).Some? ==>
      ActionLabel(history, actionId, decode)[|ChoicePrefix|..] == ChosenAction(history, actionId, decode).value.text
    ensures ChosenAction(history, actionId, decode).None? ==>
      ActionLabel(history, actionId, decode) == FallbackLabel(actionId)
  {
    var said := ActionLabel(history, actionId, decode);
    if ChosenAction(history, actionId, decode).None? {
      var fallback := "I choose action ";
      assert said == fallback + IntToString(actionId);
      assert said[8] == fallback[8] == ' ';
      assert ChoicePrefix[8] == ':';
    }
  }

  /** Helper: the message just appended is the most recent assistant message. */
  lemma LastAssistantOfAppended(history: seq<Message>, text: string)
    ensures LastAssistantIndex(history + [Message(Assistant, text)]) == Some(|history|)
  {
  }

  /**
   * After a streaming turn, the next action is named from the scene that turn decoded: the
   * stored assistant message is the de-fenced reply, so decoding it again finds the same actions.
   */
  lemma ActionAfterStreamedTurn(history: seq<Message>, reply: string, actionId: int,
                                decode: string -> Option<AiScene>)
    requires decode(StripFence(reply)).Some?
    ensures var scene := decode(StripFence(reply)).value;
      var stored := history + [Message(Assistant, StripFence(reply))];
      FirstActionIndex(scene.actions, actionId).Some? ==>
        ActionLabel(stored, actionId, decode) == ChoicePrefix + scene.actions[FirstActionIndex(scene.actions, actionId).value].text
  {
    LastAssistantOfAppended(history, StripFence(reply));
  }

  /**
   * The non-streaming turn stores the reply as received. When the reply is fenced and the
   * decoder rejects the fence (as a JSON decoder does), the next action falls back to the
   * generic label although the turn itself decoded the scene and offered the action.
   */
  lemma FencedReplyLosesActionText(history: seq<Message>, info: string, body: string, actionId: int,
                                   decode: string -> Option<AiScene>)
    requires forall k :: 0 <= k < |info| ==> info[k] != '\n'
    requires decode(Fenced(info, body)).None?
    ensures ActionLabel(history + [Message(Assistant, Fenced(info, body))], actionId, decode) == FallbackLabel(actionId)
  {
    LastAssistantOfAppended(history, Fenced(info, body));
  }

  // ---------------------------------------------------------------------------------
  // The non-streaming turn

  /**
   * The scene a non-streamed reply gives: a parse failure when its de-fenced text does not
   * decode, otherwise the decoded scene, which carries the image URL only when the image
   * prompt is not blank.
   */
  function SceneOfReply(reply: string, decode: string -> Option<AiScene>, image: Option<string>): Result<GameScene, Error> {
    match decode(StripFence(reply))
    case None => Failure(ParseFailure)
    case Some(ai) => Success(ToGameScene(ai, if IsNullOrWhiteSpace(ai.imagePrompt) then None else image))
  }

  /**
   * Wrapping a reply in a code fence does not change the scene it gives, as long as the body
   * does not itself open a fence and the info string is on the fence's line.
   */
  lemma FencedReplyGivesSameScene(info: string, body: string, decode: string -> Option<AiScene>, image: Option<string>)
    requires forall k :: 0 <= k < |info| ==> info[k] != '\n'
    requires !StartsWith(Trim(body), Fence)
    ensures SceneOfReply(Fenced(info, body), decode, image) == SceneOfReply(body, decode, image)
  {
    StripFenced(info, body);
    assert StripFence(Fenced(info, body)) == StripFence(body);
  }

  /** The answer to the client for a game: its id with the scene, or the error. */
  function Respond(gameId: string, scene: Result<GameScene, Error>): Result<GameResponse, Error> {
    match scene
    case Failure(e) => Failure(e)
    case Success(s) => Success(GameResponse(gameId, s))
  }

  /**
   * `GetSceneFromAI`: the reply is appended to the history as received, then de-fenced and
   * decoded; the scene carries the image URL when the image prompt is not blank.
   */
  method GetSceneFromAI(messages: seq<Message>, reply: string, decode: string -> Option<AiScene>, image: Option<string>)
    returns (updated: seq<Message>, outcome: Result<GameScene, Error>)
    ensures updated == messages + [Message(Assistant, reply)]
    ensures outcome == SceneOfReply(reply, decode, image)
    ensures outcome.Failure? <==> decode(StripFence(reply)).None?
    ensures outcome.Failure? ==> outcome.error == ParseFailure
  {
    updated := messages + [Message(Assistant, reply)];
    var json := StripCodeFence(reply);
    var aiResponse := decode(json);
    if aiResponse.None? {
      return updated, Failure(ParseFailure);
    }
    var ai := aiResponse.value;
    var imageUrl: Option<string> := None;
    if !IsNullOrWhiteSpace(ai.imagePrompt) {
      imageUrl := image;
    }
    outcome := Success(ToGameScene(ai, imageUrl));
  }

  // ---------------------------------------------------------------------------------
  // The streaming turn

  /** The events that close a streaming turn: the scene without image, then the image if one was made. */
  function SceneEvents(ai: AiScene, gameId: string, serialize: GameScene -> string, image: Option<string>): seq<StreamEvent> {
    [StreamEvent(Scene, serialize(ToGameScene(ai, None)), gameId)]
    + (if !IsNullOrWhiteSpace(ai.imagePrompt) && image.Some? then [StreamEvent(Image, image.value, gameId)] else [])
  }

  /**
   * The events sent once the reply has decoded: the scene with its image URL left out, then,
   * when the image prompt is not blank and the generator produced a URL, the image.
   */
  method CloseTurn(ai: AiScene, gameId: string, serialize: GameScene -> string, image: Option<string>)
    returns (events: seq<StreamEvent>)
    ensures events == SceneEvents(ai, gameId, serialize, image)
  {
    var scene := ToGameScene(ai, None);
    events := [StreamEvent(Scene, serialize(scene), gameId)];
    if !IsNullOrWhiteSpace(ai.imagePrompt) {
      var imageUrl := image;
      if imageUrl.Some? {
        events := events + [StreamEvent(Image, imageUrl.value, gameId)];
      }
    }
  }

  /** Text events followed by the closing events form one turn's timeline. */
  lemma TurnTimeline(texts: seq<string>, ai: AiScene, gameId: string,
                     serialize: GameScene -> string, image: Option<string>)
    ensures IsTurnTimeline(TextEvents(texts, gameId) + SceneEvents(ai, gameId, serialize, image))
  {
    var t := TextEvents(texts, gameId);
    var c := SceneEvents(ai, gameId, serialize, image);
    TurnRanks(t, c);
    TurnKinds(texts, gameId, c);
  }

  /** Helper: text events followed by a scene and possibly an image hold one scene and at most one image. */
  lemma TurnKinds(texts: seq<string>, gameId: string, c: seq<StreamEvent>)
    requires 1 <= |c| <= 2 && c[0].kind == Scene && (|c| == 2 ==> c[1].kind == Image)
    ensures multiset(Kinds(TextEvents(texts, gameId) + c))[Scene] == 1
    ensures multiset(Kinds(TextEvents(texts, gameId) + c))[Image] <= 1
  {
    KindsAppend(TextEvents(texts, gameId), c);
    TextKinds(texts, gameId);
    assert Kinds(c) == if |c| == 2 then [Scene, Image] else [Scene];
  }

  /** Helper: text events, then a scene, then possibly an image, are in rank order. */
  lemma TurnRanks(t: seq<StreamEvent>, c: seq<StreamEvent>)
    requires forall k :: 0 <= k < |t| ==> t[k].kind == Text
    requires 1 <= |c| <= 2 && c[0].kind == Scene && (|c| == 2 ==> c[1].kind == Image)
    ensures forall i, j :: 0 <= i < j < |t + c| ==> Rank((t + c)[i].kind) <= Rank((t + c)[j].kind)
  {
    var events := t + c;
    forall i, j | 0 <= i < j < |events| ensures Rank(events[i].kind) <= Rank(events[j].kind) {
      if j >= |t| {
        assert events[j] == c[j - |t|];
      }
      if i >= |t| {
        assert events[i] == c[i - |t|];
      }
    }
  }

  /** Helper: the kinds of a concatenation. */
  lemma KindsAppend(a: seq<StreamEvent>, b: seq<StreamEvent>)
    ensures Kinds(a + b) == Kinds(a) + Kinds(b)
  {
  }

  /** Helper: text events contain neither a scene nor an image. */
  lemma {:induction false} TextKinds(texts: seq<string>, gameId: string)
    ensures multiset(Kinds(TextEvents(texts, gameId)))[Scene] == 0
    ensures multiset(Kinds(TextEvents(texts, gameId)))[Image] == 0
  {
    if texts != [] {
      var init := texts[..|texts| - 1];
      TextKinds(init, gameId);
      KindsAppend(TextEvents(init, gameId), [StreamEvent(Text, texts[|texts| - 1], gameId)]);
    }
  }

  /**
   * The player's choice appended to a history as a user message: "I choose: " and the action's
   * text when the most recent assistant message decodes to a scene with that action, and the
   * fallback label otherwise.
   */
  method AppendChoice(messages: seq<Message>, actionId: int, decode: string -> Option<AiScene>)
    returns (updated: seq<Message>)
    ensures updated == messages + [Message(User, ActionLabel(messages, actionId, decode))]
  {
    var actionText := FallbackLabel(actionId);
    var action := ChosenAction(messages, actionId, decode);
    if action.Some? {
      actionText := ChoicePrefix + action.value.text;
    }
    updated := messages + [Message(User, actionText)];
  }

  /** The service: the store of games, each a conversation history under its id. */
  class GameMasterService {

    /** The instructions given to the model at the start of every game. */
    const systemPrompt: string

    /** The running games (`_games`). */
    var games: map<string, seq<Message>>

    constructor(systemPrompt: string)
      ensures this.systemPrompt == systemPrompt && games == map[]
    {
      this.systemPrompt := systemPrompt;
      games := map[];
    }

    /** Seeds a game under `freshId` (the new GUID) with the opening history and returns both. */
    method PrepareStartGame(theme: Option<string>, freshId: string) returns (gameId: string, messages: seq<Message>)
      modifies this
      ensures gameId == freshId && messages == OpeningMessages(systemPrompt, theme)
      ensures games == old(games)[gameId := messages]
    {
      gameId := freshId;
      messages := [Message(System, systemPrompt), Message(User, StartRequest(theme))];
      games := games[gameId := messages];
    }

    /**
     * Records the player's choice: an unknown game fails and changes nothing; otherwise exactly
     * one user message, the action's label, is appended to that game's history.
     */
    method PrepareAction(gameId: string, actionId: int, decode: string -> Option<AiScene>)
      returns (r: Result<seq<Message>, Error>)
      modifies this
      ensures gameId !in old(games) ==> r == Failure(GameNotFound(gameId)) && games == old(games)
      ensures gameId in old(games) ==>
        && r == Success(old(games)[gameId] + [Message(User, ActionLabel(old(games)[gameId], actionId, decode))])
        && games == old(games)[gameId := r.value]
    {
      if gameId !in games {
        return Failure(GameNotFound(gameId));
      }
      var messages := AppendChoice(games[gameId], actionId, decode);
      games := games[gameId := messages];
      r := Success(messages);
    }

    /**
     * `StartGameAsync`: the opening history and the model's reply go through `GetSceneFromAI`;
     * the game is stored only when the scene was decoded.
     */
    method StartGame(theme: Option<string>, freshId: string, reply: string,
                     decode: string -> Option<AiScene>, image: Option<string>)
      returns (r: Result<GameResponse, Error>)
      modifies this
      ensures r == Respond(freshId, SceneOfReply(reply, decode, image))
      ensures r.Failure? ==> games == old(games)
      ensures r.Success? ==> games == old(games)[freshId := OpeningMessages(systemPrompt, theme) + [Message(Assistant, reply)]]
    {
      var messages := OpeningMessages(systemPrompt, theme);
      var updated, outcome := GetSceneFromAI(messages, reply, decode, image);
      if outcome.Failure? {
        return Failure(outcome.error);
      }
      games := games[freshId := updated];
      r := Success(GameResponse(freshId, outcome.value));
    }

    /**
     * `ChooseActionAsync`: the choice is recorded, then the model's reply is appended as
     * received, whether or not it decodes, since both go into the stored history in place.
     */
    method ChooseAction(gameId: string, actionId: int, reply: string,
                        decode: string -> Option<AiScene>, image: Option<string>)
      returns (r: Result<GameResponse, Error>)
      modifies this
      ensures gameId !in old(games) ==> r == Failure(GameNotFound(gameId)) && games == old(games)
      ensures gameId in old(games) ==>
        games == old(games)[gameId := old(games)[gameId]
          + [Message(User, ActionLabel(old(games)[gameId], actionId, decode)), Message(Assistant, reply)]]
      ensures gameId in old(games) ==> r == Respond(gameId, SceneOfReply(reply, decode, image))
    {
      if gameId !in games {
        return Failure(GameNotFound(gameId));
      }
      ghost var choice := Message(User, ActionLabel(games[gameId], actionId, decode));
      var messages := AppendChoice(games[gameId], actionId, decode);
      var updated, outcome := GetSceneFromAI(messages, reply, decode, image);
      Associative(games[gameId], [choice], [Message(Assistant, reply)]);
      assert [choice] + [Message(Assistant, reply)] == [choice, Message(Assistant, reply)];
      games := games[gameId := updated];
      r := Respond(gameId, outcome);
    }

    /**
     * `StreamSceneAsync` on the history stored for `gameId`: description text is sent while the
     * reply arrives (`EmitDescriptionText`), then the turn is completed (`CompleteTurn`). A reply
     * that does not decode ends the turn after the text events; otherwise the events form one
     * turn's timeline.
     */
    method StreamScene(gameId: string, fragments: seq<string>, decode: string -> Option<AiScene>,
                       serialize: GameScene -> string, image: Option<string>)
      returns (events: seq<StreamEvent>, outcome: Result<GameScene, Error>)
      modifies this
      requires gameId in games
      ensures games == old(games)[gameId := old(games)[gameId] + [Message(Assistant, StripFence(Concat(fragments)))]]
      ensures decode(StripFence(Concat(fragments))).None? ==>
        events == TextEvents(Feed(fragments).texts, gameId) && outcome == Failure(ParseFailure)
      ensures decode(StripFence(Concat(fragments))).Some? ==>
        && events == TextEvents(Feed(fragments).texts, gameId)
             + SceneEvents(decode(StripFence(Concat(fragments))).value, gameId, serialize, image)
        && outcome == Success(ToGameScene(decode(StripFence(Concat(fragments))).value, None))
        && IsTurnTimeline(events)
    {
      var textEvents, fullJson, lastDescriptionLength := EmitDescriptionText(gameId, fragments);
      var closing;
      closing, outcome := CompleteTurn(gameId, fullJson, decode, serialize, image);
      events := textEvents + closing;
      if outcome.Success? {
        TurnTimeline(Feed(fragments).texts, decode(StripFence(fullJson)).value, gameId, serialize, image);
      } else {
        assert closing == [];
        assert events == textEvents;
      }
    }

    /**
     * The part of `StreamSceneAsync` after the reply has ended: the reply is trimmed and
     * de-fenced and appended to the history before it is decoded; a decoded scene is sent
     * without image, then the image if the prompt is not blank and the generator produced one.
     */
    method CompleteTurn(gameId: string, fullJson: string, decode: string -> Option<AiScene>,
                        serialize: GameScene -> string, image: Option<string>)
      returns (events: seq<StreamEvent>, outcome: Result<GameScene, Error>)
      modifies this
      requires gameId in games
      ensures games == old(games)[gameId := old(games)[gameId] + [Message(Assistant, StripFence(fullJson))]]
      ensures decode(StripFence(fullJson)).None? ==> events == [] && outcome == Failure(ParseFailure)
      ensures decode(StripFence(fullJson)).Some? ==>
        && events == SceneEvents(decode(StripFence(fullJson)).value, gameId, serialize, image)
        && outcome == Success(ToGameScene(decode(StripFence(fullJson)).value, None))
    {
      events := [];
      var json := StripCodeFence(fullJson);
      games := games[gameId := games[gameId] + [Message(Assistant, json)]];
      var aiResponse := decode(json);
      if aiResponse.None? {
        return events, Failure(ParseFailure);
      }
      var ai := aiResponse.value;
      events := CloseTurn(ai, gameId, serialize, image);
      outcome := Success(ToGameScene(ai, None));
    }
  }
}
