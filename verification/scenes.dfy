/**
 * The records exchanged by the game master: the player's choices, the scene sent to the
 * client, the scene as the language model writes it, chat messages and streamed events.
 */
module Scenes {

  import opened Wrappers

  /** One choice offered to the player (`GameAction`). */
  datatype GameAction = GameAction(id: int, text: string)

  /** The scene the client shows (`GameScene`); `imageUrl` is null until an image exists. */
  datatype GameScene = GameScene(
    description: string,
    actions: seq<GameAction>,
    isGameOver: bool,
    imageUrl: Option<string>)

  /** The scene as the model returns it (`AiSceneResponse`): a `GameScene` without the URL, plus the image prompt. */
  datatype AiScene = AiScene(
    description: string,
    imagePrompt: Option<string>,
    actions: seq<GameAction>,
    isGameOver: bool)

  /** The answer to a start or action request (`GameResponse`). */
  datatype GameResponse = GameResponse(gameId: string, scene: GameScene)

  /** The scene shown to the player, built from the model's scene and an image URL. */
  function ToGameScene(ai: AiScene, imageUrl: Option<string>): GameScene {
    GameScene(ai.description, ai.actions, ai.isGameOver, imageUrl)
  }

  /** The roles of a chat message. */
  datatype Role = System | User | Assistant

  /** One entry of a game's conversation history (`ChatMessage`). */
  datatype Message = Message(role: Role, text: string)

  /** The `Type` of a streamed event: "text", "scene" or "image". */
  datatype EventType = Text | Scene | Image

  /** One server-sent event of a streaming turn (`StreamEvent`). */
  datatype StreamEvent = StreamEvent(kind: EventType, data: string, gameId: string)

  /** The position of an event type in a turn's timeline: text first, then the scene, then the image. */
  function Rank(t: EventType): nat {
    match t
    case Text => 0
    case Scene => 1
    case Image => 2
  }

  /** The event types of `events`, in order. */
  function Kinds(events: seq<StreamEvent>): (r: seq<EventType>)
    ensures |r| == |events|
    ensures forall i :: 0 <= i < |events| ==> r[i] == events[i].kind
  {
    if events == [] then [] else Kinds(events[..|events| - 1]) + [events[|events| - 1].kind]
  }

  /**
   * The shape of one streaming turn: zero or more text events, then exactly one scene event,
   * then at most one image event.
   */
  ghost predicate IsTurnTimeline(events: seq<StreamEvent>) {
    && (forall i, j :: 0 <= i < j < |events| ==> Rank(events[i].kind) <= Rank(events[j].kind))
    && multiset(Kinds(events))[Scene] == 1
    && multiset(Kinds(events))[Image] <= 1
  }
}
