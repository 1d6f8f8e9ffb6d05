# AdventureGame game master and SSE client, in Dafny

This project models the two halves of a streaming turn of the AdventureGame text adventure,
and proves properties of both.

**The server: `GameMasterService`.** It keeps every running game as a conversation history
with a language model. Its operations:

- start a game (`StartGameAsync`, `PrepareStartGame`);
- record the player's choice of action (`ChooseActionAsync`, `PrepareAction`);
- play a turn, either at once (`GetSceneFromAI`) or streamed (`StreamSceneAsync`).

While the reply of a streamed turn arrives, the service re-reads the still unfinished JSON
with its partial-field extractor (`TryExtractPartialDescription`). It sends the part of the
scene's `description` that the client has not seen yet as a `text` event. Once the reply has
ended, it strips a markdown code fence, stores the reply and decodes it. Then it sends a
`scene` event, followed by an `image` event when an image was generated.

**The browser: `fetchSse`.** It POSTs the request and reads the response body chunk by chunk.
It cuts the body into records at blank lines and reads each record's `event: ` and `data: `
lines. Every record that has both fields becomes an `OnSseEvent` call on the .NET side. When
the body ends, the unfinished tail is read the same way and `OnSseComplete` is called. Errors
become `OnSseError`.

**How the project is organised.**

- Each loop of the source is a `method` with its loop invariants. It is proved against a
  specification function.
- The store of games is a `class` with a `map` field that its methods update.
- The language model, the JSON decoder and encoder, and the image generator are parameters:
  - the model's reply is a string, or a sequence of fragments when streaming;
  - `decode` is a function to `Option<AiScene>`;
  - `serialize` is a function to `string`;
  - `image` is the URL the generator would return, if any.

The modules are:

| file | module | what it holds |
|---|---|---|
| `wrappers.dfy` | `Wrappers` | `Option` and `Result` |
| `text.dfy` | `Text` | .NET and JavaScript white space, `Trim`, `StartsWith`/`EndsWith`, `IndexOf`, decimal rendering |
| `scenes.dfy` | `Scenes` | scenes, actions, chat messages, stream events, the shape of a turn's timeline |
| `partial_description.dfy` | `PartialDescription` | the extractor: specification (`Extract`), loop (`TryExtractPartialDescription`), monotonicity and round trips |
| `code_fence.dfy` | `CodeFence` | removal of a code fence around the reply |
| `text_emission.dfy` | `TextEmission` | the emission loop of the streamed turn, specified as a fold (`Feed`) |
| `game_master.dfy` | `GameMaster` | the service class, the non-streamed and streamed turns, naming the chosen action |
| `sse_interop.dfy` | `SseInterop` | the client: `split`, record parsing, the read loop, and a reference writer with round trips |

## Model

| member | source | states |
|---|---|---|
| PartialDescription.TryExtractPartialDescription | src/AdventureGame.Api/Services/GameMasterService.cs:246-289 | The extractor returns exactly `Extract(partialJson)`. It finds the key ignoring ASCII case, skips `:`, space, `\n` and `\r`, requires an opening quote, and decodes up to the closing quote or the end. An empty result is `None`. |
| PartialDescription.ReadStringValue | src/AdventureGame.Api/Services/GameMasterService.cs:263-286 | The decoding loop returns the scan of the value from just after the opening quote. It stops at the first unescaped quote or at the end of the text. |
| PartialDescription.ReadEscape | src/AdventureGame.Api/Services/GameMasterService.cs:268-279 | After a backslash, a known escape (`\"`, `\\`, `\n`, `\r`, `\t`) gives its character and consumes two characters. Any other character leaves the backslash itself and consumes one. |
| PartialDescription.ExtractMonotone | src/AdventureGame.Api/Services/GameMasterService.cs:246-289 | When the buffer grows, an extracted description can only be extended, unless the shorter buffer ended on a lone backslash. Once the closing quote has arrived, the description no longer changes. |
| PartialDescription.ExtractEscaped | src/AdventureGame.Api/Services/GameMasterService.cs:263-288 | Round trip: after any complete header, a non-empty description written with the five escapes is decoded back exactly, and the value is seen as closed. |
| PartialDescription.ExtractedIsPrefixOfDescription | src/AdventureGame.Api/Services/GameMasterService.cs:246-289 | Every description extracted from a prefix of a complete escaped reply is a prefix of the true description, unless that prefix ends between a backslash and its partner. |
| PartialDescription.ExtractIgnoresKeyCase | src/AdventureGame.Api/Services/GameMasterService.cs:249-250 | Two texts that differ only in the ASCII case of their first key extract the same description, whatever text precedes the key (such as the opening brace and indent). |
| PartialDescription.TabIsNotSkipped | src/AdventureGame.Api/Services/GameMasterService.cs:255-259 | A tab between the key and the quote is not a separator, so nothing is extracted, whatever the value, the spelling of the key and the text before it. |
| PartialDescription.EmptyValueIsNone | src/AdventureGame.Api/Services/GameMasterService.cs:288 | An empty value extracts as nothing rather than as an empty string, whatever follows its closing quote. |
| PartialDescription.UnknownEscapeKeepsBackslash | src/AdventureGame.Api/Services/GameMasterService.cs:278 | An escape other than the five known ones keeps its backslash, so `\u0041` stays six characters. |
| PartialDescription.HeldBackslashIsNotMonotone | src/AdventureGame.Api/Services/GameMasterService.cs:268 | A buffer ending on a lone backslash yields that backslash. The following `n` turns it into a new line, so the earlier result is not a prefix of the later one. |
| PartialDescription.ExtractOpenValue | src/AdventureGame.Api/Services/GameMasterService.cs:265-286 | A value without backslashes whose closing quote has not arrived yields all of what has arrived and is not closed. |
| PartialDescription.ExtractClosedValue | src/AdventureGame.Api/Services/GameMasterService.cs:281-282 | A closed value without backslashes yields the text up to its closing quote, whatever follows, and is closed. |
| PartialDescription.OpeningValueStart | src/AdventureGame.Api/Services/GameMasterService.cs:33-34 | The opening that the system prompt lays out (a brace on its own line, then the key indented by four spaces, a colon, a space and the opening quote) is a complete header: the value starts at its end. |
| CodeFence.StripCodeFence | src/AdventureGame.Api/Services/GameMasterService.cs:190-201 | The statements that strip the fence compute `StripFence`. The result never starts or ends with white space, is never longer than the reply, and an unfenced reply is only trimmed. |
| CodeFence.StripFenced | src/AdventureGame.Api/Services/GameMasterService.cs:300-310 | Round trip: a reply wrapped in a fence whose info string is on one line is stripped back to the trimmed body, whatever the body holds. |
| CodeFence.BareJsonIsTrimmed | src/AdventureGame.Api/Services/GameMasterService.cs:301-302 | A reply that opens with a brace after any white space is only trimmed. |
| TextEmission.EmitDescriptionText | src/AdventureGame.Api/Services/GameMasterService.cs:160-187 | The loop over the model's updates yields exactly the text events of `Feed(fragments)`. Its buffer is the concatenation of the updates, and its counter is the total length of the texts sent. |
| TextEmission.EmitFragment | src/AdventureGame.Api/Services/GameMasterService.cs:165-186 | One pass of the loop body performs one `Step` of the fold: an empty update changes nothing, and otherwise at most one text event is added. |
| TextEmission.FeedInvariant | src/AdventureGame.Api/Services/GameMasterService.cs:173-177 | Invariant of the fold: the counter is the total length of the texts sent, no text sent is empty, and the extracted description is never longer than the counter. |
| TextEmission.FeedGrows | src/AdventureGame.Api/Services/GameMasterService.cs:173-177 | The counter never decreases, and texts once sent stay sent: every prefix of the updates yields a prefix of the texts. |
| TextEmission.FeedIgnoresEmpty | src/AdventureGame.Api/Services/GameMasterService.cs:165 | Updates with empty text are ignored: dropping them changes neither the buffer, the counter nor the texts. |
| TextEmission.FeedFaithful | src/AdventureGame.Api/Services/GameMasterService.cs:163-187 | Unless an update boundary falls between a backslash and its partner, the texts sent add up to exactly the description extracted from everything received. |
| TextEmission.StreamedTextIsDescription | src/AdventureGame.Api/Services/GameMasterService.cs:163-187 | End to end: for a reply that opens with a complete header and a description written with the standard escapes, the texts sent add up to the description, however the reply is cut (no cut inside an escape). |
| TextEmission.HeldBackslashLosesText | src/AdventureGame.Api/Services/GameMasterService.cs:163-187 | When an update ends between a backslash and its `n`, the client receives the backslash, and the new line it turns into is never sent. The client's text then differs from the description. |
| TextEmission.SplitKeyRun | src/AdventureGame.Api/Services/GameMasterService.cs:163-187 | The key is cut across two updates and the description arrives in two plain pieces: nothing is sent first, then each piece is sent as one text. |
| GameMaster.StartRequestDistinguishesThemes | src/AdventureGame.Api/Services/GameMasterService.cs:60-62 | Equal first requests come either from two missing or blank themes, or from the same theme. |
| GameMaster.ActionLabelNamesAction | src/AdventureGame.Api/Services/GameMasterService.cs:128-144 | The label starts with `I choose: ` exactly when the action is found in the last assistant message's scene, and then carries that action's text. Otherwise it is `I choose action <id>`. |
| GameMaster.AppendChoice | src/AdventureGame.Api/Services/GameMasterService.cs:128-146 | The history gains exactly one user message: the chosen action's label. |
| GameMaster.ActionAfterStreamedTurn | src/AdventureGame.Api/Services/GameMasterService.cs:203-204 | After a streamed turn, which stores the de-fenced reply, the next choice is named from the actions of the decoded scene. |
| GameMaster.FencedReplyLosesActionText | src/AdventureGame.Api/Services/GameMasterService.cs:295-296 | A non-streamed turn stores the reply as received. When that reply is fenced and the decoder rejects the fence, the next choice falls back to the generic label. |
| GameMaster.FencedReplyGivesSameScene | src/AdventureGame.Api/Services/GameMasterService.cs:300-313 | Wrapping a reply in a code fence does not change the scene it gives, provided the body does not itself open a fence. |
| GameMaster.GetSceneFromAI | src/AdventureGame.Api/Services/GameMasterService.cs:291-329 | The reply is appended to the history as received. The result fails with a parse failure exactly when the de-fenced reply does not decode. Otherwise it is the decoded scene, with the image URL only when the image prompt is not blank. |
| GameMaster.CloseTurn | src/AdventureGame.Api/Services/GameMasterService.cs:209-238 | Once the reply has decoded, the events are the scene without image URL, then the image when the prompt is not blank and a URL was produced. |
| GameMaster.TurnTimeline | src/AdventureGame.Api/Services/GameMasterService.cs:163-238 | The text events followed by the closing events form one turn: texts first, then exactly one scene, then at most one image. |
| GameMaster.GameMasterService.PrepareStartGame | src/AdventureGame.Api/Services/GameMasterService.cs:104-118 | The game is stored under the fresh id with the system prompt and the player's first request, and both are returned. No other game changes. |
| GameMaster.GameMasterService.PrepareAction | src/AdventureGame.Api/Services/GameMasterService.cs:123-148 | An unknown game fails and changes nothing. Otherwise exactly the label message is appended to that game's history, and the history is returned. |
| GameMaster.GameMasterService.StartGame | src/AdventureGame.Api/Services/GameMasterService.cs:53-69 | The response is the fresh id with the scene of the reply, or the parse failure. The game is stored, with the reply appended, only when the scene decoded. |
| GameMaster.GameMasterService.ChooseAction | src/AdventureGame.Api/Services/GameMasterService.cs:71-99 | An unknown game fails and changes nothing. Otherwise the label and the reply as received are appended to the history, whether or not the reply decodes, and the response is the scene of the reply. |
| GameMaster.GameMasterService.StreamScene | src/AdventureGame.Api/Services/GameMasterService.cs:155-239 | The history gains the de-fenced reply. The events are the text events of `Feed`, then, if the reply decodes, the scene and possibly the image, forming one turn's timeline. A reply that does not decode ends with a parse failure after the text events. |
| GameMaster.GameMasterService.CompleteTurn | src/AdventureGame.Api/Services/GameMasterService.cs:189-239 | The trimmed and de-fenced reply is stored before decoding. A reply that does not decode gives no event and a parse failure. Otherwise the events are `SceneEvents` and the result is the scene without image URL. |
| SseInterop.FetchSse | src/AdventureGame.Client/wwwroot/js/sse-interop.js:13-84 | A rejected fetch gives one `OnSseError` with the message, or "Unknown error" when it is empty. A non-ok status gives one `OnSseError` with "HTTP status: text". Otherwise the calls are those of every record of the whole body, however it was chunked, then `OnSseComplete`. A read error drops the unfinished record and ends with `OnSseError`. |
| SseInterop.ReadStream | src/AdventureGame.Client/wwwroot/js/sse-interop.js:26-80 | After an ok response: every record of the body, including the flushed tail, then `OnSseComplete`. After a read error: every complete record, then `OnSseError`. |
| SseInterop.ReadBody | src/AdventureGame.Client/wwwroot/js/sse-interop.js:30-60 | After the chunks, the complete records of everything received have been dispatched in order. The buffer is the unfinished last piece and holds no blank line. |
| SseInterop.DispatchRecords | src/AdventureGame.Client/wwwroot/js/sse-interop.js:40-59 | The calls for one read are those of every piece but the last, in order. |
| SseInterop.ProcessRecord | src/AdventureGame.Client/wwwroot/js/sse-interop.js:62-78 | A blank record gives nothing. Otherwise one `OnSseEvent` is dispatched when both the last `event: ` value and the last `data: ` value are non-empty. |
| SseInterop.ReadFields | src/AdventureGame.Client/wwwroot/js/sse-interop.js:48-54 | The line loop returns the value after the last `event: ` line and after the last `data: ` line. A line never counts for both. |
| SseInterop.SplitJoin | src/AdventureGame.Client/wwwroot/js/sse-interop.js:38 | Splitting loses nothing: joining the pieces with the separator gives back the text. |
| SseInterop.SplitPiecesClean | src/AdventureGame.Client/wwwroot/js/sse-interop.js:38 | No piece of a split contains the separator. |
| SseInterop.SplitAppend | src/AdventureGame.Client/wwwroot/js/sse-interop.js:34-40 | Splitting a growing text keeps the complete pieces. The rest is the split of the unfinished last piece followed by the new text, which is what lets the loop re-split only its buffer. |
| SseInterop.RecordRoundTrip | src/AdventureGame.Client/wwwroot/js/sse-interop.js:43-58 | The record of an event with a non-empty, one-line type and data is read back as that event. |
| SseInterop.StreamRoundTrip | src/AdventureGame.Client/wwwroot/js/sse-interop.js:36-58 | Round trip: a stream written as records, each followed by a blank line, dispatches exactly the events written. |

## Left out

- The calls to the language model, the image generator and the JSON library are not modelled. They become parameters:
  - the reply, as one string or as fragments;
  - `decode` and `serialize`, as functions;
  - `image`, as an optional URL.
- The `Guid` of a new game is a parameter (`freshId`).
- The system prompt's text is a constructor parameter. Only its opening is used, in `Opening`: the brace, a line break, an indent of four spaces, then `"description": "`. The raw string literal drops the common indent of eight spaces, which leaves these four.
- `decode` returning `None` stands for both a null result and a thrown `JsonException`. The model reports both as `ParseFailure`, although the source lets the `JsonException` propagate under its own type.
- An assistant message whose text is null ("Empty response from AI.") is not modelled: the reply is always a string.
- A failure of the language model call itself is not modelled, nor is a failure of `invokeMethodAsync`.
- Asynchrony, cancellation tokens and concurrent access to the `ConcurrentDictionary` are not modelled. Each operation runs as one step.
- Lengths and indices count Dafny characters (Unicode scalar values), not UTF-16 code units. A description containing characters outside the Basic Multilingual Plane would be cut differently.
- The case-insensitive key search (`OrdinalIgnoreCase`) is modelled for ASCII letters only.
- `StartsWith("```")` and `EndsWith("```")` use the culture-sensitive overloads in the source. They are modelled as ordinal comparisons.
- `FallbackLabel` renders the action id with the invariant culture (`IntToString`). The interpolations at lines 77 and 129 of `GameMasterService.cs` use the current culture, where some cultures write a negative id with a sign other than `-` (such as U+2212).
- An escape other than the five known ones keeps both its backslash and the character after it, as the `default` branch of the code does; it is not decoded (`\u` escapes in particular).
- `GetSceneFromAI` stores the reply exactly as received, fence included; the model follows that code, so a stored history may hold a reply that does not decode. `FencedReplyLosesActionText` shows the consequence.
- `ChooseActionAsync` and `PrepareAction` contain the same label code (lines 76-94 and 128-146 of `GameMasterService.cs`). Both are modelled through the one method `AppendChoice`.
- GameMaster.GameMasterService.StreamScene: requires that `gameId` names a stored game. The source receives the history list itself, which the caller obtained from `PrepareStartGame` or `PrepareAction`.
- GameMaster.GameMasterService.CompleteTurn: requires that `gameId` names a stored game, for the same reason as `StreamScene`, whose tail it is.
- GameMaster.GameMasterService.PrepareStartGame: overwrites a game already stored under the same id, as the indexer assignment does. Freshness of the id is not modelled.
- `fetch`, `TextDecoder` and the reader are not modelled. `chunks` are the decoded pieces of the body. A read error is modelled as happening after the last chunk that was received.
- The HTTP endpoints of the API and the server's writing of `event:`/`data:` records are not part of this model. `Frames` is a reference writer that serves as the partner of the client's reader.
- JSON fields that are null (`description`, `actions`) are not modelled. The decoded scene always has them.
