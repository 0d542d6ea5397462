# Standup bot event engine, in Dafny

This project models the core of a chat bot that collects daily standup
updates in a channel. The bot keeps two insertion-ordered lists for the
life of the process: every update, and the updates that report blockers.

- A `message` event with text appends `{user, text}` to the updates. The
  same record is also appended to the blockers when the lower-cased text
  contains `blockers`.
- An `app_mention` event is checked case-sensitively for `summary`, then
  for `blockers`. The matching list is rendered as `<@user>: text` lines
  joined with newlines, with a fallback literal when the list is empty.
  The rendering goes under a fixed header and is posted to the mention's
  channel. A mention with neither keyword posts nothing.
- The Express route handler for `POST /slack/events` echoes `challenge`
  for a `url_verification` request and answers `OK` to anything else,
  always with status 200. The model follows the handler as written. The
  program never serves this route: it never calls `app.listen`, and the
  only server it starts is the events adapter's (src/index.js:86).

The model is functional. `Standup.State` holds the two sequences, and
`OnMessage`, `OnMention`, `Step` and `Run` are pure transitions. The
outbound `chat.postMessage` call is the `Post` value a handler returns.

Modules:

- `Wrappers`: `Option`, for event fields that may be absent.
- `Text`: the JavaScript string operations the bot relies on:
  - `toLowerCase` (ASCII case mapping), `includes`, `Array.prototype.join`;
  - the string `||` fallback.

  It also defines `Split` on one character. The bot never calls `split`;
  `Split` is a helper that serves as the inverse of `join`, so that the
  model can state that a rendering splits back into its lines.
- `Sequences`: order-preserving subsequences.
- `Standup`: the state, both event handlers, dispatch, the invariant and a
  worked scenario.
- `UrlVerification`: the handshake of the events endpoint.

Users are rendered as `<@user>`, a platform mention.

## Model

| member | source | states |
|---|---|---|
| Text.IncludesIff | src/index.js:65 | `includes` is true exactly when the pattern occurs at some index of the text. |
| Text.IncludesLowerIff | src/index.js:57 | For a lower-case pattern, searching the lower-cased text is a case-insensitive search of the original text. |
| Text.JoinSnoc | src/index.js:66-68 | For a non-empty list, joining one more element appends exactly the separator and that element. |
| Text.JoinEmptyIff | src/index.js:66-71 | With a non-empty separator, the join is empty only for no elements or a single empty one. |
| Text.SplitJoin | src/index.js:66-68 | For a non-empty list whose elements lack the separator, splitting the join recovers the elements. |
| Sequences.SubsequenceMultiset | src/index.js:55-59 | A subsequence holds no element more often than the sequence does. |
| Sequences.SubsequenceMembers | src/index.js:55-59 | Every element of a subsequence is an element of the sequence. |
| Standup.IsBlockerTextIff | src/index.js:57 | A message is flagged exactly when some window of its text spells `blockers` in any ASCII case. |
| Standup.OnMessage | src/index.js:46-61 | A message with text appends `{user, text}` to the updates and leaves earlier entries alone. The same record goes to the blockers exactly when the text reports a blocker. An absent or empty text changes nothing. |
| Standup.ClassifyIff | src/index.js:65-73 | A mention is a summary request when `summary` occurs and a blockers request when only `blockers` occurs (case-sensitive). It is no request when neither occurs. |
| Standup.RenderEmptyIff | src/index.js:66-71 | The rendered list is empty exactly when there is nothing to render, so the fallback appears exactly for an empty list. |
| Standup.RenderSnoc | src/index.js:66-68 | A new update adds exactly one `<@user>: text` line at the end of the rendering. For the first update that line is the whole rendering; after that, a newline comes before it. |
| Standup.RenderSplitsIntoLines | src/index.js:66-68 | For a non-empty list without newlines in users and texts, the rendering splits back into one line per update, in order. |
| Standup.Reply | src/index.js:71-81 | A reply is the header followed by the fallback literal for an empty list, or by the rendered list otherwise. |
| Standup.OnMention | src/index.js:64-84 | A summary request posts the summary of the updates to the mention's channel, and a blockers request posts the blockers list there. Any other mention posts nothing. |
| Standup.SummaryTakesPrecedence | src/index.js:65-73 | Text containing both keywords gets the summary reply. |
| Standup.SummaryGrowsByOneLine | src/index.js:55-71 | For any summary request after a new update: on an empty log the update's line replaces the fallback, and otherwise the reply is the previous reply plus a newline and that line. |
| Standup.RunPreservesConsistent | src/index.js:46-84 | Every run of events from a consistent state ends consistent, so the blockers stay exactly the blocker-reporting updates. |
| Standup.Step | src/index.js:46-84 | A mention never changes the state and a message never posts. Both sequences only grow at their ends. |
| Standup.Run | src/index.js:21-84 | Events applied in order only extend the two sequences, and there are never more posts than events. |
| Standup.FlaggedIsSubsequence | src/index.js:55-59 | The blocker-reporting updates form an order-preserving subsequence of the updates. |
| Standup.OnMessagePreservesConsistent | src/index.js:55-59 | Every message event keeps the blockers equal to the blocker-reporting updates. |
| Standup.ConsistentBlockersAreUpdates | src/index.js:21-22 | In a consistent state the blockers are an ordered subsequence of the updates, so every blocker is also an update. |
| Standup.StepAppendsRecord | src/index.js:46-61 | One event appends its record, if any, to the updates, and to the blockers when it reports a blocker. |
| Standup.RunAppendsUpdates | src/index.js:46-55 | Running events appends the records of their messages with text to the updates, in arrival order. |
| Standup.RunAppendsBlockers | src/index.js:55-59 | Running events appends the blocker-reporting ones among those records to the blockers, in arrival order. |
| Standup.RunFromInit | src/index.js:21-61 | From start-up, the updates are exactly the records of the messages with text, in arrival order. The blockers are their blocker-reporting subsequence. |
| Standup.RecordedMessages | src/index.js:47-55 | For messages that all have text, there is one update per message, carrying its user and text, in arrival order. |
| Standup.TwoUpdatesThenQueries | src/index.js:46-84 | Two updates (only the second a blocker), then a summary and a blockers query. The summary lists both; the blockers reply lists only the second. |
| Standup.WorkedScenario | src/index.js:64-84 | The worked example: `worked on X` then `blocked by deploy issue, blockers`, queried from channel `C`. |
| Standup.CapitalisedMessageIsFlagged | src/index.js:57 | `Blockers` with a capital letter still flags a message, because the blocker test is case-insensitive. |
| Standup.CapitalisedMentionIsIgnored | src/index.js:65-73 | `Blockers?` in a mention is no query, because the keyword tests are case-sensitive. |
| UrlVerification.HandleEvents | src/index.js:25-33 | Status is always 200. A `url_verification` body gets its `challenge` back verbatim; any other type, absent included, gets `OK`. |
| UrlVerification.HandshakeEchoes | src/index.js:28-32 | Every challenge is echoed unchanged, and the body is never anything but the challenge or `OK`. |
| UrlVerification.HandshakeExample | src/index.js:28-29 | The handshake with challenge `abc123` answers `abc123`. |

## Left out

- Express setup, `express.json`, dotenv, environment variables, server start-up and its logging (src/index.js:1-19, 86-92): configuration and I/O.
- The Slack SDK:
  - Request-signature verification by the events adapter is not modelled.
  - `chat.postMessage` is modelled as the returned `Post`. Its asynchronous delivery and failures are not modelled.
- The weekday 10:00 cron reminder (src/index.js:36-43): timer-driven I/O posting a constant text, with no state involved.
- `console.log` and `.catch(console.error)`: logging only.
- Asynchronous and concurrent delivery: events are applied one at a time, in arrival order.
- UrlVerification.HandleEvents: models the Express route handler at src/index.js:25-33 as written. The program never serves that route, because it never calls `app.listen`; its real endpoint is the events adapter started at src/index.js:86, which is not modelled.
- Text.Lower: models `toLowerCase` as ASCII case mapping only. Unicode mappings are not modelled, such as the Kelvin sign lower-casing to `k`, or `İ` lower-casing to two code units.
- Standup.OnMention: when a mention has no text, the source throws a `TypeError` inside the asynchronous handler. The model treats this as posting nothing and changing nothing. That is an idealisation. The `TypeError` becomes an unhandled promise rejection, and so does a failed `chat.postMessage` at src/index.js:69 and :77, which have no `.catch`. Since Node 15, an unhandled rejection ends the process by default, and both lists are lost. The model does not model process termination.
- User identifiers and texts are strings. Non-string JSON values in those fields are not modelled, nor the `undefined` that a missing `user` would render as.
- UrlVerification.HandleEvents: `type` and `challenge` are optional strings. Non-string JSON values are not modelled, and neither are the exact bytes Express sends for an absent challenge.
- Records are compared by value. The source pushes the same object to both arrays, and the model cannot observe that shared identity because nothing mutates a record.
