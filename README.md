# Collaborative workspace document engine, modelled in Dafny

The backend of this collaborative editor keeps one snapshot per document id:
its content, a version number and a timestamp. Clients send positional edit
operations: a position, a delete count, the text to insert, and the version
the client last saw. The engine clamps the edit into the current content,
splices it in and bumps the version by exactly one. It also reports a
*conflict* when the client's base version was stale, but it applies the
edit anyway. Around the engine, the server decides which browser origins
may connect and which `document:op` payloads are well formed. For an
accepted operation it either publishes it to a broker (multi-process
deployments) or applies it locally and fans the new snapshot out.

Files:

- `types.dfy` (module `Types`): the `TextOperation` and `DocumentSnapshot`
  records and an `Option` type.
- `engine.dfy` (module `CollaborationEngine`): `Clamp`, the pure operation
  applier `Apply`, and its table-level specification `TableApply`. The class
  `DocumentStore` holds the document table as a `map` field. Its methods
  `GetDocument` and `ApplyOperation` update that map in place and are proved
  against `Lookup` and `TableApply`. Lemmas cover the clamped splice
  (bounds, a character-by-character reading, undo, append past the end,
  full replace, insert only) and version counting over a run of operations.
- `js_strings.dfy` (module `JsStrings`): the JavaScript built-ins the
  configuration code uses. `split` on one character is proved inverse to
  `join` in both directions. `trim` uses ECMAScript's white-space set and is
  proved idempotent.
- `server.dfy` (module `Server`): the origin allow-list and
  `isOriginAllowed`, the operation schema as a parser from a JSON value
  (with a serialise/parse round trip), and the `document:op` handler as a
  pure function. That function returns the new table and the list of
  actions the handler performs.

The clock (`Date.now()`) is an explicit `now` parameter. The handler takes
`REDIS_URL` as an optional string. `BrokerConfigured` decides, as
`if (REDIS_URL)` does, whether a broker publisher exists.

Two methods, `CollaborationEngine.JoinTwiceScenario` and
`CollaborationEngine.StaleEditScenario`, drive a fresh `DocumentStore`
through short sequences of calls. Their asserts check that joining twice
returns the same empty snapshot at version 0, and that an edit against an
outdated version is flagged, applied anyway, and advances the version by
one each time. They have no contract of their own, so they have no row below.

## Model

| member | source | states |
|---|---|---|
| `CollaborationEngine.DefaultDoc` | apps/backend/src/collaboration-engine.ts:5-10 | A new document has empty content, version 0 and the caller's clock reading. Stored under its own id, it forms a well-keyed table. |
| `CollaborationEngine.Clamp` | apps/backend/src/collaboration-engine.ts:20-21 | On a non-empty interval the result lies in it. It is the value itself when the value lies inside. It is the point of the interval nearest the value. On an empty interval it is `max`. |
| `CollaborationEngine.SafeRange` | apps/backend/src/collaboration-engine.ts:29-30 | For any position and delete count, even negative or past the end: `0 <= safePos <= len` and `0 <= safeDelete <= len - safePos`. In-range values pass through unchanged. Values past the end are cut to the end. |
| `CollaborationEngine.Splice` | apps/backend/src/collaboration-engine.ts:32-35 | The result has length `len - del + |ins|`. Its first `pos` characters are the content's. The inserted text follows. The rest is the content after the deleted range. |
| `CollaborationEngine.SpliceAt` | apps/backend/src/collaboration-engine.ts:32-35 | The spliced text has length `len - del + |ins|`. Character by character, it is the prefix before the position, then the inserted text, then the rest after the deleted range, shifted. |
| `CollaborationEngine.SpliceUndo` | apps/backend/src/collaboration-engine.ts:32-35 | Splicing the deleted range back over the inserted text restores the original content. |
| `CollaborationEngine.EditContent` | apps/backend/src/collaboration-engine.ts:29-35 | At the bounds `SafeRange` clamps to, the new content keeps the prefix before the position, then holds the inserted text, then the content after the deleted range. Its length is `len - safeDelete + |insertText|`. |
| `CollaborationEngine.Apply` | apps/backend/src/collaboration-engine.ts:27-42 | `conflict` holds iff the base version differs from the stored version. The id is kept. The version is the old version plus 1. The timestamp is `now`. The content length is `len - safeDelete + |insertText|`. |
| `CollaborationEngine.ApplyIgnoresBaseVersion` | apps/backend/src/collaboration-engine.ts:27-42 | The resulting snapshot does not depend on the base version. A stale operation is applied exactly like a current one, and only the flag differs. |
| `CollaborationEngine.EditContentShape` | apps/backend/src/collaboration-engine.ts:29-35 | New content = `content[..safePos] + insertText + content[safePos+safeDelete..]`. Both slices are in bounds, and the length is `len - safeDelete + |insertText|`. |
| `CollaborationEngine.PastEndAppends` | apps/backend/src/collaboration-engine.ts:29-35 | A position at or past the end appends the inserted text, whatever the delete count. |
| `CollaborationEngine.FullReplace` | apps/backend/src/collaboration-engine.ts:29-35 | With position ≤ 0 and delete count ≥ the content length, the new content is exactly the inserted text. This is the full-replace shape the front end sends. |
| `CollaborationEngine.InsertOnly` | apps/backend/src/collaboration-engine.ts:29-35 | With an in-range position and no deletion, the text is inserted at that position, every original character is kept, and the length grows by `|insertText|`. |
| `CollaborationEngine.ClampPastEndExample` | apps/backend/src/collaboration-engine.ts:29-35 | `"abc"`, position 10, delete 5, insert `"X"` gives `"abcX"` at version 1 without conflict. |
| `CollaborationEngine.InsertOnlyExample` | apps/backend/src/collaboration-engine.ts:29-35 | `"hello"` at version 2, inserting `" world"` at 5, gives `"hello world"` at version 3 without conflict. |
| `CollaborationEngine.FullReplaceExample` | apps/backend/src/collaboration-engine.ts:29-35 | `"old text"` at version 5, replaced by `"new text"`, gives `"new text"` at version 6 without conflict. |
| `CollaborationEngine.Lookup` | apps/backend/src/collaboration-engine.ts:12-18 | A stored id yields its stored snapshot. A missing id yields a snapshot with that id, empty content and version 0. |
| `CollaborationEngine.TableApply` | apps/backend/src/collaboration-engine.ts:26-46 | The table gains at most the operation's id. That id maps to the new snapshot. Every other entry is unchanged. The version is the looked-up version plus 1. The content is the clamped edit of the looked-up content. `conflict` holds iff the base version differs from the looked-up version. A well-keyed table (every entry's id equals its key) stays well keyed. |
| `CollaborationEngine.ApplyAllVersions` | apps/backend/src/collaboration-engine.ts:37-44 | After a run of operations, a document's version is its starting version plus the number of operations addressed to it. A document no operation addresses is unchanged. The table stays well keyed. |
| `CollaborationEngine.ApplyInline` | apps/backend/src/collaboration-engine.ts:29-42 | The two clamps, the slice expression and the record update compute exactly `Apply`'s result, and both slices are in bounds. |
| `CollaborationEngine.StoreInline` | apps/backend/src/collaboration-engine.ts:26-44 | Storing the new snapshot into the table the look-up left behind gives `TableApply`'s table, whether or not the look-up created the document. The table stays well keyed. |
| `CollaborationEngine.DocumentStore.constructor` | apps/backend/src/collaboration-engine.ts:3 | The table starts empty and well keyed. |
| `CollaborationEngine.DocumentStore.GetDocument` | apps/backend/src/collaboration-engine.ts:12-18 | The result is `Lookup`'s snapshot, with the requested id. In both cases the table afterwards is the old table with the id mapped to the result. A present id leaves the table unchanged. A missing id returns `{id, "", 0}`. |
| `CollaborationEngine.DocumentStore.ApplyOperation` | apps/backend/src/collaboration-engine.ts:23-47 | The new table, the returned snapshot and the conflict flag together equal `TableApply` of the old table. So the table is the old table with only `op.docId` set to that snapshot, and it stays well keyed. |
| `JsStrings.Split` | apps/backend/src/server.ts:23 | Always at least one piece, and no piece contains the separator. |
| `JsStrings.JoinSplit` | apps/backend/src/server.ts:23 | Joining the pieces of a split with the separator gives back the input. |
| `JsStrings.SplitJoin` | apps/backend/src/server.ts:23 | Splitting the join of separator-free pieces gives back the pieces. |
| `JsStrings.Trim` | apps/backend/src/server.ts:24 | The trimmed string is never longer than the input and holds only characters of the input. |
| `JsStrings.TrimBounds` | apps/backend/src/server.ts:24 | Only white space lies outside the kept range, and the kept range starts and ends with non-white-space. |
| `JsStrings.TrimShape` | apps/backend/src/server.ts:24-25 | A trimmed string is empty iff the input is all white space. Otherwise it neither starts nor ends with white space. |
| `JsStrings.TrimIdempotent` | apps/backend/src/server.ts:24 | Trimming twice equals trimming once. |
| `Server.TrimNonEmpty` | apps/backend/src/server.ts:24-25 | Every allow-list entry is non-empty. There are no more entries than pieces. |
| `Server.TrimNonEmptyTrimmed` | apps/backend/src/server.ts:24-25 | Every allow-list entry is already trimmed: trimming it again changes nothing. |
| `Server.TrimNonEmptyAvoids` | apps/backend/src/server.ts:23-25 | A character that no piece contains appears in no entry. |
| `Server.AllowedOrigins` | apps/backend/src/server.ts:15-25 | Every entry of `allowedOrigins` is non-empty, already trimmed, and free of commas. |
| `Server.TrimAll` | apps/backend/src/server.ts:24 | `.map(trim)`: one entry per piece, and entry `i` is piece `i` trimmed. |
| `Server.FilterNonEmpty` | apps/backend/src/server.ts:25 | `.filter(Boolean)` keeps only non-empty strings, and keeps the list unchanged when none is empty. |
| `Server.FilterNonEmptyKeeps` | apps/backend/src/server.ts:25 | Filtering keeps each non-empty string as often as it occurs in the input, in input order. |
| `Server.TrimNonEmptyKeepsOrder` | apps/backend/src/server.ts:23-25 | The allow-list equals `.filter(Boolean)` applied to `.map(trim)` of the pieces. So it is the trimmed pieces in input order with only the empty ones left out. When no piece trims to empty, it is exactly the trimmed pieces. |
| `Server.TrimNonEmptyMembers` | apps/backend/src/server.ts:23-25 | A string is an entry iff it is non-empty and some comma-separated piece trims to it. |
| `Server.SingleOriginConfig` | apps/backend/src/server.ts:15-25 | One origin without commas or surrounding white space configures exactly itself. |
| `Server.DefaultAllowedOrigins` | apps/backend/src/server.ts:15-25 | With `FRONTEND_ORIGIN` unset, the allow-list is `["http://localhost:5173"]`. |
| `Server.EmptyConfigAllowsOnlyAbsentOrigins` | apps/backend/src/server.ts:15-31 | With `FRONTEND_ORIGIN` set to `""` the list is empty, and only requests without an origin are allowed. |
| `Server.IsOriginAllowed` | apps/backend/src/server.ts:27-31 | An absent origin (undefined or `""`) is allowed. A `*` entry allows everything. Otherwise an origin is allowed iff it equals some entry exactly. |
| `Server.ConfiguredOriginAllowed` | apps/backend/src/server.ts:23-31 | Without `*`, a present origin is allowed iff some comma-separated piece of the configuration trims to it. An origin with white space at either end is always refused. |
| `Server.EncodeOp` | apps/backend/src/server.ts:122-123 | An operation serialises to an object whose keys are exactly the six schema keys. Those fields carry the operation's own values. |
| `Server.WellFormed` | apps/backend/src/server.ts:72-79 | An operation is well formed iff each of the six fields of its JSON form passes that field's zod rule. The ids must be non-empty strings, `insertText` any string, and the three numbers non-negative integers. |
| `Server.ParseOp` | apps/backend/src/server.ts:72-79 | An accepted payload gives a well-formed operation: non-empty `docId` and `clientId`; non-negative integer position, delete count and base version; any `insertText`. That operation is exactly what the payload's six fields carry. |
| `Server.ParseOpAccepts` | apps/backend/src/server.ts:72-79 | Every payload carrying a well-formed operation is accepted as that operation, whatever extra fields it has. This is the converse of `ParseOp`'s contract. |
| `Server.ParseEncodeRoundTrip` | apps/backend/src/server.ts:72-79 | A serialised operation parses back to itself iff it is well formed. Otherwise it is rejected. |
| `Server.BrokerConfigured` | apps/backend/src/server.ts:84 | An unset or empty `REDIS_URL` means no broker. Any non-empty value means a broker. |
| `Server.HandleOp` | apps/backend/src/server.ts:109-136 | The handler performs one or two actions. The table changes only for a valid operation when `REDIS_URL` configures no broker. A well-keyed table stays well keyed. |
| `Server.HandleInvalid` | apps/backend/src/server.ts:110-118 | A payload carrying no well-formed operation yields only a `document:error` to the sender. Nothing is applied, published or broadcast. |
| `Server.HandleWithBroker` | apps/backend/src/server.ts:122-125 | With a non-empty `REDIS_URL`, a valid operation is only published on `workspace:ops`. The table is untouched, and the published payload parses back to the same operation. |
| `Server.HandleLocally` | apps/backend/src/server.ts:127-135 | With `REDIS_URL` unset or empty, the operation is applied: the version goes up by one, the content is the clamped splice, and other documents are unchanged. The room `op.docId` receives the stored snapshot. The sender receives a `document:conflict` with that snapshot iff its base version was stale. |

## Left out

- Socket.IO connections, rooms, emits and `document:join`. These are modelled only as the abstract `Action` values the handler returns.
- The Express routes (`/health`, `/documents/:id`) and the CORS callback wiring. These are transport. `/documents/:id` is `GetDocument`.
- The Redis subscriber loop (`JSON.parse`, apply, broadcast). Its point is cross-process ordering. The race between processes that read, modify and write the same document concurrently cannot be expressed in a sequential model. That subscriber path also never emits `document:conflict`; the model does not cover it.
- Broker failures: a rejected `publish` is not modelled, and neither is any process-level error handling.
- MongoDB connection and server start-up. This is I/O, and the engine never stores documents there.
- The `MONGO_URI`-missing start-up error, and the `PORT` setting. These are process configuration.
- zod's error details (`parsed.error.flatten()`). The error action carries only the message.
- Incoming payloads are modelled as JSON values. Socket.IO's binary attachments, `undefined` values and non-finite numbers are not modelled. Numbers are exact reals, so integers above 2^53 are not rounded as JavaScript doubles would round them.
- `Apply`, `ApplyOperation`: treat each Dafny `char` as one UTF-16 code unit. A character outside the Basic Multilingual Plane counts as one element here, whereas JavaScript's `.length` and `.slice` count it as two.
- `CollaborationEngine.Clamp`: positions are integers. The engine's behaviour on fractional or NaN positions is not modelled, because the schema only lets integers through.
- `DocumentSnapshot.version` is an unbounded integer. Loss of precision past 2^53 is not modelled.
- All front-end files. They are React UI, routing, zustand setters and UUID generation. The front end's full-replace operation is covered by `FullReplace`.
