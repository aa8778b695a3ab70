# Planning-poker sessions: a Dafny model of the session handlers

This project models the core of a planning-poker ("scrum poker") service. That core is the
set of request handlers that read and write one session record in a key-value table: create a
session, get it, join it, cast a vote ("update story point"), start a new round (reset every vote
and hide the votes) and reveal the votes ("show story points").

The table is a class, `SessionHandlers.SessionTable`, with one field, `items: map<string, Session>`,
keyed by each record's `guid`. Each handler is a method of that class and is one atomic step on the
map. It returns `Ok(...)` or `Err(failure)`, and its contract states the whole new map. Its object
invariant `Valid()` says two things:
- every record is stored under its own `guid`;
- no roster holds the same `userId` twice.

Every handler keeps `Valid()`.

A record is a bag of attributes, so every attribute except `guid` is an `Option` (`SessionModel.Session`).
The model needs this for three behaviours of the code:

- **Create writes `hide:`, not `hide`.** The new record has no `hide` attribute.
  `NewSession` sets `hide` to `None` and the separate `hideColon` attribute to `Some(true)`.
  A new session is meant to start hidden. The code does not do this, and the model follows the
  code. Only starting a round (`Some(true)`) or revealing (`Some(false)`) ever sets `hide`.
- **Reveal on an unknown key creates a record.** The reveal is an update with no condition, and the
  store creates the record if it is missing. The new record holds only the key and `hide = false`
  (`StubSession`).
- **A record without `users` cannot be joined, voted in or reset.** Join, vote and reset read
  `users.L`. On a record without `users`, that read throws inside the handler's `try`, and the
  handler answers `dberror!`.

Other behaviours of the code that the model reproduces:

- **Vote: first participant.** The handler rejects an index that is unset or zero. So the
  participant at roster index 0 always gets "user not found!" and can never vote
  (`UpdateStoryPoint`, `FirstJoinerCannotVote`).
- **Join: missing session.** Join has no "not found" branch. On a missing record the store's
  `list_append` has no list to extend, and the handler answers `dberror!`. A not-found error is
  meant here; the model follows the code.
- **Start voting: missing session.** A missing session gets "session empty!", the same answer as
  an empty roster.

The reset is modelled through the text it sends to the store. `UpdateExpression.BuildResetExpression`
is the handler's loop. It is proved to build `ResetExpression(n)`:
- the prefix `SET `;
- one `#attrName[i].point = :attrValue, ` clause for each i = 0..n-1, in ascending order;
- the suffix `#hide = :hide`.

`ParseUpdate` reads such text back into SET actions, and `ApplyActions` applies them to a record as
the store would. `ResetExpressionResets` proves that when a roster has n members, running the
expression built for n clears every vote and sets `hide`, and changes nothing else. `StartVoting`
stores exactly this result.

A failing store call is a boolean parameter of the handler: `readFails` for the record read,
`writeFails` for the put or update. With these, each contract states that:
- every store failure becomes `Err(DbError)` (the `dberror!` response);
- no failure escapes the handler;
- no error result changes the table.

`uuidv4()` becomes the parameter `freshId` of `CreateSession`, which requires it to be non-empty and
unused.

## Model

| member | source | states |
|---|---|---|
| SessionModel.Find | src/sessions/index.ts:134 | the roster lookup finds nothing exactly when no participant has the userId; otherwise it returns a participant of the roster with that userId |
| SessionModel.FindIndex | src/sessions/index.ts:217 | the result is -1 exactly when no participant has the userId; otherwise it is the first index whose participant has it |
| SessionModel.FindAgreesWithFindIndex | src/sessions/index.ts:216-217 | the existence test and the index lookup agree: find succeeds iff findIndex is not -1, and both then name the same participant |
| SessionModel.JoinAppendsAtEnd | src/sessions/index.ts:133-166 | appending a participant whose userId is not in the roster keeps userIds unique, and the appended participant is found at the last index |
| SessionModel.ResetPoints | src/sessions/index.ts:289-291 | the roster keeps its length, and each participant keeps every field except point, which becomes "0" |
| SessionModel.ResetKeepsUserIds | src/sessions/index.ts:288-310 | a reset leaves the index lookup of every userId unchanged |
| SessionModel.ResetKeepsUnique | src/sessions/index.ts:288-310 | a reset keeps a duplicate-free roster duplicate-free |
| SessionModel.ErrorMessageInjective | src/sessions/index.ts:27-284 | the error texts of the handlers (body, name and votingSystem, sessionId, sessionId and userId, name, point required; session not found; user already joined; user not found; session empty; dberror) are pairwise distinct, so each failure is told apart by its text |
| SessionModel.ResetRoundIdempotent | src/sessions/index.ts:288-310 | starting a round twice in a row gives the same record as starting it once |
| UpdateExpression.NatToString | src/sessions/index.ts:290 | the rendered index is a non-empty run of decimal digits: a single digit below 10, and no leading zero from 10 on |
| UpdateExpression.NatToStringRoundTrip | src/sessions/index.ts:290 | reading the rendered index back as digits gives the index |
| UpdateExpression.TakeDigits | src/sessions/index.ts:290 | the digit run read from an update path is the longest all-digit prefix of the text |
| UpdateExpression.TakeDigitsOfDigits | src/sessions/index.ts:290 | a digit run followed by a non-digit (the closing bracket) is read back exactly |
| UpdateExpression.PointClausesSnoc | src/sessions/index.ts:289-291 | appending the clause for index hi to the clauses lo..hi-1 gives the clauses lo..hi |
| UpdateExpression.BuildResetExpression | src/sessions/index.ts:288-292 | the loop builds exactly `SET `, then the point clause of each index 0..usersCount-1 in ascending order, then `#hide = :hide` |
| UpdateExpression.PointActions | src/sessions/index.ts:289-291 | the point actions for lo..hi-1 number hi-lo, and the k-th sets the point of index lo+k |
| UpdateExpression.ParseDigitsClause | src/sessions/index.ts:290 | a point clause with any digit run in front of readable text reads as one point action, for the digits' value, before that text's actions |
| UpdateExpression.ParsePointClause | src/sessions/index.ts:290 | the clause for index i in front of readable text reads as the action that sets point i, before that text's actions |
| UpdateExpression.ParsePointClauses | src/sessions/index.ts:289-292 | the clauses for lo..hi-1 followed by the hide clause read as the point actions lo..hi-1, then the hide action |
| UpdateExpression.ResetExpressionParses | src/sessions/index.ts:288-292 | the built expression reads back as exactly the point actions for 0..usersCount-1, in ascending order, followed by setting hide |
| UpdateExpression.ApplyPointActions | src/sessions/index.ts:294-310 | applying the point actions lo..hi-1 and the hide action sets exactly those participants' points and the hide flag |
| UpdateExpression.ResetExpressionResets | src/sessions/index.ts:288-310 | executed on a record whose roster has the counted size, the expression clears every vote and sets hide to true, and changes nothing else |
| UpdateExpression.StaleResetMissesLateJoiners | src/sessions/index.ts:277-292 | an expression built from a count smaller than the current roster sets hide and leaves every uncounted participant unchanged |
| SessionHandlers.SessionTable.CreateSession | src/sessions/index.ts:24-66 | missing body, or empty name or votingSystem, is a validation error; a failed put is dberror; otherwise the fresh id is returned and only that key is added, holding name, votingSystem, an empty roster and `hide:` (not `hide`); errors leave the table unchanged |
| SessionHandlers.SessionTable.GetSession | src/sessions/index.ts:68-95 | empty id is a validation error, a failed read is dberror, an absent key is "session not found!", otherwise the stored record is returned; the table is not modified |
| SessionHandlers.SessionTable.JoinSession | src/sessions/index.ts:97-177 | validation of ids and name; a failed read, a record without roster, or a missing record is dberror; a present userId is "user already joined!"; otherwise exactly one participant {userId, name, online, point 0} is appended at the end and nothing else changes |
| SessionHandlers.SessionTable.UpdateStoryPoint | src/sessions/index.ts:179-254 | validation of ids and point; a missing record, an absent user, or a match at index 0 is "user not found!" with no write; otherwise only the point of the first participant with the userId changes |
| SessionHandlers.SessionTable.StartVoting | src/sessions/index.ts:256-319 | a missing session or an empty roster is "session empty!" with no write; otherwise every participant's point becomes 0, hide becomes true, and the roster keeps its length and order |
| SessionHandlers.SessionTable.ShowStoryPoints | src/sessions/index.ts:321-349 | empty id is a validation error and a failed update is dberror; otherwise only hide of that key becomes false (a missing key gets a record of only key and flag) |
| SessionHandlers.FirstJoinerCannotVote | src/sessions/index.ts:224-227 | in a new session the first participant joins successfully and is then refused as "user not found!" when voting |
| SessionHandlers.VotingRound | src/sessions/index.ts:38-349 | in a round with two participants and a vote made of decimal digits: a new session has no hide flag; the second participant's vote is stored; right after the new round the vote is cleared and hide is true; after the reveal hide is false |

## Left out

- `helloHandler`: it only reports the clock and logs. It has no logic to model.
- AWS provisioning: the stack and app definitions (API gateway, function and table wiring, CORS) have no behaviour to model.
- Encoding of store attributes and JSON: typed `{S}`, `{L}`, `{N}`, `{BOOL}` values, `JSON.parse` and `JSON.stringify` are not modelled. Request bodies arrive already parsed. A field the body lacks is the empty string, which the code treats the same way (both are falsy).
- `JSON.parse` on a malformed body: it throws outside the handlers' `try` blocks, so it escapes. The model takes parsed bodies, so it has no such input.
- Payload values that are not strings: they are not modelled.
- `point` content: whether the point is a valid store number is left to the store. If the store rejects it, the update fails, which `writeFails` covers. The `VotingRound` scenario fixes `writeFails` to false, so it takes a point made of decimal digits, which the store accepts.
- HTTP status codes: every error answer is 400 and every success is 200. The model keeps a failure kind instead, with its response text given by `ErrorMessage`, and the success message text.
- The shape of the get response: the code wraps the record in the store's response data. The model returns the record itself.
- `console.log`: logging only.
- `uuidv4()`: it becomes the `freshId` parameter, which must be non-empty and not already in use.
- Concurrency: two joins, or a join and a reset, can interleave between their read and their write. The model runs each handler as one atomic step. `StaleResetMissesLateJoiners` shows what a reset built from a stale count does to a late joiner.
- Session owner, settings update, goal, and the sprint point settings: the modelled file has no code for them.
