# Real-time bed board — Dafny model

A model of the bed board kept by the server of the real-time bed system
(`server.js`). The server holds two pieces of state:

- `bedStatus`, a map from bed id to `{status, timestamp}`. At start-up it holds
  beds 1..20, each `'available'` and stamped with the time the start-up loop
  reached it.
- `historyLog`, a newest-first list of `{bedId, newStatus, timestamp}` entries,
  capped at 100 entries.

One transition, the `changeStatus` handler, changes the state. A request for an
unknown bed does nothing. A request for a known bed replaces that bed's record,
puts a log entry at the front of the history, drops the oldest entry when the
log exceeds 100, and broadcasts `statusChange` and `newHistoryEntry` carrying
the same data. A viewer that connects is sent the current beds and the log.

The model is functional. `BedBoard.ChangeStatus` is a pure function from a
board, a bed id, a status and a clock reading to the new board and the
broadcast events. `BoardRuns.Run` folds it over any sequence of requests. Node
runs each handler to completion before the next one starts, so a sequential
fold covers every interleaving of requests from different viewers.

Modules:

- `Wrappers` (`wrappers.dfy`): `Option`.
- `HistoryLog` (`history_log.dfy`): log entries, the capped push (`unshift`
  then `pop`), and the newest entry for a bed.
- `BedBoard` (`bed_board.dfy`): bed records, the board, the start-up loop,
  `changeStatus` and what a joining viewer receives.
- `BoardRuns` (`board_runs.dfy`): request sequences, the board invariant, and
  properties of whole runs.

Clock readings are parameters. The start-up loop calls `new Date()` once per
bed, so `InitialBoard` takes one reading per bed. The handler calls it once per
request, so `ChangeStatus` takes `now`.

## Model

| member | source | states |
|---|---|---|
| BedBoard.InitialBoard | server.js:17-27 | After the start-up loop the known ids are exactly 1..20. Each bed is `'available'` with the clock reading taken for it. The log is empty. |
| BoardRuns.InitialInvariant | server.js:17-27 | The start-up board satisfies the board invariant: fixed bed set, log within the cap, and every logged bed agrees with its newest entry. |
| BedBoard.ChangeStatus | server.js:39-71 | Unknown bed: board unchanged and nothing broadcast. Known bed: that bed holds `{newStatus, now}`, every other bed keeps its record and the set of beds is unchanged. The new entry is at index 0 with the old entries after it in order, minus the oldest one when the cap is reached. The log grows by one below the cap and keeps its length at the cap. The two broadcasts carry the same bed, status and time as the stored entry and record. |
| HistoryLog.Push | server.js:57-63 | The pushed entry comes first. Below the cap the old log follows unchanged and the length grows by one. At or above the cap exactly the oldest (last) entry is dropped and the length stays the same. A log within the cap stays within it. |
| HistoryLog.PushKeepsNewest | server.js:58-63 | For a log within the cap, unshift-then-pop keeps exactly the 100 newest entries of "new entry followed by old log". |
| HistoryLog.Latest | server.js:58 | The newest entry for a bed is the first entry in the newest-first log with that bed id. It is absent exactly when no entry names the bed. |
| HistoryLog.LatestOfPrefix | server.js:61-63 | Cutting entries off the old end of the log never changes which entry is newest for a bed that still appears. |
| HistoryLog.LatestAfterPush | server.js:51-63 | After a push, the newest entry for the pushed bed is the pushed entry. For any other bed that still appears, the newest entry is the same as before. |
| BoardRuns.ApplyPreservesInvariant | server.js:43-63 | One request keeps the bed set fixed and the log within 100 entries. Every bed in the log still holds the status and timestamp of its newest entry. |
| BoardRuns.RunPreservesInvariant | server.js:39-71 | Any sequence of requests preserves the board invariant. |
| BoardRuns.ReachableInvariant | server.js:17-71 | Every board reachable from start-up has beds exactly 1..20 and at most 100 log entries. Each logged bed's record equals its newest log entry. |
| BedBoard.OnConnect | server.js:35-36 | A joining viewer is sent two messages: the current beds first, then the current log. |
| BoardRuns.JoinerSeesConsistentBoard | server.js:34-36 | A viewer joining at any reachable point is sent beds 1..20 and a log within the cap, and the two agree. |
| BoardRuns.RunHistory | server.js:51-63 | After any sequence of requests the log equals the accepted requests' entries (newest first) followed by the old log, cut to the 100 newest. |
| BoardRuns.LastRequest | server.js:45-48 | Reference definition of "the last request naming a bed": an index that holds it, with no later request for that bed. It is absent exactly when no request names the bed. |
| BoardRuns.RunBedRecord | server.js:43-48 | Last write wins. After any sequence of requests a known bed holds the status and time of the last request for it, or its old record if there was none. The set of beds is unchanged. |
| BoardRuns.UnknownRequestsChangeNothing | server.js:43-70 | A sequence of requests that all name unknown beds leaves the whole board, beds and log, unchanged. |

## Left out

- Express static serving, `http.createServer`, `server.listen` and the `PORT`
  environment variable (server.js:2-13, 81-84): I/O and bootstrap.
- Socket.IO connection and disconnect handling (server.js:31-36, 74-76). This
  is transport. What a joining viewer receives is modelled only as a read of
  the state (`BedBoard.OnConnect`), not as a message on a socket.
- `console.log` calls: output only.
- `toISOString` formatting of the `statusChange` timestamp (server.js:66).
  Timestamps are opaque integers, and both broadcasts carry the same one.
- JavaScript property lookup: `bedStatus[bedId]` is also truthy for inherited
  keys such as `"constructor"`, and the string `"3"` and the number `3` name the
  same bed (server.js:43). Bed ids are modelled as integers with known domain
  1..20, and any other integer is an unknown bed. The log entry and both
  broadcasts carry the client's raw `bedId` (server.js:52, 66), so the server
  can log the same bed as `3` and as `"3"`. The model's single integer id
  matches the server's "newest entry for a bed" only when ids are compared
  after that coercion.
- `newStatus` is not checked against `'available'`/`'occupied'`/`'cleaning'`
  in the server, and the model keeps it an opaque string.
- The server has no undo, revert, age-based pruning, timestamp-uniqueness check
  or persistence, so none is modelled. Its log is newest-first.
- A `changeStatus` payload that is `null` or `undefined` throws at server.js:40,
  before the guard and before any state change. The model takes the bed id and
  status as already-extracted values.
