/**
 The bed board: the current record of every known bed plus the history log,
 its initialisation, and the `changeStatus` transition together with the
 events it broadcasts.
 */
module BedBoard {
  import opened HistoryLog

  /** Number of beds, numbered 1..TotalBeds (server.js:17). */
  const TotalBeds: int := 20

  /** The status every bed starts with (server.js:24). */
  const Available: string := "available"

  /** Bed ids are the integers 1..TotalBeds; any other int is an unknown bed. */
  type BedId = int

  /** The ids the board knows. */
  const KnownBeds: set<BedId> := set id | 1 <= id <= TotalBeds

  /** A bed's current status and the clock reading at which it was set. */
  datatype BedRecord = BedRecord(status: string, timestamp: int)

  /** The whole server state: `bedStatus` and `historyLog`. */
  datatype Board = Board(beds: map<BedId, BedRecord>, history: seq<LogEntry>)

  /** Messages sent to connected viewers. */
  datatype Event =
    | InitialStatus(beds: map<BedId, BedRecord>)
    | HistorySnapshot(log: seq<LogEntry>)
    | StatusChange(bedId: BedId, newStatus: string, timestamp: int)
    | NewHistoryEntry(entry: LogEntry)

  /** The board after a request, and what was broadcast to every viewer. */
  datatype Outcome = Outcome(board: Board, broadcast: seq<Event>)

  /**
   The board right after start-up, when bed `i` was stamped with the
   `i`-th clock reading `clock[i - 1]`.
   */
  function Initial(clock: seq<int>): Board
    requires |clock| == TotalBeds
  {
    Board(map id | id in KnownBeds :: BedRecord(Available, clock[id - 1]), [])
  }

  /**
   The start-up loop: every bed 1..TotalBeds becomes available, stamped with
   the clock reading taken for it; no other id is a bed and the log is empty.
   */
  method InitialBoard(clock: seq<int>) returns (b: Board)
    requires |clock| == TotalBeds
    ensures b.beds.Keys == KnownBeds
    ensures forall id :: id in b.beds ==> b.beds[id] == BedRecord(Available, clock[id - 1])
    ensures b.history == []
    ensures b == Initial(clock)
  {
    var beds: map<BedId, BedRecord> := map[];
    var i := 1;
    while i <= TotalBeds
      invariant 1 <= i <= TotalBeds + 1
      invariant forall id :: id in beds <==> 1 <= id < i
      invariant forall id :: id in beds ==> beds[id] == BedRecord(Available, clock[id - 1])
    {
      beds := beds[i := BedRecord(Available, clock[i - 1])];
      i := i + 1;
    }
    b := Board(beds, []);
  }

  /**
   One `changeStatus` request for bed `bedId`, handled at clock reading `now`.
   An unknown bed changes nothing and broadcasts nothing. A known bed gets the
   new record, every other bed keeps its own, the change is logged at the
   front of the history, and the same data is broadcast twice.
   */
  function ChangeStatus(b: Board, bedId: BedId, newStatus: string, now: int): (r: Outcome)
    ensures bedId !in b.beds ==> r.board == b && r.broadcast == []
    ensures r.board.beds.Keys == b.beds.Keys
    ensures bedId in b.beds ==> r.board.beds[bedId] == BedRecord(newStatus, now)
    ensures forall id :: id in b.beds && id != bedId ==> r.board.beds[id] == b.beds[id]
    ensures bedId in b.beds ==>
              && 0 < |r.board.history| <= |b.history| + 1
              && r.board.history[0] == LogEntry(bedId, newStatus, now)
              && r.board.history[1..] == b.history[..|r.board.history| - 1]
    ensures bedId in b.beds && |b.history| < MaxEntries ==>
              |r.board.history| == |b.history| + 1
    ensures bedId in b.beds && |b.history| >= MaxEntries ==>
              |r.board.history| == |b.history|
    ensures bedId in b.beds ==>
              r.broadcast == [StatusChange(bedId, newStatus, now), NewHistoryEntry(r.board.history[0])]
  {
    if bedId in b.beds then
      var entry := LogEntry(bedId, newStatus, now);
      var board := Board(b.beds[bedId := BedRecord(newStatus, now)], Push(b.history, entry));
      Outcome(board, [StatusChange(bedId, newStatus, now), NewHistoryEntry(entry)])
    else
      Outcome(b, [])
  }

  /** What a newly connected viewer is sent: the current beds, then the log. */
  function OnConnect(b: Board): (r: seq<Event>)
    ensures |r| == 2
    ensures r[0].InitialStatus? && r[0].beds == b.beds
    ensures r[1].HistorySnapshot? && r[1].log == b.history
  {
    [InitialStatus(b.beds), HistorySnapshot(b.history)]
  }
}
