/**
 Sequences of `changeStatus` requests handled one after another, and the
 invariants the board keeps along any such sequence.
 */
module BoardRuns {
  import opened Wrappers
  import opened HistoryLog
  import opened BedBoard

  /** A `changeStatus` request together with the clock reading at which it is handled. */
  datatype Request = Request(bedId: BedId, newStatus: string, now: int)

  /** The log entry a request produces when its bed is known. */
  function EntryOf(q: Request): LogEntry
  {
    LogEntry(q.bedId, q.newStatus, q.now)
  }

  /** The board after handling one request. */
  function Apply(b: Board, q: Request): Board
  {
    ChangeStatus(b, q.bedId, q.newStatus, q.now).board
  }

  /** The board after handling `reqs` in order, starting from `b`. */
  function Run(b: Board, reqs: seq<Request>): Board
    decreases |reqs|
  {
    if |reqs| == 0 then b else Run(Apply(b, reqs[0]), reqs[1..])
  }

  /**
   Every bed that appears in the log has, as its current record, exactly the
   status and timestamp of its newest log entry.
   */
  ghost predicate Consistent(beds: map<BedId, BedRecord>, log: seq<LogEntry>)
  {
    forall id :: Latest(log, id).Some? ==>
      && id in beds
      && beds[id] == BedRecord(Latest(log, id).value.newStatus, Latest(log, id).value.timestamp)
  }

  /** The invariant of the board: fixed bed set, capped log, beds agree with the log. */
  ghost predicate Invariant(b: Board)
  {
    && b.beds.Keys == KnownBeds
    && |b.history| <= MaxEntries
    && Consistent(b.beds, b.history)
  }

  /** The start-up board satisfies the invariant. */
  lemma InitialInvariant(clock: seq<int>)
    requires |clock| == TotalBeds
    ensures Invariant(Initial(clock))
  {
  }

  /** One `changeStatus` request preserves the invariant. */
  lemma ApplyPreservesInvariant(b: Board, q: Request)
    requires Invariant(b)
    ensures Invariant(Apply(b, q))
  {
    var out := ChangeStatus(b, q.bedId, q.newStatus, q.now);
    if q.bedId in b.beds {
      var e := EntryOf(q);
      assert out.board.history == Push(b.history, e);
      forall id | Latest(out.board.history, id).Some?
        ensures id in out.board.beds
        ensures out.board.beds[id] == BedRecord(Latest(out.board.history, id).value.newStatus,
                                                Latest(out.board.history, id).value.timestamp)
      {
        LatestAfterPush(b.history, e, id);
      }
    }
  }

  /** Any sequence of requests preserves the invariant. */
  lemma {:induction false} RunPreservesInvariant(b: Board, reqs: seq<Request>)
    requires Invariant(b)
    ensures Invariant(Run(b, reqs))
    decreases |reqs|
  {
    if |reqs| > 0 {
      ApplyPreservesInvariant(b, reqs[0]);
      RunPreservesInvariant(Apply(b, reqs[0]), reqs[1..]);
    }
  }

  /**
   Every board reachable from start-up knows exactly beds 1..TotalBeds, keeps
   at most MaxEntries log entries, and each logged bed's record matches its
   newest log entry.
   */
  lemma ReachableInvariant(clock: seq<int>, reqs: seq<Request>)
    requires |clock| == TotalBeds
    ensures Invariant(Run(Initial(clock), reqs))
  {
    InitialInvariant(clock);
    RunPreservesInvariant(Initial(clock), reqs);
  }

  /** A viewer joining at any reachable point is sent beds and a log that agree. */
  lemma JoinerSeesConsistentBoard(clock: seq<int>, reqs: seq<Request>)
    requires |clock| == TotalBeds
    ensures var sent := OnConnect(Run(Initial(clock), reqs));
            && |sent| == 2 && sent[0].InitialStatus? && sent[1].HistorySnapshot?
            && sent[0].beds.Keys == KnownBeds
            && |sent[1].log| <= MaxEntries
            && Consistent(sent[0].beds, sent[1].log)
  {
    ReachableInvariant(clock, reqs);
  }

  /** The entries the accepted requests of `reqs` log, newest first. */
  function Logged(keys: set<BedId>, reqs: seq<Request>): seq<LogEntry>
    decreases |reqs|
  {
    if |reqs| == 0 then []
    else Logged(keys, reqs[1..]) + (if reqs[0].bedId in keys then [EntryOf(reqs[0])] else [])
  }

  /**
   After any sequence of requests the log holds, newest first, the entries of
   the accepted requests followed by the old log, cut to the MaxEntries newest.
   */
  lemma {:induction false} RunHistory(b: Board, reqs: seq<Request>)
    requires |b.history| <= MaxEntries
    ensures Run(b, reqs).history == Newest(Logged(b.beds.Keys, reqs) + b.history, MaxEntries)
    decreases |reqs|
  {
    if |reqs| == 0 {
      assert Logged(b.beds.Keys, reqs) + b.history == b.history;
    } else {
      var q := reqs[0];
      var b1 := Apply(b, q);
      var rest := Logged(b.beds.Keys, reqs[1..]);
      RunHistory(b1, reqs[1..]);
      assert b1.beds.Keys == b.beds.Keys;
      if q.bedId in b.beds {
        PushKeepsNewest(b.history, EntryOf(q));
        NewestOfNewest(rest, [EntryOf(q)] + b.history, MaxEntries);
        assert rest + ([EntryOf(q)] + b.history) == Logged(b.beds.Keys, reqs) + b.history;
      } else {
        assert Logged(b.beds.Keys, reqs) == rest;
      }
    }
  }

  /** The last request in `reqs` that targets bed `id`, if any. */
  function LastRequest(reqs: seq<Request>, id: BedId): (r: Option<Request>)
    ensures r.None? <==> forall i :: 0 <= i < |reqs| ==> reqs[i].bedId != id
    ensures r.Some? ==> exists i :: 0 <= i < |reqs| && reqs[i] == r.value && r.value.bedId == id
                                    && forall j :: i < j < |reqs| ==> reqs[j].bedId != id
    decreases |reqs|
  {
    if |reqs| == 0 then None
    else
      var later := LastRequest(reqs[1..], id);
      assert later.Some? ==> exists i :: 0 <= i < |reqs[1..]| && reqs[1..][i] == later.value
                                         && forall j :: i < j < |reqs[1..]| ==> reqs[1..][j].bedId != id;
      assert later.Some? ==> exists i :: 1 <= i < |reqs| && reqs[i] == later.value
                                         && forall j :: i < j < |reqs| ==> reqs[j].bedId != id;
      if later.Some? then later
      else if reqs[0].bedId == id then Some(reqs[0])
      else None
  }

  /**
   Last write wins: after any sequence of requests, a known bed holds the
   status and clock reading of the last request that targeted it, or its old
   record when none did. The set of known beds never changes.
   */
  lemma {:induction false} RunBedRecord(b: Board, reqs: seq<Request>, id: BedId)
    requires id in b.beds
    ensures Run(b, reqs).beds.Keys == b.beds.Keys
    ensures LastRequest(reqs, id).None? ==> Run(b, reqs).beds[id] == b.beds[id]
    ensures LastRequest(reqs, id).Some? ==>
              Run(b, reqs).beds[id] == BedRecord(LastRequest(reqs, id).value.newStatus,
                                                 LastRequest(reqs, id).value.now)
    decreases |reqs|
  {
    if |reqs| > 0 {
      RunBedRecord(Apply(b, reqs[0]), reqs[1..], id);
    }
  }

  /** Requests that all name unknown beds leave the whole board unchanged. */
  lemma {:induction false} UnknownRequestsChangeNothing(b: Board, reqs: seq<Request>)
    requires forall i :: 0 <= i < |reqs| ==> reqs[i].bedId !in b.beds
    ensures Run(b, reqs) == b
    decreases |reqs|
  {
    if |reqs| > 0 {
      UnknownRequestsChangeNothing(b, reqs[1..]);
    }
  }
}
