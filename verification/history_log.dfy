/**
 The bed board's history log: a newest-first list of status changes that is
 capped at a fixed number of entries. New entries are put at the front
 (`unshift`), and when the log grows past the cap its oldest (last) entry is
 removed (`pop`).
 */
module HistoryLog {
  import opened Wrappers

  /** Number of entries the log keeps (server.js:61). */
  const MaxEntries: nat := 100

  /** One recorded status change. Timestamps are opaque clock readings. */
  datatype LogEntry = LogEntry(bedId: int, newStatus: string, timestamp: int)

  /** The first `n` entries of `log`, or all of them when there are fewer. */
  function Newest(log: seq<LogEntry>, n: nat): seq<LogEntry>
  {
    if |log| <= n then log else log[..n]
  }

  /**
   Puts `e` at the front of the log, then drops the oldest entry if the log
   now holds more than MaxEntries entries.
   */
  function Push(log: seq<LogEntry>, e: LogEntry): (r: seq<LogEntry>)
    ensures |r| > 0 && r[0] == e
    ensures |log| < MaxEntries ==> |r| == |log| + 1
    ensures |log| >= MaxEntries ==> |r| == |log|
    ensures |log| <= MaxEntries ==> |r| <= MaxEntries
    ensures |log| < MaxEntries ==> r[1..] == log
    ensures |log| >= MaxEntries ==> r[1..] == log[..|log| - 1]
  {
    var grown := [e] + log;
    if |grown| > MaxEntries then grown[..|grown| - 1] else grown
  }

  /**
   While the log respects its cap, pushing keeps exactly the MaxEntries
   newest entries of "the new entry followed by the old log".
   */
  lemma PushKeepsNewest(log: seq<LogEntry>, e: LogEntry)
    requires |log| <= MaxEntries
    ensures Push(log, e) == Newest([e] + log, MaxEntries)
  {
    if |log| == MaxEntries {
      assert Push(log, e) == ([e] + log)[..MaxEntries];
    }
  }

  /** Truncating an inner suffix first does not change the newest `n` entries. */
  lemma NewestOfNewest(front: seq<LogEntry>, back: seq<LogEntry>, n: nat)
    ensures Newest(front + Newest(back, n), n) == Newest(front + back, n)
  {
    if |front| >= n {
      assert (front + Newest(back, n))[..n] == front[..n];
      assert (front + back)[..n] == front[..n];
    } else if |back| > n {
      var k := n - |front|;
      assert (front + back[..n])[..n] == front + back[..k];
      assert (front + back)[..n] == front + back[..k];
    }
  }

  /** The newest (first) entry of the log that concerns bed `id`, if any. */
  function Latest(log: seq<LogEntry>, id: int): (r: Option<LogEntry>)
    ensures r.None? <==> forall i :: 0 <= i < |log| ==> log[i].bedId != id
    ensures r.Some? ==> exists i :: 0 <= i < |log| && log[i] == r.value && r.value.bedId == id
                                    && forall j :: 0 <= j < i ==> log[j].bedId != id
  {
    if |log| == 0 then None
    else if log[0].bedId == id then Some(log[0])
    else
      var rest := Latest(log[1..], id);
      assert rest.Some? ==> exists i :: 0 <= i < |log[1..]| && log[1..][i] == rest.value
                                        && forall j :: 0 <= j < i ==> log[1..][j].bedId != id;
      assert rest.Some? ==> exists i :: 1 <= i < |log| && log[i] == rest.value
                                        && forall j :: 1 <= j < i ==> log[j].bedId != id;
      rest
  }

  /**
   The newest entry for a bed found in a prefix of the log is the newest entry
   for that bed in the whole log: truncating the old end never changes which
   entry is the newest one for a bed that still appears.
   */
  lemma {:induction false} LatestOfPrefix(log: seq<LogEntry>, k: nat, id: int)
    requires k <= |log|
    ensures Latest(log[..k], id).Some? ==> Latest(log[..k], id) == Latest(log, id)
  {
    if k > 0 && log[0].bedId != id {
      assert log[..k][1..] == log[1..][..k - 1];
      LatestOfPrefix(log[1..], k - 1, id);
    }
  }

  /**
   After a push, the newest entry for the pushed bed is the pushed entry, and
   for every other bed it is what it was before, or nothing when that bed's
   last remaining entry was the one dropped by the cap.
   */
  lemma LatestAfterPush(log: seq<LogEntry>, e: LogEntry, id: int)
    ensures id == e.bedId ==> Latest(Push(log, e), id) == Some(e)
    ensures id != e.bedId && Latest(Push(log, e), id).Some? ==>
              Latest(Push(log, e), id) == Latest(log, id)
  {
    var r := Push(log, e);
    if id != e.bedId {
      assert Latest(r, id) == Latest(r[1..], id);
      assert r[1..] == log[..|r| - 1];
      LatestOfPrefix(log, |r| - 1, id);
    }
  }
}
