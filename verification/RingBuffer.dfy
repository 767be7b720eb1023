/** go/internal/infrastructure/history/ring_buffer_store.go: the in-memory store refines the full log of what was
    ever appended. */
module RingBuffer {
  import opened Snapshots
  import opened Sublists

  const MAX_PERIODIC_SNAPSHOTS := 300
  const MAX_INCIDENT_SNAPSHOTS := 50

  /** The last n snapshots of a log, or all of them. */
  function LastOf(log: seq<Snapshot>, n: nat): seq<Snapshot>
  {
    if |log| <= n then log else log[|log| - n..]
  }

  lemma LastOfIsTail(log: seq<Snapshot>, n: nat)
    ensures LastOf(log, n) == log[|log| - |LastOf(log, n)|..] && |LastOf(log, n)| == if |log| < n then |log| else n
  {
  }

  /** A buffer that holds the tail of a log holds the tail of the longer log afterwards. */
  method AppendBounded(buffer: seq<Snapshot>, entry: Snapshot, capacity: nat, ghost log: seq<Snapshot>)
    returns (longer: seq<Snapshot>)
    requires capacity > 0 && buffer == LastOf(log, capacity)
    ensures longer == LastOf(log + [entry], capacity)
  {
    longer := buffer;
    if |longer| >= capacity {
      longer := longer[1..];
    }
    longer := longer + [entry];
  }

  function Since(snapshots: seq<Snapshot>, since: int): seq<Snapshot>
  {
    if snapshots == [] then []
    else
      var last := snapshots[|snapshots| - 1];
      Since(snapshots[..|snapshots| - 1], since) + if last.capturedAt < since then [] else [last]
  }

  class RingBufferStore {
    var periodic: seq<Snapshot>
    var incidents: seq<Snapshot>
    ghost var log: seq<Snapshot>

    ghost predicate Valid()
      reads this
    {
      && periodic == LastOf(log, MAX_PERIODIC_SNAPSHOTS)
      && incidents == LastOf(WithTrigger(log, Incident), MAX_INCIDENT_SNAPSHOTS)
    }

    constructor ()
      ensures Valid() && log == []
    {
      periodic, incidents, log := [], [], [];
    }

    method Append(snapshot: Snapshot)
      requires Valid()
      modifies this
      ensures Valid() && log == old(log) + [snapshot]
    {
      assert (log + [snapshot])[..|log|] == log;
      periodic := AppendBounded(periodic, snapshot, MAX_PERIODIC_SNAPSHOTS, log);
      if snapshot.trigger == Incident {
        incidents := AppendBounded(incidents, snapshot, MAX_INCIDENT_SNAPSHOTS, WithTrigger(log, Incident));
      }
      log := log + [snapshot];
    }

    /** Every snapshot among the last 300 that is not older than `since`, incidents included, in log order. */
    method Recent(since: int) returns (result: seq<Snapshot>)
      requires Valid()
      ensures result == Since(LastOf(log, 300), since)
    {
      result := [];
      for i := 0 to |periodic|
        invariant result == Since(periodic[..i], since)
      {
        assert periodic[..i + 1][..i] == periodic[..i];
        if !(periodic[i].capturedAt < since) {
          result := result + [periodic[i]];
        }
      }
      assert periodic[..|periodic|] == periodic;
    }

    method Incidents() returns (result: seq<Snapshot>)
      requires Valid()
      ensures result == LastOf(WithTrigger(log, Incident), 50)
    {
      result := incidents;
    }
  }

  lemma {:induction false} SinceKeepsExactly(snapshots: seq<Snapshot>, since: int, s: Snapshot)
    ensures s in Since(snapshots, since) <==> s in snapshots && s.capturedAt >= since
  {
    if snapshots != [] {
      var init, last := snapshots[..|snapshots| - 1], snapshots[|snapshots| - 1];
      SinceKeepsExactly(init, since, s);
      assert snapshots == init + [last];
    }
  }

  /** It keeps them in order, and each as often as it was there. */
  lemma {:induction false} SinceIsFilter(snapshots: seq<Snapshot>, since: int)
    ensures IsFilter(Since(snapshots, since), snapshots, (s: Snapshot) => s.capturedAt >= since)
  {
    hide IsFilter;
    var keep := (s: Snapshot) => s.capturedAt >= since;
    if snapshots == [] {
      NothingFromNothing(keep);
    } else {
      SinceIsFilter(snapshots[..|snapshots| - 1], since);
      FilterOfLonger(Since(snapshots[..|snapshots| - 1], since), snapshots, keep);
    }
  }

  lemma {:induction false} SinceOfConcatenation(a: seq<Snapshot>, b: seq<Snapshot>, since: int)
    ensures Since(a + b, since) == Since(a, since) + Since(b, since)
  {
    if b == [] {
      assert a + b == a;
    } else {
      assert (a + b)[..|a + b| - 1] == a + b[..|b| - 1];
      SinceOfConcatenation(a, b[..|b| - 1], since);
    }
  }

  predicate AllSince(snapshots: seq<Snapshot>, since: int)
  {
    forall s :: s in snapshots ==> since <= s.capturedAt
  }

  lemma AllSinceFrontAndLast(snapshots: seq<Snapshot>, since: int)
    requires AllSince(snapshots, since) && snapshots != []
    ensures AllSince(snapshots[..|snapshots| - 1], since) && since <= snapshots[|snapshots| - 1].capturedAt
    ensures snapshots == snapshots[..|snapshots| - 1] + [snapshots[|snapshots| - 1]]
  {
    assert snapshots[|snapshots| - 1] in snapshots;
  }

  lemma {:induction false} SinceOfRecent(snapshots: seq<Snapshot>, since: int)
    requires AllSince(snapshots, since)
    ensures Since(snapshots, since) == snapshots
  {
    if snapshots != [] {
      hide AllSince;
      AllSinceFrontAndLast(snapshots, since);
      SinceOfRecent(snapshots[..|snapshots| - 1], since);
    }
  }

  lemma {:induction false} SinceIsNotLonger(snapshots: seq<Snapshot>, since: int)
    ensures |Since(snapshots, since)| <= |snapshots|
  {
    if snapshots != [] {
      SinceIsNotLonger(snapshots[..|snapshots| - 1], since);
    }
  }

  lemma LaterIsRecent(older: seq<Snapshot>, newer: seq<Snapshot>, since: int)
    requires ChronologicalOrder(older + newer) && Since(older, since) != []
    ensures AllSince(newer, since)
  {
    var first := Since(older, since)[0];
    SinceKeepsExactly(older, since, first);
    var i :| 0 <= i < |older| && older[i] == first;
    forall s | s in newer
      ensures since <= s.capturedAt
    {
      var j :| 0 <= j < |newer| && newer[j] == s;
      assert (older + newer)[i] == first && (older + newer)[|older| + j] == s;
    }
  }

  /** Reading a window of a chronological log from the bounded buffer gives the newest n of what the full log has for
      it: all of it, unless the window reaches back further than the buffer. */
  lemma BoundedWindow(log: seq<Snapshot>, since: int, n: nat)
    requires ChronologicalOrder(log)
    ensures Since(LastOf(log, n), since) == LastOf(Since(log, since), n)
  {
    if |log| > n {
      var older, newer := log[..|log| - n], log[|log| - n..];
      assert log == older + newer;
      SinceOfConcatenation(older, newer, since);
      SinceIsNotLonger(newer, since);
      if Since(older, since) != [] {
        LaterIsRecent(older, newer, since);
        SinceOfRecent(newer, since);
      }
    } else {
      SinceIsNotLonger(log, since);
    }
  }
}
