/** go/internal/domain/session.go and snapshot.go: what the poller records, the history stores keep and the browser
    draws. */
module Snapshots {
  import opened Sublists

  /** The fields of a session that recording and drawing depend on; durations and times are integers. */
  datatype Session = Session(id: string, query: string, duration: int, blockedBy: seq<string>)
  {
    predicate IsBlocked() {
      |blockedBy| > 0
    }
  }

  datatype Trigger = Periodic | Incident

  datatype Snapshot = Snapshot(sessions: seq<Session>, capturedAt: int, trigger: Trigger)

  predicate ChronologicalOrder(snapshots: seq<Snapshot>)
  {
    forall i, j :: 0 <= i < j < |snapshots| ==> snapshots[i].capturedAt <= snapshots[j].capturedAt
  }

  /** The snapshots with one trigger, in order. */
  function WithTrigger(snapshots: seq<Snapshot>, trigger: Trigger): seq<Snapshot>
  {
    if snapshots == [] then []
    else
      var last := snapshots[|snapshots| - 1];
      WithTrigger(snapshots[..|snapshots| - 1], trigger) + if last.trigger == trigger then [last] else []
  }

  lemma {:induction false} WithTriggerIsFilter(snapshots: seq<Snapshot>, trigger: Trigger)
    ensures IsFilter(WithTrigger(snapshots, trigger), snapshots, (s: Snapshot) => s.trigger == trigger)
  {
    hide IsFilter;
    var keep := (s: Snapshot) => s.trigger == trigger;
    if snapshots == [] {
      NothingFromNothing(keep);
    } else {
      WithTriggerIsFilter(snapshots[..|snapshots| - 1], trigger);
      FilterOfLonger(WithTrigger(snapshots[..|snapshots| - 1], trigger), snapshots, keep);
    }
  }
}
