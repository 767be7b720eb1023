/** go/internal/infrastructure/history/sqlite_store_query.go: reading a window of history back, its periodic
    part thinned out evenly. */
module HistoryQuery {
  import opened Arithmetic
  import opened Options
  import opened Snapshots
  import opened HistoryTable

  const MAX_PERIODIC_ROWS_PER_WINDOW := 1500

  function InWindow(rows: set<Row>, trigger: Trigger, since: int): set<Row>
  {
    set row | row in rows && Has(row, trigger) && Time(row) >= since
  }

  function SnapshotsOf(rows: seq<Row>): (snapshots: seq<Snapshot>)
    ensures |snapshots| == |rows| && forall i :: 0 <= i < |rows| ==> snapshots[i] == rows[i].snapshot
  {
    seq(|rows|, i requires 0 <= i < |rows| => rows[i].snapshot)
  }

  // ----- Thinning

  /** The least step that thins `count` rows to the cap. */
  predicate IsStep(count: nat, step: nat)
  {
    if count > 1500 then (step - 1) * 1500 < count <= step * 1500 else step == 1
  }

  method ComputeStep(count: nat) returns (step: nat)
    ensures IsStep(count, step)
  {
    step := 1;
    if count > MAX_PERIODIC_ROWS_PER_WINDOW {
      step := (count + MAX_PERIODIC_ROWS_PER_WINDOW - 1) / MAX_PERIODIC_ROWS_PER_WINDOW;
    }
  }

  /** The rows among the first n whose row number rn has (rn - 1) % step == 0, in row-number order. */
  function EveryNth(ordered: seq<Row>, step: nat, n: nat): seq<Row>
    requires step >= 1 && n <= |ordered|
  {
    if n == 0 then []
    else EveryNth(ordered, step, n - 1) + if (n - 1) % step == 0 then [ordered[n - 1]] else []
  }

  /** Of step consecutive numbers from x on, the multiple of step is x itself exactly when x is one. */
  lemma MultipleInStep(x: nat, q: nat, step: nat)
    requires step >= 1 && x <= q * step < x + step
    ensures x % step == 0 <==> x == q * step
  {
    var d := x / step;
    assert x == d * step + x % step;
    if x % step == 0 {
      CancelBelowNext(q, d, step);
      CancelBelowNext(d, q, step);
    }
    if x == q * step {
      CancelBelowNext(d, q, step);
      CancelBelowNext(q, d, step);
    }
  }

  /** The k-th row selected is row k * step: the ranks are evenly spaced, from the first row on, and fewer than
      step rows follow the last one selected. */
  ghost predicate EvenlyThinned(thinned: seq<Row>, ordered: seq<Row>, step: nat, n: nat)
    requires n <= |ordered|
  {
    && n <= |thinned| * step < n + step
    && forall k :: 0 <= k < |thinned| ==> 0 <= k * step < n && thinned[k] == ordered[k * step]
  }

  lemma {:induction false} EveryNthIsEven(ordered: seq<Row>, step: nat, n: nat)
    requires step >= 1 && n <= |ordered|
    ensures EvenlyThinned(EveryNth(ordered, step, n), ordered, step, n)
  {
    if n > 0 {
      EveryNthIsEven(ordered, step, n - 1);
      var fewer := EveryNth(ordered, step, n - 1);
      MultipleInStep(n - 1, |fewer|, step);
      assert (|fewer| + 1) * step == |fewer| * step + step;
    }
  }

  /** At most 1500 rows come back, all of them when there are no more, and over 750 when there are. */
  lemma ThinningBounds(ordered: seq<Row>, step: nat)
    requires IsStep(|ordered|, step) && step >= 1
    ensures var thinned := EveryNth(ordered, step, |ordered|);
            && EvenlyThinned(thinned, ordered, step, |ordered|)
            && |thinned| <= MAX_PERIODIC_ROWS_PER_WINDOW
            && (|ordered| <= MAX_PERIODIC_ROWS_PER_WINDOW ==> thinned == ordered)
            && (|ordered| > MAX_PERIODIC_ROWS_PER_WINDOW ==> 2 * |thinned| > MAX_PERIODIC_ROWS_PER_WINDOW)
  {
    EveryNthIsEven(ordered, step, |ordered|);
    var thinned := EveryNth(ordered, step, |ordered|);
    if |ordered| > MAX_PERIODIC_ROWS_PER_WINDOW {
      ThinnedCount(|ordered|, step, |thinned|);
    } else {
      assert forall k :: 0 <= k < |thinned| ==> k * step == k;
    }
  }

  lemma ThinnedCount(n: nat, step: nat, m: nat)
    requires n > MAX_PERIODIC_ROWS_PER_WINDOW && IsStep(n, step) && n <= m * step < n + step
    ensures m <= MAX_PERIODIC_ROWS_PER_WINDOW && 2 * m > MAX_PERIODIC_ROWS_PER_WINDOW
  {
    CancelBelowNext(m, MAX_PERIODIC_ROWS_PER_WINDOW, step);
    assert (2 * m) * step == 2 * (m * step);
    CancelBelow(MAX_PERIODIC_ROWS_PER_WINDOW, 2 * m, step);
  }

  // ----- Merging

  /** The merge of two time-ordered lists; on equal times the second list comes first. */
  function Merged(a: seq<Snapshot>, b: seq<Snapshot>): seq<Snapshot>
  {
    if a == [] then b
    else if b == [] then a
    else if a[0].capturedAt < b[0].capturedAt then [a[0]] + Merged(a[1..], b)
    else [b[0]] + Merged(a, b[1..])
  }

  lemma MergedFromNext(merged: seq<Snapshot>, a: seq<Snapshot>, b: seq<Snapshot>, i: nat, j: nat)
    requires i < |a| && j < |b|
    ensures merged + Merged(a[i..], b[j..]) ==
      if a[i].capturedAt < b[j].capturedAt then (merged + [a[i]]) + Merged(a[i + 1..], b[j..])
      else (merged + [b[j]]) + Merged(a[i..], b[j + 1..])
  {
    assert a[i..][1..] == a[i + 1..] && b[j..][1..] == b[j + 1..];
  }

  lemma MergedWithNothing(merged: seq<Snapshot>, a: seq<Snapshot>, b: seq<Snapshot>)
    requires a == [] || b == []
    ensures merged + Merged(a, b) == (merged + a) + b
  {
  }

  method MergeSnapshotsByTime(a: seq<Snapshot>, b: seq<Snapshot>) returns (merged: seq<Snapshot>)
    ensures merged == Merged(a, b)
  {
    hide Merged;
    merged := [];
    var i, j := 0, 0;
    assert a[0..] == a && b[0..] == b && merged + Merged(a, b) == Merged(a, b);
    while i < |a| && j < |b|
      invariant 0 <= i <= |a| && 0 <= j <= |b|
      invariant merged + Merged(a[i..], b[j..]) == Merged(a, b)
    {
      MergedFromNext(merged, a, b, i, j);
      if a[i].capturedAt < b[j].capturedAt {
        merged := merged + [a[i]];
        i := i + 1;
      } else {
        merged := merged + [b[j]];
        j := j + 1;
      }
    }
    MergedWithNothing(merged, a[i..], b[j..]);
    merged := merged + a[i..];
    merged := merged + b[j..];
  }

  predicate NoneEarlier(first: Snapshot, rest: seq<Snapshot>)
  {
    forall s :: s in rest ==> first.capturedAt <= s.capturedAt
  }

  lemma FirstIsEarliest(snapshots: seq<Snapshot>)
    requires snapshots != [] && ChronologicalOrder(snapshots)
    ensures NoneEarlier(snapshots[0], snapshots) && ChronologicalOrder(snapshots[1..])
    ensures snapshots == [snapshots[0]] + snapshots[1..]
  {
  }

  lemma PrependEarliest(first: Snapshot, rest: seq<Snapshot>)
    requires ChronologicalOrder(rest) && NoneEarlier(first, rest)
    ensures ChronologicalOrder([first] + rest)
  {
    forall i, j | 0 <= i < j < |[first] + rest|
      ensures ([first] + rest)[i].capturedAt <= ([first] + rest)[j].capturedAt
    {
      assert rest[j - 1] in rest;
    }
  }

  lemma {:induction false} MergedHolds(a: seq<Snapshot>, b: seq<Snapshot>, s: Snapshot)
    ensures s in Merged(a, b) <==> s in a || s in b
  {
    if a != [] && b != [] {
      if a[0].capturedAt < b[0].capturedAt {
        MergedHolds(a[1..], b, s);
        assert a == [a[0]] + a[1..];
      } else {
        MergedHolds(a, b[1..], s);
        assert b == [b[0]] + b[1..];
      }
    }
  }

  lemma {:induction false} MergedIsChronological(a: seq<Snapshot>, b: seq<Snapshot>)
    requires ChronologicalOrder(a) && ChronologicalOrder(b)
    ensures ChronologicalOrder(Merged(a, b))
  {
    if a != [] && b != [] {
      FirstIsEarliest(a);
      FirstIsEarliest(b);
      if a[0].capturedAt < b[0].capturedAt {
        MergedIsChronological(a[1..], b);
        forall s {
          MergedHolds(a[1..], b, s);
        }
        PrependEarliest(a[0], Merged(a[1..], b));
      } else {
        MergedIsChronological(a, b[1..]);
        forall s {
          MergedHolds(a, b[1..], s);
        }
        PrependEarliest(b[0], Merged(a, b[1..]));
      }
    }
  }

  predicate AllHave(snapshots: seq<Snapshot>, trigger: Trigger)
  {
    forall s :: s in snapshots ==> s.trigger == trigger
  }

  lemma {:induction false} WithTriggerPrepended(first: Snapshot, rest: seq<Snapshot>, trigger: Trigger)
    ensures WithTrigger([first] + rest, trigger)
         == (if first.trigger == trigger then [first] else []) + WithTrigger(rest, trigger)
  {
    if rest == [] {
      assert [first] + rest == [first];
    } else {
      var init, last := rest[..|rest| - 1], rest[|rest| - 1];
      assert ([first] + rest)[..|rest|] == [first] + init;
      WithTriggerPrepended(first, init, trigger);
    }
  }

  lemma AllHaveFrontAndLast(snapshots: seq<Snapshot>, trigger: Trigger)
    requires AllHave(snapshots, trigger) && snapshots != []
    ensures AllHave(snapshots[..|snapshots| - 1], trigger) && snapshots[|snapshots| - 1].trigger == trigger
    ensures snapshots == snapshots[..|snapshots| - 1] + [snapshots[|snapshots| - 1]]
  {
    assert snapshots[|snapshots| - 1] in snapshots;
  }

  lemma {:induction false} WithTriggerOfOne(snapshots: seq<Snapshot>, trigger: Trigger, other: Trigger)
    requires AllHave(snapshots, trigger)
    ensures WithTrigger(snapshots, other) == if other == trigger then snapshots else []
  {
    if snapshots != [] {
      hide AllHave;
      AllHaveFrontAndLast(snapshots, trigger);
      WithTriggerOfOne(snapshots[..|snapshots| - 1], trigger, other);
    }
  }

  lemma SourcesAlone(periodic: seq<Snapshot>, incidents: seq<Snapshot>)
    requires AllHave(periodic, Periodic) && AllHave(incidents, Incident)
    requires periodic == [] || incidents == []
    ensures WithTrigger(periodic + incidents, Periodic) == periodic
    ensures WithTrigger(periodic + incidents, Incident) == incidents
  {
    assert periodic + incidents == if periodic == [] then incidents else periodic;
    WithTriggerOfOne(periodic, Periodic, Periodic);
    WithTriggerOfOne(periodic, Periodic, Incident);
    WithTriggerOfOne(incidents, Incident, Incident);
    WithTriggerOfOne(incidents, Incident, Periodic);
  }

  lemma FirstAndRest(snapshots: seq<Snapshot>, trigger: Trigger)
    requires snapshots != [] && AllHave(snapshots, trigger)
    ensures snapshots == [snapshots[0]] + snapshots[1..]
    ensures snapshots[0].trigger == trigger && AllHave(snapshots[1..], trigger)
  {
  }

  /** The merge keeps each source whole and in its own order. */
  lemma {:induction false} MergedKeepsSources(periodic: seq<Snapshot>, incidents: seq<Snapshot>)
    requires AllHave(periodic, Periodic) && AllHave(incidents, Incident)
    ensures WithTrigger(Merged(periodic, incidents), Periodic) == periodic
    ensures WithTrigger(Merged(periodic, incidents), Incident) == incidents
  {
    if periodic == [] || incidents == [] {
      SourcesAlone(periodic, incidents);
      assert Merged(periodic, incidents) == periodic + incidents;
    } else if periodic[0].capturedAt < incidents[0].capturedAt {
      var first, rest := periodic[0], Merged(periodic[1..], incidents);
      FirstAndRest(periodic, Periodic);
      MergedKeepsSources(periodic[1..], incidents);
      WithTriggerPrepended(first, rest, Periodic);
      WithTriggerPrepended(first, rest, Incident);
    } else {
      var first, rest := incidents[0], Merged(periodic, incidents[1..]);
      FirstAndRest(incidents, Incident);
      MergedKeepsSources(periodic, incidents[1..]);
      WithTriggerPrepended(first, rest, Periodic);
      WithTriggerPrepended(first, rest, Incident);
    }
  }

  // ----- Recent

  /** The window's periodic snapshots in some order by time, every step-th of them. */
  ghost predicate IsThinnedWindow(periodic: seq<Snapshot>, rows: set<Row>, since: int)
  {
    exists ordered, step :: ThinsWindow(ordered, step, rows, since)
                         && periodic == SnapshotsOf(EveryNth(ordered, step, |ordered|))
  }

  predicate ThinsWindow(ordered: seq<Row>, step: nat, rows: set<Row>, since: int)
  {
    InTimeOrder(ordered, InWindow(rows, Periodic, since)) && IsStep(|ordered|, step) && step >= 1
  }

  /** Which of the queries of one Recent fail; reading the rows they return is part of them. */
  datatype QueryFaults = QueryFaults(countFails: bool, periodicFails: bool, incidentsFail: bool)

  /** None stands for an error; an empty window is not asked for its rows. */
  method RecentPeriodic(rows: set<Row>, since: int, faults: QueryFaults) returns (result: Option<seq<Snapshot>>)
    ensures result.None? <==> faults.countFails || (faults.periodicFails && InWindow(rows, Periodic, since) != {})
    ensures result.Some? ==> IsThinnedWindow(result.value, rows, since)
  {
    if faults.countFails {
      return None;
    }
    var matching := InWindow(rows, Periodic, since);
    var count := |matching|;
    if count == 0 {
      assert ThinsWindow([], 1, rows, since);
      return Some([]);
    }
    if faults.periodicFails {
      return None;
    }
    var step := ComputeStep(count);
    ghost var some := TimeOrder(matching);
    var numbered: seq<Row> :| InTimeOrder(numbered, matching);
    OrderHasAll(numbered, matching);
    assert ThinsWindow(numbered, step, rows, since);
    result := Some(SnapshotsOf(EveryNth(numbered, step, |numbered|)));
  }

  lemma {:induction false} OrderHasAll(ordered: seq<Row>, rows: set<Row>)
    requires InTimeOrder(ordered, rows)
    ensures |ordered| == |rows|
  {
    if ordered != [] {
      var init, last := ordered[..|ordered| - 1], ordered[|ordered| - 1];
      assert InTimeOrder(init, rows - {last});
      OrderHasAll(init, rows - {last});
    } else {
      assert rows == {};
    }
  }

  /** All incident snapshots of the window, in some order by time. */
  ghost predicate IsIncidentWindow(incidents: seq<Snapshot>, rows: set<Row>, since: int)
  {
    exists ordered :: InTimeOrder(ordered, InWindow(rows, Incident, since)) && incidents == SnapshotsOf(ordered)
  }

  method RecentIncidents(rows: set<Row>, since: int, faults: QueryFaults) returns (result: Option<seq<Snapshot>>)
    ensures result.None? <==> faults.incidentsFail
    ensures result.Some? ==> IsIncidentWindow(result.value, rows, since)
  {
    if faults.incidentsFail {
      return None;
    }
    var matching := InWindow(rows, Incident, since);
    ghost var some := TimeOrder(matching);
    var numbered: seq<Row> :| InTimeOrder(numbered, matching);
    result := Some(SnapshotsOf(numbered));
  }

  /** The incidents of the window and its thinned periodic snapshots, merged. */
  ghost predicate IsRecent(recent: seq<Snapshot>, rows: set<Row>, since: int)
  {
    exists periodic, incidents :: IsThinnedWindow(periodic, rows, since) && IsIncidentWindow(incidents, rows, since)
                               && recent == Merged(periodic, incidents)
  }

  method Recent(rows: set<Row>, since: int, faults: QueryFaults) returns (result: Option<seq<Snapshot>>)
    ensures var asked := InWindow(rows, Periodic, since) != {};
            result.None? <==> faults.countFails || faults.incidentsFail || (faults.periodicFails && asked)
    ensures result.Some? ==> IsRecent(result.value, rows, since)
  {
    var periodic := RecentPeriodic(rows, since, faults);
    if periodic.None? {
      return None;
    }
    var incidents := RecentIncidents(rows, since, faults);
    if incidents.None? {
      return None;
    }
    var recent := MergeSnapshotsByTime(periodic.value, incidents.value);
    result := Some(recent);
  }

  lemma OrderedSnapshots(ordered: seq<Row>, rows: set<Row>, trigger: Trigger, since: int)
    requires InTimeOrder(ordered, InWindow(rows, trigger, since))
    ensures ChronologicalOrder(SnapshotsOf(ordered)) && AllHave(SnapshotsOf(ordered), trigger)
  {
    forall s | s in SnapshotsOf(ordered)
      ensures s.trigger == trigger
    {
      var i :| 0 <= i < |ordered| && ordered[i].snapshot == s;
      assert ordered[i] in ordered;
    }
  }

  lemma SelectionStaysOrdered(full: seq<Snapshot>, thinned: seq<Snapshot>, step: nat, trigger: Trigger)
    requires step >= 1 && ChronologicalOrder(full) && AllHave(full, trigger)
    requires forall k :: 0 <= k < |thinned| ==> 0 <= k * step < |full| && thinned[k] == full[k * step]
    ensures ChronologicalOrder(thinned) && AllHave(thinned, trigger)
  {
    forall i, j | 0 <= i < j < |thinned|
      ensures thinned[i].capturedAt <= thinned[j].capturedAt
    {
      Scaled(i, j, step);
      assert thinned[i] == full[i * step] && thinned[j] == full[j * step];
    }
    forall s | s in thinned
      ensures s.trigger == trigger
    {
      var k :| 0 <= k < |thinned| && thinned[k] == s;
      assert full[k * step] in full;
    }
  }

  lemma ThinnedSnapshots(ordered: seq<Row>, step: nat, trigger: Trigger)
    requires step >= 1 && ChronologicalOrder(SnapshotsOf(ordered)) && AllHave(SnapshotsOf(ordered), trigger)
    ensures ChronologicalOrder(SnapshotsOf(EveryNth(ordered, step, |ordered|)))
    ensures AllHave(SnapshotsOf(EveryNth(ordered, step, |ordered|)), trigger)
  {
    var rows := EveryNth(ordered, step, |ordered|);
    EveryNthIsEven(ordered, step, |ordered|);
    forall k | 0 <= k < |rows|
      ensures 0 <= k * step < |ordered| && SnapshotsOf(rows)[k] == SnapshotsOf(ordered)[k * step]
    {
      assert rows[k] == ordered[k * step];
    }
    SelectionStaysOrdered(SnapshotsOf(ordered), SnapshotsOf(rows), step, trigger);
  }

  lemma ThinnedWindowIsOrdered(periodic: seq<Snapshot>, rows: set<Row>, since: int)
    requires IsThinnedWindow(periodic, rows, since)
    ensures ChronologicalOrder(periodic) && AllHave(periodic, Periodic)
  {
    var ordered, step :| ThinsWindow(ordered, step, rows, since)
                      && periodic == SnapshotsOf(EveryNth(ordered, step, |ordered|));
    OrderedSnapshots(ordered, rows, Periodic, since);
    ThinnedSnapshots(ordered, step, Periodic);
  }

  lemma IncidentWindowIsOrdered(incidents: seq<Snapshot>, rows: set<Row>, since: int)
    requires IsIncidentWindow(incidents, rows, since)
    ensures ChronologicalOrder(incidents) && AllHave(incidents, Incident)
  {
    var ordered :| InTimeOrder(ordered, InWindow(rows, Incident, since)) && incidents == SnapshotsOf(ordered);
    OrderedSnapshots(ordered, rows, Incident, since);
  }

  /** What Recent returns is in chronological order; its incidents are all the incidents of the window, and the rest is
      the window's periodic snapshots thinned out evenly. */
  lemma RecentIsFaithful(recent: seq<Snapshot>, rows: set<Row>, since: int)
    requires IsRecent(recent, rows, since)
    ensures ChronologicalOrder(recent) && IncidentsFirst(recent)
    ensures IsIncidentWindow(WithTrigger(recent, Incident), rows, since)
    ensures IsThinnedWindow(WithTrigger(recent, Periodic), rows, since)
  {
    var periodic, incidents :| IsThinnedWindow(periodic, rows, since) && IsIncidentWindow(incidents, rows, since)
                            && recent == Merged(periodic, incidents);
    ThinnedWindowIsOrdered(periodic, rows, since);
    IncidentWindowIsOrdered(incidents, rows, since);
    MergedIsChronological(periodic, incidents);
    MergedTies(periodic, incidents);
    MergedKeepsSources(periodic, incidents);
  }

  /** Everything that comes back was captured at or after the start of the window, and no incident captured there is
      missing. */
  lemma RecentIsOfTheWindow(recent: seq<Snapshot>, rows: set<Row>, since: int)
    requires IsRecent(recent, rows, since)
    ensures forall s :: s in recent ==> s.capturedAt >= since && exists row :: row in rows && row.snapshot == s
    ensures forall row :: row in rows && row.snapshot.trigger == Incident && row.snapshot.capturedAt >= since ==>
              row.snapshot in recent
  {
    var periodic, incidents :| IsThinnedWindow(periodic, rows, since) && IsIncidentWindow(incidents, rows, since)
                            && recent == Merged(periodic, incidents);
    forall s {
      MergedHolds(periodic, incidents, s);
    }
    ThinnedIsOfTheWindow(periodic, rows, since);
    IncidentsAreThoseOfTheWindow(incidents, rows, since);
  }

  lemma ThinnedIsOfTheWindow(periodic: seq<Snapshot>, rows: set<Row>, since: int)
    requires IsThinnedWindow(periodic, rows, since)
    ensures forall s :: s in periodic ==> s.capturedAt >= since && exists row :: row in rows && row.snapshot == s
  {
    var ordered, step :| ThinsWindow(ordered, step, rows, since)
                      && periodic == SnapshotsOf(EveryNth(ordered, step, |ordered|));
    EveryNthIsEven(ordered, step, |ordered|);
    forall s | s in periodic
      ensures s.capturedAt >= since && exists row :: row in rows && row.snapshot == s
    {
      var k: nat :| k < |periodic| && periodic[k] == s;
      var row: Row := ordered[k * step];
      assert row in ordered && row.snapshot == s;
    }
  }

  lemma IncidentsAreThoseOfTheWindow(incidents: seq<Snapshot>, rows: set<Row>, since: int)
    requires IsIncidentWindow(incidents, rows, since)
    ensures forall s :: s in incidents ==> s.capturedAt >= since && exists row :: row in rows && row.snapshot == s
    ensures forall row :: row in rows && row.snapshot.trigger == Incident && row.snapshot.capturedAt >= since ==>
              row.snapshot in incidents
  {
    var ordered: seq<Row> :| InTimeOrder(ordered, InWindow(rows, Incident, since)) && incidents == SnapshotsOf(ordered);
    forall s | s in incidents
      ensures s.capturedAt >= since && exists row :: row in rows && row.snapshot == s
    {
      var k: nat :| k < |ordered| && ordered[k].snapshot == s;
      assert ordered[k] in ordered;
    }
    forall row | row in rows && row.snapshot.trigger == Incident && row.snapshot.capturedAt >= since
      ensures row.snapshot in incidents
    {
      assert row in InWindow(rows, Incident, since) && row in ordered;
      var k :| 0 <= k < |ordered| && ordered[k] == row;
      assert incidents[k] == row.snapshot;
    }
  }

  /** Of snapshots with equal times the incidents come first. */
  predicate IncidentsFirst(snapshots: seq<Snapshot>)
  {
    forall i, j :: 0 <= i < j < |snapshots| && snapshots[i].capturedAt == snapshots[j].capturedAt ==>
      snapshots[j].trigger == Incident ==> snapshots[i].trigger == Incident
  }

  lemma {:induction false} MergedTies(periodic: seq<Snapshot>, incidents: seq<Snapshot>)
    requires ChronologicalOrder(periodic) && ChronologicalOrder(incidents)
    requires AllHave(periodic, Periodic) && AllHave(incidents, Incident)
    ensures IncidentsFirst(Merged(periodic, incidents))
  {
    if periodic != [] && incidents != [] {
      FirstIsEarliest(periodic);
      FirstIsEarliest(incidents);
      FirstAndRest(periodic, Periodic);
      FirstAndRest(incidents, Incident);
      if periodic[0].capturedAt < incidents[0].capturedAt {
        MergedTies(periodic[1..], incidents);
        forall s | s in Merged(periodic[1..], incidents) && s.trigger == Incident
          ensures periodic[0].capturedAt < s.capturedAt
        {
          MergedHolds(periodic[1..], incidents, s);
        }
        TiesBehind(periodic[0], Merged(periodic[1..], incidents));
      } else {
        MergedTies(periodic, incidents[1..]);
        TiesBehind(incidents[0], Merged(periodic, incidents[1..]));
      }
    } else {
      OnlyOneKind(periodic, Periodic);
      OnlyOneKind(incidents, Incident);
    }
  }

  lemma OnlyOneKind(snapshots: seq<Snapshot>, trigger: Trigger)
    requires AllHave(snapshots, trigger)
    ensures IncidentsFirst(snapshots)
  {
    forall i, j | 0 <= i < j < |snapshots|
      ensures snapshots[i].trigger == snapshots[j].trigger
    {
      assert snapshots[i] in snapshots && snapshots[j] in snapshots;
    }
  }

  lemma TiesBehind(first: Snapshot, rest: seq<Snapshot>)
    requires IncidentsFirst(rest)
    requires first.trigger == Incident
          || forall s :: s in rest && s.trigger == Incident ==> first.capturedAt != s.capturedAt
    ensures IncidentsFirst([first] + rest)
  {
    var all := [first] + rest;
    forall i, j | 0 <= i < j < |all| && all[i].capturedAt == all[j].capturedAt && all[j].trigger == Incident
      ensures all[i].trigger == Incident
    {
      assert all[j] == rest[j - 1] && rest[j - 1] in rest;
      assert i > 0 ==> all[i] == rest[i - 1];
    }
  }

  /** At most 1500 of the window's periodic snapshots come back: all of them if there are no more, over 750 if there
      are. */
  lemma ThinnedWindowBounds(periodic: seq<Snapshot>, rows: set<Row>, since: int)
    requires IsThinnedWindow(periodic, rows, since)
    ensures var window := set row | row in rows && row.snapshot.trigger == Periodic && row.snapshot.capturedAt >= since;
            var count := |window|;
            if count <= 1500 then |periodic| == count else |periodic| <= 1500 < 2 * |periodic|
  {
    var ordered, step :| ThinsWindow(ordered, step, rows, since)
                      && periodic == SnapshotsOf(EveryNth(ordered, step, |ordered|));
    OrderHasAll(ordered, InWindow(rows, Periodic, since));
    ThinningBounds(ordered, step);
    assert InWindow(rows, Periodic, since)
        == set row | row in rows && row.snapshot.trigger == Periodic && row.snapshot.capturedAt >= since;
  }
}
