/** go/internal/infrastructure/history/sqlite_store.go and sqlite_store_maintenance.go: the store's writes,
    its batched pruning and the size backstop. One statement sees the whole table at one moment. Statements
    may fail, and the context may be cancelled between two batches: `Fault` says when. */
module HistoryStore {
  import opened Options
  import opened Snapshots
  import opened HistoryTable
  import opened Redaction
  import opened RedactionProperties
  import opened Sets

  const PRUNE_BATCH_SIZE := 500

  /** What goes wrong with a batch: its statement, or what comes after it: the vacuum fails or the context is done. */
  datatype Fault = NoFault | StatementFails | StopsAfterwards

  /** No batch goes wrong. */
  ghost predicate Faultless(faults: nat -> Fault)
  {
    forall k :: faults(k) == NoFault
  }

  datatype Outcome = Done | Interrupted | NoCutoff

  /** Periodic rows captured before a time: what age-based pruning is after. */
  function Expired(rows: set<Row>, before: int): set<Row>
  {
    set row | row in rows && Has(row, Periodic) && Time(row) < before
  }

  /** Incident rows captured before the cutoff: what count-based pruning is after. */
  function Excess(rows: set<Row>, cutoff: int): set<Row>
  {
    set row | row in rows && Has(row, Incident) && Time(row) < cutoff
  }

  function RedactSession(session: Session): Session
  {
    session.(query := Redact(session.query))
  }

  function RedactSnapshot(snapshot: Snapshot): Snapshot
  {
    snapshot.(sessions := seq(|snapshot.sessions|,
      i requires 0 <= i < |snapshot.sessions| => RedactSession(snapshot.sessions[i])))
  }

  /** Scanning the stored query again finds no literal, and no quote is left in it. */
  predicate QueriesRedacted(snapshot: Snapshot)
  {
    forall session :: session in snapshot.sessions ==> Redact(session.query) == session.query && '\'' !in session.query
  }

  predicate FullyRedacted(rows: set<Row>)
  {
    forall row :: row in rows ==> QueriesRedacted(row.snapshot)
  }

  lemma RedactedSnapshotIsRedacted(snapshot: Snapshot)
    ensures QueriesRedacted(RedactSnapshot(snapshot))
  {
    forall session | session in RedactSnapshot(snapshot).sessions
      ensures Redact(session.query) == session.query && '\'' !in session.query
    {
      var i :| 0 <= i < |snapshot.sessions| && session == RedactSession(snapshot.sessions[i]);
      RedactionIsIdempotent(snapshot.sessions[i].query);
      NoQuoteSurvives(false, snapshot.sessions[i].query);
    }
  }

  /** Of a stored snapshot only the queries are changed: its time, its trigger, its sessions in their order and all
      their other fields stay. */
  lemma OnlyQueriesAreRedacted(snapshot: Snapshot)
    ensures var stored := RedactSnapshot(snapshot);
            && stored.capturedAt == snapshot.capturedAt && stored.trigger == snapshot.trigger
            && |stored.sessions| == |snapshot.sessions|
            && forall i :: 0 <= i < |stored.sessions| ==>
                 var before, after := snapshot.sessions[i], stored.sessions[i];
                 && after.id == before.id && after.duration == before.duration && after.blockedBy == before.blockedBy
                 && after.query == Redact(before.query)
  {
    hide Redact;
  }

  /** The loop of redactSnapshot. */
  method RedactSessions(snapshot: Snapshot) returns (redacted: Snapshot)
    ensures redacted == RedactSnapshot(snapshot)
  {
    hide Redact;
    var redactedSessions: seq<Session> := [];
    for i := 0 to |snapshot.sessions|
      invariant |redactedSessions| == i
      invariant forall k :: 0 <= k < i ==> redactedSessions[k] == RedactSession(snapshot.sessions[k])
    {
      var query := RedactQueryLiterals(snapshot.sessions[i].query);
      redactedSessions := redactedSessions + [snapshot.sessions[i].(query := query)];
    }
    redacted := Snapshot(redactedSessions, snapshot.capturedAt, snapshot.trigger);
  }

  class SQLiteStore {
    var rows: set<Row>
    var nextId: nat

    ghost predicate Valid()
      reads this
    {
      forall row :: row in rows ==> row.id < nextId
    }

    constructor ()
      ensures Valid() && rows == {}
    {
      rows, nextId := {}, 0;
    }

    /** Stores the redacted snapshot, unless the insert fails. */
    method Append(snapshot: Snapshot, fails: bool) returns (ok: bool)
      requires Valid()
      modifies this
      ensures Valid() && ok == !fails
      ensures FullyRedacted(old(rows)) ==> FullyRedacted(rows)
      ensures rows == if ok then old(rows) + {Row(old(nextId), RedactSnapshot(snapshot))} else old(rows)
      ensures Row(old(nextId), RedactSnapshot(snapshot)) !in old(rows)
    {
      var redacted := RedactSessions(snapshot);
      if fails {
        return false;
      }
      RedactedSnapshotIsRedacted(snapshot);
      rows := rows + {Row(nextId, redacted)};
      nextId := nextId + 1;
      return true;
    }

    /** DELETE ... WHERE id IN (SELECT id ... LIMIT ?): which of the matching rows go is the database's choice. */
    method DeleteSome(matching: set<Row>) returns (rowsAffected: nat)
      requires matching <= rows
      modifies this`rows
      ensures exists batch :: IsLimited(batch, matching, PRUNE_BATCH_SIZE)
                           && rows == old(rows) - batch && rowsAffected == |batch|
      ensures rowsAffected == if |matching| < 500 then |matching| else 500
    {
      ghost var some := SomeBatch(matching, PRUNE_BATCH_SIZE);
      var batch :| IsLimited(batch, matching, PRUNE_BATCH_SIZE);
      rows := rows - batch;
      rowsAffected := |batch|;
    }

    /** DELETE ... WHERE id IN (SELECT id ... WHERE trigger = ? ORDER BY captured_at ASC LIMIT ?). */
    method DeleteOldest(trigger: Trigger) returns (rowsAffected: nat)
      modifies this`rows
      ensures PrunedOldest(old(rows), rows, trigger)
      ensures rowsAffected == |old(rows)| - |rows| == Min(PRUNE_BATCH_SIZE, |Triggered(old(rows), trigger)|)
    {
      var matching := Triggered(rows, trigger);
      ghost var some := OldestBatch(matching, PRUNE_BATCH_SIZE);
      var batch :| IsOldest(batch, matching, PRUNE_BATCH_SIZE);
      OldestBatchPrunes(rows, batch, trigger);
      rows := rows - batch;
      rowsAffected := |batch|;
    }

    /** Removes exactly the expired periodic rows, in batches; interrupted, it has removed only some of them. */
    method PruneOlderThan(before: int, faults: nat -> Fault) returns (outcome: Outcome)
      modifies this`rows
      ensures outcome.Done? || outcome.Interrupted?
      ensures Faultless(faults) ==> outcome.Done?
      ensures outcome.Done? ==> forall row :: row in rows <==>
                row in old(rows) && (row.snapshot.trigger == Incident || row.snapshot.capturedAt >= before)
      ensures forall row :: row in old(rows) && (row.snapshot.trigger == Incident || row.snapshot.capturedAt >= before)
                ==> row in rows
      ensures rows <= old(rows)
    {
      var batchNumber := 0;
      while true
        invariant old(rows) - Expired(old(rows), before) <= rows <= old(rows)
        decreases |rows|
      {
        if faults(batchNumber).StatementFails? {
          return Interrupted;
        }
        label BeforeDelete:
        var matching := Expired(rows, before);
        var rowsAffected := DeleteSome(matching);
        if rowsAffected == 0 {
          assert matching == {};
          return Done;
        }
        Shrinks(old@BeforeDelete(rows), rows, matching);
        if faults(batchNumber).StopsAfterwards? {
          return Interrupted;
        }
        batchNumber := batchNumber + 1;
      }
    }

    /** Keeps the incidents from the maxRows-th newest time on, and every periodic row. */
    method PruneExcessIncidents(maxRows: int, countFails: bool, cutoffFails: bool, faults: nat -> Fault)
      returns (outcome: Outcome, ghost cutoff: int)
      modifies this`rows
      ensures outcome.NoCutoff? <==> !countFails && !cutoffFails && |Triggered(old(rows), Incident)| == 0 > maxRows
      ensures !countFails && !cutoffFails && Faultless(faults) ==> !outcome.Interrupted?
      ensures countFails || cutoffFails || outcome.NoCutoff? || |Triggered(old(rows), Incident)| <= maxRows ==>
        rows == old(rows)
      ensures !countFails && !cutoffFails && !outcome.NoCutoff? && |Triggered(old(rows), Incident)| > maxRows ==>
        && IsTimeAtRank(Triggered(old(rows), Incident), if maxRows > 1 then maxRows - 1 else 0, cutoff)
        && (outcome.Done? ==> rows == old(rows) - Excess(old(rows), cutoff))
        && old(rows) - Excess(old(rows), cutoff) <= rows <= old(rows)
      // A failed query is reported, unless it is not even made.
      ensures outcome.Done? ==> !countFails && (cutoffFails ==> |Triggered(old(rows), Incident)| <= maxRows)
    {
      cutoff := 0;
      if countFails {
        return Interrupted, 0;
      }
      var incidents := Triggered(rows, Incident);
      if |incidents| <= maxRows {
        return Done, 0;
      }
      if cutoffFails {
        return Interrupted, 0;
      }
      if incidents == {} {
        return NoCutoff, 0;
      }
      ghost var atRank := TimeAtRank(incidents, Offset(maxRows));
      var time: int :| IsTimeAtRank(incidents, Offset(maxRows), time);
      outcome := PruneIncidentsBefore(time, faults);
      cutoff := time;
    }

    /** The deleting loop of PruneExcessIncidents. */
    method PruneIncidentsBefore(cutoff: int, faults: nat -> Fault) returns (outcome: Outcome)
      modifies this`rows
      ensures outcome.Done? || outcome.Interrupted?
      ensures Faultless(faults) ==> outcome.Done?
      ensures outcome.Done? ==> rows == old(rows) - Excess(old(rows), cutoff)
      ensures old(rows) - Excess(old(rows), cutoff) <= rows <= old(rows)
    {
      var batchNumber := 0;
      while true
        invariant old(rows) - Excess(old(rows), cutoff) <= rows <= old(rows)
        decreases |rows|
      {
        if faults(batchNumber).StatementFails? {
          return Interrupted;
        }
        label BeforeDelete:
        var matching := Excess(rows, cutoff);
        var rowsAffected := DeleteSome(matching);
        if rowsAffected == 0 {
          assert matching == {};
          return Done;
        }
        Shrinks(old@BeforeDelete(rows), rows, matching);
        if faults(batchNumber).StopsAfterwards? {
          return Interrupted;
        }
        batchNumber := batchNumber + 1;
      }
    }

    /** Deletes the oldest rows of one trigger, batch by batch, as long as the measured size is over the cap; sizes(k)
        is the k-th measurement, None if it fails, `measured` counts how many were made, and faults(k) befalls the k-th
        batch of this pass. */
    method PruneUntilUnderSize(maxBytes: int, currentSize: int, trigger: Trigger, sizes: nat -> Option<int>,
                               measured: nat, faults: nat -> Fault)
      returns (size: int, nowMeasured: nat, outcome: Outcome)
      requires measured > 0 && sizes(measured - 1) == Some(currentSize)
      modifies this`rows
      ensures PrunedOldest(old(rows), rows, trigger)
      ensures measured <= nowMeasured && AllOver(sizes, measured - 1, nowMeasured - 1, maxBytes)
      ensures currentSize <= maxBytes ==> rows == old(rows) && nowMeasured == measured
      ensures var batches := nowMeasured - measured;
              || IsGoneIn(old(rows), rows, trigger, batches)
              || (outcome.Interrupted? && IsGoneIn(old(rows), rows, trigger, batches + 1))
      ensures Faultless(faults) && AllMeasured(sizes) ==> outcome.Done?
      ensures outcome.Done? || outcome.Interrupted?
      ensures outcome.Done? ==> sizes(nowMeasured - 1) == Some(size)
      ensures outcome.Done? ==> size <= maxBytes || Triggered(rows, trigger) == {}
    {
      size, nowMeasured := currentSize, measured;
      var batchNumber := 0;
      while size > maxBytes
        invariant PrunedOldest(old(rows), rows, trigger)
        invariant measured <= nowMeasured && AllOver(sizes, measured - 1, nowMeasured - 1, maxBytes)
        invariant sizes(nowMeasured - 1) == Some(size)
        invariant currentSize <= maxBytes ==> rows == old(rows) && nowMeasured == measured
        invariant IsGoneIn(old(rows), rows, trigger, nowMeasured - measured)
        decreases |rows|
      {
        if faults(batchNumber).StatementFails? {
          return size, nowMeasured, Interrupted;
        }
        label BeforeDelete:
        var rowsAffected := DeleteOldest(trigger);
        PrunesMore(old(rows), old@BeforeDelete(rows), rows, trigger);
        OneMoreBatch(old(rows), old@BeforeDelete(rows), rows, trigger, nowMeasured - measured);
        if rowsAffected == 0 {
          assert Triggered(old@BeforeDelete(rows), trigger) == {};
          return size, nowMeasured, Done;
        }
        if faults(batchNumber).StopsAfterwards? {
          return size, nowMeasured, Interrupted;
        }
        var measurement := sizes(nowMeasured);
        if measurement.None? {
          return 0, nowMeasured, Interrupted;
        }
        size := measurement.value;
        nowMeasured := nowMeasured + 1;
        batchNumber := batchNumber + 1;
      }
      outcome := Done;
    }

    /** Each pass has faults of its own. */
    method EnforceMaxSize(maxBytes: int, sizes: nat -> Option<int>, periodicFaults: nat -> Fault,
                          incidentFaults: nat -> Fault)
      returns (outcome: Outcome, size: int, ghost measured: nat)
      modifies this`rows
      ensures PrunedInOrder(old(rows), rows)
      // Every batch but an interrupted last one has a measurement behind it, and another batch is only started
      // when the last measurement was still over the cap.
      ensures AllOver(sizes, 0, measured - 1, maxBytes)
      ensures AtMostBatches(old(rows), rows, if outcome.Done? && measured > 0 then measured - 1 else measured)
      ensures outcome.Done? || outcome.Interrupted?
      ensures Faultless(periodicFaults) && Faultless(incidentFaults) && AllMeasured(sizes) ==> outcome.Done?
      // Nothing goes when the file is within the cap to begin with, or cannot be measured.
      ensures (sizes(0).None? ==> outcome.Interrupted?)
      ensures (sizes(0).None? || sizes(0).value <= maxBytes) ==> rows == old(rows)
      // In the end the last measured size is within the cap, or the table is empty.
      ensures outcome.Done? ==> measured > 0 && sizes(measured - 1) == Some(size) && (size <= maxBytes || rows == {})
    {
      if sizes(0).None? {
        return Interrupted, 0, 0;
      }
      size := sizes(0).value;
      var count: nat;
      size, count, outcome := PruneUntilUnderSize(maxBytes, size, Periodic, sizes, 1, periodicFaults);
      ghost var afterPeriodic := rows;
      if outcome.Done? && size > maxBytes {
        size, count, outcome := PruneUntilUnderSize(maxBytes, size, Incident, sizes, count, incidentFaults);
      }
      measured := count;
      PeriodicThenIncidents(old(rows), afterPeriodic, rows);
    }
  }

  function Offset(maxRows: int): nat
  {
    if maxRows >= 1 then maxRows - 1 else 0
  }

  /** Every measurement from one to another was over the cap. */
  ghost predicate AllOver(sizes: nat -> Option<int>, from: int, to: int, maxBytes: int)
  {
    forall k: nat :: from <= k < to ==> sizes(k).Some? && sizes(k).value > maxBytes
  }

  ghost predicate AllMeasured(sizes: nat -> Option<int>)
  {
    forall k :: sizes(k).Some?
  }

  /** No more rows went than that many batches hold. */
  predicate AtMostBatches(before: set<Row>, after: set<Row>, batches: nat)
  {
    |before| <= |after| + 500 * batches
  }

  /** As many rows with the trigger are gone as that many batches hold, or all of them. */
  predicate IsGoneIn(before: set<Row>, after: set<Row>, trigger: Trigger, batches: nat)
  {
    var all := |Triggered(before, trigger)|;
    |before| - |after| == if 500 * batches < all then 500 * batches else all
  }

  lemma OneMoreBatch(before: set<Row>, middle: set<Row>, after: set<Row>, trigger: Trigger, batches: nat)
    requires PrunedOldest(before, middle, trigger) && IsGoneIn(before, middle, trigger, batches)
    requires |middle| - |after| == Min(PRUNE_BATCH_SIZE, |Triggered(middle, trigger)|)
    ensures IsGoneIn(before, after, trigger, batches + 1)
  {
    assert Triggered(before, trigger) == Triggered(middle, trigger) + (before - middle);
    assert before == middle + (before - middle);
  }

  /** Only rows with the trigger went, oldest first. */
  predicate PrunedOldest(before: set<Row>, after: set<Row>, trigger: Trigger)
  {
    && after <= before && (forall row :: row in before - after ==> Has(row, trigger))
    && NoneOlder(Triggered(after, trigger), before - after)
  }

  /** An incident went only when no periodic row was left; within each trigger no row that stays is older than one
      that went. */
  ghost predicate PrunedInOrder(before: set<Row>, after: set<Row>)
  {
    && after <= before
    && (forall row :: row in before - after && Has(row, Incident) ==> Triggered(after, Periodic) == {})
    && (forall trigger :: NoneOlder(Triggered(after, trigger), Triggered(before - after, trigger)))
  }

  /** Of the rows with one trigger none that stays is older than one that went. */
  lemma OldestGoFirst(before: set<Row>, after: set<Row>, s: Row, g: Row)
    requires PrunedInOrder(before, after)
    requires s in after && g in before - after && s.snapshot.trigger == g.snapshot.trigger
    ensures g.snapshot.capturedAt <= s.snapshot.capturedAt
  {
    var trigger := s.snapshot.trigger;
    assert s in Triggered(after, trigger) && g in Triggered(before - after, trigger);
  }

  /** And no incident goes while a periodic row stays. */
  lemma PeriodicGoFirst(before: set<Row>, after: set<Row>, s: Row, g: Row)
    requires PrunedInOrder(before, after)
    requires s in after && g in before - after && g.snapshot.trigger == Incident
    ensures s.snapshot.trigger == Incident
  {
    assert s.snapshot.trigger == Periodic ==> s in Triggered(after, Periodic);
  }

  lemma OldestBatchPrunes(rows: set<Row>, batch: set<Row>, trigger: Trigger)
    requires IsOldest(batch, Triggered(rows, trigger), PRUNE_BATCH_SIZE)
    ensures PrunedOldest(rows, rows - batch, trigger) && |rows - batch| == |rows| - |batch|
  {
    assert Triggered(rows - batch, trigger) == Triggered(rows, trigger) - batch;
    assert rows - (rows - batch) == batch && rows == (rows - batch) + batch;
  }

  lemma PrunesMore(before: set<Row>, middle: set<Row>, after: set<Row>, trigger: Trigger)
    requires PrunedOldest(before, middle, trigger) && PrunedOldest(middle, after, trigger)
    ensures PrunedOldest(before, after, trigger)
  {
    assert before - after == (before - middle) + (middle - after);
    assert Triggered(after, trigger) <= Triggered(middle, trigger);
  }

  lemma PeriodicThenIncidents(before: set<Row>, middle: set<Row>, after: set<Row>)
    requires PrunedOldest(before, middle, Periodic)
    requires after == middle || (Triggered(middle, Periodic) == {} && PrunedOldest(middle, after, Incident))
    ensures PrunedInOrder(before, after)
  {
    forall trigger: Trigger
      ensures NoneOlder(Triggered(after, trigger), Triggered(before - after, trigger))
    {
      assert trigger == Periodic || trigger == Incident;
      assert before - after == (before - middle) + (middle - after);
      if trigger == Periodic {
        assert Triggered(before - after, Periodic) == before - middle;
      } else {
        assert Triggered(before - after, Incident) == middle - after;
      }
    }
  }

  lemma Shrinks(before: set<Row>, after: set<Row>, matching: set<Row>)
    requires matching <= before
    requires exists batch :: batch <= matching && batch != {} && after == before - batch
    ensures |after| < |before|
  {
    var batch :| batch <= matching && batch != {} && after == before - batch;
    assert before == after + batch;
  }

  // ----- What pruning leaves

  /** With at least one row allowed and more incidents than that, those that stay are at least as many as allowed, and
      exactly as many if and only if the next newest incident is strictly older than the last one kept. */
  lemma IncidentsLeft(rows: set<Row>, maxRows: nat, cutoff: int) returns (next: int)
    requires maxRows >= 1 && |Triggered(rows, Incident)| > maxRows
    requires IsTimeAtRank(Triggered(rows, Incident), maxRows - 1, cutoff)
    ensures IsTimeAtRank(Triggered(rows, Incident), maxRows, next) && next <= cutoff
    ensures var left := Triggered(rows - Excess(rows, cutoff), Incident);
            && left == AtLeast(Triggered(rows, Incident), cutoff) && |left| >= maxRows
            && (|left| == maxRows <==> next < cutoff)
  {
    var incidents := Triggered(rows, Incident);
    next := TimeAtRank(incidents, maxRows);
    assert Triggered(rows - Excess(rows, cutoff), Incident) == AtLeast(incidents, cutoff);
    if next > cutoff {
      SubsetIsNotLarger(AtLeast(incidents, next), Newer(incidents, cutoff));
    } else if next < cutoff {
      SubsetIsNotLarger(AtLeast(incidents, cutoff), Newer(incidents, next));
    }
  }

  /** What goes is the incidents captured before the cutoff. */
  lemma ExcessIsOlderIncidents(rows: set<Row>, cutoff: int, row: Row)
    ensures row in rows - Excess(rows, cutoff) <==>
      row in rows && (row.snapshot.trigger == Periodic || row.snapshot.capturedAt >= cutoff)
  {
  }

  /** Two incidents of the same time both stay under a cap of one. */
  lemma TiedIncidentsStay() returns (rows: set<Row>, cutoff: int)
    ensures |Triggered(rows, Incident)| == 2 && IsTimeAtRank(Triggered(rows, Incident), 0, cutoff)
    ensures rows - Excess(rows, cutoff) == rows
  {
    var a, b := Row(0, Snapshot([], 7, Incident)), Row(1, Snapshot([], 7, Incident));
    rows, cutoff := {a, b}, 7;
    assert Triggered(rows, Incident) == rows && Newer(rows, 7) == {} && AtLeast(rows, 7) == rows;
  }

  /** Distinct times leave exactly maxRows incidents. */
  lemma DistinctTimesLeaveMaxRows(rows: set<Row>, maxRows: nat, cutoff: int)
    requires maxRows >= 1 && |Triggered(rows, Incident)| > maxRows
    requires IsTimeAtRank(Triggered(rows, Incident), maxRows - 1, cutoff)
    requires forall a, b :: a in Triggered(rows, Incident) && b in Triggered(rows, Incident) && Time(a) == Time(b)
               ==> a == b
    ensures |Triggered(rows - Excess(rows, cutoff), Incident)| == maxRows
  {
    var incidents := Triggered(rows, Incident);
    var next := IncidentsLeft(rows, maxRows, cutoff);
    if AtLeast(incidents, cutoff) <= Newer(incidents, cutoff) {
      SubsetIsNotLarger(AtLeast(incidents, cutoff), Newer(incidents, cutoff));
    }
    var row :| row in AtLeast(incidents, cutoff) && row !in Newer(incidents, cutoff);
    assert AtLeast(incidents, cutoff) == Newer(incidents, cutoff) + {row};
  }

  /** A cap of zero does not empty the table: the newest incidents stay. */
  lemma ZeroKeepsNewest(rows: set<Row>, cutoff: int)
    requires Triggered(rows, Incident) != {} && IsTimeAtRank(Triggered(rows, Incident), Offset(0), cutoff)
    ensures var left := Triggered(rows - Excess(rows, cutoff), Incident);
            left != {} && forall a, b :: a in left && b in Triggered(rows, Incident) ==> Time(b) <= Time(a)
  {
    var incidents := Triggered(rows, Incident);
    assert Triggered(rows - Excess(rows, cutoff), Incident) == AtLeast(incidents, cutoff);
    forall b | b in incidents
      ensures Time(b) <= cutoff
    {
      assert b !in Newer(incidents, cutoff);
    }
  }
}
