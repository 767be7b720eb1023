/** The snapshots table of the SQLite history store as a set of rows, and what its ORDER BY and LIMIT may pick. */
module HistoryTable {
  import opened Sets
  import opened Snapshots

  /** captured_at and trigger are columns of their own; Append fills them from the snapshot. */
  datatype Row = Row(id: nat, snapshot: Snapshot)

  function Time(row: Row): int { row.snapshot.capturedAt }

  predicate Has(row: Row, trigger: Trigger) { row.snapshot.trigger == trigger }

  function Triggered(rows: set<Row>, trigger: Trigger): set<Row>
  {
    set row | row in rows && Has(row, trigger)
  }

  function Min(a: nat, b: nat): nat { if a < b then a else b }

  // ----- LIMIT without ORDER BY

  /** Some rows, as many as the limit allows. */
  predicate IsLimited(batch: set<Row>, matching: set<Row>, limit: nat)
  {
    batch <= matching && |batch| == Min(limit, |matching|)
  }

  lemma {:induction false} SomeBatch(matching: set<Row>, limit: nat) returns (batch: set<Row>)
    ensures IsLimited(batch, matching, limit)
  {
    if limit == 0 || matching == {} {
      batch := {};
    } else {
      var row :| row in matching;
      batch := SomeBatch(matching - {row}, limit - 1);
      batch := batch + {row};
    }
  }

  // ----- ORDER BY captured_at

  lemma {:induction false} OldestRow(rows: set<Row>) returns (oldest: Row)
    requires rows != {}
    ensures oldest in rows && forall row :: row in rows ==> Time(oldest) <= Time(row)
  {
    oldest :| oldest in rows;
    if rows != {oldest} {
      var other := OldestRow(rows - {oldest});
      if Time(other) < Time(oldest) {
        oldest := other;
      }
    }
  }

  lemma {:induction false} NewestRow(rows: set<Row>) returns (newest: Row)
    requires rows != {}
    ensures newest in rows && forall row :: row in rows ==> Time(row) <= Time(newest)
  {
    newest :| newest in rows;
    if rows != {newest} {
      var other := NewestRow(rows - {newest});
      if Time(newest) < Time(other) {
        newest := other;
      }
    }
  }

  /** The oldest rows, as many as the limit allows, ties broken in any way. */
  predicate IsOldest(batch: set<Row>, matching: set<Row>, limit: nat)
  {
    IsLimited(batch, matching, limit) && NoneOlder(matching - batch, batch)
  }

  /** No row that stays is older than a row that goes. */
  predicate NoneOlder(staying: set<Row>, going: set<Row>)
  {
    forall s, g :: s in staying && g in going ==> Time(g) <= Time(s)
  }

  lemma {:induction false} OldestBatch(matching: set<Row>, limit: nat) returns (batch: set<Row>)
    ensures IsOldest(batch, matching, limit)
  {
    if limit == 0 || matching == {} {
      batch := {};
    } else {
      var row := OldestRow(matching);
      var others := OldestBatch(matching - {row}, limit - 1);
      batch := others + {row};
      assert matching - batch == matching - {row} - others;
    }
  }

  /** All the rows, each once, oldest first, ties in any order. */
  predicate InTimeOrder(ordered: seq<Row>, rows: set<Row>)
  {
    && (forall row :: row in ordered ==> row in rows)
    && (forall row :: row in rows ==> row in ordered)
    && (forall i, j :: 0 <= i < j < |ordered| ==> ordered[i] != ordered[j] && Time(ordered[i]) <= Time(ordered[j]))
  }

  lemma {:induction false} TimeOrder(rows: set<Row>) returns (ordered: seq<Row>)
    ensures InTimeOrder(ordered, rows) && |ordered| == |rows|
  {
    if rows == {} {
      ordered := [];
    } else {
      var newest := NewestRow(rows);
      var others := TimeOrder(rows - {newest});
      ordered := others + [newest];
    }
  }

  // ----- ORDER BY captured_at DESC LIMIT 1 OFFSET k

  function Newer(rows: set<Row>, time: int): set<Row>
  {
    set row | row in rows && Time(row) > time
  }

  function AtLeast(rows: set<Row>, time: int): set<Row>
  {
    set row | row in rows && Time(row) >= time
  }

  /** The time of the row at offset k when the newest row comes first: at most k rows are newer, more than k are at
      least as new. */
  predicate IsTimeAtRank(rows: set<Row>, k: nat, time: int)
  {
    |Newer(rows, time)| <= k < |AtLeast(rows, time)|
  }

  lemma {:induction false} TimeAtRank(rows: set<Row>, k: nat) returns (time: int)
    requires k < |rows|
    ensures IsTimeAtRank(rows, k, time)
  {
    var newest := NewestRow(rows);
    if k == 0 {
      time := Time(newest);
      assert Newer(rows, time) == {} && newest in AtLeast(rows, time);
    } else {
      var others := rows - {newest};
      time := TimeAtRank(others, k - 1);
      var row :| row in AtLeast(others, time);
      assert AtLeast(rows, time) == AtLeast(others, time) + {newest};
      assert Newer(rows, time) <= Newer(others, time) + {newest};
      SubsetIsNotLarger(Newer(rows, time), Newer(others, time) + {newest});
    }
  }

  lemma TimeAtRankIsUnique(rows: set<Row>, k: nat, a: int, b: int)
    requires IsTimeAtRank(rows, k, a) && IsTimeAtRank(rows, k, b)
    ensures a == b
  {
    if a < b {
      SubsetIsNotLarger(AtLeast(rows, b), Newer(rows, a));
    } else if b < a {
      SubsetIsNotLarger(AtLeast(rows, a), Newer(rows, b));
    }
  }
}
