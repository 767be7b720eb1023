/** go/cmd/loadgen/main.go as a row-locking protocol. One step is one database event of one worker: begin, a
    granted row lock, an end of transaction. A worker whose next row is locked by another one waits; PostgreSQL lets
    one waiter per row wait for the row's owner, and makes all others wait for that first waiter. */
module LoadGenerator {

  // ----- Which rows a worker updates

  const MAX_SESSIONS := 250
  const HOT_ROW_COUNT := 5
  const CHAIN_ROW_COUNT := 40
  const HOT_ROWS_START := 1
  const CHAIN_ROWS_START := HOT_ROWS_START + HOT_ROW_COUNT
  const INDEPENDENT_ROWS_START := CHAIN_ROWS_START + CHAIN_ROW_COUNT
  const INDEPENDENT_ROW_COUNT := MAX_SESSIONS

  predicate IsHub(id: nat) { id % 5 == 0 || id % 5 == 1 }

  predicate IsChain(id: nat) { id % 5 == 2 || id % 5 == 3 }

  predicate IsIndependent(id: nat) { id % 5 == 4 }

  function HotRow(id: nat): nat { HOT_ROWS_START + (id / 5) % HOT_ROW_COUNT }

  function HomeRow(id: nat): nat { CHAIN_ROWS_START + id % CHAIN_ROW_COUNT }

  function NextRow(id: nat): nat { CHAIN_ROWS_START + (id + 1) % CHAIN_ROW_COUNT }

  function IndependentRow(id: nat): nat { INDEPENDENT_ROWS_START + id % INDEPENDENT_ROW_COUNT }

  /** The rows one operation locks, in order. */
  function Plan(id: nat): seq<nat>
  {
    if IsHub(id) then [HotRow(id)]
    else if IsChain(id) then [HomeRow(id), NextRow(id)]
    else [IndependentRow(id)]
  }

  /** The three row ranges do not meet, and chain rows never wrap round: a chain worker's second row is the one
      after its first. */
  lemma PlanRanges(id: nat)
    ensures IsHub(id) ==> HOT_ROWS_START <= HotRow(id) < CHAIN_ROWS_START
    ensures IsChain(id) ==>
      CHAIN_ROWS_START <= HomeRow(id) < NextRow(id) == HomeRow(id) + 1 < INDEPENDENT_ROWS_START
    ensures IsChain(id) ==> (HomeRow(id) - CHAIN_ROWS_START) % 5 == id % 5
    ensures IsIndependent(id) ==> INDEPENDENT_ROWS_START <= IndependentRow(id)
  {
    if IsChain(id) {
      ChainRowsNeverWrap(id);
    }
  }

  lemma ChainRowsNeverWrap(id: nat)
    requires id % 5 < 4
    ensures id % CHAIN_ROW_COUNT % 5 == id % 5 && (id + 1) % CHAIN_ROW_COUNT == id % CHAIN_ROW_COUNT + 1
  {
    var q, r := id / CHAIN_ROW_COUNT, id % CHAIN_ROW_COUNT;
    assert id == CHAIN_ROW_COUNT * q + r;
    Fifths(8 * q, r);
    Fortieths(q, r + 1);
  }

  lemma Fifths(x: nat, r: nat)
    ensures (5 * x + r) % 5 == r % 5
  {
  }

  lemma Fortieths(q: nat, r: nat)
    requires r < CHAIN_ROW_COUNT
    ensures (CHAIN_ROW_COUNT * q + r) % CHAIN_ROW_COUNT == r
  {
  }

  lemma PlanIsDistinct(id: nat)
    ensures 1 <= |Plan(id)| <= 2 && (|Plan(id)| == 2 ==> IsChain(id) && Plan(id)[0] < Plan(id)[1])
  {
    PlanRanges(id);
  }

  // ----- The protocol

  /** One spawned goroutine; several may run with the same worker id, from overlapping runs. */
  type Worker = nat

  datatype Phase =
    | Idle                      // between transactions
    | Acquiring(held: nat)      // holds the first `held` rows of its plan, has asked for the next
    | Holding                   // holds its whole plan, until the transaction ends

  /** `owner` has the row locks; `first` has, for rows with waiters in line, the one first in line. */
  datatype State = State(ids: map<Worker, nat>, phases: map<Worker, Phase>,
                         owner: map<nat, Worker>, first: map<nat, Worker>)

  const INITIAL := State(map[], map[], map[], map[])

  predicate Coherent(s: State)
  {
    s.ids.Keys == s.phases.Keys
  }

  function Held(id: nat, phase: Phase): nat
  {
    match phase
    case Idle => 0
    case Acquiring(held) => held
    case Holding => |Plan(id)|
  }

  predicate Wants(s: State, w: Worker, row: nat)
    requires Coherent(s)
  {
    && w in s.ids && s.phases[w].Acquiring? && s.phases[w].held < |Plan(s.ids[w])|
    && Plan(s.ids[w])[s.phases[w].held] == row
  }

  function Released(rows: map<nat, Worker>, w: Worker): map<nat, Worker>
  {
    map row | row in rows && rows[row] != w :: rows[row]
  }

  datatype Event =
    | Spawn(w: Worker, id: nat)   // POST /run starts a goroutine
    | Begin(w: Worker)            // the transaction begins and asks for its first row
    | Line(w: Worker, row: nat)   // the row asked for has another owner and nobody in line: first in line
    | Grant(w: Worker, row: nat)  // the row asked for is free or already its own
    | End(w: Worker)              // commit, rollback, or a failed statement: every lock and place in line goes
    | Return(w: Worker)           // the worker's context is done

  predicate Enabled(s: State, e: Event)
    requires Coherent(s)
  {
    match e
    case Spawn(w, _) => w !in s.ids
    case Begin(w) => w in s.ids && s.phases[w].Idle?
    case Line(w, row) => Wants(s, w, row) && row in s.owner && s.owner[row] != w && row !in s.first
    case Grant(w, row) => Wants(s, w, row) && (row !in s.owner || s.owner[row] == w)
    case End(w) => w in s.ids && !s.phases[w].Idle?
    case Return(w) => w in s.ids && s.phases[w].Idle?
  }

  function After(s: State, e: Event): (s': State)
    requires Coherent(s) && Enabled(s, e)
    ensures Coherent(s')
  {
    match e
    case Spawn(w, id) => s.(ids := s.ids[w := id], phases := s.phases[w := Idle])
    case Begin(w) => s.(phases := s.phases[w := Acquiring(0)])
    case Line(w, row) => s.(first := s.first[row := w])
    case Grant(w, row) =>
      var held := s.phases[w].held;
      var phase := if held + 1 == |Plan(s.ids[w])| then Holding else Acquiring(held + 1);
      State(s.ids, s.phases[w := phase], s.owner[row := w], Released(s.first, w))
    case End(w) => State(s.ids, s.phases[w := Idle], Released(s.owner, w), Released(s.first, w))
    case Return(w) => s.(ids := s.ids - {w}, phases := s.phases - {w})
  }

  /** Every interleaving of the workers' events, from no workers at all. */
  ghost predicate IsRun(events: seq<Event>, states: seq<State>)
  {
    && |states| == |events| + 1 && states[0] == INITIAL
    && forall i :: 0 <= i < |events| ==>
         Coherent(states[i]) && Enabled(states[i], events[i]) && states[i + 1] == After(states[i], events[i])
  }

  ghost predicate Reachable(s: State)
  {
    exists events, states :: IsRun(events, states) && states[|events|] == s
  }

  // ----- What every step keeps

  predicate HoldsPrefix(s: State, w: Worker)
    requires Coherent(s) && w in s.ids
  {
    var plan, held := Plan(s.ids[w]), Held(s.ids[w], s.phases[w]);
    && (s.phases[w].Acquiring? ==> held < |plan|)
    && forall k :: 0 <= k < held ==> plan[k] in s.owner && s.owner[plan[k]] == w
  }

  predicate InPrefix(row: nat, plan: seq<nat>, n: nat)
  {
    exists k :: 0 <= k < n && k < |plan| && plan[k] == row
  }

  predicate OwnedByHolder(s: State, row: nat)
    requires Coherent(s) && row in s.owner
  {
    var w := s.owner[row];
    w in s.ids && InPrefix(row, Plan(s.ids[w]), Held(s.ids[w], s.phases[w]))
  }

  /** A lock has one owner, a worker owns exactly the rows its phase says, a prefix of its plan, and who is first in
      line for a row has asked for it. */
  predicate LocksMatchPhases(s: State)
  {
    && Coherent(s)
    && (forall w :: w in s.ids ==> HoldsPrefix(s, w))
    && (forall row :: row in s.owner ==> OwnedByHolder(s, row))
    && (forall row :: row in s.first ==> Wants(s, s.first[row], row))
  }

  lemma StepKeepsLocks(s: State, e: Event)
    requires LocksMatchPhases(s) && Enabled(s, e)
    ensures LocksMatchPhases(After(s, e))
  {
    if e.Spawn? || e.Line? {
      JoinKeepsLocks(s, e);
    } else if e.Begin? {
      BeginKeepsLocks(s, e.w);
    } else if e.Grant? {
      GrantKeepsLocks(s, e.w, e.row);
    } else if e.End? {
      EndKeepsLocks(s, e.w);
    } else {
      ReturnKeepsLocks(s, e.w);
    }
  }

  lemma JoinKeepsLocks(s: State, e: Event)
    requires LocksMatchPhases(s) && Enabled(s, e) && (e.Spawn? || e.Line?)
    ensures LocksMatchPhases(After(s, e))
  {
    var t := After(s, e);
    forall v | v in t.ids
      ensures HoldsPrefix(t, v)
    {
      assert v in s.ids ==> HoldsPrefix(s, v);
    }
    forall row | row in t.owner
      ensures OwnedByHolder(t, row)
    {
      assert OwnedByHolder(s, row);
    }
  }

  lemma BeginKeepsLocks(s: State, w: Worker)
    requires LocksMatchPhases(s) && Enabled(s, Begin(w))
    ensures LocksMatchPhases(After(s, Begin(w)))
  {
    PlanIsDistinct(s.ids[w]);
    var t := After(s, Begin(w));
    forall v | v in t.ids
      ensures HoldsPrefix(t, v)
    {
      assert HoldsPrefix(s, v);
    }
  }

  lemma GrantKeepsLocks(s: State, w: Worker, row: nat)
    requires LocksMatchPhases(s) && Enabled(s, Grant(w, row))
    ensures LocksMatchPhases(After(s, Grant(w, row)))
  {
    var t := After(s, Grant(w, row));
    forall v | v in t.ids
      ensures HoldsPrefix(t, v)
    {
      GrantKeepsHolder(s, w, row, v);
    }
    forall r | r in t.owner
      ensures OwnedByHolder(t, r)
    {
      GrantKeepsOwner(s, w, row, r);
    }
  }

  lemma GrantKeepsHolder(s: State, w: Worker, row: nat, v: Worker)
    requires LocksMatchPhases(s) && Enabled(s, Grant(w, row)) && v in s.ids
    ensures HoldsPrefix(After(s, Grant(w, row)), v)
  {
    hide Plan;
    assert HoldsPrefix(s, v);
  }

  lemma GrantKeepsOwner(s: State, w: Worker, row: nat, r: nat)
    requires LocksMatchPhases(s) && Enabled(s, Grant(w, row)) && r in After(s, Grant(w, row)).owner
    ensures OwnedByHolder(After(s, Grant(w, row)), r)
  {
    var plan, held := Plan(s.ids[w]), s.phases[w].held;
    assert plan[held] == row;
    if r != row {
      assert OwnedByHolder(s, r);
    }
  }

  lemma EndKeepsLocks(s: State, w: Worker)
    requires LocksMatchPhases(s) && Enabled(s, End(w))
    ensures LocksMatchPhases(After(s, End(w)))
  {
    hide Plan;
    var t := After(s, End(w));
    forall v | v in t.ids
      ensures HoldsPrefix(t, v)
    {
      assert HoldsPrefix(s, v);
    }
    forall row | row in t.owner
      ensures OwnedByHolder(t, row)
    {
      assert OwnedByHolder(s, row);
    }
  }

  lemma ReturnKeepsLocks(s: State, w: Worker)
    requires LocksMatchPhases(s) && Enabled(s, Return(w))
    ensures LocksMatchPhases(After(s, Return(w)))
  {
    var t := After(s, Return(w));
    forall v | v in t.ids
      ensures HoldsPrefix(t, v)
    {
      assert HoldsPrefix(s, v);
    }
    forall row | row in t.owner
      ensures OwnedByHolder(t, row)
    {
      assert OwnedByHolder(s, row);
    }
  }

  lemma {:induction false} RunsKeepLocks(events: seq<Event>, states: seq<State>, i: nat)
    requires IsRun(events, states) && i < |states|
    ensures LocksMatchPhases(states[i])
  {
    if i > 0 {
      RunsKeepLocks(events, states, i - 1);
      StepKeepsLocks(states[i - 1], events[i - 1]);
    }
  }

  lemma ReachableStatesMatch(s: State)
    requires Reachable(s)
    ensures LocksMatchPhases(s)
  {
    var events, states :| IsRun(events, states) && states[|events|] == s;
    RunsKeepLocks(events, states, |events|);
  }

  // ----- The wait-for graph

  /** w has asked for a row that v has locked. */
  predicate WaitsForOwner(s: State, w: Worker, v: Worker)
    requires Coherent(s)
  {
    w != v && exists row :: row in s.owner && s.owner[row] == v && Wants(s, w, row)
  }

  /** w has asked for a row that v is first in line for. */
  predicate WaitsInLine(s: State, w: Worker, v: Worker)
    requires Coherent(s)
  {
    w != v && exists row :: row in s.first && s.first[row] == v && Wants(s, w, row)
  }

  /** Either way: every wait of the database is one of these. */
  predicate WaitsFor(s: State, w: Worker, v: Worker)
    requires Coherent(s)
  {
    WaitsForOwner(s, w, v) || WaitsInLine(s, w, v)
  }

  ghost predicate IsOwnerChain(s: State, chain: seq<Worker>)
    requires Coherent(s)
  {
    |chain| > 0 && forall i :: 0 <= i < |chain| - 1 ==> WaitsForOwner(s, chain[i], chain[i + 1])
  }

  ghost predicate IsWaitChain(s: State, chain: seq<Worker>)
    requires Coherent(s)
  {
    |chain| > 0 && forall i :: 0 <= i < |chain| - 1 ==> WaitsFor(s, chain[i], chain[i + 1])
  }

  /** Who is waited for while still acquiring a row is a chain worker that holds its home row and nothing else. */
  lemma AcquiringHolder(s: State, w: Worker, v: Worker)
    requires LocksMatchPhases(s) && WaitsForOwner(s, w, v) && s.phases[v].Acquiring?
    ensures IsChain(s.ids[v]) && s.phases[v].held == 1 && Wants(s, w, HomeRow(s.ids[v]))
  {
    PlanIsDistinct(s.ids[v]);
    var row :| row in s.owner && s.owner[row] == v && Wants(s, w, row);
    assert OwnedByHolder(s, row) && HoldsPrefix(s, v);
  }

  /** The last of three neighbouring chain rows is only ever locked by who holds the row before it. */
  lemma LastRowIsPrivate(s: State, c: Worker)
    requires LocksMatchPhases(s) && c in s.ids && s.ids[c] % 5 == 3 && Held(s.ids[c], s.phases[c]) >= 1
    ensures NextRow(s.ids[c]) in s.owner ==> s.owner[NextRow(s.ids[c])] == c
    ensures forall d :: Wants(s, d, NextRow(s.ids[c])) ==> d == c
  {
    var row := NextRow(s.ids[c]);
    assert HoldsPrefix(s, c);
    PlanRanges(s.ids[c]);
    if row in s.owner {
      assert OwnedByHolder(s, row) && HoldsPrefix(s, s.owner[row]);
      NextRowIsLast(s.ids[c], s.ids[s.owner[row]]);
    }
    forall d | Wants(s, d, row)
      ensures d == c
    {
      assert HoldsPrefix(s, d);
      NextRowIsLast(s.ids[c], s.ids[d]);
    }
  }

  /** The last of three chain rows is nobody's first row: whoever asks for it takes the row before it first. */
  lemma NextRowIsLast(id: nat, other: nat)
    requires id % 5 == 3 && NextRow(id) in Plan(other)
    ensures |Plan(other)| == 2 && Plan(other)[0] == HomeRow(id) && Plan(other)[1] == NextRow(id)
  {
    PlanRanges(id);
    PlanRanges(other);
  }

  /** How far a worker is from the last row anyone can wait for: a row's owner is always nearer than who wants it. */
  function Distance(s: State, w: Worker): nat
    requires Coherent(s) && w in s.ids
  {
    if !s.phases[w].Acquiring? || (s.ids[w] % 5 == 3 && s.phases[w].held == 1) then 0
    else if s.ids[w] % 5 == 2 && s.phases[w].held == 0 then 2
    else 1
  }

  /** The same with the lines in front of the rows: two per row, one less for who is first in line. */
  function LineDistance(s: State, w: Worker): nat
    requires Coherent(s) && w in s.ids
  {
    if Distance(s, w) == 0 then 0 else 2 * Distance(s, w) - if w in s.first.Values then 1 else 0
  }

  /** A chain worker that holds its home row and lacks the last of three rows never waits. */
  lemma LastWaitsForNobody(s: State, c: Worker, v: Worker)
    requires LocksMatchPhases(s) && WaitsFor(s, c, v)
    ensures Distance(s, c) > 0
  {
    if s.ids[c] % 5 == 3 && s.phases[c].held == 1 {
      LastRowIsPrivate(s, c);
    }
  }

  lemma WaitedForIsBusy(s: State, w: Worker, v: Worker)
    requires LocksMatchPhases(s) && WaitsFor(s, w, v)
    ensures v in s.ids && !s.phases[v].Idle?
  {
    if WaitsForOwner(s, w, v) {
      var row :| row in s.owner && s.owner[row] == v && Wants(s, w, row);
      assert OwnedByHolder(s, row);
    }
  }

  lemma OwnerIsNearer(s: State, w: Worker, v: Worker)
    requires LocksMatchPhases(s) && WaitsForOwner(s, w, v)
    ensures v in s.ids && Distance(s, v) < Distance(s, w)
  {
    LastWaitsForNobody(s, w, v);
    WaitedForIsBusy(s, w, v);
    if s.phases[v].Acquiring? {
      AcquiringHolder(s, w, v);
      if s.ids[v] % 5 == 2 {
        HomeRowWanted(s, w, s.ids[v]);
      }
    }
  }

  /** The first of three chain rows is only ever asked for as a home row, by workers that hold nothing. */
  lemma HomeRowWanted(s: State, w: Worker, id: nat)
    requires LocksMatchPhases(s) && id % 5 == 2 && Wants(s, w, HomeRow(id))
    ensures Distance(s, w) == 2
  {
    PlanRanges(id);
    PlanRanges(s.ids[w]);
  }

  /** All who want one row are equally far. */
  lemma SameRowSameDistance(s: State, w: Worker, v: Worker, row: nat)
    requires LocksMatchPhases(s) && Wants(s, w, row) && Wants(s, v, row)
    ensures Distance(s, v) == Distance(s, w)
  {
    PlanRanges(s.ids[w]);
    PlanRanges(s.ids[v]);
  }

  lemma WaitsDescend(s: State, w: Worker, v: Worker)
    requires LocksMatchPhases(s) && WaitsFor(s, w, v)
    ensures w in s.ids && v in s.ids && LineDistance(s, v) < LineDistance(s, w)
  {
    LastWaitsForNobody(s, w, v);
    if WaitsForOwner(s, w, v) {
      OwnerIsNearer(s, w, v);
    } else {
      var row :| row in s.first && s.first[row] == v && Wants(s, w, row);
      assert v in s.first.Values;
      SameRowSameDistance(s, w, v, row);
      OneFirst(s, w, row);
    }
  }

  /** Who is first in line anywhere is first in line for the row it wants. */
  lemma OneFirst(s: State, w: Worker, row: nat)
    requires LocksMatchPhases(s) && Wants(s, w, row)
    ensures w in s.first.Values ==> row in s.first && s.first[row] == w
  {
    if w in s.first.Values {
      var r :| r in s.first && s.first[r] == w;
      assert Wants(s, w, r);
    }
  }

  lemma {:induction false} OwnerChainDescends(s: State, chain: seq<Worker>, i: nat)
    requires LocksMatchPhases(s) && IsOwnerChain(s, chain) && 0 < i < |chain|
    ensures chain[0] in s.ids && chain[i] in s.ids && Distance(s, chain[i]) + i <= Distance(s, chain[0])
  {
    assert WaitsForOwner(s, chain[i - 1], chain[i]);
    OwnerIsNearer(s, chain[i - 1], chain[i]);
    if i > 1 {
      OwnerChainDescends(s, chain, i - 1);
    }
  }

  lemma {:induction false} WaitChainDescends(s: State, chain: seq<Worker>, i: nat)
    requires LocksMatchPhases(s) && IsWaitChain(s, chain) && 0 < i < |chain|
    ensures chain[0] in s.ids && chain[i] in s.ids && LineDistance(s, chain[i]) + i <= LineDistance(s, chain[0])
  {
    assert WaitsFor(s, chain[i - 1], chain[i]);
    WaitsDescend(s, chain[i - 1], chain[i]);
    if i > 1 {
      WaitChainDescends(s, chain, i - 1);
    }
  }

  /** No chain of workers each waiting for a row of the next is longer than two waits, in any reachable state, however
      many workers run and whatever their ids. */
  lemma OwnerChainsAreShort(s: State, chain: seq<Worker>)
    requires Reachable(s) && Coherent(s) && IsOwnerChain(s, chain)
    ensures |chain| <= 3
  {
    ReachableStatesMatch(s);
    if |chain| > 1 {
      OwnerChainDescends(s, chain, |chain| - 1);
    }
  }

  /** Counting the waits in line too, no wait chain is longer than four waits. */
  lemma WaitChainsAreShort(s: State, chain: seq<Worker>)
    requires Reachable(s) && Coherent(s) && IsWaitChain(s, chain)
    ensures |chain| <= 5
  {
    ReachableStatesMatch(s);
    if |chain| > 1 {
      WaitChainDescends(s, chain, |chain| - 1);
    }
  }

  /** No reachable state is deadlocked: the wait-for graph, waits in line included, has no cycle. */
  lemma NoDeadlock(s: State, cycle: seq<Worker>)
    requires Reachable(s) && Coherent(s) && IsWaitChain(s, cycle) && |cycle| > 1
    ensures cycle[0] != cycle[|cycle| - 1]
  {
    ReachableStatesMatch(s);
    WaitChainDescends(s, cycle, |cycle| - 1);
  }

  ghost predicate WaitsForSomeone(s: State, w: Worker)
    requires Coherent(s)
  {
    exists v :: WaitsFor(s, w, v)
  }

  lemma WaitsBehind(s: State, w: Worker, chain: seq<Worker>)
    requires Coherent(s) && IsWaitChain(s, chain) && WaitsFor(s, w, chain[0])
    ensures chain != [] && IsWaitChain(s, [w] + chain)
  {
    hide WaitsFor;
  }

  lemma WaitsAlone(s: State, w: Worker)
    requires Coherent(s)
    ensures IsWaitChain(s, [w])
  {
  }

  /** As long as a transaction is open, a chain of waits leads from it to one that waits for nobody and can take its row
      or end. */
  lemma {:induction false} SomeoneMoves(s: State, w: Worker) returns (chain: seq<Worker>, e: Event)
    requires LocksMatchPhases(s) && w in s.ids && !s.phases[w].Idle?
    ensures IsWaitChain(s, chain) && chain[0] == w && e.w == chain[|chain| - 1] && !WaitsForSomeone(s, e.w)
    ensures Enabled(s, e) && (e.Grant? || (e.End? && s.phases[e.w].Holding?))
    decreases LineDistance(s, w)
  {
    hide IsWaitChain, WaitsFor, Plan, LineDistance;
    if WaitsForSomeone(s, w) {
      var v :| WaitsFor(s, w, v);
      WaitsDescend(s, w, v);
      WaitedForIsBusy(s, w, v);
      var rest;
      rest, e := SomeoneMoves(s, v);
      WaitsBehind(s, w, rest);
      chain := [w] + rest;
    } else {
      WaitsAlone(s, w);
      chain := [w];
      e := if s.phases[w].Holding? then End(w) else Grant(w, Plan(s.ids[w])[s.phases[w].held]);
      assert HoldsPrefix(s, w);
      WhoWaitsForNobodyMoves(s, w);
    }
  }

  lemma WhoWaitsForNobodyMoves(s: State, w: Worker)
    requires LocksMatchPhases(s) && w in s.ids && !s.phases[w].Idle?
    ensures s.phases[w].Acquiring? ==> s.phases[w].held < |Plan(s.ids[w])|
    ensures s.phases[w].Acquiring? && !WaitsForSomeone(s, w) ==> Enabled(s, Grant(w, Plan(s.ids[w])[s.phases[w].held]))
  {
    assert HoldsPrefix(s, w);
    if s.phases[w].Acquiring? {
      var row := Plan(s.ids[w])[s.phases[w].held];
      if row in s.owner && s.owner[row] != w {
        assert WaitsFor(s, w, s.owner[row]);
      }
    }
  }

  // ----- Who can wait for whom

  lemma WaitSharesRow(s: State, w: Worker, v: Worker)
    requires LocksMatchPhases(s) && WaitsFor(s, w, v)
    ensures v in s.ids && SharesRow(s.ids[w], s.ids[v])
  {
    if WaitsForOwner(s, w, v) {
      var row :| row in s.owner && s.owner[row] == v && Wants(s, w, row);
      assert OwnedByHolder(s, row);
      assert row in Plan(s.ids[w]) && row in Plan(s.ids[v]);
    } else {
      var row :| row in s.first && s.first[row] == v && Wants(s, w, row);
      assert row in Plan(s.ids[w]) && row in Plan(s.ids[v]);
    }
  }

  predicate SharesRow(a: nat, b: nat)
  {
    exists row :: row in Plan(a) && row in Plan(b)
  }

  /** In some reachable state a worker with the first id waits for one with the second. */
  ghost predicate CanWait(a: nat, b: nat)
  {
    exists s, w, v :: Reachable(s) && IsWait(s, w, v, a, b)
  }

  predicate IsWait(s: State, w: Worker, v: Worker, a: nat, b: nat)
  {
    Coherent(s) && w in s.ids && v in s.ids && s.ids[w] == a && s.ids[v] == b && WaitsFor(s, w, v)
  }

  /** For all ids: workers can get to wait for each other if and only if their operations share a row. */
  lemma CanWaitIffRowShared(a: nat, b: nat)
    ensures CanWait(a, b) <==> SharesRow(a, b)
  {
    if CanWait(a, b) {
      var s, w, v :| Reachable(s) && IsWait(s, w, v, a, b);
      ReachableStatesMatch(s);
      WaitSharesRow(s, w, v);
    }
    if SharesRow(a, b) {
      SharedRowMakesWait(a, b);
    }
  }

  /** Hence workers wait only inside their own group, hub workers for their hot row, chain workers for those of the same
      or a neighbouring home row, and an independent worker exactly for the independent workers whose ids differ from
      its own by a multiple of 250. */
  lemma WaitsStayInGroup(a: nat, b: nat)
    ensures a % 5 <= 1 ==> (CanWait(a, b) <==> b % 5 <= 1 && (a / 5) % 5 == (b / 5) % 5)
    ensures 2 <= a % 5 <= 3 ==> (CanWait(a, b) <==> 2 <= b % 5 <= 3 && -1 <= a % 40 - b % 40 <= 1)
    ensures a % 5 == 4 ==> (CanWait(a, b) <==> b % 5 == 4 && a % 250 == b % 250)
  {
    hide CanWait, SharesRow, Plan;
    CanWaitIffRowShared(a, b);
    PlanInNumbers(a);
    PlanInNumbers(b);
    SharesRowOf(a, b);
  }

  /** Which rows an operation locks, in numbers: one of rows 1 to 5, two neighbouring ones of rows 6 to 45, or one of
      rows 46 to 295. */
  lemma PlanInNumbers(id: nat)
    ensures id % 5 <= 1 ==> Plan(id) == [1 + (id / 5) % 5]
    ensures 2 <= id % 5 <= 3 ==> Plan(id) == [6 + id % 40, 7 + id % 40] && id % 40 <= 38
    ensures id % 5 == 4 ==> Plan(id) == [46 + id % 250]
  {
    PlanRanges(id);
  }

  lemma SharesRowOf(a: nat, b: nat)
    ensures 1 <= |Plan(a)| <= 2 && 1 <= |Plan(b)| <= 2
    ensures var p, q := Plan(a), Plan(b);
            SharesRow(a, b) <==>
              p[0] == q[0] || p[0] == q[|q| - 1] || p[|p| - 1] == q[0] || p[|p| - 1] == q[|q| - 1]
  {
    hide Plan;
    var p, q := Plan(a), Plan(b);
    PlanIsDistinct(a);
    PlanIsDistinct(b);
    assert p[0] in p && p[|p| - 1] in p && q[0] in q && q[|q| - 1] in q;
  }

  /** Among independent workers with distinct ids below the session limit, as one run has them, none waits or is waited
      for, whatever hub and chain workers do. */
  lemma IndependentWorkersAreIsolated(s: State, w: Worker, v: Worker)
    requires Reachable(s) && Coherent(s) && WaitsFor(s, w, v)
    requires forall a :: a in s.ids && IsIndependent(s.ids[a]) ==> s.ids[a] < MAX_SESSIONS
    requires forall a, b :: a in s.ids && b in s.ids && IsIndependent(s.ids[a]) && s.ids[a] == s.ids[b] ==> a == b
    ensures w in s.ids && v in s.ids && !IsIndependent(s.ids[w]) && !IsIndependent(s.ids[v])
  {
    ReachableStatesMatch(s);
    WaitSharesRow(s, w, v);
    assert IsWait(s, w, v, s.ids[w], s.ids[v]);
    if IsIndependent(s.ids[w]) || IsIndependent(s.ids[v]) {
      IndependentWaits(s.ids[w], s.ids[v]);
    }
  }

  lemma IndependentWaits(a: nat, b: nat)
    requires CanWait(a, b) && (IsIndependent(a) || IsIndependent(b))
    ensures IsIndependent(a) && IsIndependent(b) && (a < MAX_SESSIONS && b < MAX_SESSIONS ==> a == b)
  {
    hide CanWait, Plan, HotRow, HomeRow;
    WaitsStayInGroup(a, b);
  }

  /** With overlapping runs an independent worker's row is not its own: each run has a worker 4. */
  lemma IndependentWorkersCanWait()
    ensures IsIndependent(4) && CanWait(4, 4)
  {
    WaitsStayInGroup(4, 4);
  }

  // ----- States that are reached

  lemma RunExtends(events: seq<Event>, states: seq<State>, s: State, e: Event)
    requires IsRun(events, states) && states[|events|] == s && Coherent(s) && Enabled(s, e)
    ensures IsRun(events + [e], states + [After(s, e)])
  {
    hide Coherent, Enabled, After;
  }

  lemma ReachableNext(s: State, e: Event)
    requires Reachable(s) && Coherent(s) && Enabled(s, e)
    ensures Reachable(After(s, e))
  {
    var events, states :| IsRun(events, states) && states[|events|] == s;
    RunExtends(events, states, s, e);
    assert (states + [After(s, e)])[|events + [e]|] == After(s, e);
  }

  lemma InitialIsReachable()
    ensures Reachable(INITIAL)
  {
    assert IsRun([], [INITIAL]);
  }

  /** The state in which w has joined with an id and begun. */
  function Begun(s: State, w: Worker, id: nat): State
  {
    s.(ids := s.ids[w := id], phases := s.phases[w := Acquiring(0)])
  }

  lemma BegunIsReachable(s: State, w: Worker, id: nat)
    requires Reachable(s) && Coherent(s) && w !in s.ids
    ensures Reachable(Begun(s, w, id))
  {
    ReachableNext(s, Spawn(w, id));
    var spawned := After(s, Spawn(w, id));
    ReachableNext(spawned, Begin(w));
    assert After(spawned, Begin(w)).phases == Begun(s, w, id).phases;
  }

  /** The state in which w has been granted its k-th row. */
  function Granted(s: State, w: Worker, id: nat, k: nat): State
    requires k < |Plan(id)|
  {
    s.(phases := s.phases[w := if k + 1 == |Plan(id)| then Holding else Acquiring(k + 1)],
       owner := s.owner[Plan(id)[k] := w])
  }

  lemma GrantedIsReachable(s: State, w: Worker, id: nat, k: nat)
    requires Reachable(s) && Coherent(s) && w in s.ids && s.ids[w] == id && s.phases[w] == Acquiring(k)
    requires k < |Plan(id)| && Plan(id)[k] !in s.owner && s.first == map[]
    ensures Reachable(Granted(s, w, id, k)) && Coherent(Granted(s, w, id, k))
  {
    var e := Grant(w, Plan(id)[k]);
    ReachableNext(s, e);
    assert After(s, e).first == map[];
    assert After(s, e) == Granted(s, w, id, k);
  }

  /** A worker that finds all its rows free takes them. */
  lemma PlanTaken(s: State, w: Worker, id: nat) returns (t: State)
    requires Reachable(s) && Coherent(s) && w !in s.ids && s.first == map[]
    requires forall row :: row in Plan(id) ==> row !in s.owner
    ensures Reachable(t) && Coherent(t) && t.ids == s.ids[w := id] && t.phases == s.phases[w := Holding]
    ensures forall row :: row in Plan(id) ==> row in t.owner && t.owner[row] == w
  {
    PlanIsDistinct(id);
    BegunIsReachable(s, w, id);
    t := Begun(s, w, id);
    t := RestTaken(t, w, id, 0);
    assert t.phases == s.phases[w := Holding];
  }

  lemma {:induction false} RestTaken(s: State, w: Worker, id: nat, k: nat) returns (t: State)
    requires Reachable(s) && Coherent(s) && s.first == map[] && k < |Plan(id)|
    requires w in s.ids && s.ids[w] == id && s.phases[w] == Acquiring(k)
    requires forall i :: k <= i < |Plan(id)| ==> Plan(id)[i] !in s.owner
    ensures Reachable(t) && Coherent(t) && t.ids == s.ids && t.phases == s.phases[w := Holding]
    ensures forall i :: k <= i < |Plan(id)| ==> Plan(id)[i] in t.owner && t.owner[Plan(id)[i]] == w
    ensures forall row :: row in s.owner && row !in Plan(id)[k..] ==> row in t.owner && t.owner[row] == s.owner[row]
    decreases |Plan(id)| - k
  {
    hide Plan, Reachable;
    PlanIsDistinct(id);
    GrantedIsReachable(s, w, id, k);
    t := Granted(s, w, id, k);
    if k + 1 < |Plan(id)| {
      var u := RestTaken(t, w, id, k + 1);
      assert u.phases == s.phases[w := Holding];
      t := u;
    }
  }

  /** A worker that has got as far as the first row it shares with another one's operation, the other one not there
      yet. */
  lemma Approaches(a: nat, b: nat) returns (s: State)
    requires SharesRow(a, b)
    ensures Reachable(s) && Coherent(s) && s.ids == map[0 := a] && s.first == map[]
    ensures s.phases[0].Acquiring? && s.phases[0].held < |Plan(a)| && Plan(a)[s.phases[0].held] in Plan(b)
    ensures forall row :: row in Plan(b) ==> row !in s.owner
  {
    PlanIsDistinct(a);
    InitialIsReachable();
    BegunIsReachable(INITIAL, 0, a);
    s := Begun(INITIAL, 0, a);
    if Plan(a)[0] !in Plan(b) {
      GrantedIsReachable(s, 0, a, 0);
      s := Granted(s, 0, a, 0);
    }
  }

  lemma SharedRowMakesWait(a: nat, b: nat)
    requires SharesRow(a, b)
    ensures CanWait(a, b)
  {
    var s := Approaches(a, b);
    var t := PlanTaken(s, 1, b);
    assert Wants(t, 0, Plan(a)[s.phases[0].held]);
    assert IsWait(t, 0, 1, a, b);
  }

  // ----- The bounds are met

  /** The state in which w stands first in line for a row. */
  function Lined(s: State, w: Worker, row: nat): State
  {
    s.(first := s.first[row := w])
  }

  lemma LinedIsReachable(s: State, w: Worker, row: nat)
    requires Reachable(s) && Coherent(s) && Enabled(s, Line(w, row))
    ensures Reachable(Lined(s, w, row))
  {
    ReachableNext(s, Line(w, row));
  }

  /** Workers 2 and 4, with ids 2 and 3, hold their home rows, rows 8 and 9. */
  lemma HomeRowsHeld() returns (s: State)
    ensures Reachable(s)
    ensures s == State(map[4 := 3, 2 := 2], map[4 := Acquiring(1), 2 := Acquiring(1)], map[9 := 4, 8 := 2], map[])
  {
    hide Plan;
    PlansInTheWay();
    InitialIsReachable();
    s := HomeRowTaken(INITIAL, 4, 3, 9);
    s := HomeRowTaken(s, 2, 2, 8);
  }

  /** A chain worker that has taken its home row and not asked for the next yet. */
  lemma HomeRowTaken(s: State, w: Worker, id: nat, row: nat) returns (t: State)
    requires Reachable(s) && Coherent(s) && s.first == map[] && w !in s.ids && row !in s.owner
    requires |Plan(id)| == 2 && Plan(id)[0] == row
    ensures Reachable(t)
    ensures t == State(s.ids[w := id], s.phases[w := Acquiring(1)], s.owner[row := w], map[])
  {
    BegunIsReachable(s, w, id);
    var begun := Begun(s, w, id);
    GrantedIsReachable(begun, w, id, 0);
    t := Granted(begun, w, id, 0);
    assert t.phases == s.phases[w := Acquiring(1)];
  }

  /** A worker joins in front of a held row that nobody stands in line for. */
  lemma LinesUp(s: State, w: Worker, id: nat, row: nat) returns (t: State)
    requires Reachable(s) && Coherent(s) && w !in s.ids
    requires Plan(id)[0] == row && row in s.owner && s.owner[row] != w && row !in s.first
    ensures t == State(s.ids[w := id], s.phases[w := Acquiring(0)], s.owner, s.first[row := w])
    ensures Reachable(t) && Coherent(t)
  {
    BegunIsReachable(s, w, id);
    var begun := Begun(s, w, id);
    LinedIsReachable(begun, w, row);
    t := Lined(begun, w, row);
  }

  /** 82, 42 and 2 want row 8 or hold it, 43 and 3 row 9. */
  const FOUR_WAITS := State(
    map[0 := 82, 1 := 42, 2 := 2, 3 := 43, 4 := 3],
    map[0 := Acquiring(0), 1 := Acquiring(0), 2 := Acquiring(1), 3 := Acquiring(0), 4 := Acquiring(1)],
    map[8 := 2, 9 := 4], map[8 := 1, 9 := 3])

  lemma TwoInLine() returns (s: State)
    ensures Reachable(s) && Coherent(s) && 0 !in s.ids && s.ids.Keys == {1, 2, 3, 4}
    ensures s.ids[4] == 3 && s.ids[3] == 43 && s.ids[2] == 2 && s.ids[1] == 42
    ensures s.phases[4] == s.phases[2] == Acquiring(1) && s.phases[3] == s.phases[1] == Acquiring(0)
    ensures s.owner == FOUR_WAITS.owner && s.first == FOUR_WAITS.first
  {
    hide Reachable, Plan, Enabled, After;
    PlansInTheWay();
    s := OneInLine();
    s := LinesUp(s, 1, 42, 8);
  }

  lemma OneInLine() returns (s: State)
    ensures Reachable(s) && Coherent(s) && s.ids.Keys == {2, 3, 4}
    ensures s.owner == FOUR_WAITS.owner && s.first == map[9 := 3]
    ensures s.ids[4] == 3 && s.ids[3] == 43 && s.ids[2] == 2
    ensures s.phases[4] == s.phases[2] == Acquiring(1) && s.phases[3] == Acquiring(0)
  {
    hide Reachable, Plan, Enabled, After;
    PlansInTheWay();
    s := HomeRowsHeld();
    s := LinesUp(s, 3, 43, 9);
  }

  lemma FourWaitsReached()
    ensures Reachable(FOUR_WAITS)
  {
    var s := TwoInLine();
    BegunIsReachable(s, 0, 82);
    s := Begun(s, 0, 82);
    assert s.ids == FOUR_WAITS.ids;
    assert s.phases == FOUR_WAITS.phases;
  }

  lemma PlansInTheWay()
    ensures Plan(82) == Plan(42) == Plan(2) == [8, 9] && Plan(43) == Plan(3) == [9, 10]
  {
  }

  lemma WhatFourWant()
    ensures Wants(FOUR_WAITS, 0, 8) && Wants(FOUR_WAITS, 1, 8) && Wants(FOUR_WAITS, 2, 9) && Wants(FOUR_WAITS, 3, 9)
  {
    hide Plan;
    PlansInTheWay();
  }

  lemma FourWait()
    ensures WaitsInLine(FOUR_WAITS, 0, 1) && WaitsForOwner(FOUR_WAITS, 1, 2)
    ensures WaitsInLine(FOUR_WAITS, 2, 3) && WaitsForOwner(FOUR_WAITS, 3, 4) && WaitsForOwner(FOUR_WAITS, 2, 4)
  {
    WhatFourWant();
  }

  /** Both bounds are met within one run: 82 stands in line behind 42, 42 waits for 2 to free row 8, 2 stands in line
      behind 43, and 43 waits for 3 to free row 9; and 42, 2 and 3 are two waits for owners. */
  lemma FourWaitsHappen()
    ensures Reachable(FOUR_WAITS) && IsWaitChain(FOUR_WAITS, [0, 1, 2, 3, 4]) && IsOwnerChain(FOUR_WAITS, [1, 2, 4])
  {
    hide Reachable, WaitsForOwner, WaitsInLine, Coherent;
    FourWaitsReached();
    FourWait();
  }
}
