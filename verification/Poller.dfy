/** go/internal/application/service/poller.go: what a tick records. A tick's inputs are what the environment
    decides: whether monitoring is on, what the fetch returned, the clock readings, whether the append succeeds. */
module Poller {
  import opened Arithmetic
  import opened Options
  import opened Snapshots
  import opened Sublists

  /** checkedAt, capturedAt and recordedAt are the clock readings taken, in this order, while recording. */
  datatype Tick = Tick(active: bool, fetched: Option<seq<Session>>,
                       checkedAt: int, capturedAt: int, recordedAt: int, appendSucceeds: bool)

  datatype Config = Config(recordInterval: int, maxSessions: nat)

  /** lastRecordedAt is None for the zero time, which lies further back than any interval; history is what the store
      accepted. */
  datatype State = State(previouslyBlocked: map<string, bool>, lastRecordedAt: Option<int>, history: seq<Snapshot>)

  const INITIAL := State(map[], None, [])

  // ----- Classification

  /** Whether each listed session is blocked; of several sessions with one id the last counts. */
  function BlockMapOf(sessions: seq<Session>): map<string, bool>
  {
    if sessions == [] then map[]
    else
      var last := sessions[|sessions| - 1];
      BlockMapOf(sessions[..|sessions| - 1])[last.id := last.IsBlocked()]
  }

  predicate WasBlocked(blocked: map<string, bool>, id: string)
  {
    id in blocked && blocked[id]
  }

  /** Some session is blocked that was not blocked, or did not exist, before. */
  predicate NewlyBlocked(before: map<string, bool>, sessions: seq<Session>)
  {
    exists session :: session in sessions && session.IsBlocked() && !WasBlocked(before, session.id)
  }

  function TriggerOf(before: map<string, bool>, sessions: seq<Session>): Trigger
  {
    if NewlyBlocked(before, sessions) then Incident else Periodic
  }

  lemma OneMoreSession(before: map<string, bool>, sessions: seq<Session>, i: nat)
    requires i < |sessions|
    ensures var s := sessions[i];
            && BlockMapOf(sessions[..i + 1]) == BlockMapOf(sessions[..i])[s.id := s.IsBlocked()]
            && TriggerOf(before, sessions[..i + 1])
               == if s.IsBlocked() && !WasBlocked(before, s.id) then Incident else TriggerOf(before, sessions[..i])
  {
    assert sessions[..i + 1] == sessions[..i] + [sessions[i]] && sessions[..i + 1][..i] == sessions[..i];
    assert sessions[i] in sessions[..i + 1];
  }

  // ----- Trimming

  predicate LongestFirst(sessions: seq<Session>)
  {
    forall i, j :: 0 <= i < j < |sessions| ==> sessions[i].duration >= sessions[j].duration
  }

  predicate IsSorting(sorted: seq<Session>, sessions: seq<Session>)
  {
    multiset(sorted) == multiset(sessions) && LongestFirst(sorted)
  }

  function Insert(session: Session, sorted: seq<Session>): seq<Session>
  {
    if sorted == [] || session.duration >= sorted[0].duration then [session] + sorted
    else [sorted[0]] + Insert(session, sorted[1..])
  }

  lemma {:induction false} InsertAdds(session: Session, sorted: seq<Session>)
    ensures multiset(Insert(session, sorted)) == multiset([session]) + multiset(sorted)
  {
    if sorted != [] && session.duration < sorted[0].duration {
      InsertAdds(session, sorted[1..]);
      assert sorted == [sorted[0]] + sorted[1..];
    }
  }

  lemma {:induction false} InsertHolds(session: Session, sorted: seq<Session>)
    ensures forall s :: s in Insert(session, sorted) ==> s == session || s in sorted
  {
    if sorted != [] && session.duration < sorted[0].duration {
      InsertHolds(session, sorted[1..]);
    }
  }

  lemma {:induction false} InsertSorts(session: Session, sorted: seq<Session>)
    requires LongestFirst(sorted)
    ensures LongestFirst(Insert(session, sorted))
  {
    if sorted != [] && session.duration < sorted[0].duration {
      InsertSorts(session, sorted[1..]);
      InsertHolds(session, sorted[1..]);
      var rest := Insert(session, sorted[1..]);
      forall j | 0 <= j < |rest|
        ensures sorted[0].duration >= rest[j].duration
      {
        assert rest[j] in rest;
      }
    }
  }

  lemma {:induction false} SortingExists(sessions: seq<Session>) returns (sorted: seq<Session>)
    ensures IsSorting(sorted, sessions)
  {
    if sessions == [] {
      sorted := [];
    } else {
      var rest := SortingExists(sessions[1..]);
      sorted := Insert(sessions[0], rest);
      InsertSorts(sessions[0], rest);
      InsertAdds(sessions[0], rest);
      assert sessions == [sessions[0]] + sessions[1..];
    }
  }

  /** The sessions split into those kept, longest-running first, and those left out, none of which ran longer. */
  ghost predicate KeepsLongest(kept: seq<Session>, left: seq<Session>, sessions: seq<Session>)
  {
    && multiset(kept + left) == multiset(sessions) && LongestFirst(kept)
    && forall k, l :: k in kept && l in left ==> k.duration >= l.duration
  }

  /** Incidents and short lists are kept whole; of a long list the longest-running sessions are kept. */
  ghost predicate IsTrimmed(trimmed: seq<Session>, sessions: seq<Session>, trigger: Trigger, maxSessions: nat)
  {
    if trigger == Incident || |sessions| <= maxSessions then trimmed == sessions
    else |trimmed| == maxSessions && exists left :: KeepsLongest(trimmed, left, sessions)
  }

  /** Trimming a periodic snapshot drops sessions only beyond the cap, and none that ran longer than one it keeps; it
      never drops any from an incident. */
  lemma TrimmedKeepsLongest(trimmed: seq<Session>, sessions: seq<Session>, trigger: Trigger, maxSessions: nat)
    requires IsTrimmed(trimmed, sessions, trigger, maxSessions)
    ensures trigger == Incident ==> trimmed == sessions
    ensures trigger == Periodic ==> |trimmed| == if |sessions| < maxSessions then |sessions| else maxSessions
    ensures multiset(trimmed) <= multiset(sessions)
    ensures forall k, l :: k in trimmed && l in multiset(sessions) - multiset(trimmed) ==> k.duration >= l.duration
  {
    if trigger == Periodic && |sessions| > maxSessions {
      var left :| KeepsLongest(trimmed, left, sessions);
      assert multiset(trimmed + left) == multiset(trimmed) + multiset(left);
    }
  }

  method TrimSessions(sessions: seq<Session>, trigger: Trigger, maxSessions: nat) returns (trimmed: seq<Session>)
    ensures IsTrimmed(trimmed, sessions, trigger, maxSessions)
  {
    if trigger != Periodic || |sessions| <= maxSessions {
      return sessions;
    }
    ghost var some := SortingExists(sessions);
    var sorted: seq<Session> :| IsSorting(sorted, sessions);
    SameLength(sorted, sessions);
    trimmed := sorted[..maxSessions];
    FrontKeepsLongest(sorted, sessions, maxSessions);
  }

  lemma SameLength(sorted: seq<Session>, sessions: seq<Session>)
    requires IsSorting(sorted, sessions)
    ensures |sorted| == |sessions|
  {
    assert |multiset(sorted)| == |sorted| && |multiset(sessions)| == |sessions|;
  }

  lemma FrontKeepsLongest(sorted: seq<Session>, sessions: seq<Session>, n: nat)
    requires IsSorting(sorted, sessions) && n <= |sorted|
    ensures KeepsLongest(sorted[..n], sorted[n..], sessions)
  {
    assert sorted[..n] + sorted[n..] == sorted;
  }

  // ----- A tick

  predicate IsDue(s: State, trigger: Trigger, checkedAt: int, recordInterval: int)
  {
    trigger == Incident || s.lastRecordedAt.None? || checkedAt - s.lastRecordedAt.value >= recordInterval
  }

  /** What a tick does to the poller and its store. */
  ghost predicate Ticks(config: Config, s: State, tick: Tick, t: State)
  {
    if !tick.active || tick.fetched.None? then t == s
    else
      var sessions := tick.fetched.value;
      var trigger := TriggerOf(s.previouslyBlocked, sessions);
      && t.previouslyBlocked == BlockMapOf(sessions)
      && if IsDue(s, trigger, tick.checkedAt, config.recordInterval) && tick.appendSucceeds
         then Records(config, s, tick, t, trigger)
         else t.lastRecordedAt == s.lastRecordedAt && t.history == s.history
  }

  ghost predicate Records(config: Config, s: State, tick: Tick, t: State, trigger: Trigger)
    requires tick.fetched.Some?
  {
    && |t.history| == |s.history| + 1 && t.history[..|s.history|] == s.history
    && t.history[|s.history|].trigger == trigger && t.history[|s.history|].capturedAt == tick.capturedAt
    && IsTrimmed(t.history[|s.history|].sessions, tick.fetched.value, trigger, config.maxSessions)
    && t.lastRecordedAt == Some(tick.recordedAt)
  }

  class Poller {
    const config: Config
    var previouslyBlocked: map<string, bool>
    var lastRecordedAt: Option<int>
    var history: seq<Snapshot>

    ghost function Now(): State
      reads this
    {
      State(previouslyBlocked, lastRecordedAt, history)
    }

    constructor (config: Config)
      ensures this.config == config && Now() == INITIAL
    {
      this.config := config;
      previouslyBlocked, lastRecordedAt, history := map[], None, [];
    }

    method ClassifyTrigger(sessions: seq<Session>) returns (trigger: Trigger)
      modifies this`previouslyBlocked
      ensures trigger == TriggerOf(old(previouslyBlocked), sessions)
      ensures previouslyBlocked == BlockMapOf(sessions)
    {
      var currentlyBlocked: map<string, bool> := map[];
      trigger := Periodic;
      for i := 0 to |sessions|
        invariant previouslyBlocked == old(previouslyBlocked)
        invariant currentlyBlocked == BlockMapOf(sessions[..i])
        invariant trigger == TriggerOf(previouslyBlocked, sessions[..i])
      {
        hide BlockMapOf, TriggerOf;
        var session := sessions[i];
        OneMoreSession(previouslyBlocked, sessions, i);
        var isBlocked := session.IsBlocked();
        currentlyBlocked := currentlyBlocked[session.id := isBlocked];
        if isBlocked && !(session.id in previouslyBlocked && previouslyBlocked[session.id]) {
          trigger := Incident;
        }
      }
      assert sessions[..|sessions|] == sessions;
      previouslyBlocked := currentlyBlocked;
    }

    method MaybeRecordSnapshot(sessions: seq<Session>, tick: Tick)
      requires tick.active && tick.fetched == Some(sessions)
      modifies this
      ensures Ticks(config, old(Now()), tick, Now())
    {
      var trigger := ClassifyTrigger(sessions);
      var isDue := trigger == Incident
        || (lastRecordedAt.None? || tick.checkedAt - lastRecordedAt.value >= config.recordInterval);
      if !isDue {
        return;
      }
      var trimmed := TrimSessions(sessions, trigger, config.maxSessions);
      if !tick.appendSucceeds {
        return;
      }
      history := history + [Snapshot(trimmed, tick.capturedAt, trigger)];
      lastRecordedAt := Some(tick.recordedAt);
    }

    method OnTick(tick: Tick)
      modifies this
      ensures Ticks(config, old(Now()), tick, Now())
    {
      if !tick.active {
        return;
      }
      if tick.fetched.Some? {
        MaybeRecordSnapshot(tick.fetched.value, tick);
      }
    }
  }

  // ----- Whole runs

  /** The poller from its start, its clock never running backwards. */
  ghost predicate IsRun(config: Config, ticks: seq<Tick>, states: seq<State>)
  {
    && |states| == |ticks| + 1 && states[0] == INITIAL
    && (forall i :: 0 <= i < |ticks| ==> Ticks(config, states[i], ticks[i], states[i + 1]))
    && (forall i :: 0 <= i < |ticks| ==> ticks[i].checkedAt <= ticks[i].capturedAt <= ticks[i].recordedAt)
    && (forall i :: 0 < i < |ticks| ==> ticks[i - 1].recordedAt <= ticks[i].checkedAt)
  }

  /** The sessions of the last active tick among the first n whose fetch succeeded, or none. */
  function LastFetched(ticks: seq<Tick>, n: nat): seq<Session>
    requires n <= |ticks|
  {
    if n == 0 then []
    else if ticks[n - 1].active && ticks[n - 1].fetched.Some? then ticks[n - 1].fetched.value
    else LastFetched(ticks, n - 1)
  }

  lemma {:induction false} RemembersLastFetched(config: Config, ticks: seq<Tick>, states: seq<State>, n: nat)
    requires IsRun(config, ticks, states) && n <= |ticks|
    ensures states[n].previouslyBlocked == BlockMapOf(LastFetched(ticks, n))
  {
    if n > 0 {
      RemembersLastFetched(config, ticks, states, n - 1);
      assert Ticks(config, states[n - 1], ticks[n - 1], states[n]);
    }
  }

  /** In any run, a fetched tick whose append succeeds adds one untrimmed incident snapshot exactly when some session is
      blocked now that was not blocked at the last fetched tick before. */
  lemma IncidentIffNewlyBlocked(config: Config, ticks: seq<Tick>, states: seq<State>, n: nat)
    requires IsRun(config, ticks, states) && n < |ticks|
    requires ticks[n].active && ticks[n].fetched.Some? && ticks[n].appendSucceeds
    ensures NewlyBlocked(BlockMapOf(LastFetched(ticks, n)), ticks[n].fetched.value) <==>
      states[n + 1].history == states[n].history + [Snapshot(ticks[n].fetched.value, ticks[n].capturedAt, Incident)]
  {
    var s, t := states[n], states[n + 1];
    RemembersLastFetched(config, ticks, states, n);
    assert Ticks(config, s, ticks[n], t);
    if |t.history| == |s.history| + 1 {
      assert t.history == s.history + [t.history[|s.history|]];
    }
  }

  /** The last session listed with the id is blocked. */
  predicate ListsBlocked(sessions: seq<Session>, id: string)
  {
    exists i :: 0 <= i < |sessions| && sessions[i].id == id && sessions[i].blockedBy != []
             && forall j :: i < j < |sessions| ==> sessions[j].id != id
  }

  /** The remembered map says which sessions were blocked. */
  lemma {:induction false} BlockMapMeansBlocked(sessions: seq<Session>, id: string)
    ensures WasBlocked(BlockMapOf(sessions), id) <==> ListsBlocked(sessions, id)
  {
    if sessions != [] {
      var init, last := sessions[..|sessions| - 1], |sessions| - 1;
      BlockMapMeansBlocked(init, id);
      if sessions[last].id == id {
        assert sessions[last].blockedBy != [] ==> ListsBlocked(sessions, id);
      } else {
        assert ListsBlocked(init, id) <==> ListsBlocked(sessions, id) by {
          assert forall i :: 0 <= i < last ==> init[i] == sessions[i];
        }
      }
    }
  }

  /** With distinct ids that is any session with the id. */
  lemma DistinctIdsAreListedOnce(sessions: seq<Session>, id: string)
    requires forall i, j :: 0 <= i < j < |sessions| ==> sessions[i].id != sessions[j].id
    ensures ListsBlocked(sessions, id) <==> exists s :: s in sessions && s.id == id && s.blockedBy != []
  {
    if s :| s in sessions && s.id == id && s.blockedBy != [] {
      var i :| 0 <= i < |sessions| && sessions[i] == s;
      assert forall j :: i < j < |sessions| ==> sessions[j].id != id;
    }
  }

  predicate Fetches(tick: Tick)
  {
    tick.active && tick.fetched.Some?
  }

  /** An incident is recorded exactly when its append succeeds: in any run, a fetched tick at which some session is
      newly blocked adds the untrimmed incident snapshot if and only if the append succeeds, and nothing otherwise. */
  lemma IncidentRecordedIffAppended(config: Config, ticks: seq<Tick>, states: seq<State>, n: nat)
    requires IsRun(config, ticks, states) && n < |ticks| && Fetches(ticks[n])
    requires NewlyBlocked(BlockMapOf(LastFetched(ticks, n)), ticks[n].fetched.value)
    ensures var before, after := states[n].history, states[n + 1].history;
            && (ticks[n].appendSucceeds <==>
                  after == before + [Snapshot(ticks[n].fetched.value, ticks[n].capturedAt, Incident)])
            && (!ticks[n].appendSucceeds <==> after == before)
  {
    RemembersLastFetched(config, ticks, states, n);
    assert Ticks(config, states[n], ticks[n], states[n + 1]);
    if ticks[n].appendSucceeds {
      IncidentIffNewlyBlocked(config, ticks, states, n);
    }
  }

  /** The tick's fetch lists the id as blocked, if it fetches at all. */
  predicate BlockedAt(tick: Tick, id: string)
  {
    Fetches(tick) ==> WasBlocked(BlockMapOf(tick.fetched.value), id)
  }

  /** A session that was blocked at a fetched tick and at every fetched tick since is remembered as blocked, however
      many ticks were skipped or failed in between and whatever was appended. */
  lemma {:induction false} BlockedSinceIsRemembered(
      config: Config, ticks: seq<Tick>, states: seq<State>, n: nat, m: nat, id: string)
    requires IsRun(config, ticks, states) && n < m <= |ticks| && Fetches(ticks[n])
    requires forall i :: n <= i < m ==> BlockedAt(ticks[i], id)
    ensures WasBlocked(states[m].previouslyBlocked, id)
  {
    assert BlockedAt(ticks[m - 1], id) && Ticks(config, states[m - 1], ticks[m - 1], states[m]);
    if m - 1 > n {
      BlockedSinceIsRemembered(config, ticks, states, n, m - 1, id);
    }
  }

  /** The last snapshot added, if one was, is a periodic one. */
  predicate AddsNoIncident(before: seq<Snapshot>, after: seq<Snapshot>)
  {
    after == before || (|after| == |before| + 1 && after[|before|].trigger == Periodic)
  }

  /** So an incident whose append fails is lost for good: at no later tick do sessions that have been blocked ever since
      make an incident. */
  lemma LostIncidentStaysLost(config: Config, ticks: seq<Tick>, states: seq<State>, n: nat, m: nat)
    requires IsRun(config, ticks, states) && n < m < |ticks| && Fetches(ticks[n]) && Fetches(ticks[m])
    requires forall session, i :: session in ticks[m].fetched.value && session.IsBlocked() && n <= i < m ==>
               BlockedAt(ticks[i], session.id)
    ensures AddsNoIncident(states[m].history, states[m + 1].history)
  {
    var sessions := ticks[m].fetched.value;
    forall session | session in sessions && session.IsBlocked()
      ensures WasBlocked(states[m].previouslyBlocked, session.id)
    {
      BlockedSinceIsRemembered(config, ticks, states, n, m, session.id);
    }
    assert Ticks(config, states[m], ticks[m], states[m + 1]);
  }

  // ----- What every fetched tick records

  /** When the last of the first n ticks that added a snapshot had recorded it. */
  function LastRecording(ticks: seq<Tick>, states: seq<State>, n: nat): Option<int>
    requires n <= |ticks| && |states| == |ticks| + 1
  {
    if n == 0 then None
    else if |states[n].history| > |states[n - 1].history| then Some(ticks[n - 1].recordedAt)
    else LastRecording(ticks, states, n - 1)
  }

  lemma {:induction false} RemembersLastRecording(config: Config, ticks: seq<Tick>, states: seq<State>, n: nat)
    requires IsRun(config, ticks, states) && n <= |ticks|
    ensures states[n].lastRecordedAt == LastRecording(ticks, states, n)
  {
    if n > 0 {
      RemembersLastRecording(config, ticks, states, n - 1);
      assert Ticks(config, states[n - 1], ticks[n - 1], states[n]);
    }
  }

  /** Some session is blocked that the fetch before did not list as blocked. */
  predicate SomeoneIsNewlyBlocked(before: seq<Session>, sessions: seq<Session>)
  {
    exists session :: session in sessions && session.blockedBy != [] && !ListsBlocked(before, session.id)
  }

  lemma NewlyBlockedMeans(before: seq<Session>, sessions: seq<Session>)
    ensures NewlyBlocked(BlockMapOf(before), sessions) <==> SomeoneIsNewlyBlocked(before, sessions)
  {
    forall id
      ensures WasBlocked(BlockMapOf(before), id) <==> ListsBlocked(before, id)
    {
      BlockMapMeansBlocked(before, id);
    }
  }

  /** One snapshot was added, of the sessions and the time of the tick. */
  ghost predicate Adds(config: Config, before: seq<Snapshot>, after: seq<Snapshot>, tick: Tick, trigger: Trigger)
    requires tick.fetched.Some?
  {
    exists trimmed :: IsTrimmed(trimmed, tick.fetched.value, trigger, config.maxSessions)
                   && after == before + [Snapshot(trimmed, tick.capturedAt, trigger)]
  }

  /** In any run, a fetched tick at which nobody is newly blocked adds one trimmed periodic snapshot if and only if the
      append succeeds and nothing was recorded before or the interval has passed since the last recording; otherwise it
      adds nothing. */
  lemma PeriodicRecordedIffDue(config: Config, ticks: seq<Tick>, states: seq<State>, n: nat)
    requires IsRun(config, ticks, states) && n < |ticks| && Fetches(ticks[n])
    requires !SomeoneIsNewlyBlocked(LastFetched(ticks, n), ticks[n].fetched.value)
    ensures var before, after, last := states[n].history, states[n + 1].history, LastRecording(ticks, states, n);
            if ticks[n].appendSucceeds
               && (last.None? || ticks[n].checkedAt >= last.value + config.recordInterval)
            then Adds(config, before, after, ticks[n], Periodic)
            else after == before
  {
    RemembersLastFetched(config, ticks, states, n);
    RemembersLastRecording(config, ticks, states, n);
    NewlyBlockedMeans(LastFetched(ticks, n), ticks[n].fetched.value);
    assert Ticks(config, states[n], ticks[n], states[n + 1]);
    RecordsAdds(config, states[n], ticks[n], states[n + 1], Periodic);
  }

  /** A tick with monitoring off, or whose fetch fails, changes nothing. */
  lemma IdleTickChangesNothing(config: Config, ticks: seq<Tick>, states: seq<State>, n: nat)
    requires IsRun(config, ticks, states) && n < |ticks| && (!ticks[n].active || ticks[n].fetched.None?)
    ensures states[n + 1] == states[n]
  {
    assert Ticks(config, states[n], ticks[n], states[n + 1]);
  }

  lemma RecordsAdds(config: Config, s: State, tick: Tick, t: State, trigger: Trigger)
    requires tick.fetched.Some?
    ensures Records(config, s, tick, t, trigger) ==> Adds(config, s.history, t.history, tick, trigger)
  {
    if Records(config, s, tick, t, trigger) {
      var snapshot := t.history[|s.history|];
      assert t.history == s.history + [snapshot];
      assert snapshot == Snapshot(snapshot.sessions, tick.capturedAt, trigger);
    }
  }

  /** And one at which somebody is newly blocked adds an untrimmed incident if and only if the append succeeds, whenever
      anything was last recorded. */
  lemma IncidentRecordedAtOnce(config: Config, ticks: seq<Tick>, states: seq<State>, n: nat)
    requires IsRun(config, ticks, states) && n < |ticks| && Fetches(ticks[n])
    requires SomeoneIsNewlyBlocked(LastFetched(ticks, n), ticks[n].fetched.value)
    ensures states[n + 1].history == if ticks[n].appendSucceeds
              then states[n].history + [Snapshot(ticks[n].fetched.value, ticks[n].capturedAt, Incident)]
              else states[n].history
  {
    NewlyBlockedMeans(LastFetched(ticks, n), ticks[n].fetched.value);
    IncidentRecordedIffAppended(config, ticks, states, n);
  }

  const BLOCKED := Session("1", "", 0, ["2"])

  /** One such run: the append of the incident fails, the next tick with the very same sessions records them as a
      periodic snapshot, and no incident is ever stored. */
  lemma IncidentIsLost(config: Config) returns (ticks: seq<Tick>, states: seq<State>)
    requires config.maxSessions > 0
    ensures IsRun(config, ticks, states) && |ticks| == 2 && ticks[0].fetched == ticks[1].fetched == Some([BLOCKED])
    ensures NewlyBlocked(BlockMapOf(LastFetched(ticks, 0)), [BLOCKED])
    ensures states[2].history == [Snapshot([BLOCKED], 1, Periodic)]
  {
    ticks := [Tick(true, Some([BLOCKED]), 0, 0, 0, false), Tick(true, Some([BLOCKED]), 1, 1, 1, true)];
    var blocked := BlockMapOf([BLOCKED]);
    assert [BLOCKED][..0] == [] && BlockMapOf([]) == map[];
    assert blocked == map["1" := true];
    assert BLOCKED in [BLOCKED] && BLOCKED.IsBlocked();
    var recorded := [Snapshot([BLOCKED], 1, Periodic)];
    states := [INITIAL, State(blocked, None, []), State(blocked, Some(1), recorded)];
    assert Ticks(config, states[0], ticks[0], states[1]);
    assert recorded[..0] == [] && !NewlyBlocked(blocked, [BLOCKED]);
    assert Ticks(config, states[1], ticks[1], states[2]);
  }

  // ----- The recording cadence

  /** Every periodic snapshot was captured at least the interval after each snapshot before it. */
  predicate Spaced(history: seq<Snapshot>, interval: int)
  {
    forall i, j :: 0 <= i < j < |history| && history[j].trigger == Periodic ==>
      history[i].capturedAt + interval <= history[j].capturedAt
  }

  predicate RecordedBy(s: State, time: int)
  {
    && (s.lastRecordedAt.None? ==> s.history == [])
    && (s.lastRecordedAt.Some? ==> s.lastRecordedAt.value <= time)
    && (forall i :: 0 <= i < |s.history| ==>
          s.lastRecordedAt.Some? && s.history[i].capturedAt <= s.lastRecordedAt.value)
  }

  lemma TickKeepsSpacing(config: Config, s: State, tick: Tick, t: State)
    requires Ticks(config, s, tick, t) && tick.checkedAt <= tick.capturedAt <= tick.recordedAt
    requires Spaced(s.history, config.recordInterval) && RecordedBy(s, tick.checkedAt)
    ensures Spaced(t.history, config.recordInterval) && RecordedBy(t, tick.recordedAt)
  {
    if |t.history| == |s.history| + 1 {
      assert forall i :: 0 <= i < |s.history| ==> t.history[i] == t.history[..|s.history|][i];
    }
  }

  lemma {:induction false} RunsKeepSpacing(config: Config, ticks: seq<Tick>, states: seq<State>, n: nat)
    requires IsRun(config, ticks, states) && n <= |ticks|
    ensures Spaced(states[n].history, config.recordInterval)
    ensures if n == 0 then states[n] == INITIAL else RecordedBy(states[n], ticks[n - 1].recordedAt)
  {
    if n > 0 {
      RunsKeepSpacing(config, ticks, states, n - 1);
      assert RecordedBy(states[n - 1], ticks[n - 1].checkedAt);
      TickKeepsSpacing(config, states[n - 1], ticks[n - 1], states[n]);
    }
  }

  /** The periodic snapshots captured between two times, in order. */
  function PeriodicWithin(history: seq<Snapshot>, from: int, to: int): seq<Snapshot>
  {
    if history == [] then []
    else
      var last := history[|history| - 1];
      PeriodicWithin(history[..|history| - 1], from, to)
      + if last.trigger == Periodic && from <= last.capturedAt <= to then [last] else []
  }

  lemma {:induction false} PeriodicWithinIsFilter(history: seq<Snapshot>, from: int, to: int)
    ensures IsFilter(PeriodicWithin(history, from, to), history,
                     (s: Snapshot) => s.trigger == Periodic && from <= s.capturedAt <= to)
  {
    hide IsFilter;
    var keep := (s: Snapshot) => s.trigger == Periodic && from <= s.capturedAt <= to;
    if history == [] {
      NothingFromNothing(keep);
    } else {
      PeriodicWithinIsFilter(history[..|history| - 1], from, to);
      FilterOfLonger(PeriodicWithin(history[..|history| - 1], from, to), history, keep);
    }
  }

  lemma {:induction false} WithinAreListed(history: seq<Snapshot>, from: int, to: int)
    ensures forall s :: s in PeriodicWithin(history, from, to) ==> s in history && from <= s.capturedAt <= to
  {
    if history != [] {
      WithinAreListed(history[..|history| - 1], from, to);
    }
  }

  lemma {:induction false} SpacedSpan(history: seq<Snapshot>, interval: int, from: int, to: int)
    requires interval > 0 && Spaced(history, interval)
    ensures var within := PeriodicWithin(history, from, to);
            within != [] ==> from + (|within| - 1) * interval <= within[|within| - 1].capturedAt <= to
  {
    if history != [] {
      var init, last := history[..|history| - 1], history[|history| - 1];
      var before := PeriodicWithin(init, from, to);
      SpacedSpan(init, interval, from, to);
      if last.trigger == Periodic && from <= last.capturedAt <= to && before != [] {
        SpacedFromPrevious(history, interval, from, to);
        assert |before| * interval == (|before| - 1) * interval + interval;
      }
    }
  }

  lemma SpacedFromPrevious(history: seq<Snapshot>, interval: int, from: int, to: int)
    requires history != [] && history[|history| - 1].trigger == Periodic && Spaced(history, interval)
    ensures var before := PeriodicWithin(history[..|history| - 1], from, to);
            before != [] ==> before[|before| - 1].capturedAt + interval <= history[|history| - 1].capturedAt
  {
    var init := history[..|history| - 1];
    var before := PeriodicWithin(init, from, to);
    WithinAreListed(init, from, to);
    if before != [] {
      var i :| 0 <= i < |init| && init[i] == before[|before| - 1];
      assert history[i] == init[i];
    }
  }

  lemma SpacedCount(history: seq<Snapshot>, interval: int, from: int, length: nat)
    requires interval > 0 && Spaced(history, interval)
    ensures |PeriodicWithin(history, from, from + length)| <= length / interval + 1
  {
    var count := |PeriodicWithin(history, from, from + length)|;
    SpacedSpan(history, interval, from, from + length);
    if count > 1 {
      AtMostQuotient(count - 1, interval, length);
    }
  }

  /** Whatever the incidents in between, a window of the given length holds at most length / interval + 1 periodic
      snapshots. */
  lemma PeriodicCadence(config: Config, ticks: seq<Tick>, states: seq<State>, n: nat, from: int, length: nat)
    requires IsRun(config, ticks, states) && n <= |ticks| && config.recordInterval > 0
    ensures |PeriodicWithin(states[n].history, from, from + length)| <= length / config.recordInterval + 1
  {
    RunsKeepSpacing(config, ticks, states, n);
    SpacedCount(states[n].history, config.recordInterval, from, length);
  }
}
