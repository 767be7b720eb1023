/** go/internal/infrastructure/sse/broadcaster.go as a machine of atomic steps: one goroutine broadcasts, each
    handler registers, receives and unregisters. The read lock a broadcast holds keeps the set of clients fixed,
    but handlers receive at any time, also between the broadcaster's three channel operations on one client.
    Events are named by their number in broadcast order. */
module Broadcaster {

  const QUEUE_SIZE := 50

  type ClientId = nat

  /** A client's channel, what its handler has taken from it, and what it has lost. */
  datatype Client = Client(queue: seq<nat>, open: bool, joinedAt: nat, received: seq<nat>, dropped: nat)

  /** Where the broadcasting goroutine is. */
  datatype Delivery =
    | Quiet
    | Visiting(pending: set<ClientId>)                       // about to try the next client
    | Full(pending: set<ClientId>, current: ClientId)        // its queue was full: about to take the oldest event out
    | Emptied(pending: set<ClientId>, current: ClientId)     // about to try again

  datatype State = State(
    clients: map<ClientId, Client>, registered: set<ClientId>, sent: nat, delivery: Delivery, panicked: bool)

  const INITIAL := State(map[], {}, 0, Quiet, false)

  predicate WellFormed(s: State)
  {
    && s.registered <= s.clients.Keys
    && (!s.delivery.Quiet? ==> s.delivery.pending <= s.registered && s.sent > 0)
    && (s.delivery.Full? || s.delivery.Emptied? ==>
          s.delivery.current in s.registered && s.delivery.current !in s.delivery.pending)
  }

  datatype Step =
    | Register(c: ClientId)
    | Unregister(c: ClientId)
    | Receive(c: ClientId)
    | Begin                    // Broadcast is called
    | TrySend(c: ClientId)     // first select
    | DropOldest               // second select
    | Retry                    // third select
    | Return                   // every client has been visited

  predicate Enabled(s: State, step: Step)
  {
    match step
    case Register(c) => s.delivery.Quiet? && c !in s.clients
    case Unregister(c) => s.delivery.Quiet? && c in s.registered
    case Receive(c) => c in s.registered && c in s.clients && s.clients[c].queue != []
    case Begin => s.delivery.Quiet?
    case TrySend(c) => s.delivery.Visiting? && c in s.delivery.pending
    case DropOldest => s.delivery.Full?
    case Retry => s.delivery.Emptied?
    case Return => s.delivery == Visiting({})
  }

  /** A send that does not block: it fails on a full queue and panics on a closed channel. */
  function Offer(client: Client, event: nat): Client
  {
    if |client.queue| < QUEUE_SIZE then client.(queue := client.queue + [event]) else client
  }

  function TakeOldest(client: Client): Client
  {
    if client.queue == [] then client else client.(queue := client.queue[1..], dropped := client.dropped + 1)
  }

  function After(s: State, step: Step): State
    requires WellFormed(s) && Enabled(s, step)
  {
    match step
    case Register(c) =>
      s.(clients := s.clients[c := Client([], true, s.sent, [], 0)], registered := s.registered + {c})
    case Unregister(c) =>
      s.(clients := s.clients[c := s.clients[c].(open := false)], registered := s.registered - {c},
         panicked := s.panicked || !s.clients[c].open)
    case Receive(c) =>
      var client := s.clients[c];
      var left := client.(queue := client.queue[1..], received := client.received + [client.queue[0]]);
      s.(clients := s.clients[c := left])
    case Begin => s.(sent := s.sent + 1, delivery := Visiting(s.registered))
    case TrySend(c) =>
      var client, rest := s.clients[c], s.delivery.pending - {c};
      s.(clients := s.clients[c := Offer(client, s.sent - 1)],
         delivery := if |client.queue| < QUEUE_SIZE then Visiting(rest) else Full(rest, c),
         panicked := s.panicked || !client.open)
    case DropOldest =>
      var c := s.delivery.current;
      s.(clients := s.clients[c := TakeOldest(s.clients[c])], delivery := Emptied(s.delivery.pending, c))
    case Retry =>
      var c := s.delivery.current;
      s.(clients := s.clients[c := Offer(s.clients[c], s.sent - 1)], delivery := Visiting(s.delivery.pending),
         panicked := s.panicked || !s.clients[c].open)
    case Return => s.(delivery := Quiet)
  }

  // ----- What every step keeps

  /** The event being broadcast has not been offered to this client yet. */
  predicate Unserved(s: State, c: ClientId)
  {
    match s.delivery
    case Quiet => false
    case Visiting(pending) => c in pending
    case Full(pending, current) => c in pending || c == current
    case Emptied(pending, current) => c in pending || c == current
  }

  /** How many events have been offered to a registered client's channel, counted from the first ever. */
  function Offered(s: State, c: ClientId): nat
  {
    if Unserved(s, c) && s.sent > 0 then s.sent - 1 else s.sent
  }

  predicate Increasing(events: seq<nat>)
  {
    forall i, j :: 0 <= i < j < |events| ==> events[i] < events[j]
  }

  /** The queue is the tail of what was offered since the client joined; what the handler received comes in
      order before it; every offered event is received, queued or counted as dropped; the newest is not dropped. */
  predicate GoodStream(client: Client, offered: nat)
  {
    && |client.queue| <= QUEUE_SIZE
    && client.joinedAt + |client.queue| <= offered
    && (forall i :: 0 <= i < |client.queue| ==> client.queue[i] == offered - |client.queue| + i)
    && Increasing(client.received)
    && (forall i :: 0 <= i < |client.received| ==> client.joinedAt <= client.received[i] < offered - |client.queue|)
    && |client.received| + |client.queue| + client.dropped == offered - client.joinedAt
  }

  predicate NewestKept(client: Client, offered: nat)
  {
    offered > client.joinedAt ==>
      client.queue != [] || (client.received != [] && client.received[|client.received| - 1] == offered - 1)
  }

  predicate Current(s: State, c: ClientId)
  {
    (s.delivery.Full? || s.delivery.Emptied?) && s.delivery.current == c
  }

  /** The stream was good when the last event was offered to it. */
  ghost predicate WasGoodStream(client: Client, sent: nat)
  {
    exists offered: nat :: offered <= sent && GoodStream(client, offered)
  }

  ghost predicate Invariant(s: State)
  {
    && !s.panicked && WellFormed(s)
    && (s.delivery.Emptied? ==> |s.clients[s.delivery.current].queue| < QUEUE_SIZE)
    && (forall c :: c in s.registered ==> s.clients[c].open && GoodStream(s.clients[c], Offered(s, c)))
    && (forall c :: c in s.registered && !Current(s, c) ==> NewestKept(s.clients[c], Offered(s, c)))
    && (forall c :: c in s.clients ==> WasGoodStream(s.clients[c], s.sent))
  }

  lemma OfferKeepsStream(client: Client, offered: nat)
    requires GoodStream(client, offered) && |client.queue| < QUEUE_SIZE
    ensures GoodStream(Offer(client, offered), offered + 1) && NewestKept(Offer(client, offered), offered + 1)
  {
  }

  lemma TakeKeepsStream(client: Client, offered: nat)
    requires GoodStream(client, offered)
    ensures GoodStream(TakeOldest(client), offered) && |TakeOldest(client).queue| < QUEUE_SIZE
    ensures client.queue != [] ==> |TakeOldest(client).queue| < |client.queue|
  {
  }

  function Consume(client: Client): Client
    requires client.queue != []
  {
    client.(queue := client.queue[1..], received := client.received + [client.queue[0]])
  }

  lemma ConsumeKeepsStream(client: Client, offered: nat)
    requires GoodStream(client, offered) && client.queue != []
    ensures GoodStream(Consume(client), offered)
    ensures NewestKept(client, offered) ==> NewestKept(Consume(client), offered)
  {
  }

  /** A step that leaves every client but c alone keeps the invariant if c's stream is still good. */
  lemma OthersUnchanged(s: State, t: State, c: ClientId)
    requires Invariant(s) && WellFormed(t) && !t.panicked
    requires t.registered <= s.registered + {c} && t.clients.Keys == s.clients.Keys + {c} && s.sent <= t.sent
    requires forall v :: v in s.clients && v != c ==> t.clients[v] == s.clients[v]
    requires forall v :: v in t.registered && v != c ==>
               Offered(t, v) == Offered(s, v) && (Current(s, v) ==> Current(t, v))
    requires c in t.registered ==> t.clients[c].open && GoodStream(t.clients[c], Offered(t, c))
    requires c in t.registered && !Current(t, c) ==> NewestKept(t.clients[c], Offered(t, c))
    requires c !in t.registered ==> WasGoodStream(t.clients[c], t.sent)
    requires t.delivery.Emptied? ==> |t.clients[t.delivery.current].queue| < QUEUE_SIZE
    ensures Invariant(t)
  {
    hide GoodStream, NewestKept, WasGoodStream, Current, Offered;
    if c in t.registered {
      OfferedToIsWasGood(t, c);
    }
    forall v | v in t.clients
      ensures WasGoodStream(t.clients[v], t.sent)
    {
      if v != c {
        StillWasGood(s.clients[v], s.sent, t.sent);
      }
    }
  }

  lemma OfferedToIsWasGood(s: State, c: ClientId)
    requires c in s.clients && GoodStream(s.clients[c], Offered(s, c))
    ensures WasGoodStream(s.clients[c], s.sent)
  {
    hide GoodStream;
  }

  lemma StillWasGood(client: Client, sent: nat, later: nat)
    requires WasGoodStream(client, sent) && sent <= later
    ensures WasGoodStream(client, later)
  {
    hide GoodStream;
  }

  lemma JoinOrLeaveKeepsInvariant(s: State, step: Step)
    requires Invariant(s) && Enabled(s, step) && (step.Register? || step.Unregister?)
    ensures Invariant(After(s, step))
  {
    var t := After(s, step);
    assert GoodStream(t.clients[step.c], t.sent);
    OthersUnchanged(s, t, step.c);
  }

  lemma ReceiveKeepsInvariant(s: State, c: ClientId)
    requires Invariant(s) && Enabled(s, Receive(c))
    ensures Invariant(After(s, Receive(c)))
  {
    var t := After(s, Receive(c));
    ConsumeKeepsStream(s.clients[c], Offered(s, c));
    assert t.clients[c] == Consume(s.clients[c]) && Offered(t, c) == Offered(s, c);
    OthersUnchanged(s, t, c);
  }

  lemma TrySendKeepsInvariant(s: State, c: ClientId)
    requires Invariant(s) && Enabled(s, TrySend(c))
    ensures Invariant(After(s, TrySend(c)))
  {
    hide GoodStream, NewestKept, WasGoodStream;
    var t := After(s, TrySend(c));
    if |s.clients[c].queue| < QUEUE_SIZE {
      OfferKeepsStream(s.clients[c], Offered(s, c));
    }
    OthersUnchanged(s, t, c);
  }

  lemma DropKeepsInvariant(s: State)
    requires Invariant(s) && Enabled(s, DropOldest)
    ensures Invariant(After(s, DropOldest))
  {
    hide GoodStream, NewestKept, WasGoodStream;
    var c := s.delivery.current;
    TakeKeepsStream(s.clients[c], Offered(s, c));
    OthersUnchanged(s, After(s, DropOldest), c);
  }

  lemma RetryKeepsInvariant(s: State)
    requires Invariant(s) && Enabled(s, Retry)
    ensures Invariant(After(s, Retry))
  {
    hide GoodStream, NewestKept, WasGoodStream;
    var c := s.delivery.current;
    OfferKeepsStream(s.clients[c], Offered(s, c));
    OthersUnchanged(s, After(s, Retry), c);
  }

  lemma ReturnKeepsInvariant(s: State)
    requires Invariant(s) && Enabled(s, Return)
    ensures Invariant(After(s, Return))
  {
    var t := After(s, Return);
    forall c | c in t.registered
      ensures Offered(t, c) == Offered(s, c) && !Current(s, c)
    {
    }
  }

  lemma StepKeepsInvariant(s: State, step: Step)
    requires Invariant(s) && Enabled(s, step)
    ensures Invariant(After(s, step))
  {
    match step {
      case Register(_) => JoinOrLeaveKeepsInvariant(s, step);
      case Unregister(_) => JoinOrLeaveKeepsInvariant(s, step);
      case Receive(c) => ReceiveKeepsInvariant(s, c);
      case Begin => BeginKeepsInvariant(s);
      case TrySend(c) => TrySendKeepsInvariant(s, c);
      case DropOldest => DropKeepsInvariant(s);
      case Retry => RetryKeepsInvariant(s);
      case Return => ReturnKeepsInvariant(s);
    }
  }

  lemma BeginKeepsInvariant(s: State)
    requires Invariant(s) && s.delivery.Quiet?
    ensures Invariant(After(s, Begin))
  {
    var t := After(s, Begin);
    forall c | c in t.registered
      ensures Offered(t, c) == Offered(s, c)
    {
    }
    forall c | c in t.clients
      ensures WasGoodStream(t.clients[c], t.sent)
    {
      assert WasGoodStream(s.clients[c], s.sent);
    }
  }

  // ----- Whole runs

  /** Any interleaving of the broadcaster, the handlers, and clients coming and going. */
  ghost predicate IsRun(steps: seq<Step>, states: seq<State>)
  {
    && |states| == |steps| + 1 && states[0] == INITIAL
    && forall i :: 0 <= i < |steps| ==>
         WellFormed(states[i]) && Enabled(states[i], steps[i]) && states[i + 1] == After(states[i], steps[i])
  }

  lemma {:induction false} RunsKeepInvariant(steps: seq<Step>, states: seq<State>, i: nat)
    requires IsRun(steps, states) && i < |states|
    ensures Invariant(states[i])
  {
    if i > 0 {
      RunsKeepInvariant(steps, states, i - 1);
      StepKeepsInvariant(states[i - 1], steps[i - 1]);
    }
  }

  /** In no run is anything sent on a closed channel, or a channel closed twice. */
  lemma NoSendOnClosedChannel(steps: seq<Step>, states: seq<State>, i: nat)
    requires IsRun(steps, states) && i < |states|
    ensures !states[i].panicked
  {
    RunsKeepInvariant(steps, states, i);
  }

  /** A registered client has received events broadcast after it joined, each at most once and in order; behind them its
      queue is an unbroken stretch of at most 50 events up to the last one offered to it; and received, queued and
      dropped events add up to all that were offered. Everything sent has been offered, except that the event of a
      broadcast under way has not been offered to those it has not served. */
  lemma StreamsAreInOrder(steps: seq<Step>, states: seq<State>, i: nat, c: ClientId)
    requires IsRun(steps, states) && i < |states| && c in states[i].registered && c in states[i].clients
    ensures GoodStream(states[i].clients[c], Offered(states[i], c))
    ensures Offered(states[i], c) == states[i].sent - if Unserved(states[i], c) then 1 else 0
  {
    RunsKeepInvariant(steps, states, i);
  }

  /** The same holds of clients that have left, up to the events offered before they did. */
  lemma LeftStreamsWereInOrder(steps: seq<Step>, states: seq<State>, i: nat, c: ClientId)
    requires IsRun(steps, states) && i < |states| && c in states[i].clients
    ensures WasGoodStream(states[i].clients[c], states[i].sent)
  {
    RunsKeepInvariant(steps, states, i);
  }

  /** When Broadcast has returned, every registered client still has the newest event, queued or received. */
  lemma NewestIsNeverLost(steps: seq<Step>, states: seq<State>, i: nat, c: ClientId)
    requires IsRun(steps, states) && i < |states| && c in states[i].registered && c in states[i].clients
    requires states[i].delivery.Quiet? && states[i].clients[c].joinedAt < states[i].sent
    ensures var client, newest := states[i].clients[c], states[i].sent - 1;
            newest in client.queue || (client.received != [] && client.received[|client.received| - 1] == newest)
  {
    RunsKeepInvariant(steps, states, i);
    var client := states[i].clients[c];
    assert GoodStream(client, states[i].sent) && NewestKept(client, states[i].sent);
    if client.queue != [] {
      assert client.queue[|client.queue| - 1] == states[i].sent - 1;
    }
  }

  // ----- What a step does to one client, and what a full queue loses

  /** The handler has taken the oldest queued event. */
  predicate Took(before: Client, after: Client)
  {
    && before.queue != [] && after.queue == before.queue[1..] && after.received == before.received + [before.queue[0]]
    && after.dropped == before.dropped
  }

  /** The event was queued behind the others. */
  predicate Queued(before: Client, after: Client, event: nat)
  {
    && |before.queue| < 50 && after.queue == before.queue + [event] && after.received == before.received
    && after.dropped == before.dropped
  }

  /** The oldest queued event was dropped, and no other. */
  predicate Lost(before: Client, after: Client)
  {
    && before.queue != [] && after.queue == before.queue[1..] && after.received == before.received
    && after.dropped == before.dropped + 1
  }

  predicate SameStream(before: Client, after: Client)
  {
    after.queue == before.queue && after.received == before.received && after.dropped == before.dropped
  }

  /** From one state of a run to the next, a client's stream stays as it is, or its handler takes the oldest event, or
      the event being broadcast is queued, or the oldest event alone is dropped; nothing else happens to it. */
  lemma OneEventAtATime(steps: seq<Step>, states: seq<State>, i: nat, c: ClientId)
    requires IsRun(steps, states) && i < |steps| && c in states[i].clients
    ensures c in states[i + 1].clients
    ensures var before, after := states[i].clients[c], states[i + 1].clients[c];
            && after.joinedAt == before.joinedAt
            && (SameStream(before, after) || Took(before, after) || Lost(before, after)
                || (states[i].sent > 0 && Queued(before, after, states[i].sent - 1)))
            && (Took(before, after) ==> steps[i] == Receive(c))
            && (Lost(before, after) ==> states[i].delivery.Full? && states[i].delivery.current == c)
  {
    RunsKeepInvariant(steps, states, i);
    assert states[i + 1] == After(states[i], steps[i]);
  }

  /** A client that registers starts with an empty queue, at the next event. */
  lemma JoinsWithNothing(steps: seq<Step>, states: seq<State>, i: nat, c: ClientId)
    requires IsRun(steps, states) && i < |steps| && c !in states[i].clients && c in states[i + 1].clients
    ensures states[i + 1].clients[c] == Client([], true, states[i].sent, [], 0) && c in states[i + 1].registered
  {
    assert states[i + 1] == After(states[i], steps[i]);
  }

  /** The broadcaster found this client's queue full at step j and nobody but handlers has moved since. */
  predicate FoundFull(steps: seq<Step>, states: seq<State>, j: nat, i: nat, c: ClientId)
    requires j < i < |states| == |steps| + 1
  {
    && steps[j] == TrySend(c) && c in states[j].clients && |states[j].clients[c].queue| == 50
    && forall k :: j < k < i ==> steps[k].Receive?
  }

  /** Nothing is dropped from a queue unless the broadcast under way has found all its 50 places taken. */
  lemma {:induction false} DropsFromFullQueue(steps: seq<Step>, states: seq<State>, i: nat) returns (j: nat)
    requires IsRun(steps, states) && i < |states| && states[i].delivery.Full?
    ensures j < i && FoundFull(steps, states, j, i, states[i].delivery.current)
  {
    hide Invariant, After, Enabled;
    j := i - 1;
    RunsKeepInvariant(steps, states, i - 1);
    assert states[i] == After(states[i - 1], steps[i - 1]);
    FullQueueWasFound(states[i - 1], steps[i - 1]);
    if steps[i - 1].Receive? {
      j := DropsFromFullQueue(steps, states, i - 1);
    }
  }

  lemma FullQueueWasFound(s: State, step: Step)
    requires Invariant(s) && Enabled(s, step) && After(s, step).delivery.Full?
    ensures var c := After(s, step).delivery.current;
            || (step.Receive? && s.delivery == After(s, step).delivery)
            || (step == TrySend(c) && c in s.clients && |s.clients[c].queue| == 50)
  {
  }

  /** Whose handler has taken nothing has had nothing dropped but what did not fit into 50 places. */
  ghost predicate Stalled(s: State, c: ClientId)
    requires c in s.clients
  {
    var client := s.clients[c];
    client.received == [] ==>
      client.joinedAt <= Offered(s, c) && var offered := Offered(s, c) - client.joinedAt;
      if s.delivery.Emptied? && s.delivery.current == c then |client.queue| == 49 && offered >= 50
      else if s.delivery.Full? && s.delivery.current == c then |client.queue| == 50
      else |client.queue| == if offered < 50 then offered else 50
  }

  lemma StepKeepsStalled(s: State, step: Step, c: ClientId)
    requires Invariant(s) && Enabled(s, step) && c in After(s, step).registered && c in After(s, step).clients
    requires c in s.registered && c in s.clients ==> Stalled(s, c)
    ensures Stalled(After(s, step), c)
  {
    StepKeepsInvariant(s, step);
  }

  lemma {:induction false} RunsKeepStalled(steps: seq<Step>, states: seq<State>, i: nat, c: ClientId)
    requires IsRun(steps, states) && i < |states| && c in states[i].registered && c in states[i].clients
    ensures Stalled(states[i], c)
  {
    if i > 0 {
      hide Stalled, Invariant, After, Enabled, WellFormed;
      RunsKeepInvariant(steps, states, i - 1);
      if c in states[i - 1].registered && c in states[i - 1].clients {
        RunsKeepStalled(steps, states, i - 1, c);
      }
      StepKeepsStalled(states[i - 1], steps[i - 1], c);
    }
  }

  /** A client whose handler has taken nothing since it joined holds, when no broadcast is under way, exactly the last
      50 events sent since then, or all of them while there are fewer. */
  lemma StalledClientHoldsNewest(steps: seq<Step>, states: seq<State>, i: nat, c: ClientId)
    requires IsRun(steps, states) && i < |states| && c in states[i].registered && c in states[i].clients
    requires states[i].delivery.Quiet? && states[i].clients[c].received == []
    ensures var queue, sent, joinedAt := states[i].clients[c].queue, states[i].sent, states[i].clients[c].joinedAt;
            && |queue| == (if sent - joinedAt < 50 then sent - joinedAt else 50)
            && forall k :: 0 <= k < |queue| ==> queue[k] == sent - |queue| + k
  {
    StreamsAreInOrder(steps, states, i, c);
    RunsKeepStalled(steps, states, i, c);
  }

  // ----- A stalled client never blocks the broadcaster

  /** Channel operations left before Broadcast returns, at most. */
  function Work(s: State): nat
  {
    match s.delivery
    case Quiet => 0
    case Visiting(pending) => 1 + 3 * |pending|
    case Full(pending, _) => 3 + 3 * |pending|
    case Emptied(pending, _) => 2 + 3 * |pending|
  }

  predicate IsBroadcastStep(step: Step)
  {
    step.TrySend? || step.DropOldest? || step.Retry? || step.Return?
  }

  /** Every step of the broadcaster, whichever client it takes next, reduces the work left; no other step adds to it. */
  lemma BroadcastStepsFinish(s: State, step: Step)
    requires WellFormed(s) && !s.delivery.Quiet? && Enabled(s, step)
    ensures IsBroadcastStep(step) ==> Work(After(s, step)) < Work(s)
    ensures !IsBroadcastStep(step) ==> Work(After(s, step)) == Work(s)
  {
    if step.TrySend? {
      assert |s.delivery.pending - {step.c}| == |s.delivery.pending| - 1;
    }
  }

  /** While a broadcast is under way it always has a next step, whatever the handlers do; as each one reduces the work
      left, it returns after at most three operations per client. */
  lemma BroadcastNeverBlocks(s: State) returns (step: Step)
    requires WellFormed(s) && !s.delivery.Quiet?
    ensures Enabled(s, step) && IsBroadcastStep(step)
    ensures forall other :: Enabled(s, other) ==>
              if IsBroadcastStep(other) then Work(After(s, other)) < Work(s) else Work(After(s, other)) == Work(s)
  {
    forall other | Enabled(s, other)
      ensures if IsBroadcastStep(other) then Work(After(s, other)) < Work(s) else Work(After(s, other)) == Work(s)
    {
      BroadcastStepsFinish(s, other);
    }
    match s.delivery {
      case Visiting(pending) =>
        if pending == {} {
          step := Return;
        } else {
          var c :| c in pending;
          step := TrySend(c);
        }
      case Full(_, _) => step := DropOldest;
      case Emptied(_, _) => step := Retry;
    }
  }
}
