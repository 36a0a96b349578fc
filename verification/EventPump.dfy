/** event_pump.c: two queues of pending events, one filled by senders under the lock,
    the other emptied by the poller, and exchanged at the end of every poll. */
module EventPump {

  const MAX_QUEUE_SIZE: nat := 1000

  /** What a sender hands over. */
  datatype Event = Event(id: int, data: int)

  // ----- Every interleaving ------------------------------------------------

  /** Where the poller is inside event_pump_poll; between any two of its steps senders
      may take the lock. */
  datatype Poller = Idle | Dispatching(i: nat) | Swapping

  /** The queues up to next_slot, the poller, and what has happened: the events that a
      queue accepted and those given to their handlers. */
  datatype State = State(
    current: seq<Event>,
    pending: seq<Event>,
    poller: Poller,
    accepted: seq<Event>,
    dispatched: seq<Event>)

  const BEGIN: State := State([], [], Idle, [], [])

  datatype Action = Send(e: Event) | BeginPoll | Dispatch | Reset | Swap

  /** When a step can be taken. Sending always can. */
  predicate Enabled(s: State, a: Action) {
    match a
    case Send(_) => true
    case BeginPoll => s.poller == Idle
    case Dispatch => s.poller.Dispatching? && s.poller.i < |s.current|
    case Reset => s.poller.Dispatching? && s.poller.i >= |s.current|
    case Swap => s.poller == Swapping
  }

  function Step(s: State, a: Action): State
    requires Enabled(s, a)
  {
    match a
    case Send(e) =>
      if |s.pending| < MAX_QUEUE_SIZE then s.(pending := s.pending + [e], accepted := s.accepted + [e]) else s
    case BeginPoll => s.(poller := if s.current != [] then Dispatching(0) else Swapping)
    case Dispatch => s.(dispatched := s.dispatched + [s.current[s.poller.i]], poller := Dispatching(s.poller.i + 1))
    case Reset => s.(current := [], poller := Swapping)
    case Swap => s.(current := s.pending, pending := s.current, poller := Idle)
  }

  /** The events of the current queue that are still to be dispatched. */
  function Undispatched(s: State): seq<Event> {
    match s.poller
    case Dispatching(i) => if i <= |s.current| then s.current[i..] else []
    case Idle | Swapping => s.current
  }

  /** Nothing is lost, doubled or reordered: what was accepted is what was dispatched,
      then what is left of the current queue, then the pending queue. */
  ghost predicate Conserved(s: State) {
    && s.accepted == s.dispatched + Undispatched(s) + s.pending
    && |s.current| <= MAX_QUEUE_SIZE && |s.pending| <= MAX_QUEUE_SIZE
    && (s.poller.Dispatching? ==> s.poller.i <= |s.current|)
    && (s.poller == Swapping ==> s.current == [])
  }

  lemma StepConserves(s: State, a: Action)
    requires Conserved(s) && Enabled(s, a)
    ensures Conserved(Step(s, a))
  {
    if a == Dispatch {
      assert s.current[s.poller.i..] == [s.current[s.poller.i]] + s.current[s.poller.i + 1..];
    }
  }

  /** Between polls, with nothing pending. */
  lemma AllDispatchedOrCurrent(s: State)
    requires Conserved(s) && s.poller == Idle && s.pending == []
    ensures s.accepted == s.dispatched + s.current
  {
  }

  lemma NothingCurrent(s: State)
    requires Conserved(s) && s.poller == Swapping
    ensures s.current == []
  {
  }

  /** A run is a list of steps each of which is enabled where it is taken. */
  ghost predicate IsRun(s: State, actions: seq<Action>)
    decreases |actions|
  {
    actions == [] || (Enabled(s, actions[0]) && IsRun(Step(s, actions[0]), actions[1..]))
  }

  function After(s: State, actions: seq<Action>): State
    requires IsRun(s, actions)
    decreases |actions|
  {
    if actions == [] then s else After(Step(s, actions[0]), actions[1..])
  }

  lemma {:induction false} RunConserves(s: State, actions: seq<Action>)
    requires Conserved(s) && IsRun(s, actions)
    ensures Conserved(After(s, actions))
    decreases |actions|
  {
    hide Conserved;
    if actions != [] {
      StepConserves(s, actions[0]);
      RunConserves(Step(s, actions[0]), actions[1..]);
    }
  }

  /** In every interleaving from the start events are dispatched in the order in which
      they were accepted, each at most once. */
  lemma DispatchIsFifo(actions: seq<Action>)
    requires IsRun(BEGIN, actions)
    ensures After(BEGIN, actions).dispatched <= After(BEGIN, actions).accepted
  {
    RunConserves(BEGIN, actions);
  }

  /** How many polls come to their end. */
  function Polls(actions: seq<Action>): nat {
    if actions == [] then 0 else (if actions[0] == Swap then 1 else 0) + Polls(actions[1..])
  }

  /** The first n accepted events are out of the pending queue, or even dispatched. */
  ghost predicate Advanced(s: State, n: nat, polls: nat) {
    && n <= |s.accepted|
    && (polls >= 1 ==> n <= |s.dispatched| + |Undispatched(s)|)
    && (polls >= 2 ==> n <= |s.dispatched|)
  }

  lemma StepAdvances(s: State, a: Action, n: nat, polls: nat)
    requires Conserved(s) && Enabled(s, a) && Advanced(s, n, polls)
    ensures Advanced(Step(s, a), n, polls + if a == Swap then 1 else 0)
  {
    StepConserves(s, a);
  }

  lemma {:induction false} RunAdvances(s: State, actions: seq<Action>, n: nat, polls: nat)
    requires Conserved(s) && IsRun(s, actions) && Advanced(s, n, polls)
    ensures Advanced(After(s, actions), n, polls + Polls(actions))
    decreases |actions|
  {
    hide Conserved, Advanced;
    if actions != [] {
      StepConserves(s, actions[0]);
      StepAdvances(s, actions[0], n, polls);
      RunAdvances(Step(s, actions[0]), actions[1..], n, polls + if actions[0] == Swap then 1 else 0);
    }
  }

  lemma {:induction false} AcceptedGrows(s: State, actions: seq<Action>)
    requires IsRun(s, actions)
    ensures s.accepted <= After(s, actions).accepted
    decreases |actions|
  {
    if actions != [] {
      AcceptedGrows(Step(s, actions[0]), actions[1..]);
    }
  }

  /** Whatever was accepted before or during a poll has been dispatched when the next
      poll ends. */
  lemma DispatchedByNextPoll(s: State, actions: seq<Action>)
    requires Conserved(s) && IsRun(s, actions) && Polls(actions) >= 2
    ensures s.accepted <= After(s, actions).dispatched
  {
    RunAdvances(s, actions, |s.accepted|, 0);
    RunConserves(s, actions);
    AcceptedGrows(s, actions);
    var t := After(s, actions);
    assert t.accepted[..|t.dispatched|] == t.dispatched;
    assert t.accepted[..|s.accepted|] == s.accepted;
  }

  // ----- What becomes of what is sent --------------------------------------

  /** All events that are sent, in order. */
  function SentIn(actions: seq<Action>): seq<Event> {
    if actions == [] then []
    else (if actions[0].Send? then [actions[0].e] else []) + SentIn(actions[1..])
  }

  /** The events that are sent while fewer than 1000 are pending, counted from the sends and
      exchanges alone; `pending` of them are pending at first. */
  function Kept(actions: seq<Action>, pending: nat): seq<Event>
    decreases |actions|
  {
    if actions == [] then []
    else
      match actions[0]
      case Send(e) =>
        if pending < 1000 then [e] + Kept(actions[1..], pending + 1) else Kept(actions[1..], pending)
      case Swap => Kept(actions[1..], 0)
      case BeginPoll | Dispatch | Reset => Kept(actions[1..], pending)
  }

  /** No more than 1000 sends lie between one exchange and the next. */
  predicate FewSends(actions: seq<Action>, pending: nat)
    decreases |actions|
  {
    actions == [] ||
    match actions[0]
    case Send(_) => pending < 1000 && FewSends(actions[1..], pending + 1)
    case Swap => FewSends(actions[1..], 0)
    case BeginPoll | Dispatch | Reset => FewSends(actions[1..], pending)
  }

  /** Exactly the events sent while fewer than 1000 were pending are accepted, in order. */
  lemma {:induction false} AcceptedAreKept(s: State, actions: seq<Action>)
    requires Conserved(s) && IsRun(s, actions)
    ensures After(s, actions).accepted == s.accepted + Kept(actions, |s.pending|)
    decreases |actions|
  {
    if actions != [] {
      var a, t, rest := actions[0], Step(s, actions[0]), actions[1..];
      StepConserves(s, a);
      AcceptedAreKept(t, rest);
      StepSends(s, a);
      hide Conserved, Step;
      if a.Send? && |s.pending| < 1000 {
        var more := Kept(rest, |s.pending| + 1);
        assert s.accepted + [a.e] + more == s.accepted + ([a.e] + more);
      }
    }
  }

  lemma StepSends(s: State, a: Action)
    requires Conserved(s) && Enabled(s, a)
    ensures var t := Step(s, a);
            if a.Send? && |s.pending| < 1000 then t.accepted == s.accepted + [a.e] && |t.pending| == |s.pending| + 1
            else t.accepted == s.accepted && |t.pending| == if a == Swap then 0 else |s.pending|
  {
  }

  lemma {:induction false} FewAreKept(actions: seq<Action>, pending: nat)
    requires FewSends(actions, pending)
    ensures Kept(actions, pending) == SentIn(actions)
    decreases |actions|
  {
    if actions != [] {
      match actions[0]
      case Send(_) => FewAreKept(actions[1..], pending + 1);
      case Swap => FewAreKept(actions[1..], 0);
      case BeginPoll | Dispatch | Reset => FewAreKept(actions[1..], pending);
    }
  }

  /** With no more than 1000 sends between exchanges, every event that was sent has been
      dispatched, in the order of sending, when two more polls have come to their end. */
  lemma EverySentIsDispatched(actions: seq<Action>, more: seq<Action>)
    requires IsRun(BEGIN, actions) && FewSends(actions, 0)
    requires IsRun(After(BEGIN, actions), more) && Polls(more) >= 2
    ensures After(BEGIN, actions).accepted == SentIn(actions)
    ensures SentIn(actions) <= After(After(BEGIN, actions), more).dispatched
  {
    hide After, Conserved;
    BeginConserves();
    RunConserves(BEGIN, actions);
    AcceptedAreKept(BEGIN, actions);
    FewAreKept(actions, 0);
    DispatchedByNextPoll(After(BEGIN, actions), more);
  }

  lemma BeginConserves()
    ensures Conserved(BEGIN)
  {
  }

  // ----- The pump ----------------------------------------------------------

  /** pending_event_t */
  datatype Slot = Slot(event: Event, processing: bool)

  class EventQueue {
    var nextSlot: nat
    const queue: array<Slot>

    constructor ()
      ensures nextSlot == 0 && queue.Length == MAX_QUEUE_SIZE && fresh(queue)
    {
      nextSlot := 0;
      queue := new Slot[MAX_QUEUE_SIZE](_ => Slot(Event(0, 0), false));
    }

    function Events(): seq<Event>
      reads this, queue
      requires nextSlot <= queue.Length
    {
      seq(nextSlot, i requires 0 <= i < nextSlot && nextSlot <= queue.Length reads this, queue => queue[i].event)
    }
  }

  class Pump {
    var current: EventQueue
    var pending: EventQueue
    ghost var poller: Poller
    ghost var accepted: seq<Event>
    ghost var dispatched: seq<Event>

    ghost function Repr(): set<object>
      reads this
    {
      {this, current, current.queue, pending, pending.queue}
    }

    /** The two queues are different objects; an event not yet dispatched is not marked. */
    ghost predicate Valid()
      reads this, Repr()
    {
      && current != pending && current.queue != pending.queue
      && current.queue.Length == pending.queue.Length == MAX_QUEUE_SIZE
      && current.nextSlot <= MAX_QUEUE_SIZE && pending.nextSlot <= MAX_QUEUE_SIZE
      && (forall i | (if poller.Dispatching? then poller.i else 0) <= i < current.nextSlot :: !current.queue[i].processing)
      && (forall i | 0 <= i < pending.nextSlot :: !pending.queue[i].processing)
      && Conserved(Abstract())
    }

    ghost function Abstract(): State
      reads this, current, current.queue, pending, pending.queue
      requires current.nextSlot <= current.queue.Length && pending.nextSlot <= pending.queue.Length
    {
      State(current.Events(), pending.Events(), poller, accepted, dispatched)
    }

    /** event_pump_init */
    constructor ()
      ensures Valid() && Abstract() == BEGIN && fresh(Repr())
    {
      current := new EventQueue();
      pending := new EventQueue();
      poller, accepted, dispatched := Idle, [], [];
    }

    /** event_pump_send_event: one critical section. A full queue drops the event. */
    method SendEvent(e: Event)
      requires Valid()
      modifies Repr()
      ensures Valid() && Abstract() == Step(old(Abstract()), Send(e))
      ensures var taken := if old(pending.nextSlot) < 1000 then [e] else [];
              pending.Events() == old(pending.Events()) + taken && accepted == old(accepted) + taken
      ensures current == old(current) && pending == old(pending)
      ensures forall i | 0 <= i < current.nextSlot :: current.queue[i] == old(current.queue[i])
    {
      if pending.nextSlot < MAX_QUEUE_SIZE {
        StepConserves(Abstract(), Send(e));
        pending.queue[pending.nextSlot] := Slot(e, false);
        pending.nextSlot := pending.nextSlot + 1;
        accepted := accepted + [e];
        assert pending.Events() == old(pending.Events()) + [e];
        assert current.Events() == old(current.Events());
      }
    }

    /** Giving event i of the current queue to its handlers. */
    method DispatchSlot(i: nat)
      requires Valid() && poller == Dispatching(i) && i < current.nextSlot
      modifies Repr()
      ensures Valid() && Abstract() == Step(old(Abstract()), Dispatch)
      ensures current == old(current) && pending == old(pending)
    {
      StepConserves(Abstract(), Dispatch);
      current.queue[i] := current.queue[i].(processing := true);
      dispatched := dispatched + [current.queue[i].event];
      poller := Dispatching(i + 1);
      assert current.Events() == old(current.Events()) && pending.Events() == old(pending.Events());
    }

    /** The exchange of the queues under the lock. */
    method SwapQueues()
      requires Valid() && poller == Swapping
      modifies this
      ensures Valid() && Abstract() == Step(old(Abstract()), Swap) && Repr() == old(Repr())
    {
      StepConserves(Abstract(), Swap);
      var tmp := current;
      current := pending;
      pending := tmp;
      poller := Idle;
    }

    /** What the handlers of one event send. */
    method SendAll(sent: seq<Event>)
      requires Valid()
      modifies Repr()
      ensures Valid() && current == old(current) && pending == old(pending)
      ensures poller == old(poller) && dispatched == old(dispatched) && old(accepted) <= accepted
      ensures current.nextSlot == old(current.nextSlot) && current.Events() == old(current.Events())
    {
      hide Conserved;
      var k := 0;
      while k < |sent|
        invariant Valid() && current == old(current) && pending == old(pending)
        invariant poller == old(poller) && dispatched == old(dispatched) && old(accepted) <= accepted
        invariant current.nextSlot == old(current.nextSlot) && current.Events() == old(current.Events())
      {
        ghost var before := Abstract();
        SendEvent(sent[k]);
        assert Abstract().current == before.current;
        k := k + 1;
      }
    }

    /** The for loop of event_pump_poll. */
    method DispatchAll(replies: Event -> seq<Event>)
      requires Valid() && poller == Dispatching(0)
      modifies Repr()
      ensures Valid() && poller == Dispatching(current.nextSlot) && current == old(current) && pending == old(pending)
      ensures dispatched == old(dispatched) + old(current.Events()) && old(accepted) <= accepted
    {
      hide Conserved;
      ghost var polled := current.Events();
      assert polled[..0] == [];
      var i := 0;
      while i < current.nextSlot
        invariant Valid() && poller == Dispatching(i) && current == old(current) && pending == old(pending)
        invariant i <= current.nextSlot && current.Events() == polled
        invariant dispatched == old(dispatched) + polled[..i] && old(accepted) <= accepted
        decreases current.nextSlot - i
      {
        if !current.queue[i].processing {
          ghost var before := Abstract();
          DispatchSlot(i);
          assert Abstract().current == before.current && current.nextSlot == |current.Events()|;
          SendAll(replies(current.queue[i].event));
          assert polled[..i + 1] == polled[..i] + [polled[i]];
        }
        i := i + 1;
      }
      assert polled[..i] == polled;
    }

    /** Emptying the current queue once all of it is dispatched. */
    method ResetCurrent()
      requires Valid() && poller == Dispatching(current.nextSlot)
      modifies this, current
      ensures Valid() && Abstract() == Step(old(Abstract()), Reset) && Repr() == old(Repr())
    {
      StepConserves(Abstract(), Reset);
      current.nextSlot := 0;
      poller := Swapping;
      assert pending.Events() == old(pending.Events());
    }

    /** The first part of event_pump_poll, up to the exchange of the queues. */
    method PollCurrent(replies: Event -> seq<Event>)
      requires Valid() && poller == Idle
      modifies Repr()
      ensures Valid() && poller == Swapping && Repr() == old(Repr())
      ensures dispatched == old(dispatched) + old(current.Events()) && old(accepted) <= accepted
    {
      hide Conserved;
      StepConserves(Abstract(), BeginPoll);
      if current.nextSlot != 0 {
        poller := Dispatching(0);
        DispatchAll(replies);
        ResetCurrent();
      } else {
        poller := Swapping;
      }
    }

    /** event_pump_poll, where the handlers of an event send the events `replies` gives.
        Exactly the events of the current queue are dispatched; all others accepted so
        far, the replies among them, are current afterwards. */
    method Poll(replies: Event -> seq<Event>)
      requires Valid() && poller == Idle
      modifies Repr()
      ensures Valid() && poller == Idle && Repr() == old(Repr())
      ensures dispatched == old(dispatched) + old(current.Events())
      ensures old(accepted) <= accepted && accepted == dispatched + current.Events()
      ensures pending.nextSlot == 0
    {
      hide Conserved;
      PollCurrent(replies);
      ghost var before := Abstract();
      NothingCurrent(before);
      SwapQueues();
      assert Abstract().pending == before.current && pending.nextSlot == |pending.Events()|;
      AllDispatchedOrCurrent(Abstract());
    }
  }
}
