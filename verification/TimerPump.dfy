/** timer_pump.c: the table of timers and the loop that fires them. Every method takes
    the step of the state machine that it stands for. */
module TimerPump {
  import opened TimerRuns

  /** What a handler does to timers, its own among them. */
  datatype Command =
    | AddTimer(msec: nat, singleShot: bool)
    | StartTimer(id: int, time: nat)
    | StopTimer(id: int)
    | RemoveTimer(id: int)

  /** One command of a handler, as a step of the state machine. */
  function Obeyed(s: State, command: Command): (r: State)
    ensures r.poller == s.poller && s.count <= r.count
  {
    match command
    case AddTimer(msec, singleShot) => Added(s, msec, singleShot)
    case StartTimer(id, time) => StartedAt(s, id, time)
    case StopTimer(id) => Stopped(s, id)
    case RemoveTimer(id) => Flagged(s, id)
  }

  function Commanded(s: State, commands: seq<Command>): (r: State)
    ensures r.poller == s.poller && s.count <= r.count
    decreases |commands|
  {
    if commands == [] then s else Commanded(Obeyed(s, commands[0]), commands[1..])
  }

  /** A whole poll from slot i on, when `handler` says what the handler of a timer does. */
  function Polled(s: State, i: nat, now: nat, handler: int -> seq<Command>): State
    decreases MAX_TIMERS - i
  {
    if i >= s.count then s.(poller := Idle)
    else
      var v := Visited(s, i, now);
      var next := if v.poller.InHandler? then Finished(Commanded(v, handler(v.table[i].id)), i, now) else v;
      Polled(next, i + 1, now, handler)
  }

  // ----- Handlers that remove live timers only -----------------------------

  ghost predicate Careful(s: State, commands: seq<Command>)
    decreases |commands|
  {
    commands == [] ||
    ((commands[0].RemoveTimer? ==> Live(s, commands[0].id)) && Careful(Obeyed(s, commands[0]), commands[1..]))
  }

  /** The same for every handler that a poll runs. */
  ghost predicate CarefulPoll(s: State, i: nat, now: nat, handler: int -> seq<Command>)
    decreases MAX_TIMERS - i
  {
    i >= s.count ||
    (var v := Visited(s, i, now);
     if v.poller.InHandler? then
       var commands := handler(v.table[i].id);
       Careful(v, commands) && CarefulPoll(Finished(Commanded(v, commands), i, now), i + 1, now, handler)
     else CarefulPoll(v, i + 1, now, handler))
  }

  ghost predicate Sound(s: State) {
    Consistent(s) && AllDue(s.log)
  }

  lemma ObeyedKeeps(s: State, command: Command)
    requires Sound(s) && (command.RemoveTimer? ==> Live(s, command.id))
    ensures Sound(Obeyed(s, command))
  {
    hide Consistent, AllDue, Added, StartedAt, Stopped, Flagged, Live;
    StepKeeps(s, match command
                 case AddTimer(msec, singleShot) => Add(msec, singleShot)
                 case StartTimer(id, time) => Start(id, time)
                 case StopTimer(id) => Stop(id)
                 case RemoveTimer(id) => Remove(id));
  }

  lemma {:induction false} CommandedKeeps(s: State, commands: seq<Command>)
    requires Sound(s) && Careful(s, commands)
    ensures Sound(Commanded(s, commands))
    decreases |commands|
  {
    hide Sound, Obeyed;
    if commands != [] {
      ObeyedKeeps(s, commands[0]);
      CommandedKeeps(Obeyed(s, commands[0]), commands[1..]);
    }
  }

  /** A whole poll keeps the timer accounts, and everything it fires is due, when its
      handlers remove live timers only. */
  lemma {:induction false} PolledKeeps(s: State, i: nat, now: nat, handler: int -> seq<Command>)
    requires Sound(s) && s.poller == Polling(i, now) && CarefulPoll(s, i, now, handler)
    ensures Sound(Polled(s, i, now, handler))
    decreases MAX_TIMERS - i
  {
    hide Consistent, AllDue, Visited, Finished, Commanded, Careful;
    if i >= s.count {
      StepKeeps(s, EndPoll);
    } else {
      StepKeeps(s, Visit);
      VisitLeads(s, i, now);
      var v := Visited(s, i, now);
      if v.poller.InHandler? {
        var commands := handler(v.table[i].id);
        CommandedKeeps(v, commands);
        var w := Commanded(v, commands);
        StepKeeps(w, FinishHandler);
        FinishLeads(w, i, now);
        PolledKeeps(Finished(w, i, now), i + 1, now, handler);
      } else {
        PolledKeeps(v, i + 1, now, handler);
      }
    }
  }

  lemma VisitLeads(s: State, i: nat, now: nat)
    requires i < s.count
    ensures var v := Visited(s, i, now);
            v.poller == Polling(i + 1, now) || (v.poller == InHandler(i, now) && v.count == s.count)
  {
  }

  lemma FinishLeads(s: State, i: nat, now: nat)
    requires i < s.count
    ensures Finished(s, i, now).poller == Polling(i + 1, now)
  {
  }

  class Pump {
    const timerTable: array<Timer>
    var nextTimerSlot: nat
    var maxTimerId: nat
    ghost var poller: Poller
    ghost var log: seq<Entry>

    /** timer_pump_init */
    constructor ()
      ensures Valid() && Abstract() == BEGIN && fresh(timerTable)
    {
      timerTable := new Timer[MAX_TIMERS](_ => ZERO);
      nextTimerSlot, maxTimerId := 0, 0;
      poller, log := Idle, [];
      new;
      assert timerTable[..] == BEGIN.table;
    }

    ghost predicate Sized()
      reads this
    {
      timerTable.Length == MAX_TIMERS && nextTimerSlot <= MAX_TIMERS
    }

    ghost function Abstract(): State
      reads this, timerTable
      requires Sized()
    {
      State(timerTable[..], nextTimerSlot, maxTimerId, poller, log)
    }

    ghost predicate Valid()
      reads this, timerTable
    {
      Sized() && Sound(Abstract())
    }

    /** timer_pump_add_timeout */
    method AddTimeout(msec: nat, singleShot: bool) returns (timerId: int)
      requires Sized()
      modifies this, timerTable
      ensures Sized() && Abstract() == Step(old(Abstract()), Add(msec, singleShot))
      ensures old(Valid()) ==> Valid()
      ensures timerId == if old(nextTimerSlot) < MAX_TIMERS then old(maxTimerId) else -1
      ensures timerId >= 0 ==> Live(Abstract(), timerId)
    {
      hide Consistent, AllDue;
      if Valid() {
        StepKeeps(Abstract(), Add(msec, singleShot));
      }
      timerId := -1;
      if nextTimerSlot < MAX_TIMERS {
        var slot := nextTimerSlot;
        timerTable[slot] := timerTable[slot].(id := maxTimerId, timeout := msec * NANOS_PER_MSEC, lastPoll := 0,
                                              started := false, singleShot := singleShot);
        log := log + [Created(maxTimerId, timerTable[slot].timeout, singleShot)];
        maxTimerId := maxTimerId + 1;
        nextTimerSlot := nextTimerSlot + 1;
        timerId := timerTable[slot].id;
      }
    }

    /** The loops that look for an id among the first n slots. */
    method FindSlot(n: nat, id: int) returns (i: nat)
      requires Sized() && n <= MAX_TIMERS
      ensures i == Find(timerTable[..], n, id)
    {
      i := 0;
      while i < n
        invariant i <= n
        invariant forall k | 0 <= k < i :: timerTable[k].id != id
      {
        if timerTable[i].id == id {
          FindIsFirst(timerTable[..], n, id, i);
          return;
        }
        i := i + 1;
      }
      FindIsFirst(timerTable[..], n, id, n);
    }

    /** timer_pump_remove_timeout. The invariant survives when the id is live; otherwise
        a free slot may be left flagged. */
    method RemoveTimeout(id: int)
      requires Sized()
      modifies this, timerTable
      ensures Sized() && Abstract() == Flagged(old(Abstract()), id)
      ensures old(Valid() && Live(Abstract(), id)) ==> Valid()
    {
      hide Consistent, AllDue;
      if Valid() && Live(Abstract(), id) {
        StepKeeps(Abstract(), Remove(id));
      }
      var i := FindSlot(MAX_TIMERS, id);
      if i < MAX_TIMERS {
        timerTable[i] := timerTable[i].(removePending := true);
        log := log + [Removed(id)];
      }
    }

    /** timer_pump_start_timer, with the reading of the clock */
    method Start(id: int, time: nat)
      requires Sized()
      modifies this, timerTable
      ensures Sized() && Abstract() == Step(old(Abstract()), Action.Start(id, time))
      ensures old(Valid()) ==> Valid()
    {
      hide Consistent, AllDue;
      if Valid() {
        StepKeeps(Abstract(), Action.Start(id, time));
      }
      var i := FindSlot(nextTimerSlot, id);
      if i < nextTimerSlot {
        timerTable[i] := timerTable[i].(started := true, lastPoll := time, current := timerTable[i].timeout);
        log := log + [Started(id, time)];
      }
    }

    /** timer_pump_stop_timer */
    method Stop(id: int)
      requires Sized()
      modifies this`log, timerTable
      ensures Sized() && Abstract() == Step(old(Abstract()), Action.Stop(id))
      ensures old(Valid()) ==> Valid()
    {
      hide Consistent, AllDue;
      if Valid() {
        StepKeeps(Abstract(), Action.Stop(id));
      }
      var i := FindSlot(nextTimerSlot, id);
      if i < nextTimerSlot {
        timerTable[i] := timerTable[i].(started := false);
        log := log + [Halted(id)];
      }
    }

    /** timer_purge_timers */
    method PurgeTimers(i: nat)
      requires Sized() && i < nextTimerSlot
      modifies this`nextTimerSlot, timerTable
      ensures Sized() && Abstract() == Purged(old(Abstract()), i)
    {
      if timerTable[i].removePending {
        timerTable[i] := timerTable[nextTimerSlot - 1];
        timerTable[nextTimerSlot - 1] := ZERO;
        nextTimerSlot := nextTimerSlot - 1;
      }
    }

    /** One turn of the poll loop up to the handler call; `fired` says that there is one. */
    method VisitSlot(i: nat, now: nat) returns (fired: bool)
      requires Sized() && poller == Polling(i, now) && i < nextTimerSlot
      modifies this, timerTable
      ensures Sized() && Abstract() == Step(old(Abstract()), Visit)
      ensures poller == if fired then InHandler(i, now) else Polling(i + 1, now)
      ensures fired ==> i < nextTimerSlot
    {
      fired := false;
      if timerTable[i].started && timerTable[i].lastPoll < now {
        var delta := now - timerTable[i].lastPoll;
        timerTable[i] := timerTable[i].(current := timerTable[i].current - delta, lastPoll := now);
        if timerTable[i].current <= 0 {
          if !timerTable[i].removePending {
            var t := timerTable[i];
            poller := InHandler(i, now);
            log := log + [Fired(t.id, now, t.timeout, t.singleShot)];
            return true;
          }
          PurgeTimers(i);
        }
      }
      poller := Polling(i + 1, now);
    }

    /** The turn's end, after the handler. */
    method FinishSlot(i: nat, now: nat)
      requires Sized() && poller == InHandler(i, now) && i < nextTimerSlot
      modifies this, timerTable
      ensures Sized() && Abstract() == Step(old(Abstract()), FinishHandler)
      ensures poller == Polling(i + 1, now)
    {
      if timerTable[i].singleShot {
        timerTable[i] := timerTable[i].(started := false);
        log := log + [Expired(timerTable[i].id)];
      } else {
        timerTable[i] := timerTable[i].(current := timerTable[i].timeout);
      }
      PurgeTimers(i);
      poller := Polling(i + 1, now);
    }

    /** One command of a handler. */
    method Obey(command: Command)
      requires Sized()
      modifies this, timerTable
      ensures Sized() && Abstract() == Obeyed(old(Abstract()), command)
    {
      hide Added, StartedAt, Stopped, Flagged, Valid;
      match command {
        case AddTimer(msec, singleShot) => var added := AddTimeout(msec, singleShot);
        case StartTimer(id, time) => Start(id, time);
        case StopTimer(id) => Stop(id);
        case RemoveTimer(id) => RemoveTimeout(id);
      }
    }

    /** A handler at work. */
    method RunHandler(commands: seq<Command>)
      requires Sized()
      modifies this, timerTable
      ensures Sized() && Abstract() == Commanded(old(Abstract()), commands)
    {
      hide Obeyed;
      ghost var whole := Commanded(Abstract(), commands);
      assert commands[0..] == commands;
      var k := 0;
      while k < |commands|
        invariant k <= |commands| && Sized()
        invariant Commanded(Abstract(), commands[k..]) == whole
      {
        assert commands[k..][0] == commands[k] && commands[k..][1..] == commands[k + 1..];
        Obey(commands[k]);
        k := k + 1;
      }
    }

    /** timer_pump_poll: every slot in turn, with what the handlers do in between. When
        they remove live timers only, the invariant is kept, which says that everything
        that has fired was due. */
    method Poll(now: nat, handler: int -> seq<Command>)
      requires Sized() && poller == Idle
      modifies this, timerTable
      ensures Sized() && poller == Idle
      ensures Abstract() == Polled(old(Abstract()).(poller := Polling(0, now)), 0, now, handler)
      ensures old(Valid() && CarefulPoll(Abstract().(poller := Polling(0, now)), 0, now, handler)) ==> Valid()
    {
      hide Consistent, AllDue, Visited, Finished, Commanded, CarefulPoll;
      if Valid() && CarefulPoll(Abstract().(poller := Polling(0, now)), 0, now, handler) {
        StepKeeps(Abstract(), BeginPoll(now));
        PolledKeeps(Abstract().(poller := Polling(0, now)), 0, now, handler);
      }
      PollSlots(now, handler);
    }

    /** Its loop. */
    method PollSlots(now: nat, handler: int -> seq<Command>)
      requires Sized() && poller == Idle
      modifies this, timerTable
      ensures Sized() && poller == Idle
      ensures Abstract() == Polled(old(Abstract()).(poller := Polling(0, now)), 0, now, handler)
    {
      hide Visited, Finished, Commanded;
      poller := Polling(0, now);
      ghost var whole := Polled(Abstract(), 0, now, handler);
      var i := 0;
      while i < nextTimerSlot
        invariant Sized() && poller == Polling(i, now)
        invariant Polled(Abstract(), i, now, handler) == whole
        decreases MAX_TIMERS - i
      {
        ghost var before := Abstract();
        var fired := VisitSlot(i, now);
        if fired {
          ghost var visited := Abstract();
          RunHandler(handler(timerTable[i].id));
          assert Abstract() == Commanded(visited, handler(visited.table[i].id));
          FinishSlot(i, now);
        }
        i := i + 1;
      }
      poller := Idle;
    }
  }

  lemma FindIsFirst(table: seq<Timer>, n: nat, id: int, i: nat)
    requires i <= n <= |table|
    requires forall k | 0 <= k < i :: table[k].id != id
    requires i < n ==> table[i].id == id
    ensures Find(table, n, id) == i
  {
  }
}
