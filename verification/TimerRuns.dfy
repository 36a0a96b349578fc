/** timer_pump.c as a state machine: the timer table, the poller, which may be inside a
    timer's handler, and what has happened so far. Handlers may add, remove, start
    and stop timers, and so may anyone else between the poller's steps; the part of a turn
    in front of the handler is one step, and the part behind it another. */
module TimerRuns {
  import opened Prelude

  const MAX_TIMERS: nat := 128
  const NANOS_PER_MSEC: nat := 1000000

  /** timer_event_data_t without the callback */
  datatype Timer = Timer(
    id: int,
    timeout: nat,
    current: int,
    lastPoll: nat,
    started: bool,
    singleShot: bool,
    removePending: bool)

  /** A slot as memset leaves it. */
  const ZERO: Timer := Timer(0, 0, 0, 0, false, false, false)

  type Table = t: seq<Timer> | |t| == MAX_TIMERS witness seq(MAX_TIMERS, _ => ZERO)

  type Count = n: nat | n <= MAX_TIMERS

  /** Where timer_pump_poll stands: not running, about to look at slot i, or inside the
      handler of the timer in slot i. */
  datatype Poller = Idle | Polling(i: nat, now: nat) | InHandler(i: nat, now: nat)

  /** What happens to timers: creation with the timeout in nanoseconds, starts and stops,
      firings, the end of a single shot, removal. */
  datatype Entry =
    | Created(id: int, timeout: nat, singleShot: bool)
    | Started(id: int, time: nat)
    | Halted(id: int)
    | Fired(id: int, time: nat, timeout: nat, singleShot: bool)
    | Expired(id: int)
    | Removed(id: int)

  datatype State = State(table: Table, count: Count, nextId: nat, poller: Poller, log: seq<Entry>)

  const BEGIN: State := State(seq(MAX_TIMERS, _ => ZERO), 0, 0, Idle, [])

  datatype Action =
    | Add(msec: nat, singleShot: bool)
    | Remove(id: int)
    | Start(id: int, time: nat)
    | Stop(id: int)
    | BeginPoll(now: nat)
    | Visit
    | FinishHandler
    | EndPoll

  ghost predicate Live(s: State, id: int) {
    exists i :: 0 <= i < s.count && s.table[i].id == id
  }

  /** Only live timers are removed. */
  ghost predicate Enabled(s: State, a: Action) {
    match a
    case Add(_, _) | Start(_, _) | Stop(_) => true
    case Remove(id) => Live(s, id)
    case BeginPoll(_) => s.poller == Idle
    case Visit => s.poller.Polling? && s.poller.i < s.count
    case FinishHandler => s.poller.InHandler? && s.poller.i < s.count
    case EndPoll => s.poller.Polling? && s.poller.i >= s.count
  }

  /** The first of the first n slots with this id, or n. */
  function Find(table: seq<Timer>, n: nat, id: int): (i: nat)
    requires n <= |table|
    ensures i <= n && (i < n ==> table[i].id == id)
    ensures forall k | 0 <= k < i :: table[k].id != id
  {
    if n == 0 then 0
    else
      var i := Find(table, n - 1, id);
      if i < n - 1 then i else if table[n - 1].id == id then n - 1 else n
  }

  function Added(s: State, msec: nat, singleShot: bool): State
  {
    if s.count < MAX_TIMERS then
      var t := s.table[s.count].(id := s.nextId, timeout := msec * NANOS_PER_MSEC, lastPoll := 0,
                                 started := false, singleShot := singleShot);
      s.(table := s.table[s.count := t], count := s.count + 1, nextId := s.nextId + 1,
         log := s.log + [Created(t.id, t.timeout, t.singleShot)])
    else s
  }

  /** timer_pump_remove_timeout looks through all slots, the free ones too. */
  function Flagged(s: State, id: int): State
  {
    var i := Find(s.table, MAX_TIMERS, id);
    if i < MAX_TIMERS then
      s.(table := s.table[i := s.table[i].(removePending := true)], log := s.log + [Removed(id)])
    else s
  }

  function StartedAt(s: State, id: int, time: nat): State
  {
    var i := Find(s.table, s.count, id);
    if i < s.count then
      var t := s.table[i];
      s.(table := s.table[i := t.(started := true, lastPoll := time, current := t.timeout)],
         log := s.log + [Started(id, time)])
    else s
  }

  function Stopped(s: State, id: int): State
  {
    var i := Find(s.table, s.count, id);
    if i < s.count then s.(table := s.table[i := s.table[i].(started := false)], log := s.log + [Halted(id)]) else s
  }

  /** timer_purge_timers: the last timer moves into the freed slot. */
  function Purged(s: State, i: nat): State
    requires i < s.count
  {
    if s.table[i].removePending
    then s.(table := s.table[i := s.table[s.count - 1]][s.count - 1 := ZERO], count := s.count - 1)
    else s
  }

  /** One turn of the loop in timer_pump_poll, up to the handler call. */
  function Visited(s: State, i: nat, now: nat): State
    requires i < s.count
  {
    var t := s.table[i];
    if t.started && t.lastPoll < now then
      var u := t.(current := t.current - (now - t.lastPoll), lastPoll := now);
      var v := s.(table := s.table[i := u]);
      if u.current <= 0 then
        if !u.removePending
        then v.(poller := InHandler(i, now), log := s.log + [Fired(u.id, now, u.timeout, u.singleShot)])
        else Purged(v, i).(poller := Polling(i + 1, now))
      else v.(poller := Polling(i + 1, now))
    else s.(poller := Polling(i + 1, now))
  }

  /** The timer of the handler that returns, before it is purged. */
  function Rested(s: State, i: nat, now: nat): State
    requires i < s.count
  {
    var t := s.table[i];
    var r := s.(table := s.table[i := if t.singleShot then t.(started := false) else t.(current := t.timeout)],
                poller := Polling(i + 1, now));
    if t.singleShot then r.(log := s.log + [Expired(t.id)]) else r
  }

  /** The rest of that turn, when the handler has returned. */
  function Finished(s: State, i: nat, now: nat): State
    requires i < s.count
  {
    Purged(Rested(s, i, now), i)
  }

  function Step(s: State, a: Action): State
    requires Enabled(s, a)
  {
    match a
    case Add(msec, singleShot) => Added(s, msec, singleShot)
    case Remove(id) => Flagged(s, id)
    case Start(id, time) => StartedAt(s, id, time)
    case Stop(id) => Stopped(s, id)
    case BeginPoll(now) => s.(poller := Polling(0, now))
    case Visit => Visited(s, s.poller.i, s.poller.now)
    case FinishHandler => Finished(s, s.poller.i, s.poller.now)
    case EndPoll => s.(poller := Idle)
  }

  // ----- What every step keeps ---------------------------------------------

  /** The table holds the live timers in front and zeroed slots behind; ids are given out
      once and differ. */
  ghost predicate Shaped(s: State) {
    && (forall i | s.count <= i < MAX_TIMERS :: s.table[i] == ZERO)
    && (forall i | 0 <= i < s.count :: 0 <= s.table[i].id < s.nextId)
    && (forall i, j | 0 <= i < j < s.count :: s.table[i].id != s.table[j].id)
    && (s.poller.InHandler? ==> s.poller.i < s.count)
  }

  /** The last time a timer was started or fired. */
  function LastArmed(log: seq<Entry>, id: int): (r: Option<Entry>)
    ensures r.Some? ==> (r.value.Started? || r.value.Fired?) && r.value.id == id
  {
    if log == [] then None
    else
      var e := log[|log| - 1];
      if e.id == id && (e.Started? || e.Fired?) then Some(e) else LastArmed(log[..|log| - 1], id)
  }

  /** A timer runs when it was started and has been neither stopped nor, as a single shot
      whose handler is done, at its end since. */
  predicate Running(log: seq<Entry>, id: int) {
    log != [] &&
    var e := log[|log| - 1];
    if e.id == id && (e.Started? || e.Halted? || e.Expired?) then e.Started? else Running(log[..|log| - 1], id)
  }

  ghost predicate WasRemoved(log: seq<Entry>, id: int) {
    Removed(id) in log
  }

  /** A timer that runs has as much time left as its timeout minus the time since it was
      started or fired; a single shot that runs was started and has not fired since. */
  ghost predicate Accounted(log: seq<Entry>, t: Timer) {
    t.started ==>
      var armed := LastArmed(log, t.id);
      && armed.Some? && t.current == t.timeout - (t.lastPoll - armed.value.time)
      && (t.singleShot ==> armed.value.Started?)
  }

  /** The flags of a timer are what has happened to it. */
  ghost predicate Known(log: seq<Entry>, t: Timer) {
    && Created(t.id, t.timeout, t.singleShot) in log
    && (t.started <==> Running(log, t.id))
    && (t.removePending <==> WasRemoved(log, t.id))
  }

  /** The timer whose handler runs is accounted for as if the handler had returned. */
  ghost predicate Settled(s: State, i: nat)
    requires i < s.count
  {
    var t := s.table[i];
    var after := if t.singleShot then t.(started := false) else t.(current := t.timeout);
    && Known(s.log, t)
    && Accounted(s.log, if s.poller.InHandler? && s.poller.i == i then after else t)
  }

  /** Ids are given out one after the other, each once. */
  ghost predicate Numbered(log: seq<Entry>, nextId: nat) {
    && (forall e | e in log :: e.id < nextId)
    && (forall j, k | 0 <= j < k < |log| && log[j].Created? && log[k].Created? :: log[j].id != log[k].id)
  }

  ghost predicate Consistent(s: State) {
    && Shaped(s) && Numbered(s.log, s.nextId)
    && (forall i | 0 <= i < s.count :: Settled(s, i))
  }

  /** A firing is due: the timer was created with this timeout and shot; it runs; it was
      started or had fired before, its full timeout ago; a single shot was started after it
      last fired; and it was not removed. */
  ghost predicate Due(log: seq<Entry>, k: nat)
    requires k < |log| && log[k].Fired?
  {
    var f, before := log[k], log[..k];
    var armed := LastArmed(before, f.id);
    && Created(f.id, f.timeout, f.singleShot) in before && Running(before, f.id)
    && armed.Some? && armed.value.time + f.timeout <= f.time
    && (f.singleShot ==> armed.value.Started?)
    && !WasRemoved(before, f.id)
  }

  ghost predicate AllDue(log: seq<Entry>) {
    forall k | 0 <= k < |log| && log[k].Fired? :: Due(log, k)
  }

  // ----- Each step ---------------------------------------------------------

  lemma Appended(log: seq<Entry>, e: Entry, id: int)
    ensures LastArmed(log + [e], id) == if e.id == id && (e.Started? || e.Fired?) then Some(e) else LastArmed(log, id)
    ensures Running(log + [e], id) ==
            if e.id == id && (e.Started? || e.Halted? || e.Expired?) then e.Started? else Running(log, id)
    ensures WasRemoved(log + [e], id) <==> WasRemoved(log, id) || e == Removed(id)
  {
    assert (log + [e])[..|log|] == log;
  }

  lemma {:induction false} NothingHappened(log: seq<Entry>, id: int)
    requires forall e | e in log :: e.id != id
    ensures !Running(log, id) && !WasRemoved(log, id)
    decreases |log|
  {
    if log != [] {
      assert log[|log| - 1] in log;
      NothingHappened(log[..|log| - 1], id);
    }
  }

  lemma NumberedNext(log: seq<Entry>, nextId: nat, e: Entry)
    requires Numbered(log, nextId) && !e.Created? && e.id < nextId
    ensures Numbered(log + [e], nextId)
  {
  }

  lemma NumberedCreated(log: seq<Entry>, nextId: nat, e: Entry)
    requires Numbered(log, nextId) && e.id == nextId
    ensures Numbered(log + [e], nextId + 1)
  {
    assert forall k | 0 <= k < |log| :: log[k] in log;
  }

  /** An entry about one timer leaves all others as they are. */
  lemma OthersKnown(log: seq<Entry>, e: Entry, t: Timer)
    requires Known(log, t) && e.id != t.id
    ensures Known(log + [e], t)
    ensures Accounted(log, t) ==> Accounted(log + [e], t)
    ensures Accounted(log, t.(started := false)) ==> Accounted(log + [e], t.(started := false))
    ensures Accounted(log, t.(current := t.timeout)) ==> Accounted(log + [e], t.(current := t.timeout))
  {
    Appended(log, e, t.id);
  }

  lemma OtherSettled(s: State, r: State, k: nat, e: Entry)
    requires k < s.count && k < r.count && Settled(s, k)
    requires r.table[k] == s.table[k] && r.poller == s.poller && r.log == s.log + [e] && e.id != s.table[k].id
    ensures Settled(r, k)
  {
    hide Known, Accounted;
    OthersKnown(s.log, e, s.table[k]);
  }

  lemma AddKeeps(s: State, msec: nat, singleShot: bool)
    requires Consistent(s)
    ensures Consistent(Added(s, msec, singleShot))
  {
    hide Numbered, Settled;
    if s.count < MAX_TIMERS {
      var r := Added(s, msec, singleShot);
      var e := r.log[|s.log|];
      NumberedCreated(s.log, s.nextId, e);
      forall i | 0 <= i < r.count ensures Settled(r, i) {
        if i < s.count {
          OtherSettled(s, r, i, e);
        } else {
          NewSettled(s, msec, singleShot);
        }
      }
    }
  }

  lemma NewSettled(s: State, msec: nat, singleShot: bool)
    requires Shaped(s) && Numbered(s.log, s.nextId) && s.count < MAX_TIMERS
    ensures Settled(Added(s, msec, singleShot), s.count)
  {
    var r := Added(s, msec, singleShot);
    NothingHappened(s.log, s.nextId);
    Appended(s.log, r.log[|s.log|], s.nextId);
  }

  lemma RemoveKeeps(s: State, id: int)
    requires Consistent(s) && Live(s, id)
    ensures Consistent(Flagged(s, id)) && Flagged(s, id).log == s.log + [Removed(id)]
  {
    var i := Find(s.table, MAX_TIMERS, id);
    assert i < s.count;
    var r := Flagged(s, id);
    Appended(s.log, Removed(id), id);
    NumberedNext(s.log, s.nextId, Removed(id));
    forall k | 0 <= k < r.count ensures Settled(r, k) {
      assert Settled(s, k);
      if k != i {
        OtherSettled(s, r, k, Removed(id));
      }
    }
  }

  lemma StartKeeps(s: State, id: int, time: nat)
    requires Consistent(s)
    ensures Consistent(StartedAt(s, id, time))
  {
    var i := Find(s.table, s.count, id);
    if i < s.count {
      var r := StartedAt(s, id, time);
      Appended(s.log, Started(id, time), id);
      NumberedNext(s.log, s.nextId, Started(id, time));
      forall k | 0 <= k < r.count ensures Settled(r, k) {
        assert Settled(s, k);
        if k != i {
          OtherSettled(s, r, k, Started(id, time));
        }
      }
    }
  }

  lemma StopKeeps(s: State, id: int)
    requires Consistent(s)
    ensures Consistent(Stopped(s, id))
  {
    var i := Find(s.table, s.count, id);
    if i < s.count {
      var r := Stopped(s, id);
      Appended(s.log, Halted(id), id);
      NumberedNext(s.log, s.nextId, Halted(id));
      forall k | 0 <= k < r.count ensures Settled(r, k) {
        assert Settled(s, k);
        if k != i {
          OtherSettled(s, r, k, Halted(id));
        }
      }
    }
  }

  /** Purging from a table where every timer is accounted for as it stands. */
  lemma PurgeKeeps(s: State, i: nat)
    requires Consistent(s) && i < s.count && !s.poller.InHandler?
    ensures Consistent(Purged(s, i)) && Purged(s, i).log == s.log
  {
    hide Numbered, Known, Accounted;
    var r := Purged(s, i);
    forall k | 0 <= k < r.count ensures Settled(r, k) {
      assert Settled(s, k) && Settled(s, s.count - 1);
    }
  }

  /** The poller's moves do not touch timers. */
  lemma PollerKeeps(s: State, p: Poller)
    requires Consistent(s) && !s.poller.InHandler? && !p.InHandler?
    ensures Consistent(s.(poller := p))
  {
    hide Numbered, Known, Accounted;
    var r := s.(poller := p);
    forall k | 0 <= k < r.count ensures Settled(r, k) {
      assert Settled(s, k);
    }
  }

  /** The timer that is looked at before it fires or is purged. */
  lemma ElapseKeeps(s: State, i: nat, now: nat)
    requires Consistent(s) && !s.poller.InHandler? && i < s.count
    requires s.table[i].started && s.table[i].lastPoll < now
    ensures var t := s.table[i];
            Consistent(s.(table := s.table[i := t.(current := t.current - (now - t.lastPoll), lastPoll := now)]))
  {
    hide Numbered;
    var t := s.table[i];
    var r := s.(table := s.table[i := t.(current := t.current - (now - t.lastPoll), lastPoll := now)]);
    forall k | 0 <= k < r.count ensures Settled(r, k) {
      assert Settled(s, k);
    }
  }

  /** Firing: the entry is due, and the timer is settled once its handler returns. */
  lemma FireKeeps(s: State, i: nat, now: nat)
    requires Consistent(s) && !s.poller.InHandler? && i < s.count
    requires var t := s.table[i]; t.started && t.lastPoll == now && t.current <= 0 && !t.removePending
    ensures var t := s.table[i];
            var log := s.log + [Fired(t.id, now, t.timeout, t.singleShot)];
            Consistent(s.(poller := InHandler(i, now), log := log)) && Due(log, |s.log|)
  {
    var t := s.table[i];
    var e := Fired(t.id, now, t.timeout, t.singleShot);
    var r := s.(poller := InHandler(i, now), log := s.log + [e]);
    assert Settled(s, i);
    assert r.log[..|s.log|] == s.log;
    Appended(s.log, e, t.id);
    NumberedNext(s.log, s.nextId, e);
    forall k | 0 <= k < r.count ensures Settled(r, k) {
      assert Settled(s, k);
      if k != i {
        OthersKnown(s.log, e, s.table[k]);
      }
    }
  }

  lemma RestKeeps(s: State, i: nat, now: nat)
    requires Consistent(s) && s.poller == InHandler(i, now)
    ensures Consistent(Rested(s, i, now))
  {
    var r := Rested(s, i, now);
    var t, e := s.table[i], Expired(s.table[i].id);
    Appended(s.log, e, t.id);
    NumberedNext(s.log, s.nextId, e);
    forall k | 0 <= k < r.count ensures Settled(r, k) {
      assert Settled(s, k);
      if k != i {
        OthersKnown(s.log, e, s.table[k]);
      }
    }
  }

  lemma FinishKeeps(s: State, i: nat, now: nat)
    requires Consistent(s) && s.poller == InHandler(i, now)
    ensures var r := Finished(s, i, now);
            Consistent(r) && (r.log == s.log || r.log == s.log + [Expired(s.table[i].id)])
  {
    hide Consistent;
    ConsistentIsShaped(s);
    RestKeeps(s, i, now);
    PurgeKeeps(Rested(s, i, now), i);
  }

  lemma VisitKeeps(s: State, i: nat, now: nat)
    requires Consistent(s) && s.poller == Polling(i, now) && i < s.count
    ensures var r := Visited(s, i, now);
            && Consistent(r)
            && (r.log == s.log || (r.log[..|s.log|] == s.log && |r.log| == |s.log| + 1 && r.log[|s.log|].Fired? && Due(r.log, |s.log|)))
  {
    hide Consistent, Due, Settled;
    ConsistentIsShaped(s);
    var t := s.table[i];
    if t.started && t.lastPoll < now {
      ElapseKeeps(s, i, now);
      var u := t.(current := t.current - (now - t.lastPoll), lastPoll := now);
      var v := s.(table := s.table[i := u]);
      if u.current <= 0 && !u.removePending {
        FireKeeps(v, i, now);
      } else if u.current <= 0 {
        PurgeKeeps(v, i);
        PollerKeeps(Purged(v, i), Polling(i + 1, now));
      } else {
        PollerKeeps(v, Polling(i + 1, now));
      }
    } else {
      PollerKeeps(s, Polling(i + 1, now));
    }
  }

  /** Entries in front of a new one keep what was said of them. */
  lemma AllDueAppend(log: seq<Entry>, e: Entry)
    requires AllDue(log) && (e.Fired? ==> Due(log + [e], |log|))
    ensures AllDue(log + [e])
  {
    hide Due;
    forall k | 0 <= k < |log + [e]| && (log + [e])[k].Fired? ensures Due(log + [e], k) {
      if k < |log| {
        assert Due(log, k);
        DuePrefix(log, e, k);
      }
    }
  }

  lemma DuePrefix(log: seq<Entry>, e: Entry, k: nat)
    requires k < |log| && log[k].Fired? && Due(log, k)
    ensures Due(log + [e], k)
  {
    assert (log + [e])[..k] == log[..k];
  }

  lemma StepKeeps(s: State, a: Action)
    requires Consistent(s) && Enabled(s, a) && AllDue(s.log)
    ensures Consistent(Step(s, a)) && AllDue(Step(s, a).log)
  {
    hide Settled, Due, Consistent, Visited, Finished, AllDue;
    match a
    case Add(msec, singleShot) =>
      AddKeeps(s, msec, singleShot);
      AllDueAppend(s.log, Created(s.nextId, msec * NANOS_PER_MSEC, singleShot));
    case Remove(id) =>
      RemoveKeeps(s, id);
      AllDueAppend(s.log, Removed(id));
    case Start(id, time) =>
      StartKeeps(s, id, time);
      AllDueAppend(s.log, Started(id, time));
    case Stop(id) =>
      StopKeeps(s, id);
      AllDueAppend(s.log, Halted(id));
    case BeginPoll(now) => PollerKeeps(s, Polling(0, now));
    case Visit =>
      VisitKeeps(s, s.poller.i, s.poller.now);
      var r := Visited(s, s.poller.i, s.poller.now);
      if r.log != s.log {
        assert r.log == s.log + [r.log[|s.log|]];
        AllDueAppend(s.log, r.log[|s.log|]);
      }
    case FinishHandler =>
      FinishKeeps(s, s.poller.i, s.poller.now);
      AllDueAppend(s.log, Expired(s.table[s.poller.i].id));
    case EndPoll => PollerKeeps(s, Idle);
  }

  lemma ConsistentIsShaped(s: State)
    requires Consistent(s)
    ensures Shaped(s)
  {
  }

  // ----- Whole runs --------------------------------------------------------

  ghost predicate IsRun(s: State, actions: seq<Action>)
    decreases |actions|
  {
    actions == [] || (Enabled(s, actions[0]) && IsRun(Step(s, actions[0]), actions[1..]))
  }

  function After(s: State, actions: seq<Action>): State
    requires IsRun(s, actions)
    decreases |actions|
  {
    if actions == [] then s else After(Step(s, actions[0]), actions[1..])
  }

  lemma {:induction false} RunKeeps(s: State, actions: seq<Action>)
    requires Consistent(s) && AllDue(s.log) && IsRun(s, actions)
    ensures Consistent(After(s, actions)) && AllDue(After(s, actions).log)
    decreases |actions|
  {
    hide Consistent, AllDue, Step;
    if actions != [] {
      StepKeeps(s, actions[0]);
      RunKeeps(Step(s, actions[0]), actions[1..]);
    }
  }

  /** Over every run in which only live timers are removed: the live timers have different
      ids, and every firing is due. */
  lemma EveryRunIsSound(actions: seq<Action>)
    requires IsRun(BEGIN, actions)
    ensures Shaped(After(BEGIN, actions)) && AllDue(After(BEGIN, actions).log)
  {
    RunKeeps(BEGIN, actions);
  }

  /** The poller fires the timer in a slot exactly when it is running, its full timeout as
      it was created is over since it was started or fired, it was not removed, and it was
      not looked at this very moment already. */
  lemma FiresExactlyWhenDue(s: State, i: nat, now: nat)
    requires Consistent(s) && s.poller == Polling(i, now) && i < s.count
    ensures var t := s.table[i];
            var armed := LastArmed(s.log, t.id);
            && Created(t.id, t.timeout, t.singleShot) in s.log
            && (Running(s.log, t.id) ==> armed.Some?)
            && (Visited(s, i, now).log != s.log <==>
                Running(s.log, t.id) && armed.value.time + t.timeout <= now && !WasRemoved(s.log, t.id) && t.lastPoll < now)
            && (Visited(s, i, now).log != s.log ==>
                Visited(s, i, now).log == s.log + [Fired(t.id, now, t.timeout, t.singleShot)])
  {
    assert Settled(s, i);
    var t := s.table[i];
    assert |s.log + [Fired(t.id, now, t.timeout, t.singleShot)]| != |s.log|;
  }

  /** What each call enters: an add the timer with its timeout in nanoseconds, as long as
      there is room; a start, stop or removal of a live timer itself, of any other nothing. */
  lemma CallsAreLogged(s: State, msec: nat, singleShot: bool, id: int, time: nat)
    requires Shaped(s)
    ensures Step(s, Add(msec, singleShot)).log ==
            s.log + if s.count < 128 then [Created(s.nextId, msec * 1000000, singleShot)] else []
    ensures Step(s, Start(id, time)).log == s.log + if Live(s, id) then [Started(id, time)] else []
    ensures Step(s, Stop(id)).log == s.log + if Live(s, id) then [Halted(id)] else []
    ensures Live(s, id) ==> Step(s, Remove(id)).log == s.log + [Removed(id)]
  {
    var i := Find(s.table, s.count, id);
    assert Live(s, id) <==> i < s.count;
    assert Live(s, id) ==> Find(s.table, MAX_TIMERS, id) == i;
    assert s.log + [] == s.log;
  }

  /** The log is only ever added to. */
  lemma {:induction false} LogGrows(s: State, actions: seq<Action>)
    requires IsRun(s, actions)
    ensures s.log <= After(s, actions).log
    decreases |actions|
  {
    hide Step;
    if actions != [] {
      StepLogs(s, actions[0]);
      LogGrows(Step(s, actions[0]), actions[1..]);
    }
  }

  lemma StepLogs(s: State, a: Action)
    requires Enabled(s, a)
    ensures s.log <= Step(s, a).log
  {
  }

  /** A stop takes hold: from the stop of a live timer on, in every run, a firing of it has
      a start between the stop and itself. */
  lemma NoFiringWhileStopped(actions: seq<Action>, id: int, more: seq<Action>, k: nat)
    requires IsRun(BEGIN, actions) && Live(After(BEGIN, actions), id)
    requires IsRun(Step(After(BEGIN, actions), Stop(id)), more)
    requires var log := After(Step(After(BEGIN, actions), Stop(id)), more).log;
             |After(BEGIN, actions).log| < k < |log| && log[k].Fired? && log[k].id == id
    ensures var log := After(Step(After(BEGIN, actions), Stop(id)), more).log;
            exists j, time :: |After(BEGIN, actions).log| < j < k && log[j] == Started(id, time)
  {
    hide Step, After, Consistent, AllDue;
    var s := After(BEGIN, actions);
    var t := Step(s, Stop(id));
    var r := After(t, more);
    BeginIsSound();
    RunKeeps(BEGIN, actions);
    ConsistentIsShaped(s);
    CallsAreLogged(s, 0, false, id, 0);
    StepKeeps(s, Stop(id));
    RunKeeps(t, more);
    LogGrows(t, more);
    var n := |s.log|;
    assert r.log[n] == Halted(id) by { assert t.log[n] == Halted(id); }
    DueRuns(r.log, k);
    StartSince(r.log[..k], id, n);
  }

  lemma BeginIsSound()
    ensures Consistent(BEGIN) && AllDue(BEGIN.log)
  {
  }

  lemma DueRuns(log: seq<Entry>, k: nat)
    requires AllDue(log) && k < |log| && log[k].Fired?
    ensures Running(log[..k], log[k].id)
  {
    assert Due(log, k);
  }

  lemma {:induction false} StartSince(log: seq<Entry>, id: int, n: nat)
    requires n < |log| && log[n] == Halted(id) && Running(log, id)
    ensures exists j, time :: n < j < |log| && log[j] == Started(id, time)
    decreases |log|
  {
    var last := |log| - 1;
    if log[last].id == id && log[last].Started? {
      assert log[last] == Started(id, log[last].time);
    } else {
      StartSince(log[..last], id, n);
      var j, time :| n < j < last && log[..last][j] == Started(id, time);
      assert log[j] == Started(id, time);
    }
  }

  /** A purge takes exactly the flagged timer out and leaves every other as it is. */
  lemma PurgeTakesOut(s: State, i: nat)
    requires Shaped(s) && i < s.count && s.table[i].removePending
    ensures var r := Purged(s, i);
            && !Live(r, s.table[i].id) && r.count == s.count - 1
            && (forall t: Timer | t.id != s.table[i].id :: t in r.table[..r.count] <==> t in s.table[..s.count])
  {
    var r := Purged(s, i);
    forall t: Timer | t.id != s.table[i].id ensures t in r.table[..r.count] <==> t in s.table[..s.count] {
      if t in s.table[..s.count] {
        var k :| 0 <= k < s.count && s.table[k] == t;
        assert r.table[..r.count][if k == s.count - 1 then i else k] == t;
      }
      if t in r.table[..r.count] {
        var k :| 0 <= k < r.count && r.table[k] == t;
        assert s.table[..s.count][if k == i then s.count - 1 else k] == t;
      }
    }
  }

  /** A removed timer is gone after the visit at which it would have fired. */
  lemma RemovedIsPurged(s: State, i: nat, now: nat)
    requires Consistent(s) && s.poller == Polling(i, now) && i < s.count
    requires var t := s.table[i];
             var armed := LastArmed(s.log, t.id);
             WasRemoved(s.log, t.id) && Running(s.log, t.id) && armed.Some? && armed.value.time + t.timeout <= now && t.lastPoll < now
    ensures !Live(Visited(s, i, now), s.table[i].id)
  {
    hide Consistent, Settled, Shaped, Purged, Live;
    SlotKnown(s, i, now);
    var t := s.table[i];
    var v := s.(table := s.table[i := t.(current := t.current - (now - t.lastPoll), lastPoll := now)]);
    ElapseKeeps(s, i, now);
    ConsistentIsShaped(v);
    PurgeTakesOut(v, i);
    SameLive(Purged(v, i), Polling(i + 1, now), t.id);
  }

  lemma SlotKnown(s: State, i: nat, now: nat)
    requires Consistent(s) && s.poller == Polling(i, now) && i < s.count
    ensures Known(s.log, s.table[i]) && Accounted(s.log, s.table[i])
  {
    assert Settled(s, i);
  }

  lemma SameLive(s: State, p: Poller, id: int)
    ensures Live(s.(poller := p), id) <==> Live(s, id)
  {
  }

  // ----- Where the code falls short ----------------------------------------

  /** Removing a timer that is not live does nothing, except for id 0 while a slot is free:
      then the free slot is flagged, and the next timer added is born removed. */
  lemma RemovingTheDead(s: State, id: int, msec: nat, singleShot: bool)
    requires Shaped(s) && !Live(s, id)
    ensures Flagged(s, id) == s <==> id != 0 || s.count == MAX_TIMERS
    ensures id == 0 && s.count < MAX_TIMERS ==>
              Added(Flagged(s, id), msec, singleShot).table[s.count].removePending
  {
    var i := Find(s.table, MAX_TIMERS, id);
    if i < s.count {
      assert Live(s, id);
      assert false;
    }
    if id == 0 && s.count < MAX_TIMERS {
      assert s.table[s.count] == ZERO;
      assert i == s.count;
      assert Flagged(s, id).table[i].removePending && !s.table[i].removePending;
    }
  }

  /** A start made by a handler takes hold, for any live timer, exactly when the timer is
      not the handler's own with a single shot or a pending removal. */
  lemma HandlerStartTakesHoldIff(s: State, i: nat, now: nat, k: nat, time: nat)
    requires Shaped(s) && s.poller == InHandler(i, now) && k < s.count
    ensures var id, r := s.table[k].id, Finished(StartedAt(s, s.table[k].id, time), i, now);
            (exists j :: 0 <= j < r.count && r.table[j].id == id && r.table[j].started)
            <==> !(k == i && (s.table[i].singleShot || s.table[i].removePending))
  {
    var id := s.table[k].id;
    assert Find(s.table, s.count, id) == k;
    var t := StartedAt(s, id, time);
    var r := Finished(t, i, now);
    if k != i {
      var j := if k == s.count - 1 && t.table[i].removePending then i else k;
      assert r.table[j].id == id && r.table[j].started;
    } else if !s.table[i].singleShot && !s.table[i].removePending {
      assert r.table[i].id == id && r.table[i].started;
    } else if s.table[i].removePending {
      assert forall j | 0 <= j < r.count :: r.table[j] == t.table[if j == i then s.count - 1 else j]
                                            || (j == i && i == s.count - 1);
    }
  }

  /** A single-shot timer that is started again by its own handler stays stopped: the poller
      clears the flag after the handler. */
  lemma SelfRestartIsLost(s: State, i: nat, now: nat, time: nat)
    requires Shaped(s) && s.poller == InHandler(i, now) && s.table[i].singleShot && !s.table[i].removePending
    ensures var r := Finished(StartedAt(s, s.table[i].id, time), i, now);
            r.count == s.count && r.table[i].id == s.table[i].id && !r.table[i].started
  {
    assert Find(s.table, s.count, s.table[i].id) == i;
  }
}
