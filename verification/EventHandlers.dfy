/** event_pump.c: the handlers of an event, which are flagged when they are unregistered
    and taken out of their list after the next event. */
module EventHandlers {

  /** event_handler_cb_t: what was registered, and whether it waits to be removed. The
      cell stands for the address of the variant that holds it in its list. */
  datatype Handler = Handler(cell: nat, callback: nat, context: nat, removePending: bool)

  /** How many flagged handlers one purge can remember. */
  const PURGE_LIMIT: nat := 100

  /** The handlers an event is given to. */
  function Active(handlers: seq<Handler>): seq<Handler> {
    if handlers == [] then []
    else (if handlers[0].removePending then [] else [handlers[0]]) + Active(handlers[1..])
  }

  /** The first registration of a callback with a context, flagged or not. */
  function IndexOf(handlers: seq<Handler>, callback: nat, context: nat): (i: nat)
    ensures i <= |handlers|
    ensures i < |handlers| ==> handlers[i].callback == callback && handlers[i].context == context
    ensures forall k | 0 <= k < i :: !(handlers[k].callback == callback && handlers[k].context == context)
  {
    if handlers == [] || (handlers[0].callback == callback && handlers[0].context == context) then 0
    else 1 + IndexOf(handlers[1..], callback, context)
  }

  /** event_pump_unregister_handler flags the first match. */
  function Unregistered(handlers: seq<Handler>, callback: nat, context: nat): seq<Handler> {
    var i := IndexOf(handlers, callback, context);
    if i < |handlers| then handlers[i := handlers[i].(removePending := true)] else handlers
  }

  /** event_pump_purge_handlers takes the flagged ones out, up to its limit. */
  function Purged(handlers: seq<Handler>, limit: nat): seq<Handler> {
    if handlers == [] then []
    else if handlers[0].removePending && limit > 0 then Purged(handlers[1..], limit - 1)
    else [handlers[0]] + Purged(handlers[1..], limit)
  }

  /** Purging changes nothing for any event. */
  lemma {:induction false} PurgeKeepsActive(handlers: seq<Handler>, limit: nat)
    ensures Active(Purged(handlers, limit)) == Active(handlers)
  {
    if handlers != [] {
      var limit' := if handlers[0].removePending && limit > 0 then limit - 1 else limit;
      PurgeKeepsActive(handlers[1..], limit');
      var rest := Purged(handlers[1..], limit');
      assert ([handlers[0]] + rest)[1..] == rest;
    }
  }

  /** A purge takes out as many flagged handlers as its limit allows: all of them, when there
      are no more than a hundred. */
  lemma {:induction false} PurgeLeaves(handlers: seq<Handler>, limit: nat)
    ensures var flagged := |handlers| - |Active(handlers)|;
            && 0 <= flagged && |Purged(handlers, limit)| == |handlers| - (if flagged <= limit then flagged else limit)
            && (flagged <= limit ==> Purged(handlers, limit) == Active(handlers))
  {
    if handlers != [] {
      PurgeLeaves(handlers[1..], if handlers[0].removePending && limit > 0 then limit - 1 else limit);
    }
  }

  /** The purge after an event leaves exactly the active handlers, unless more than a hundred
      are flagged. */
  lemma PurgeOfHundred(handlers: seq<Handler>)
    requires |handlers| <= |Active(handlers)| + 100
    ensures Purged(handlers, PURGE_LIMIT) == Active(handlers)
  {
    PurgeLeaves(handlers, 100);
  }

  lemma {:induction false} ActiveAppend(a: seq<Handler>, b: seq<Handler>)
    ensures Active(a + b) == Active(a) + Active(b)
  {
    if a == [] {
      assert a + b == b;
    } else {
      assert (a + b)[1..] == a[1..] + b;
      ActiveAppend(a[1..], b);
    }
  }

  /** Unregistering takes one handler out of use exactly when the first match is not
      already flagged: a second registration of the same pair survives a second call
      made before a purge. */
  lemma UnregisterTakesEffectIff(handlers: seq<Handler>, callback: nat, context: nat)
    requires IndexOf(handlers, callback, context) < |handlers|
    ensures var i := IndexOf(handlers, callback, context);
            |Active(Unregistered(handlers, callback, context))| ==
            |Active(handlers)| - if handlers[i].removePending then 0 else 1
    ensures var i := IndexOf(handlers, callback, context);
            Active(Unregistered(handlers, callback, context)) == Active(handlers[..i]) + Active(handlers[i + 1..])
  {
    hide Active, IndexOf;
    var i := IndexOf(handlers, callback, context);
    ActiveUpdate(handlers, i, handlers[i]);
    ActiveUpdate(handlers, i, handlers[i].(removePending := true));
    assert handlers[i := handlers[i]] == handlers;
  }

  /** Until a purge has taken the flagged handler out, a second call finds it again. */
  lemma UnregisterTwice(handlers: seq<Handler>, callback: nat, context: nat)
    ensures var once := Unregistered(handlers, callback, context);
            Unregistered(once, callback, context) == once
  {
    var i, once := IndexOf(handlers, callback, context), Unregistered(handlers, callback, context);
    if i < |handlers| {
      var j := IndexOf(once, callback, context);
      assert forall k | 0 <= k < |handlers| :: once[k].callback == handlers[k].callback && once[k].context == handlers[k].context;
      assert j == i;
      assert once[i := once[i]] == once;
    }
  }

  lemma ActiveUpdate(handlers: seq<Handler>, i: nat, h: Handler)
    requires i < |handlers|
    ensures Active(handlers[i := h]) ==
            Active(handlers[..i]) + (if h.removePending then [] else [h]) + Active(handlers[i + 1..])
  {
    hide Active;
    ActiveInsert(handlers[..i], h, handlers[i + 1..]);
    assert handlers[i := h] == handlers[..i] + [h] + handlers[i + 1..];
  }

  lemma ActiveInsert(a: seq<Handler>, h: Handler, b: seq<Handler>)
    ensures Active(a + [h] + b) == Active(a) + (if h.removePending then [] else [h]) + Active(b)
  {
    ActiveAppend(a + [h], b);
    ActiveAppend(a, [h]);
    assert [h][1..] == [];
    assert Active([h]) == if h.removePending then [] else [h];
  }

  // ----- Taking out by address ---------------------------------------------

  /** No variant is in a list twice. */
  ghost predicate Distinct(handlers: seq<Handler>) {
    forall i, j | 0 <= i < j < |handlers| :: handlers[i].cell != handlers[j].cell
  }

  /** stack_remove, which compares addresses. */
  function Without(handlers: seq<Handler>, cell: nat): seq<Handler> {
    if handlers == [] then []
    else if handlers[0].cell == cell then handlers[1..]
    else [handlers[0]] + Without(handlers[1..], cell)
  }

  function WithoutAll(handlers: seq<Handler>, cells: seq<nat>): seq<Handler>
    decreases |cells|
  {
    if cells == [] then handlers else WithoutAll(Without(handlers, cells[0]), cells[1..])
  }

  /** The first flagged handlers, as many as a purge remembers. */
  function Marked(handlers: seq<Handler>, limit: nat): (cells: seq<nat>)
    ensures |cells| <= limit
    ensures forall c | c in cells :: exists i :: 0 <= i < |handlers| && handlers[i].cell == c
  {
    if handlers == [] then []
    else if handlers[0].removePending && limit > 0 then [handlers[0].cell] + Marked(handlers[1..], limit - 1)
    else Marked(handlers[1..], limit)
  }

  lemma {:induction false} MarkedNext(handlers: seq<Handler>, h: Handler, limit: nat)
    ensures var cells := Marked(handlers, limit);
            Marked(handlers + [h], limit) == if h.removePending && |cells| < limit then cells + [h.cell] else cells
    decreases |handlers|
  {
    if handlers == [] {
      assert [] + [h] == [h] && [h][1..] == [];
    } else {
      assert (handlers + [h])[1..] == handlers[1..] + [h];
      MarkedNext(handlers[1..], h, if handlers[0].removePending && limit > 0 then limit - 1 else limit);
    }
  }

  lemma {:induction false} KeepsHead(h: Handler, handlers: seq<Handler>, cells: seq<nat>)
    requires h.cell !in cells
    ensures WithoutAll([h] + handlers, cells) == [h] + WithoutAll(handlers, cells)
    decreases |cells|
  {
    if cells != [] {
      assert ([h] + handlers)[1..] == handlers;
      KeepsHead(h, Without(handlers, cells[0]), cells[1..]);
    }
  }

  /** Taking out the marked handlers one by one leaves what a purge should leave. */
  lemma {:induction false} WithoutMarked(handlers: seq<Handler>, limit: nat)
    requires Distinct(handlers)
    ensures WithoutAll(handlers, Marked(handlers, limit)) == Purged(handlers, limit)
    decreases |handlers|
  {
    if handlers != [] {
      var h, rest := handlers[0], handlers[1..];
      assert Distinct(rest);
      if h.removePending && limit > 0 {
        WithoutMarked(rest, limit - 1);
        assert ([h.cell] + Marked(rest, limit - 1))[1..] == Marked(rest, limit - 1);
      } else {
        WithoutMarked(rest, limit);
        KeepsHead(h, rest, Marked(rest, limit));
        assert handlers == [h] + rest;
      }
    }
  }

  lemma {:induction false} PurgedDistinct(handlers: seq<Handler>, limit: nat)
    requires Distinct(handlers)
    ensures Distinct(Purged(handlers, limit))
    ensures forall h | h in Purged(handlers, limit) :: h in handlers
  {
    if handlers != [] {
      var limit' := if handlers[0].removePending && limit > 0 then limit - 1 else limit;
      PurgedDistinct(handlers[1..], limit');
      forall h | h in handlers[1..] ensures h.cell != handlers[0].cell {
        var i :| 0 <= i < |handlers| - 1 && handlers[1..][i] == h;
        assert handlers[i + 1] == h;
      }
    }
  }

  // ----- Handlers that register and unregister while they are called -------

  /** The lists of all events; the addresses below nextCell have been given out. */
  datatype Registry = Registry(lists: map<int, seq<Handler>>, nextCell: nat)

  datatype Request = Add(eventId: int, callback: nat, context: nat) | Drop(eventId: int, callback: nat, context: nat)

  function ListOf(t: Registry, eventId: int): seq<Handler> {
    if eventId in t.lists then t.lists[eventId] else []
  }

  function Requested(t: Registry, q: Request): Registry {
    match q
    case Add(e, callback, context) =>
      Registry(t.lists[e := ListOf(t, e) + [Handler(t.nextCell, callback, context, false)]], t.nextCell + 1)
    case Drop(e, callback, context) =>
      if e in t.lists then t.(lists := t.lists[e := Unregistered(t.lists[e], callback, context)]) else t
  }

  function RequestedAll(t: Registry, requests: seq<Request>): Registry
    decreases |requests|
  {
    if requests == [] then t else RequestedAll(Requested(t, requests[0]), requests[1..])
  }

  /** The walk over an event's handlers from place i on. The script says what each handler
      that is called requests, in the order of the calls. A handler that is registered for
      the same event meanwhile stands at the end of the list and is reached by the walk. */
  function Dispatched(t: Registry, e: int, i: nat, script: seq<seq<Request>>): (r: (Registry, seq<Handler>))
    decreases |script|, |ListOf(t, e)| - i
  {
    if i >= |ListOf(t, e)| then (t, [])
    else
      var h := ListOf(t, e)[i];
      if h.removePending then Dispatched(t, e, i + 1, script)
      else if script == [] then
        var (u, called) := Dispatched(t, e, i + 1, []);
        (u, [h] + called)
      else
        var (u, called) := Dispatched(RequestedAll(t, script[0]), e, i + 1, script[1..]);
        (u, [h] + called)
  }

  /** What one event does in event_pump_poll: the handlers it calls, whether it is freed,
      and the registry after the purge. */
  function Delivered(t: Registry, e: int, script: seq<seq<Request>>): (Registry, seq<Handler>, bool) {
    if e !in t.lists then (t, [], false)
    else
      var (u, called) := Dispatched(t, e, 0, script);
      (u.(lists := u.lists[e := Purged(ListOf(u, e), PURGE_LIMIT)]), called, true)
  }

  ghost predicate Below(handlers: seq<Handler>, bound: nat) {
    forall h | h in handlers :: h.cell < bound
  }

  ghost predicate Sane(t: Registry) {
    forall e | e in t.lists :: Distinct(t.lists[e]) && Below(t.lists[e], t.nextCell)
  }

  /** A list that was only flagged and added to. */
  ghost predicate Grown(a: seq<Handler>, b: seq<Handler>) {
    && |a| <= |b|
    && forall i | 0 <= i < |a| :: b[i] == a[i] || b[i] == a[i].(removePending := true)
  }

  lemma RequestedKeeps(t: Registry, q: Request, e: int)
    ensures Sane(t) ==> Sane(Requested(t, q))
    ensures Grown(ListOf(t, e), ListOf(Requested(t, q), e))
    ensures e in t.lists ==> e in Requested(t, q).lists
  {
    if Sane(t) && q.Drop? && q.eventId in t.lists {
      UnregisteredDistinct(t.lists[q.eventId], q.callback, q.context);
    }
  }

  lemma {:induction false} RequestedAllKeeps(t: Registry, requests: seq<Request>, e: int)
    ensures Sane(t) ==> Sane(RequestedAll(t, requests))
    ensures Grown(ListOf(t, e), ListOf(RequestedAll(t, requests), e))
    ensures e in t.lists ==> e in RequestedAll(t, requests).lists
    decreases |requests|
  {
    hide Requested, Sane;
    if requests != [] {
      RequestedKeeps(t, requests[0], e);
      RequestedAllKeeps(Requested(t, requests[0]), requests[1..], e);
    }
  }

  /** A registered handler is active for its event, behind those that already were, and no
      other event is touched by a registration or by an unregistration. */
  lemma RegisteredIsActive(t: Registry, e: int, callback: nat, context: nat)
    ensures var r := Requested(t, Add(e, callback, context));
            && Active(ListOf(r, e)) == Active(ListOf(t, e)) + [Handler(t.nextCell, callback, context, false)]
            && forall d | d != e :: ListOf(r, d) == ListOf(t, d)
    ensures forall d | d != e :: ListOf(Requested(t, Drop(e, callback, context)), d) == ListOf(t, d)
  {
    hide Active;
    var h := Handler(t.nextCell, callback, context, false);
    ActiveInsert(ListOf(t, e), h, []);
    assert ListOf(t, e) + [h] + [] == ListOf(t, e) + [h];
    NoneActive();
    assert Active(ListOf(t, e)) + [h] + [] == Active(ListOf(t, e)) + [h];
  }

  /** The registry after the call of the handler at the head of the script. */
  function AfterCall(t: Registry, script: seq<seq<Request>>): Registry {
    if script == [] then t else RequestedAll(t, script[0])
  }

  lemma DispatchedNext(t: Registry, e: int, i: nat, script: seq<seq<Request>>)
    requires i < |ListOf(t, e)|
    ensures var h := ListOf(t, e)[i];
            Dispatched(t, e, i, script) ==
            if h.removePending then Dispatched(t, e, i + 1, script)
            else
              var (u, called) := Dispatched(AfterCall(t, script), e, i + 1, if script == [] then [] else script[1..]);
              (u, [h] + called)
  {
  }

  lemma {:induction false} DispatchedKeeps(t: Registry, e: int, i: nat, script: seq<seq<Request>>)
    ensures Sane(t) ==> Sane(Dispatched(t, e, i, script).0)
    ensures Grown(ListOf(t, e), ListOf(Dispatched(t, e, i, script).0, e))
    ensures e in t.lists ==> e in Dispatched(t, e, i, script).0.lists
    decreases |script|, |ListOf(t, e)| - i
  {
    hide Sane, RequestedAll;
    if i < |ListOf(t, e)| {
      if ListOf(t, e)[i].removePending {
        DispatchedKeeps(t, e, i + 1, script);
      } else if script == [] {
        DispatchedKeeps(t, e, i + 1, []);
      } else {
        RequestedAllKeeps(t, script[0], e);
        DispatchedKeeps(RequestedAll(t, script[0]), e, i + 1, script[1..]);
      }
    }
  }

  /** Every handler that is still active when the walk ends was called, the ones that were
      registered during the walk among them. */
  lemma {:induction false} ActiveAreCalled(t: Registry, e: int, i: nat, script: seq<seq<Request>>)
    ensures var (u, called) := Dispatched(t, e, i, script);
            forall k | i <= k < |ListOf(u, e)| && !ListOf(u, e)[k].removePending :: ListOf(u, e)[k] in called
    decreases |script|, |ListOf(t, e)| - i
  {
    hide Dispatched, RequestedAll;
    if i >= |ListOf(t, e)| {
      NothingLeft(t, e, i, script);
    } else {
      DispatchedNext(t, e, i, script);
      DispatchedKeeps(t, e, i, script);
      if ListOf(t, e)[i].removePending {
        ActiveAreCalled(t, e, i + 1, script);
      } else if script == [] {
        ActiveAreCalled(t, e, i + 1, []);
      } else {
        ActiveAreCalled(RequestedAll(t, script[0]), e, i + 1, script[1..]);
      }
    }
  }

  lemma NothingLeft(t: Registry, e: int, i: nat, script: seq<seq<Request>>)
    requires i >= |ListOf(t, e)|
    ensures Dispatched(t, e, i, script) == (t, [])
  {
  }

  /** The calls go forward through the list, so that no handler is called twice. */
  lemma {:induction false} CalledOnce(t: Registry, e: int, i: nat, script: seq<seq<Request>>)
    requires Sane(t)
    ensures var (u, called) := Dispatched(t, e, i, script);
            && Distinct(called)
            && (forall h | h in called :: exists k :: i <= k < |ListOf(u, e)| && ListOf(u, e)[k].cell == h.cell)
    decreases |script|, |ListOf(t, e)| - i
  {
    hide Dispatched, RequestedAll, Sane;
    if i >= |ListOf(t, e)| {
      NothingLeft(t, e, i, script);
    } else {
      DispatchedNext(t, e, i, script);
      DispatchedKeeps(t, e, i, script);
      var u := Dispatched(t, e, i, script).0;
      SaneIsDistinct(u, e);
      if ListOf(t, e)[i].removePending {
        CalledOnce(t, e, i + 1, script);
      } else if script == [] {
        CalledOnce(t, e, i + 1, []);
        FirstCall(ListOf(u, e), i, ListOf(t, e)[i], Dispatched(t, e, i + 1, []).1);
      } else {
        RequestedAllKeeps(t, script[0], e);
        CalledOnce(RequestedAll(t, script[0]), e, i + 1, script[1..]);
        FirstCall(ListOf(u, e), i, ListOf(t, e)[i], Dispatched(RequestedAll(t, script[0]), e, i + 1, script[1..]).1);
      }
    }
  }

  lemma SaneIsDistinct(t: Registry, e: int)
    requires Sane(t)
    ensures Distinct(ListOf(t, e))
  {
  }

  lemma FirstCall(list: seq<Handler>, i: nat, h: Handler, called: seq<Handler>)
    requires Distinct(list) && Distinct(called) && i < |list| && list[i].cell == h.cell
    requires forall g | g in called :: exists k :: i + 1 <= k < |list| && list[k].cell == g.cell
    ensures Distinct([h] + called)
    ensures forall g | g in [h] + called :: exists k :: i <= k < |list| && list[k].cell == g.cell
  {
    forall j | 0 <= j < |called| ensures called[j].cell != h.cell {
      assert called[j] in called;
      var k :| i + 1 <= k < |list| && list[k].cell == called[j].cell;
    }
    forall g | g in [h] + called ensures exists k :: i <= k < |list| && list[k].cell == g.cell {
      if g != h {
        assert g in called;
      }
    }
  }

  /** A handler that is flagged is not called, even when the flag is set during the walk. */
  lemma {:induction false} FlaggedIsNotCalled(t: Registry, e: int, i: nat, script: seq<seq<Request>>, k: nat)
    requires Sane(t) && k < |ListOf(t, e)| && ListOf(t, e)[k].removePending
    ensures forall h | h in Dispatched(t, e, i, script).1 :: h.cell != ListOf(t, e)[k].cell
    decreases |script|, |ListOf(t, e)| - i
  {
    hide Dispatched, RequestedAll, Sane;
    if i >= |ListOf(t, e)| {
      NothingLeft(t, e, i, script);
    } else {
      DispatchedNext(t, e, i, script);
      SaneIsDistinct(t, e);
      if ListOf(t, e)[i].removePending {
        FlaggedIsNotCalled(t, e, i + 1, script, k);
      } else if script == [] {
        FlaggedIsNotCalled(t, e, i + 1, [], k);
      } else {
        RequestedAllKeeps(t, script[0], e);
        FlaggedIsNotCalled(RequestedAll(t, script[0]), e, i + 1, script[1..], k);
      }
    }
  }

  /** Handlers that request nothing: the active ones are called, in order, and the registry
      stays as it is. */
  lemma {:induction false} QuietDispatch(t: Registry, e: int, i: nat)
    requires i <= |ListOf(t, e)|
    ensures Dispatched(t, e, i, []) == (t, Active(ListOf(t, e)[i..]))
    decreases |ListOf(t, e)| - i
  {
    hide Dispatched;
    if i == |ListOf(t, e)| {
      NothingLeft(t, e, i, []);
    } else {
      DispatchedNext(t, e, i, []);
      QuietDispatch(t, e, i + 1);
      var rest := ListOf(t, e)[i..];
      assert rest[1..] == ListOf(t, e)[i + 1..];
      assert Active(rest) == (if rest[0].removePending then [] else [rest[0]]) + Active(rest[1..]);
      assert rest[0].removePending ==> Active(rest) == Active(rest[1..]);
    }
  }

  lemma {:induction false} ActiveMembers(handlers: seq<Handler>, h: Handler)
    requires h in Active(handlers)
    ensures h in handlers && !h.removePending
  {
    if handlers[0].removePending || h != handlers[0] {
      ActiveMembers(handlers[1..], h);
    }
  }

  /** What one event does, whatever its handlers request meanwhile: no handler is called
      twice, none that was flagged before, and every one that is active afterwards was
      called. Without requests those called are the active ones, in their order. */
  lemma DeliveredCalls(t: Registry, e: int, script: seq<seq<Request>>)
    requires Sane(t)
    ensures var (u, called, freed) := Delivered(t, e, script);
            && Distinct(called) && (freed <==> e in t.lists)
            && (forall h | h in Active(ListOf(u, e)) :: h in called)
            && (forall k, h | 0 <= k < |ListOf(t, e)| && ListOf(t, e)[k].removePending && h in called ::
                  h.cell != ListOf(t, e)[k].cell)
            && (script == [] ==> called == Active(ListOf(t, e)) == Active(ListOf(u, e)))
  {
    hide Sane, Dispatched, Purged, Active;
    if e in t.lists {
      var (u, called) := Dispatched(t, e, 0, script);
      CalledOnce(t, e, 0, script);
      ActiveAreCalled(t, e, 0, script);
      PurgeKeepsActive(ListOf(u, e), PURGE_LIMIT);
      forall h | h in Active(ListOf(u, e)) ensures h in called {
        ActiveMembers(ListOf(u, e), h);
      }
      forall k, h | 0 <= k < |ListOf(t, e)| && ListOf(t, e)[k].removePending && h in called
        ensures h.cell != ListOf(t, e)[k].cell
      {
        FlaggedIsNotCalled(t, e, 0, script, k);
      }
      if script == [] {
        QuietDispatch(t, e, 0);
        assert ListOf(t, e)[0..] == ListOf(t, e);
      }
    } else {
      assert Active([]) == [] by { NoneActive(); }
    }
  }

  lemma NoneActive()
    ensures Active([]) == []
  {
  }

  // ----- The table of handlers ---------------------------------------------

  class HandlerTable {
    /** Event ids to handler lists. */
    var eventHandlers: map<int, seq<Handler>>
    /** The addresses below this one have been given out. */
    var nextCell: nat

    ghost predicate Valid()
      reads this
    {
      Sane(Contents())
    }

    function Contents(): Registry
      reads this
    {
      Registry(eventHandlers, nextCell)
    }

    constructor ()
      ensures Valid() && eventHandlers == map[]
    {
      eventHandlers, nextCell := map[], 0;
    }

    /** event_pump_register_handler */
    method Register(eventId: int, callback: nat, context: nat)
      requires Valid()
      modifies this
      ensures Valid() && Contents() == Requested(old(Contents()), Add(eventId, callback, context))
    {
      RequestedKeeps(Contents(), Add(eventId, callback, context), eventId);
      if eventId !in eventHandlers {
        eventHandlers := eventHandlers[eventId := []];
      }
      var handler := Handler(nextCell, callback, context, false);
      eventHandlers := eventHandlers[eventId := eventHandlers[eventId] + [handler]];
      nextCell := nextCell + 1;
    }

    /** event_pump_unregister_handler: the walk stops at the first match. */
    method Unregister(eventId: int, callback: nat, context: nat)
      requires Valid()
      modifies this
      ensures Valid() && Contents() == Requested(old(Contents()), Drop(eventId, callback, context))
    {
      hide Sane;
      RequestedKeeps(Contents(), Drop(eventId, callback, context), eventId);
      if eventId in eventHandlers {
        var handlers := eventHandlers[eventId];
        var i := 0;
        while i < |handlers| && !(handlers[i].callback == callback && handlers[i].context == context)
          invariant i <= |handlers|
          invariant forall k | 0 <= k < i :: !(handlers[k].callback == callback && handlers[k].context == context)
        {
          i := i + 1;
        }
        assert i == IndexOf(handlers, callback, context);
        if i < |handlers| {
          handlers := handlers[i := handlers[i].(removePending := true)];
        }
        eventHandlers := eventHandlers[eventId := handlers];
      }
    }

    /** event_pump_purge_handlers: first the addresses are gathered, then each is taken
        out of the list. */
    method PurgeHandlers(eventId: int)
      requires Valid()
      modifies this`eventHandlers
      ensures Valid()
      ensures eventHandlers == if eventId in old(eventHandlers)
                               then old(eventHandlers)[eventId := Purged(old(eventHandlers)[eventId], PURGE_LIMIT)]
                               else old(eventHandlers)
    {
      if eventId in eventHandlers {
        var handlers := eventHandlers[eventId];
        var valuesToRemove := GatherMarked(handlers);
        PurgedDistinct(handlers, PURGE_LIMIT);
        WithoutMarked(handlers, PURGE_LIMIT);
        ghost var purged := Purged(handlers, PURGE_LIMIT);
        var i := 0;
        while i < |valuesToRemove|
          invariant i <= |valuesToRemove|
          invariant WithoutAll(handlers, valuesToRemove[i..]) == purged
        {
          assert valuesToRemove[i..][1..] == valuesToRemove[i + 1..];
          handlers := Without(handlers, valuesToRemove[i]);
          i := i + 1;
        }
        eventHandlers := eventHandlers[eventId := handlers];
      }
    }

    /** What one handler asks for while it is called. */
    method Serve(requests: seq<Request>)
      requires Valid()
      modifies this
      ensures Valid() && Contents() == RequestedAll(old(Contents()), requests)
    {
      hide Sane, Requested;
      ghost var whole := RequestedAll(Contents(), requests);
      assert requests[0..] == requests;
      var k := 0;
      while k < |requests|
        invariant k <= |requests| && Valid()
        invariant RequestedAll(Contents(), requests[k..]) == whole
      {
        assert requests[k..][1..] == requests[k + 1..];
        match requests[k] {
          case Add(e, callback, context) => Register(e, callback, context);
          case Drop(e, callback, context) => Unregister(e, callback, context);
        }
        k := k + 1;
      }
    }

    /** One event and its handlers in event_pump_poll. */
    method Deliver(eventId: int, script: seq<seq<Request>>) returns (called: seq<Handler>, freed: bool)
      requires Valid()
      modifies this
      ensures Valid() && (Contents(), called, freed) == Delivered(old(Contents()), eventId, script)
    {
      called, freed := [], false;
      if eventId in eventHandlers {
        called := CallHandlers(eventId, script);
        freed := true;
        PurgeHandlers(eventId);
      }
    }

    /** The walk over the handlers of an event. */
    method CallHandlers(eventId: int, script: seq<seq<Request>>) returns (called: seq<Handler>)
      requires Valid() && eventId in eventHandlers
      modifies this
      ensures Valid() && eventId in eventHandlers
      ensures Contents() == Dispatched(old(Contents()), eventId, 0, script).0
      ensures called == Dispatched(old(Contents()), eventId, 0, script).1
    {
      hide Sane, RequestedAll, Dispatched;
      ghost var whole := Dispatched(Contents(), eventId, 0, script);
      called := [];
      var i: nat, left: seq<seq<Request>> := 0, script;
      while i < |eventHandlers[eventId]|
        invariant Valid() && eventId in eventHandlers
        invariant Dispatched(Contents(), eventId, i, left).0 == whole.0
        invariant called + Dispatched(Contents(), eventId, i, left).1 == whole.1
        decreases |left|, |eventHandlers[eventId]| - i
      {
        DispatchedNext(Contents(), eventId, i, left);
        var handler := eventHandlers[eventId][i];
        if !handler.removePending {
          called := called + [handler];
          if left != [] {
            RequestedAllKeeps(Contents(), left[0], eventId);
            Serve(left[0]);
            left := left[1..];
          }
        }
        i := i + 1;
      }
      NothingLeft(Contents(), eventId, i, left);
      assert called + [] == called;
    }
  }

  method GatherMarked(handlers: seq<Handler>) returns (valuesToRemove: seq<nat>)
    ensures valuesToRemove == Marked(handlers, PURGE_LIMIT)
  {
    valuesToRemove := [];
    var i := 0;
    while i < |handlers|
      invariant i <= |handlers|
      invariant valuesToRemove == Marked(handlers[..i], PURGE_LIMIT)
    {
      MarkedNext(handlers[..i], handlers[i], PURGE_LIMIT);
      assert handlers[..i + 1] == handlers[..i] + [handlers[i]];
      if handlers[i].removePending && |valuesToRemove| < PURGE_LIMIT {
        valuesToRemove := valuesToRemove + [handlers[i].cell];
      }
      i := i + 1;
    }
    assert handlers[..i] == handlers;
  }

  lemma UnregisteredDistinct(handlers: seq<Handler>, callback: nat, context: nat)
    requires Distinct(handlers)
    ensures Distinct(Unregistered(handlers, callback, context))
    ensures forall h | h in Unregistered(handlers, callback, context) :: exists g :: g in handlers && g.cell == h.cell
  {
    var i, after := IndexOf(handlers, callback, context), Unregistered(handlers, callback, context);
    forall h | h in after ensures exists g :: g in handlers && g.cell == h.cell {
      var k :| 0 <= k < |after| && after[k] == h;
      assert handlers[k] in handlers && handlers[k].cell == h.cell;
    }
  }
}
