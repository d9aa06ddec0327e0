/** The in-memory toast store: a reducer over a bounded list of toasts, the
    queue of ids waiting for removal, the id counter and the listeners told
    of every new state. Timers are reduced to their effect: an id in the
    queue may later be removed by `TimerFires`. */
module Toasts {
  import opened Wrappers
  import opened Text

  const ToastLimit := 20

  /** A toast: its id, whether it is shown, and its other properties
      (title, description, variant, ...) by name. */
  datatype Toast = Toast(id: string, open: bool, props: map<string, string>)

  /** An update: the target id, a new `open` if given, properties to overwrite. */
  datatype Patch = Patch(id: string, open: Option<bool>, props: map<string, string>)

  datatype Action =
    | AddToast(toast: Toast)
    | UpdateToast(patch: Patch)
    | DismissToast(toastId: Option<string>)
    | RemoveToast(toastId: Option<string>)

  function Min(a: int, b: int): int { if a <= b then a else b }

  function Ids(ts: seq<Toast>): (r: seq<string>)
    ensures |r| == |ts| && forall k :: 0 <= k < |ts| ==> r[k] == ts[k].id
  {
    if ts == [] then [] else [ts[0].id] + Ids(ts[1..])
  }

  /** `{ ...t, ...patch }`: the patch's fields win. */
  function Merge(t: Toast, p: Patch): Toast {
    Toast(p.id, p.open.GetOr(t.open), t.props + p.props)
  }

  /** `filter((t) => t.id !== id)`. */
  function Without(ts: seq<Toast>, id: string): (r: seq<Toast>)
    ensures |r| <= |ts|
  {
    if ts == [] then []
    else (if ts[0].id != id then [ts[0]] else []) + Without(ts[1..], id)
  }

  /** The filter keeps exactly the toasts with another id, each as often as
      before, and none with the id. */
  lemma {:induction false} WithoutKeeps(ts: seq<Toast>, id: string)
    ensures forall t :: t in Without(ts, id) <==> t in ts && t.id != id
    ensures forall t :: multiset(Without(ts, id))[t] == if t.id == id then 0 else multiset(ts)[t]
  {
    if ts != [] {
      WithoutKeeps(ts[1..], id);
      assert ts == [ts[0]] + ts[1..];
    }
  }

  /** The `reducer`, without its side effect on the removal queue. */
  function Reduce(ts: seq<Toast>, a: Action): (r: seq<Toast>)
    ensures a.AddToast? ==> |r| == Min(|ts| + 1, ToastLimit) && r[0] == a.toast && r[1..] == ts[..|r| - 1]
    ensures a.UpdateToast? || a.DismissToast? ==> Ids(r) == Ids(ts)
    ensures !a.AddToast? ==> |r| <= |ts|
  {
    match a
    case AddToast(t) =>
      var r := ([t] + ts)[..Min(|ts| + 1, ToastLimit)];
      assert r[1..] == ts[..|r| - 1];
      r
    case UpdateToast(p) =>
      seq(|ts|, i requires 0 <= i < |ts| => if ts[i].id == p.id then Merge(ts[i], p) else ts[i])
    case DismissToast(id) =>
      seq(|ts|, i requires 0 <= i < |ts| => if id.None? || ts[i].id == id.value then ts[i].(open := false) else ts[i])
    case RemoveToast(id) => if id.None? then [] else Without(ts, id.value)
  }

  /** The ids a DISMISS puts in the removal queue: the given id, or, when no
      id (or the empty string) is given, every current toast's id. */
  function DismissQueued(ts: seq<Toast>, toastId: Option<string>): (q: set<string>)
    ensures toastId.Some? && toastId.value != "" ==> q == {toastId.value}
    ensures toastId.None? || toastId.value == "" ==> forall id :: id in q <==> id in Ids(ts)
  {
    if toastId.Some? && toastId.value != "" then {toastId.value} else set t | t in ts :: t.id
  }

  // ---- properties of the reducer ---------------------------------------------

  /** No action takes the list past the limit. */
  lemma ReduceKeepsBound(ts: seq<Toast>, a: Action)
    requires |ts| <= ToastLimit
    ensures |Reduce(ts, a)| <= ToastLimit
  {
  }

  /** UPDATE merges the patch into the toasts with its id and leaves the
      others as they were, in the same order. */
  lemma UpdateTouchesOnlyTarget(ts: seq<Toast>, p: Patch)
    ensures var r := Reduce(ts, UpdateToast(p));
      && |r| == |ts|
      && (forall i :: 0 <= i < |ts| && ts[i].id != p.id ==> r[i] == ts[i])
      && (forall i :: 0 <= i < |ts| && ts[i].id == p.id ==>
            r[i].id == ts[i].id && r[i].props == ts[i].props + p.props
            && r[i].open == (if p.open.Some? then p.open.value else ts[i].open))
  {
  }

  /** DISMISS closes the targeted toasts (all of them without an id) and
      changes nothing else. */
  lemma DismissClosesTarget(ts: seq<Toast>, toastId: Option<string>)
    ensures var r := Reduce(ts, DismissToast(toastId));
      && |r| == |ts|
      && forall i :: 0 <= i < |ts| ==>
           && r[i].id == ts[i].id && r[i].props == ts[i].props
           && (if toastId.None? || ts[i].id == toastId.value then !r[i].open else r[i].open == ts[i].open)
  {
  }

  /** Filtering two lists joined is joining the two filtered lists: the
      kept toasts stay in their order. */
  lemma {:induction false} WithoutAppend(a: seq<Toast>, b: seq<Toast>, id: string)
    ensures Without(a + b, id) == Without(a, id) + Without(b, id)
  {
    if a != [] {
      var x, rest := a[0], a[1..];
      var h := if x.id != id then [x] else [];
      assert a == [x] + rest;
      ConsAppend(x, rest, b);
      WithoutCons(x, rest + b, id);
      WithoutCons(x, rest, id);
      WithoutAppend(rest, b, id);
      Associative(h, Without(rest, id), Without(b, id));
    } else {
      assert a + b == b;
    }
  }

  lemma ConsAppend<T>(x: T, rest: seq<T>, b: seq<T>)
    ensures [x] + rest + b == [x] + (rest + b)
  {
  }

  lemma Associative<T>(x: seq<T>, y: seq<T>, z: seq<T>)
    ensures x + (y + z) == (x + y) + z
  {
  }

  lemma WithoutCons(x: Toast, rest: seq<Toast>, id: string)
    ensures Without([x] + rest, id) == (if x.id != id then [x] else []) + Without(rest, id)
  {
    assert ([x] + rest)[1..] == rest;
  }

  /** A list without the id is kept whole. */
  lemma {:induction false} WithoutAbsent(ts: seq<Toast>, id: string)
    requires forall k :: 0 <= k < |ts| ==> ts[k].id != id
    ensures Without(ts, id) == ts
  {
    if ts != [] {
      WithoutAbsent(ts[1..], id);
      assert ts == [ts[0]] + ts[1..];
    }
  }

  /** REMOVE with an id deletes every toast with that id and keeps each of
      the others as often as before, in order; without an id it empties the
      list. */
  lemma RemoveDeletesTarget(ts: seq<Toast>, toastId: Option<string>)
    ensures var r := Reduce(ts, RemoveToast(toastId));
      && (toastId.None? ==> r == [])
      && (toastId.Some? ==> forall t :: t in r <==> t in ts && t.id != toastId.value)
      && (toastId.Some? ==> forall t :: multiset(r)[t] == if t.id == toastId.value then 0 else multiset(ts)[t])
      && ((toastId.Some? && forall k :: 0 <= k < |ts| ==> ts[k].id != toastId.value) ==> r == ts)
  {
    if toastId.Some? {
      WithoutKeeps(ts, toastId.value);
      if forall k :: 0 <= k < |ts| ==> ts[k].id != toastId.value {
        WithoutAbsent(ts, toastId.value);
      }
    }
  }

  /** Closing twice is closing once. */
  lemma DismissIdempotent(ts: seq<Toast>, toastId: Option<string>)
    ensures Reduce(Reduce(ts, DismissToast(toastId)), DismissToast(toastId)) == Reduce(ts, DismissToast(toastId))
  {
  }

  /** One notification per listener, each with the same state. */
  function Notifications(listeners: seq<nat>, state: seq<Toast>): (r: seq<(nat, seq<Toast>)>)
    ensures |r| == |listeners|
    ensures forall k :: 0 <= k < |r| ==> r[k] == (listeners[k], state)
  {
    seq(|listeners|, k requires 0 <= k < |listeners| => (listeners[k], state))
  }

  /** The module-level state of the toast store. */
  class ToastStore {
    var toasts: seq<Toast>
    var count: nat
    /** The ids with a pending removal timer. */
    var queued: set<string>
    /** The registered listeners, by handle. */
    var listeners: seq<nat>
    /** Every notification sent: the listener and the state it was given. */
    var delivered: seq<(nat, seq<Toast>)>
    /** The ids handed out so far, oldest first. */
    ghost var issued: seq<string>

    ghost predicate Valid()
      reads this
    {
      && |toasts| <= ToastLimit
      && |issued| == count
      && forall k :: 0 <= k < |issued| ==> issued[k] == NatToString(k + 1)
    }

    constructor ()
      ensures Valid()
      ensures toasts == [] && count == 0 && queued == {} && listeners == [] && delivered == []
    {
      toasts := [];
      count := 0;
      queued := {};
      listeners := [];
      delivered := [];
      issued := [];
    }

    /** `genId`: the next counter value, never one handed out before. */
    method GenId() returns (id: string)
      requires Valid()
      modifies this`count, this`issued
      ensures Valid()
      ensures count == old(count) + 1 && id == NatToString(count)
      ensures id !in old(issued) && issued == old(issued) + [id]
    {
      count := count + 1;
      id := NatToString(count);
      forall k | 0 <= k < |issued| ensures issued[k] != id {
        NatToStringInjective(k + 1, count);
      }
      issued := issued + [id];
    }

    /** `addToRemoveQueue`: an id already waiting is not queued again. */
    method AddToRemoveQueue(id: string)
      modifies this`queued
      ensures queued == old(queued) + {id}
    {
      if id in queued {
        return;
      }
      queued := queued + {id};
    }

    /** `clearFromRemoveQueue`: cancels the id's timer if there is one. */
    method ClearFromRemoveQueue(id: string)
      modifies this`queued
      ensures queued == old(queued) - {id}
    {
      if id in queued {
        queued := queued - {id};
      }
    }

    /** The reducer's side effect for a DISMISS: `addToRemoveQueue` for the
        given id, or for every current toast. */
    method QueueDismissed(toastId: Option<string>)
      modifies this`queued
      ensures queued == old(queued) + DismissQueued(toasts, toastId)
    {
      if toastId.Some? && toastId.value != "" {
        AddToRemoveQueue(toastId.value);
      } else {
        var i := 0;
        while i < |toasts|
          invariant 0 <= i <= |toasts|
          invariant queued == old(queued) + set t | t in toasts[..i] :: t.id
        {
          AddToRemoveQueue(toasts[i].id);
          assert toasts[..i + 1] == toasts[..i] + [toasts[i]];
          i := i + 1;
        }
        assert toasts[..i] == toasts;
      }
    }

    /** `listeners.forEach((listener) => listener(memoryState))`. */
    method NotifyAll()
      modifies this`delivered
      ensures delivered == old(delivered) + Notifications(listeners, toasts)
    {
      var j := 0;
      while j < |listeners|
        invariant 0 <= j <= |listeners|
        invariant delivered == old(delivered) + Notifications(listeners[..j], toasts)
      {
        delivered := delivered + [(listeners[j], toasts)];
        j := j + 1;
      }
      assert listeners[..j] == listeners;
    }

    /** `dispatch`: run the reducer (a DISMISS first queues its ids), store
        the new state and hand it to every listener in order. */
    method Dispatch(a: Action)
      requires Valid()
      modifies this`toasts, this`queued, this`delivered
      ensures Valid()
      ensures toasts == Reduce(old(toasts), a)
      ensures queued == old(queued) + (if a.DismissToast? then DismissQueued(old(toasts), a.toastId) else {})
      ensures delivered == old(delivered) + Notifications(listeners, toasts)
    {
      if a.DismissToast? {
        QueueDismissed(a.toastId);
      }
      ReduceKeepsBound(toasts, a);
      toasts := Reduce(toasts, a);
      NotifyAll();
    }

    /** `toast(opts)`: a fresh id, and an open toast with it at the front. */
    method Show(props: map<string, string>) returns (id: string)
      requires Valid()
      modifies this`toasts, this`queued, this`delivered, this`count, this`issued
      ensures Valid()
      ensures id !in old(issued) && count == old(count) + 1 && issued == old(issued) + [id]
      ensures toasts == Reduce(old(toasts), AddToast(Toast(id, true, props)))
      ensures toasts[0] == Toast(id, true, props)
      ensures queued == old(queued)
      ensures delivered == old(delivered) + Notifications(listeners, toasts)
    {
      id := GenId();
      Dispatch(AddToast(Toast(id, true, props)));
    }

    /** The `update` handle of a toast: an UPDATE with its own id; the options
        it takes cannot change `open`. */
    method UpdateOne(id: string, props: map<string, string>)
      requires Valid()
      modifies this`toasts, this`queued, this`delivered
      ensures Valid()
      ensures toasts == Reduce(old(toasts), UpdateToast(Patch(id, None, props)))
      ensures Ids(toasts) == Ids(old(toasts)) && queued == old(queued)
      ensures delivered == old(delivered) + Notifications(listeners, toasts)
    {
      Dispatch(UpdateToast(Patch(id, None, props)));
    }

    /** The `dismiss` handle of a toast: cancel its timer, then DISMISS it,
        which queues it again. */
    method DismissOne(id: string)
      requires Valid()
      modifies this`toasts, this`queued, this`delivered
      ensures Valid()
      ensures toasts == Reduce(old(toasts), DismissToast(Some(id)))
      ensures id != "" ==> queued == old(queued) + {id}
      ensures id == "" ==> queued == old(queued) - {id} + DismissQueued(old(toasts), Some(id))
      ensures delivered == old(delivered) + Notifications(listeners, toasts)
    {
      ClearFromRemoveQueue(id);
      Dispatch(DismissToast(Some(id)));
    }

    /** A removal timer running out: the id leaves the queue and its toast
        is removed. */
    method TimerFires(id: string)
      requires Valid() && id in queued
      modifies this`toasts, this`queued, this`delivered
      ensures Valid()
      ensures queued == old(queued) - {id}
      ensures toasts == Reduce(old(toasts), RemoveToast(Some(id)))
      ensures forall t :: t in toasts ==> t.id != id
      ensures delivered == old(delivered) + Notifications(listeners, toasts)
    {
      queued := queued - {id};
      WithoutKeeps(toasts, id);
      Dispatch(RemoveToast(Some(id)));
    }

    /** A component subscribing to the store. */
    method Subscribe(listener: nat)
      modifies this`listeners
      ensures listeners == old(listeners) + [listener]
    {
      listeners := listeners + [listener];
    }

    /** A component unsubscribing: its first registration is removed. */
    method Unsubscribe(listener: nat)
      modifies this`listeners
      ensures listener in old(listeners) ==>
        exists k :: 0 <= k < |old(listeners)| && old(listeners)[k] == listener
          && listener !in old(listeners)[..k] && listeners == old(listeners)[..k] + old(listeners)[k + 1..]
      ensures listener !in old(listeners) ==> listeners == old(listeners)
    {
      var k := 0;
      while k < |listeners| && listeners[k] != listener
        invariant 0 <= k <= |listeners|
        invariant listener !in listeners[..k]
      {
        assert listeners[..k + 1] == listeners[..k] + [listeners[k]];
        k := k + 1;
      }
      if k < |listeners| {
        listeners := listeners[..k] + listeners[k + 1..];
      } else {
        assert listeners[..k] == listeners;
      }
    }
  }
}
