/**
 * A model instance (eina_model.c, `struct _Eina_Model`): its reference
 * count and delete/free lifecycle, and the per-event listener lists
 * with their walking counter, deferred removals and freeze counts.
 *
 * Listener callbacks are opaque: invoking one appends a `Callback` step
 * to the instance's `log`; the type's destructor appends `Destructor`.
 * A callback that re-enters the instance is modelled by calling the
 * instance's methods between `WalkEnter` and `WalkLeave`, the two halves
 * of the dispatch loop.
 */
module ModelObject {
  import opened Wrappers
  import opened ModelTypes
  import opened ModelEvents

  /** `_eina_model_str_deleted` and `_eina_model_str_freed`. */
  const DELETED: String := "deleted"
  const FREED: String := "freed"

  /** An `Eina_Model_Event_Listener`; `id` is its allocation's identity. */
  datatype Listener = Listener(id: nat, cb: nat, data: nat, deleted: bool)

  /** What an instance has done that others can observe; `Flush` stands for the flush methods of all its types and interfaces. */
  datatype Step = Callback(cb: nat, data: nat, event: nat) | Flush | Destructor

  /** The callbacks a walk over `lst` invokes for `event`: every listener not flagged deleted, in order. */
  function Active(lst: seq<Listener>, event: nat): (r: seq<Step>)
    ensures |r| <= |lst|
    ensures forall s :: s in r ==> s.Callback? && s.event == event
    decreases |lst|
  {
    if lst == [] then []
    else
      var el := lst[|lst| - 1];
      Active(lst[..|lst| - 1], event) + if el.deleted then [] else [Callback(el.cb, el.data, event)]
  }

  /** The listeners of `lst` whose ids are not in `ids`. */
  function Without(lst: seq<Listener>, ids: seq<nat>): (r: seq<Listener>)
    ensures |r| <= |lst|
    ensures forall x :: x in r ==> x in lst && x.id !in ids
    decreases |lst|
  {
    if lst == [] then []
    else
      var el := lst[|lst| - 1];
      Without(lst[..|lst| - 1], ids) + if el.id in ids then [] else [el]
  }

  /** Listener ids increase along a list and are below `next`. */
  predicate IdsBelow(lst: seq<Listener>, next: nat)
  {
    (forall i, j :: 0 <= i < j < |lst| ==> lst[i].id < lst[j].id) &&
    forall x :: x in lst ==> x.id < next
  }

  /** Filtering keeps the ids increasing. */
  lemma {:induction false} WithoutIdsBelow(lst: seq<Listener>, ids: seq<nat>, next: nat)
    requires IdsBelow(lst, next)
    ensures IdsBelow(Without(lst, ids), next)
    decreases |lst|
  {
    if lst != [] {
      var init := lst[..|lst| - 1];
      var el := lst[|lst| - 1];
      IdsBelowInit(lst, next);
      WithoutIdsBelow(init, ids, next);
      var w := Without(init, ids);
      if el.id !in ids {
        assert Without(lst, ids) == w + [el];
        IdsBelowSnoc(w, el, next);
      } else {
        assert Without(lst, ids) == w;
      }
    }
  }

  /** The listeners before the last one keep the order and all come before it. */
  lemma IdsBelowInit(lst: seq<Listener>, next: nat)
    requires lst != [] && IdsBelow(lst, next)
    ensures IdsBelow(lst[..|lst| - 1], next)
    ensures forall x :: x in lst[..|lst| - 1] ==> x.id < lst[|lst| - 1].id
  {
    var init := lst[..|lst| - 1];
    forall x | x in init
      ensures x in lst && x.id < lst[|lst| - 1].id
    {
      var k :| 0 <= k < |init| && init[k] == x;
      assert lst[k] == x;
    }
  }

  /** A listener with a larger id than all before it can be appended. */
  lemma IdsBelowSnoc(w: seq<Listener>, el: Listener, next: nat)
    requires IdsBelow(w, next) && el.id < next
    requires forall x :: x in w ==> x.id < el.id
    ensures IdsBelow(w + [el], next)
  {
    var r := w + [el];
    forall i, j | 0 <= i < j < |r|
      ensures r[i].id < r[j].id
    {
      assert r[i] == w[i] && w[i] in w;
    }
  }

  /** Filtering by no id keeps every listener. */
  lemma {:induction false} WithoutNothing(lst: seq<Listener>)
    ensures Without(lst, []) == lst
    decreases |lst|
  {
    if lst != [] {
      var init, el := lst[..|lst| - 1], lst[|lst| - 1];
      WithoutNothing(init);
      assert el.id !in [];
      assert Without(lst, []) == init + [el];
      assert init + [el] == lst;
    }
  }

  /** Removing one more id is filtering by the longer id list. */
  lemma {:induction false} WithoutSnoc(lst: seq<Listener>, ids: seq<nat>, id: nat)
    ensures Without(Without(lst, ids), [id]) == Without(lst, ids + [id])
    decreases |lst|
  {
    if lst != [] {
      var init := lst[..|lst| - 1];
      var el := lst[|lst| - 1];
      WithoutSnoc(init, ids, id);
      var w := Without(init, ids);
      assert Without(lst, ids + [id]) == Without(init, ids + [id]) + if el.id in ids + [id] then [] else [el];
      assert el.id in ids + [id] <==> el.id in ids || el.id == id;
      if el.id in ids {
        assert Without(lst, ids) == w;
      } else {
        assert Without(lst, ids) == w + [el];
        assert (w + [el])[..|w|] == w;
        assert Without(w + [el], [id]) == Without(w, [id]) + if el.id in [id] then [] else [el];
      }
    }
  }

  /** The first listener `callback_del` removes: not yet flagged, same callback, same data unless `data` is NULL. */
  function Match(lst: seq<Listener>, cb: nat, data: Option<nat>): (k: int)
    ensures -1 <= k < |lst|
    ensures k >= 0 ==> Matches(lst[k], cb, data) && forall j :: 0 <= j < k ==> !Matches(lst[j], cb, data)
    ensures k == -1 ==> forall j :: 0 <= j < |lst| ==> !Matches(lst[j], cb, data)
    decreases |lst|
  {
    if lst == [] then -1
    else if Matches(lst[0], cb, data) then 0
    else
      var k := Match(lst[1..], cb, data);
      if k < 0 then -1 else k + 1
  }

  predicate Matches(el: Listener, cb: nat, data: Option<nat>)
  {
    !el.deleted && el.cb == cb && (data.None? || el.data == data.value)
  }

  /** The search of `callback_del` as written: a listener already flagged deleted still matches. */
  function MatchAsWritten(lst: seq<Listener>, cb: nat, data: Option<nat>): (k: int)
    ensures -1 <= k < |lst|
    ensures k >= 0 ==> lst[k].cb == cb && (data.None? || lst[k].data == data.value)
    decreases |lst|
  {
    if lst == [] then -1
    else if lst[0].cb == cb && (data.None? || lst[0].data == data.value) then 0
    else
      var k := MatchAsWritten(lst[1..], cb, data);
      if k < 0 then -1 else k + 1
  }

  /** A `callback_del` during a walk as written: flags the listener found and queues its id. */
  function DeferAsWritten(lst: seq<Listener>, q: seq<nat>, cb: nat, data: Option<nat>): (r: (seq<Listener>, seq<nat>))
    ensures |r.0| == |lst| && |q| <= |r.1| <= |q| + 1
  {
    var k := MatchAsWritten(lst, cb, data);
    if k < 0 then (lst, q) else (Flag(lst, k), q + [lst[k].id])
  }

  /**
   * Two deletions of the same callback during one walk, as written: the
   * first listener is queued twice (`free_deleted` would unlink and free
   * it twice) and the second listener stays active.
   */
  lemma DoubleDeleteAsWritten()
    ensures var lst := [Listener(0, 1, 1, false), Listener(1, 1, 2, false)];
            var r1 := DeferAsWritten(lst, [], 1, None);
            var r2 := DeferAsWritten(r1.0, r1.1, 1, None);
            r2.1 == [0, 0] && !Queued(r2.0, r2.1, 2) && Active(r2.0, 0) == [Callback(1, 2, 0)]
  {
    var lst := [Listener(0, 1, 1, false), Listener(1, 1, 2, false)];
    var r1 := DeferAsWritten(lst, [], 1, None);
    assert MatchAsWritten(lst, 1, None) == 0;
    assert MatchAsWritten(r1.0, 1, None) == 0;
    var r2 := DeferAsWritten(r1.0, r1.1, 1, None);
    assert r1.1 == [0] && r2.1 == [0, 0];
    assert r2.0 == [Listener(0, 1, 1, true), Listener(1, 1, 2, false)];
    assert r2.1[0] == r2.1[1];
    var flagged := [Listener(0, 1, 1, true)];
    assert r2.0[..1] == flagged && flagged[..0] == [];
    assert Active(flagged, 0) == [];
  }

  /** The same two deletions when flagged listeners are skipped: each listener is queued once and none stays active. */
  lemma DoubleDeleteSkipsFlagged()
    ensures var lst := [Listener(0, 1, 1, false), Listener(1, 1, 2, false)];
            var k1 := Match(lst, 1, None);
            var l1 := Flag(lst, 0);
            var k2 := Match(l1, 1, None);
            k1 == 0 && k2 == 1 && Queued(Flag(l1, 1), [0, 1], 2) && Active(Flag(l1, 1), 0) == []
  {
    var lst := [Listener(0, 1, 1, false), Listener(1, 1, 2, false)];
    var l1 := Flag(lst, 0);
    assert l1 == [Listener(0, 1, 1, true), Listener(1, 1, 2, false)];
    assert Match(l1[1..], 1, None) == 0;
    var l2 := Flag(l1, 1);
    assert l2 == [Listener(0, 1, 1, true), Listener(1, 1, 2, true)];
    assert l2[..1] == [Listener(0, 1, 1, true)] && [Listener(0, 1, 1, true)][..0] == [];
  }

  /** The position of `name` in the event table, -1 when absent. */
  function Position(table: seq<Entry>, name: String): (r: int)
    ensures -1 <= r < |table|
    ensures r >= 0 ==> table[r].ev.name == name
    ensures r == -1 ==> forall k :: 0 <= k < |table| ==> table[k].ev.name != name
    decreases |table|
  {
    if table == [] then -1
    else if table[0].ev.name == name then 0
    else
      var r := Position(table[1..], name);
      if r < 0 then -1 else r + 1
  }

  /** On a sorted table the binary search finds exactly `Position`. */
  lemma FoundIsPosition(table: seq<Entry>, name: String, r: int)
    requires SortedByName(table)
    requires -1 <= r < |table| && (r == -1 <==> name !in Names(table)) && (r >= 0 ==> table[r].ev.name == name)
    ensures r == Position(table, name)
  {
    var p := Position(table, name);
    if r >= 0 {
      assert table[p].ev.name == name;
      NameLessIrreflexive(name);
    } else {
      assert forall k :: 0 <= k < |table| ==> Names(table)[k] == table[k].ev.name;
    }
  }

  /** The listener lists of an instance, a missing array read as empty lists. */
  function ListsOf(entries: Option<seq<seq<Listener>>>, n: nat): (r: seq<seq<Listener>>)
    requires entries.Some? ==> |entries.value| == n
    ensures |r| == n
  {
    if entries.None? then seq(n, i => []) else entries.value
  }

  /** The listener `callback_del` acts on: its index in the list of event `name`, -1 when there is none. */
  function DelTarget(table: seq<Entry>, entries: Option<seq<seq<Listener>>>, name: String, cb: nat, data: Option<nat>): (k: int)
    requires entries.Some? ==> |entries.value| == |table|
    ensures k >= 0 ==> Position(table, name) >= 0 && k < |ListsOf(entries, |table|)[Position(table, name)]| &&
                       Matches(ListsOf(entries, |table|)[Position(table, name)][k], cb, data)
  {
    var p := Position(table, name);
    if p < 0 then -1 else Match(ListsOf(entries, |table|)[p], cb, data)
  }

  /** The freeze counts of an instance, a missing array read as zeros. */
  function CountsOf(freeze: Option<seq<int>>, n: nat): (r: seq<int>)
    requires freeze.Some? ==> |freeze.value| == n
    ensures |r| == n
  {
    if freeze.None? then seq(n, i => 0) else freeze.value
  }

  /** The ids queued for removal are distinct, belong to flagged listeners and are already allocated. */
  predicate Queued(lst: seq<Listener>, q: seq<nat>, next: nat)
  {
    (forall a, b :: 0 <= a < b < |q| ==> q[a] != q[b]) &&
    (forall a :: a in q ==> a < next) &&
    forall x :: x in lst && x.id in q ==> x.deleted
  }

  /** One list per event with increasing ids, and one queue per event of removals deferred from those lists. */
  predicate ListenersOk(entries: Option<seq<seq<Listener>>>, pending: Option<seq<seq<nat>>>, next: nat, n: nat)
  {
    (entries.Some? ==> |entries.value| == n &&
                       forall i :: 0 <= i < n ==> IdsBelow(entries.value[i], next)) &&
    (pending.Some? ==> entries.Some? && |pending.value| == n &&
                       forall i :: 0 <= i < n ==> Queued(entries.value[i], pending.value[i], next))
  }

  /** Every list filtered by the ids queued for its event. */
  function Purged(es: seq<seq<Listener>>, ps: seq<seq<nat>>): (r: seq<seq<Listener>>)
    requires |ps| == |es|
    ensures |r| == |es| && forall i :: 0 <= i < |es| ==> r[i] == Without(es[i], ps[i])
  {
    seq(|es|, i requires 0 <= i < |es| => Without(es[i], ps[i]))
  }
  /** Purging every list keeps the ids increasing and below the next id, with no queue left. */
  lemma PurgedOk(es: seq<seq<Listener>>, ps: seq<seq<nat>>, next: nat, n: nat)
    requires ListenersOk(Some(es), Some(ps), next, n)
    ensures ListenersOk(Some(Purged(es, ps)), None, next, n)
  {
    forall j | 0 <= j < n
      ensures IdsBelow(Purged(es, ps)[j], next)
    {
      WithoutIdsBelow(es[j], ps[j], next);
    }
  }


  /** `lst` with its `k`-th listener unlinked. */
  function RemoveAt(lst: seq<Listener>, k: nat): (r: seq<Listener>)
    requires k < |lst|
    ensures |r| == |lst| - 1
    ensures forall j :: 0 <= j < |r| ==> r[j] == if j < k then lst[j] else lst[j + 1]
  {
    lst[..k] + lst[k + 1..]
  }

  /** `lst` with its `k`-th listener flagged deleted. */
  function Flag(lst: seq<Listener>, k: nat): (r: seq<Listener>)
    requires k < |lst|
    ensures |r| == |lst| && r[k].deleted && r[k].id == lst[k].id
    ensures forall j :: 0 <= j < |r| && j != k ==> r[j] == lst[j]
  {
    lst[k := lst[k].(deleted := true)]
  }

  /** A walk over a concatenation is the two walks one after the other. */
  lemma {:induction false} ActiveAppend(a: seq<Listener>, b: seq<Listener>, event: nat)
    ensures Active(a + b, event) == Active(a, event) + Active(b, event)
    decreases |b|
  {
    if b == [] {
      assert a + b == a;
    } else {
      var b0 := b[..|b| - 1];
      var el := b[|b| - 1];
      assert (a + b)[..|a + b| - 1] == a + b0;
      assert (a + b)[|a + b| - 1] == el;
      ActiveAppend(a, b0, event);
    }
  }

  /** Flagging a listener takes it out of every later walk, exactly as unlinking it does. */
  lemma FlagIsRemove(lst: seq<Listener>, k: nat, event: nat)
    requires k < |lst|
    ensures Active(Flag(lst, k), event) == Active(RemoveAt(lst, k), event)
  {
    var f := Flag(lst, k);
    var pre, x, post := lst[..k], f[k], lst[k + 1..];
    assert f == (pre + [x]) + post;
    assert Active([x], event) == [] by {
      assert [x][..0] == [];
    }
    ActiveAppend(pre + [x], post, event);
    ActiveAppend(pre, [x], event);
    ActiveAppend(pre, post, event);
  }

  /** Unlinking keeps the ids increasing. */
  lemma RemoveAtIdsBelow(lst: seq<Listener>, k: nat, next: nat)
    requires k < |lst| && IdsBelow(lst, next)
    ensures IdsBelow(RemoveAt(lst, k), next)
  {
    var r := RemoveAt(lst, k);
    forall x | x in r
      ensures x in lst
    {
      var j :| 0 <= j < |r| && r[j] == x;
    }
  }

  /** The callbacks `callback_call` invokes for `name`: none for an unknown or frozen event. */
  function Deliver(table: seq<Entry>, lists: seq<seq<Listener>>, counts: seq<int>, name: String): (r: seq<Step>)
    requires |lists| == |table| && |counts| == |table|
    ensures forall s :: s in r ==> s.Callback? && 0 <= s.event < |table| && table[s.event].ev.name == name
    ensures Position(table, name) < 0 || counts[Position(table, name)] != 0 ==> r == []
  {
    var p := Position(table, name);
    if p < 0 || counts[p] != 0 then [] else Active(lists[p], p)
  }

  /** The queues of an instance, a missing array read as empty queues. */
  function QueuesOf(deleted: Option<seq<seq<nat>>>, n: nat): (r: seq<seq<nat>>)
    requires deleted.Some? ==> |deleted.value| == n
    ensures |r| == n
  {
    if deleted.None? then seq(n, i => []) else deleted.value
  }

  /** A new listener, with a fresh id, appended to one list keeps the lists consistent. */
  lemma AppendListenerOk(es: seq<seq<Listener>>, qs: Option<seq<seq<nat>>>, next: nat, n: nat, p: nat, cb: nat, data: nat)
    requires ListenersOk(Some(es), qs, next, n) && p < n
    ensures ListenersOk(Some(es[p := es[p] + [Listener(next, cb, data, false)]]), qs, next + 1, n)
  {
    var el := Listener(next, cb, data, false);
    var es' := es[p := es[p] + [el]];
    forall i | 0 <= i < n
      ensures IdsBelow(es'[i], next + 1)
    {
      assert IdsBelow(es[i], next);
      assert forall x :: x in es'[i] ==> x in es[i] || x == el;
    }
    if qs.Some? {
      forall i | 0 <= i < n
        ensures Queued(es'[i], qs.value[i], next + 1)
      {
        assert Queued(es[i], qs.value[i], next);
        assert forall x :: x in es'[i] ==> x in es[i] || x == el;
      }
    }
  }

  /** Unlinking one listener keeps the lists consistent. */
  lemma RemoveListenerOk(es: seq<seq<Listener>>, next: nat, n: nat, p: nat, k: nat)
    requires ListenersOk(Some(es), None, next, n) && p < n && k < |es[p]|
    ensures ListenersOk(Some(es[p := RemoveAt(es[p], k)]), None, next, n)
  {
    RemoveAtIdsBelow(es[p], k, next);
  }

  /** Flagging an unflagged listener and queueing its id keeps the lists and queues consistent. */
  lemma FlagListenerOk(es: seq<seq<Listener>>, qs: seq<seq<nat>>, next: nat, n: nat, p: nat, k: nat)
    requires ListenersOk(Some(es), Some(qs), next, n) && p < n && k < |es[p]| && !es[p][k].deleted
    ensures ListenersOk(Some(es[p := Flag(es[p], k)]), Some(qs[p := qs[p] + [es[p][k].id]]), next, n)
  {
    var lst, q := es[p], qs[p];
    var f, id := Flag(lst, k), lst[k].id;
    assert IdsBelow(lst, next) && Queued(lst, q, next);
    assert lst[k] in lst;
    assert forall x :: x in f ==> x in lst || x == f[k];
    forall x | x in f && x.id in q + [id]
      ensures x.deleted
    {
      var j :| 0 <= j < |f| && f[j] == x;
      if j != k {
        assert lst[j] == x;
        assert x.id != id;
      }
    }
  }

  /** Flagging a listener without queueing it keeps the lists consistent. */
  lemma FlagOnlyOk(es: seq<seq<Listener>>, next: nat, n: nat, p: nat, k: nat)
    requires ListenersOk(Some(es), None, next, n) && p < n && k < |es[p]|
    ensures ListenersOk(Some(es[p := Flag(es[p], k)]), None, next, n)
  {
    var lst := es[p];
    assert IdsBelow(lst, next);
    assert forall x :: x in Flag(lst, k) ==> x.id == lst[k].id || x in lst;
  }

  /** The `listeners` part of an instance. */
  datatype Listeners = Listeners(
    /** `entries`: None while no listener was ever added. */
    entries: Option<seq<seq<Listener>>>,
    /** `deleted`: the ids flagged while walking, per event. */
    deleted: Option<seq<seq<nat>>>,
    /** `freeze`: None while no event was ever frozen. */
    freeze: Option<seq<int>>,
    walking: nat)

  /** The arrays that exist have one slot per event. */
  predicate Sized(l: Listeners, n: nat)
  {
    (l.entries.Some? ==> |l.entries.value| == n) &&
    (l.freeze.Some? ==> |l.freeze.value| == n)
  }

  /** Sized, with increasing listener ids and consistent removal queues. */
  predicate Shaped(l: Listeners, n: nat, next: nat)
  {
    Sized(l, n) && ListenersOk(l.entries, l.deleted, next, n)
  }

  /** Removals are only deferred while a walk is in progress. */
  predicate WalkConsistent(l: Listeners, n: nat, next: nat)
  {
    Shaped(l, n, next) && (l.walking == 0 ==> l.deleted.None?)
  }

  /** The callbacks a `callback_call` for `name` invokes with listeners `l`. */
  function Delivered(table: seq<Entry>, l: Listeners, name: String): (r: seq<Step>)
    requires Sized(l, |table|)
    ensures Destructor !in r && Flush !in r
  {
    Deliver(table, ListsOf(l.entries, |table|), CountsOf(l.freeze, |table|), name)
  }

  class Model {
    /** The description's sorted event table. */
    const table: seq<Entry>
    var listeners: Listeners
    var refcount: int
    var deleted: bool
    var freed: bool
    /** The identity the next listener allocation gets. */
    var nextId: nat
    var log: seq<Step>

    /** The listener state is consistent with the event table. */
    ghost predicate Wired()
      reads this
    {
      SortedByName(table) && WalkConsistent(listeners, |table|, nextId)
    }

    /** The lifecycle: alive with a positive count, or freed; the destructor has run exactly when deleted. */
    ghost predicate Valid()
      reads this
    {
      Wired() &&
      (Destructor in log <==> deleted) &&
      (freed ==> deleted && refcount == 0 && listeners.entries.None? && listeners.freeze.None?) &&
      (!freed ==> refcount >= 1)
    }

    /** The bookkeeping part of `eina_model_new`: one reference, no listeners. */
    constructor (table: seq<Entry>)
      requires SortedByName(table)
      ensures Valid() && this.table == table
      ensures refcount == 1 && !deleted && !freed && log == []
      ensures listeners == Listeners(None, None, None, 0)
    {
      this.table := table;
      listeners := Listeners(None, None, None, 0);
      refcount := 1;
      deleted := false;
      freed := false;
      nextId := 0;
      log := [];
    }

    /** `eina_model_ref`: one more reference. */
    method Ref()
      requires Valid() && !freed
      modifies this`refcount
      ensures Valid() && refcount == old(refcount) + 1
    {
      refcount := refcount + 1;
    }

    /** `walking++` before a dispatch loop. */
    method WalkEnter()
      requires Wired()
      modifies this`listeners
      ensures Wired() && listeners == old(listeners).(walking := old(listeners).walking + 1)
    {
      listeners := listeners.(walking := listeners.walking + 1);
    }

    /** `walking--` after a dispatch loop; the last walk out performs the deferred removals. */
    method WalkLeave()
      requires Wired() && listeners.walking > 0
      modifies this`listeners
      ensures Wired() && listeners.walking == old(listeners).walking - 1 && listeners.freeze == old(listeners).freeze
      ensures old(listeners).walking == 1 && old(listeners).deleted.Some? ==>
                listeners.entries == Some(Purged(old(listeners).entries.value, old(listeners).deleted.value))
      ensures old(listeners).walking > 1 || old(listeners).deleted.None? ==>
                listeners == old(listeners).(walking := old(listeners).walking - 1)
    {
      listeners := listeners.(walking := listeners.walking - 1);
      if listeners.walking == 0 && listeners.deleted.Some? {
        FreeDeleted();
      }
    }

    /** `_eina_model_event_callback_free_deleted`: unlinks every queued listener and drops the queues. */
    method FreeDeleted()
      requires SortedByName(table) && Shaped(listeners, |table|, nextId) && listeners.deleted.Some?
      modifies this`listeners
      ensures Shaped(listeners, |table|, nextId)
      ensures listeners == old(listeners).(entries := Some(Purged(old(listeners).entries.value, old(listeners).deleted.value)),
                                           deleted := None)
    {
      var es0, ps := listeners.entries.value, listeners.deleted.value;
      var es := PurgeAll(es0, ps);
      PurgedOk(es0, ps, nextId, |table|);
      listeners := listeners.(entries := Some(es), deleted := None);
    }

    /** The outer loop of `free_deleted`: purges each event's list by its queue. */
    static method PurgeAll(es0: seq<seq<Listener>>, ps: seq<seq<nat>>) returns (es: seq<seq<Listener>>)
      requires |ps| == |es0|
      ensures es == Purged(es0, ps)
    {
      es := es0;
      var i := 0;
      while i < |ps|
        invariant 0 <= i <= |ps| == |es| == |es0|
        invariant forall j :: 0 <= j < |es| ==> es[j] == if j < i then Without(es0[j], ps[j]) else es0[j]
      {
        var lst := RemoveQueued(es[i], ps[i]);
        es := es[i := lst];
        i := i + 1;
      }
    }

    /** The inner loop of `free_deleted`: unlinks the queued listeners of one event, one id at a time. */
    static method RemoveQueued(lst: seq<Listener>, ids: seq<nat>) returns (r: seq<Listener>)
      ensures r == Without(lst, ids)
    {
      r := lst;
      WithoutNothing(lst);
      var k := 0;
      while k < |ids|
        invariant k <= |ids|
        invariant r == Without(lst, ids[..k])
      {
        WithoutSnoc(lst, ids[..k], ids[k]);
        assert ids[..k + 1] == ids[..k] + [ids[k]];
        r := Without(r, [ids[k]]);
        k := k + 1;
      }
      assert ids[..k] == ids;
    }

    /**
     * `_eina_model_event_callback_call`: false for an unknown event; true
     * without invoking anything when the event is frozen or has no
     * listener; otherwise invokes every listener not flagged deleted.
     */
    method CallbackCall(name: String) returns (r: bool)
      requires Wired()
      modifies this`listeners, this`log
      ensures Wired() && listeners == old(listeners)
      ensures log == old(log) + Delivered(table, listeners, name)
      ensures r <==> var p := Position(table, name);
                     p >= 0 && (CountsOf(listeners.freeze, |table|)[p] != 0 || ListsOf(listeners.entries, |table|)[p] == [])
    {
      var id := EventIdFind(table, name);
      FoundIsPosition(table, name, id);
      if id < 0 {
        return false;
      }
      if listeners.entries.None? {
        return true;
      }
      if listeners.freeze.Some? && listeners.freeze.value[id] != 0 {
        return true;
      }
      var lst := listeners.entries.value[id];
      if lst == [] {
        return true;
      }
      WalkEnter();
      var steps: seq<Step> := [];
      var k := 0;
      while k < |lst|
        invariant k <= |lst|
        invariant steps == Active(lst[..k], id)
      {
        assert lst[..k + 1][..k] == lst[..k];
        if !lst[k].deleted {
          steps := steps + [Callback(lst[k].cb, lst[k].data, id)];
        }
        k := k + 1;
      }
      assert lst[..k] == lst;
      log := log + steps;
      WalkLeave();
      r := false;
    }

    /** `eina_model_event_callback_call`: the public entry to `CallbackCall` on a live instance. */
    method Emit(name: String) returns (r: bool)
      requires Valid() && !freed
      modifies this`listeners, this`log
      ensures Valid() && listeners == old(listeners)
      ensures log == old(log) + Delivered(table, listeners, name)
      ensures r <==> var p := Position(table, name);
                     p >= 0 && (CountsOf(listeners.freeze, |table|)[p] != 0 || ListsOf(listeners.entries, |table|)[p] == [])
    {
      r := CallbackCall(name);
    }

    /** `_eina_model_del`: once only, flags the instance deleted, fires "deleted" and runs the destructor. */
    method Del()
      requires Valid() && !freed
      modifies this`deleted, this`listeners, this`log
      ensures Valid() && deleted && listeners == old(listeners)
      ensures log == if old(deleted) then old(log) else old(log) + Delivered(table, listeners, DELETED) + [Destructor]
    {
      if deleted {
        return;
      }
      deleted := true;
      var _ := CallbackCall(DELETED);
      log := log + [Destructor];
    }

    /**
     * `_eina_model_free`: flushes, drops the last reference, fires
     * "freed", performs any deferred removals and releases the listener
     * and freeze arrays.
     */
    method Free()
      requires Valid() && !freed && deleted && refcount == 1
      modifies this`refcount, this`freed, this`listeners, this`log
      ensures Valid() && freed && refcount == 0 && listeners.walking == old(listeners).walking
      ensures log == old(log) + [Flush] + Delivered(table, old(listeners), FREED)
    {
      log := log + [Flush];
      refcount := refcount - 1;
      var _ := CallbackCall(FREED);
      if listeners.deleted.Some? {
        FreeDeleted();
      }
      listeners := listeners.(entries := None, freeze := None);
      freed := true;
    }

    /** `_eina_model_unref` (and `eina_model_unref`): drops a reference; the last one deletes if needed and frees. */
    method Unref()
      requires Valid() && !freed
      modifies this`refcount, this`deleted, this`freed, this`listeners, this`log
      ensures Valid() && listeners.walking == old(listeners).walking
      ensures old(refcount) > 1 ==> refcount == old(refcount) - 1 && !freed && deleted == old(deleted) &&
                                    log == old(log) && listeners == old(listeners)
      ensures old(refcount) == 1 ==> freed && deleted && refcount == 0
      ensures old(refcount) == 1 ==>
                log == old(log) + (if old(deleted) then [] else Delivered(table, old(listeners), DELETED) + [Destructor]) +
                       [Flush] + Delivered(table, old(listeners), FREED)
    {
      if refcount > 1 {
        refcount := refcount - 1;
        return;
      }
      Release();
    }

    /** The last reference going: deletes the instance if it is not deleted yet, then frees it. */
    method Release()
      requires Valid() && !freed && refcount == 1
      modifies this`refcount, this`deleted, this`freed, this`listeners, this`log
      ensures Valid() && freed && deleted && refcount == 0 && listeners.walking == old(listeners).walking
      ensures log == old(log) + (if old(deleted) then [] else Delivered(table, old(listeners), DELETED) + [Destructor]) +
                     [Flush] + Delivered(table, old(listeners), FREED)
    {
      if !deleted {
        Del();
      }
      Free();
    }

    /** `eina_model_del`: deletes the instance and drops the caller's reference. */
    method Delete()
      requires Valid() && !freed
      modifies this`refcount, this`deleted, this`freed, this`listeners, this`log
      ensures Valid() && deleted && listeners.walking == old(listeners).walking
      ensures freed <==> old(refcount) == 1
      ensures refcount == old(refcount) - 1
      ensures var deleting := if old(deleted) then [] else Delivered(table, old(listeners), DELETED) + [Destructor];
              log == old(log) + deleting + if old(refcount) == 1 then [Flush] + Delivered(table, old(listeners), FREED) else []
    {
      Del();
      ghost var log1 := log;
      assert log1 == old(log) + if old(deleted) then [] else Delivered(table, old(listeners), DELETED) + [Destructor];
      Unref();
      assert log == log1 + if old(refcount) == 1 then [Flush] + Delivered(table, old(listeners), FREED) else [];
    }

    /**
     * `eina_model_event_callback_add`: appends a listener to the event's
     * list, allocating the list array on first use.
     */
    method CallbackAdd(name: String, cb: nat, data: nat, entriesAllocOk: bool, listenerAllocOk: bool) returns (ok: bool)
      requires Valid() && !freed
      modifies this`listeners, this`nextId
      ensures Valid()
      ensures listeners.deleted == old(listeners).deleted && listeners.freeze == old(listeners).freeze &&
              listeners.walking == old(listeners).walking
      ensures ok <==> Position(table, name) >= 0 && (old(listeners).entries.Some? || entriesAllocOk) && listenerAllocOk
      ensures var p, before := Position(table, name), ListsOf(old(listeners).entries, |table|);
              ListsOf(listeners.entries, |table|) ==
                if ok then before[p := before[p] + [Listener(old(nextId), cb, data, false)]] else before
    {
      var id := EventIdFind(table, name);
      FoundIsPosition(table, name, id);
      if id < 0 {
        return false;
      }
      if listeners.entries.None? {
        if !entriesAllocOk {
          return false;
        }
        listeners := listeners.(entries := Some(seq(|table|, i => [])));
        assert listeners.entries.value == ListsOf(old(listeners).entries, |table|);
      }
      if !listenerAllocOk {
        return false;
      }
      var es := listeners.entries.value;
      AppendListenerOk(es, listeners.deleted, nextId, |table|, id, cb, data);
      listeners := listeners.(entries := Some(es[id := es[id] + [Listener(nextId, cb, data, false)]]));
      nextId := nextId + 1;
      ok := true;
    }

    /**
     * `eina_model_event_callback_del`: finds the first listener of the
     * event with the callback (and the data, unless it is NULL); unlinks
     * it, or while walking flags it and queues it for removal.
     */
    method CallbackDel(name: String, cb: nat, data: Option<nat>, queueAllocOk: bool) returns (ok: bool)
      requires Valid() && !freed
      modifies this`listeners
      ensures Valid()
      ensures listeners.freeze == old(listeners).freeze && listeners.walking == old(listeners).walking
      ensures var k := DelTarget(table, old(listeners).entries, name, cb, data);
              ok <==> k >= 0 && (listeners.walking == 0 || old(listeners).deleted.Some? || queueAllocOk)
      ensures DelTarget(table, old(listeners).entries, name, cb, data) < 0 ==> listeners == old(listeners)
      ensures var p, before := Position(table, name), ListsOf(old(listeners).entries, |table|);
              var k := DelTarget(table, old(listeners).entries, name, cb, data);
              k >= 0 && listeners.walking == 0 ==>
                listeners.entries == Some(before[p := RemoveAt(before[p], k)]) && listeners.deleted.None?
      ensures var p, before := Position(table, name), ListsOf(old(listeners).entries, |table|);
              var k := DelTarget(table, old(listeners).entries, name, cb, data);
              k >= 0 && listeners.walking > 0 ==> listeners.entries == Some(before[p := Flag(before[p], k)])
      ensures var p, before := Position(table, name), ListsOf(old(listeners).entries, |table|);
              var k := DelTarget(table, old(listeners).entries, name, cb, data);
              k >= 0 && listeners.walking > 0 && ok ==>
                var queued := QueuesOf(old(listeners).deleted, |table|);
                listeners.deleted == Some(queued[p := queued[p] + [before[p][k].id]])
      ensures !ok ==> listeners.deleted == old(listeners).deleted
    {
      if listeners.entries.None? {
        return false;
      }
      var id := EventIdFind(table, name);
      FoundIsPosition(table, name, id);
      if id < 0 {
        return false;
      }
      var k := FindListener(listeners.entries.value[id], cb, data);
      assert k == DelTarget(table, listeners.entries, name, cb, data);
      if k < 0 {
        return false;
      }
      if listeners.walking == 0 {
        Unlink(id, k);
        return true;
      }
      ok := Defer(id, k, queueAllocOk);
    }

    /** The branch of `callback_del` outside a walk: unlinks listener `k` of event `p`. */
    method Unlink(p: nat, k: nat)
      requires Valid() && !freed && listeners.walking == 0 && p < |table| && listeners.entries.Some?
      requires k < |listeners.entries.value[p]|
      modifies this`listeners
      ensures Valid()
      ensures var es := old(listeners).entries.value;
              listeners == old(listeners).(entries := Some(es[p := RemoveAt(es[p], k)]))
    {
      var es := listeners.entries.value;
      RemoveListenerOk(es, nextId, |table|, p, k);
      listeners := listeners.(entries := Some(es[p := RemoveAt(es[p], k)]));
    }

    /** The walking branch of `callback_del`: flags listener `k` of event `p` and queues it, allocating the queues on first use. */
    method Defer(p: nat, k: nat, queueAllocOk: bool) returns (ok: bool)
      requires Valid() && !freed && listeners.walking > 0 && p < |table| && listeners.entries.Some?
      requires k < |listeners.entries.value[p]| && !listeners.entries.value[p][k].deleted
      modifies this`listeners
      ensures Valid()
      ensures listeners.freeze == old(listeners).freeze && listeners.walking == old(listeners).walking
      ensures ok <==> old(listeners).deleted.Some? || queueAllocOk
      ensures var es := old(listeners).entries.value;
              listeners.entries == Some(es[p := Flag(es[p], k)])
      ensures ok ==> var queued := QueuesOf(old(listeners).deleted, |table|);
                     listeners.deleted == Some(queued[p := queued[p] + [old(listeners).entries.value[p][k].id]])
      ensures !ok ==> listeners.deleted == old(listeners).deleted
    {
      var es := listeners.entries.value;
      var flagged := es[p := Flag(es[p], k)];
      if listeners.deleted.None? {
        FlagOnlyOk(es, nextId, |table|, p, k);
        listeners := listeners.(entries := Some(flagged));
        if !queueAllocOk {
          return false;
        }
        listeners := listeners.(deleted := Some(seq(|table|, i => [])));
        assert listeners.deleted.value == QueuesOf(old(listeners).deleted, |table|);
      }
      var qs := listeners.deleted.value;
      FlagListenerOk(es, qs, nextId, |table|, p, k);
      listeners := listeners.(entries := Some(flagged), deleted := Some(qs[p := qs[p] + [es[p][k].id]]));
      ok := true;
    }

    /** The search loop of `callback_del`. */
    static method FindListener(lst: seq<Listener>, cb: nat, data: Option<nat>) returns (k: int)
      ensures k == Match(lst, cb, data)
    {
      k := 0;
      while k < |lst|
        invariant 0 <= k <= |lst|
        invariant forall j :: 0 <= j < k ==> !Matches(lst[j], cb, data)
      {
        if Matches(lst[k], cb, data) {
          return;
        }
        k := k + 1;
      }
      k := -1;
    }

    /** `eina_model_event_callback_freeze`: increments the event's freeze count, allocating the counts on first use. */
    method Freeze(name: String, allocOk: bool) returns (r: int)
      requires Valid() && !freed
      modifies this`listeners
      ensures Valid()
      ensures listeners.entries == old(listeners).entries && listeners.deleted == old(listeners).deleted &&
              listeners.walking == old(listeners).walking
      ensures var p, before := Position(table, name), CountsOf(old(listeners).freeze, |table|);
              if p < 0 || (old(listeners).freeze.None? && !allocOk) then r == -1 && listeners == old(listeners)
              else r == before[p] + 1 && listeners.freeze == Some(before[p := r])
    {
      var id := EventIdFind(table, name);
      FoundIsPosition(table, name, id);
      if id < 0 {
        return -1;
      }
      if listeners.freeze.None? {
        if !allocOk {
          return -1;
        }
        listeners := listeners.(freeze := Some(seq(|table|, i => 0)));
      }
      var counts := listeners.freeze.value;
      r := counts[id] + 1;
      listeners := listeners.(freeze := Some(counts[id := r]));
    }

    /** `eina_model_event_callback_thaw`: decrements the event's freeze count; -1 when nothing was ever frozen. */
    method Thaw(name: String) returns (r: int)
      requires Valid() && !freed
      modifies this`listeners
      ensures Valid()
      ensures listeners.entries == old(listeners).entries && listeners.deleted == old(listeners).deleted &&
              listeners.walking == old(listeners).walking
      ensures var p := Position(table, name);
              if old(listeners).freeze.None? || p < 0 then r == -1 && listeners == old(listeners)
              else r == old(listeners).freeze.value[p] - 1 && listeners.freeze == Some(old(listeners).freeze.value[p := r])
    {
      if listeners.freeze.None? {
        return -1;
      }
      var id := EventIdFind(table, name);
      FoundIsPosition(table, name, id);
      if id < 0 {
        return -1;
      }
      var counts := listeners.freeze.value;
      r := counts[id] - 1;
      listeners := listeners.(freeze := Some(counts[id := r]));
    }
  }
}
