/**
 * The children of a model instance (eina_model.c): the inarray children
 * interface, `eina_model_child_append` and `eina_model_child_sort`, the
 * reversed, sorted and filtered slice iterators with the criteria match
 * they use, `eina_model_compare`, `eina_model_load` and
 * `eina_model_struct_get`.
 *
 * A child is an opaque model identity (`nat`); the comparator a sort is
 * given is modelled by a key function, and a user match callback by the
 * answers it gives per position.
 */
module ModelChildren {
  import opened Wrappers
  import opened ModelTypes
  import opened ModelObject
  import ModelSort

  const CHILD_INSERTED: String := "child,inserted"
  const CHILDREN_CHANGED: String := "children,changed"
  const LOADED: String := "loaded"
  /** 2^32: `unsigned int` arithmetic wraps modulo this. */
  const U32: nat := 0x1_0000_0000

  /** A reference the children interface takes on, or drops from, a child. */
  datatype RefOp = Take(child: nat) | Drop(child: nat)

  /** The references a sequence of operations leaves held. */
  function Held(ops: seq<RefOp>): multiset<nat>
  {
    if ops == [] then multiset{} else Apply(Held(ops[..|ops| - 1]), ops[|ops| - 1])
  }

  /** The references held after one more operation. */
  function Apply(h: multiset<nat>, op: RefOp): multiset<nat>
  {
    match op
    case Take(c) => h + multiset{c}
    case Drop(c) => h - multiset{c}
  }

  /** One more operation adds or removes one reference. */
  lemma HeldSnoc(ops: seq<RefOp>, op: RefOp)
    ensures Held(ops + [op]) == Apply(Held(ops), op)
  {
    assert (ops + [op])[..|ops|] == ops;
  }

  /** Removing one element removes one occurrence from the multiset. */
  lemma MultisetRemove(s: seq<nat>, i: nat)
    requires i < |s|
    ensures multiset(s[..i] + s[i + 1..]) == multiset(s) - multiset{s[i]}
  {
    assert s == s[..i] + [s[i]] + s[i + 1..];
  }

  /** Inserting one element adds one occurrence to the multiset. */
  lemma MultisetInsert(s: seq<nat>, i: nat, x: nat)
    requires i <= |s|
    ensures multiset(s[..i] + [x] + s[i..]) == multiset(s) + multiset{x}
  {
    assert s == s[..i] + s[i..];
  }

  /** Replacing one element swaps one occurrence in the multiset. */
  lemma MultisetUpdate(s: seq<nat>, i: nat, x: nat)
    requires i < |s|
    ensures s[i] in multiset(s)
    ensures multiset(s[i := x]) == multiset(s) - multiset{s[i]} + multiset{x}
  {
    assert s == s[..i] + [s[i]] + s[i + 1..];
    assert s[i := x] == s[..i] + [x] + s[i + 1..];
  }

  /** The inarray children interface: the children array and the references it took and dropped. */
  class Inarray {
    var members: seq<nat>
    var refs: seq<RefOp>

    /** The array holds exactly one reference per slot. */
    ghost predicate Valid()
      reads this
    {
      Held(refs) == multiset(members)
    }

    constructor ()
      ensures Valid() && members == [] && refs == []
    {
      members := [];
      refs := [];
    }

    /** `child_set`: replaces the child at `position`, taking a reference to the new one and dropping the old one's. */
    method Set(position: nat, child: nat) returns (ok: bool)
      requires Valid()
      modifies this
      ensures Valid()
      ensures ok <==> position < |old(members)|
      ensures ok ==> members == old(members)[position := child] &&
                     refs == old(refs) + [Take(child), Drop(old(members)[position])]
      ensures !ok ==> members == old(members) && refs == old(refs)
    {
      if position >= |members| {
        return false;
      }
      var old_ := members[position];
      MultisetUpdate(members, position, child);
      HeldSnoc(refs, Take(child));
      HeldSnoc(refs + [Take(child)], Drop(old_));
      assert refs + [Take(child)] + [Drop(old_)] == refs + [Take(child), Drop(old_)];
      refs := refs + [Take(child), Drop(old_)];
      members := members[position := child];
      ok := true;
    }

    /** `child_del`: removes the child at `position` and drops its reference. */
    method Del(position: nat) returns (ok: bool)
      requires Valid()
      modifies this
      ensures Valid()
      ensures ok <==> position < |old(members)|
      ensures ok ==> members == old(members)[..position] + old(members)[position + 1..] &&
                     refs == old(refs) + [Drop(old(members)[position])]
      ensures !ok ==> members == old(members) && refs == old(refs)
    {
      if position >= |members| {
        return false;
      }
      var old_ := members[position];
      HeldSnoc(refs, Drop(old_));
      MultisetRemove(members, position);
      refs := refs + [Drop(old_)];
      members := members[..position] + members[position + 1..];
      ok := true;
    }

    /** `child_insert_at`: inserts at `position` (at most the count) and takes a reference; fails when the array cannot grow. */
    method InsertAt(position: nat, child: nat, allocOk: bool) returns (ok: bool)
      requires Valid()
      modifies this
      ensures Valid()
      ensures ok <==> position <= |old(members)| && allocOk
      ensures ok ==> members == old(members)[..position] + [child] + old(members)[position..] &&
                     refs == old(refs) + [Take(child)]
      ensures !ok ==> members == old(members) && refs == old(refs)
    {
      if position > |members| || !allocOk {
        return false;
      }
      HeldSnoc(refs, Take(child));
      MultisetInsert(members, position, child);
      refs := refs + [Take(child)];
      members := members[..position] + [child] + members[position..];
      ok := true;
    }

    /** `child_sort`: sorts the children in place with the quicksort when there are at least two. */
    method Sort(key: nat -> int)
      requires Valid()
      modifies this
      ensures Valid() && refs == old(refs)
      ensures ModelSort.SortedBetween(members, key, 0, |members| - 1)
      ensures multiset(members) == multiset(old(members))
    {
      var count := |members|;
      if count > 1 {
        var m := members;
        var a := new nat[count](i requires 0 <= i < count => m[i]);
        assert a[..] == m;
        ModelSort.Sort(a, 0, count - 1, key);
        members := a[..];
      }
    }
  }

  /**
   * `eina_model_child_append`: inserts `child` at the current count and
   * fires "child,inserted" then "children,changed"; returns the
   * position, or -1 when the type has no `child_insert_at` or the
   * insertion fails.
   */
  method Append(m: Model, c: Inarray, child: nat, hasInsert: bool, allocOk: bool) returns (position: int)
    requires m.Valid() && !m.freed && c.Valid()
    modifies m`listeners, m`log, c
    ensures m.Valid() && c.Valid() && m.listeners == old(m.listeners)
    ensures position == if hasInsert && allocOk then |old(c.members)| else -1
    ensures position >= 0 ==> c.members == old(c.members) + [child] && c.refs == old(c.refs) + [Take(child)]
    ensures position >= 0 ==> m.log == old(m.log) + Delivered(m.table, m.listeners, CHILD_INSERTED) +
                                       Delivered(m.table, m.listeners, CHILDREN_CHANGED)
    ensures position < 0 ==> c.members == old(c.members) && c.refs == old(c.refs) && m.log == old(m.log)
  {
    position := |c.members|;
    if !hasInsert {
      return -1;
    }
    var ok := c.InsertAt(position, child, allocOk);
    if !ok {
      return -1;
    }
    assert c.members == old(c.members) + [child] by {
      assert old(c.members)[position..] == [];
      assert old(c.members)[..position] == old(c.members);
    }
    var _ := m.Emit(CHILD_INSERTED);
    var _ := m.Emit(CHILDREN_CHANGED);
  }

  /** `eina_model_child_sort`: sorts when the type can, then fires "children,changed"; always true. */
  method ChildSort(m: Model, c: Inarray, key: nat -> int, hasSort: bool) returns (ok: bool)
    requires m.Valid() && !m.freed && c.Valid()
    modifies m`listeners, m`log, c
    ensures m.Valid() && c.Valid() && m.listeners == old(m.listeners) && c.refs == old(c.refs) && ok
    ensures hasSort ==> ModelSort.SortedBetween(c.members, key, 0, |c.members| - 1) &&
                        multiset(c.members) == multiset(old(c.members))
    ensures !hasSort ==> c.members == old(c.members)
    ensures m.log == old(m.log) + Delivered(m.table, m.listeners, CHILDREN_CHANGED)
  {
    if hasSort {
      c.Sort(key);
    }
    var _ := m.Emit(CHILDREN_CHANGED);
    ok := true;
  }

  /** The children from `start` on, at most `count` of them (the slice the iterators promise). */
  function Clamp(start: nat, count: nat, n: nat): (c: nat)
    ensures c <= count
    ensures start < n ==> start + c <= n && (c == count || start + c == n)
    ensures start >= n ==> c == 0
  {
    if start + count > n then (if start >= n then 0 else n - start) else count
  }

  /** The clamp of the reversed and sorted slice iterators as written: `start + count` is an `unsigned int` sum. */
  function ClampAsWritten(start: nat, count: nat, n: nat): (c: nat)
    requires start < U32 && count < U32 && n < U32
    ensures c <= count || c == n - start
  {
    if (start + count) % U32 > n then (if start >= n then 0 else n - start) else count
  }

  /** Without wrap-around the clamp as written is the promised one. */
  lemma ClampAsWrittenNoWrap(start: nat, count: nat, n: nat)
    requires start + count < U32 && n < U32
    ensures ClampAsWritten(start, count, n) == Clamp(start, count, n)
  {
  }

  /** When the sum wraps the count is not clamped: 2^32 - 1 children past position 1 of 5. */
  lemma ClampWraps()
    ensures ClampAsWritten(1, U32 - 1, 5) == U32 - 1
    ensures Clamp(1, U32 - 1, 5) == 4
  {
  }

  /** The slice of `children` the iterators cover. */
  function Slice(children: seq<nat>, start: nat, count: nat): (r: seq<nat>)
    ensures |r| == Clamp(start, count, |children|)
    ensures forall i :: 0 <= i < |r| ==> r[i] == children[start + i]
  {
    if start >= |children| then [] else children[start..start + Clamp(start, count, |children|)]
  }

  /** `s` last element first. */
  function Reverse(s: seq<nat>): (r: seq<nat>)
    ensures |r| == |s|
  {
    if s == [] then [] else [s[|s| - 1]] + Reverse(s[..|s| - 1])
  }

  /** Element `i` of the reversal is element `|s| - 1 - i` of the original. */
  lemma {:induction false} ReverseAt(s: seq<nat>, i: nat)
    requires i < |s|
    ensures Reverse(s)[i] == s[|s| - 1 - i]
  {
    if i > 0 {
      ReverseAt(s[..|s| - 1], i - 1);
    }
  }

  /** The state of a reversed slice iterator: it yields positions `current - 1` down to `end`. */
  datatype ReversedIter = ReversedIter(current: nat, end: nat)

  /** `child_reversed_iterator_get` with the promised clamp. */
  function ReversedGet(start: nat, count: nat, n: nat): (it: ReversedIter)
    ensures it.end == start && it.end <= it.current && (start < n ==> it.current <= n)
  {
    ReversedIter(start + Clamp(start, count, n), start)
  }

  /** `child_reversed_iterator_next`: the next child and the iterator after it, None at the end or past the children. */
  function ReversedNext(children: seq<nat>, it: ReversedIter): (r: Option<(nat, ReversedIter)>)
    requires it.end <= it.current
    ensures r.Some? ==> it.end < it.current <= |children| && r.value.1 == ReversedIter(it.current - 1, it.end) &&
                        r.value.0 == children[it.current - 1]
  {
    if it.current == it.end then None
    else if it.current - 1 < |children| then Some((children[it.current - 1], ReversedIter(it.current - 1, it.end)))
    else None
  }

  /** Everything an iterator yields until `next` answers false. */
  function ReversedDrain(children: seq<nat>, it: ReversedIter): seq<nat>
    requires it.end <= it.current
    decreases it.current
  {
    match ReversedNext(children, it)
    case None => []
    case Some(step) => [step.0] + ReversedDrain(children, step.1)
  }

  /** A reversed iterator over positions [end, end + k) yields those children last first. */
  lemma {:induction false} ReversedDrainSpan(children: seq<nat>, end: nat, k: nat)
    requires end + k <= |children|
    ensures ReversedDrain(children, ReversedIter(end + k, end)) == Reverse(children[end..end + k])
  {
    if k > 0 {
      ReversedDrainSpan(children, end, k - 1);
      var s := children[end..end + k];
      assert s[..k - 1] == children[end..end + k - 1];
      assert s[k - 1] == children[end + k - 1];
    }
  }

  /** The reversed slice iterator yields the clamped slice, last child first. */
  lemma ReversedYieldsSlice(children: seq<nat>, start: nat, count: nat)
    ensures ReversedDrain(children, ReversedGet(start, count, |children|)) == Reverse(Slice(children, start, count))
  {
    var c := Clamp(start, count, |children|);
    if start < |children| {
      assert Slice(children, start, count) == children[start..start + c];
      ReversedDrainSpan(children, start, c);
    } else {
      ReversedPastEnd(children, start, c);
    }
  }

  /** An iterator that starts at or past the last child yields nothing. */
  lemma ReversedPastEnd(children: seq<nat>, start: nat, c: nat)
    requires |children| <= start && c == 0
    ensures ReversedDrain(children, ReversedIter(start + c, start)) == []
  {
    assert ReversedNext(children, ReversedIter(start, start)).None?;
  }

  /**
   * `child_sorted_iterator_get` with the promised clamp: the clamped
   * slice, sorted with the quicksort when it has at least two children.
   */
  method SortedGet(children: seq<nat>, start: nat, count: nat, key: nat -> int) returns (elements: seq<nat>)
    ensures multiset(elements) == multiset(Slice(children, start, count))
    ensures ModelSort.SortedBetween(elements, key, 0, |elements| - 1)
  {
    var c := Clamp(start, count, |children|);
    var a := new nat[c];
    var i := 0;
    while i < c
      invariant i <= c
      invariant forall j :: 0 <= j < i ==> a[j] == children[start + j]
    {
      a[i] := children[i + start];
      i := i + 1;
    }
    assert a[..] == Slice(children, start, count);
    if c > 1 {
      ModelSort.Sort(a, 0, c - 1, key);
    }
    elements := a[..];
  }

  /** The positions from `start` on whose child the match callback accepts, in order. */
  function Matching(matched: seq<bool>, start: nat): (r: seq<nat>)
    ensures forall i :: 0 <= i < |r| ==> start <= r[i] < |matched| && matched[r[i]]
    decreases |matched| - start
  {
    if start >= |matched| then []
    else (if matched[start] then [start] else []) + Matching(matched, start + 1)
  }

  /** The first position from `start` on whose child matches, -1 if none. */
  function FirstMatch(matched: seq<bool>, start: nat): (r: int)
    ensures r == -1 || (start <= r < |matched| && matched[r])
    ensures r == -1 ==> forall i :: start <= i < |matched| ==> !matched[i]
    ensures r >= 0 ==> forall i :: start <= i < r ==> !matched[i]
    decreases |matched| - start
  {
    if start >= |matched| then -1
    else if matched[start] then start
    else FirstMatch(matched, start + 1)
  }

  /** The first match heads the list of matches. */
  lemma {:induction false} FirstMatchHeads(matched: seq<bool>, start: nat)
    ensures FirstMatch(matched, start) == -1 <==> Matching(matched, start) == []
    ensures FirstMatch(matched, start) >= 0 ==>
              Matching(matched, start) == [FirstMatch(matched, start)] + Matching(matched, FirstMatch(matched, start) + 1)
    decreases |matched| - start
  {
    if start < |matched| && !matched[start] {
      FirstMatchHeads(matched, start + 1);
    }
  }

  /** `_eina_model_type_base_child_criteria_match`: the loop over the children from `start`. */
  method CriteriaMatch(matched: seq<bool>, start: nat) returns (r: int)
    ensures r == FirstMatch(matched, start)
  {
    var i := start;
    while i < |matched|
      invariant start <= i
      invariant FirstMatch(matched, start) == FirstMatch(matched, i) || (i >= |matched| && FirstMatch(matched, start) == -1)
    {
      if matched[i] {
        return i;
      }
      i := i + 1;
    }
    r := -1;
  }

  /** The state of a filtered slice iterator. */
  datatype FilteredIter = FilteredIter(current: nat, count: nat)

  /** `child_filtered_iterator_next`: the next matching position and the iterator after it. */
  function FilteredNext(matched: seq<bool>, it: FilteredIter): (r: Option<(nat, FilteredIter)>)
    ensures r.Some? ==> r.value.1.count == it.count - 1 && it.count > 0 &&
                        r.value.1.current == r.value.0 + 1 && r.value.0 >= it.current
  {
    if it.count == 0 then None
    else
      var i := FirstMatch(matched, it.current);
      if i < 0 then None else Some((i as nat, FilteredIter(i + 1, it.count - 1)))
  }

  /** Everything a filtered iterator yields. */
  function FilteredDrain(matched: seq<bool>, it: FilteredIter): seq<nat>
    decreases it.count
  {
    match FilteredNext(matched, it)
    case None => []
    case Some(step) => [step.0] + FilteredDrain(matched, step.1)
  }

  /** A filtered iterator from `start` yields the first `count` matching positions from `start` on. */
  lemma {:induction false} FilteredYieldsMatches(matched: seq<bool>, start: nat, count: nat)
    ensures var all := Matching(matched, start);
            FilteredDrain(matched, FilteredIter(start, count)) == all[..if count < |all| then count else |all|]
    decreases count
  {
    var all := Matching(matched, start);
    var it := FilteredIter(start, count);
    FirstMatchHeads(matched, start);
    var i := FirstMatch(matched, start);
    if count == 0 || i < 0 {
      assert FilteredNext(matched, it).None?;
      assert FilteredDrain(matched, it) == [];
    } else {
      FilteredYieldsMatches(matched, i + 1, count - 1);
      assert FilteredNext(matched, it) == Some((i as nat, FilteredIter(i + 1, count - 1)));
      var rest := Matching(matched, i + 1);
      assert all == [i] + rest;
      var m := if count - 1 < |rest| then count - 1 else |rest|;
      assert all[..m + 1] == [i] + rest[..m];
    }
  }

  /** The error `eina_error_set` leaves behind. */
  datatype Error = NoError | MethodMissing | Failed

  /**
   * A type's compare method as seen from one side: None when the type has
   * none, Some(None) when it reports failure, Some(Some(c)) when it
   * compares its own model with the other one as `c`.
   */
  type Comparator = Option<Option<int>>

  predicate Answers(m: Comparator)
  {
    m.Some? && m.value.Some?
  }

  /**
   * `eina_model_compare`: the first model's method is asked first, the
   * second one's answer is negated since it compares the other way; -1
   * with the error set when neither answers. On an answer the source
   * leaves `eina_error` as it was; the model writes `NoError` for that.
   */
  function Compare(a: Comparator, b: Comparator): (r: (int, Error))
    ensures r.1 == MethodMissing <==> a.None? && b.None?
    ensures r.1 == NoError <==> Answers(a) || Answers(b)
    ensures r.1 != NoError ==> r.0 == -1
    ensures Answers(a) ==> r.0 == a.value.value
    ensures !Answers(a) && Answers(b) ==> r.0 == -b.value.value
  {
    if a.None? && b.None? then (-1, MethodMissing)
    else if Answers(a) then (a.value.value, NoError)
    else if Answers(b) then (-b.value.value, NoError)
    else (-1, Failed)
  }

  /** With methods that agree with each other, swapping the models negates the comparison. */
  lemma CompareSwapped(a: Comparator, b: Comparator)
    requires Answers(a) && Answers(b) ==> a.value.value == -b.value.value
    ensures Compare(a, b).1 == Compare(b, a).1
    ensures Compare(a, b).1 == NoError ==> Compare(a, b).0 == -Compare(b, a).0
  {
  }

  /** What `eina_model_load` returns and the error it leaves, as written: false when there is no load method. */
  function LoadOutcomeAsWritten(load: Option<bool>): (r: (bool, Error))
    ensures r.0 <==> load == Some(true)
    ensures r.1 == MethodMissing <==> load.None?
  {
    match load
    case None => (false, MethodMissing)
    case Some(ok) => (ok, NoError)
  }

  /** What `eina_model_load` promises: true without effect when there is no load method. */
  function LoadOutcome(load: Option<bool>): (r: (bool, Error))
    ensures r.0 <==> load != Some(false)
    ensures r.1 == MethodMissing <==> load.None?
  {
    match load
    case None => (true, MethodMissing)
    case Some(ok) => (ok, NoError)
  }

  /** The two only differ on a type without a load method, where the code as written reports failure. */
  lemma LoadMissingDiffers(load: Option<bool>)
    ensures LoadOutcomeAsWritten(load).0 != LoadOutcome(load).0 <==> load.None?
    ensures !LoadOutcomeAsWritten(None).0 && LoadOutcome(None).0
  {
  }

  /**
   * `eina_model_load` with the promised answer: runs the type's load
   * method (`load` is what it returns, None when there is none) and
   * fires "loaded" when it succeeds.
   */
  method Load(m: Model, load: Option<bool>) returns (ok: bool, err: Error)
    requires m.Valid() && !m.freed
    modifies m`listeners, m`log
    ensures m.Valid() && m.listeners == old(m.listeners)
    ensures (ok, err) == LoadOutcome(load)
    ensures m.log == old(m.log) + if load == Some(true) then Delivered(m.table, m.listeners, LOADED) else []
  {
    match load {
      case None =>
        ok, err := true, MethodMissing;
      case Some(r) =>
        ok, err := r, NoError;
        if r {
          var _ := m.Emit(LOADED);
        }
    }
  }

  /** What the struct properties interface keeps: the structure's description and memory. */
  datatype StructValue = StructValue(desc: nat, memory: nat)

  /** The outputs of `eina_model_struct_get`: the result and what `p_desc` and `p_memory` point to. */
  datatype StructGot = StructGot(ok: bool, desc: Option<nat>, memory: Option<nat>)

  /**
   * `eina_model_struct_get` as written: `implemented` says whether the
   * model implements the struct properties interface, `value` is what
   * reading its private value gives.  The outputs are set, yet the
   * result is false.
   */
  function StructGetAsWritten(implemented: bool, value: Option<StructValue>): (r: StructGot)
    ensures !r.ok
    ensures r.desc.Some? <==> implemented && value.Some?
    ensures r.desc.Some? ==> r.desc == Some(value.value.desc) && r.memory == Some(value.value.memory)
  {
    if !implemented || value.None? then StructGot(false, None, None)
    else StructGot(false, Some(value.value.desc), Some(value.value.memory))
  }

  /** `eina_model_struct_get` as documented: true exactly when the outputs are set. */
  function StructGet(implemented: bool, value: Option<StructValue>): (r: StructGot)
    ensures r.ok <==> r.desc.Some?
    ensures r.desc.Some? <==> implemented && value.Some?
    ensures r.ok ==> r.desc == Some(value.value.desc) && r.memory == Some(value.value.memory)
    ensures !r.ok ==> r.memory.None?
  {
    if !implemented || value.None? then StructGot(false, None, None)
    else StructGot(true, Some(value.value.desc), Some(value.value.memory))
  }

  /** On success the code as written sets the same outputs but answers false. */
  lemma StructGetSuccessReadsAsFailure(implemented: bool, value: Option<StructValue>)
    requires implemented && value.Some?
    ensures StructGetAsWritten(implemented, value).desc == StructGet(implemented, value).desc
    ensures !StructGetAsWritten(implemented, value).ok && StructGet(implemented, value).ok
  {
  }
}
