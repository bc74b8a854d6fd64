/**
 * The allocator state behind object identifiers: the per-hierarchy range
 * allocator (`Eina_Class_Top`), the slots of one range
 * (`Eina_Class_Range`: trash stack, generations, free count), and the
 * parent/child links between objects with the recursive delete.
 */
module ObjectStore {
  import opened Wrappers
  import opened ObjectIds

  // ------------------------------------------------------------ ranges

  /** An `Eina_Range`: the identifiers `[start, end)` kept for reuse. */
  datatype Block = Block(start: nat, end: nat)

  /** `av->end - av->start` on `unsigned int`. */
  function BlockSize(b: Block): (r: nat)
    ensures r < UINT_RANGE
    ensures b.start <= b.end < UINT_RANGE ==> r == b.end - b.start
  {
    (b.end - b.start) % UINT_RANGE
  }

  /** The first kept block of exactly `size` identifiers at or after `i`, `|available|` when none. */
  function FirstOfSize(available: seq<Block>, size: nat, i: nat): (r: nat)
    requires i <= |available|
    ensures i <= r <= |available|
    ensures r < |available| ==> BlockSize(available[r]) == size
    ensures forall j :: i <= j < r ==> BlockSize(available[j]) != size
    decreases |available| - i
  {
    if i == |available| then i
    else if BlockSize(available[i]) == size then i
    else FirstOfSize(available, size, i + 1)
  }

  /** The block list with entry `i` taken out. */
  function Without(available: seq<Block>, i: nat): (r: seq<Block>)
    requires i < |available|
    ensures |r| + 1 == |available|
    ensures forall b :: b in r ==> b in available
  {
    available[..i] + available[i + 1..]
  }

  /** The identifier space of one class hierarchy. */
  class Top {
    /** `available`: ranges given back, most recent first. */
    var available: seq<Block>
    /** `upper_limit`: where the next fresh range starts. */
    var upperLimit: nat

    /** The limit and every kept block are `unsigned int` values. */
    ghost predicate Valid()
      reads this
    {
      upperLimit < UINT_RANGE && forall b :: b in available ==> b.start < UINT_RANGE && b.end < UINT_RANGE
    }

    /** Every kept block lies below the upper limit. */
    ghost predicate Below()
      reads this
    {
      forall b :: b in available ==> b.start <= b.end <= upperLimit
    }

    /** The top made by `eina_class_new` for a root class. */
    constructor ()
      ensures Valid() && Below()
      ensures available == [] && upperLimit == 0
    {
      available, upperLimit := [], 0;
    }

    /**
     * `_eina_class_range_add`: the first kept block of exactly `poolSize`
     * identifiers, taken off the list; when there is none, a fresh block
     * at the upper limit, which moves past it (as `unsigned int`).
     */
    method RangeAdd(poolSize: nat) returns (b: Block)
      requires Valid() && poolSize < UINT_RANGE
      modifies this
      ensures Valid() && b.start < UINT_RANGE && b.end < UINT_RANGE
      ensures FirstOfSize(old(available), poolSize, 0) < |old(available)| ==>
                b == old(available)[FirstOfSize(old(available), poolSize, 0)]
                && available == Without(old(available), FirstOfSize(old(available), poolSize, 0))
                && upperLimit == old(upperLimit)
      ensures FirstOfSize(old(available), poolSize, 0) == |old(available)| ==>
                b == Block(old(upperLimit), (old(upperLimit) + poolSize) % UINT_RANGE)
                && upperLimit == b.end && available == old(available)
      ensures old(Below()) && old(upperLimit) + poolSize < UINT_RANGE ==> Below()
    {
      var i: nat := 0;
      while i < |available| && BlockSize(available[i]) != poolSize
        invariant i <= |available| && FirstOfSize(available, poolSize, i) == FirstOfSize(available, poolSize, 0)
      {
        i := i + 1;
      }
      if i < |available| {
        b := available[i];
        available := Without(available, i);
      } else {
        b := Block(upperLimit, (upperLimit + poolSize) % UINT_RANGE);
        upperLimit := b.end;
      }
    }

    /**
     * `_eina_class_range_del`: the range's identifiers are put at the head
     * of the kept list, unless the record for them cannot be ranges.
     */
    method RangeDel(b: Block, keepOk: bool)
      requires Valid() && b.start < UINT_RANGE && b.end < UINT_RANGE
      modifies this`available
      ensures Valid()
      ensures available == if keepOk then [b] + old(available) else old(available)
      ensures old(Below()) && b.start <= b.end <= upperLimit ==> Below()
    {
      if keepOk {
        available := [b] + available;
      }
    }
  }

  /** A block given back is the one the next range of the same size takes. */
  lemma DelThenAddReuses(available: seq<Block>, b: Block)
    ensures FirstOfSize([b] + available, BlockSize(b), 0) == 0
  {
  }

  /** A fresh block lies past every kept block. */
  lemma FreshBlockApart(available: seq<Block>, upperLimit: nat, poolSize: nat, b: Block)
    requires forall k :: k in available ==> k.start <= k.end <= upperLimit
    requires upperLimit + poolSize < UINT_RANGE
    requires b == Block(upperLimit, (upperLimit + poolSize) % UINT_RANGE)
    ensures b.end == b.start + poolSize
    ensures forall k :: k in available ==> k.end <= b.start
  {
  }

  /** `_eina_class_empty_range_get`: the first range of a class with a free slot, `|emptyCounts|` when none. */
  function RangeWithRoom(emptyCounts: seq<nat>, i: nat): (r: nat)
    requires i <= |emptyCounts|
    ensures i <= r <= |emptyCounts|
    ensures r < |emptyCounts| ==> emptyCounts[r] > 0
    ensures forall j :: i <= j < r ==> emptyCounts[j] == 0
    decreases |emptyCounts| - i
  {
    if i == |emptyCounts| then i
    else if emptyCounts[i] > 0 then i
    else RangeWithRoom(emptyCounts, i + 1)
  }

  // ------------------------------------------------------------- slots

  /** The entries of a sequence are pairwise different. */
  predicate Distinct(xs: seq<nat>)
  {
    forall i, j :: 0 <= i < j < |xs| ==> xs[i] != xs[j]
  }

  /** The slots of one range: its identifiers, the used prefix, the trash and the generations. */
  class Range {
    var start: nat
    var end: nat
    /** `current`: slots below it have been handed out at least once. */
    var current: nat
    /** `empty_count`: the slots free for allocation. */
    var emptyCount: nat
    /** `empty`: the trash of released slots, most recent first. */
    var trash: seq<nat>
    /** `generation_array`, one per slot. */
    var gens: seq<nat>

    /**
     * The free count is the untouched slots plus the trash, and the trash
     * holds each released slot once.
     */
    ghost predicate Valid()
      reads this
    {
      start < UINT_RANGE && |gens| < UINT_RANGE && current <= |gens|
      && (forall k :: 0 <= k < |gens| ==> gens[k] < GEN_RANGE)
      && Distinct(trash) && (forall k :: 0 <= k < |trash| ==> trash[k] < current)
      && emptyCount == |gens| - current + |trash|
    }

    /** The slots currently holding an object. */
    ghost function Live(): set<nat>
      reads this
    {
      set k | 0 <= k < current && k !in trash
    }

    /**
     * A range set up by `_eina_class_range_add` over block `b` with
     * `initial` as the (arbitrary) starting generations; every slot free.
     */
    constructor (b: Block, initial: seq<nat>)
      requires b.start < UINT_RANGE && |initial| < UINT_RANGE
      requires forall k :: 0 <= k < |initial| ==> initial[k] < GEN_RANGE
      ensures Valid() && Live() == {}
      ensures start == b.start && end == b.end && gens == initial
      ensures current == 0 && trash == [] && emptyCount == |initial|
    {
      start, end := b.start, b.end;
      current, emptyCount, trash, gens := 0, |initial|, [], initial;
    }

    /**
     * `_eina_class_range_add` as the code stands: every field but
     * `empty_count` is set, so the free count is whatever `garbage` the
     * allocation left in it. The range is only well formed when that
     * happens to be the pool size.
     */
    constructor AsWritten(b: Block, initial: seq<nat>, garbage: nat)
      requires b.start < UINT_RANGE && |initial| < UINT_RANGE
      requires forall k :: 0 <= k < |initial| ==> initial[k] < GEN_RANGE
      ensures start == b.start && end == b.end && gens == initial
      ensures current == 0 && trash == [] && emptyCount == garbage
      ensures Valid() <==> garbage == |initial|
    {
      start, end := b.start, b.end;
      current, emptyCount, trash, gens := 0, garbage, [], initial;
    }

    /**
     * The slot part of `eina_object_add`: refuses when no slot is free;
     * otherwise pops the trash (or takes the next untouched slot), bumps
     * that slot's generation skipping 0, and returns the new object's
     * identifier.
     */
    method Add() returns (r: Option<nat>, local: nat)
      requires Valid()
      modifies this`current, this`emptyCount, this`trash, this`gens
      ensures Valid()
      ensures old(emptyCount) == 0 <==> r.None?
      ensures r.None? ==> current == old(current) && trash == old(trash) && gens == old(gens)
      ensures r.Some? ==> local < |gens| && local !in old(Live()) && Live() == old(Live()) + {local}
      ensures r.Some? ==> emptyCount == old(emptyCount) - 1
      ensures r.Some? && old(trash) != [] ==> local == old(trash)[0] && trash == old(trash)[1..] && current == old(current)
      ensures r.Some? && old(trash) == [] ==> local == old(current) && current == old(current) + 1 && trash == []
      ensures r.Some? ==> gens == old(gens)[local := AddGeneration(old(gens)[local])]
      ensures r.Some? ==> r.value == ObjectId(gens[local], start, local)
    {
      if emptyCount == 0 {
        return None, 0;
      }
      emptyCount := emptyCount - 1;
      if trash != [] {
        local := trash[0];
        trash := trash[1..];
      } else {
        local := current;
        current := current + 1;
      }
      gens := gens[local := AddGeneration(gens[local])];
      r := Some(ObjectId(gens[local], start, local));
    }

    /**
     * The slot part of `_eina_object_item_del`: the slot goes on the trash,
     * its generation is bumped (wrapping to 0), the free count grows, and a
     * range left with every slot free is reset.
     */
    method Release(local: nat)
      requires Valid() && local in Live() && local < |gens|
      modifies this`current, this`emptyCount, this`trash, this`gens
      ensures Valid()
      ensures gens == old(gens)[local := DelGeneration(old(gens)[local])]
      ensures emptyCount == old(emptyCount) + 1
      ensures emptyCount < |gens| ==> current == old(current) && trash == [local] + old(trash)
      ensures emptyCount < |gens| ==> Live() == old(Live()) - {local}
      ensures emptyCount == |gens| ==> current == 0 && trash == [] && Live() == {}
    {
      trash := [local] + trash;
      gens := gens[local := DelGeneration(gens[local])];
      emptyCount := emptyCount + 1;
      if emptyCount == |gens| {
        current, trash := 0, [];
      }
    }
  }

  /** The free counts of a list of ranges, in list order. */
  function CountsOf(rs: seq<Range>): (r: seq<nat>)
    reads rs
    ensures |r| == |rs| && forall k :: 0 <= k < |rs| ==> r[k] == rs[k].emptyCount
  {
    if rs == [] then [] else [rs[0].emptyCount] + CountsOf(rs[1..])
  }

  /**
   * The range bookkeeping of one class (`Eina_Class`): the hierarchy's
   * identifier space, the pool size and `allocated_range`.
   */
  class ClassRanges {
    const top: Top
    const poolSize: nat
    /** `allocated_range`: the ranges the class allocates from, in list order. */
    var ranges: seq<Range>

    /** Every listed range is well formed and has one slot per pool entry. */
    ghost predicate Valid()
      reads this, top, ranges
    {
      top.Valid() && 0 < poolSize < UINT_RANGE
      && forall k :: 0 <= k < |ranges| ==> ranges[k].Valid() && |ranges[k].gens| == poolSize
    }

    /** The class made by `eina_class_new`: no range yet. */
    constructor (top: Top, poolSize: nat)
      requires top.Valid() && 0 < poolSize < UINT_RANGE
      ensures Valid() && this.top == top && this.poolSize == poolSize && ranges == []
    {
      this.top, this.poolSize, ranges := top, poolSize, [];
    }

    /** `_eina_class_empty_range_get`: the first listed range with a free slot, `|ranges|` when none. */
    method EmptyRangeGet() returns (i: nat)
      ensures i == RangeWithRoom(CountsOf(ranges), 0)
    {
      i := 0;
      while i < |ranges| && ranges[i].emptyCount == 0
        invariant i <= |ranges|
        invariant RangeWithRoom(CountsOf(ranges), i) == RangeWithRoom(CountsOf(ranges), 0)
      {
        i := i + 1;
      }
    }

    /**
     * The slot part of `eina_object_add` on the listed range `i`, which has
     * room: one slot of that range is taken as `Range.Add` takes it.
     */
    method UseListed(i: nat) returns (r: Option<nat>, local: nat)
      requires Valid() && i < |ranges| && ranges[i].emptyCount > 0
      modifies ranges[i]
      ensures Valid() && r.Some?
      ensures ranges[i].emptyCount == old(ranges[i].emptyCount) - 1
      ensures local < poolSize && local !in old(ranges[i].Live())
      ensures ranges[i].Live() == old(ranges[i].Live()) + {local}
      ensures old(ranges[i].trash) != [] ==>
                local == old(ranges[i].trash)[0] && ranges[i].trash == old(ranges[i].trash)[1..]
      ensures old(ranges[i].trash) == [] ==> local == old(ranges[i].current)
      ensures ranges[i].gens == old(ranges[i].gens)[local := AddGeneration(old(ranges[i].gens)[local])]
      ensures r.value == ObjectId(ranges[i].gens[local], ranges[i].start, local)
    {
      r, local := ranges[i].Add();
    }

    /**
     * `eina_object_add` as the code stands. A listed range with room is
     * used; otherwise a new range is set up over a block from the
     * hierarchy, but its free count is never initialised (`garbage`) and
     * it is never put on `allocated_range`, so the list stays as it was
     * and the next call misses again. A garbage count of 0 refuses.
     * `initial` holds the new range's uninitialised generations.
     */
    method AddAsWritten(initial: seq<nat>, garbage: nat) returns (r: Option<nat>, range: Range)
      requires Valid() && |initial| == poolSize && garbage < UINT_RANGE
      requires forall k :: 0 <= k < |initial| ==> initial[k] < GEN_RANGE
      modifies top, ranges
      ensures Valid() && ranges == old(ranges)
      ensures RangeWithRoom(old(CountsOf(ranges)), 0) < |ranges| ==>
                range == ranges[RangeWithRoom(old(CountsOf(ranges)), 0)] && r.Some?
                && top.available == old(top.available) && top.upperLimit == old(top.upperLimit)
      ensures RangeWithRoom(old(CountsOf(ranges)), 0) == |ranges| ==>
                fresh(range) && (r.None? <==> garbage == 0) && range.start < UINT_RANGE
                && range.emptyCount == (if garbage == 0 then 0 else garbage - 1)
                && range.gens == (if garbage == 0 then initial else initial[0 := AddGeneration(initial[0])])
                && (r.Some? ==> r.value == ObjectId(range.gens[0], range.start, 0))
    {
      var i := EmptyRangeGet();
      if i < |ranges| {
        var local;
        r, local := UseListed(i);
        range := ranges[i];
        return;
      }
      r, range := NewRangeAsWritten(initial, garbage);
    }

    /** The path of `eina_object_add` as the code stands when no listed range has room. */
    method NewRangeAsWritten(initial: seq<nat>, garbage: nat) returns (r: Option<nat>, range: Range)
      requires top.Valid() && 0 < poolSize == |initial| < UINT_RANGE && garbage < UINT_RANGE
      requires forall k :: 0 <= k < |initial| ==> initial[k] < GEN_RANGE
      modifies top
      ensures top.Valid() && fresh(range) && (r.None? <==> garbage == 0) && range.start < UINT_RANGE
      ensures range.emptyCount == (if garbage == 0 then 0 else garbage - 1)
      ensures range.gens == (if garbage == 0 then initial else initial[0 := AddGeneration(initial[0])])
      ensures r.Some? ==> r.value == ObjectId(range.gens[0], range.start, 0)
    {
      var b := top.RangeAdd(poolSize);
      range := new Range.AsWritten(b, initial, garbage);
      if range.emptyCount == 0 {
        r := None;
        return;
      }
      // The trash of a new range is empty: the first untouched slot is taken.
      range.emptyCount := range.emptyCount - 1;
      range.current := 1;
      range.gens := range.gens[0 := AddGeneration(range.gens[0])];
      r := Some(ObjectId(range.gens[0], range.start, 0));
    }

    /**
     * `eina_object_add` as intended: a new range starts with every slot
     * free and joins `allocated_range`, so the add never refuses and the
     * next call finds the range while it has room.
     */
    method Add(initial: seq<nat>) returns (r: Option<nat>, range: Range, local: nat)
      requires Valid() && |initial| == poolSize
      requires forall k :: 0 <= k < |initial| ==> initial[k] < GEN_RANGE
      modifies this, top, ranges
      ensures Valid() && r.Some? && range.Valid() && |range.gens| == poolSize && local < poolSize
      ensures r.value == ObjectId(range.gens[local], range.start, local)
      ensures RangeWithRoom(old(CountsOf(ranges)), 0) < |old(ranges)| ==>
                range == old(ranges)[RangeWithRoom(old(CountsOf(ranges)), 0)] && ranges == old(ranges)
                && top.available == old(top.available) && top.upperLimit == old(top.upperLimit)
                && range.emptyCount == old(range.emptyCount) - 1
                && local !in old(range.Live()) && range.Live() == old(range.Live()) + {local}
                && range.gens == old(range.gens)[local := AddGeneration(old(range.gens)[local])]
      ensures RangeWithRoom(old(CountsOf(ranges)), 0) == |old(ranges)| ==>
                fresh(range) && ranges == old(ranges) + [range] && range.start < UINT_RANGE
                && local == 0 && range.gens == initial[0 := AddGeneration(initial[0])]
                && range.emptyCount == poolSize - 1
    {
      var i := EmptyRangeGet();
      if i < |ranges| {
        r, local := UseListed(i);
        range := ranges[i];
        return;
      }
      r, range := NewRange(initial);
      local := 0;
      ranges := ranges + [range];
    }

    /** The path of `eina_object_add` as intended when no listed range has room. */
    method NewRange(initial: seq<nat>) returns (r: Option<nat>, range: Range)
      requires top.Valid() && 0 < poolSize == |initial| < UINT_RANGE
      requires forall k :: 0 <= k < |initial| ==> initial[k] < GEN_RANGE
      modifies top
      ensures top.Valid() && fresh(range) && range.Valid() && |range.gens| == poolSize
      ensures r.Some? && range.start < UINT_RANGE && range.emptyCount == poolSize - 1
      ensures range.gens == initial[0 := AddGeneration(initial[0])]
      ensures r.value == ObjectId(range.gens[0], range.start, 0)
    {
      var b := top.RangeAdd(poolSize);
      range := new Range(b, initial);
      var local;
      r, local := range.Add();
    }
  }

  /**
   * On a class with no range yet, the code as it stands refuses its first
   * object when the uninitialised free count is 0, and never keeps the
   * new range; the intended add places the object and keeps the range.
   */
  method FirstAddDiffers(top: Top, initial: seq<nat>)
    returns (asWritten: Option<nat>, intended: Option<nat>, keptAsWritten: nat, keptIntended: nat)
    requires top.Valid() && 0 < |initial| < UINT_RANGE
    requires forall k :: 0 <= k < |initial| ==> initial[k] < GEN_RANGE
    modifies top
    ensures asWritten.None? && keptAsWritten == 0
    ensures intended.Some? && keptIntended == 1
  {
    var c := new ClassRanges(top, |initial|);
    var range;
    asWritten, range := c.AddAsWritten(initial, 0);
    keptAsWritten := |c.ranges|;
    var d := new ClassRanges(top, |initial|);
    var local;
    intended, range, local := d.Add(initial);
    keptIntended := |d.ranges|;
  }

  /**
   * Even when the uninitialised count happens to leave room, two adds on
   * a class with no range each set up a range of their own.
   */
  method SecondAddMissesAsWritten(top: Top, initial: seq<nat>) returns (first: Range, second: Range)
    requires top.Valid() && 0 < |initial| < UINT_RANGE
    requires forall k :: 0 <= k < |initial| ==> initial[k] < GEN_RANGE
    modifies top
    ensures first != second
    ensures first.emptyCount == |initial| - 1 && second.emptyCount == |initial| - 1
  {
    var c := new ClassRanges(top, |initial|);
    var r;
    r, first := c.AddAsWritten(initial, |initial|);
    r, second := c.AddAsWritten(initial, |initial|);
  }

  // ------------------------------------------------------------- links

  /** The child lists once `o` has left the list of its parent, when that parent is live. */
  function Detached(parent: map<nat, Option<nat>>, link: map<nat, seq<nat>>, o: nat): (r: map<nat, seq<nat>>)
    requires o in parent
    ensures r.Keys == link.Keys
    ensures forall x :: x in link && parent[o] != Some(x) ==> r[x] == link[x]
    ensures parent[o].Some? && parent[o].value in link ==> o !in r[parent[o].value]
  {
    if parent[o].Some? && parent[o].value in link then
      var p := parent[o].value;
      link[p := Remove(link[p], o)]
    else link
  }

  /** The parent/child links between live objects (`parent` and `link` of `Eina_Object_Item`). */
  class Links {
    /** Each live object's parent; a parent may already be gone while its children are being deleted. */
    var parent: map<nat, Option<nat>>
    /** Each live object's children, in link order. */
    var link: map<nat, seq<nat>>

    /** Both maps cover the live objects. */
    ghost predicate Valid()
      reads this
    {
      parent.Keys == link.Keys
    }

    constructor ()
      ensures Valid() && parent == map[] && link == map[]
    {
      parent, link := map[], map[];
    }

    /** A newly added object: no parent, no children. */
    method Insert(x: nat)
      requires Valid() && x !in parent
      modifies this
      ensures Valid()
      ensures parent == old(parent)[x := None] && link == old(link)[x := []]
    {
      parent := parent[x := None];
      link := link[x := []];
    }

    /**
     * `eina_object_parent_set` once both objects have been found: `o` leaves
     * its old parent's list and is appended to `p`'s. Fails when either
     * object is not live.
     */
    method ParentSet(p: nat, o: nat) returns (ok: bool)
      requires Valid()
      modifies this
      ensures Valid()
      ensures ok <==> p in old(parent) && o in old(parent)
      ensures !ok ==> parent == old(parent) && link == old(link)
      ensures ok ==> parent == old(parent)[o := Some(p)]
      ensures ok ==> link == Detached(old(parent), old(link), o)[p := Detached(old(parent), old(link), o)[p] + [o]]
    {
      if p !in parent || o !in parent {
        return false;
      }
      link := Detached(parent, link, o);
      link := link[p := link[p] + [o]];
      parent := parent[o := Some(p)];
      ok := true;
    }

    /**
     * `_eina_object_item_del`'s link handling: `x` leaves its parent's
     * list and the map, then every child of `x` still live is deleted the
     * same way, first child first. Returns the set of objects deleted;
     * `order` lists them in deletion order and `from[k]` is the position
     * of the object whose child list held `order[k]`.
     */
    method Delete(x: nat) returns (deleted: set<nat>, ghost order: seq<nat>, ghost from: seq<nat>)
      requires Valid() && x in parent
      modifies this
      ensures Valid()
      ensures Reaches(old(link), order, from) && order[0] == x && x in deleted
      ensures forall d :: d in deleted <==> d in order
      ensures Closed(old(link), old(parent.Keys), deleted)
      ensures After(old(parent), old(link), parent, link, deleted)
      decreases parent.Keys, 0
    {
      ghost var p0, l0 := parent, link;
      var children := Detach(x);
      deleted := {x};
      order, from := [x], [0];
      var i := 0;
      while i < |children|
        invariant Valid() && i <= |children|
        invariant Reaches(l0, order, from) && order[0] == x && x in deleted
        invariant forall d :: d in deleted <==> d in order
        invariant After(p0, l0, parent, link, deleted)
        invariant ClosedBut(l0, p0.Keys, deleted, x)
        invariant Handled(children, i, deleted, p0.Keys)
        decreases |children| - i
      {
        ghost var before := deleted;
        if children[i] in parent {
          deleted, order, from := DeleteChild(x, children[i], p0, l0, deleted, order, from);
        }
        HandledStep(children, i, before, deleted, p0.Keys);
        i := i + 1;
      }
      ChildrenOf(p0, l0, x);
    }

    /** The first step of a delete: `x` leaves its parent's list and both maps; returns its children. */
    method Detach(x: nat) returns (children: seq<nat>)
      requires Valid() && x in parent
      modifies this
      ensures Valid() && After(old(parent), old(link), parent, link, {x})
      ensures children == Detached(old(parent), old(link), x)[x]
      ensures forall c :: c in children ==> c in old(link)[x]
    {
      DetachedAfter(parent, link, x);
      ChildrenOf(parent, link, x);
      link := Detached(parent, link, x);
      children := link[x];
      parent := parent - {x};
      link := link - {x};
    }

    /** One round of the delete loop: the subtree under the live child `c` of `x` goes too. */
    method DeleteChild(x: nat, c: nat, ghost p0: map<nat, Option<nat>>, ghost l0: map<nat, seq<nat>>,
                       deleted0: set<nat>, ghost order0: seq<nat>, ghost from0: seq<nat>)
      returns (deleted: set<nat>, ghost order: seq<nat>, ghost from: seq<nat>)
      requires Valid() && c in parent && x in l0 && c in l0[x]
      requires Reaches(l0, order0, from0) && order0[0] == x && x in deleted0
      requires forall d :: d in deleted0 <==> d in order0
      requires After(p0, l0, parent, link, deleted0)
      requires ClosedBut(l0, p0.Keys, deleted0, x)
      modifies this
      ensures Valid() && c in deleted && deleted0 <= deleted
      ensures Reaches(l0, order, from) && order[0] == x && x in deleted
      ensures forall d :: d in deleted <==> d in order
      ensures After(p0, l0, parent, link, deleted)
      ensures ClosedBut(l0, p0.Keys, deleted, x)
      decreases parent.Keys, 1
    {
      ghost var p1, l1 := parent, link;
      var more, order1, from1 := Delete(c);
      AfterTrans(p0, l0, p1, l1, deleted0, parent, link, more);
      AfterSub(p0, l0, p1, l1, deleted0);
      ReachesMono(l1, l0, order1, from1);
      ClosedTransport(p0, l0, p1, l1, deleted0, more);
      ReachesJoin(l0, order0, from0, order1, from1, x);
      order, from := order0 + order1, from0 + Shifted(from1, |order0|);
      deleted := deleted0 + more;
    }
  }

  /** Each of the first `i` children is deleted or was never live. */
  ghost predicate Handled(children: seq<nat>, i: nat, d: set<nat>, keys: set<nat>)
    requires i <= |children|
  {
    forall j :: 0 <= j < i ==> children[j] in d || children[j] !in keys
  }

  lemma HandledStep(children: seq<nat>, i: nat, d0: set<nat>, d1: set<nat>, keys: set<nat>)
    requires i < |children| && Handled(children, i, d0, keys) && d0 <= d1
    requires children[i] in d1 || children[i] !in keys
    ensures Handled(children, i + 1, d1, keys)
  {
  }

  /** The objects deleted so far whose old parent was `y`. */
  ghost function Gone(p0: map<nat, Option<nat>>, d: set<nat>, y: nat): set<nat>
  {
    set c | c in d && c in p0 && p0[c] == Some(y)
  }

  /**
   * The links after the objects `d` have been deleted from `(p0, l0)`:
   * exactly the others stay, with their parents, and each surviving list
   * has lost the deleted objects that named it as their parent.
   */
  ghost predicate After(p0: map<nat, Option<nat>>, l0: map<nat, seq<nat>>,
                        p1: map<nat, Option<nat>>, l1: map<nat, seq<nat>>, d: set<nat>)
  {
    d <= p0.Keys && p1.Keys == p0.Keys - d && l1.Keys == p1.Keys && l0.Keys == p0.Keys
    && (forall y :: y in p1 ==> p1[y] == p0[y])
    && (forall y :: y in l1 ==> l1[y] == Keep(l0[y], Gone(p0, d, y)))
  }

  /** `order` starts a walk down the child lists of `link`: each later entry sits in an earlier one's list. */
  ghost predicate Reaches(link: map<nat, seq<nat>>, order: seq<nat>, from: seq<nat>)
  {
    0 < |order| == |from|
    && forall k :: 0 < k < |order| ==> from[k] < k && order[from[k]] in link && order[k] in link[order[from[k]]]
  }

  /** Every live child of a member of `d` other than `x` is in `d`. */
  ghost predicate ClosedBut(link: map<nat, seq<nat>>, keys: set<nat>, d: set<nat>, x: nat)
  {
    forall y, c :: y in d && y != x && y in link && c in link[y] && c in keys ==> c in d
  }

  /**
   * Every object a walk reaches lies in any set that holds its start and
   * every live child of its members: with `Closed`, the objects `Delete`
   * removes are exactly the live descendants of `x`.
   */
  lemma {:induction false} WalkInClosed(link: map<nat, seq<nat>>, keys: set<nat>, s: set<nat>,
                                        order: seq<nat>, from: seq<nat>, k: nat)
    requires Reaches(link, order, from) && order[0] in s && Closed(link, keys, s)
    requires forall j :: 0 <= j < |order| ==> order[j] in keys
    requires k < |order|
    ensures order[k] in s
    decreases k
  {
    if k > 0 {
      WalkInClosed(link, keys, s, order, from, from[k]);
    }
  }

  /** Every live child of a member of `d` is in `d`. */
  ghost predicate Closed(link: map<nat, seq<nat>>, keys: set<nat>, d: set<nat>)
  {
    forall y, c :: y in d && y in link && c in link[y] && c in keys ==> c in d
  }

  /** The positions of a walk appended after `n` earlier entries whose first entry hangs off position 0. */
  function Shifted(from: seq<nat>, n: nat): (r: seq<nat>)
    ensures |r| == |from|
    ensures forall k :: 0 <= k < |from| ==> r[k] == if k == 0 then 0 else from[k] + n
  {
    seq(|from|, k requires 0 <= k < |from| => if k == 0 then 0 else from[k] + n)
  }

  /** The list without the members of `gone`, in order. */
  function Keep(xs: seq<nat>, gone: set<nat>): (r: seq<nat>)
    ensures forall c :: c in r <==> c in xs && c !in gone
  {
    if xs == [] then [] else (if xs[0] in gone then [] else [xs[0]]) + Keep(xs[1..], gone)
  }

  lemma {:induction false} KeepKeep(xs: seq<nat>, g1: set<nat>, g2: set<nat>)
    ensures Keep(Keep(xs, g1), g2) == Keep(xs, g1 + g2)
    decreases |xs|
  {
    if xs != [] {
      KeepKeep(xs[1..], g1, g2);
      if xs[0] in g1 {
        assert Keep(xs, g1) == Keep(xs[1..], g1);
      } else {
        var k := Keep(xs, g1);
        assert k == [xs[0]] + Keep(xs[1..], g1);
        assert k[0] == xs[0] && k[1..] == Keep(xs[1..], g1);
        assert Keep(k, g2) == (if xs[0] in g2 then [] else [xs[0]]) + Keep(k[1..], g2);
      }
    }
  }

  lemma {:induction false} KeepNothing(xs: seq<nat>)
    ensures Keep(xs, {}) == xs
    decreases |xs|
  {
    if xs != [] {
      KeepNothing(xs[1..]);
    }
  }

  lemma {:induction false} RemoveIsKeep(xs: seq<nat>, o: nat)
    ensures Remove(xs, o) == Keep(xs, {o})
    decreases |xs|
  {
    if xs != [] {
      RemoveIsKeep(xs[1..], o);
    }
  }

  /** Taking `x` out of its parent's list and out of the maps is a deletion of `{x}`. */
  lemma DetachedAfter(p0: map<nat, Option<nat>>, l0: map<nat, seq<nat>>, x: nat)
    requires x in p0 && l0.Keys == p0.Keys
    ensures After(p0, l0, p0 - {x}, Detached(p0, l0, x) - {x}, {x})
  {
    var l1 := Detached(p0, l0, x) - {x};
    forall y | y in l1
      ensures l1[y] == Keep(l0[y], Gone(p0, {x}, y))
    {
      if p0[x] == Some(y) {
        assert Gone(p0, {x}, y) == {x};
        RemoveIsKeep(l0[y], x);
      } else {
        assert Gone(p0, {x}, y) == {};
        KeepNothing(l0[y]);
      }
    }
  }

  /** The list `x`'s deletion walks is its old list, less `x` itself when `x` was its own parent. */
  lemma ChildrenOf(p0: map<nat, Option<nat>>, l0: map<nat, seq<nat>>, x: nat)
    requires x in p0 && l0.Keys == p0.Keys
    ensures forall c :: c in l0[x] && c != x ==> c in Detached(p0, l0, x)[x]
    ensures forall c :: c in Detached(p0, l0, x)[x] ==> c in l0[x]
  {
  }

  /** Two deletions in a row are one deletion of both sets. */
  lemma AfterTrans(p0: map<nat, Option<nat>>, l0: map<nat, seq<nat>>, p1: map<nat, Option<nat>>,
                   l1: map<nat, seq<nat>>, d1: set<nat>, p2: map<nat, Option<nat>>,
                   l2: map<nat, seq<nat>>, d2: set<nat>)
    requires After(p0, l0, p1, l1, d1) && After(p1, l1, p2, l2, d2)
    ensures After(p0, l0, p2, l2, d1 + d2)
  {
    forall y | y in l2
      ensures l2[y] == Keep(l0[y], Gone(p0, d1 + d2, y))
    {
      assert Gone(p0, d1 + d2, y) == Gone(p0, d1, y) + Gone(p1, d2, y);
      KeepKeep(l0[y], Gone(p0, d1, y), Gone(p1, d2, y));
    }
  }

  /** After a deletion, every surviving list only holds entries it held before. */
  lemma AfterSub(p0: map<nat, Option<nat>>, l0: map<nat, seq<nat>>, p1: map<nat, Option<nat>>,
                 l1: map<nat, seq<nat>>, d: set<nat>)
    requires After(p0, l0, p1, l1, d)
    ensures forall y :: y in l1 ==> y in l0 && forall c :: c in l1[y] ==> c in l0[y]
  {
  }

  /** A walk down lists that only lost entries is a walk down the old lists. */
  lemma ReachesMono(l1: map<nat, seq<nat>>, l0: map<nat, seq<nat>>, order: seq<nat>, from: seq<nat>)
    requires forall y :: y in l1 ==> y in l0 && forall c :: c in l1[y] ==> c in l0[y]
    requires Reaches(l1, order, from)
    ensures Reaches(l0, order, from)
  {
  }

  /** A walk from a child of `order[0]` continues a walk from `order[0]`. */
  lemma ReachesJoin(link: map<nat, seq<nat>>, order: seq<nat>, from: seq<nat>,
                    order1: seq<nat>, from1: seq<nat>, x: nat)
    requires Reaches(link, order, from) && Reaches(link, order1, from1)
    requires order[0] == x && x in link && order1[0] in link[x]
    ensures Reaches(link, order + order1, from + Shifted(from1, |order|))
  {
    var o, f := order + order1, from + Shifted(from1, |order|);
    forall k | 0 < k < |o|
      ensures f[k] < k && o[f[k]] in link && o[k] in link[o[f[k]]]
    {
      if k >= |order| {
        var k1 := k - |order|;
        if k1 > 0 {
          assert f[k] == from1[k1] + |order|;
          assert o[f[k]] == order1[from1[k1]];
        }
      }
    }
  }

  /**
   * A subtree deleted from the links in between keeps the members deleted
   * so far closed: a live child of one of its members, seen in the old
   * lists, was either deleted before or still listed when it was deleted.
   */
  lemma ClosedTransport(p0: map<nat, Option<nat>>, l0: map<nat, seq<nat>>, p1: map<nat, Option<nat>>,
                        l1: map<nat, seq<nat>>, d1: set<nat>, d2: set<nat>)
    requires After(p0, l0, p1, l1, d1) && Closed(l1, p1.Keys, d2) && d2 <= p1.Keys
    ensures forall y, c :: y in d2 && c in l0[y] && c in p0.Keys ==> c in d1 + d2
  {
    forall y, c | y in d2 && c in l0[y] && c in p0.Keys
      ensures c in d1 + d2
    {
      if c !in d1 {
        assert c in Keep(l0[y], Gone(p0, d1, y));
      }
    }
  }

  /** `eina_inlist_remove`: the list without `x`. */
  function Remove(xs: seq<nat>, x: nat): (r: seq<nat>)
    ensures x !in r
    ensures forall y :: y in r <==> y in xs && y != x
    ensures |r| <= |xs|
  {
    if xs == [] then [] else if xs[0] == x then Remove(xs[1..], x) else [xs[0]] + Remove(xs[1..], x)
  }

  lemma {:induction false} RemoveNotIn(xs: seq<nat>, x: nat)
    requires x !in xs
    ensures Remove(xs, x) == xs
    decreases |xs|
  {
    if xs != [] {
      RemoveNotIn(xs[1..], x);
    }
  }
}
