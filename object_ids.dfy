/**
 * Object identifiers of the generation-checked object allocator (the
 * 64-bit layout): an identifier packs a 16-bit generation above bit 48
 * and the object's global index below it. Also the class chain along
 * which constructors, destructors and object sizes are resolved.
 */
module ObjectIds {
  import opened Wrappers
  import opened Bits

  /** `1 << EINA_GEN_OFFSET` with `EINA_GEN_OFFSET` = 48. */
  const GEN_UNIT: nat := 0x1_0000_0000_0000
  /** The range of `Eina_Object_Generation` (`unsigned short`). */
  const GEN_RANGE: nat := 0x1_0000
  /** The range of `unsigned int`. */
  const UINT_RANGE: nat := 0x1_0000_0000
  /** The range of `Eina_Object_ID` (`unsigned long`). */
  const ID_RANGE: nat := 0x1_0000_0000_0000_0000

  /**
   * `_eina_rbtree_cmp_range`: where an identifier lies relative to the
   * range `[start, end)`.
   */
  function RangeCompare(id: nat, start: nat, end: nat): (r: int)
    ensures r == 0 <==> start <= id < end
    ensures r == -1 <==> id < start
    ensures r == 1 <==> start <= id && end <= id
  {
    if id < start then -1 else if id >= end then 1 else 0
  }

  lemma Pow48()
    ensures Pow2(48) == GEN_UNIT
  {
    assert Pow2(2) == 4;
    assert Pow2(4) == 16;
    assert Pow2(6) == 64;
    Pow2Add(6, 6);
    assert Pow2(12) == 0x1000;
    Pow2Add(12, 12);
    assert Pow2(24) == 0x100_0000;
    Pow2Add(24, 24);
    assert 0x100_0000 * 0x100_0000 == GEN_UNIT;
  }

  // ------------------------------------------------------- identifiers

  /**
   * `_eina_object_get`: the identifier of the object at slot `index` of a
   * range starting at `start` whose slot generation is `gen`; the NULL
   * item gives NULL.
   */
  function ObjectId(gen: nat, start: nat, index: nat): (id: nat)
    requires gen < GEN_RANGE && start < UINT_RANGE && index < UINT_RANGE
    ensures id < ID_RANGE
    ensures id / GEN_UNIT == gen && id % GEN_UNIT == start + index
    ensures Decode(id) == Decoded(start + index, gen)
  {
    DivModUnique(gen * GEN_UNIT + start + index, GEN_UNIT, gen, start + index);
    gen * GEN_UNIT + start + index
  }

  /** A slot as `_eina_object_get` sees it: its generation, its range's start and its index. */
  datatype Slot = Slot(gen: nat, start: nat, index: nat)

  predicate SlotFits(s: Slot)
  {
    s.gen < GEN_RANGE && s.start < UINT_RANGE && s.index < UINT_RANGE
  }

  function ObjectGet(item: Option<Slot>): (r: Option<nat>)
    requires item.Some? ==> SlotFits(item.value)
    ensures item.None? <==> r.None?
    ensures item.Some? ==> r.value / GEN_UNIT == item.value.gen
    ensures item.Some? ==> r.value % GEN_UNIT == item.value.start + item.value.index
  {
    if item.None? then None else Some(ObjectId(item.value.gen, item.value.start, item.value.index))
  }

  /** The two halves `_eina_object_find_item` takes out of an identifier. */
  datatype Decoded = Decoded(index: nat, generation: nat)

  /** C's logical `!`. */
  function LogicalNot(x: nat): nat
  {
    if x == 0 then 1 else 0
  }

  /**
   * The decoding as written: the index is `id & (2^48 - 1)` and the
   * generation is `id & !(2^48 - 1)`, stored into an `unsigned short`.
   * Since `!` of a non-zero mask is 0, the generation is always 0.
   */
  function DecodeAsWritten(id: nat): (d: Decoded)
    ensures d.generation == 0
    ensures d.index == id % GEN_UNIT
  {
    Pow48();
    LowMask(id, 48);
    Decoded(BitAnd(id, GEN_UNIT - 1), BitAnd(id, LogicalNot(GEN_UNIT - 1)) % GEN_RANGE)
  }

  /** The decoding the identifier layout calls for: the low 48 bits and the 16 bits above them. */
  function Decode(id: nat): (d: Decoded)
    ensures d.index == id % GEN_UNIT && d.generation < GEN_RANGE
  {
    Pow48();
    LowMask(id, 48);
    Decoded(BitAnd(id, GEN_UNIT - 1), (id / GEN_UNIT) % GEN_RANGE)
  }

  // -------------------------------------------------------- generations

  /**
   * The generation bump of `eina_object_add`: `++gen` on an `unsigned
   * short`, once more when it wrapped to 0.
   */
  function AddGeneration(gen: nat): (r: nat)
    requires gen < GEN_RANGE
    ensures 0 < r < GEN_RANGE
    ensures gen + 1 < GEN_RANGE ==> r == gen + 1
    ensures gen + 1 == GEN_RANGE ==> r == 1
  {
    var next := (gen + 1) % GEN_RANGE;
    if next == 0 then next + 1 else next
  }

  /** The generation bump of `_eina_object_item_del`: a plain wrapping `++`. */
  function DelGeneration(gen: nat): (r: nat)
    requires gen < GEN_RANGE
    ensures r < GEN_RANGE && (r == gen + 1 || (gen == GEN_RANGE - 1 && r == 0))
  {
    (gen + 1) % GEN_RANGE
  }

  // ------------------------------------------------------------- lookup

  /**
   * The outcome of `_eina_object_find_item` once the range tree has matched
   * a range. `nonNull` records, slot by slot, whether the range's pointer
   * slot is non-NULL, which is all the lookup tests; a slot that went to
   * the trash may keep its pointer and so pass the test while empty.
   */
  datatype Lookup = StaleGeneration | WrongClass | NotAllocated | OutOfBounds | Found(local: nat)

  /**
   * The checks after the range match, as written: the stored generation
   * against the decoded one, the class hierarchy, then the pointer slot,
   * indexed with the whole identifier minus the range start.
   */
  function FindAsWritten(id: nat, start: nat, gens: seq<nat>, inHierarchy: bool, nonNull: seq<bool>): (r: Lookup)
    requires |nonNull| == |gens|
    requires start <= id % GEN_UNIT < start + |gens|
  {
    var d := DecodeAsWritten(id);
    if d.generation != gens[d.index - start] then StaleGeneration
    else if !inHierarchy then WrongClass
    else if id - start >= |nonNull| then OutOfBounds
    else if !nonNull[id - start] then NotAllocated
    else Found(id - start)
  }

  /** The same checks with the generation decoded from the high bits and the slot taken from the index. */
  function FindItem(id: nat, start: nat, gens: seq<nat>, inHierarchy: bool, nonNull: seq<bool>): (r: Lookup)
    requires |nonNull| == |gens|
    requires start <= Decode(id).index < start + |gens|
    ensures r.Found? ==> r.local == Decode(id).index - start && nonNull[r.local] && inHierarchy
    ensures r.Found? ==> gens[r.local] == Decode(id).generation
  {
    var d := Decode(id);
    if d.generation != gens[d.index - start] then StaleGeneration
    else if !inHierarchy then WrongClass
    else if !nonNull[d.index - start] then NotAllocated
    else Found(d.index - start)
  }

  /**
   * As written, the identifier `eina_object_add` just returned for a slot
   * is rejected by the lookup: its slot's generation is never 0, while the
   * decoded generation always is.
   */
  lemma LiveObjectRejected(prev: nat, start: nat, gens: seq<nat>, local: nat, inHierarchy: bool, nonNull: seq<bool>)
    requires prev < GEN_RANGE && start < UINT_RANGE && local < |gens| < UINT_RANGE
    requires |nonNull| == |gens| && start + |gens| <= GEN_UNIT
    requires gens[local] == AddGeneration(prev)
    ensures FindAsWritten(ObjectId(gens[local], start, local), start, gens, inHierarchy, nonNull) == StaleGeneration
  {
  }

  /** With the intended decoding, the identifier of a slot with a non-NULL pointer in the class hierarchy finds that slot. */
  lemma LiveObjectFound(start: nat, gens: seq<nat>, local: nat, nonNull: seq<bool>)
    requires start < UINT_RANGE && local < |gens| < UINT_RANGE && |nonNull| == |gens|
    requires gens[local] < GEN_RANGE && nonNull[local]
    ensures Decode(ObjectId(gens[local], start, local)).index == start + local
    ensures FindItem(ObjectId(gens[local], start, local), start, gens, true, nonNull) == Found(local)
  {
  }

  /** An identifier kept after its object was deleted (and the slot's generation bumped) is rejected. */
  lemma StaleIdRejected(start: nat, gens: seq<nat>, local: nat, inHierarchy: bool, nonNull: seq<bool>)
    requires start < UINT_RANGE && local < |gens| < UINT_RANGE && |nonNull| == |gens|
    requires gens[local] < GEN_RANGE
    ensures FindItem(ObjectId(gens[local], start, local), start, gens[local := DelGeneration(gens[local])],
                     inHierarchy, nonNull) == StaleGeneration
  {
  }

  /**
   * The slot read as written takes the whole identifier minus the range
   * start: once a slot's generation is not 0, that index lies past the
   * range even though the decoded index is the object's own slot.
   */
  lemma SlotIndexAsWrittenMisses(gen: nat, start: nat, local: nat, n: nat)
    requires 0 < gen < GEN_RANGE && start < UINT_RANGE && local < n < UINT_RANGE
    ensures ObjectId(gen, start, local) - start >= n
    ensures Decode(ObjectId(gen, start, local)).index - start == local
  {
    var id := ObjectId(gen, start, local);
    assert id == gen * GEN_UNIT + start + local;
    assert gen * GEN_UNIT >= GEN_UNIT;
  }

  // ------------------------------------------------------------ classes

  /**
   * A class as the chain walks see it: its parent (created before it, so
   * with a smaller number), whether it has a constructor and a
   * destructor, and its own size.
   */
  datatype Class = Class(parent: Option<nat>, hasConstructor: bool, hasDestructor: bool, classSize: nat)

  /** Every parent link points to an earlier class. */
  predicate Hierarchy(classes: seq<Class>)
  {
    forall c :: 0 <= c < |classes| && classes[c].parent.Some? ==> classes[c].parent.value < c
  }

  /** The classes from the root of `c`'s chain down to `c`. */
  function Chain(classes: seq<Class>, c: nat): (r: seq<nat>)
    requires Hierarchy(classes) && c < |classes|
    ensures |r| >= 1 && r[|r| - 1] == c
    ensures forall i :: 0 <= i < |r| ==> r[i] < |classes| && r[i] <= c
    ensures classes[r[0]].parent.None?
    decreases c
  {
    if classes[c].parent.None? then [c] else Chain(classes, classes[c].parent.value) + [c]
  }

  /** The classes of a chain whose constructor is set, in chain order. */
  function WithConstructor(classes: seq<Class>, chain: seq<nat>): (r: seq<nat>)
    requires forall i :: 0 <= i < |chain| ==> chain[i] < |classes|
  {
    if chain == [] then []
    else (if classes[chain[0]].hasConstructor then [chain[0]] else []) + WithConstructor(classes, chain[1..])
  }

  function Reverse(xs: seq<nat>): (r: seq<nat>)
    ensures |r| == |xs|
  {
    if xs == [] then [] else Reverse(xs[1..]) + [xs[0]]
  }

  /** `_eina_object_constructor_call`: the parent's constructors first, then the class's own. */
  function ConstructorCalls(classes: seq<Class>, c: nat): seq<nat>
    requires Hierarchy(classes) && c < |classes|
    decreases c
  {
    var own := if classes[c].hasConstructor then [c] else [];
    if classes[c].parent.None? then own else ConstructorCalls(classes, classes[c].parent.value) + own
  }

  /** `_eina_object_destructor_call`: the class's own destructor first, then the parent's. */
  function DestructorCalls(classes: seq<Class>, c: nat): seq<nat>
    requires Hierarchy(classes) && c < |classes|
    decreases c
  {
    var own := if classes[c].hasDestructor then [c] else [];
    if classes[c].parent.None? then own else own + DestructorCalls(classes, classes[c].parent.value)
  }

  /** Constructors run root first: the chain's classes that have one, in chain order. */
  lemma {:induction false} ConstructorsRootFirst(classes: seq<Class>, c: nat)
    requires Hierarchy(classes) && c < |classes|
    ensures ConstructorCalls(classes, c) == WithConstructor(classes, Chain(classes, c))
    decreases c
  {
    if classes[c].parent.Some? {
      var p := classes[c].parent.value;
      ConstructorsRootFirst(classes, p);
      FilterAppend(classes, Chain(classes, p), [c]);
    }
  }

  lemma {:induction false} FilterAppend(classes: seq<Class>, xs: seq<nat>, ys: seq<nat>)
    requires forall i :: 0 <= i < |xs| ==> xs[i] < |classes|
    requires forall i :: 0 <= i < |ys| ==> ys[i] < |classes|
    ensures WithConstructor(classes, xs + ys) == WithConstructor(classes, xs) + WithConstructor(classes, ys)
    decreases |xs|
  {
    if xs == [] {
      assert xs + ys == ys;
    } else {
      var own := if classes[xs[0]].hasConstructor then [xs[0]] else [];
      assert (xs + ys)[0] == xs[0];
      assert (xs + ys)[1..] == xs[1..] + ys;
      FilterAppend(classes, xs[1..], ys);
      assert WithConstructor(classes, xs + ys) == own + WithConstructor(classes, xs[1..] + ys);
      assert WithConstructor(classes, xs) == own + WithConstructor(classes, xs[1..]);
    }
  }

  /** When every class of the chain has both callbacks, destructors run in exactly the reverse order of constructors. */
  lemma {:induction false} DestructorsReverseConstructors(classes: seq<Class>, c: nat)
    requires Hierarchy(classes) && c < |classes|
    requires forall k :: 0 <= k < |classes| ==> classes[k].hasConstructor == classes[k].hasDestructor
    ensures DestructorCalls(classes, c) == Reverse(ConstructorCalls(classes, c))
    decreases c
  {
    var own := if classes[c].hasConstructor then [c] else [];
    if classes[c].parent.Some? {
      var p := classes[c].parent.value;
      DestructorsReverseConstructors(classes, p);
      ReverseAppend(ConstructorCalls(classes, p), own);
    } else {
      assert Reverse(own) == own;
    }
  }

  lemma {:induction false} ReverseAppend(xs: seq<nat>, ys: seq<nat>)
    requires |ys| <= 1
    ensures Reverse(xs + ys) == Reverse(ys) + Reverse(xs)
    decreases |xs|
  {
    if xs == [] {
      assert xs + ys == ys;
    } else {
      assert (xs + ys)[1..] == xs[1..] + ys;
      ReverseAppend(xs[1..], ys);
    }
  }

  /** `eina_class_new`: a class's object size is its own size plus its parent's object size, as `unsigned int`. */
  function ObjectSize(classes: seq<Class>, c: nat): (r: nat)
    requires Hierarchy(classes) && c < |classes|
    ensures r < UINT_RANGE
    decreases c
  {
    if classes[c].parent.None? then classes[c].classSize % UINT_RANGE
    else (classes[c].classSize + ObjectSize(classes, classes[c].parent.value)) % UINT_RANGE
  }

  function SizeSum(classes: seq<Class>, chain: seq<nat>): nat
    requires forall i :: 0 <= i < |chain| ==> chain[i] < |classes|
  {
    if chain == [] then 0 else SizeSum(classes, chain[..|chain| - 1]) + classes[chain[|chain| - 1]].classSize
  }

  /** The object size is the sum of the class sizes along the chain, modulo 2^32. */
  lemma {:induction false} ObjectSizeIsChainSum(classes: seq<Class>, c: nat)
    requires Hierarchy(classes) && c < |classes|
    ensures ObjectSize(classes, c) == SizeSum(classes, Chain(classes, c)) % UINT_RANGE
    decreases c
  {
    var chain := Chain(classes, c);
    if classes[c].parent.Some? {
      var p := classes[c].parent.value;
      ObjectSizeIsChainSum(classes, p);
      assert chain[..|chain| - 1] == Chain(classes, p);
      ModAdd(classes[c].classSize, SizeSum(classes, Chain(classes, p)));
    } else {
      assert chain[..0] == [];
    }
  }

  lemma ModAdd(a: nat, b: nat)
    ensures (a + b % UINT_RANGE) % UINT_RANGE == (a + b) % UINT_RANGE
  {
    DivModUnique(b, UINT_RANGE, b / UINT_RANGE, b % UINT_RANGE);
    var s := a + b % UINT_RANGE;
    DivModUnique(a + b, UINT_RANGE, b / UINT_RANGE + s / UINT_RANGE, s % UINT_RANGE);
  }

  /**
   * The class walk of `_eina_object_find_item`: whether `target` is the
   * class of the matched range or one of its ancestors.
   */
  function InHierarchy(classes: seq<Class>, cls: nat, target: nat): (r: bool)
    requires Hierarchy(classes) && cls < |classes|
    decreases cls
  {
    if cls == target then true
    else if classes[cls].parent.None? then false
    else InHierarchy(classes, classes[cls].parent.value, target)
  }

  /** The walk succeeds exactly for the classes of the chain. */
  lemma {:induction false} InHierarchyChain(classes: seq<Class>, cls: nat, target: nat)
    requires Hierarchy(classes) && cls < |classes|
    ensures InHierarchy(classes, cls, target) <==> target in Chain(classes, cls)
    decreases cls
  {
    if classes[cls].parent.Some? {
      InHierarchyChain(classes, classes[cls].parent.value, target);
    }
  }
}
