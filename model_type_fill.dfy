/**
 * The first step of building a model description: checking a type's
 * parent chain and resolving its methods and extension pointers
 * (eina_model.c, `_eina_model_description_type_fill`).
 */
module ModelTypeFill {
  import opened Wrappers
  import opened ModelTypes

  /** What is left of `FindOffset` from a cursor that may be NULL. */
  function RestOffset(reg: Registry, itr: Option<nat>, s: nat): Option<nat>
    requires Wellformed(reg) && (itr.Some? ==> itr.value < |reg.types|) && s < METHOD_SLOTS
  {
    match itr
    case None => None
    case Some(x) => FindOffset(reg, x, s)
  }

  /** What is left of `FindExtension` from a cursor that may be NULL. */
  function RestExtension(reg: Registry, itr: Option<nat>, i: nat): Option<nat>
    requires Wellformed(reg) && (itr.Some? ==> itr.value < |reg.types|)
  {
    match itr
    case None => None
    case Some(x) => FindExtension(reg, x, i)
  }

  /** Walking past `x` moves it from the rest of the chain to the walked part. */
  lemma WalkStep(reg: Registry, t: nat, walked: seq<nat>, x: nat)
    requires Wellformed(reg) && t < |reg.types| && x < |reg.types|
    requires Chain(reg, t) == walked + Rest(reg, Some(x))
    ensures TypeLinksOk(reg, x)
    ensures reg.types[x].parent.Some? ==> reg.types[x].parent.value < x
    ensures Chain(reg, t)[|walked|] == x
    ensures Chain(reg, t) == (walked + [x]) + Rest(reg, reg.types[x].parent)
    ensures |Rest(reg, reg.types[x].parent)| < |Rest(reg, Some(x))|
  {
    ChainStep(reg, x);
    assert walked + ([x] + Rest(reg, reg.types[x].parent)) == (walked + [x]) + Rest(reg, reg.types[x].parent);
  }

  /** One step of the walk: the chain of `x` is `x` followed by the chain of its parent. */
  lemma ChainStep(reg: Registry, x: nat)
    requires Wellformed(reg) && x < |reg.types|
    ensures TypeLinksOk(reg, x)
    ensures reg.types[x].parent.Some? ==> reg.types[x].parent.value < x
    ensures Rest(reg, Some(x)) == [x] + Rest(reg, reg.types[x].parent)
    ensures |Rest(reg, reg.types[x].parent)| < |Rest(reg, Some(x))|
  {
    assert TypeLinksOk(reg, x);
  }

  /**
   * Checks the chain of `t` and fills the method table, the extension
   * table and the cached chain.  `allocOk` says whether the allocations
   * succeed.
   */
  method TypeFill(reg: Registry, t: nat, allocOk: bool) returns (r: Option<TypeDesc>)
    requires Wellformed(reg) && t < |reg.types|
    ensures r.Some? <==> ChainOk(reg, t) && MandatorySet(reg, t) && ExtensionAligned(reg.types[t]) && allocOk
    ensures r.Some? ==> r.value.types == Chain(reg, t)
    ensures r.Some? ==> |r.value.ops| == METHOD_SLOTS &&
                        forall s :: 0 <= s < METHOD_SLOTS ==> r.value.ops[s] == FindOffset(reg, t, s)
    ensures r.Some? ==> |r.value.extension| == ExtensionCount(reg.types[t]) &&
                        forall i :: 0 <= i < |r.value.extension| ==> r.value.extension[i] == FindExtension(reg, t, i)
  {
    var ops, childSize := Resolve(reg, t);
    if ops.None? {
      return None;
    }
    if ops.value[SETUP].None? || ops.value[FLUSH].None? || ops.value[CONSTRUCTOR].None? ||
       ops.value[DESTRUCTOR].None? || ops.value[PROPERTY_GET].None? {
      assert !MandatorySet(reg, t);
      return None;
    }
    assert MandatorySet(reg, t);
    var extension: seq<Option<nat>> := [];
    if childSize > TYPE_HEADER {
      var extSize := childSize - TYPE_HEADER;
      if extSize % POINTER_SIZE != 0 {
        return None;
      }
      if !allocOk {
        return None;
      }
      extension := ExtensionFill(reg, t);
    }
    if !allocOk {
      return None;
    }
    var types := CollectChain(reg, t);
    r := Some(TypeDesc(ops.value, extension, types));
  }

  /**
   * The checking walk of `type_fill`: validates every type on the chain
   * and lets each method slot take the first non-NULL pointer.
   */
  method Resolve(reg: Registry, t: nat) returns (ops: Option<seq<Option<nat>>>, childSize: nat)
    requires Wellformed(reg) && t < |reg.types|
    ensures ops.Some? <==> ChainOk(reg, t)
    ensures ops.Some? ==> childSize == reg.types[t].typeSize
    ensures ops.Some? ==> |ops.value| == METHOD_SLOTS &&
                          forall s :: 0 <= s < METHOD_SLOTS ==> ops.value[s] == FindOffset(reg, t, s)
  {
    var table: seq<Option<nat>> := seq(METHOD_SLOTS, s => None);
    childSize := 0;
    var itr: Option<nat> := Some(t);
    ghost var walked: seq<nat> := [];
    while itr.Some?
      invariant itr.Some? ==> itr.value < |reg.types|
      invariant Chain(reg, t) == walked + Rest(reg, itr)
      invariant childSize == if walked == [] then 0 else reg.types[t].typeSize
      invariant AllTypeOk(reg, walked, reg.types[t].typeSize)
      invariant |table| == METHOD_SLOTS
      invariant forall s :: 0 <= s < METHOD_SLOTS ==> FindOffset(reg, t, s) == Pick(table[s], RestOffset(reg, itr, s))
      decreases |Rest(reg, itr)|
    {
      var id := itr.value;
      var ty := reg.types[id];
      WalkStep(reg, t, walked, id);
      if ty.version != TYPE_VERSION || ty.name.None? || ty.typeSize < TYPE_HEADER {
        return None, childSize;
      }
      if childSize == 0 {
        childSize := ty.typeSize;
      } else if childSize < ty.typeSize {
        return None, childSize;
      }
      ghost var before := table;
      table := FillFrom(table, ty.methods);
      ResolveStep(reg, t, id, before, table);
      if ty.parent.None? && id != BASE {
        return None, childSize;
      }
      assert walked == [] ==> id == t;
      AllTypeOkSnoc(reg, walked, id, reg.types[t].typeSize);
      walked := walked + [id];
      itr := ty.parent;
    }
    ops := Some(table);
  }

  /** Every type of `ks` passes the checks against size `size`. */
  ghost predicate AllTypeOk(reg: Registry, ks: seq<nat>, size: nat)
  {
    forall k :: 0 <= k < |ks| ==> ks[k] < |reg.types| && TypeOk(reg, ks[k], size)
  }

  lemma AllTypeOkSnoc(reg: Registry, ks: seq<nat>, id: nat, size: nat)
    requires AllTypeOk(reg, ks, size) && id < |reg.types| && TypeOk(reg, id, size)
    ensures AllTypeOk(reg, ks + [id], size)
  {
  }

  /** The extension walk of `type_fill`: each pointer takes the first non-NULL one. */
  method ExtensionFill(reg: Registry, t: nat) returns (extension: seq<Option<nat>>)
    requires Wellformed(reg) && t < |reg.types| && ChainOk(reg, t)
    ensures |extension| == ExtensionCount(reg.types[t])
    ensures forall i :: 0 <= i < |extension| ==> extension[i] == FindExtension(reg, t, i)
  {
    var extCount := ExtensionCount(reg.types[t]);
    extension := seq(extCount, i => None);
    assert ChainWithin(reg, t, reg.types[t].typeSize);
    var itr: Option<nat> := Some(t);
    while itr.Some?
      invariant itr.Some? ==> itr.value < |reg.types| && ChainWithin(reg, itr.value, reg.types[t].typeSize)
      invariant |extension| == extCount
      invariant forall i :: 0 <= i < extCount ==> FindExtension(reg, t, i) == Pick(extension[i], RestExtension(reg, itr, i))
      decreases if itr.None? then 0 else itr.value + 1
    {
      var id := itr.value;
      var ty := reg.types[id];
      ChainWithinStep(reg, id, reg.types[t].typeSize);
      var curSize := ty.typeSize - TYPE_HEADER;
      if curSize == 0 {
        WalkEnds(reg, t, id, extension);
        break;
      }
      var curCount := curSize / POINTER_SIZE;
      ExtensionFits(reg, t, id);
      ghost var before := extension;
      extension := FillFrom(extension, ty.extension);
      ExtensionStep(reg, t, id, before, extension);
      itr := ty.parent;
    }
  }

  /** A type without an extension ends the walk: what is filled so far is the result. */
  lemma WalkEnds(reg: Registry, t: nat, id: nat, extension: seq<Option<nat>>)
    requires Wellformed(reg) && t < |reg.types| && id < |reg.types| && reg.types[id].typeSize == TYPE_HEADER
    requires forall i :: 0 <= i < |extension| ==> FindExtension(reg, t, i) == Pick(extension[i], FindExtension(reg, id, i))
    ensures forall i :: 0 <= i < |extension| ==> extension[i] == FindExtension(reg, t, i)
  {
  }

  /** Every type on the chain of `x` passes the checks against size `size`. */
  ghost predicate ChainWithin(reg: Registry, x: nat, size: nat)
    requires Wellformed(reg) && x < |reg.types|
  {
    forall k :: 0 <= k < |Chain(reg, x)| ==> TypeOk(reg, Chain(reg, x)[k], size)
  }

  /** A checked chain: its first type passes, and so does the chain of its parent. */
  lemma ChainWithinStep(reg: Registry, x: nat, size: nat)
    requires Wellformed(reg) && x < |reg.types| && ChainWithin(reg, x, size)
    ensures TypeLinksOk(reg, x) && TypeOk(reg, x, size)
    ensures reg.types[x].parent.Some? ==>
              reg.types[x].parent.value < x && ChainWithin(reg, reg.types[x].parent.value, size)
  {
    ChainStep(reg, x);
    assert Chain(reg, x)[0] == x;
    if reg.types[x].parent.Some? {
      var p := reg.types[x].parent.value;
      forall k | 0 <= k < |Chain(reg, p)|
        ensures TypeOk(reg, Chain(reg, p)[k], size)
      {
        assert Chain(reg, p)[k] == Chain(reg, x)[k + 1];
      }
    }
  }

  /** A type on the chain has no more extension pointers than the most derived type. */
  lemma ExtensionFits(reg: Registry, t: nat, id: nat)
    requires t < |reg.types| && id < |reg.types| && TypeLinksOk(reg, id)
    requires TypeOk(reg, id, reg.types[t].typeSize) && reg.types[id].typeSize > TYPE_HEADER
    ensures |reg.types[id].extension| == (reg.types[id].typeSize - TYPE_HEADER) / POINTER_SIZE
    ensures |reg.types[id].extension| <= ExtensionCount(reg.types[t])
  {
    DivMonotonic(reg.types[id].typeSize - TYPE_HEADER, reg.types[t].typeSize - TYPE_HEADER);
  }

  lemma {:induction false} DivMonotonic(a: nat, b: nat)
    requires a <= b
    ensures a / POINTER_SIZE <= b / POINTER_SIZE
    decreases b
  {
    if b >= POINTER_SIZE && a >= POINTER_SIZE {
      DivMonotonic(a - POINTER_SIZE, b - POINTER_SIZE);
    }
  }

  /** Filling the table from type `id` leaves the rest of the walk to its parent. */
  lemma ResolveStep(reg: Registry, t: nat, id: nat, before: seq<Option<nat>>, after: seq<Option<nat>>)
    requires Wellformed(reg) && t < |reg.types| && id < |reg.types| && TypeLinksOk(reg, id)
    requires |before| == METHOD_SLOTS && |after| == METHOD_SLOTS && |reg.types[id].methods| == METHOD_SLOTS
    requires forall s :: 0 <= s < METHOD_SLOTS ==> FindOffset(reg, t, s) == Pick(before[s], FindOffset(reg, id, s))
    requires forall j :: 0 <= j < METHOD_SLOTS ==> after[j] == Pick(before[j], reg.types[id].methods[j])
    ensures forall s :: 0 <= s < METHOD_SLOTS ==> FindOffset(reg, t, s) == Pick(after[s], RestOffset(reg, reg.types[id].parent, s))
  {
    forall s | 0 <= s < METHOD_SLOTS
      ensures FindOffset(reg, t, s) == Pick(after[s], RestOffset(reg, reg.types[id].parent, s))
    {
      assert FindOffset(reg, id, s) == Pick(reg.types[id].methods[s], RestOffset(reg, reg.types[id].parent, s));
    }
  }

  /** Filling the extension from type `id` leaves the rest of the walk to its parent. */
  lemma ExtensionStep(reg: Registry, t: nat, id: nat, before: seq<Option<nat>>, after: seq<Option<nat>>)
    requires Wellformed(reg) && t < |reg.types| && id < |reg.types| && TypeLinksOk(reg, id)
    requires reg.types[id].typeSize != TYPE_HEADER
    requires |after| == |before| && |reg.types[id].extension| <= |before|
    requires forall i :: 0 <= i < |before| ==> FindExtension(reg, t, i) == Pick(before[i], FindExtension(reg, id, i))
    requires forall j :: 0 <= j < |before| ==>
               after[j] == Pick(before[j], if j < |reg.types[id].extension| then reg.types[id].extension[j] else None)
    ensures forall i :: 0 <= i < |before| ==>
              FindExtension(reg, t, i) == Pick(after[i], RestExtension(reg, reg.types[id].parent, i))
  {
    forall i | 0 <= i < |before|
      ensures FindExtension(reg, t, i) == Pick(after[i], RestExtension(reg, reg.types[id].parent, i))
    {
      assert FindExtension(reg, id, i) == Pick(ExtensionAt(reg.types[id], i), RestExtension(reg, reg.types[id].parent, i));
    }
  }

  /** Extension pointer `i` of a type, NULL past its own extension. */
  function ExtensionAt(ty: TypeInfo, i: nat): Option<nat>
  {
    if i < |ty.extension| then ty.extension[i] else None
  }

  /** The inner loop of the extension walk: fills the still-NULL pointers from `own`. */
  method FillFrom(before: seq<Option<nat>>, own: seq<Option<nat>>) returns (after: seq<Option<nat>>)
    requires |own| <= |before|
    ensures |after| == |before|
    ensures forall j :: 0 <= j < |before| ==> after[j] == Pick(before[j], if j < |own| then own[j] else None)
  {
    after := before;
    var i := 0;
    while i < |own|
      invariant i <= |own| && |after| == |before|
      invariant forall j :: 0 <= j < |before| ==> after[j] == if j < i then Pick(before[j], own[j]) else before[j]
    {
      if after[i].None? {
        after := after[i := own[i]];
      }
      i := i + 1;
    }
  }

  /** The second walk of `type_fill`: records the chain as the description's type cache. */
  method CollectChain(reg: Registry, t: nat) returns (types: seq<nat>)
    requires Wellformed(reg) && t < |reg.types|
    ensures types == Chain(reg, t)
  {
    types := [];
    var itr: Option<nat> := Some(t);
    while itr.Some?
      invariant itr.Some? ==> itr.value < |reg.types|
      invariant Chain(reg, t) == types + Rest(reg, itr)
      decreases |Rest(reg, itr)|
    {
      WalkStep(reg, t, types, itr.value);
      types := types + [itr.value];
      itr := reg.types[itr.value].parent;
    }
  }

  /** Instance check on a filled description agrees with the subclass check on its type. */
  lemma InstanceIsSubclass(reg: Registry, t: nat, desc: TypeDesc, query: nat)
    requires Wellformed(reg) && t < |reg.types|
    requires desc.types == Chain(reg, t)
    ensures InstanceCheck(desc, query) <==> SubclassCheck(reg, t, query)
  {
  }
}
