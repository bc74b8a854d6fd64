/**
 * The remaining steps of building a model description (eina_model.c,
 * `_eina_model_description_ifaces_fill` and
 * `_eina_model_description_privates_fill`) and the private-data layout
 * `eina_model_new` derives from it.
 */
module ModelDesc {
  import opened Wrappers
  import opened ModelTypes
  import opened ModelIfaces
  import opened ModelIfacesFix
  import Bits

  /** Every entry names a registered type. */
  predicate KnownTypes(reg: Registry, types: seq<nat>)
  {
    forall k :: 0 <= k < |types| ==> types[k] < |reg.types|
  }

  /** The interface list of type `t`, all registered. */
  function TypeIfaces(reg: Registry, t: nat): (r: seq<nat>)
    requires Wellformed(reg) && t < |reg.types|
    ensures Known(reg, r)
  {
    assert TypeLinksOk(reg, t);
    reg.types[t].interfaces
  }

  /** What `populate` writes for each interface of `list`, in order. */
  function PopulateAll(reg: Registry, list: seq<nat>): (r: seq<nat>)
    requires Wellformed(reg) && Known(reg, list)
    ensures forall x :: x in r ==> x < |reg.ifaces|
    decreases |list|
  {
    if list == [] then []
    else PopulateAll(reg, list[..|list| - 1]) + Populate(reg, list[|list| - 1])
  }

  /** Everything the populate pass of `ifaces_fill` writes for the types of the chain. */
  function Collected(reg: Registry, types: seq<nat>): (r: seq<nat>)
    requires Wellformed(reg) && KnownTypes(reg, types)
    ensures forall x :: x in r ==> x < |reg.ifaces|
    decreases |types|
  {
    if types == [] then []
    else Collected(reg, types[..|types| - 1]) + PopulateAll(reg, TypeIfaces(reg, types[|types| - 1]))
  }

  /** The counting pass over one type's interfaces: `validate_and_count` on each. */
  method ValidateList(reg: Registry, list: seq<nat>) returns (c: Option<nat>)
    requires Wellformed(reg) && Known(reg, list)
    ensures c == if AllOk(reg, PopulateAll(reg, list)) then Some(|PopulateAll(reg, list)|) else None
  {
    var count := 0;
    var i := 0;
    while i < |list|
      invariant i <= |list| && AllOk(reg, PopulateAll(reg, list[..i])) && count == |PopulateAll(reg, list[..i])|
    {
      assert list[..i + 1][..i] == list[..i];
      ValidateCountsPopulate(reg, list[i]);
      var v := ValidateCount(reg, list[i]);
      if v.None? {
        assert list[..i + 1] == list[..i] + [list[i]];
        NotAllOkWithin(reg, list, i + 1);
        return None;
      }
      count := count + v.value;
      i := i + 1;
    }
    assert list[..i] == list;
    c := Some(count);
  }

  /** One bad entry written for a prefix makes the whole list fail. */
  lemma {:induction false} NotAllOkWithin(reg: Registry, list: seq<nat>, i: nat)
    requires Wellformed(reg) && Known(reg, list) && i <= |list|
    requires !AllOk(reg, PopulateAll(reg, list[..i]))
    ensures !AllOk(reg, PopulateAll(reg, list))
    decreases |list| - i
  {
    if i < |list| {
      assert list[..i + 1][..i] == list[..i];
      NotAllOkWithin(reg, list, i + 1);
    } else {
      assert list[..i] == list;
    }
  }

  /** The populate pass over one type's interfaces. */
  method PopulateList(reg: Registry, list: seq<nat>) returns (out: seq<nat>)
    requires Wellformed(reg) && Known(reg, list)
    ensures out == PopulateAll(reg, list)
  {
    out := [];
    var i := 0;
    while i < |list|
      invariant i <= |list| && out == PopulateAll(reg, list[..i])
    {
      assert list[..i + 1][..i] == list[..i];
      out := out + Populate(reg, list[i]);
      i := i + 1;
    }
    assert list[..i] == list;
  }

  /** The counting loop of `ifaces_fill` over the types of the chain. */
  method CountIfaces(reg: Registry, types: seq<nat>) returns (c: Option<nat>)
    requires Wellformed(reg) && KnownTypes(reg, types)
    ensures c == if AllOk(reg, Collected(reg, types)) then Some(|Collected(reg, types)|) else None
  {
    var count := 0;
    var i := 0;
    while i < |types|
      invariant i <= |types| && AllOk(reg, Collected(reg, types[..i])) && count == |Collected(reg, types[..i])|
    {
      assert types[..i + 1][..i] == types[..i];
      var v := ValidateList(reg, TypeIfaces(reg, types[i]));
      if v.None? {
        NotAllOkCollected(reg, types, i + 1);
        return None;
      }
      count := count + v.value;
      i := i + 1;
    }
    assert types[..i] == types;
    c := Some(count);
  }

  /** The chain-level form of `NotAllOkWithin`. */
  lemma {:induction false} NotAllOkCollected(reg: Registry, types: seq<nat>, i: nat)
    requires Wellformed(reg) && KnownTypes(reg, types) && i <= |types|
    requires !AllOk(reg, Collected(reg, types[..i]))
    ensures !AllOk(reg, Collected(reg, types))
    decreases |types| - i
  {
    if i < |types| {
      assert types[..i + 1][..i] == types[..i];
      NotAllOkCollected(reg, types, i + 1);
    } else {
      assert types[..i] == types;
    }
  }

  /** The populate loop of `ifaces_fill` over the types of the chain. */
  method CollectIfaces(reg: Registry, types: seq<nat>) returns (out: seq<nat>)
    requires Wellformed(reg) && KnownTypes(reg, types)
    ensures out == Collected(reg, types)
  {
    out := [];
    var i := 0;
    while i < |types|
      invariant i <= |types| && out == Collected(reg, types[..i])
    {
      assert types[..i + 1][..i] == types[..i];
      var part := PopulateList(reg, TypeIfaces(reg, types[i]));
      out := out + part;
      i := i + 1;
    }
    assert types[..i] == types;
  }

  /**
   * `_eina_model_description_ifaces_fill`: validates and collects every
   * interface reachable from the chain, then deduplicates and orders them.
   * `allocOk` says whether the interface array can be allocated.
   */
  method IfacesFill(reg: Registry, types: seq<nat>, allocOk: bool) returns (r: Option<seq<nat>>)
    requires Wellformed(reg) && KnownTypes(reg, types)
    ensures r.Some? <==> AllOk(reg, Collected(reg, types)) && (Collected(reg, types) == [] || allocOk)
    ensures r.Some? ==> Known(reg, r.value) && Distinct(r.value) && ImplementersFirst(reg, r.value)
    ensures r.Some? ==> forall x :: x in r.value <==> x in Collected(reg, types)
  {
    var count := CountIfaces(reg, types);
    if count.None? {
      return None;
    }
    if count.value == 0 {
      return Some([]);
    }
    if !allocOk {
      return None;
    }
    var all := CollectIfaces(reg, types);
    assert Known(reg, all) by {
      assert forall k :: 0 <= k < |all| ==> all[k] in all;
    }
    r := Fix(reg, all);
  }

  /** The owner of one private area: a type or an interface. */
  datatype Provider = OfType(t: nat) | OfIface(i: nat)

  /** A private size rounded up to a whole number of pointers, without wrap-around. */
  function RoundUp(size: nat): (r: nat)
    ensures r % POINTER_SIZE == 0 && size <= r < size + POINTER_SIZE
    ensures size % POINTER_SIZE == 0 ==> r == size
  {
    if size % POINTER_SIZE != 0 then size + (POINTER_SIZE - size % POINTER_SIZE) else size
  }

  /** Values of `unsigned int`: the private sizes and their total wrap modulo this. */
  const UINT_RANGE: nat := 0x1_0000_0000

  /**
   * The rounding `privates_fill` does on an `unsigned int` size: the
   * rounded size modulo `UINT_RANGE`, which is zero for a size in the last
   * pointer below `UINT_RANGE` that is not already a multiple.
   */
  function RoundUp32(size: nat): (r: nat)
    ensures r < UINT_RANGE && r % POINTER_SIZE == 0
    ensures r == RoundUp(size) % UINT_RANGE
    ensures size <= UINT_RANGE - POINTER_SIZE ==> r == RoundUp(size)
    ensures UINT_RANGE - POINTER_SIZE < size < UINT_RANGE && size % POINTER_SIZE != 0 ==> r == 0
  {
    var s := size % UINT_RANGE;
    UintMod(size, if size % POINTER_SIZE != 0 then POINTER_SIZE - size % POINTER_SIZE else 0);
    if s % POINTER_SIZE != 0 then (s + (POINTER_SIZE - s % POINTER_SIZE)) % UINT_RANGE else s
  }

  /**
   * Reducing modulo `UINT_RANGE` keeps the remainder modulo the pointer
   * size, and does not change a later sum modulo `UINT_RANGE`.
   */
  lemma UintMod(x: nat, pad: nat)
    ensures (x % UINT_RANGE) % POINTER_SIZE == x % POINTER_SIZE
    ensures (x % UINT_RANGE + pad) % UINT_RANGE == (x + pad) % UINT_RANGE
  {
    var q, s := x / UINT_RANGE, x % UINT_RANGE;
    Bits.DivModUnique(x, POINTER_SIZE, (UINT_RANGE / POINTER_SIZE) * q + s / POINTER_SIZE, s % POINTER_SIZE);
    var t := s + pad;
    Bits.DivModUnique(x + pad, UINT_RANGE, q + t / UINT_RANGE, t % UINT_RANGE);
  }

  /** One step of the `unsigned int` total: adding the wrapped rounding to the wrapped total. */
  lemma UintTotalStep(total: nat, size: nat)
    ensures (total % UINT_RANGE + RoundUp32(size)) % UINT_RANGE == (total + RoundUp(size)) % UINT_RANGE
  {
    UintMod(total, RoundUp32(size));
    UintMod(RoundUp(size), total);
  }

  /** The provider is registered. */
  predicate KnownProvider(reg: Registry, p: Provider)
  {
    match p
    case OfType(t) => t < |reg.types|
    case OfIface(i) => i < |reg.ifaces|
  }

  predicate ProvidersKnown(reg: Registry, providers: seq<Provider>)
  {
    forall k :: 0 <= k < |providers| ==> KnownProvider(reg, providers[k])
  }

  /** The private size of a provider. */
  function PrivateSize(reg: Registry, p: Provider): nat
    requires KnownProvider(reg, p)
  {
    match p
    case OfType(t) => reg.types[t].privateSize
    case OfIface(i) => reg.ifaces[i].privateSize
  }

  /** The sum of the rounded sizes. */
  function RoundedTotal(sizes: seq<nat>): (r: nat)
    ensures r % POINTER_SIZE == 0
    decreases |sizes|
  {
    if sizes == [] then 0 else RoundedTotal(sizes[..|sizes| - 1]) + RoundUp(sizes[|sizes| - 1])
  }

  /** The sum of the sizes as declared. */
  function RawTotal(sizes: seq<nat>): nat
    decreases |sizes|
  {
    if sizes == [] then 0 else RawTotal(sizes[..|sizes| - 1]) + sizes[|sizes| - 1]
  }

  /** Rounding costs less than one pointer per provider. */
  lemma {:induction false} RoundedTotalBounds(sizes: seq<nat>)
    ensures RawTotal(sizes) <= RoundedTotal(sizes) < RawTotal(sizes) + POINTER_SIZE * |sizes| + 1
    ensures RoundedTotal(sizes) == 0 <==> forall k :: 0 <= k < |sizes| ==> sizes[k] == 0
    decreases |sizes|
  {
    if sizes != [] {
      var init := sizes[..|sizes| - 1];
      RoundedTotalBounds(init);
      assert forall k :: 0 <= k < |init| ==> sizes[k] == init[k];
    }
  }

  /** The description's privates: the types of the chain, then the interfaces. */
  datatype Privates = Privates(providers: seq<Provider>, size: nat)

  /** The private sizes of the providers, in order. */
  function Sizes(reg: Registry, providers: seq<Provider>): (r: seq<nat>)
    requires ProvidersKnown(reg, providers)
    ensures |r| == |providers| && forall k :: 0 <= k < |r| ==> r[k] == PrivateSize(reg, providers[k])
  {
    seq(|providers|, k requires 0 <= k < |providers| => PrivateSize(reg, providers[k]))
  }

  /**
   * `_eina_model_description_privates_fill`: one provider per type and
   * interface, and the total size of their rounded private areas.
   */
  method PrivatesFill(reg: Registry, types: seq<nat>, ifaces: seq<nat>, allocOk: bool) returns (r: Option<Privates>)
    requires KnownTypes(reg, types) && Known(reg, ifaces)
    ensures r.Some? <==> allocOk
    ensures r.Some? ==> r.value.providers == TypeProviders(types) + IfaceProviders(ifaces)
    ensures r.Some? ==> ProvidersKnown(reg, r.value.providers)
    ensures r.Some? ==> r.value.size == RoundedTotal(Sizes(reg, r.value.providers)) % UINT_RANGE
  {
    if !allocOk {
      return None;
    }
    var providers, size := AddTypes(reg, types);
    providers, size := AddIfaces(reg, providers, size, ifaces);
    r := Some(Privates(providers, size));
  }

  /** The loop of `privates_fill` over the types of the chain. */
  method AddTypes(reg: Registry, types: seq<nat>) returns (providers: seq<Provider>, size: nat)
    requires KnownTypes(reg, types)
    ensures providers == TypeProviders(types) && ProvidersKnown(reg, providers)
    ensures size == RoundedTotal(Sizes(reg, providers)) % UINT_RANGE
  {
    providers := [];
    size := 0;
    var i := 0;
    while i < |types|
      invariant i <= |types| && providers == TypeProviders(types[..i])
      invariant ProvidersKnown(reg, providers)
      invariant size == RoundedTotal(Sizes(reg, providers)) % UINT_RANGE
    {
      providers, size := AddProvider(reg, providers, size, OfType(types[i]));
      assert types[..i + 1][..i] == types[..i];
      i := i + 1;
    }
    assert types[..i] == types;
  }

  /** The loop of `privates_fill` over the interfaces, after the types. */
  method AddIfaces(reg: Registry, providers0: seq<Provider>, size0: nat, ifaces: seq<nat>) returns (providers: seq<Provider>, size: nat)
    requires Known(reg, ifaces) && ProvidersKnown(reg, providers0)
    requires size0 == RoundedTotal(Sizes(reg, providers0)) % UINT_RANGE
    ensures providers == providers0 + IfaceProviders(ifaces) && ProvidersKnown(reg, providers)
    ensures size == RoundedTotal(Sizes(reg, providers)) % UINT_RANGE
  {
    providers := providers0;
    size := size0;
    var i := 0;
    while i < |ifaces|
      invariant i <= |ifaces| && providers == providers0 + IfaceProviders(ifaces[..i])
      invariant ProvidersKnown(reg, providers)
      invariant size == RoundedTotal(Sizes(reg, providers)) % UINT_RANGE
    {
      providers, size := AddProvider(reg, providers, size, OfIface(ifaces[i]));
      assert ifaces[..i + 1][..i] == ifaces[..i];
      i := i + 1;
    }
    assert ifaces[..i] == ifaces;
  }

  /** The providers of a chain of types, in order. */
  function TypeProviders(types: seq<nat>): (r: seq<Provider>)
    ensures |r| == |types| && forall k :: 0 <= k < |types| ==> r[k] == OfType(types[k])
  {
    if types == [] then [] else TypeProviders(types[..|types| - 1]) + [OfType(types[|types| - 1])]
  }

  /** The providers of a list of interfaces, in order. */
  function IfaceProviders(ifaces: seq<nat>): (r: seq<Provider>)
    ensures |r| == |ifaces| && forall k :: 0 <= k < |ifaces| ==> r[k] == OfIface(ifaces[k])
  {
    if ifaces == [] then [] else IfaceProviders(ifaces[..|ifaces| - 1]) + [OfIface(ifaces[|ifaces| - 1])]
  }

  /** One step of `privates_fill`: records the provider and adds its rounded size. */
  method AddProvider(reg: Registry, providers0: seq<Provider>, size0: nat, p: Provider)
    returns (providers: seq<Provider>, size: nat)
    requires ProvidersKnown(reg, providers0)
    requires KnownProvider(reg, p)
    requires size0 == RoundedTotal(Sizes(reg, providers0)) % UINT_RANGE
    ensures providers == providers0 + [p] && ProvidersKnown(reg, providers)
    ensures size == RoundedTotal(Sizes(reg, providers)) % UINT_RANGE
  {
    providers := providers0 + [p];
    // the field is an `unsigned int`, and so is the sum
    var s := PrivateSize(reg, p) % UINT_RANGE;
    if s % POINTER_SIZE != 0 {
      s := (s + (POINTER_SIZE - s % POINTER_SIZE)) % UINT_RANGE;
    }
    size := (size0 + s) % UINT_RANGE;
    assert s == RoundUp32(PrivateSize(reg, p));
    assert Sizes(reg, providers)[..|providers0|] == Sizes(reg, providers0);
    UintTotalStep(RoundedTotal(Sizes(reg, providers0)), PrivateSize(reg, p));
  }

  /** A model's private block: none when every private area is empty, else one slot per provider. */
  datatype PrivateBlock = NoBlock | Block(slots: seq<Option<nat>>)

  /** Where the private area of provider `i` starts: after the pointer table and the earlier areas. */
  function Offset(sizes: seq<nat>, i: nat): nat
    requires i <= |sizes|
  {
    POINTER_SIZE * |sizes| + RoundedTotal(sizes[..i])
  }

  /** The pointer the private table holds for provider `i`: NULL for an empty area. */
  function Slot(sizes: seq<nat>, i: nat): Option<nat>
    requires i < |sizes|
  {
    if sizes[i] == 0 then None else Some(Offset(sizes, i))
  }

  /**
   * The private layout of `eina_model_new`: with a non-zero total, one
   * block holds a pointer per provider followed by the areas; an empty
   * area gets NULL.  `allocOk` says whether the block can be allocated.
   * The layout is modelled for rounded totals below `UINT_RANGE`, where
   * the `unsigned int` total of `privates_fill` has not wrapped.
   */
  method Layout(sizes: seq<nat>, total: nat, allocOk: bool) returns (r: Option<PrivateBlock>)
    requires RoundedTotal(sizes) < UINT_RANGE && total == RoundedTotal(sizes) % UINT_RANGE
    ensures total == 0 ==> r == Some(NoBlock)
    ensures total > 0 ==> (r.Some? <==> allocOk) && (r.Some? ==> r.value.Block?)
    ensures r.Some? && r.value.Block? ==>
              |r.value.slots| == |sizes| &&
              forall i :: 0 <= i < |sizes| ==> r.value.slots[i] == Slot(sizes, i)
  {
    if total == 0 {
      return Some(NoBlock);
    }
    if !allocOk {
      return None;
    }
    var n := |sizes|;
    var slots: seq<Option<nat>> := [];
    var ptr := POINTER_SIZE * n;
    var i := 0;
    while i < n
      invariant i <= n && |slots| == i && ptr == Offset(sizes, i)
      invariant forall k :: 0 <= k < i ==> slots[k] == Slot(sizes, k)
    {
      assert sizes[..i + 1][..i] == sizes[..i];
      var size := sizes[i];
      if size == 0 {
        slots := slots + [None];
      } else {
        slots := slots + [Some(ptr)];
        if size % POINTER_SIZE != 0 {
          size := size + (POINTER_SIZE - size % POINTER_SIZE);
        }
        ptr := ptr + size;
      }
      i := i + 1;
    }
    r := Some(Block(slots));
  }

  /** The rounded total of a prefix only grows, by at least the sizes added. */
  lemma {:induction false} PrefixGrows(sizes: seq<nat>, i: nat, j: nat)
    requires i < j <= |sizes|
    ensures RoundedTotal(sizes[..i]) + sizes[i] <= RoundedTotal(sizes[..j])
    decreases j - i
  {
    assert sizes[..i + 1][..i] == sizes[..i];
    if j > i + 1 {
      PrefixGrows(sizes, i, j - 1);
      assert sizes[..j][..j - 1] == sizes[..j - 1];
    }
  }

  /**
   * The areas `Layout` hands out are pointer-aligned, lie after the
   * pointer table and inside the block, and do not overlap.
   */
  lemma LayoutSeparate(sizes: seq<nat>, i: nat, j: nat)
    requires i < j < |sizes|
    ensures Offset(sizes, i) % POINTER_SIZE == 0 && Offset(sizes, i) >= POINTER_SIZE * |sizes|
    ensures Offset(sizes, i) + sizes[i] <= Offset(sizes, j)
    ensures Offset(sizes, j) + sizes[j] <= POINTER_SIZE * |sizes| + RoundedTotal(sizes)
  {
    OffsetAligned(sizes, i);
    Ordered(sizes, i, j);
  }

  /** The alignment half of `LayoutSeparate`. */
  lemma OffsetAligned(sizes: seq<nat>, i: nat)
    requires i <= |sizes|
    ensures Offset(sizes, i) % POINTER_SIZE == 0 && Offset(sizes, i) >= POINTER_SIZE * |sizes|
  {
    TableAligned(|sizes|, RoundedTotal(sizes[..i]));
  }

  /** An aligned area after a table of `n` pointers is still aligned. */
  lemma {:induction false} TableAligned(n: nat, t: nat)
    requires t % POINTER_SIZE == 0
    ensures (POINTER_SIZE * n + t) % POINTER_SIZE == 0
    decreases n
  {
    if n > 0 {
      TableAligned(n - 1, t);
      assert POINTER_SIZE * n + t == (POINTER_SIZE * (n - 1) + t) + POINTER_SIZE;
    }
  }

  /** The order half of `LayoutSeparate`. */
  lemma Ordered(sizes: seq<nat>, i: nat, j: nat)
    requires i < j < |sizes|
    ensures Offset(sizes, i) + sizes[i] <= Offset(sizes, j)
    ensures Offset(sizes, j) + sizes[j] <= POINTER_SIZE * |sizes| + RoundedTotal(sizes)
  {
    PrefixGrows(sizes, i, j);
    PrefixGrows(sizes, j, |sizes|);
    assert sizes[..|sizes|] == sizes;
  }
}
