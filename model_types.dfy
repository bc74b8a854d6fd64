/**
 * Model types as the object model's description builder sees them
 * (eina_model.h, `Eina_Model_Type` and `Eina_Model_Interface`;
 * eina_model.c, `_eina_model_description_type_fill`).
 *
 * A pointer from one type or interface to another is an index into a
 * registry.  A type's parent has a smaller index than the type, and an
 * interface only links to interfaces with smaller indices: the parent
 * chain and the interface graph are acyclic, as the recursive walks of
 * the source need them to be to terminate.  Method pointers are opaque
 * identities (`nat`), NULL is `None`.
 */
module ModelTypes {
  import opened Wrappers

  const TYPE_VERSION: nat := 1
  const INTERFACE_VERSION: nat := 1
  /** sizeof(void *) on an LP64 target. */
  const POINTER_SIZE: nat := 8
  /**
   * sizeof(Eina_Model_Type) on an LP64 target: three unsigned fields and
   * padding (16), four pointers (32), 26 method pointers (208) and four
   * reserved pointers (32).
   */
  const TYPE_HEADER: nat := 288

  /** The method slots of a type, in declaration order. */
  const METHOD_SLOTS: nat := 26
  const SETUP: nat := 0
  const FLUSH: nat := 1
  const CONSTRUCTOR: nat := 2
  const DESTRUCTOR: nat := 3
  const COPY: nat := 4
  const DEEP_COPY: nat := 5
  const COMPARE: nat := 6
  const LOAD: nat := 7
  const UNLOAD: nat := 8
  const PROPERTY_GET: nat := 9
  /** The slots a complete type must provide somewhere on its chain. */
  const MANDATORY: seq<nat> := [SETUP, FLUSH, CONSTRUCTOR, DESTRUCTOR, PROPERTY_GET]

  /** `EINA_MODEL_TYPE_BASE` is the first registered type. */
  const BASE: nat := 0

  /** One entry of a NULL-terminated `Eina_Model_Event_Description` table. */
  datatype Event = Event(name: String, kind: Option<String>)

  datatype TypeInfo = TypeInfo(
    version: nat,
    privateSize: nat,
    typeSize: nat,
    name: Option<String>,
    parent: Option<nat>,
    interfaces: seq<nat>,
    events: seq<Event>,
    methods: seq<Option<nat>>,
    /** The pointers a subtype appends after the `Eina_Model_Type` header. */
    extension: seq<Option<nat>>)

  datatype IfaceInfo = IfaceInfo(
    version: nat,
    privateSize: nat,
    name: Option<String>,
    interfaces: seq<nat>,
    events: seq<Event>)

  datatype Registry = Registry(types: seq<TypeInfo>, ifaces: seq<IfaceInfo>)

  /** The extension pointers occupy the bytes after the header, whole pointers only. */
  predicate LaidOut(ty: TypeInfo)
  {
    ty.typeSize >= TYPE_HEADER ==> |ty.extension| == (ty.typeSize - TYPE_HEADER) / POINTER_SIZE
  }

  /** The pointers of type `t` refer to registered entries, its parent to an earlier type. */
  predicate TypeLinksOk(reg: Registry, t: nat)
    requires t < |reg.types|
  {
    var ty := reg.types[t];
    |ty.methods| == METHOD_SLOTS && LaidOut(ty) &&
    (ty.parent.Some? ==> ty.parent.value < t) &&
    forall k :: 0 <= k < |ty.interfaces| ==> ty.interfaces[k] < |reg.ifaces|
  }

  /** Interface `i` only links to earlier interfaces. */
  predicate IfaceLinksOk(reg: Registry, i: nat)
    requires i < |reg.ifaces|
  {
    forall k :: 0 <= k < |reg.ifaces[i].interfaces| ==> reg.ifaces[i].interfaces[k] < i
  }

  /** Every pointer refers to a registered entry and the links are acyclic. */
  predicate Wellformed(reg: Registry)
  {
    (forall t: nat :: t < |reg.types| ==> TypeLinksOk(reg, t)) &&
    (forall i: nat :: i < |reg.ifaces| ==> IfaceLinksOk(reg, i))
  }

  /** The parent chain of `t`, most derived first. */
  function Chain(reg: Registry, t: nat): (c: seq<nat>)
    requires Wellformed(reg) && t < |reg.types|
    ensures |c| >= 1 && c[0] == t
    ensures forall k :: 0 <= k < |c| ==> c[k] < |reg.types|
    decreases t
  {
    assert TypeLinksOk(reg, t);
    match reg.types[t].parent
    case None => [t]
    case Some(p) => [t] + Chain(reg, p)
  }

  /** The chain still to walk from a cursor that may be NULL. */
  function Rest(reg: Registry, itr: Option<nat>): seq<nat>
    requires Wellformed(reg) && (itr.Some? ==> itr.value < |reg.types|)
  {
    match itr
    case None => []
    case Some(x) => Chain(reg, x)
  }

  /** Method slot `s` of type `id`. */
  function SlotOf(reg: Registry, id: nat, s: nat): Option<nat>
    requires Wellformed(reg) && id < |reg.types| && s < METHOD_SLOTS
  {
    assert TypeLinksOk(reg, id);
    reg.types[id].methods[s]
  }

  /** A set slot wins over what comes after it. */
  function Pick(first: Option<nat>, later: Option<nat>): Option<nat>
  {
    if first.Some? then first else later
  }

  /**
   * The first non-NULL pointer in method slot `s`, walking from `t` to
   * its root (`_eina_model_type_find_offset`).
   */
  function FindOffset(reg: Registry, t: nat, s: nat): Option<nat>
    requires Wellformed(reg) && t < |reg.types| && s < METHOD_SLOTS
    decreases t
  {
    assert TypeLinksOk(reg, t);
    var ty := reg.types[t];
    if ty.methods[s].Some? then ty.methods[s]
    else if ty.parent.None? then None
    else FindOffset(reg, ty.parent.value, s)
  }

  /** The slot found is the one of the first type on the chain that sets it; NULL if none does. */
  lemma FindOffsetIsFirst(reg: Registry, t: nat, s: nat)
    requires Wellformed(reg) && t < |reg.types| && s < METHOD_SLOTS
    ensures FindOffset(reg, t, s).None? <==> forall k :: 0 <= k < |Chain(reg, t)| ==> SlotOf(reg, Chain(reg, t)[k], s).None?
    ensures FindOffset(reg, t, s).Some? ==>
              exists k :: 0 <= k < |Chain(reg, t)| && SlotOf(reg, Chain(reg, t)[k], s) == FindOffset(reg, t, s) &&
                          (forall j :: 0 <= j < k ==> SlotOf(reg, Chain(reg, t)[j], s).None?)
  {
    FindOffsetNone(reg, t, s);
    if FindOffset(reg, t, s).Some? {
      var k := FindOffsetAt(reg, t, s);
    }
  }

  /** One step of a chain: the type, then its parent's chain. */
  lemma ChainCons(reg: Registry, t: nat)
    requires Wellformed(reg) && t < |reg.types|
    ensures TypeLinksOk(reg, t)
    ensures reg.types[t].parent.None? ==> Chain(reg, t) == [t]
    ensures reg.types[t].parent.Some? ==>
              reg.types[t].parent.value < t && Chain(reg, t) == [t] + Chain(reg, reg.types[t].parent.value)
  {
    assert TypeLinksOk(reg, t);
  }

  /** `FindOffset` is NULL exactly when no type on the chain sets the slot. */
  lemma {:induction false} FindOffsetNone(reg: Registry, t: nat, s: nat)
    requires Wellformed(reg) && t < |reg.types| && s < METHOD_SLOTS
    ensures FindOffset(reg, t, s).None? <==> forall k :: 0 <= k < |Chain(reg, t)| ==> SlotOf(reg, Chain(reg, t)[k], s).None?
    decreases t
  {
    ChainCons(reg, t);
    var c := Chain(reg, t);
    assert SlotOf(reg, c[0], s) == reg.types[t].methods[s];
    if reg.types[t].methods[s].None? && reg.types[t].parent.Some? {
      var p := reg.types[t].parent.value;
      FindOffsetNone(reg, p, s);
      var cp := Chain(reg, p);
      assert forall k :: 0 < k < |c| ==> c[k] == cp[k - 1];
      assert forall j :: 0 <= j < |cp| ==> cp[j] == c[j + 1];
    }
  }

  /** When `FindOffset` finds a slot, it is that of a chain type that every earlier chain type leaves NULL. */
  lemma {:induction false} FindOffsetAt(reg: Registry, t: nat, s: nat) returns (k: nat)
    requires Wellformed(reg) && t < |reg.types| && s < METHOD_SLOTS && FindOffset(reg, t, s).Some?
    ensures k < |Chain(reg, t)| && SlotOf(reg, Chain(reg, t)[k], s) == FindOffset(reg, t, s)
    ensures forall j :: 0 <= j < k ==> SlotOf(reg, Chain(reg, t)[j], s).None?
    decreases t
  {
    ChainCons(reg, t);
    var c := Chain(reg, t);
    assert SlotOf(reg, c[0], s) == reg.types[t].methods[s];
    if reg.types[t].methods[s].Some? {
      k := 0;
    } else {
      var p := reg.types[t].parent.value;
      var kp := FindOffsetAt(reg, p, s);
      var cp := Chain(reg, p);
      k := kp + 1;
      assert c[k] == cp[kp];
      assert forall j :: 0 < j <= kp ==> c[j] == cp[j - 1];
    }
  }

  /**
   * The first non-NULL extension pointer `i`, walking from `t` towards
   * the root and stopping at the first type without an extension.
   */
  function FindExtension(reg: Registry, t: nat, i: nat): Option<nat>
    requires Wellformed(reg) && t < |reg.types|
    decreases t
  {
    assert TypeLinksOk(reg, t);
    var ty := reg.types[t];
    if ty.typeSize == TYPE_HEADER then None
    else
      var own := if i < |ty.extension| then ty.extension[i] else None;
      Pick(own, if ty.parent.Some? then FindExtension(reg, ty.parent.value, i) else None)
  }

  /** The per-type conditions `type_fill` checks, `childSize` being the most derived type's size. */
  predicate TypeOk(reg: Registry, id: nat, childSize: nat)
    requires id < |reg.types|
  {
    var ty := reg.types[id];
    ty.version == TYPE_VERSION && ty.name.Some? && ty.typeSize >= TYPE_HEADER &&
    ty.typeSize <= childSize && (ty.parent.None? ==> id == BASE)
  }

  /** Every type on the chain of `t` passes the checks. */
  predicate ChainOk(reg: Registry, t: nat)
    requires Wellformed(reg) && t < |reg.types|
  {
    forall k :: 0 <= k < |Chain(reg, t)| ==> TypeOk(reg, Chain(reg, t)[k], reg.types[t].typeSize)
  }

  /** Every mandatory method is provided somewhere on the chain. */
  predicate MandatorySet(reg: Registry, t: nat)
    requires Wellformed(reg) && t < |reg.types|
  {
    forall m :: m in MANDATORY ==> FindOffset(reg, t, m).Some?
  }

  /** The most derived type's extension is a whole number of pointers. */
  predicate ExtensionAligned(ty: TypeInfo)
  {
    ty.typeSize <= TYPE_HEADER || (ty.typeSize - TYPE_HEADER) % POINTER_SIZE == 0
  }

  /** Number of extension pointers of a type. */
  function ExtensionCount(ty: TypeInfo): nat
  {
    if ty.typeSize <= TYPE_HEADER then 0 else (ty.typeSize - TYPE_HEADER) / POINTER_SIZE
  }

  /** The part of a description `type_fill` builds. */
  datatype TypeDesc = TypeDesc(ops: seq<Option<nat>>, extension: seq<Option<nat>>, types: seq<nat>)

  /** `eina_model_type_subclass_check`: `parent` is on the chain of `t`. */
  function SubclassCheck(reg: Registry, t: nat, parent: nat): (r: bool)
    requires Wellformed(reg) && t < |reg.types|
    ensures r <==> parent in Chain(reg, t)
    decreases t
  {
    assert TypeLinksOk(reg, t);
    if t == parent then true
    else match reg.types[t].parent
      case None => false
      case Some(p) => SubclassCheck(reg, p, parent)
  }

  /** `_eina_model_instance_check`: `query` is among the description's cached types. */
  function InstanceCheck(desc: TypeDesc, query: nat): bool
  {
    query in desc.types
  }
}
