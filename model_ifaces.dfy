/**
 * The interfaces of a model description (eina_model.c,
 * `_eina_model_interface_implements` and the
 * `_eina_model_description_ifaces_*` builders): every interface reachable
 * from the types of the chain is validated and collected, duplicates are
 * dropped and the rest is sorted so that an interface comes before every
 * interface it implements.
 */
module ModelIfaces {
  import opened Wrappers
  import opened ModelTypes

  /** The checks `ifaces_validate_and_count` makes on one interface. */
  predicate IfaceOk(reg: Registry, i: nat)
    requires i < |reg.ifaces|
  {
    reg.ifaces[i].version == INTERFACE_VERSION && reg.ifaces[i].name.Some?
  }

  /** The links of interface `i`, all to earlier interfaces. */
  function Links(reg: Registry, i: nat): (links: seq<nat>)
    requires Wellformed(reg) && i < |reg.ifaces|
    ensures forall k :: 0 <= k < |links| ==> links[k] < i
  {
    assert IfaceLinksOk(reg, i);
    reg.ifaces[i].interfaces
  }

  /** `_eina_model_interface_implements`: `query` is `i` or implemented by one of its links. */
  function Implements(reg: Registry, i: nat, query: nat): bool
    requires Wellformed(reg) && i < |reg.ifaces|
    decreases i, |Links(reg, i)| + 1
  {
    i == query || ImplementsFrom(reg, i, 0, query)
  }

  /** The loop over the links of `i`, from link `k` on. */
  function ImplementsFrom(reg: Registry, i: nat, k: nat, query: nat): bool
    requires Wellformed(reg) && i < |reg.ifaces| && k <= |Links(reg, i)|
    decreases i, |Links(reg, i)| - k
  {
    if k == |Links(reg, i)| then false
    else Implements(reg, Links(reg, i)[k], query) || ImplementsFrom(reg, i, k + 1, query)
  }

  /** `_eina_model_description_ifaces_populate`: `i` and everything below it, in preorder. */
  function Populate(reg: Registry, i: nat): (r: seq<nat>)
    requires Wellformed(reg) && i < |reg.ifaces|
    ensures |r| >= 1 && r[0] == i
    ensures forall x :: x in r ==> x <= i
    decreases i, |Links(reg, i)| + 1
  {
    [i] + PopulateFrom(reg, i, 0)
  }

  /** The populate loop over the links of `i`, from link `k` on. */
  function PopulateFrom(reg: Registry, i: nat, k: nat): (r: seq<nat>)
    requires Wellformed(reg) && i < |reg.ifaces| && k <= |Links(reg, i)|
    ensures forall x :: x in r ==> x < i
    decreases i, |Links(reg, i)| - k
  {
    if k == |Links(reg, i)| then []
    else Populate(reg, Links(reg, i)[k]) + PopulateFrom(reg, i, k + 1)
  }

  /**
   * `_eina_model_description_ifaces_validate_and_count`: the number of
   * entries `populate` writes for `i`, or None when one of them fails
   * the checks.
   */
  function ValidateCount(reg: Registry, i: nat): Option<nat>
    requires Wellformed(reg) && i < |reg.ifaces|
    decreases i, |Links(reg, i)| + 1
  {
    if !IfaceOk(reg, i) then None
    else match ValidateFrom(reg, i, 0)
      case None => None
      case Some(c) => Some(c + 1)
  }

  /** The validate loop over the links of `i`, from link `k` on. */
  function ValidateFrom(reg: Registry, i: nat, k: nat): Option<nat>
    requires Wellformed(reg) && i < |reg.ifaces| && k <= |Links(reg, i)|
    decreases i, |Links(reg, i)| - k
  {
    if k == |Links(reg, i)| then Some(0)
    else match ValidateCount(reg, Links(reg, i)[k])
      case None => None
      case Some(a) =>
        match ValidateFrom(reg, i, k + 1)
        case None => None
        case Some(b) => Some(a + b)
  }

  /** Every entry of `s` passes the interface checks. */
  predicate AllOk(reg: Registry, s: seq<nat>)
    requires forall x :: x in s ==> x < |reg.ifaces|
  {
    forall x :: x in s ==> IfaceOk(reg, x)
  }

  /** Validation counts exactly what populate writes, and fails exactly when one entry is bad. */
  lemma {:induction false} ValidateCountsPopulate(reg: Registry, i: nat)
    requires Wellformed(reg) && i < |reg.ifaces|
    ensures ValidateCount(reg, i) == if AllOk(reg, Populate(reg, i)) then Some(|Populate(reg, i)|) else None
    decreases i, |Links(reg, i)| + 1
  {
    ValidateFromCountsPopulate(reg, i, 0);
    var rest := PopulateFrom(reg, i, 0);
    assert Populate(reg, i) == [i] + rest;
  }

  /** The loop form of `ValidateCountsPopulate`. */
  lemma {:induction false} ValidateFromCountsPopulate(reg: Registry, i: nat, k: nat)
    requires Wellformed(reg) && i < |reg.ifaces| && k <= |Links(reg, i)|
    ensures ValidateFrom(reg, i, k) == if AllOk(reg, PopulateFrom(reg, i, k)) then Some(|PopulateFrom(reg, i, k)|) else None
    decreases i, |Links(reg, i)| - k
  {
    if k < |Links(reg, i)| {
      var l := Links(reg, i)[k];
      ValidateCountsPopulate(reg, l);
      ValidateFromCountsPopulate(reg, i, k + 1);
      var a := Populate(reg, l);
      var b := PopulateFrom(reg, i, k + 1);
      assert PopulateFrom(reg, i, k) == a + b;
    }
  }

  /** `implements` answers whether `query` is among what populate writes for `i`. */
  lemma {:induction false} ImplementsIsReachable(reg: Registry, i: nat, query: nat)
    requires Wellformed(reg) && i < |reg.ifaces|
    ensures Implements(reg, i, query) <==> query in Populate(reg, i)
    decreases i, |Links(reg, i)| + 1
  {
    ImplementsFromIsReachable(reg, i, 0, query);
  }

  /** The loop form of `ImplementsIsReachable`. */
  lemma {:induction false} ImplementsFromIsReachable(reg: Registry, i: nat, k: nat, query: nat)
    requires Wellformed(reg) && i < |reg.ifaces| && k <= |Links(reg, i)|
    ensures ImplementsFrom(reg, i, k, query) <==> query in PopulateFrom(reg, i, k)
    decreases i, |Links(reg, i)| - k
  {
    if k < |Links(reg, i)| {
      ImplementsIsReachable(reg, Links(reg, i)[k], query);
      ImplementsFromIsReachable(reg, i, k + 1, query);
    }
  }

  /** An interface only implements itself and earlier interfaces: the relation has no cycle. */
  lemma ImplementsOnlyEarlier(reg: Registry, i: nat, query: nat)
    requires Wellformed(reg) && i < |reg.ifaces|
    requires Implements(reg, i, query)
    ensures query <= i
  {
    ImplementsIsReachable(reg, i, query);
  }
}
