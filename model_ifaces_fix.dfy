/**
 * `_eina_model_description_ifaces_fix` (eina_model.c): drops duplicate
 * interfaces, then sorts the rest topologically with Kahn's algorithm so
 * that every interface comes before the interfaces it implements.  When
 * no interface is left without users while some are still pending, the
 * interfaces form a dependency loop and the build fails.
 */
module ModelIfacesFix {
  import opened Wrappers
  import opened ModelTypes
  import opened ModelIfaces

  predicate Distinct(s: seq<nat>)
  {
    forall a, b :: 0 <= a < b < |s| ==> s[a] != s[b]
  }

  /** Every entry names a registered interface. */
  predicate Known(reg: Registry, s: seq<nat>)
  {
    forall k :: 0 <= k < |s| ==> s[k] < |reg.ifaces|
  }

  /** The entries of `s` in order of first occurrence. */
  function Dedup(s: seq<nat>): (r: seq<nat>)
    ensures forall x :: x in r <==> x in s
    ensures Distinct(r)
    decreases |s|
  {
    if s == [] then []
    else
      var d := Dedup(s[..|s| - 1]);
      if s[|s| - 1] in d then d else d + [s[|s| - 1]]
  }

  /** Node `j` implements node `x`, a different node. */
  predicate Rel(reg: Registry, nodes: seq<nat>, j: nat, x: nat)
    requires Wellformed(reg) && Known(reg, nodes) && j < |nodes| && x < |nodes|
  {
    j != x && Implements(reg, nodes[j], nodes[x])
  }

  /** The number of nodes below `hi`, not yet output, that implement `x`. */
  function Users(reg: Registry, nodes: seq<nat>, done: set<nat>, x: nat, hi: nat): nat
    requires Wellformed(reg) && Known(reg, nodes) && x < |nodes| && hi <= |nodes|
  {
    if hi == 0 then 0
    else Users(reg, nodes, done, x, hi - 1) + if hi - 1 !in done && Rel(reg, nodes, hi - 1, x) then 1 else 0
  }

  /** `x` has no users left exactly when every node implementing it is output. */
  lemma {:induction false} UsersZero(reg: Registry, nodes: seq<nat>, done: set<nat>, x: nat, hi: nat)
    requires Wellformed(reg) && Known(reg, nodes) && x < |nodes| && hi <= |nodes|
    ensures Users(reg, nodes, done, x, hi) == 0 <==> forall j :: 0 <= j < hi && j !in done ==> !Rel(reg, nodes, j, x)
  {
    if hi > 0 {
      UsersZero(reg, nodes, done, x, hi - 1);
    }
  }

  /** Outputting `r` removes it from the users of every node it implements. */
  lemma {:induction false} UsersAfterOutput(reg: Registry, nodes: seq<nat>, done: set<nat>, r: nat, x: nat, hi: nat)
    requires Wellformed(reg) && Known(reg, nodes) && x < |nodes| && hi <= |nodes| && r < |nodes|
    requires r !in done
    ensures Users(reg, nodes, done, x, hi) ==
            Users(reg, nodes, done + {r}, x, hi) + if r < hi && Rel(reg, nodes, r, x) then 1 else 0
  {
    if hi > 0 {
      UsersAfterOutput(reg, nodes, done, r, x, hi - 1);
    }
  }

  /** The nodes below `hi` that node `j` implements, ascending: its dependency list. */
  function Deps(reg: Registry, nodes: seq<nat>, j: nat, hi: nat): seq<nat>
    requires Wellformed(reg) && Known(reg, nodes) && j < |nodes| && hi <= |nodes|
  {
    if hi == 0 then []
    else Deps(reg, nodes, j, hi - 1) + if Rel(reg, nodes, j, hi - 1) then [hi - 1] else []
  }

  /** The dependency list of `j` holds each node below `hi` that `j` implements, once. */
  lemma {:induction false} DepsAre(reg: Registry, nodes: seq<nat>, j: nat, hi: nat)
    requires Wellformed(reg) && Known(reg, nodes) && j < |nodes| && hi <= |nodes|
    ensures forall d: nat :: d in Deps(reg, nodes, j, hi) <==> d < hi && Rel(reg, nodes, j, d)
    ensures Distinct(Deps(reg, nodes, j, hi))
  {
    if hi > 0 {
      DepsAre(reg, nodes, j, hi - 1);
    }
  }

  /** The dependency graph the nested loops of `ifaces_fix` build. */
  method BuildGraph(reg: Registry, nodes: seq<nat>) returns (users: seq<nat>, deps: seq<seq<nat>>)
    requires Wellformed(reg) && Known(reg, nodes)
    ensures |users| == |nodes| && |deps| == |nodes|
    ensures forall x :: 0 <= x < |nodes| ==> users[x] == Users(reg, nodes, {}, x, |nodes|)
    ensures forall j :: 0 <= j < |nodes| ==> deps[j] == Deps(reg, nodes, j, |nodes|)
  {
    var n := |nodes|;
    users := seq(n, x => 0);
    deps := seq(n, j => []);
    var i := 0;
    while i < n
      invariant i <= n && |users| == n && |deps| == n
      invariant forall x :: 0 <= x < n ==> users[x] == if x < i then Users(reg, nodes, {}, x, n) else 0
      invariant forall j :: 0 <= j < n ==> deps[j] == Deps(reg, nodes, j, i)
    {
      users, deps := CountUsers(reg, nodes, i, users, deps);
      i := i + 1;
    }
  }

  /** The inner loop of the graph build: counts the users of node `i` and records it as their dependency. */
  method CountUsers(reg: Registry, nodes: seq<nat>, i: nat, users0: seq<nat>, deps0: seq<seq<nat>>)
    returns (users: seq<nat>, deps: seq<seq<nat>>)
    requires Wellformed(reg) && Known(reg, nodes) && i < |nodes| && |users0| == |nodes| && |deps0| == |nodes|
    requires users0[i] == 0
    requires forall j :: 0 <= j < |nodes| ==> deps0[j] == Deps(reg, nodes, j, i)
    ensures |users| == |nodes| && |deps| == |nodes|
    ensures forall x :: 0 <= x < |nodes| ==> users[x] == if x == i then Users(reg, nodes, {}, i, |nodes|) else users0[x]
    ensures forall j :: 0 <= j < |nodes| ==> deps[j] == Deps(reg, nodes, j, i + 1)
  {
    var n := |nodes|;
    users, deps := users0, deps0;
    var j := 0;
    while j < n
      invariant j <= n && |users| == n && |deps| == n
      invariant forall x :: 0 <= x < n ==> users[x] == if x == i then Users(reg, nodes, {}, i, j) else users0[x]
      invariant forall k :: 0 <= k < n ==> deps[k] == if k < j then Deps(reg, nodes, k, i + 1) else Deps(reg, nodes, k, i)
    {
      if i != j && Implements(reg, nodes[j], nodes[i]) {
        users := users[i := users[i] + 1];
        deps := deps[j := deps[j] + [i]];
      }
      j := j + 1;
    }
  }

  /** Removes `d` from `pending` by moving the last entry into its place. */
  method RemoveSwap(pending: seq<nat>, d: nat) returns (p: seq<nat>)
    requires Distinct(pending) && d in pending
    ensures Distinct(p) && |p| == |pending| - 1
    ensures forall x :: x in p <==> x in pending && x != d
  {
    var j := 0;
    while pending[j] != d
      invariant j < |pending| && d !in pending[..j]
      decreases |pending| - j
    {
      j := j + 1;
    }
    var last := |pending| - 1;
    p := pending;
    if j < last {
      p := p[j := pending[last]];
    }
    p := p[..last];
    assert forall x :: x in p <==> x in pending && x != d by {
      forall x
        ensures x in p <==> x in pending && x != d
      {
        if x in pending && x != d {
          var k :| 0 <= k < |pending| && pending[k] == x;
          assert k != j;
          if k == last {
            assert p[j] == x;
          } else {
            assert p[k] == x;
          }
        }
      }
    }
  }

  /** Every node is output, waiting as a root, or pending, and in only one of them. */
  ghost predicate Partitioned(n: nat, done: set<nat>, roots: seq<nat>, pending: seq<nat>)
  {
    Distinct(roots) && Distinct(pending) &&
    (forall x :: x in roots ==> x < n && x !in done && x !in pending) &&
    (forall x :: x in pending ==> x < n && x !in done) &&
    (forall x :: 0 <= x < n ==> x in done || x in roots || x in pending)
  }

  /** Every output node came after all the nodes that implement it. */
  ghost predicate Topological(reg: Registry, nodes: seq<nat>, order: seq<nat>)
    requires Wellformed(reg) && Known(reg, nodes)
  {
    (forall q :: 0 <= q < |order| ==> order[q] < |nodes|) &&
    forall q, j :: 0 <= q < |order| && 0 <= j < |nodes| && Rel(reg, nodes, j, order[q]) ==> j in order[..q]
  }

  /** The state Kahn's loop keeps between two roots. */
  ghost predicate KahnState(reg: Registry, nodes: seq<nat>, users: seq<nat>, roots: seq<nat>, pending: seq<nat>,
                            done: set<nat>, order: seq<nat>)
    requires Wellformed(reg) && Known(reg, nodes)
  {
    |users| == |nodes| && Partitioned(|nodes|, done, roots, pending) &&
    (forall x :: x in roots ==> users[x] == 0) &&
    (forall x :: x in pending ==> users[x] > 0) &&
    (forall x :: 0 <= x < |nodes| && x !in done ==> users[x] == Users(reg, nodes, done, x, |nodes|)) &&
    (forall x :: x in done <==> x in order) && Distinct(order) && Topological(reg, nodes, order)
  }

  /**
   * The body of the `EINA_LIST_FREE` loop: every node `r` implements
   * loses a user, and one left without users moves from pending to roots.
   */
  method Release(reg: Registry, nodes: seq<nat>, deps: seq<nat>, r: nat,
                 users0: seq<nat>, roots0: seq<nat>, pending0: seq<nat>, ghost done: set<nat>)
    returns (users: seq<nat>, roots: seq<nat>, pending: seq<nat>)
    requires Wellformed(reg) && Known(reg, nodes) && r < |nodes| && |users0| == |nodes|
    requires deps == Deps(reg, nodes, r, |nodes|)
    requires r in done && Partitioned(|nodes|, done, roots0, pending0)
    requires forall x :: x in roots0 ==> users0[x] == 0
    requires forall x :: x in pending0 ==> users0[x] > 0
    requires forall x :: 0 <= x < |nodes| && x !in done ==>
               users0[x] == Users(reg, nodes, done, x, |nodes|) + if x in deps then 1 else 0
    requires forall d :: d in deps ==> d !in done
    ensures |users| == |nodes| && Partitioned(|nodes|, done, roots, pending)
    ensures forall x :: x in roots ==> users[x] == 0
    ensures forall x :: x in pending ==> users[x] > 0
    ensures forall x :: 0 <= x < |nodes| && x !in done ==> users[x] == Users(reg, nodes, done, x, |nodes|)
    ensures |roots| + 2 * |pending| <= |roots0| + 2 * |pending0|
  {
    DepsAre(reg, nodes, r, |nodes|);
    assert Distinct(deps) && forall d :: d in deps ==> d < |nodes| && d !in done;
    users, roots, pending := users0, roots0, pending0;
    var k := 0;
    while k < |deps|
      invariant k <= |deps| && |users| == |nodes| && Partitioned(|nodes|, done, roots, pending)
      invariant forall x :: x in roots ==> users[x] == 0
      invariant forall x :: x in pending ==> users[x] > 0
      invariant forall x :: 0 <= x < |nodes| && x !in done ==>
                  users[x] == Users(reg, nodes, done, x, |nodes|) + if x in deps[k..] then 1 else 0
      invariant |roots| + 2 * |pending| <= |roots0| + 2 * |pending0|
    {
      var d := deps[k];
      assert d in deps;
      assert d !in deps[k + 1..] by {
        assert forall b :: k < b < |deps| ==> deps[b] != deps[k];
      }
      assert forall x :: x in deps[k..] <==> x == d || x in deps[k + 1..];
      users, roots, pending := Drop(reg, nodes, d, users, roots, pending, done, deps[k + 1..]);
      k := k + 1;
    }
  }

  /** One step of the release loop: node `d` loses a user and becomes a root when it has none left. */
  method Drop(reg: Registry, nodes: seq<nat>, d: nat, users0: seq<nat>, roots0: seq<nat>, pending0: seq<nat>,
              ghost done: set<nat>, ghost later: seq<nat>)
    returns (users: seq<nat>, roots: seq<nat>, pending: seq<nat>)
    requires Wellformed(reg) && Known(reg, nodes) && |users0| == |nodes| && d < |nodes| && d !in done && d !in later
    requires Partitioned(|nodes|, done, roots0, pending0)
    requires forall x :: x in roots0 ==> users0[x] == 0
    requires forall x :: x in pending0 ==> users0[x] > 0
    requires forall x :: 0 <= x < |nodes| && x !in done ==>
               users0[x] == Users(reg, nodes, done, x, |nodes|) + if x == d || x in later then 1 else 0
    ensures |users| == |nodes| && Partitioned(|nodes|, done, roots, pending)
    ensures forall x :: x in roots ==> users[x] == 0
    ensures forall x :: x in pending ==> users[x] > 0
    ensures forall x :: 0 <= x < |nodes| && x !in done ==>
              users[x] == Users(reg, nodes, done, x, |nodes|) + if x in later then 1 else 0
    ensures |roots| + 2 * |pending| <= |roots0| + 2 * |pending0|
  {
    assert users0[d] > 0 && d !in roots0;
    users, roots, pending := users0[d := users0[d] - 1], roots0, pending0;
    if users[d] == 0 {
      roots := roots + [d];
      pending := RemoveSwap(pending, d);
    }
  }

  /** The entries of `order` as interfaces. */
  function Ids(nodes: seq<nat>, order: seq<nat>): (r: seq<nat>)
    requires forall q :: 0 <= q < |order| ==> order[q] < |nodes|
    ensures |r| == |order| && forall q :: 0 <= q < |order| ==> r[q] == nodes[order[q]]
  {
    seq(|order|, q requires 0 <= q < |order| => nodes[order[q]])
  }

  /** The first pass of `ifaces_fix` over the nodes: roots have no users, the others are pending. */
  method InitialRoots(reg: Registry, nodes: seq<nat>, users: seq<nat>) returns (roots: seq<nat>, pending: seq<nat>)
    requires Wellformed(reg) && Known(reg, nodes) && |users| == |nodes|
    requires forall x :: 0 <= x < |nodes| ==> users[x] == Users(reg, nodes, {}, x, |nodes|)
    ensures KahnState(reg, nodes, users, roots, pending, {}, [])
  {
    roots, pending := [], [];
    var i := 0;
    while i < |nodes|
      invariant i <= |nodes| && Distinct(roots) && Distinct(pending)
      invariant forall x :: x in roots ==> x < i && users[x] == 0 && x !in pending
      invariant forall x :: x in pending ==> x < i && users[x] > 0
      invariant forall x :: 0 <= x < i ==> x in roots || x in pending
    {
      if users[i] == 0 {
        roots := roots + [i];
      } else {
        pending := pending + [i];
      }
      i := i + 1;
    }
  }

  /** One round of Kahn's loop: outputs the root on top of the stack and releases its dependencies. */
  method PopRoot(reg: Registry, nodes: seq<nat>, deps: seq<seq<nat>>, users0: seq<nat>, roots0: seq<nat>,
                 pending0: seq<nat>, ghost done0: set<nat>, order0: seq<nat>)
    returns (users: seq<nat>, roots: seq<nat>, pending: seq<nat>, ghost done: set<nat>, order: seq<nat>)
    requires Wellformed(reg) && Known(reg, nodes) && |deps| == |nodes|
    requires forall j :: 0 <= j < |nodes| ==> deps[j] == Deps(reg, nodes, j, |nodes|)
    requires KahnState(reg, nodes, users0, roots0, pending0, done0, order0) && |roots0| > 0
    ensures KahnState(reg, nodes, users, roots, pending, done, order)
    ensures |roots| + 2 * |pending| < |roots0| + 2 * |pending0|
  {
    var n := |nodes|;
    var top := roots0[|roots0| - 1];
    assert top in roots0;
    var rest := roots0[..|roots0| - 1];
    assert forall x :: x in rest <==> x in roots0 && x != top;
    UsersZero(reg, nodes, done0, top, n);
    DepsAre(reg, nodes, top, n);
    forall x | 0 <= x < n && x !in done0 + {top}
      ensures users0[x] == Users(reg, nodes, done0 + {top}, x, n) + if x in deps[top] then 1 else 0
    {
      UsersAfterOutput(reg, nodes, done0, top, x, n);
    }
    assert forall d :: d in deps[top] ==> d !in done0 + {top};
    order := order0 + [top];
    done := done0 + {top};
    assert forall j :: 0 <= j < n && Rel(reg, nodes, j, top) ==> j in order0;
    TopologicalSnoc(reg, nodes, order0, top);
    users, roots, pending := Release(reg, nodes, deps[top], top, users0, rest, pending0, done);
  }

  /** A node all of whose implementers are already output may be output next. */
  lemma TopologicalSnoc(reg: Registry, nodes: seq<nat>, order0: seq<nat>, top: nat)
    requires Wellformed(reg) && Known(reg, nodes) && top < |nodes| && Topological(reg, nodes, order0)
    requires forall j :: 0 <= j < |nodes| && Rel(reg, nodes, j, top) ==> j in order0
    ensures Topological(reg, nodes, order0 + [top])
  {
    var order := order0 + [top];
    forall q, j | 0 <= q < |order| && 0 <= j < |nodes| && Rel(reg, nodes, j, order[q])
      ensures j in order[..q]
    {
      if q < |order0| {
        assert order[..q] == order0[..q];
      } else {
        assert order[..q] == order0;
      }
    }
  }

  /** `x` is a node implemented by another node of `s`. */
  predicate ImplementedWithin(reg: Registry, nodes: seq<nat>, s: set<nat>, x: nat)
    requires Wellformed(reg) && Known(reg, nodes)
  {
    x < |nodes| && exists j :: j in s && j < |nodes| && Rel(reg, nodes, j, x)
  }

  /** When the roots run out, every pending node is implemented by another pending node. */
  lemma StuckPending(reg: Registry, nodes: seq<nat>, users: seq<nat>, pending: seq<nat>, done: set<nat>, order: seq<nat>)
    requires Wellformed(reg) && Known(reg, nodes)
    requires KahnState(reg, nodes, users, [], pending, done, order) && |pending| > 0
    ensures pending[0] in set x | x in pending
    ensures forall x :: x in pending ==> ImplementedWithin(reg, nodes, (set y | y in pending), x)
  {
    forall x | x in pending
      ensures ImplementedWithin(reg, nodes, (set y | y in pending), x)
    {
      UsersZero(reg, nodes, done, x, |nodes|);
      var j :| 0 <= j < |nodes| && j !in done && Rel(reg, nodes, j, x);
      assert j in pending;
    }
  }

  /**
   * Kahn's loop of `ifaces_fix`: pops roots from the end of the stack,
   * outputs them and releases what they implement.  Succeeds with a
   * topological order of all nodes, or fails with the pending nodes,
   * each of which is implemented by another pending node.
   */
  method Kahn(reg: Registry, nodes: seq<nat>, users0: seq<nat>, deps: seq<seq<nat>>)
    returns (r: Option<seq<nat>>, ghost stuck: set<nat>)
    requires Wellformed(reg) && Known(reg, nodes) && |users0| == |nodes| && |deps| == |nodes|
    requires forall x :: 0 <= x < |nodes| ==> users0[x] == Users(reg, nodes, {}, x, |nodes|)
    requires forall j :: 0 <= j < |nodes| ==> deps[j] == Deps(reg, nodes, j, |nodes|)
    ensures r.Some? ==> (forall x: nat :: x in r.value <==> x < |nodes|) && Distinct(r.value) && Topological(reg, nodes, r.value)
    ensures r.Some? ==> stuck == {}
    ensures r.None? ==>
              stuck != {} && forall x :: x in stuck ==> ImplementedWithin(reg, nodes, stuck, x)
  {
    var users := users0;
    var roots, pending := InitialRoots(reg, nodes, users);
    ghost var done: set<nat> := {};
    var order: seq<nat> := [];
    while |roots| > 0
      invariant KahnState(reg, nodes, users, roots, pending, done, order)
      decreases |roots| + 2 * |pending|
    {
      users, roots, pending, done, order := PopRoot(reg, nodes, deps, users, roots, pending, done, order);
    }
    if |pending| > 0 {
      stuck := set x | x in pending;
      StuckPending(reg, nodes, users, pending, done, order);
      return None, stuck;
    }
    return Some(order), {};
  }

  /** The first loop of `ifaces_fix`: keeps the first occurrence of every interface. */
  method DedupNodes(cache: seq<nat>) returns (nodes: seq<nat>)
    ensures nodes == Dedup(cache)
  {
    nodes := [];
    var i := 0;
    while i < |cache|
      invariant i <= |cache| && nodes == Dedup(cache[..i])
    {
      assert cache[..i + 1][..i] == cache[..i];
      var k := 0;
      while k < |nodes| && nodes[k] != cache[i]
        invariant k <= |nodes| && cache[i] !in nodes[..k]
      {
        k := k + 1;
      }
      assert k == |nodes| ==> nodes[..k] == nodes;
      if k == |nodes| {
        nodes := nodes + [cache[i]];
      }
      i := i + 1;
    }
    assert cache[..i] == cache;
  }

  /** The largest interface among a non-empty set of nodes. */
  lemma MaxNode(nodes: seq<nat>, s: set<nat>) returns (m: nat)
    requires s != {} && forall x :: x in s ==> x < |nodes|
    ensures m in s && forall y :: y in s ==> nodes[y] <= nodes[m]
    decreases |s|
  {
    var x :| x in s;
    if s == {x} {
      m := x;
    } else {
      var other := MaxNode(nodes, s - {x});
      m := if nodes[x] <= nodes[other] then other else x;
    }
  }

  /**
   * The dependency loop `ifaces_fix` reports cannot occur: a node implemented
   * only by other nodes of the same set would need an interface above the
   * largest one of the set.
   */
  lemma NoLoopInWellformed(reg: Registry, nodes: seq<nat>, stuck: set<nat>)
    requires Wellformed(reg) && Known(reg, nodes) && Distinct(nodes)
    requires forall x :: x in stuck ==> ImplementedWithin(reg, nodes, stuck, x)
    ensures stuck == {}
  {
    if stuck != {} {
      var m := MaxNode(nodes, stuck);
      assert ImplementedWithin(reg, nodes, stuck, m);
      var j :| j in stuck && j < |nodes| && Rel(reg, nodes, j, m);
      ImplementsOnlyEarlier(reg, nodes[j], nodes[m]);
      assert false;
    }
  }

  /** An interface never comes after an interface it implements. */
  predicate ImplementersFirst(reg: Registry, r: seq<nat>)
    requires Wellformed(reg) && Known(reg, r)
  {
    forall p, q :: 0 <= p < q < |r| ==> !Implements(reg, r[q], r[p])
  }

  /** A topological order of distinct nodes, read as interfaces, puts implementers first. */
  lemma OrderedIds(reg: Registry, nodes: seq<nat>, order: seq<nat>)
    requires Wellformed(reg) && Known(reg, nodes) && Distinct(nodes)
    requires Distinct(order) && Topological(reg, nodes, order)
    ensures Known(reg, Ids(nodes, order)) && ImplementersFirst(reg, Ids(nodes, order))
  {
    var r := Ids(nodes, order);
    forall p, q | 0 <= p < q < |r|
      ensures !Implements(reg, r[q], r[p])
    {
      assert order[q] != order[p];
      assert order[q] !in order[..p];
    }
  }

  /** The interfaces of a topological order are exactly the distinct input interfaces. */
  lemma IdsCover(nodes: seq<nat>, order: seq<nat>, cache: seq<nat>)
    requires nodes == Dedup(cache)
    requires forall x: nat :: x in order <==> x < |nodes|
    requires Distinct(order)
    ensures forall q :: 0 <= q < |order| ==> order[q] < |nodes|
    ensures Distinct(Ids(nodes, order))
    ensures forall x :: x in Ids(nodes, order) <==> x in cache
  {
    assert forall q :: 0 <= q < |order| ==> order[q] in order;
    var r := Ids(nodes, order);
    forall x | x in cache
      ensures x in r
    {
      var k :| 0 <= k < |nodes| && nodes[k] == x;
      assert k in order;
      var q :| 0 <= q < |order| && order[q] == k;
      assert r[q] == x;
    }
  }

  /**
   * `_eina_model_description_ifaces_fix`: the interfaces collected for a
   * description, without duplicates and with every interface before the
   * interfaces it implements.  The loop branch never fires on a registry
   * whose links are acyclic, so the result is always present.
   */
  method Fix(reg: Registry, cache: seq<nat>) returns (r: Option<seq<nat>>)
    requires Wellformed(reg) && Known(reg, cache)
    ensures r.Some?
    ensures Known(reg, r.value) && Distinct(r.value) && ImplementersFirst(reg, r.value)
    ensures forall x :: x in r.value <==> x in cache
  {
    var nodes := DedupNodes(cache);
    assert forall k :: 0 <= k < |nodes| ==> nodes[k] in cache;
    var users, deps := BuildGraph(reg, nodes);
    var order, stuck := Kahn(reg, nodes, users, deps);
    NoLoopInWellformed(reg, nodes, stuck);
    IdsCover(nodes, order.value, cache);
    OrderedIds(reg, nodes, order.value);
    r := Some(Ids(nodes, order.value));
  }
}
