/**
 * Library bring-up and tear-down: a nesting init counter, the module table
 * initialised in table order and shut down in reverse, and the nesting
 * counter of thread support.
 *
 * What the library calls into (the log system, the log domain registry,
 * each module's init and shutdown, the thread set-up of the share and log
 * subsystems) is recorded as a trace of `Call`s; what those callees return
 * is a parameter of each operation. `Run` replays a trace on the state of
 * the subsystems and fails on a call made out of order, so "bring-up and
 * tear-down are well nested" is the statement that a trace replays.
 */
module MainInit {
  import opened Wrappers

  /** The module table, in initialisation order (the log system comes first and is not in it). */
  const MODULES: seq<String> := [
    "error", "safety_checks", "magic_string", "iterator", "accessor", "array",
    "module", "mempool", "list", "binshare", "stringshare", "ustringshare",
    "matrixsparse", "convert", "counter", "benchmark", "rectangle", "strbuf",
    "ustrbuf", "quadtree", "simple_xml", "file", "prefix"]

  /** A call the library makes into one of its subsystems, with what it returned when that matters. */
  datatype Call =
    | LogInit(ok: bool)
    | LogShutdown
    | DomainRegister(id: int)
    | DomainUnregister
    | ModuleInit(index: nat, ok: bool)
    | ModuleShutdown(index: nat)
      /** `eina_share_common_threads_init` followed by `eina_log_threads_init`. */
    | ThreadsSetup
      /** `eina_share_common_threads_shutdown` followed by `eina_log_threads_shutdown`. */
    | ThreadsTeardown

  /**
   * What is running: the log system, the library's own log domain, the
   * modules `0 .. modules - 1` of the table, and thread support.
   */
  datatype Up = Up(log: bool, domain: bool, modules: nat, threads: bool)

  /** Nothing of the library is running, except perhaps thread support. */
  function Down(threads: bool): Up
  {
    Up(false, false, 0, threads)
  }

  /** Everything of the library is running. */
  function Full(threads: bool): Up
  {
    Up(true, true, |MODULES|, threads)
  }

  /**
   * One call replayed: the log system is started before the domain is
   * registered, the domain before any module, modules start in table order
   * and stop last-started first, and each is stopped only while running.
   */
  function Step(u: Up, c: Call): Option<Up>
  {
    match c
    case LogInit(ok) => if u.log then None else Some(u.(log := ok))
    case LogShutdown => if u.log && !u.domain then Some(u.(log := false)) else None
    case DomainRegister(id) => if u.log && !u.domain then Some(u.(domain := id >= 0)) else None
    case DomainUnregister => if u.domain && u.modules == 0 then Some(u.(domain := false)) else None
    case ModuleInit(i, ok) =>
      if u.domain && i == u.modules < |MODULES| then Some(u.(modules := if ok then i + 1 else i)) else None
    case ModuleShutdown(i) => if u.domain && u.modules == i + 1 then Some(u.(modules := i)) else None
    case ThreadsSetup => if u.threads then None else Some(u.(threads := true))
    case ThreadsTeardown => if u.threads then Some(u.(threads := false)) else None
  }

  /** A trace replayed from `u`: `None` when some call is made out of order. */
  function Run(u: Up, calls: seq<Call>): Option<Up>
    decreases |calls|
  {
    if calls == [] then Some(u)
    else match Step(u, calls[0])
      case None => None
      case Some(v) => Run(v, calls[1..])
  }

  /** Replaying two traces one after the other is replaying their concatenation. */
  lemma {:induction false} RunConcat(u: Up, a: seq<Call>, b: seq<Call>)
    ensures Run(u, a + b) == (match Run(u, a) case None => None case Some(v) => Run(v, b))
    decreases |a|
  {
    if a == [] {
      assert a + b == b;
    } else {
      assert (a + b)[0] == a[0];
      assert (a + b)[1..] == a[1..] + b;
      match Step(u, a[0])
      case None =>
      case Some(v) => RunConcat(v, a[1..], b);
    }
  }

  /** Successful initialisation of the modules `0 .. k - 1`, in table order. */
  function Inits(k: nat): (calls: seq<Call>)
    ensures |calls| == k
    ensures forall j :: 0 <= j < k ==> calls[j] == ModuleInit(j, true)
  {
    if k == 0 then [] else Inits(k - 1) + [ModuleInit(k - 1, true)]
  }

  /** Shutdown of the modules `0 .. k - 1`, last one first. */
  function Shutdowns(k: nat): (calls: seq<Call>)
    ensures |calls| == k
    ensures forall j :: 0 <= j < k ==> calls[j] == ModuleShutdown(k - 1 - j)
  {
    if k == 0 then [] else [ModuleShutdown(k - 1)] + Shutdowns(k - 1)
  }

  /** `_eina_shutdown_from_desc` for the first `k` modules: them in reverse, the domain, the log. */
  function Teardown(k: nat): seq<Call>
  {
    Shutdowns(k) + [DomainUnregister, LogShutdown]
  }

  /** The index of the first module whose init fails, `|ok|` when none does. */
  function FirstFailure(ok: seq<bool>): (k: nat)
    ensures k <= |ok|
    ensures forall j :: 0 <= j < k ==> ok[j]
    ensures k < |ok| ==> !ok[k]
  {
    if ok == [] then 0
    else if !ok[0] then 0
    else 1 + FirstFailure(ok[1..])
  }

  /** The first failure is the failing index that every earlier module passed. */
  lemma {:induction false} FirstFailureIs(ok: seq<bool>, i: nat)
    requires i <= |ok|
    requires forall j :: 0 <= j < i ==> ok[j]
    requires i < |ok| ==> !ok[i]
    ensures FirstFailure(ok) == i
    decreases |ok|
  {
    if ok != [] && ok[0] {
      FirstFailureIs(ok[1..], i - 1);
    }
  }

  /** A first init succeeds when the log starts, the domain registers and every module starts. */
  predicate Succeeds(logOk: bool, dom: int, moduleOk: seq<bool>)
  {
    logOk && dom >= 0 && forall j :: 0 <= j < |moduleOk| ==> moduleOk[j]
  }

  /**
   * The calls of a first `eina_init`: the log, the domain, the modules in
   * order up to the first that fails and, on a failure, the tear-down of
   * what was started.
   */
  function BringUp(logOk: bool, dom: int, moduleOk: seq<bool>): seq<Call>
  {
    if !logOk then [LogInit(false)]
    else if dom < 0 then [LogInit(true), DomainRegister(dom), LogShutdown]
    else
      var k := FirstFailure(moduleOk);
      if k < |moduleOk| then [LogInit(true), DomainRegister(dom)] + Inits(k) + ([ModuleInit(k, false)] + Teardown(k))
      else [LogInit(true), DomainRegister(dom)] + Inits(k)
  }

  /** Replaying a single call is taking that step. */
  lemma RunOne(u: Up, c: Call)
    ensures Run(u, [c]) == Step(u, c)
  {
    assert [c][1..] == [];
  }

  /** Starting the modules `0 .. k - 1` in order brings them up. */
  lemma {:induction false} RunInits(u: Up, k: nat)
    requires u.domain && u.modules == 0 && k <= |MODULES|
    ensures Run(u, Inits(k)) == Some(u.(modules := k))
  {
    if k > 0 {
      RunInits(u, k - 1);
      RunConcat(u, Inits(k - 1), [ModuleInit(k - 1, true)]);
      RunOne(u.(modules := k - 1), ModuleInit(k - 1, true));
    }
  }

  /** Stopping the running modules last-first leaves none running. */
  lemma {:induction false} RunShutdowns(u: Up, k: nat)
    requires u.domain && u.modules == k
    ensures Run(u, Shutdowns(k)) == Some(u.(modules := 0))
    decreases k
  {
    if k > 0 {
      RunShutdowns(u.(modules := k - 1), k - 1);
    }
  }

  /** The tear-down of the running modules stops them, the domain and the log. */
  lemma RunTeardown(u: Up, k: nat)
    requires u.log && u.domain && u.modules == k
    ensures Run(u, Teardown(k)) == Some(Down(u.threads))
  {
    RunShutdowns(u, k);
    RunConcat(u, Shutdowns(k), [DomainUnregister, LogShutdown]);
  }

  /**
   * A first init is well nested, and it leaves everything running when it
   * succeeds and nothing running when it fails: the rollback stops exactly
   * what was started.
   */
  lemma BringUpNests(logOk: bool, dom: int, moduleOk: seq<bool>, threads: bool)
    requires |moduleOk| == |MODULES|
    ensures Run(Down(threads), BringUp(logOk, dom, moduleOk))
         == Some(if Succeeds(logOk, dom, moduleOk) then Full(threads) else Down(threads))
  {
    if logOk && dom >= 0 {
      var k := FirstFailure(moduleOk);
      var head := [LogInit(true), DomainRegister(dom)];
      var mid := Up(true, true, 0, threads);
      RunOne(Down(threads), LogInit(true));
      RunOne(Up(true, false, 0, threads), DomainRegister(dom));
      RunConcat(Down(threads), [LogInit(true)], [DomainRegister(dom)]);
      assert [LogInit(true)] + [DomainRegister(dom)] == head;
      RunInits(mid, k);
      RunConcat(Down(threads), head, Inits(k));
      var up := mid.(modules := k);
      if k < |moduleOk| {
        RunConcat(Down(threads), head + Inits(k), [ModuleInit(k, false)] + Teardown(k));
        RunConcat(up, [ModuleInit(k, false)], Teardown(k));
        RunOne(up, ModuleInit(k, false));
        RunTeardown(up, k);
        assert !Succeeds(logOk, dom, moduleOk);
      } else {
        assert Succeeds(logOk, dom, moduleOk);
        assert BringUp(logOk, dom, moduleOk) == head + Inits(k);
      }
    } else if logOk {
      RunOne(Down(threads), LogInit(true));
      RunOne(Up(true, false, 0, threads), DomainRegister(dom));
      RunOne(Up(true, false, 0, threads), LogShutdown);
      RunConcat(Down(threads), [LogInit(true)], [DomainRegister(dom), LogShutdown]);
      RunConcat(Up(true, false, 0, threads), [DomainRegister(dom)], [LogShutdown]);
      assert [LogInit(true)] + ([DomainRegister(dom)] + [LogShutdown]) == BringUp(logOk, dom, moduleOk);
    } else {
      RunOne(Down(threads), LogInit(false));
    }
  }

  /** The tear-down of a shutdown to zero stops everything. */
  lemma TeardownNests(threads: bool)
    ensures Run(Full(threads), Teardown(|MODULES|)) == Some(Down(threads))
  {
    RunTeardown(Full(threads), |MODULES|);
  }

  /** The subsystems' state a library with these counters has. */
  function Expected(count: int, threadCount: int): Up
  {
    if count > 0 then Full(threadCount > 0) else Down(threadCount > 0)
  }

  /** The global state of `eina_main.c`, with the calls it has made so far. */
  class Library {
    /** `_eina_main_count` */
    var count: int
    /** `_eina_main_thread_count` */
    var threadCount: int
    /** `_eina_threads_activated` */
    var threadsActivated: bool
    /** `_eina_log_dom` */
    var logDom: int
    /** Every call made into the subsystems, oldest first. */
    var calls: seq<Call>

    /**
     * The trace is well nested and leaves running what the counters say:
     * everything while `count` is positive, thread support while
     * `threadCount` is.
     */
    ghost predicate Valid()
      reads this
    {
      && threadCount >= 0
      && threadsActivated == (threadCount > 0)
      && (count > 0 ==> logDom >= 0)
      && Run(Down(false), calls) == Some(Expected(count, threadCount))
    }

    /** The library as loaded: nothing initialised, no call made. */
    constructor()
      ensures count == 0 && threadCount == 0 && !threadsActivated && logDom == -1 && calls == []
      ensures Valid()
    {
      count := 0;
      threadCount := 0;
      threadsActivated := false;
      logDom := -1;
      calls := [];
    }

    /** `_eina_shutdown_from_desc`: stop the first `n` modules in reverse, then the domain and the log. */
    method ShutdownFromDesc(n: nat)
      requires n <= |MODULES|
      modifies this
      ensures calls == old(calls) + Teardown(n)
      ensures logDom == -1
      ensures count == old(count) && threadCount == old(threadCount)
      ensures threadsActivated == old(threadsActivated)
    {
      var i: nat := n;
      while i > 0
        invariant i <= n
        invariant calls == old(calls) + Shutdowns(n)[..n - i]
        invariant count == old(count) && threadCount == old(threadCount)
        invariant threadsActivated == old(threadsActivated)
      {
        assert Shutdowns(n)[..n - i + 1] == Shutdowns(n)[..n - i] + [ModuleShutdown(i - 1)];
        calls := calls + [ModuleShutdown(i - 1)];
        i := i - 1;
      }
      assert Shutdowns(n)[..n] == Shutdowns(n);
      calls := calls + [DomainUnregister];
      logDom := -1;
      calls := calls + [LogShutdown];
    }

    /**
     * `eina_init`: a library already initialised only counts one more user;
     * otherwise the log, the domain and every module start in order, and
     * the first failure rolls back what started and returns 0.
     */
    method Init(logOk: bool, dom: int, moduleOk: seq<bool>) returns (r: int)
      requires Valid() && |moduleOk| == |MODULES|
      modifies this
      ensures Valid()
      ensures old(count) > 0 ==> r == old(count) + 1 && count == r && calls == old(calls) && logDom == old(logDom)
      ensures old(count) <= 0 ==> calls == old(calls) + BringUp(logOk, dom, moduleOk)
      ensures old(count) <= 0 && Succeeds(logOk, dom, moduleOk) ==> r == 1 && count == 1 && logDom == dom
      ensures old(count) <= 0 && !Succeeds(logOk, dom, moduleOk) ==>
                r == 0 && count == old(count) && logDom == (if !logOk then old(logDom) else if dom < 0 then dom else -1)
      ensures threadCount == old(threadCount) && threadsActivated == old(threadsActivated)
    {
      if count > 0 {
        count := count + 1;
        return count;
      }
      BringUpNests(logOk, dom, moduleOk, threadCount > 0);
      RunConcat(Down(false), calls, BringUp(logOk, dom, moduleOk));
      r := FirstInit(logOk, dom, moduleOk);
    }

    /** The work of `eina_init` when the library is not initialised. */
    method FirstInit(logOk: bool, dom: int, moduleOk: seq<bool>) returns (r: int)
      requires |moduleOk| == |MODULES|
      modifies this
      ensures calls == old(calls) + BringUp(logOk, dom, moduleOk)
      ensures Succeeds(logOk, dom, moduleOk) ==> r == 1 && count == 1 && logDom == dom
      ensures !Succeeds(logOk, dom, moduleOk) ==>
                r == 0 && count == old(count) && logDom == (if !logOk then old(logDom) else if dom < 0 then dom else -1)
      ensures threadCount == old(threadCount) && threadsActivated == old(threadsActivated)
    {
      if !logOk {
        calls := calls + [LogInit(false)];
        return 0;
      }
      calls := calls + [LogInit(true), DomainRegister(dom)];
      logDom := dom;
      if logDom < 0 {
        calls := calls + [LogShutdown];
        return 0;
      }
      ghost var head := [LogInit(true), DomainRegister(dom)];
      var i := 0;
      while i < |MODULES|
        invariant i <= |MODULES|
        invariant forall j :: 0 <= j < i ==> moduleOk[j]
        invariant calls == old(calls) + (head + Inits(i))
        invariant count == old(count) && logDom == dom
        invariant threadCount == old(threadCount) && threadsActivated == old(threadsActivated)
      {
        calls := calls + [ModuleInit(i, moduleOk[i])];
        if !moduleOk[i] {
          FirstFailureIs(moduleOk, i);
          assert BringUp(logOk, dom, moduleOk) == head + Inits(i) + ([ModuleInit(i, false)] + Teardown(i));
          ShutdownFromDesc(i);
          assert calls == old(calls) + (head + Inits(i)) + [ModuleInit(i, false)] + Teardown(i);
          return 0;
        }
        i := i + 1;
      }
      FirstFailureIs(moduleOk, i);
      assert BringUp(logOk, dom, moduleOk) == head + Inits(i);
      count := 1;
      return 1;
    }

    /**
     * `eina_shutdown`: one user less; when none is left every module stops
     * in reverse, then the domain and the log. Nothing stops the count from
     * going below zero.
     */
    method Shutdown() returns (r: int)
      requires Valid()
      modifies this
      ensures Valid()
      ensures r == old(count) - 1 && count == r
      ensures calls == old(calls) + (if r == 0 then Teardown(|MODULES|) else [])
      ensures logDom == (if r == 0 then -1 else old(logDom))
      ensures threadCount == old(threadCount) && threadsActivated == old(threadsActivated)
    {
      count := count - 1;
      if count == 0 {
        TeardownNests(threadCount > 0);
        RunConcat(Down(false), calls, Teardown(|MODULES|));
        ShutdownFromDesc(|MODULES|);
      }
      return count;
    }

    /** `eina_threads_init`: one user more; the first one sets thread support up. */
    method ThreadsInit() returns (r: int)
      requires Valid()
      modifies this
      ensures Valid()
      ensures r == old(threadCount) + 1 && threadCount == r && threadsActivated
      ensures calls == old(calls) + (if r == 1 then [ThreadsSetup] else [])
      ensures count == old(count) && logDom == old(logDom)
    {
      threadCount := threadCount + 1;
      r := threadCount;
      if threadCount > 1 {
        return;
      }
      RunConcat(Down(false), calls, [ThreadsSetup]);
      calls := calls + [ThreadsSetup];
      threadsActivated := true;
    }

    /**
     * `eina_threads_shutdown`: one user less; the last one tears thread
     * support down. The caller must hold a matching init, as the debug
     * build asserts.
     */
    method ThreadsShutdown() returns (r: int)
      requires Valid() && threadCount > 0
      modifies this
      ensures Valid()
      ensures r == old(threadCount) - 1 && threadCount == r && threadsActivated == (r > 0)
      ensures calls == old(calls) + (if r == 0 then [ThreadsTeardown] else [])
      ensures count == old(count) && logDom == old(logDom)
    {
      threadCount := threadCount - 1;
      r := threadCount;
      if threadCount > 0 {
        return;
      }
      RunConcat(Down(false), calls, [ThreadsTeardown]);
      calls := calls + [ThreadsTeardown];
      threadsActivated := false;
    }
  }
}
