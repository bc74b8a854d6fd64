/**
 * The log-domain registry: the slot table of registered domains, the
 * pending levels set before a domain exists, the glob levels, and the
 * rule that decides whether a message is printed.
 *
 * Names are compared as whole strings: the source compares the stored
 * length and then `strcmp`, which is string equality for C strings.
 * `fnmatch` is a parameter `glob(pattern, name)`.
 */
module LogDomains {
  import opened Wrappers
  import opened LogFormat

  /** A slot of the table: the domain's name, its level, and whether the slot is free. */
  datatype Domain = Domain(name: String, level: int, deleted: bool)

  /** The size of the first allocation of the slot table. */
  const FIRST_CAPACITY: nat := 24
  /** How many slots each later growth adds. */
  const GROWTH: nat := 8

  /** The capacities the table can have: none yet, or 24 slots grown by steps of 8. */
  predicate IsCapacity(n: nat)
  {
    n == 0 || (n >= FIRST_CAPACITY && (n - FIRST_CAPACITY) % GROWTH == 0)
  }

  /** The capacity after one growth of a full table. */
  function Grown(capacity: nat): (r: nat)
    ensures r > capacity
    ensures IsCapacity(capacity) ==> IsCapacity(r)
    ensures capacity == 0 ==> r == FIRST_CAPACITY
  {
    if capacity == 0 then FIRST_CAPACITY else capacity + GROWTH
  }

  // ------------------------------------------------------------ lookups

  /** The first deleted slot at or after `i`, `|domains|` when there is none. */
  function FreeFrom(domains: seq<Domain>, i: nat): (r: nat)
    requires i <= |domains|
    ensures i <= r <= |domains|
    ensures r < |domains| ==> domains[r].deleted
    ensures forall j :: i <= j < r ==> !domains[j].deleted
    decreases |domains| - i
  {
    if i == |domains| then i
    else if domains[i].deleted then i
    else FreeFrom(domains, i + 1)
  }

  /** The slot a registration takes: the lowest deleted one, else the end of the table. */
  function FreeSlot(domains: seq<Domain>): nat
  {
    FreeFrom(domains, 0)
  }

  /** The first live domain called `name` at or after `i`, `|domains|` when there is none. */
  function LiveFrom(domains: seq<Domain>, name: String, i: nat): (r: nat)
    requires i <= |domains|
    ensures i <= r <= |domains|
    ensures r < |domains| ==> !domains[r].deleted && domains[r].name == name
    ensures forall j :: i <= j < r ==> domains[j].deleted || domains[j].name != name
    decreases |domains| - i
  {
    if i == |domains| then i
    else if !domains[i].deleted && domains[i].name == name then i
    else LiveFrom(domains, name, i + 1)
  }

  /** The first entry called `name` at or after `i`, `|entries|` when there is none. */
  function NamedFrom(entries: seq<LevelEntry>, name: String, i: nat): (r: nat)
    requires i <= |entries|
    ensures i <= r <= |entries|
    ensures r < |entries| ==> entries[r].name == name
    ensures forall j :: i <= j < r ==> entries[j].name != name
    decreases |entries| - i
  {
    if i == |entries| then i
    else if entries[i].name == name then i
    else NamedFrom(entries, name, i + 1)
  }

  /** The first glob entry whose pattern matches `name` at or after `i`, `|globs|` when none does. */
  function MatchFrom(globs: seq<LevelEntry>, name: String, glob: (String, String) -> bool, i: nat): (r: nat)
    requires i <= |globs|
    ensures i <= r <= |globs|
    ensures r < |globs| ==> glob(globs[r].name, name)
    ensures forall j :: i <= j < r ==> !glob(globs[j].name, name)
    decreases |globs| - i
  {
    if i == |globs| then i
    else if glob(globs[i].name, name) then i
    else MatchFrom(globs, name, glob, i + 1)
  }

  // ------------------------------------------------- the table's states

  /** The table once `name` has been placed at slot `r` (a reused slot, or one past the end). */
  function Placed(domains: seq<Domain>, r: nat, name: String, level: int): (nd: seq<Domain>)
    requires r <= |domains|
    ensures |nd| == if r < |domains| then |domains| else |domains| + 1
    ensures nd[r] == Domain(name, level, false)
    ensures forall j :: 0 <= j < |domains| && j != r ==> nd[j] == domains[j]
  {
    if r < |domains| then domains[r := Domain(name, level, false)]
    else domains + [Domain(name, level, false)]
  }

  /** The table once slot `d` has been unregistered; an index out of range changes nothing. */
  function Unregistered(domains: seq<Domain>, d: int): (nd: seq<Domain>)
    ensures |nd| == |domains|
    ensures RegisteredLevel(nd, d) == LEVEL_UNKNOWN
    ensures forall e :: 0 <= e < |domains| && e != d ==> nd[e] == domains[e]
    ensures forall e :: 0 <= e < |domains| ==> nd[e].name == domains[e].name
  {
    if 0 <= d < |domains| then domains[d := domains[d].(deleted := true)] else domains
  }

  /**
   * `eina_log_domain_registered_level_get`: the level of slot `d`, unknown
   * for a negative index, one past the table or a deleted slot.
   */
  function RegisteredLevel(domains: seq<Domain>, d: int): (r: int)
    ensures (0 <= d < |domains| && !domains[d].deleted) ==> r == domains[d].level
    ensures !(0 <= d < |domains|) ==> r == LEVEL_UNKNOWN
    ensures 0 <= d < |domains| && domains[d].deleted ==> r == LEVEL_UNKNOWN
  {
    if d < 0 || d >= |domains| then LEVEL_UNKNOWN
    else if domains[d].deleted then LEVEL_UNKNOWN
    else domains[d].level
  }

  /** The pending list with its first entry called `name` taken out (none: unchanged). */
  function Consumed(pending: seq<LevelEntry>, name: String): (r: seq<LevelEntry>)
    ensures NamedFrom(pending, name, 0) == |pending| ==> r == pending
    ensures NamedFrom(pending, name, 0) < |pending| ==> |r| + 1 == |pending|
  {
    var p := NamedFrom(pending, name, 0);
    if p < |pending| then pending[..p] + pending[p + 1..] else pending
  }

  /**
   * The level a domain registered as `name` starts with: the first pending
   * level set for that name; when there is none (or it is the unknown
   * level), the first matching glob's; when still unknown, the global
   * level.
   */
  function StartLevel(pending: seq<LevelEntry>, globs: seq<LevelEntry>, glob: (String, String) -> bool,
                      global: int, name: String): int
  {
    var p := NamedFrom(pending, name, 0);
    var fromPending := if p < |pending| then pending[p].level else LEVEL_UNKNOWN;
    var g := MatchFrom(globs, name, glob, 0);
    var fromGlob := if fromPending == LEVEL_UNKNOWN && g < |globs| then globs[g].level else fromPending;
    if fromGlob == LEVEL_UNKNOWN then global else fromGlob
  }

  /**
   * `eina_log_domain_level_get`: the level of the first live domain called
   * `name`, else of the first pending entry, else of the first matching
   * glob, else the global level.
   */
  function LevelOf(domains: seq<Domain>, pending: seq<LevelEntry>, globs: seq<LevelEntry>,
                   glob: (String, String) -> bool, global: int, name: String): int
  {
    var i := LiveFrom(domains, name, 0);
    if i < |domains| then domains[i].level
    else
      var p := NamedFrom(pending, name, 0);
      if p < |pending| then pending[p].level
      else
        var g := MatchFrom(globs, name, glob, 0);
        if g < |globs| then globs[g].level else global
  }

  /** `eina_log_domain_level_set` on the table: the first live domain called `name` takes the level. */
  function SetDomains(domains: seq<Domain>, name: String, level: int): seq<Domain>
  {
    var i := LiveFrom(domains, name, 0);
    if i < |domains| then domains[i := domains[i].(level := level)] else domains
  }

  /**
   * `eina_log_domain_level_set` on the pending list: untouched when a live
   * domain took the level; else the first pending entry called `name` takes
   * it; else a new entry is appended, unless its allocation fails.
   */
  function SetPending(domains: seq<Domain>, pending: seq<LevelEntry>, name: String, level: int,
                      allocOk: bool): seq<LevelEntry>
  {
    if LiveFrom(domains, name, 0) < |domains| then pending
    else
      var p := NamedFrom(pending, name, 0);
      if p < |pending| then pending[p := pending[p].(level := level)]
      else if allocOk then pending + [LevelEntry(name, level)]
      else pending
  }

  // ------------------------------------------------------------ printing

  /** What `eina_log_print` does with a message (the safety checks compiled in). */
  datatype Outcome =
    | UnknownDomain(aborts: bool)
    | DeletedDomain
    | Dropped
    | Printed(aborts: bool)

  /**
   * The filter of `eina_log_print_unlocked`: an index out of the table is
   * reported (and aborts when abort-on-critical is set), a deleted domain
   * is reported, a message above the domain's level is dropped, and a
   * printed message aborts when abort-on-critical is set and its level is
   * at most the abort level.
   */
  function PrintOutcome(domains: seq<Domain>, domain: int, level: int, abortOnCritical: bool,
                        abortLevel: int): (o: Outcome)
    ensures o.Printed? <==> 0 <= domain < |domains| && !domains[domain].deleted && level <= domains[domain].level
    ensures o.Printed? ==> (o.aborts <==> abortOnCritical && level <= abortLevel)
    ensures o.UnknownDomain? <==> !(0 <= domain < |domains|)
    ensures o.UnknownDomain? ==> o.aborts == abortOnCritical
    ensures o.Dropped? ==> level > RegisteredLevel(domains, domain)
  {
    if domain < 0 || domain >= |domains| then UnknownDomain(abortOnCritical)
    else if domains[domain].deleted then DeletedDomain
    else if level > domains[domain].level then Dropped
    else Printed(abortOnCritical && level <= abortLevel)
  }

  // ---------------------------------------------------------- the registry

  /** The logging module's global state. */
  class Log {
    /** `_log_domains[0 .. _log_domains_count)`. */
    var domains: seq<Domain>
    /** `_log_domains_allocated`. */
    var capacity: nat
    /** `_pending_list`: levels set for domains not registered yet. */
    var pending: seq<LevelEntry>
    /** `_glob_list`: levels for the domains whose names match a pattern. */
    var globs: seq<LevelEntry>
    /** `_log_level`. */
    var globalLevel: int
    var abortOnCritical: bool
    var abortLevel: int
    var disableFile: bool
    var disableFunction: bool

    /** The table holds its slots within an allocation of 24 + 8k entries. */
    ghost predicate Valid()
      reads this
    {
      |domains| <= capacity && IsCapacity(capacity)
    }

    constructor (level: int, abortOnCritical: bool, abortLevel: int)
      ensures Valid()
      ensures domains == [] && capacity == 0 && pending == [] && globs == []
      ensures globalLevel == level
      ensures this.abortOnCritical == abortOnCritical && this.abortLevel == abortLevel
      ensures !disableFile && !disableFunction
    {
      domains, capacity, pending, globs := [], 0, [], [];
      globalLevel := level;
      this.abortOnCritical, this.abortLevel := abortOnCritical, abortLevel;
      disableFile, disableFunction := false, false;
    }

    /** The scan of the table for its lowest deleted slot. */
    method FreeSlotIndex() returns (i: nat)
      ensures i == FreeSlot(domains)
    {
      i := 0;
      while i < |domains| && !domains[i].deleted
        invariant i <= |domains| && FreeFrom(domains, i) == FreeSlot(domains)
      {
        i := i + 1;
      }
    }

    /** The scan of the table for the first live domain called `name`. */
    method LiveIndex(name: String) returns (i: nat)
      ensures i == LiveFrom(domains, name, 0)
    {
      i := 0;
      while i < |domains| && (domains[i].deleted || domains[i].name != name)
        invariant i <= |domains| && LiveFrom(domains, name, i) == LiveFrom(domains, name, 0)
      {
        i := i + 1;
      }
    }

    /** The scan of the pending list for its first entry called `name`. */
    method PendingIndex(name: String) returns (p: nat)
      ensures p == NamedFrom(pending, name, 0)
    {
      p := 0;
      while p < |pending| && pending[p].name != name
        invariant p <= |pending| && NamedFrom(pending, name, p) == NamedFrom(pending, name, 0)
      {
        p := p + 1;
      }
    }

    /** The scan of the glob list for its first pattern matching `name`. */
    method GlobIndex(name: String, glob: (String, String) -> bool) returns (g: nat)
      ensures g == MatchFrom(globs, name, glob, 0)
    {
      g := 0;
      while g < |globs| && !glob(globs[g].name, name)
        invariant g <= |globs| && MatchFrom(globs, name, glob, g) == MatchFrom(globs, name, glob, 0)
      {
        g := g + 1;
      }
    }

    /**
     * `eina_log_domain_register_unlocked`: takes the lowest deleted slot, or
     * appends, growing a full table (to 24 slots first, then by 8); returns
     * -1 when that growth fails. The new domain's level comes from the
     * pending list (whose entry is consumed), the globs or the global level.
     */
    method Register(name: String, glob: (String, String) -> bool, growOk: bool) returns (r: int)
      requires Valid()
      modifies this`domains, this`capacity, this`pending
      ensures Valid()
      ensures r == -1 <==> FreeSlot(old(domains)) == |old(domains)| == old(capacity) && !growOk
      ensures r == -1 ==> domains == old(domains) && capacity == old(capacity) && pending == old(pending)
      ensures r != -1 ==> r == FreeSlot(old(domains))
      ensures r != -1 ==> domains == Placed(old(domains), r, name, StartLevel(old(pending), globs, glob, globalLevel, name))
      ensures r != -1 ==> pending == Consumed(old(pending), name)
      ensures r != -1 ==> capacity == if r < old(capacity) then old(capacity) else Grown(old(capacity))
    {
      var i := FreeSlotIndex();
      if i == |domains| && |domains| >= capacity {
        if !growOk {
          return -1;
        }
        capacity := Grown(capacity);
      }
      var level := StartLevelOf(name, glob);
      pending := Consumed(pending, name);
      domains := Placed(domains, i, name, level);
      r := i;
    }

    /** The level lookup of a registration, before the pending entry is consumed. */
    method StartLevelOf(name: String, glob: (String, String) -> bool) returns (level: int)
      ensures level == StartLevel(pending, globs, glob, globalLevel, name)
    {
      var p := PendingIndex(name);
      level := LEVEL_UNKNOWN;
      if p < |pending| {
        level := pending[p].level;
      }
      if level == LEVEL_UNKNOWN {
        var g := GlobIndex(name, glob);
        if g < |globs| {
          level := globs[g].level;
        }
      }
      if level == LEVEL_UNKNOWN {
        level := globalLevel;
      }
    }

    /** `eina_log_domain_unregister_unlocked`: marks the slot deleted; an index out of the table is ignored. */
    method Unregister(domain: int)
      modifies this`domains
      ensures domains == Unregistered(old(domains), domain)
    {
      if domain < 0 || domain >= |domains| {
        return;
      }
      domains := domains[domain := domains[domain].(deleted := true)];
    }

    /** `eina_log_domain_level_set`: a live domain, else a pending entry, else a new pending entry. */
    method LevelSet(name: String, level: int, allocOk: bool)
      modifies this`domains, this`pending
      ensures domains == SetDomains(old(domains), name, level)
      ensures pending == SetPending(old(domains), old(pending), name, level, allocOk)
    {
      var i := LiveIndex(name);
      if i < |domains| {
        domains := domains[i := domains[i].(level := level)];
        return;
      }
      var p := PendingIndex(name);
      if p < |pending| {
        pending := pending[p := pending[p].(level := level)];
      } else if allocOk {
        pending := pending + [LevelEntry(name, level)];
      }
    }

    /** `eina_log_domain_level_get`: registered, then pending, then glob, then global. */
    method LevelGet(name: String, glob: (String, String) -> bool) returns (r: int)
      ensures r == LevelOf(domains, pending, globs, glob, globalLevel, name)
    {
      var i := LiveIndex(name);
      if i < |domains| {
        return domains[i].level;
      }
      var p := PendingIndex(name);
      if p < |pending| {
        return pending[p].level;
      }
      var g := GlobIndex(name, glob);
      if g < |globs| {
        return globs[g].level;
      }
      return globalLevel;
    }

    /** `eina_log_domain_parse_pendings`: appends the entries of `EINA_LOG_LEVELS`. */
    method ParsePendings(env: Option<String>, failing: set<nat>)
      modifies this`pending
      ensures env.None? ==> pending == old(pending)
      ensures env.Some? ==> pending == old(pending) + ParseFrom(env.value, 0, 0, failing)
    {
      var entries := ParseLevels(env, failing);
      pending := pending + entries;
    }

    /** `eina_log_domain_parse_pending_globs`: appends the entries of `EINA_LOG_LEVELS_GLOB`. */
    method ParseGlobs(env: Option<String>, failing: set<nat>)
      modifies this`globs
      ensures env.None? ==> globs == old(globs)
      ensures env.Some? ==> globs == old(globs) + ParseFrom(env.value, 0, 0, failing)
    {
      var entries := ParseLevels(env, failing);
      globs := globs + entries;
    }

    /** `eina_log_print_prefix_update`: file and function output cannot both be off; the file flag yields. */
    method PrefixUpdate()
      modifies this`disableFile
      ensures !(disableFile && disableFunction)
      ensures disableFile == (old(disableFile) && !disableFunction)
    {
      if disableFile && disableFunction {
        disableFile := false;
      }
    }
  }

  // -------------------------------------------------------------- lemmas

  /** Changing only levels keeps every name lookup in the table where it was. */
  lemma {:induction false} LiveSameNames(domains: seq<Domain>, nd: seq<Domain>, name: String, i: nat)
    requires |nd| == |domains| && i <= |domains|
    requires forall j :: 0 <= j < |domains| ==> nd[j].name == domains[j].name && nd[j].deleted == domains[j].deleted
    ensures LiveFrom(nd, name, i) == LiveFrom(domains, name, i)
    decreases |domains| - i
  {
    if i < |domains| {
      LiveSameNames(domains, nd, name, i + 1);
    }
  }

  /** Changing only levels keeps every name lookup in a level list where it was. */
  lemma {:induction false} NamedSameNames(entries: seq<LevelEntry>, ne: seq<LevelEntry>, name: String, i: nat)
    requires |ne| == |entries| && i <= |entries|
    requires forall j :: 0 <= j < |entries| ==> ne[j].name == entries[j].name
    ensures NamedFrom(ne, name, i) == NamedFrom(entries, name, i)
    decreases |entries| - i
  {
    if i < |entries| {
      NamedSameNames(entries, ne, name, i + 1);
    }
  }

  /** Where the first entry called `name` is once an entry has been appended. */
  lemma {:induction false} NamedAppend(entries: seq<LevelEntry>, e: LevelEntry, name: String, i: nat)
    requires i <= |entries|
    ensures NamedFrom(entries + [e], name, i)
         == if NamedFrom(entries, name, i) < |entries| then NamedFrom(entries, name, i)
            else if e.name == name then |entries| else |entries| + 1
    decreases |entries| - i
  {
    var ne := entries + [e];
    if i < |entries| {
      assert ne[i] == entries[i];
      NamedAppend(entries, e, name, i + 1);
    } else {
      assert ne[i] == e;
    }
  }

  /** Setting a level and reading it back gives that level (when the pending entry could be made). */
  lemma SetThenGet(domains: seq<Domain>, pending: seq<LevelEntry>, globs: seq<LevelEntry>,
                   glob: (String, String) -> bool, global: int, name: String, level: int)
    ensures LevelOf(SetDomains(domains, name, level), SetPending(domains, pending, name, level, true),
                    globs, glob, global, name) == level
  {
    var nd := SetDomains(domains, name, level);
    LiveSameNames(domains, nd, name, 0);
    var i := LiveFrom(domains, name, 0);
    if i == |domains| {
      var p := NamedFrom(pending, name, 0);
      if p < |pending| {
        var np := pending[p := pending[p].(level := level)];
        NamedSameNames(pending, np, name, 0);
      } else {
        NamedAppend(pending, LevelEntry(name, level), name, 0);
      }
    }
  }

  /** Setting the level of one name leaves the level read for every other name as it was. */
  lemma SetLeavesOthers(domains: seq<Domain>, pending: seq<LevelEntry>, globs: seq<LevelEntry>,
                        glob: (String, String) -> bool, global: int, name: String, level: int,
                        allocOk: bool, other: String)
    requires other != name
    ensures LevelOf(SetDomains(domains, name, level), SetPending(domains, pending, name, level, allocOk),
                    globs, glob, global, other)
         == LevelOf(domains, pending, globs, glob, global, other)
  {
    var nd := SetDomains(domains, name, level);
    LiveSameNames(domains, nd, other, 0);
    var i := LiveFrom(domains, name, 0);
    if i == |domains| {
      var p := NamedFrom(pending, name, 0);
      if p < |pending| {
        var np := pending[p := pending[p].(level := level)];
        NamedSameNames(pending, np, other, 0);
      } else if allocOk {
        NamedAppend(pending, LevelEntry(name, level), other, 0);
      }
    }
  }

  /**
   * A level set for a name no live domain has is kept pending, and the
   * domain registered under that name later starts with it.
   */
  lemma SetThenRegister(domains: seq<Domain>, pending: seq<LevelEntry>, globs: seq<LevelEntry>,
                        glob: (String, String) -> bool, global: int, name: String, level: int)
    requires LiveFrom(domains, name, 0) == |domains|
    requires level != LEVEL_UNKNOWN
    ensures StartLevel(SetPending(domains, pending, name, level, true), globs, glob, global, name) == level
  {
    var p := NamedFrom(pending, name, 0);
    if p < |pending| {
      var np := pending[p := pending[p].(level := level)];
      NamedSameNames(pending, np, name, 0);
    } else {
      NamedAppend(pending, LevelEntry(name, level), name, 0);
    }
  }

  /**
   * Once a name no live domain had is registered, reading its level by name
   * and by index both give the level it was registered with.
   */
  lemma RegisterThenGet(domains: seq<Domain>, pending: seq<LevelEntry>, globs: seq<LevelEntry>,
                        glob: (String, String) -> bool, global: int, name: String, level: int)
    requires LiveFrom(domains, name, 0) == |domains|
    ensures LiveFrom(Placed(domains, FreeSlot(domains), name, level), name, 0) == FreeSlot(domains)
    ensures LevelOf(Placed(domains, FreeSlot(domains), name, level), pending, globs, glob, global, name) == level
    ensures RegisteredLevel(Placed(domains, FreeSlot(domains), name, level), FreeSlot(domains)) == level
  {
    var r := FreeSlot(domains);
    var nd := Placed(domains, r, name, level);
    var i := LiveFrom(nd, name, 0);
    if i != r {
      assert false;
    }
  }

  /** A slot freed in a table with no other free slot is the one the next registration takes. */
  lemma UnregisterThenReuse(domains: seq<Domain>, d: nat)
    requires d < |domains|
    requires forall j :: 0 <= j < |domains| ==> !domains[j].deleted
    ensures FreeSlot(Unregistered(domains, d)) == d
  {
    var nd := Unregistered(domains, d);
    assert nd[d].deleted;
  }

  /** The test scenario: a level set twice, then the domain registered, reads the last level both ways. */
  lemma SetSetRegister(domains: seq<Domain>, pending: seq<LevelEntry>, globs: seq<LevelEntry>,
                       glob: (String, String) -> bool, global: int, name: String)
    requires LiveFrom(domains, name, 0) == |domains|
    ensures var p1 := SetPending(domains, pending, name, -123, true);
            var p2 := SetPending(domains, p1, name, 890, true);
            var nd := Placed(domains, FreeSlot(domains), name, StartLevel(p2, globs, glob, global, name));
            LevelOf(domains, p1, globs, glob, global, name) == -123
            && LevelOf(nd, Consumed(p2, name), globs, glob, global, name) == 890
            && RegisteredLevel(nd, FreeSlot(domains)) == 890
  {
    var p1 := SetPending(domains, pending, name, -123, true);
    SetThenGet(domains, pending, globs, glob, global, name, -123);
    assert SetDomains(domains, name, -123) == domains;
    SetThenRegister(domains, p1, globs, glob, global, name, 890);
    var p2 := SetPending(domains, p1, name, 890, true);
    RegisterThenGet(domains, Consumed(p2, name), globs, glob, global, name, 890);
  }
}
