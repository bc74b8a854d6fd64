/**
 * The event table of a model description (eina_model.c,
 * `_eina_model_description_events_fill`, `_eina_model_description_events_find`
 * and `_eina_model_description_event_id_find`): the events of the types
 * of the chain, then of the interfaces, with later duplicates of a name
 * dropped, sorted by name for binary search.
 */
module ModelEvents {
  import opened Wrappers
  import opened ModelTypes
  import opened ModelIfacesFix
  import opened ModelDesc

  /** `strcmp(a, b) < 0`: `a` sorts before `b`, byte by byte, a prefix first. */
  function NameLess(a: String, b: String): bool
    decreases |a|
  {
    if |a| == 0 then |b| > 0
    else if |b| == 0 then false
    else if a[0] != b[0] then a[0] < b[0]
    else NameLess(a[1..], b[1..])
  }

  lemma {:induction false} NameLessIrreflexive(a: String)
    ensures !NameLess(a, a)
    decreases |a|
  {
    if |a| > 0 {
      NameLessIrreflexive(a[1..]);
    }
  }

  lemma {:induction false} NameLessTransitive(a: String, b: String, c: String)
    requires NameLess(a, b) && NameLess(b, c)
    ensures NameLess(a, c)
    decreases |a|
  {
    if |a| > 0 && a[0] == b[0] && b[0] == c[0] {
      NameLessTransitive(a[1..], b[1..], c[1..]);
    }
  }

  lemma NameLessAsymmetric(a: String, b: String)
    ensures !(NameLess(a, b) && NameLess(b, a))
    ensures !NameLess(a, a)
  {
    NameLessIrreflexive(a);
    if NameLess(a, b) && NameLess(b, a) {
      NameLessTransitive(a, b, a);
    }
  }

  /** Two different names are ordered one way or the other. */
  lemma {:induction false} NameLessTotal(a: String, b: String)
    ensures a == b || NameLess(a, b) || NameLess(b, a)
    decreases |a|
  {
    if |a| > 0 && |b| > 0 && a[0] == b[0] {
      NameLessTotal(a[1..], b[1..]);
      if a[1..] == b[1..] {
        assert a == [a[0]] + a[1..] && b == [b[0]] + b[1..];
      }
    }
  }

  /** `strcmp` reduced to its sign. */
  function StrCmp(a: String, b: String): (r: int)
    ensures r < 0 <==> NameLess(a, b)
    ensures r == 0 <==> a == b
    ensures r > 0 <==> NameLess(b, a)
  {
    NameLessTotal(a, b);
    NameLessAsymmetric(a, b);
    if a == b then 0 else if NameLess(a, b) then -1 else 1
  }

  /** One event of the chain, with the type or interface that declares it. */
  datatype Entry = Entry(ev: Event, provider: Provider)

  /** The events of one declaration, tagged with it. */
  function Tag(events: seq<Event>, p: Provider): (r: seq<Entry>)
    ensures |r| == |events| && forall k :: 0 <= k < |r| ==> r[k] == Entry(events[k], p)
  {
    seq(|events|, k requires 0 <= k < |events| => Entry(events[k], p))
  }

  /** The events of the types of the chain, in chain order. */
  function TypeEntries(reg: Registry, types: seq<nat>): (r: seq<Entry>)
    requires KnownTypes(reg, types)
    ensures forall k :: 0 <= k < |r| ==>
              r[k].provider.OfType? && r[k].provider.t in types && r[k].ev in reg.types[r[k].provider.t].events
    decreases |types|
  {
    if types == [] then []
    else TypeEntries(reg, types[..|types| - 1]) + Tag(reg.types[types[|types| - 1]].events, OfType(types[|types| - 1]))
  }

  /** The events of the interfaces, in description order. */
  function IfaceEntries(reg: Registry, ifaces: seq<nat>): (r: seq<Entry>)
    requires Known(reg, ifaces)
    ensures forall k :: 0 <= k < |r| ==>
              r[k].provider.OfIface? && r[k].provider.i in ifaces && r[k].ev in reg.ifaces[r[k].provider.i].events
    decreases |ifaces|
  {
    if ifaces == [] then []
    else IfaceEntries(reg, ifaces[..|ifaces| - 1]) + Tag(reg.ifaces[ifaces[|ifaces| - 1]].events, OfIface(ifaces[|ifaces| - 1]))
  }

  /** The names in a list of entries. */
  function Names(s: seq<Entry>): (r: seq<String>)
    ensures |r| == |s| && forall k :: 0 <= k < |s| ==> r[k] == s[k].ev.name
  {
    seq(|s|, k requires 0 <= k < |s| => s[k].ev.name)
  }

  /** The entries with a name not seen before, in order: the deduplicating pass of `events_fill`. */
  function Keep(s: seq<Entry>): (r: seq<Entry>)
    ensures |r| <= |s|
    decreases |s|
  {
    if s == [] then []
    else
      var kept := Keep(s[..|s| - 1]);
      if s[|s| - 1].ev.name in Names(kept) then kept else kept + [s[|s| - 1]]
  }

  /** The position of the first entry named `name`. */
  function First(s: seq<Entry>, name: String): (k: nat)
    requires name in Names(s)
    ensures k < |s| && s[k].ev.name == name && forall m :: 0 <= m < k ==> s[m].ev.name != name
  {
    if s[0].ev.name == name then 0
    else
      assert name in Names(s[1..]) by {
        var k :| 0 <= k < |s| && Names(s)[k] == name;
        assert Names(s[1..])[k - 1] == name;
      }
      1 + First(s[1..], name)
  }

  /** Names are unique. */
  predicate DistinctNames(s: seq<Entry>)
  {
    forall i, j :: 0 <= i < j < |s| ==> s[i].ev.name != s[j].ev.name
  }

  /** The kept entries have distinct names. */
  lemma {:induction false} KeepDistinct(s: seq<Entry>)
    ensures DistinctNames(Keep(s))
    decreases |s|
  {
    if s != [] {
      var kept := Keep(s[..|s| - 1]);
      KeepDistinct(s[..|s| - 1]);
      var e := s[|s| - 1];
      if e.ev.name !in Names(kept) {
        assert forall i :: 0 <= i < |kept| ==> kept[i].ev.name != e.ev.name by {
          assert forall i :: 0 <= i < |kept| ==> Names(kept)[i] == kept[i].ev.name;
        }
      }
    }
  }

  /** Every name of the input is kept, and nothing else. */
  lemma {:induction false} KeepCovers(s: seq<Entry>)
    ensures forall name :: name in Names(Keep(s)) <==> name in Names(s)
    decreases |s|
  {
    if s != [] {
      var init := s[..|s| - 1];
      KeepCovers(init);
      assert Names(s) == Names(init) + [s[|s| - 1].ev.name];
      var kept := Keep(init);
      if s[|s| - 1].ev.name !in Names(kept) {
        assert Names(kept + [s[|s| - 1]]) == Names(kept) + [s[|s| - 1].ev.name];
      }
    }
  }

  /** Each kept entry is the first entry with its name. */
  lemma {:induction false} KeepFirst(s: seq<Entry>)
    ensures forall c :: c in Keep(s) ==> c.ev.name in Names(s) && c == s[First(s, c.ev.name)]
    decreases |s|
  {
    if s != [] {
      var init := s[..|s| - 1];
      var e := s[|s| - 1];
      KeepFirst(init);
      KeepCovers(init);
      var kept := Keep(init);
      forall c | c in kept
        ensures c.ev.name in Names(s) && c == s[First(s, c.ev.name)]
      {
        FirstOfPrefix(s, init, c.ev.name);
      }
      if e.ev.name !in Names(kept) {
        assert e.ev.name !in Names(init);
        assert Names(s)[|s| - 1] == e.ev.name;
        FirstIsLast(s);
      }
    }
  }

  /** A name that only the last entry has is first found there. */
  lemma FirstIsLast(s: seq<Entry>)
    requires s != [] && s[|s| - 1].ev.name !in Names(s[..|s| - 1])
    ensures s[|s| - 1].ev.name in Names(s) && First(s, s[|s| - 1].ev.name) == |s| - 1
  {
    var name := s[|s| - 1].ev.name;
    assert Names(s)[|s| - 1] == name;
    var pre := s[..|s| - 1];
    forall k | 0 <= k < |pre|
      ensures s[k].ev.name != name
    {
      assert Names(pre)[k] == pre[k].ev.name;
      assert s[k] == pre[k];
    }
    var m := First(s, name);
    assert s[m].ev.name == name;
  }

  /** The first entry with a name found in a prefix is the prefix's first one. */
  lemma FirstOfPrefix(s: seq<Entry>, init: seq<Entry>, name: String)
    requires |init| <= |s| && forall k :: 0 <= k < |init| ==> s[k] == init[k]
    requires name in Names(init)
    ensures name in Names(s) && First(s, name) == First(init, name)
  {
    var k := First(init, name);
    assert Names(s)[k] == name;
    var m := First(s, name);
    assert s[k] == init[k];
    assert m <= k;
    assert s[m] == init[m];
  }

  /** The order `qsort` leaves the table in; names are unique, so it is strict. */
  predicate SortedByName(s: seq<Entry>)
  {
    forall i, j :: 0 <= i < j < |s| ==> NameLess(s[i].ev.name, s[j].ev.name)
  }

  /** Inserts `e` before the first entry that sorts after it. */
  function Insert(e: Entry, s: seq<Entry>): (r: seq<Entry>)
    ensures multiset(r) == multiset(s) + multiset{e}
    decreases |s|
  {
    if s == [] then [e]
    else
      assert s == [s[0]] + s[1..];
      if NameLess(s[0].ev.name, e.ev.name) then [s[0]] + Insert(e, s[1..])
      else [e] + s
  }

  /** The `qsort` call of `events_fill`, as an insertion sort on names. */
  function SortEntries(s: seq<Entry>): (r: seq<Entry>)
    ensures multiset(r) == multiset(s)
    decreases |s|
  {
    if s == [] then []
    else
      assert s == [s[0]] + s[1..];
      Insert(s[0], SortEntries(s[1..]))
  }

  /** Inserting an entry with a new name into a sorted table keeps it sorted. */
  lemma {:induction false} InsertSorted(e: Entry, s: seq<Entry>)
    requires SortedByName(s) && forall x :: x in s ==> x.ev.name != e.ev.name
    ensures SortedByName(Insert(e, s))
    decreases |s|
  {
    if s != [] {
      NameLessTotal(e.ev.name, s[0].ev.name);
      if NameLess(s[0].ev.name, e.ev.name) {
        InsertSorted(e, s[1..]);
        var r := Insert(e, s[1..]);
        forall x | x in r
          ensures NameLess(s[0].ev.name, x.ev.name)
        {
          assert x in multiset(r);
          if x != e {
            assert x in s[1..];
          }
        }
      } else {
        forall j | 0 < j < |s|
          ensures NameLess(e.ev.name, s[j].ev.name)
        {
          NameLessTransitive(e.ev.name, s[0].ev.name, s[j].ev.name);
        }
      }
    }
  }

  /** Sorting entries with unique names gives a strictly increasing table. */
  lemma {:induction false} SortEntriesSorted(s: seq<Entry>)
    requires DistinctNames(s)
    ensures SortedByName(SortEntries(s))
    decreases |s|
  {
    if s != [] {
      SortEntriesSorted(s[1..]);
      var rest := SortEntries(s[1..]);
      forall x | x in rest
        ensures x.ev.name != s[0].ev.name
      {
        assert x in multiset(rest);
        var k :| 0 <= k < |s[1..]| && s[1..][k] == x;
        assert s[k + 1] == x;
      }
      InsertSorted(s[0], rest);
    }
  }

  /** `_eina_model_description_events_find`: the first entry named `name`, or -1. */
  method EventsFind(table: seq<Entry>, name: String) returns (j: int)
    ensures -1 <= j < |table|
    ensures j == -1 <==> name !in Names(table)
    ensures j >= 0 ==> table[j].ev.name == name && forall k :: 0 <= k < j ==> table[k].ev.name != name
  {
    var i := 0;
    while i < |table|
      invariant i <= |table| && forall k :: 0 <= k < i ==> table[k].ev.name != name
    {
      if table[i].ev.name == name {
        return i;
      }
      i := i + 1;
    }
    return -1;
  }

  /** The deduplicating loop over the events of one declaration. */
  method KeepEach(table0: seq<Entry>, ghost prefix: seq<Entry>, events: seq<Event>, p: Provider) returns (table: seq<Entry>)
    requires table0 == Keep(prefix)
    ensures table == Keep(prefix + Tag(events, p))
  {
    table := table0;
    var i := 0;
    assert prefix + Tag(events[..0], p) == prefix;
    while i < |events|
      invariant i <= |events| && table == Keep(prefix + Tag(events[..i], p))
    {
      ghost var cur := prefix + Tag(events[..i], p);
      ghost var next := prefix + Tag(events[..i + 1], p);
      assert next == cur + [Entry(events[i], p)];
      assert next[..|next| - 1] == cur;
      var j := EventsFind(table, events[i].name);
      if j < 0 {
        table := table + [Entry(events[i], p)];
      }
      i := i + 1;
    }
    assert events[..i] == events;
  }

  /** Every event of the chain, the types' first. */
  function AllEntries(reg: Registry, types: seq<nat>, ifaces: seq<nat>): (r: seq<Entry>)
    requires KnownTypes(reg, types) && Known(reg, ifaces)
    ensures forall k :: 0 <= k < |r| ==>
              if r[k].provider.OfType? then r[k].provider.t in types else r[k].provider.i in ifaces
    ensures forall j, k :: 0 <= j < k < |r| && r[k].provider.OfType? ==> r[j].provider.OfType?
  {
    TypeEntries(reg, types) + IfaceEntries(reg, ifaces)
  }

  /** The counting loops of `events_fill`: the length of every event table of the chain. */
  method CountEvents(reg: Registry, types: seq<nat>, ifaces: seq<nat>) returns (count: nat)
    requires KnownTypes(reg, types) && Known(reg, ifaces)
    ensures count == |AllEntries(reg, types, ifaces)|
  {
    count := 0;
    var i := 0;
    while i < |types|
      invariant i <= |types| && count == |TypeEntries(reg, types[..i])|
    {
      assert types[..i + 1][..i] == types[..i];
      count := count + |reg.types[types[i]].events|;
      i := i + 1;
    }
    assert types[..i] == types;
    i := 0;
    while i < |ifaces|
      invariant i <= |ifaces| && count == |TypeEntries(reg, types)| + |IfaceEntries(reg, ifaces[..i])|
    {
      assert ifaces[..i + 1][..i] == ifaces[..i];
      count := count + |reg.ifaces[ifaces[i]].events|;
      i := i + 1;
    }
    assert ifaces[..i] == ifaces;
  }

  /**
   * `_eina_model_description_events_fill`: the events of the chain with
   * later duplicates of a name dropped, sorted by name.  `allocOk` says
   * whether the table can be allocated.
   */
  method EventsFill(reg: Registry, types: seq<nat>, ifaces: seq<nat>, allocOk: bool) returns (r: Option<seq<Entry>>)
    requires KnownTypes(reg, types) && Known(reg, ifaces)
    ensures r.Some? <==> AllEntries(reg, types, ifaces) == [] || allocOk
    ensures r.Some? ==> multiset(r.value) == multiset(Keep(AllEntries(reg, types, ifaces)))
    ensures r.Some? ==> SortedByName(r.value)
  {
    var count := CountEvents(reg, types, ifaces);
    if count == 0 {
      return Some([]);
    }
    if !allocOk {
      return None;
    }
    var table := KeepTypes(reg, types);
    table := KeepIfaces(reg, types, ifaces, table);
    KeepDistinct(AllEntries(reg, types, ifaces));
    SortEntriesSorted(table);
    r := Some(SortEntries(table));
  }

  /** The deduplicating loop over the types of the chain. */
  method KeepTypes(reg: Registry, types: seq<nat>) returns (table: seq<Entry>)
    requires KnownTypes(reg, types)
    ensures table == Keep(TypeEntries(reg, types))
  {
    table := [];
    var i := 0;
    while i < |types|
      invariant i <= |types| && table == Keep(TypeEntries(reg, types[..i]))
    {
      assert types[..i + 1][..i] == types[..i];
      table := KeepEach(table, TypeEntries(reg, types[..i]), reg.types[types[i]].events, OfType(types[i]));
      i := i + 1;
    }
    assert types[..i] == types;
  }

  /** The deduplicating loop over the interfaces, after the types. */
  method KeepIfaces(reg: Registry, types: seq<nat>, ifaces: seq<nat>, table0: seq<Entry>) returns (table: seq<Entry>)
    requires KnownTypes(reg, types) && Known(reg, ifaces)
    requires table0 == Keep(TypeEntries(reg, types))
    ensures table == Keep(AllEntries(reg, types, ifaces))
  {
    table := table0;
    var i := 0;
    assert TypeEntries(reg, types) + IfaceEntries(reg, ifaces[..0]) == TypeEntries(reg, types);
    while i < |ifaces|
      invariant i <= |ifaces| && table == Keep(TypeEntries(reg, types) + IfaceEntries(reg, ifaces[..i]))
    {
      ghost var before := TypeEntries(reg, types) + IfaceEntries(reg, ifaces[..i]);
      IfaceEntriesSnoc(reg, types, ifaces, i);
      table := KeepEach(table, before, reg.ifaces[ifaces[i]].events, OfIface(ifaces[i]));
      i := i + 1;
    }
    assert ifaces[..i] == ifaces;
  }

  /** The entries seen once interface `i` is through: those before it, then its own events. */
  lemma IfaceEntriesSnoc(reg: Registry, types: seq<nat>, ifaces: seq<nat>, i: nat)
    requires KnownTypes(reg, types) && Known(reg, ifaces) && i < |ifaces|
    ensures TypeEntries(reg, types) + IfaceEntries(reg, ifaces[..i + 1])
         == TypeEntries(reg, types) + IfaceEntries(reg, ifaces[..i]) + Tag(reg.ifaces[ifaces[i]].events, OfIface(ifaces[i]))
  {
    assert ifaces[..i + 1][..i] == ifaces[..i];
  }

  /** The events of the types are all provided by types. */
  lemma {:induction false} TypeEntriesFromTypes(reg: Registry, types: seq<nat>)
    requires KnownTypes(reg, types)
    ensures forall e :: e in TypeEntries(reg, types) ==> e.provider.OfType?
    decreases |types|
  {
    if types != [] {
      TypeEntriesFromTypes(reg, types[..|types| - 1]);
    }
  }

  /** A permutation of the kept entries has exactly the names of the chain's events. */
  lemma EventTableNames(reg: Registry, types: seq<nat>, ifaces: seq<nat>, table: seq<Entry>)
    requires KnownTypes(reg, types) && Known(reg, ifaces)
    requires multiset(table) == multiset(Keep(AllEntries(reg, types, ifaces)))
    ensures forall name :: name in Names(table) <==> name in Names(AllEntries(reg, types, ifaces))
  {
    var kept := Keep(AllEntries(reg, types, ifaces));
    KeepCovers(AllEntries(reg, types, ifaces));
    forall name
      ensures name in Names(table) <==> name in Names(kept)
    {
      if name in Names(kept) {
        var k :| 0 <= k < |kept| && Names(kept)[k] == name;
        assert kept[k] in multiset(table);
        var m :| 0 <= m < |table| && table[m] == kept[k];
        assert Names(table)[m] == name;
      }
      if name in Names(table) {
        var m :| 0 <= m < |table| && Names(table)[m] == name;
        assert table[m] in multiset(kept);
        var k :| 0 <= k < |kept| && kept[k] == table[m];
        assert Names(kept)[k] == name;
      }
    }
  }

  /** Each entry of the table is the first declaration of its name on the chain. */
  lemma EventTableFirst(reg: Registry, types: seq<nat>, ifaces: seq<nat>, table: seq<Entry>)
    requires KnownTypes(reg, types) && Known(reg, ifaces)
    requires multiset(table) == multiset(Keep(AllEntries(reg, types, ifaces)))
    ensures forall c :: c in table ==>
              c.ev.name in Names(AllEntries(reg, types, ifaces)) &&
              c == AllEntries(reg, types, ifaces)[First(AllEntries(reg, types, ifaces), c.ev.name)]
  {
    KeepFirst(AllEntries(reg, types, ifaces));
    forall c | c in table
      ensures c in Keep(AllEntries(reg, types, ifaces))
    {
      assert c in multiset(table);
    }
  }

  /** An event name a type declares is provided in the table by a type, never by an interface. */
  lemma TypesWin(reg: Registry, types: seq<nat>, ifaces: seq<nat>, table: seq<Entry>)
    requires KnownTypes(reg, types) && Known(reg, ifaces)
    requires multiset(table) == multiset(Keep(AllEntries(reg, types, ifaces)))
    ensures forall c :: c in table && c.ev.name in Names(TypeEntries(reg, types)) ==> c.provider.OfType?
  {
    var all := AllEntries(reg, types, ifaces);
    var tes := TypeEntries(reg, types);
    EventTableFirst(reg, types, ifaces, table);
    TypeEntriesFromTypes(reg, types);
    assert forall k :: 0 <= k < |tes| ==> all[k] == tes[k];
    forall c | c in table && c.ev.name in Names(tes)
      ensures c.provider.OfType?
    {
      FirstOfPrefix(all, tes, c.ev.name);
      assert tes[First(tes, c.ev.name)] in tes;
    }
  }

  /**
   * `_eina_model_description_event_id_find`: the position of the event
   * named `name` in the sorted table, found by binary search, or -1.
   */
  method EventIdFind(table: seq<Entry>, name: String) returns (r: int)
    requires SortedByName(table)
    ensures -1 <= r < |table|
    ensures r == -1 <==> name !in Names(table)
    ensures r >= 0 ==> table[r].ev.name == name
  {
    var lo, hi := 0, |table|;
    while lo < hi
      invariant 0 <= lo <= hi <= |table|
      invariant forall k :: 0 <= k < lo || hi <= k < |table| ==> table[k].ev.name != name
    {
      var mid := lo + (hi - lo) / 2;
      var c := StrCmp(name, table[mid].ev.name);
      if c < 0 {
        forall k | mid <= k < |table|
          ensures table[k].ev.name != name
        {
          NameLessIrreflexive(name);
          if k > mid {
            NameLessTransitive(name, table[mid].ev.name, table[k].ev.name);
          }
        }
        hi := mid;
      } else if c > 0 {
        forall k | 0 <= k <= mid
          ensures table[k].ev.name != name
        {
          NameLessIrreflexive(name);
          if k < mid {
            NameLessTransitive(table[k].ev.name, table[mid].ev.name, name);
          }
        }
        lo := mid + 1;
      } else {
        return mid;
      }
    }
    return -1;
  }
}
