/**
 * The process-wide cache of open files and, per file, the table of mapped
 * windows with their reference counts.
 *
 * Addresses are natural numbers. `mmap`, `open`, `fcntl`, `fstat` and
 * `malloc` are not called: their outcomes are parameters (`None` for
 * `MAP_FAILED` or a failed call). The mutexes are left out.
 */
module FileCache {
  import opened Wrappers
  import FilePath
  import FileLines

  /** 2^64: `unsigned long` arithmetic wraps modulo this. */
  const ULONG_RANGE: nat := 0x1_0000_0000_0000_0000

  /** The fields of `struct stat` the cache records. */
  datatype Stat = Stat(size: nat, mtime: int, inode: nat, mtimeNsec: nat)

  /** `_eina_file_timestamp_compare`: mtime, size, inode and nanoseconds are checked in turn. */
  function TimestampCompare(recorded: Stat, st: Stat): (same: bool)
    ensures same <==> recorded == st
  {
    if recorded.mtime != st.mtime then false
    else if recorded.size != st.size then false
    else if recorded.inode != st.inode then false
    else if recorded.mtimeNsec != st.mtimeNsec then false
    else true
  }

  /** A window of the file: the key of the forward table. */
  datatype Key = Key(offset: nat, length: nat)

  /** The C conversion of an unsigned value to `int`: its low 32 bits, two's complement. */
  function ToInt32(x: int): (r: int)
    ensures -0x8000_0000 <= r < 0x8000_0000
    ensures (r - x) % 0x1_0000_0000 == 0
  {
    var low := x % 0x1_0000_0000;
    if low < 0x8000_0000 then low else low - 0x1_0000_0000
  }

  /**
   * `_eina_file_map_key_cmp` as written: the differences are taken in
   * `unsigned long` and returned as `int`.
   */
  function KeyCmpAsWritten(k1: Key, k2: Key): int
  {
    var d0 := (k1.offset - k2.offset) % ULONG_RANGE;
    if d0 == 0 then ToInt32((k1.length - k2.length) % ULONG_RANGE) else ToInt32(d0)
  }

  /** Two windows 4 GiB apart with the same length compare equal as written. */
  lemma KeyCmpAsWrittenCollides()
    ensures KeyCmpAsWritten(Key(0, 4096), Key(0x1_0000_0000, 4096)) == 0
  {
    assert (0 - 0x1_0000_0000) % ULONG_RANGE == 0xFFFF_FFFF_0000_0000;
    assert 0xFFFF_FFFF_0000_0000 % 0x1_0000_0000 == 0;
  }

  /** The intended comparison: lexicographic on (offset, length). */
  function KeyCmp(k1: Key, k2: Key): (r: int)
    ensures r == 0 <==> k1 == k2
    ensures r < 0 <==> k1.offset < k2.offset || (k1.offset == k2.offset && k1.length < k2.length)
  {
    if k1.offset != k2.offset then (if k1.offset < k2.offset then -1 else 1)
    else if k1.length != k2.length then (if k1.length < k2.length then -1 else 1)
    else 0
  }

  /** The comparison is antisymmetric, so it orders the forward table. */
  lemma KeyCmpAntisymmetric(k1: Key, k2: Key)
    ensures KeyCmp(k1, k2) == -KeyCmp(k2, k1)
  {
  }

  /** The range check of `eina_file_map_new` as written: the end is computed in `unsigned long`. */
  predicate OutOfRangeAsWritten(offset: nat, length: nat, size: nat)
  {
    offset > size || (offset + length) % ULONG_RANGE > size
  }

  /** The intended range check: the window must end within the file. */
  predicate OutOfRange(offset: nat, length: nat, size: nat)
  {
    offset > size || offset + length > size
  }

  /** As written, a window whose end wraps past 2^64 passes the check. */
  lemma OutOfRangeAsWrittenWraps()
    ensures !OutOfRangeAsWritten(1, ULONG_RANGE - 1, 10)
    ensures OutOfRange(1, ULONG_RANGE - 1, 10)
  {
  }

  /** A window the check accepts lies inside the file. */
  lemma AcceptedWindowInFile(offset: nat, length: nat, size: nat)
    requires !OutOfRange(offset, length, size)
    ensures offset <= size && length <= size - offset
  {
  }

  /** One mapped window (`Eina_File_Map`): its address, count and fault flag. */
  datatype Region = Region(addr: nat, refcount: int, faulty: bool)

  /** The forward table (`file->map`, by key) and the reverse table (`file->rmap`, by address). */
  datatype Windows = Windows(byKey: map<Key, Region>, byAddr: map<nat, Key>)

  /** A window of a file of `size` bytes that `map_new` maps on its own (not the whole file). */
  predicate PartialWindow(k: Key, size: nat)
  {
    !OutOfRange(k.offset, k.length, size) && !(k.offset == 0 && k.length == size)
  }

  /** The two tables describe the same live windows. */
  ghost predicate WindowsValid(w: Windows, size: nat)
  {
    && (forall k :: k in w.byKey ==>
          && w.byKey[k].refcount > 0
          && PartialWindow(k, size)
          && w.byKey[k].addr in w.byAddr
          && w.byAddr[w.byKey[k].addr] == k)
    && (forall a :: a in w.byAddr ==> w.byAddr[a] in w.byKey && w.byKey[w.byAddr[a]].addr == a)
  }

  /**
   * The bookkeeping of `eina_file_map_new` once the window is accepted:
   * an existing window gains a reference; otherwise the window mapped at
   * `addr` enters both tables with one reference. The new record comes
   * from `malloc` and its `faulty` bit is never set, so it starts with
   * whatever `flag` the memory held.
   */
  function Acquire(w: Windows, key: Key, addr: nat, flag: bool): (r: Windows)
    ensures key in r.byKey
    ensures key in w.byKey ==> r.byKey[key] == w.byKey[key].(refcount := w.byKey[key].refcount + 1) && r.byAddr == w.byAddr
    ensures key !in w.byKey ==> r.byKey[key] == Region(addr, 1, flag) && r.byAddr == w.byAddr[addr := key]
    ensures forall k :: k != key ==> (k in r.byKey <==> k in w.byKey)
    ensures forall k :: k != key && k in w.byKey ==> r.byKey[k] == w.byKey[k]
  {
    if key in w.byKey then
      w.(byKey := w.byKey[key := w.byKey[key].(refcount := w.byKey[key].refcount + 1)])
    else
      Windows(w.byKey[key := Region(addr, 1, flag)], w.byAddr[addr := key])
  }

  /**
   * The bookkeeping of `eina_file_map_free` for a window: an unknown
   * address changes nothing; otherwise the window loses a reference and
   * leaves both tables when none is left.
   */
  function Release(w: Windows, addr: nat): (r: Windows)
    ensures addr !in w.byAddr ==> r == w
  {
    if addr !in w.byAddr || w.byAddr[addr] !in w.byKey then w
    else
      var k := w.byAddr[addr];
      var reg := w.byKey[k];
      if reg.refcount - 1 > 0 then w.(byKey := w.byKey[k := reg.(refcount := reg.refcount - 1)])
      else Windows(w.byKey - {k}, w.byAddr - {addr})
  }

  /** Acquiring a partial window at a fresh address keeps the tables consistent. */
  lemma AcquireValid(w: Windows, size: nat, key: Key, addr: nat, flag: bool)
    requires WindowsValid(w, size) && PartialWindow(key, size)
    requires key in w.byKey || addr !in w.byAddr
    ensures WindowsValid(Acquire(w, key, addr, flag), size)
  {
    var r := Acquire(w, key, addr, flag);
    forall a | a in r.byAddr
      ensures r.byAddr[a] in r.byKey && r.byKey[r.byAddr[a]].addr == a
    {
      if a != addr || key in w.byKey {
        assert a in w.byAddr;
        assert w.byAddr[a] != key || key in w.byKey;
      }
    }
  }

  /** Releasing keeps the tables consistent. */
  lemma ReleaseValid(w: Windows, size: nat, addr: nat)
    requires WindowsValid(w, size)
    ensures WindowsValid(Release(w, addr), size)
  {
    if addr in w.byAddr {
      var k := w.byAddr[addr];
      var r := Release(w, addr);
      if w.byKey[k].refcount - 1 <= 0 {
        forall a | a in r.byAddr
          ensures r.byAddr[a] in r.byKey && r.byKey[r.byAddr[a]].addr == a
        {
          assert a in w.byAddr && a != addr;
          assert w.byAddr[a] != k;
        }
      }
    }
  }

  /** The address `map_new` hands out for `key` after `Acquire`. */
  function AddrOf(w: Windows, key: Key, addr: nat): nat
  {
    if key in w.byKey then w.byKey[key].addr else addr
  }

  /** Requesting the same window twice yields the same address and two references. */
  lemma AcquireShares(w: Windows, key: Key, addr1: nat, addr2: nat, flag1: bool, flag2: bool)
    ensures var w1 := Acquire(w, key, addr1, flag1);
      && AddrOf(w1, key, addr2) == AddrOf(w, key, addr1)
      && Acquire(w1, key, addr2, flag2).byKey[key].refcount == w1.byKey[key].refcount + 1
  {
  }

  /** Freeing the address a `map_new` returned undoes its bookkeeping. */
  lemma ReleaseAcquire(w: Windows, size: nat, key: Key, addr: nat, flag: bool)
    requires WindowsValid(w, size) && PartialWindow(key, size)
    requires key in w.byKey || addr !in w.byAddr
    ensures Release(Acquire(w, key, addr, flag), AddrOf(w, key, addr)) == w
  {
    var r := Acquire(w, key, addr, flag);
    var a := AddrOf(w, key, addr);
    assert a in r.byAddr && r.byAddr[a] == key;
    if key in w.byKey {
      assert r.byKey[key].refcount - 1 > 0;
      assert w.byKey[key := w.byKey[key]] == w.byKey;
    } else {
      assert r.byKey[key].refcount - 1 <= 0;
      assert r.byKey - {key} == w.byKey;
      assert r.byAddr - {a} == w.byAddr;
    }
  }

  /**
   * The reverse-table entry `eina_file_map_new` makes as written.
   * `eina_hash_direct_add(file->rmap, map->map, map)` hands the mapped
   * address over as the key pointer of a table made by
   * `eina_hash_pointer_new`, which hashes and compares the words its key
   * pointers point at. The entry is therefore filed under `word`, the first
   * word of the mapped bytes, while `map_free` and `map_faulted` look up
   * `&map` and so search for the address itself.
   */
  function AcquireAsWritten(w: Windows, key: Key, addr: nat, flag: bool, word: nat): (r: Windows)
    ensures r.byKey == Acquire(w, key, addr, flag).byKey
    ensures key in w.byKey || word == addr ==> r == Acquire(w, key, addr, flag)
    ensures key !in w.byKey ==> word in r.byAddr && r.byAddr[word] == key
  {
    if key in w.byKey then Acquire(w, key, addr, flag)
    else Windows(w.byKey[key := Region(addr, 1, flag)], w.byAddr[word := key])
  }

  /** The fault flag `map_faulted` reports for a window address: false when the reverse table misses. */
  function WindowFaulted(w: Windows, addr: nat): (r: bool)
    ensures r ==> addr in w.byAddr && w.byAddr[addr] in w.byKey && w.byKey[w.byAddr[addr]].faulty
  {
    if addr in w.byAddr && w.byAddr[addr] in w.byKey then w.byKey[w.byAddr[addr]].faulty else false
  }

  /**
   * As written, unless the mapped bytes happen to begin with their own
   * address, the window `map_new` has just mapped is unknown to the reverse
   * table: freeing it changes nothing, so it stays mapped with its
   * reference, and `map_faulted` reports false for it whatever its flag.
   */
  lemma ReleaseAfterMapMissesAsWritten(w: Windows, key: Key, addr: nat, flag: bool, word: nat)
    requires key !in w.byKey && addr !in w.byAddr && word != addr
    ensures var r := AcquireAsWritten(w, key, addr, flag, word);
      && Release(r, addr) == r
      && key in r.byKey && r.byKey[key] == Region(addr, 1, flag)
      && !WindowFaulted(r, addr)
  {
    var r := AcquireAsWritten(w, key, addr, flag, word);
    assert r.byAddr == w.byAddr[word := key];
    assert addr !in r.byAddr;
  }

  /**
   * The Findings input: a window mapped into an empty file record and
   * freed at once is gone with the corrected reverse table and still
   * mapped as written.
   */
  lemma ReleaseAfterMapExample()
    ensures var k := Key(4096, 4096);
      && Release(Acquire(Windows(map[], map[]), k, 0x7000_0000, false), 0x7000_0000) == Windows(map[], map[])
      && Release(AcquireAsWritten(Windows(map[], map[]), k, 0x7000_0000, false, 0), 0x7000_0000).byKey
         == map[k := Region(0x7000_0000, 1, false)]
  {
    var k := Key(4096, 4096);
    ReleaseAcquire(Windows(map[], map[]), 8192, k, 0x7000_0000, false);
    ReleaseAfterMapMissesAsWritten(Windows(map[], map[]), k, 0x7000_0000, false, 0);
  }

  /** The whole-file map (`global_map`, `None` for `MAP_FAILED`) and its count. */
  datatype GlobalMap = GlobalMap(addr: Option<nat>, refcount: int)

  /** The file is mapped exactly while the whole-file map has holders. */
  predicate GlobalValid(g: GlobalMap)
  {
    g.refcount >= 0 && (g.addr.Some? <==> g.refcount > 0)
  }

  /**
   * `eina_file_map_all`: the existing map is reused, otherwise `mapped` is
   * the outcome of `mmap`; a live map gains a reference.
   */
  function GlobalAcquire(g: GlobalMap, mapped: Option<nat>): (r: GlobalMap)
    ensures GlobalValid(g) ==> GlobalValid(r)
    ensures g.addr.Some? ==> r.addr == g.addr
    ensures r.addr.Some? ==> r.refcount == g.refcount + 1
    ensures r.addr.None? ==> r == g
  {
    var m := if g.addr.Some? then g.addr else mapped;
    if m.Some? then GlobalMap(m, g.refcount + 1) else g
  }

  /** `eina_file_map_free` on the whole-file map: drop a reference, unmap at 0. */
  function GlobalRelease(g: GlobalMap): (r: GlobalMap)
    ensures GlobalValid(g) && g.addr.Some? ==> GlobalValid(r)
    ensures r.refcount == g.refcount - 1
    ensures r.refcount <= 0 ==> r.addr.None?
    ensures r.refcount > 0 ==> r.addr == g.addr
  {
    if g.refcount - 1 > 0 then g.(refcount := g.refcount - 1) else GlobalMap(None, g.refcount - 1)
  }

  /** Releasing what a successful `map_all` acquired restores the whole-file map. */
  lemma GlobalReleaseAcquire(g: GlobalMap, mapped: Option<nat>)
    requires GlobalValid(g) && GlobalAcquire(g, mapped).addr.Some?
    ensures GlobalRelease(GlobalAcquire(g, mapped)) == g
  {
  }

  /** The fault test: the page `[addr, addr + pageSize]` touches the mapping `[start, start + length)`. */
  predicate Overlaps(addr: nat, pageSize: nat, start: nat, length: nat)
  {
    addr < start + length && addr + pageSize >= start
  }

  /** `w1` is `w0` with the fault flag set on one window that overlaps the page at `addr`. */
  predicate WindowMarked(w0: Windows, w1: Windows, addr: nat, pageSize: nat)
  {
    w1.byAddr == w0.byAddr
    && exists k :: k in w0.byKey && Overlaps(addr, pageSize, w0.byKey[k].addr, k.length)
                   && w1.byKey == w0.byKey[k := w0.byKey[k].(faulty := true)]
  }

  /** An open file (`Eina_File`). */
  class File {
    const filename: String
    const stamp: Stat
    const fd: int
    const shared: bool
    var refcount: int
    var global: GlobalMap
    var globalFaulty: bool
    var windows: Windows
    var deleteMe: bool
    /** Set by `_eina_file_real_close`: the tables, the map and the descriptor are gone. */
    var released: bool

    ghost predicate Valid()
      reads this
    {
      GlobalValid(global) && WindowsValid(windows, stamp.size)
      && (global.addr.Some? ==> global.addr.value !in windows.byAddr)
    }

    /** A new record for a file whose `fstat` gave `stamp`, not yet referenced. */
    constructor (filename: String, stamp: Stat, fd: int, shared: bool)
      ensures Valid()
      ensures this.filename == filename && this.stamp == stamp && this.fd == fd && this.shared == shared
      ensures refcount == 0 && global == GlobalMap(None, 0) && windows == Windows(map[], map[])
      ensures !globalFaulty && !deleteMe && !released
    {
      this.filename := filename;
      this.stamp := stamp;
      this.fd := fd;
      this.shared := shared;
      refcount := 0;
      global := GlobalMap(None, 0);
      globalFaulty := false;
      windows := Windows(map[], map[]);
      deleteMe := false;
      released := false;
    }

    /** An address `mmap` may return: not one of the file's live mappings. */
    ghost predicate FreshAddr(mapped: Option<nat>)
      reads this
    {
      mapped.Some? ==> mapped.value !in windows.byAddr && global.addr != mapped
    }

    /** `eina_file_map_all`; `mapped` is the outcome of `mmap` if it is called. */
    method MapAll(mapped: Option<nat>) returns (r: Option<nat>)
      requires Valid() && FreshAddr(mapped)
      modifies this
      ensures Valid()
      ensures global == GlobalAcquire(old(global), mapped) && r == global.addr
      ensures windows == old(windows) && refcount == old(refcount) && released == old(released)
      ensures globalFaulty == old(globalFaulty) && deleteMe == old(deleteMe)
    {
      global := GlobalAcquire(global, mapped);
      r := global.addr;
    }

    /**
     * `eina_file_map_new`, with the reverse table keyed by address as
     * intended. `mallocOk` is the outcome of allocating the window record,
     * `junk` the `faulty` bit that record holds, and `mapped` the outcome
     * of `mmap`, when they happen.
     */
    method MapNew(offset: nat, length: nat, mallocOk: bool, junk: bool, mapped: Option<nat>) returns (r: Option<nat>)
      requires Valid() && FreshAddr(mapped)
      modifies this
      ensures Valid()
      ensures refcount == old(refcount) && released == old(released)
      ensures globalFaulty == old(globalFaulty) && deleteMe == old(deleteMe)
      ensures OutOfRange(offset, length, stamp.size) ==>
        r.None? && global == old(global) && windows == old(windows)
      ensures !OutOfRange(offset, length, stamp.size) && offset == 0 && length == stamp.size ==>
        global == GlobalAcquire(old(global), mapped) && r == global.addr && windows == old(windows)
      ensures PartialWindow(Key(offset, length), stamp.size) ==> global == old(global)
      ensures PartialWindow(Key(offset, length), stamp.size) && Key(offset, length) in old(windows.byKey) ==>
        windows == Acquire(old(windows), Key(offset, length), 0, junk)
        && r == Some(old(windows.byKey[Key(offset, length)].addr))
      ensures PartialWindow(Key(offset, length), stamp.size) && Key(offset, length) !in old(windows.byKey) ==>
        if mallocOk && mapped.Some? then
          windows == Acquire(old(windows), Key(offset, length), mapped.value, junk) && r == mapped
        else
          windows == old(windows) && r.None?
    {
      if offset > stamp.size {
        return None;
      }
      if offset + length > stamp.size {
        return None;
      }
      if offset == 0 && length == stamp.size {
        r := MapAll(mapped);
        return;
      }
      var key := Key(offset, length);
      if key in windows.byKey {
        var addr := windows.byKey[key].addr;
        AcquireValid(windows, stamp.size, key, 0, junk);
        windows := Acquire(windows, key, 0, junk);
        return Some(addr);
      }
      if !mallocOk || mapped.None? {
        return None;
      }
      AcquireValid(windows, stamp.size, key, mapped.value, junk);
      windows := Acquire(windows, key, mapped.value, junk);
      r := mapped;
    }

    /**
     * `eina_file_map_free`: the whole-file map if `addr` is it, otherwise
     * a window, looked up in the reverse table keyed by address as intended.
     */
    method MapFree(addr: nat)
      requires Valid()
      modifies this
      ensures Valid()
      ensures refcount == old(refcount) && released == old(released)
      ensures globalFaulty == old(globalFaulty) && deleteMe == old(deleteMe)
      ensures old(global.addr) == Some(addr) ==> global == GlobalRelease(old(global)) && windows == old(windows)
      ensures old(global.addr) != Some(addr) ==> global == old(global) && windows == Release(old(windows), addr)
    {
      if global.addr == Some(addr) {
        global := GlobalRelease(global);
      } else {
        ReleaseValid(windows, stamp.size, addr);
        windows := Release(windows, addr);
      }
    }

    /**
     * `eina_file_map_faulted`: the fault flag of the mapping at `addr`,
     * false if unknown, with the reverse table keyed by address as intended.
     */
    function MapFaulted(addr: nat): (r: bool)
      reads this
      requires Valid()
      ensures r ==> global.addr == Some(addr) || addr in windows.byAddr
    {
      if global.addr == Some(addr) then globalFaulty
      else WindowFaulted(windows, addr)
    }

    /** Whether a fault on the page at `addr` concerns this file. */
    predicate Hit(addr: nat, pageSize: nat)
      reads this
    {
      GlobalHit(addr, pageSize)
      || exists k :: k in windows.byKey && Overlaps(addr, pageSize, windows.byKey[k].addr, k.length)
    }

    /** Whether the page at `addr` overlaps the whole-file map. */
    predicate GlobalHit(addr: nat, pageSize: nat)
      reads this
    {
      global.addr.Some? && Overlaps(addr, pageSize, global.addr.value, stamp.size)
    }

    /**
     * The per-file part of `eina_file_mmap_faulty`: the whole-file map is
     * flagged when it overlaps the page, otherwise one overlapping window
     * (the hash table's iteration order is not specified).
     */
    method MarkFaulty(addr: nat, pageSize: nat) returns (hit: bool)
      requires Valid()
      modifies this
      ensures Valid()
      ensures hit == old(Hit(addr, pageSize))
      ensures refcount == old(refcount) && released == old(released) && global == old(global)
      ensures deleteMe == old(deleteMe)
      ensures GlobalHit(addr, pageSize) ==> globalFaulty && windows == old(windows)
      ensures !GlobalHit(addr, pageSize) ==> globalFaulty == old(globalFaulty)
      ensures !GlobalHit(addr, pageSize) && hit ==> WindowMarked(old(windows), windows, addr, pageSize)
      ensures !hit ==> windows == old(windows)
    {
      if global.addr.Some? && Overlaps(addr, pageSize, global.addr.value, stamp.size) {
        globalFaulty := true;
        return true;
      }
      if exists k :: k in windows.byKey && Overlaps(addr, pageSize, windows.byKey[k].addr, k.length) {
        var k :| k in windows.byKey && Overlaps(addr, pageSize, windows.byKey[k].addr, k.length);
        var reg := windows.byKey[k];
        windows := windows.(byKey := windows.byKey[k := reg.(faulty := true)]);
        return true;
      }
      return false;
    }

    /**
     * `eina_file_map_lines`: an empty file gives no iterator; otherwise the
     * whole file is mapped (`mapped` is the outcome of `mmap`, `contents`
     * the bytes it shows) and the iterator holds an extra reference.
     */
    method MapLines(callocOk: bool, mapped: Option<nat>, contents: seq<char>)
      returns (it: Option<FileLines.LinesIterator>)
      requires Valid() && FreshAddr(mapped) && |contents| == stamp.size
      modifies this
      ensures Valid()
      ensures windows == old(windows) && released == old(released)
      ensures stamp.size == 0 || !callocOk ==> it.None? && global == old(global) && refcount == old(refcount)
      ensures stamp.size > 0 && callocOk ==> global == GlobalAcquire(old(global), mapped)
      ensures it.Some? <==> stamp.size > 0 && callocOk && global.addr.Some?
      ensures it.Some? ==> (refcount == old(refcount) + 1 && fresh(it.value) && it.value.Valid()
        && it.value.buf == contents && Some(it.value.base) == global.addr
        && it.value.Current() == FileLines.Cursor(0, 0, 0, 0))
      ensures it.None? ==> refcount == old(refcount)
    {
      if stamp.size == 0 || !callocOk {
        return None;
      }
      var m := MapAll(mapped);
      if m.None? {
        return None;
      }
      refcount := refcount + 1;
      var iter := new FileLines.LinesIterator(contents, m.value);
      it := Some(iter);
    }
  }

  /** `_eina_file_cache` and the descriptors the cached and detached files hold. */
  class Cache {
    var files: map<String, File>
    var fds: set<int>

    ghost predicate Valid()
      reads this, files.Values
    {
      forall n :: n in files ==> files[n].filename == n && files[n].refcount > 0 && !files[n].released
    }

    constructor ()
      ensures Valid() && files == map[] && fds == {}
    {
      files := map[];
      fds := {};
    }

    /**
     * `eina_file_open`. `cwd` is what `getcwd` gives, `fd` what `open` (or
     * `shm_open`) returns, `fcntlOk` whether marking it close-on-exec
     * worked, `st` what `fstat` gives and `mallocOk` whether the new record
     * could be allocated.
     */
    method Open(path: Option<String>, cwd: Option<String>, fd: int, fcntlOk: bool,
                st: Option<Stat>, mallocOk: bool, shared: bool) returns (r: Option<File>)
      requires Valid() && (fd >= 0 ==> fd !in fds)
      modifies this, files.Values
      ensures Valid()
      ensures var name := FilePath.Sanitize(path, cwd);
        && (name.None? || fd < 0 || !fcntlOk || st.None? ==>
              r.None? && files == old(files) && fds == old(fds))
        && (name.Some? && fd >= 0 && fcntlOk && st.Some? ==>
              var n := name.value;
              && (n in old(files) && TimestampCompare(old(files[n].stamp), st.value) ==>
                    r == Some(old(files[n])) && files == old(files) && fds == old(fds)
                    && r.value.refcount == old(files[n].refcount) + 1)
              && (n in old(files) && !TimestampCompare(old(files[n].stamp), st.value) ==>
                    old(files[n]).deleteMe && old(files[n]).refcount == old(files[n].refcount))
              && (n !in old(files) || !TimestampCompare(old(files[n].stamp), st.value) ==>
                    if mallocOk then
                      && r.Some? && fresh(r.value) && r.value.Valid()
                      && r.value.filename == n && r.value.stamp == st.value && r.value.fd == fd
                      && r.value.refcount == 1
                      && files == old(files)[n := r.value] && fds == old(fds) + {fd}
                    else
                      r.None? && files == old(files) - {n} && fds == old(fds)))
      ensures forall f :: f in old(files.Values) && (r.None? || f != r.value) ==>
        f.refcount == old(f.refcount) && f.windows == old(f.windows) && f.global == old(f.global)
    {
      r := OpenName(FilePath.Sanitize(path, cwd), fd, fcntlOk, st, mallocOk, shared);
    }

    /** The table work of `eina_file_open` once the path is sanitized into `name`. */
    method OpenName(name: Option<String>, fd: int, fcntlOk: bool,
                    st: Option<Stat>, mallocOk: bool, shared: bool) returns (r: Option<File>)
      requires Valid() && (fd >= 0 ==> fd !in fds)
      modifies this, files.Values
      ensures Valid()
      ensures
        && (name.None? || fd < 0 || !fcntlOk || st.None? ==>
              r.None? && files == old(files) && fds == old(fds))
        && (name.Some? && fd >= 0 && fcntlOk && st.Some? ==>
              var n := name.value;
              && (n in old(files) && TimestampCompare(old(files[n].stamp), st.value) ==>
                    r == Some(old(files[n])) && files == old(files) && fds == old(fds)
                    && r.value.refcount == old(files[n].refcount) + 1)
              && (n in old(files) && !TimestampCompare(old(files[n].stamp), st.value) ==>
                    old(files[n]).deleteMe && old(files[n]).refcount == old(files[n].refcount))
              && (n !in old(files) || !TimestampCompare(old(files[n].stamp), st.value) ==>
                    if mallocOk then
                      && r.Some? && fresh(r.value) && r.value.Valid()
                      && r.value.filename == n && r.value.stamp == st.value && r.value.fd == fd
                      && r.value.refcount == 1
                      && files == old(files)[n := r.value] && fds == old(fds) + {fd}
                    else
                      r.None? && files == old(files) - {n} && fds == old(fds)))
      ensures forall f :: f in old(files.Values) && (r.None? || f != r.value) ==>
        f.refcount == old(f.refcount) && f.windows == old(f.windows) && f.global == old(f.global)
    {
      if name.None? || fd < 0 || !fcntlOk || st.None? {
        return None;
      }
      var n := name.value;
      var file: Option<File> := if n in files then Some(files[n]) else None;
      if file.Some? && !TimestampCompare(file.value.stamp, st.value) {
        Evict(n);
        file := None;
      }
      var f: File;
      if file.None? {
        if !mallocOk {
          return None;
        }
        f := Insert(n, st.value, fd, shared);
      } else {
        f := file.value;
      }
      f.refcount := f.refcount + 1;
      r := Some(f);
    }

    /** A stale entry is flagged for deletion and leaves the table; its record is otherwise untouched. */
    method Evict(n: String)
      requires Valid() && n in files
      modifies this, files[n]
      ensures Valid() && files == old(files) - {n} && fds == old(fds)
      ensures old(files[n]).deleteMe
      ensures old(files[n]).refcount == old(files[n].refcount)
      ensures old(files[n]).windows == old(files[n].windows) && old(files[n]).global == old(files[n].global)
    {
      files[n].deleteMe := true;
      files := files - {n};
    }

    /** A new, not yet referenced record for `n` enters the table with its descriptor. */
    method Insert(n: String, stamp: Stat, fd: int, shared: bool) returns (f: File)
      modifies this
      ensures fresh(f) && f.Valid() && f.filename == n && f.stamp == stamp && f.fd == fd
      ensures f.refcount == 0 && !f.released
      ensures files == old(files)[n := f] && fds == old(fds) + {fd}
    {
      f := new File(n, stamp, fd, shared);
      files := files[n := f];
      fds := fds + {fd};
    }

    /**
     * `eina_file_mmap_faulty`: the first file (in the hash table's
     * unspecified order) that the faulting page concerns gets flagged.
     */
    method MmapFaulty(addr: nat, pageSize: nat) returns (marked: Option<File>)
      requires Valid() && forall f :: f in files.Values ==> f.Valid()
      modifies files.Values
      ensures Valid() && files == old(files) && fds == old(fds)
      ensures marked.None? <==> forall f :: f in files.Values ==> !old(f.Hit(addr, pageSize))
      ensures marked.Some? ==> (marked.value in files.Values && old(marked.value.Hit(addr, pageSize))
        && marked.value.Valid() && marked.value.global == old(marked.value.global))
      ensures marked.Some? && old(marked.value.GlobalHit(addr, pageSize)) ==>
        marked.value.globalFaulty && marked.value.windows == old(marked.value.windows)
      ensures marked.Some? && !old(marked.value.GlobalHit(addr, pageSize)) ==>
        marked.value.globalFaulty == old(marked.value.globalFaulty)
        && WindowMarked(old(marked.value.windows), marked.value.windows, addr, pageSize)
      ensures forall f :: f in files.Values && (marked.None? || f != marked.value) ==>
        f.windows == old(f.windows) && f.globalFaulty == old(f.globalFaulty)
      ensures forall f :: f in files.Values ==> f.refcount == old(f.refcount) && f.released == old(f.released)
    {
      if f :| f in files.Values && f.Hit(addr, pageSize) {
        var hit := f.MarkFaulty(addr, pageSize);
        return Some(f);
      }
      return None;
    }

    /** `_eina_file_real_close`: only a file nobody references loses its resources. */
    method RealClose(f: File)
      modifies this, f
      ensures f.refcount != 0 ==> (fds == old(fds) && f.released == old(f.released)
        && f.global == old(f.global) && f.windows == old(f.windows))
      ensures f.refcount == 0 ==>
        f.released && fds == old(fds) - {f.fd}
        && f.windows == Windows(map[], map[]) && f.global == GlobalMap(None, old(f.global.refcount))
      ensures files == old(files) && f.refcount == old(f.refcount) && f.deleteMe == old(f.deleteMe)
    {
      if f.refcount != 0 {
        return;
      }
      f.windows := Windows(map[], map[]);
      f.global := f.global.(addr := None);
      fds := fds - {f.fd};
      f.released := true;
    }

    /**
     * `eina_file_close`: drop a reference; the last one removes the file
     * from the cache (only if the cache still holds this very record) and
     * releases it.
     */
    method Close(f: File)
      requires Valid() && !f.released && f.refcount > 0
      modifies this, f
      ensures Valid()
      ensures f.refcount == old(f.refcount) - 1
      ensures f.refcount > 0 ==> files == old(files) && fds == old(fds) && !f.released
      ensures f.refcount == 0 ==>
        f.released && fds == old(fds) - {f.fd}
        && files == (if f.filename in old(files) && old(files[f.filename]) == f then old(files) - {f.filename} else old(files))
    {
      f.refcount := f.refcount - 1;
      if f.refcount != 0 {
        return;
      }
      if f.filename in files && files[f.filename] == f {
        files := files - {f.filename};
      }
      RealClose(f);
    }
  }
}
