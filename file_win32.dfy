/**
 * The Win32 variant of the file module: separator conversion, the
 * directory search pattern, path sanitizing, the decision on a cached
 * record, and the bookkeeping of mapped windows.
 *
 * The escape routine and the split loop are the POSIX ones (`FilePath`),
 * the split taking `\` as its separator; the window and whole-file tables
 * are those of `FileCache`. `GetCurrentDirectory`, `CreateFile`,
 * `MapViewOfFile` and `malloc` are not called: their outcomes are
 * parameters.
 */
module FileWin32 {
  import opened Wrappers
  import FilePath
  import FileCache

  /** The character `_eina_file_win32_backslash_change` writes for `c`. */
  function Convert(c: char): char
  {
    if c == '/' then '\\' else c
  }

  /** A string with every `/` turned into `\`. */
  function Backslashed(s: String): String
  {
    seq(|s|, i requires 0 <= i < |s| => Convert(s[i]))
  }

  /** After the conversion no `/` is left, and nothing but the `/`s has changed. */
  lemma BackslashedClean(s: String)
    ensures '/' !in Backslashed(s)
    ensures forall i :: 0 <= i < |s| && s[i] != '/' ==> Backslashed(s)[i] == s[i]
  {
  }

  /** Converting twice is converting once. */
  lemma BackslashedIdempotent(s: String)
    ensures Backslashed(Backslashed(s)) == Backslashed(s)
  {
  }

  /** The conversion works character by character, so it distributes over concatenation. */
  lemma BackslashedConcat(a: String, b: String)
    ensures Backslashed(a + b) == Backslashed(a) + Backslashed(b)
  {
  }

  /**
   * `_eina_file_win32_backslash_change`: the buffer holds a C string
   * (a NUL somewhere); every `/` before the first NUL becomes `\`, and
   * nothing else changes.
   */
  method BackslashChange(dir: array<char>)
    requires '\0' in dir[..]
    modifies dir
    ensures var n := FilePath.Strchr(old(dir[..]), 0, '\0');
      dir[..] == Backslashed(old(dir[..])[..n]) + old(dir[..])[n..]
  {
    ghost var before := dir[..];
    ghost var n := FilePath.Strchr(before, 0, '\0');
    var i := 0;
    while dir[i] != '\0'
      invariant i <= n < dir.Length
      invariant forall j :: 0 <= j < i ==> dir[j] == Convert(before[j])
      invariant forall j :: i <= j < dir.Length ==> dir[j] == before[j]
      decreases n - i
    {
      if dir[i] == '/' {
        dir[i] := '\\';
      }
      i := i + 1;
    }
    assert dir[..] == Backslashed(before[..n]) + before[n..];
  }

  /** The search pattern `_eina_file_win32_dir_new` appends. */
  const PATTERN: String := "\\*.*"

  /**
   * `_eina_file_win32_dir_new`: the directory followed by `\*.*`, all
   * separators as `\`; `None` when the allocation fails.
   */
  function DirNew(dir: String, mallocOk: bool): (r: Option<String>)
    ensures r.Some? <==> mallocOk
    ensures r.Some? ==> |r.value| == |dir| + 4 && r.value[..|dir|] == Backslashed(dir) && r.value[|dir|..] == PATTERN
    ensures r.Some? ==> '/' !in r.value
  {
    if !mallocOk then None
    else
      var s := dir + PATTERN;
      BackslashedConcat(dir, PATTERN);
      assert Backslashed(PATTERN) == PATTERN;
      BackslashedClean(s);
      Some(Backslashed(s))
  }

  // ---------------------------------------------------------------------
  // Splitting a converted path

  /** Over a path without `\`, the next `\` of the converted path is the next `/` of the original. */
  lemma {:induction false} StrchrBackslashed(s: String, from: nat)
    requires from <= |s| && '\\' !in s
    ensures FilePath.Strchr(Backslashed(s), from, '\\') == FilePath.Strchr(s, from, '/')
    decreases |s| - from
  {
    if from < |s| {
      assert s[from] in s;
      if s[from] != '/' {
        StrchrBackslashed(s, from + 1);
      }
    }
  }

  /** The converted path has the same segments, scanning from any position. */
  lemma {:induction false} SegmentsFromBackslashed(s: String, start: nat)
    requires start <= |s| && '\\' !in s
    ensures FilePath.SegmentsFrom(Backslashed(s), '\\', start) == FilePath.SegmentsFrom(s, '/', start)
    decreases |s| - start
  {
    var b := Backslashed(s);
    StrchrBackslashed(s, start);
    var c := FilePath.Strchr(s, start, '/');
    BackslashedSlice(s, start, c);
    if c < |s| {
      SegmentsFromBackslashed(s, c + 1);
    } else {
      assert b[start..] == b[start..c] && s[start..] == s[start..c];
    }
  }

  /** A stretch without `/` is left as it is. */
  lemma BackslashedSlice(s: String, i: nat, j: nat)
    requires i <= j <= |s| && forall k :: i <= k < j ==> s[k] != '/'
    ensures Backslashed(s)[i..j] == s[i..j]
  {
  }

  /**
   * Splitting on `\` a path whose `/`s were converted gives the segments
   * the POSIX split gives on the original.
   */
  lemma SplitBackslashed(s: String)
    requires '\\' !in s
    ensures FilePath.Segments(Backslashed(s), '\\') == FilePath.Segments(s, '/')
  {
    SegmentsFromBackslashed(s, 0);
  }

  // ---------------------------------------------------------------------
  // eina_file_path_sanitize

  /** What `GetCurrentDirectory(0, NULL)` returns: the buffer size needed, terminator included. */
  function CurrentDirectorySize(cwd: String): nat
  {
    |cwd| + 1
  }

  /**
   * What `GetCurrentDirectory(l + 1, buf)` returns by its documentation:
   * the characters copied, terminator excluded.
   */
  function CurrentDirectoryCopied(cwd: Option<String>): nat
  {
    if cwd.None? then 0 else |cwd.value|
  }

  /**
   * `eina_file_path_sanitize` as written. `absolute` is what
   * `evil_path_is_absolute` says of the path, `cwd` the current directory
   * (`None` when the size query returns 0) and `copied` what the second
   * query returns. A relative path is prefixed only when both queries
   * return the same number, and the length then passed to the escape
   * counts two characters too many.
   */
  function SanitizeAsWritten(path: Option<String>, absolute: bool, cwd: Option<String>, copied: nat): Option<String>
  {
    match path
    case None => None
    case Some(p) =>
      if |p| < 3 then None
      else if !absolute && cwd.Some? && copied == CurrentDirectorySize(cwd.value) then
        Some(FilePath.Escape(cwd.value + "/" + p, 2))
      else Some(FilePath.Escape(p, 0))
  }

  /**
   * As written, the current directory is never prefixed: the second query
   * returns one less than the first.
   */
  lemma SanitizeAsWrittenIgnoresCwd(path: Option<String>, absolute: bool, cwd: Option<String>)
    ensures SanitizeAsWritten(path, absolute, cwd, CurrentDirectoryCopied(cwd)) == SanitizeAsWritten(path, true, None, 0)
  {
  }

  /**
   * The intended sanitize: NULL or a path shorter than 3 characters gives
   * NULL; a relative path is joined to the current directory when that is
   * known; the result is escaped with its exact length.
   */
  function Sanitize(path: Option<String>, absolute: bool, cwd: Option<String>): (r: Option<String>)
    ensures r.None? <==> path.None? || |path.value| < 3
    ensures r.Some? ==> FilePath.Canonical(r.value)
  {
    match path
    case None => None
    case Some(p) =>
      if |p| < 3 then None
      else
        var full := if !absolute && cwd.Some? then cwd.value + "/" + p else p;
        FilePath.EscapeCanonical(full);
        Some(FilePath.Escape(full, 0))
  }

  /** Both versions agree on absolute paths and when the current directory is unknown. */
  lemma SanitizeAgreesWithoutCwd(path: Option<String>, absolute: bool, cwd: Option<String>)
    requires absolute || cwd.None?
    ensures Sanitize(path, absolute, cwd) == SanitizeAsWritten(path, absolute, cwd, CurrentDirectoryCopied(cwd))
  {
  }

  /** A canonical path is returned unchanged: sanitizing is idempotent on absolute paths. */
  lemma SanitizeIdempotent(path: Option<String>, cwd: Option<String>, cwd2: Option<String>)
    requires Sanitize(path, true, cwd).Some? && |Sanitize(path, true, cwd).value| >= 3
    ensures Sanitize(Sanitize(path, true, cwd), true, cwd2) == Sanitize(path, true, cwd)
  {
    FilePath.EscapeIdentity(Sanitize(path, true, cwd).value, 0);
  }

  /** "seg/.." under a canonical directory sanitizes to the directory and its separator. */
  lemma SanitizeDropsTrailingSegment(seg: String, cwd: String)
    requires |cwd| > 0 && cwd[|cwd| - 1] != '/' && FilePath.Canonical(cwd)
    requires |seg| > 0 && '/' !in seg && seg != ".."
    ensures Sanitize(Some(seg + "/.."), false, Some(cwd)) == Some(cwd + "/")
  {
    assert cwd + "/" + (seg + "/..") == cwd + "/" + seg + "/..";
    FilePath.EscapeTrailingSegment(cwd, seg, 0);
    assert cwd + "/" + seg[..0] == cwd + "/";
  }

  /** The concrete discrepancy: "abc" in "C:\w" stays "abc" as written. */
  lemma SanitizeAsWrittenExample()
    ensures SanitizeAsWritten(Some("abc"), false, Some("C:\\w"), CurrentDirectoryCopied(Some("C:\\w"))) == Some("abc")
    ensures Sanitize(Some("abc"), false, Some("C:\\w")) == Some("C:\\w/abc")
  {
    var abc := "abc";
    var full := "C:\\w" + "/" + abc;
    assert FilePath.Canonical(abc) by {
      forall i | 0 <= i < |abc| ensures FilePath.CleanAt(abc, i) { }
    }
    assert full == "C:\\w/abc";
    assert FilePath.Canonical(full) by {
      forall i | 0 <= i < |full| ensures FilePath.CleanAt(full, i) { }
    }
    FilePath.EscapeIdentity(abc, 0);
    FilePath.EscapeIdentity(full, 0);
  }

  // ---------------------------------------------------------------------
  // The cached record in eina_file_open

  /** What `GetFileAttributesEx` reports and the cache records: the size and the write time. */
  datatype WinStamp = WinStamp(length: nat, mtime: nat)

  /** What `eina_file_open` does with the cache entry for the sanitized name. */
  datatype Action = Create | Reuse | Replace

  /**
   * The decision as written: an entry whose size and time both match is
   * dropped and replaced, and an entry that differs is handed out.
   */
  function CacheDecisionAsWritten(cached: Option<WinStamp>, now: WinStamp): Action
  {
    if cached.None? then Create
    else if cached.value.mtime == now.mtime && cached.value.length == now.length then Replace
    else Reuse
  }

  /** As written, a stale entry is reused and a current one thrown away. */
  lemma CacheDecisionAsWrittenInverted()
    ensures CacheDecisionAsWritten(Some(WinStamp(10, 1)), WinStamp(20, 2)) == Reuse
    ensures CacheDecisionAsWritten(Some(WinStamp(10, 1)), WinStamp(10, 1)) == Replace
  {
  }

  /** The intended decision, the one the POSIX cache takes. */
  function CacheDecision(cached: Option<WinStamp>, now: WinStamp): (a: Action)
    ensures a == Reuse <==> cached == Some(now)
    ensures a == Create <==> cached.None?
  {
    if cached.None? then Create
    else if cached.value.mtime != now.mtime || cached.value.length != now.length then Replace
    else Reuse
  }

  // ---------------------------------------------------------------------
  // eina_file_map_new / eina_file_map_free

  /** 2^32: `unsigned long` is 32 bits wide on Windows. */
  const ULONG32_RANGE: nat := 0x1_0000_0000

  /** The range check of `map_new` as written: the end is computed in 32-bit `unsigned long`. */
  predicate OutOfRangeAsWritten(offset: nat, length: nat, size: nat)
  {
    offset > size || (offset + length) % ULONG32_RANGE > size
  }

  /** As written, a window whose end wraps past 2^32 passes the check. */
  lemma OutOfRangeAsWrittenWraps()
    ensures !OutOfRangeAsWritten(5, ULONG32_RANGE - 1, 10)
    ensures FileCache.OutOfRange(5, ULONG32_RANGE - 1, 10)
  {
  }

  /**
   * The file offset `MapViewOfFile` is asked for as written: the high
   * 32-bit word is `offset & 0xffff0000` and the low one `offset & 0xffff`.
   */
  function ViewOffsetAsWritten(offset: nat): nat
  {
    var high := offset % ULONG32_RANGE / 0x1_0000 * 0x1_0000;
    var low := offset % 0x1_0000;
    high * ULONG32_RANGE + low
  }

  /** A window at 64 KiB is requested at 2^48. */
  lemma ViewOffsetAsWrittenWrong()
    ensures ViewOffsetAsWritten(0x1_0000) == 0x1_0000_0000_0000
  {
  }

  /** The two words of the offset, high and low, as `MapViewOfFile` takes them. */
  function ViewWords(offset: nat): (w: (nat, nat))
    ensures w.1 < ULONG32_RANGE
    ensures w.0 * ULONG32_RANGE + w.1 == offset
  {
    (offset / ULONG32_RANGE, offset % ULONG32_RANGE)
  }

  /** The Win32 open file as far as mapping goes. */
  class WinFile {
    /** The file size `GetFileAttributesEx` reported. */
    const length: nat
    var global: FileCache.GlobalMap
    var windows: FileCache.Windows

    ghost predicate Valid()
      reads this
    {
      FileCache.GlobalValid(global) && FileCache.WindowsValid(windows, length)
      && (global.addr.Some? ==> global.addr.value !in windows.byAddr)
    }

    /** A newly opened file: nothing mapped. */
    constructor (length: nat)
      ensures Valid()
      ensures this.length == length && global == FileCache.GlobalMap(None, 0) && windows == FileCache.Windows(map[], map[])
    {
      this.length := length;
      global := FileCache.GlobalMap(None, 0);
      windows := FileCache.Windows(map[], map[]);
    }

    /** An address `MapViewOfFile` may return: not one of the file's live views. */
    ghost predicate FreshAddr(mapped: Option<nat>)
      reads this
    {
      mapped.Some? ==> mapped.value !in windows.byAddr && global.addr != mapped
    }

    /**
     * `eina_file_map_new` with the intended range check and view offset.
     * `mallocOk` is the outcome of allocating the window record and
     * `mapped` that of `MapViewOfFile`, when they happen; `requested` is
     * the file offset a new window's view is asked for, put together from
     * the two words passed. A window is shared by reference count. The
     * Win32 window record has no fault flag, so windows carry `false`; the
     * reverse table is keyed by address as intended (`FileCache.AcquireAsWritten`
     * is what `eina_hash_direct_add` into a pointer table does instead).
     */
    method MapNew(offset: nat, size: nat, mallocOk: bool, mapped: Option<nat>) returns (r: Option<nat>, requested: Option<nat>)
      requires Valid() && FreshAddr(mapped)
      modifies this
      ensures Valid()
      ensures requested.Some? <==> FileCache.PartialWindow(FileCache.Key(offset, size), length)
                                   && FileCache.Key(offset, size) !in old(windows.byKey) && mallocOk
      ensures requested.Some? ==> requested.value == offset
      ensures FileCache.OutOfRange(offset, size, length) ==> r.None? && global == old(global) && windows == old(windows)
      ensures !FileCache.OutOfRange(offset, size, length) && offset == 0 && size == length ==>
        global == FileCache.GlobalAcquire(old(global), mapped) && r == global.addr && windows == old(windows)
      ensures FileCache.PartialWindow(FileCache.Key(offset, size), length) ==> global == old(global)
      ensures FileCache.PartialWindow(FileCache.Key(offset, size), length) && FileCache.Key(offset, size) in old(windows.byKey) ==>
        windows == FileCache.Acquire(old(windows), FileCache.Key(offset, size), 0, false)
        && r == Some(old(windows.byKey[FileCache.Key(offset, size)].addr))
      ensures FileCache.PartialWindow(FileCache.Key(offset, size), length) && FileCache.Key(offset, size) !in old(windows.byKey) ==>
        if mallocOk && mapped.Some? then
          windows == FileCache.Acquire(old(windows), FileCache.Key(offset, size), mapped.value, false) && r == mapped
        else
          windows == old(windows) && r.None?
    {
      requested := None;
      if offset > length {
        return None, None;
      }
      if offset + size > length {
        return None, None;
      }
      if offset == 0 && size == length {
        global := FileCache.GlobalAcquire(global, mapped);
        return global.addr, None;
      }
      var key := FileCache.Key(offset, size);
      if key in windows.byKey {
        var addr := windows.byKey[key].addr;
        FileCache.AcquireValid(windows, length, key, 0, false);
        windows := FileCache.Acquire(windows, key, 0, false);
        return Some(addr), None;
      }
      if !mallocOk {
        return None, None;
      }
      var words := ViewWords(offset);
      requested := Some(words.0 * ULONG32_RANGE + words.1);
      if mapped.None? {
        return None, requested;
      }
      FileCache.AcquireValid(windows, length, key, mapped.value, false);
      windows := FileCache.Acquire(windows, key, mapped.value, false);
      r := mapped;
    }

    /**
     * `eina_file_map_free`: the whole-file view if `addr` is it, otherwise
     * a window, looked up in the reverse table keyed by address as intended.
     */
    method MapFree(addr: nat)
      requires Valid()
      modifies this
      ensures Valid()
      ensures old(global.addr) == Some(addr) ==> global == FileCache.GlobalRelease(old(global)) && windows == old(windows)
      ensures old(global.addr) != Some(addr) ==> global == old(global) && windows == FileCache.Release(old(windows), addr)
    {
      if global.addr == Some(addr) {
        global := FileCache.GlobalRelease(global);
      } else {
        FileCache.ReleaseValid(windows, length, addr);
        windows := FileCache.Release(windows, addr);
      }
    }
  }
}
