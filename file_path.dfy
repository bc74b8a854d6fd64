/**
 * Path canonicalisation and path splitting of the POSIX file module
 * (eina_file.c). A C string is a sequence of characters without its
 * terminating NUL; a NULL pointer is `None`.
 */
module FilePath {
  import opened Wrappers

  /** strchr: the first index at or after `from` holding `c`, or |s| when there is none. */
  function Strchr(s: String, from: nat, c: char): (p: nat)
    requires from <= |s|
    ensures from <= p <= |s|
    ensures p < |s| ==> s[p] == c
    ensures forall i :: from <= i < p ==> s[i] != c
    decreases |s| - from
  {
    if from == |s| then |s|
    else if s[from] == c then from
    else Strchr(s, from + 1, c)
  }

  /** strrchr for '/' on s[..k]; the escape loop falls back to the buffer start (index 0). */
  function LastSlashBefore(s: String, k: nat): (q: nat)
    requires k <= |s|
    ensures q == 0 || (q < k && s[q] == '/')
    ensures forall i :: q < i < k ==> s[i] != '/'
    decreases k
  {
    if k == 0 then 0
    else if s[k - 1] == '/' then k - 1
    else LastSlashBefore(s, k - 1)
  }

  // The three shapes the escape routine removes.

  predicate DoubleSlashAt(s: String, i: int)
  {
    0 <= i && i + 1 < |s| && s[i] == '/' && s[i + 1] == '/'
  }

  predicate DotDotSegmentAt(s: String, i: int)
  {
    0 <= i && i + 3 < |s| && s[i] == '/' && s[i + 1] == '.' && s[i + 2] == '.' && s[i + 3] == '/'
  }

  predicate TrailingDotDotAt(s: String, i: int)
  {
    0 <= i && i + 3 == |s| && s[i] == '/' && s[i + 1] == '.' && s[i + 2] == '.'
  }

  predicate CleanAt(s: String, i: int)
  {
    !DoubleSlashAt(s, i) && !DotDotSegmentAt(s, i) && !TrailingDotDotAt(s, i)
  }

  predicate CleanBefore(s: String, k: int)
  {
    forall i :: 0 <= i < k ==> CleanAt(s, i)
  }

  /** No "//", no "/../" and no trailing "/.." anywhere. */
  predicate Canonical(s: String)
  {
    CleanBefore(s, |s|)
  }

  /** Loop state invariant of the escape routine: q is the previous '/' (or the buffer start). */
  predicate EscapeState(s: String, from: nat, q: nat)
  {
    from <= |s| && q <= from && (q == 0 || (q < |s| && s[q] == '/'))
  }

  /** What one round of the escape loop leaves: the final buffer, or the next loop state. */
  datatype EscapeStep = Done(r: String) | Continue(s: String, from: nat, q: nat)

  /**
   * One round of the escape loop once strchr found the next separator at `p`
   * (or the end), with previous separator `q`. `slack` is the length the
   * caller passes minus strlen: 0 for an absolute path, 1 when the POSIX
   * sanitize prefixed the working directory, 2 in the prefixing branch of the
   * Win32 sanitize.
   */
  function EscapeRound(s: String, p: nat, q: nat, slack: nat): (st: EscapeStep)
    requires EscapeState(s, p, q) && (p < |s| ==> s[p] == '/') && slack <= 2
    ensures st.Continue? ==> EscapeState(st.s, st.from, st.q) && 2 * |st.s| - st.from < 2 * |s| - p
  {
    if p == |s| then Done(s)
    else if p + 1 < |s| && s[p + 1] == '/' then
      // "//": drop one slash and look at the same position again
      Continue(s[..p] + s[p + 1..], p, q)
    else if p + 3 < |s| && s[p + 1] == '.' && s[p + 2] == '.' && s[p + 3] == '/' then
      // "/seg/../": drop from the previous separator up to the second slash
      var t := s[..q] + s[p + 3..];
      Continue(t, q, LastSlashBefore(t, q))
    else if p + 3 == |s| && s[p + 1] == '.' && s[p + 2] == '.' then
      // "/seg/.." at the end: cut after the previous separator (plus the slack);
      // the bytes left behind the new terminator hold no '/', so the scan stops
      Done(s[..q + 1 + slack])
    else
      Continue(s, p + 1, p)
  }

  /** One round of the escape loop at scan position `from`: strchr, then the round at the separator found. */
  function EscapeNext(s: String, from: nat, q: nat, slack: nat): (st: EscapeStep)
    requires EscapeState(s, from, q) && slack <= 2
    ensures st.Continue? ==> EscapeState(st.s, st.from, st.q) && 2 * |st.s| - st.from < 2 * |s| - from
  {
    EscapeRound(s, Strchr(s, from, '/'), q, slack)
  }

  /** The escape loop run to the end from the given state. */
  function EscapeFrom(s: String, from: nat, q: nat, slack: nat): (r: String)
    requires EscapeState(s, from, q) && slack <= 2
    ensures |r| <= |s|
    decreases 2 * |s| - from
  {
    match EscapeNext(s, from, q, slack)
    case Done(r) => r
    case Continue(t, from', q') => EscapeFrom(t, from', q', slack)
  }

  /** _eina_file_escape: the result fits in the buffer the path was copied to. */
  function Escape(path: String, slack: nat): (r: String)
    requires slack <= 2
    ensures |r| <= |path|
  {
    EscapeFrom(path, 0, 0, slack)
  }

  /** _eina_file_escape: the memmove loop over the duplicated buffer. */
  method EscapeBuffer(path: String, slack: nat) returns (r: String)
    requires slack <= 2
    ensures r == Escape(path, slack)
  {
    var s := path;
    var from: nat, q: nat := 0, 0;
    while true
      invariant EscapeState(s, from, q)
      invariant EscapeFrom(s, from, q, slack) == Escape(path, slack)
      decreases 2 * |s| - from
    {
      match EscapeNext(s, from, q, slack)
      case Done(t) =>
        return t;
      case Continue(t, from', q') =>
        s, from, q := t, from', q';
    }
  }

  /** Dropping one of two adjacent slashes keeps the checked prefix clean. */
  lemma CollapseKeepsClean(s: String, from: nat, p: nat)
    requires from <= p && p + 1 < |s| && s[p] == '/' && s[p + 1] == '/'
    requires CleanBefore(s, from)
    requires forall i :: from <= i < p ==> s[i] != '/'
    ensures CleanBefore(s[..p] + s[p + 1..], p)
  {
    var t := s[..p] + s[p + 1..];
    assert forall j :: 0 <= j < p ==> t[j] == s[j];
    assert t[p] == '/';
    forall i | 0 <= i < p
      ensures CleanAt(t, i)
    {
      if i < from {
        assert CleanAt(s, i);
      }
    }
  }

  /** Removing "/seg/../" keeps the prefix before the previous separator clean. */
  lemma DotDotKeepsClean(s: String, from: nat, q: nat, p: nat)
    requires EscapeState(s, from, q) && from <= p && p + 3 < |s| && s[p + 3] == '/'
    requires CleanBefore(s, from)
    ensures CleanBefore(s[..q] + s[p + 3..], q)
  {
    var t := s[..q] + s[p + 3..];
    assert forall j :: 0 <= j < q ==> t[j] == s[j];
    assert t[q] == '/';
    forall i | 0 <= i < q
      ensures CleanAt(t, i)
    {
      assert CleanAt(s, i);
    }
  }

  /** One round keeps the checked prefix clean, and a final buffer is canonical. */
  lemma NextClean(s: String, from: nat, q: nat, st: EscapeStep)
    requires EscapeState(s, from, q) && CleanBefore(s, from) && st == EscapeNext(s, from, q, 0)
    ensures st.Done? ==> Canonical(st.r)
    ensures st.Continue? ==> CleanBefore(st.s, st.from)
  {
    var p := Strchr(s, from, '/');
    if p == |s| {
      SlashFreeClean(s, from, p);
      assert st == Done(s);
    } else if p + 1 < |s| && s[p + 1] == '/' {
      CollapseKeepsClean(s, from, p);
    } else if p + 3 < |s| && s[p + 1] == '.' && s[p + 2] == '.' && s[p + 3] == '/' {
      DotDotKeepsClean(s, from, q, p);
    } else if p + 3 == |s| && s[p + 1] == '.' && s[p + 2] == '.' {
      CutCanonical(s, from, q);
    } else {
      SlashFreeClean(s, from, p);
      assert st == Continue(s, p + 1, p);
    }
  }

  /** A stretch without separators adds nothing to clean, and a separator the rules leave alone is clean. */
  lemma SlashFreeClean(s: String, from: nat, p: nat)
    requires from <= p <= |s| && CleanBefore(s, from)
    requires forall i :: from <= i < p ==> s[i] != '/'
    requires p < |s| ==> CleanAt(s, p)
    ensures CleanBefore(s, if p < |s| then p + 1 else p)
  {
  }

  /** Cutting after the previous separator leaves a canonical buffer. */
  lemma CutCanonical(s: String, from: nat, q: nat)
    requires EscapeState(s, from, q) && CleanBefore(s, from) && q < |s|
    ensures Canonical(s[..q + 1])
  {
    var r := s[..q + 1];
    forall i | 0 <= i < |r| ensures CleanAt(r, i) {
      if i < q {
        assert CleanAt(s, i);
        if q > 0 { assert r[q] == '/'; }
      }
    }
  }

  lemma {:induction false} EscapeFromCanonical(s: String, from: nat, q: nat)
    requires EscapeState(s, from, q) && CleanBefore(s, from)
    ensures Canonical(EscapeFrom(s, from, q, 0))
    decreases 2 * |s| - from
  {
    var st := EscapeNext(s, from, q, 0);
    NextClean(s, from, q, st);
    if st.Continue? {
      EscapeFromCanonical(st.s, st.from, st.q);
    }
  }

  /** With the exact length, escaping leaves no "//", no "/../" and no trailing "/..". */
  lemma EscapeCanonical(path: String)
    ensures Canonical(Escape(path, 0))
  {
    EscapeFromCanonical(path, 0, 0);
  }

  /** On a canonical buffer a round only moves past the next separator. */
  lemma NextIdentity(s: String, from: nat, q: nat, slack: nat, st: EscapeStep)
    requires EscapeState(s, from, q) && slack <= 2 && Canonical(s) && st == EscapeNext(s, from, q, slack)
    ensures st == Done(s) || (st.Continue? && st.s == s)
  {
    var p := Strchr(s, from, '/');
    if p < |s| {
      assert CleanAt(s, p);
    }
  }

  lemma {:induction false} EscapeFromIdentity(s: String, from: nat, q: nat, slack: nat)
    requires EscapeState(s, from, q) && slack <= 2 && Canonical(s)
    ensures EscapeFrom(s, from, q, slack) == s
    decreases 2 * |s| - from
  {
    var st := EscapeNext(s, from, q, slack);
    NextIdentity(s, from, q, slack, st);
    if st.Continue? {
      EscapeFromIdentity(st.s, st.from, st.q, slack);
    }
  }

  /** A path that is already canonical is returned unchanged. */
  lemma EscapeIdentity(path: String, slack: nat)
    requires slack <= 2 && Canonical(path)
    ensures Escape(path, slack) == path
  {
    EscapeFromIdentity(path, 0, 0, slack);
  }

  /** A round on a buffer starting with '/' leaves a buffer starting with '/'. */
  lemma NextKeepsRoot(s: String, from: nat, q: nat, slack: nat, st: EscapeStep)
    requires EscapeState(s, from, q) && slack <= 2 && |s| > 0 && s[0] == '/' && st == EscapeNext(s, from, q, slack)
    ensures st.Done? ==> |st.r| > 0 && st.r[0] == '/'
    ensures st.Continue? ==> |st.s| > 0 && st.s[0] == '/'
  {
    var p := Strchr(s, from, '/');
    if p == |s| {
    } else if p + 1 < |s| && s[p + 1] == '/' {
      var t := s[..p] + s[p + 1..];
      assert t[0] == '/' by {
        if p == 0 { assert t[0] == s[1]; } else { assert t[0] == s[0]; }
      }
    } else if p + 3 < |s| && s[p + 1] == '.' && s[p + 2] == '.' && s[p + 3] == '/' {
      var t := s[..q] + s[p + 3..];
      assert t[0] == '/' by {
        if q == 0 { assert t[0] == s[p + 3]; } else { assert t[0] == s[0]; }
      }
    } else if p + 3 == |s| && s[p + 1] == '.' && s[p + 2] == '.' {
      assert s[..q + 1 + slack][0] == s[0];
    }
  }

  lemma {:induction false} EscapeFromKeepsRoot(s: String, from: nat, q: nat, slack: nat)
    requires EscapeState(s, from, q) && slack <= 2 && |s| > 0 && s[0] == '/'
    ensures |EscapeFrom(s, from, q, slack)| > 0 && EscapeFrom(s, from, q, slack)[0] == '/'
    decreases 2 * |s| - from
  {
    var st := EscapeNext(s, from, q, slack);
    NextKeepsRoot(s, from, q, slack, st);
    if st.Continue? {
      EscapeFromKeepsRoot(st.s, st.from, st.q, slack);
    }
  }

  /** An absolute path stays absolute. */
  lemma EscapeKeepsRoot(path: String, slack: nat)
    requires slack <= 2
    ensures IsAbsolute(path) ==> IsAbsolute(Escape(path, slack))
  {
    if IsAbsolute(path) {
      EscapeFromKeepsRoot(path, 0, 0, slack);
    }
  }

  predicate IsAbsolute(p: String)
  {
    |p| > 0 && p[0] == '/'
  }

  /**
   * eina_file_path_sanitize as written: a relative path is joined to the
   * working directory and escaped with a length that still counts the
   * terminator (slack 1). `cwd` is what getcwd returned.
   */
  function SanitizeAsWritten(path: Option<String>, cwd: Option<String>): (r: Option<String>)
    ensures r.None? <==> path.None? || (!IsAbsolute(path.value) && cwd.None?)
    ensures path.Some? && IsAbsolute(path.value) ==> r == Sanitize(path, cwd)
  {
    match path
    case None => None
    case Some(p) =>
      if IsAbsolute(p) then Some(Escape(p, 0))
      else if cwd.None? then None
      else Some(Escape(cwd.value + "/" + p, 1))
  }

  /** eina_file_path_sanitize with the exact length for both branches. */
  function Sanitize(path: Option<String>, cwd: Option<String>): (r: Option<String>)
    ensures r.None? <==> path.None? || (!IsAbsolute(path.value) && cwd.None?)
    ensures r.Some? ==> Canonical(r.value)
    ensures r.Some? && IsAbsolute(path.value) ==> IsAbsolute(r.value)
    ensures r.Some? && !IsAbsolute(path.value) && IsAbsolute(cwd.value) ==> IsAbsolute(r.value)
  {
    match path
    case None => None
    case Some(p) =>
      if IsAbsolute(p) then
        EscapeCanonical(p);
        EscapeKeepsRoot(p, 0);
        Some(Escape(p, 0))
      else if cwd.None? then None
      else
        var joined := cwd.value + "/" + p;
        EscapeCanonical(joined);
        EscapeKeepsRoot(joined, 0);
        Some(Escape(joined, 0))
  }

  /** Sanitizing an absolute result again changes nothing. */
  lemma SanitizeIdempotent(path: Option<String>, cwd: Option<String>, cwd2: Option<String>)
    requires Sanitize(path, cwd).Some? && IsAbsolute(Sanitize(path, cwd).value)
    ensures Sanitize(Sanitize(path, cwd), cwd2) == Sanitize(path, cwd)
  {
    var r := Sanitize(path, cwd).value;
    EscapeIdentity(r, 0);
  }

  /** `s` starts with the canonical directory `d`, a separator, and a segment that is neither empty nor "..". */
  predicate OverDir(s: String, d: String)
  {
    && |d| > 0 && d[|d| - 1] != '/' && Canonical(d)
    && |s| >= |d| + 4 && (forall i :: 0 <= i < |d| ==> s[i] == d[i]) && s[|d|] == '/'
    && s[|d| + 1] != '/' && !(s[|d| + 1] == '.' && s[|d| + 2] == '.' && s[|d| + 3] == '/')
  }

  /** Over a canonical directory prefix a round moves past the next separator, which lies in or just after it. */
  lemma NextOverPrefix(s: String, d: String, from: nat, q: nat, slack: nat, st: EscapeStep)
    requires slack <= 1 && EscapeState(s, from, q) && from <= |d| && OverDir(s, d)
    requires st == EscapeNext(s, from, q, slack)
    ensures st.Continue? && st.s == s && from < st.from <= |d| + 1
    ensures st.from == |d| + 1 ==> st.q == |d|
  {
    var p := Strchr(s, from, '/');
    assert p <= |d|;
    if p < |d| {
      assert s[p] == d[p] && CleanAt(d, p);
      assert p + 1 < |d|;
      assert s[p + 1] == d[p + 1];
      if s[p + 1] == '.' && p + 2 < |d| {
        assert s[p + 2] == d[p + 2];
        if p + 3 < |d| { assert s[p + 3] == d[p + 3]; }
      }
    }
  }

  /** Over a canonical directory prefix every separator takes the plain "advance" step. */
  lemma {:induction false} EscapeWalksPrefix(s: String, d: String, from: nat, q: nat, slack: nat)
    requires slack <= 1 && EscapeState(s, from, q) && from <= |d| && OverDir(s, d)
    ensures EscapeState(s, |d| + 1, |d|)
    ensures EscapeFrom(s, from, q, slack) == EscapeFrom(s, |d| + 1, |d|, slack)
    decreases |d| - from
  {
    var st := EscapeNext(s, from, q, slack);
    NextOverPrefix(s, d, from, q, slack, st);
    assert EscapeFrom(s, from, q, slack) == EscapeFrom(s, st.from, st.q, slack);
    if st.from <= |d| {
      EscapeWalksPrefix(s, d, st.from, st.q, slack);
    } else {
      assert st.from == |d| + 1 && st.q == |d|;
    }
  }

  /** At the separator before "seg/.." the round cuts after it, plus `slack` characters. */
  lemma NextAtTrailing(s: String, d: String, seg: String, slack: nat)
    requires slack <= 1 && s == d + "/" + seg + "/.."
    requires |seg| > 0 && '/' !in seg
    ensures EscapeState(s, |d| + 1, |d|)
    ensures EscapeNext(s, |d| + 1, |d|, slack) == Done(d + "/" + seg[..slack])
  {
    var e := |d| + 1 + |seg|;
    assert s[|d|] == '/';
    assert s[e] == '/' && s[e + 1] == '.' && s[e + 2] == '.' && |s| == e + 3;
    forall i | |d| + 1 <= i < e ensures s[i] != '/' {
      assert s[i] == seg[i - |d| - 1] && seg[i - |d| - 1] in seg;
    }
    assert Strchr(s, |d| + 1, '/') == e;
    assert s[..|d| + 1 + slack] == d + "/" + seg[..slack];
  }

  /** "dir/seg/.." with a canonical dir is cut after "dir/" plus `slack` characters of seg. */
  lemma EscapeTrailingSegment(d: String, seg: String, slack: nat)
    requires slack <= 1 && |d| > 0 && d[|d| - 1] != '/' && Canonical(d)
    requires |seg| > 0 && '/' !in seg && seg != ".."
    ensures Escape(d + "/" + seg + "/..", slack) == d + "/" + seg[..slack]
  {
    var s := d + "/" + seg + "/..";
    assert forall i :: 0 <= i < |d| ==> s[i] == d[i];
    assert s[|d|] == '/';
    assert s[|d| + 1] == seg[0];
    if |seg| >= 3 { assert s[|d| + 3] == seg[2]; }
    if |seg| == 2 { assert seg == [s[|d| + 1], s[|d| + 2]]; }
    EscapeWalksPrefix(s, d, 0, 0, slack);
    NextAtTrailing(s, d, seg, slack);
  }

  /** `s` starts with the canonical directory `d`, which ends in no separator, followed by a separator. */
  predicate DirThenSlash(s: String, d: String)
  {
    && Canonical(d) && (|d| == 0 || d[|d| - 1] != '/')
    && |s| > |d| && s[|d|] == '/' && (forall i :: 0 <= i < |d| ==> s[i] == d[i])
  }

  /** `q` is the last separator before `k`, or the buffer start when there is none. */
  predicate PrevSlash(s: String, k: nat, q: nat)
    requires k <= |s|
  {
    q <= k && (q == 0 || (q < k && s[q] == '/')) && forall i :: q < i < k ==> s[i] != '/'
  }

  /** The previous separator is determined by the characters before `k`. */
  lemma PrevSlashUnique(s: String, t: String, k: nat, q: nat, q': nat)
    requires k <= |s| && k <= |t| && (forall i :: 0 <= i < k ==> s[i] == t[i])
    requires PrevSlash(s, k, q) && PrevSlash(t, k, q')
    ensures q == q'
  {
    if q < q' {
      assert false;
    } else if q' < q {
      assert false;
    }
  }

  /** Two scan states whose next round is the same lead to the same result. */
  lemma SameRound(s: String, from: nat, q: nat, from': nat, q': nat, slack: nat)
    requires slack <= 2 && EscapeState(s, from, q) && EscapeState(s, from', q')
    requires EscapeNext(s, from, q, slack) == EscapeNext(s, from', q', slack)
    ensures EscapeFrom(s, from, q, slack) == EscapeFrom(s, from', q', slack)
  {
  }

  /** A round that continues hands the rest of the work to the next scan state. */
  lemma ContinueRound(s: String, from: nat, q: nat, slack: nat, t: String, from': nat, q': nat)
    requires slack <= 2 && EscapeState(s, from, q)
    requires EscapeNext(s, from, q, slack) == Continue(t, from', q')
    ensures EscapeState(t, from', q')
    ensures EscapeFrom(s, from, q, slack) == EscapeFrom(t, from', q', slack)
  {
  }

  /** The characters up to a canonical directory's end, and the separator after it, are clean. */
  lemma DirClean(s: String, d: String)
    requires DirThenSlash(s, d)
    ensures CleanBefore(s, |d|)
  {
    forall p | 0 <= p < |d| ensures CleanAt(s, p) {
      assert s[p] == d[p] && CleanAt(d, p);
      if p + 1 < |d| {
        assert s[p + 1] == d[p + 1];
        if p + 2 < |d| {
          assert s[p + 2] == d[p + 2];
          if p + 3 < |d| { assert s[p + 3] == d[p + 3]; }
        }
      }
    }
  }

  /** On a clean separator `p` a round moves past it (to `next`) and records it as the previous one. */
  lemma StepClean(s: String, k: nat, from: nat, q: nat, slack: nat, p: nat, next: nat)
    requires slack <= 2 && EscapeState(s, from, q) && from <= k <= |s| && CleanBefore(s, k)
    requires p == Strchr(s, from, '/') && p < k && next == p + 1
    ensures EscapeState(s, next, p) && PrevSlash(s, next, p)
    ensures EscapeFrom(s, from, q, slack) == EscapeFrom(s, next, p, slack)
  {
    assert CleanAt(s, p);
    assert EscapeNext(s, from, q, slack) == Continue(s, next, p);
    ContinueRound(s, from, q, slack, s, next, p);
  }

  /** A scan that finds the separator at `k` behaves as if it started there. */
  lemma ArriveAtSlash(s: String, k: nat, from: nat, q: nat, slack: nat)
    requires slack <= 2 && EscapeState(s, from, q) && from <= k < |s| && s[k] == '/'
    requires PrevSlash(s, from, q) && Strchr(s, from, '/') == k
    ensures EscapeState(s, k, q) && PrevSlash(s, k, q)
    ensures EscapeFrom(s, from, q, slack) == EscapeFrom(s, k, q, slack)
  {
    assert Strchr(s, k, '/') == k;
    assert EscapeNext(s, from, q, slack) == EscapeRound(s, k, q, slack);
    SameRound(s, from, q, k, q, slack);
  }

  /**
   * Over a clean stretch the loop reaches the separator at `k` with nothing
   * changed, the last separator before it (`qk`) recorded as the previous one.
   */
  lemma {:induction false} WalkClean(s: String, k: nat, qk: nat, from: nat, q: nat, slack: nat)
    requires slack <= 2 && EscapeState(s, from, q) && from <= k < |s| && s[k] == '/'
    requires CleanBefore(s, k) && PrevSlash(s, from, q) && PrevSlash(s, k, qk)
    ensures EscapeState(s, k, qk)
    ensures EscapeFrom(s, from, q, slack) == EscapeFrom(s, k, qk, slack)
    decreases k - from
  {
    var p := Strchr(s, from, '/');
    if p < k {
      var next := p + 1;
      StepClean(s, k, from, q, slack, p, next);
      WalkClean(s, k, qk, next, p, slack);
    } else {
      ArriveAtSlash(s, k, from, q, slack);
      PrevSlashUnique(s, s, k, q, qk);
    }
  }

  /** Two buffers that agree before `k` have the same last separator before `k`. */
  lemma PrevSlashShared(s: String, t: String, k: nat)
    requires k <= |s| && k <= |t| && (forall i :: 0 <= i < k ==> s[i] == t[i])
    ensures PrevSlash(s, k, LastSlashBefore(s, k)) && PrevSlash(t, k, LastSlashBefore(s, k))
  {
    var q := LastSlashBefore(s, k);
    if q > 0 { assert t[q] == s[q]; }
  }

  /** Two buffers that agree on a clean stretch before a separator at `k` reach it in the same scan state. */
  lemma WalkBoth(s: String, t: String, k: nat, slack: nat) returns (qk: nat)
    requires slack <= 2 && k < |s| && k < |t| && s[k] == '/' && t[k] == '/'
    requires CleanBefore(s, k) && CleanBefore(t, k) && (forall i :: 0 <= i < k ==> s[i] == t[i])
    ensures EscapeState(s, k, qk) && EscapeState(t, k, qk) && qk == LastSlashBefore(t, k)
    ensures Escape(s, slack) == EscapeFrom(s, k, qk, slack)
    ensures Escape(t, slack) == EscapeFrom(t, k, qk, slack)
  {
    PrevSlashShared(s, t, k);
    qk := LastSlashBefore(s, k);
    PrevSlashUnique(t, t, k, LastSlashBefore(t, k), qk);
    WalkClean(s, k, qk, 0, 0, slack);
    WalkClean(t, k, qk, 0, 0, slack);
  }

  /** At "//" the round drops the second slash and looks at the same position again. */
  lemma CollapseStep(s: String, t: String, k: nat, qk: nat, slack: nat)
    requires slack <= 2 && EscapeState(s, k, qk) && k + 1 < |s| && s[k] == '/' && s[k + 1] == '/'
    requires t == s[..k] + s[k + 1..]
    ensures EscapeState(t, k, qk)
    ensures EscapeFrom(s, k, qk, slack) == EscapeFrom(t, k, qk, slack)
  {
    assert Strchr(s, k, '/') == k;
    assert EscapeNext(s, k, qk, slack) == EscapeRound(s, k, qk, slack);
    assert EscapeRound(s, k, qk, slack) == Continue(t, k, qk);
    ContinueRound(s, k, qk, slack, t, k, qk);
  }

  /** At a separator followed by a segment that is neither empty nor "..", the round moves past it. */
  lemma AdvanceStep(s: String, k: nat, qk: nat, slack: nat, next: nat)
    requires slack <= 2 && EscapeState(s, k, qk) && k + 3 < |s| && s[k] == '/' && next == k + 1
    requires s[k + 1] != '/' && !(s[k + 1] == '.' && s[k + 2] == '.' && s[k + 3] == '/')
    ensures EscapeState(s, next, k)
    ensures EscapeFrom(s, k, qk, slack) == EscapeFrom(s, next, k, slack)
  {
    assert Strchr(s, k, '/') == k;
    assert EscapeNext(s, k, qk, slack) == EscapeRound(s, k, qk, slack);
    assert EscapeRound(s, k, qk, slack) == Continue(s, next, k);
    ContinueRound(s, k, qk, slack, s, next, k);
  }

  /** At "/../" the round cuts from the previous separator `k` up to the second slash. */
  lemma DotDotStep(s: String, t: String, k: nat, e: nat, slack: nat, next: nat)
    requires slack <= 2 && EscapeState(s, next, k) && next <= e && e + 3 < |s|
    requires forall i :: next <= i < e ==> s[i] != '/'
    requires s[e] == '/' && s[e + 1] == '.' && s[e + 2] == '.' && s[e + 3] == '/'
    requires t == s[..k] + s[e + 3..]
    ensures EscapeState(t, k, LastSlashBefore(t, k))
    ensures EscapeFrom(s, next, k, slack) == EscapeFrom(t, k, LastSlashBefore(t, k), slack)
  {
    assert Strchr(s, next, '/') == e;
    assert EscapeNext(s, next, k, slack) == EscapeRound(s, e, k, slack);
    assert e + 1 < |s| && s[e + 1] != '/';
    assert EscapeRound(s, e, k, slack) == Continue(t, k, LastSlashBefore(t, k));
    ContinueRound(s, next, k, slack, t, k, LastSlashBefore(t, k));
  }

  /**
   * The "//" round: with a clean prefix before the first of two slashes at
   * `k`, escaping the buffer is escaping it with the second slash removed.
   */
  lemma CollapseRound(s: String, t: String, k: nat, slack: nat)
    requires slack <= 2 && k + 1 < |s| && s[k] == '/' && s[k + 1] == '/' && CleanBefore(s, k)
    requires t == s[..k] + s[k + 1..]
    ensures Escape(s, slack) == Escape(t, slack)
  {
    CollapseKeepsClean(s, k, k);
    assert forall i :: 0 <= i < k ==> s[i] == t[i];
    assert t[k] == '/';
    var qk := WalkBoth(s, t, k, slack);
    CollapseStep(s, t, k, qk, slack);
  }

  /**
   * The "/seg/../" rounds: with a clean prefix before the separator at `k`, a
   * segment up to `e` that is neither empty nor "..", and "/../" at `e`,
   * escaping the buffer is escaping it with s[k..e + 3] removed.
   */
  lemma DropRound(s: String, t: String, k: nat, e: nat, slack: nat)
    requires slack <= 2 && k < e && e + 3 < |s| && s[k] == '/' && CleanBefore(s, k)
    requires s[k + 1] != '/' && !(s[k + 1] == '.' && s[k + 2] == '.' && s[k + 3] == '/')
    requires forall i :: k < i < e ==> s[i] != '/'
    requires s[e] == '/' && s[e + 1] == '.' && s[e + 2] == '.' && s[e + 3] == '/'
    requires t == s[..k] + s[e + 3..]
    ensures Escape(s, slack) == Escape(t, slack)
  {
    DotDotKeepsClean(s, k, k, e);
    assert forall i :: 0 <= i < k ==> s[i] == t[i];
    assert t[k] == '/';
    var qk := WalkBoth(s, t, k, slack);
    var next := k + 1;
    AdvanceStep(s, k, qk, slack, next);
    DotDotStep(s, t, k, e, slack, next);
  }

  /** A canonical path ending in a separator is a canonical path without one, plus that separator. */
  lemma DropTrailingSlash(d: String)
    requires Canonical(d) && |d| > 0 && d[|d| - 1] == '/'
    ensures Canonical(d[..|d| - 1])
    ensures |d| == 1 || d[|d| - 2] != '/'
  {
    var e := d[..|d| - 1];
    forall i | 0 <= i < |e| ensures CleanAt(e, i) {
      assert CleanAt(d, i);
    }
    if |d| > 1 { assert CleanAt(d, |d| - 2); }
  }

  /** Removing the second slash of "dir//rest" leaves "dir/rest", whether or not dir ends in a separator. */
  lemma CollapseShape(d: String, r: String, k: nat)
    requires k == |d| || (k + 1 == |d| && d[k] == '/')
    ensures var s := d + "//" + r;
      k + 1 < |s| && s[k] == '/' && s[k + 1] == '/' && s[..k] + s[k + 1..] == d + "/" + r
  {
    var s := d + "//" + r;
    assert s[..k] + s[k + 1..] == d + "/" + r by {
      if k == |d| {
        assert s[..k] == d && s[k + 1..] == "/" + r;
      } else {
        assert s[..k] == d[..k] && s[k + 1..] == "//" + r;
        assert d == d[..k] + "/";
      }
    }
  }

  /** Escaping collapses "//" after a canonical directory into one separator. */
  lemma EscapeCollapsesDoubleSlash(d: String, r: String, slack: nat)
    requires slack <= 2 && Canonical(d)
    ensures Escape(d + "//" + r, slack) == Escape(d + "/" + r, slack)
  {
    var s := d + "//" + r;
    var k := if |d| > 0 && d[|d| - 1] == '/' then |d| - 1 else |d|;
    if k < |d| { DropTrailingSlash(d); } else { assert d[..k] == d; }
    CollapseShape(d, r, k);
    assert DirThenSlash(s, d[..k]);
    DirClean(s, d[..k]);
    CollapseRound(s, d + "/" + r, k, slack);
  }

  /** The characters of "dir/seg/../rest" the rounds at the directory's separator look at. */
  lemma SegmentShape(d: String, seg: String, r: String)
    requires |seg| > 0 && '/' !in seg && seg != ".."
    ensures var s, k, e := d + "/" + seg + "/../" + r, |d|, |d| + 1 + |seg|;
      && k < e && e + 3 < |s| && s[k] == '/'
      && s[k + 1] != '/' && !(s[k + 1] == '.' && s[k + 2] == '.' && s[k + 3] == '/')
      && (forall i :: k < i < e ==> s[i] != '/')
      && s[e] == '/' && s[e + 1] == '.' && s[e + 2] == '.' && s[e + 3] == '/'
      && s[..k] + s[e + 3..] == d + "/" + r
  {
    var s, e := d + "/" + seg + "/../" + r, |d| + 1 + |seg|;
    assert s[|d| + 1] == seg[0];
    if |seg| >= 3 { assert s[|d| + 3] == seg[2]; }
    if |seg| == 2 { assert seg == [s[|d| + 1], s[|d| + 2]]; }
    if |seg| == 1 { assert s[|d| + 2] == '/'; }
    forall i | |d| < i < e ensures s[i] != '/' {
      assert s[i] == seg[i - |d| - 1] && seg[i - |d| - 1] in seg;
    }
    assert s[..|d|] == d && s[e + 3..] == "/" + r;
  }

  /** Escaping removes "seg/../" after a canonical directory that does not end in a separator. */
  lemma DropSegmentAfterDir(d: String, seg: String, r: String, slack: nat)
    requires slack <= 2 && Canonical(d) && (|d| == 0 || d[|d| - 1] != '/')
    requires |seg| > 0 && '/' !in seg && seg != ".."
    ensures Escape(d + "/" + seg + "/../" + r, slack) == Escape(d + "/" + r, slack)
  {
    var s := d + "/" + seg + "/../" + r;
    SegmentShape(d, seg, r);
    assert DirThenSlash(s, d);
    DirClean(s, d);
    DropRound(s, d + "/" + r, |d|, |d| + 1 + |seg|, slack);
  }

  /** The three rewritings of a directory ending in a separator used below. */
  lemma TrailingSlashShapes(d: String, e: String, seg: String, r: String)
    requires d == e + "/"
    ensures d + "/" + seg + "/../" + r == e + "//" + (seg + "/../" + r)
    ensures e + "/" + (seg + "/../" + r) == e + "/" + seg + "/../" + r
    ensures d + "/" + r == e + "//" + r
  {
  }

  /** Escaping removes "seg/../" after a canonical directory, seg being a name other than "..". */
  lemma EscapeDropsDotDotSegment(d: String, seg: String, r: String, slack: nat)
    requires slack <= 2 && Canonical(d)
    requires |seg| > 0 && '/' !in seg && seg != ".."
    ensures Escape(d + "/" + seg + "/../" + r, slack) == Escape(d + "/" + r, slack)
  {
    if |d| > 0 && d[|d| - 1] == '/' {
      var e := d[..|d| - 1];
      DropTrailingSlash(d);
      assert d == e + "/";
      TrailingSlashShapes(d, e, seg, r);
      EscapeCollapsesDoubleSlash(e, seg + "/../" + r, slack);
      DropSegmentAfterDir(e, seg, r, slack);
      EscapeCollapsesDoubleSlash(e, r, slack);
    } else {
      DropSegmentAfterDir(d, seg, r, slack);
    }
  }

  /** As written, sanitize turns "seg/.." under `cwd` into "cwd/" plus the first character of seg. */
  lemma SanitizeAsWrittenKeepsSegmentChar(seg: String, cwd: String)
    requires IsAbsolute(cwd) && cwd[|cwd| - 1] != '/' && Canonical(cwd)
    requires |seg| > 0 && '/' !in seg && seg != ".."
    ensures SanitizeAsWritten(Some(seg + "/.."), Some(cwd)) == Some(cwd + "/" + seg[..1])
  {
    var p := seg + "/..";
    assert p[0] == seg[0] && seg[0] in seg;
    assert !IsAbsolute(p);
    assert cwd + "/" + p == cwd + "/" + seg + "/..";
    EscapeTrailingSegment(cwd, seg, 1);
    assert SanitizeAsWritten(Some(p), Some(cwd)) == Some(Escape(cwd + "/" + p, 1));
  }

  /** With the exact length, "seg/.." under `cwd` sanitizes to the directory itself. */
  lemma SanitizeDropsTrailingSegment(seg: String, cwd: String)
    requires IsAbsolute(cwd) && cwd[|cwd| - 1] != '/' && Canonical(cwd)
    requires |seg| > 0 && '/' !in seg && seg != ".."
    ensures Sanitize(Some(seg + "/.."), Some(cwd)) == Some(cwd + "/")
  {
    var p := seg + "/..";
    assert p[0] == seg[0] && seg[0] in seg;
    assert !IsAbsolute(p);
    assert cwd + "/" + p == cwd + "/" + seg + "/..";
    EscapeTrailingSegment(cwd, seg, 0);
    assert cwd + "/" + seg[..0] == cwd + "/";
    assert Sanitize(Some(p), Some(cwd)) == Some(Escape(cwd + "/" + p, 0));
  }

  /** The concrete discrepancy: "x/.." in "/home". */
  lemma SanitizeAsWrittenExample()
    ensures SanitizeAsWritten(Some("x/.."), Some("/home")) == Some("/home/x")
    ensures Sanitize(Some("x/.."), Some("/home")) == Some("/home/")
  {
    var home := "/home";
    assert Canonical(home) by {
      forall i | 0 <= i < |home| ensures CleanAt(home, i) { }
    }
    assert "x" + "/.." == "x/..";
    assert home + "/" + "x"[..1] == "/home/x";
    assert home + "/" == "/home/";
    SanitizeAsWrittenKeepsSegmentChar("x", home);
    SanitizeDropsTrailingSegment("x", home);
  }

  // ---------------------------------------------------------------------
  // eina_file_split

  /**
   * The segments the split loop pushes, scanning from `start`: a separator
   * right at `start` (an empty segment) is skipped, a non-empty run is pushed,
   * and a non-empty tail after the last separator is pushed too.
   */
  function SegmentsFrom(s: String, delim: char, start: nat): (r: seq<String>)
    requires start <= |s|
    ensures |r| <= |s| - start
    decreases |s| - start
  {
    var c := Strchr(s, start, delim);
    if c == |s| then (if start < |s| then [s[start..]] else [])
    else if c == start then SegmentsFrom(s, delim, c + 1)
    else [s[start..c]] + SegmentsFrom(s, delim, c + 1)
  }

  /** Every segment is non-empty and holds no separator. */
  lemma {:induction false} SegmentsClean(s: String, delim: char, start: nat)
    requires start <= |s|
    ensures forall k :: 0 <= k < |SegmentsFrom(s, delim, start)| ==>
              |SegmentsFrom(s, delim, start)[k]| > 0 && delim !in SegmentsFrom(s, delim, start)[k]
    decreases |s| - start
  {
    var c := Strchr(s, start, delim);
    if c < |s| {
      SegmentsClean(s, delim, c + 1);
    }
  }

  /** The segments `eina_file_split` yields: non-empty and free of the separator. */
  function Segments(s: String, delim: char): (r: seq<String>)
    ensures forall k :: 0 <= k < |r| ==> |r[k]| > 0 && delim !in r[k]
  {
    SegmentsClean(s, delim, 0);
    SegmentsFrom(s, delim, 0)
  }

  /** eina_file_split: NULL gives NULL, otherwise the non-empty segments in order. */
  method Split(path: Option<String>, delim: char) returns (r: Option<seq<String>>)
    ensures path.None? ==> r.None?
    ensures path.Some? ==> r == Some(Segments(path.value, delim))
  {
    if path.None? {
      return None;
    }
    var s := path.value;
    var segs: seq<String> := [];
    var start := 0;
    var current := Strchr(s, 0, delim);
    while current < |s|
      invariant start <= current <= |s|
      invariant current == Strchr(s, start, delim)
      invariant segs + SegmentsFrom(s, delim, start) == Segments(s, delim)
      decreases |s| - start
    {
      ghost var before := segs;
      if current - start > 0 {
        segs := segs + [s[start..current]];
      }
      SegmentsAdvance(s, delim, start, current, before, segs);
      start := current + 1;
      current := Strchr(s, start, delim);
    }
    ghost var before := segs;
    if start < |s| {
      segs := segs + [s[start..]];
    }
    SegmentsLast(s, delim, start, before, segs);
    return Some(segs);
  }

  function Join(parts: seq<String>, delim: char): String
  {
    if |parts| == 0 then []
    else if |parts| == 1 then parts[0]
    else parts[0] + [delim] + Join(parts[1..], delim)
  }

  function Concat(parts: seq<String>): String
  {
    if |parts| == 0 then [] else parts[0] + Concat(parts[1..])
  }

  function Without(s: String, c: char): String
  {
    if |s| == 0 then [] else (if s[0] == c then [] else [s[0]]) + Without(s[1..], c)
  }

  /** One round of the split loop: the segment before the next separator, if any, moves to the result. */
  lemma SegmentsAdvance(s: String, delim: char, start: nat, c: nat, segs: seq<String>, segs': seq<String>)
    requires start <= c < |s| && c == Strchr(s, start, delim)
    requires segs' == if c - start > 0 then segs + [s[start..c]] else segs
    ensures segs' + SegmentsFrom(s, delim, c + 1) == segs + SegmentsFrom(s, delim, start)
  {
    if c - start > 0 {
      SegmentsTake(s, delim, start, c);
      var rest := SegmentsFrom(s, delim, c + 1);
      assert segs + [s[start..c]] + rest == segs + ([s[start..c]] + rest);
    } else {
      SegmentsSkip(s, delim, start);
    }
  }

  /** A separator at the scan position yields no segment. */
  lemma SegmentsSkip(s: String, delim: char, start: nat)
    requires start < |s| && s[start] == delim
    ensures SegmentsFrom(s, delim, start) == SegmentsFrom(s, delim, start + 1)
  {
  }

  /** The characters before the next separator form the next segment. */
  lemma SegmentsTake(s: String, delim: char, start: nat, c: nat)
    requires start < c < |s| && c == Strchr(s, start, delim)
    ensures SegmentsFrom(s, delim, start) == [s[start..c]] + SegmentsFrom(s, delim, c + 1)
  {
  }

  /** After the last separator the rest of the string, if any, is the last segment. */
  lemma SegmentsLast(s: String, delim: char, start: nat, segs: seq<String>, segs': seq<String>)
    requires start <= |s| && Strchr(s, start, delim) == |s|
    requires segs' == if start < |s| then segs + [s[start..]] else segs
    ensures segs' == segs + SegmentsFrom(s, delim, start)
  {
    if start == |s| {
      assert segs + [] == segs;
    }
  }

  lemma {:induction false} SegmentsFromShift(a: String, b: String, delim: char, k: nat)
    requires k <= |b|
    ensures SegmentsFrom(a + b, delim, |a| + k) == SegmentsFrom(b, delim, k)
    decreases |b| - k
  {
    var s := a + b;
    var c := Strchr(s, |a| + k, delim);
    var c' := Strchr(b, k, delim);
    StrchrShift(a, b, delim, k);
    assert c == |a| + c';
    if c' < |b| {
      SegmentsFromShift(a, b, delim, c' + 1);
      assert |a| + (c' + 1) == c + 1;
      assert s[|a| + k..c] == b[k..c'];
    } else if k < |b| {
      assert s[|a| + k..] == b[k..];
    }
  }

  /** Without a further separator what is left is the last segment, if anything is left. */
  lemma SegmentsTail(s: String, delim: char, start: nat)
    requires start <= |s| && Strchr(s, start, delim) == |s|
    ensures SegmentsFrom(s, delim, start) == if start < |s| then [s[start..]] else []
  {
  }

  lemma {:induction false} StrchrShift(a: String, b: String, c: char, k: nat)
    requires k <= |b|
    ensures Strchr(a + b, |a| + k, c) == |a| + Strchr(b, k, c)
    decreases |b| - k
  {
    if k < |b| {
      assert (a + b)[|a| + k] == b[k];
      StrchrShift(a, b, c, k + 1);
    }
  }

  /** A leading separator is an empty segment: it is skipped. */
  lemma SegmentsDelimCons(rest: String, delim: char)
    ensures Segments([delim] + rest, delim) == Segments(rest, delim)
  {
    var s := [delim] + rest;
    assert Strchr(s, 0, delim) == 0;
    SegmentsFromShift([delim], rest, delim, 0);
  }

  /** A leading non-empty run up to a separator is the first segment. */
  lemma SegmentsCons(x: String, rest: String, delim: char)
    requires |x| > 0 && delim !in x
    ensures Segments(x + [delim] + rest, delim) == [x] + Segments(rest, delim)
  {
    var s := x + [delim] + rest;
    assert Strchr(s, 0, delim) == |x| by {
      assert forall i :: 0 <= i < |x| ==> s[i] == x[i];
      assert s[|x|] == delim;
    }
    assert s[0..|x|] == x;
    SegmentsFromShift(x + [delim], rest, delim, 0);
  }

  /** A non-empty path without separators is a single segment. */
  lemma SegmentsSingle(x: String, delim: char)
    requires |x| > 0 && delim !in x
    ensures Segments(x, delim) == [x]
  {
    assert Strchr(x, 0, delim) == |x|;
    assert x[0..] == x;
  }

  /** The parts that are not empty, in order. */
  function NonEmpty(parts: seq<String>): seq<String>
  {
    if |parts| == 0 then []
    else (if |parts[0]| > 0 then [parts[0]] else []) + NonEmpty(parts[1..])
  }

  /**
   * Splitting a join of separator-free parts gives back the non-empty parts:
   * runs of separators and separators at either end produce no segment.
   */
  lemma {:induction false} SplitJoin(parts: seq<String>, delim: char)
    requires forall p :: p in parts ==> delim !in p
    ensures Segments(Join(parts, delim), delim) == NonEmpty(parts)
  {
    if |parts| == 1 {
      assert parts[0] in parts;
      if |parts[0]| > 0 {
        SegmentsSingle(parts[0], delim);
      }
    } else if |parts| > 1 {
      assert forall p :: p in parts[1..] ==> p in parts;
      SplitJoin(parts[1..], delim);
      var rest := Join(parts[1..], delim);
      if |parts[0]| > 0 {
        SegmentsCons(parts[0], rest, delim);
      } else {
        assert parts[0] + [delim] + rest == [delim] + rest;
        SegmentsDelimCons(rest, delim);
      }
    }
  }

  /** The segments hold every non-separator character of the path, in order. */
  lemma {:induction false} SegmentsConcat(s: String, delim: char)
    ensures Concat(Segments(s, delim)) == Without(s, delim)
    decreases |s|
  {
    if |s| > 0 {
      var c := Strchr(s, 0, delim);
      if c == |s| {
        WithoutFree(s, delim);
        SegmentsSingle(s, delim);
        assert Concat([s]) == s + Concat([]);
      } else {
        var x, rest := s[..c], s[c + 1..];
        assert s == x + [delim] + rest;
        SegmentsConcat(rest, delim);
        WithoutAround(x, rest, delim);
        if c == 0 {
          assert s == [delim] + rest;
          SegmentsDelimCons(rest, delim);
        } else {
          SegmentsCons(x, rest, delim);
          ConcatCons(x, Segments(rest, delim));
        }
      }
    }
  }

  lemma ConcatCons(x: String, parts: seq<String>)
    ensures Concat([x] + parts) == x + Concat(parts)
  {
    assert ([x] + parts)[1..] == parts;
  }

  /** A separator-free head, a separator, then the rest: only the rest loses characters. */
  lemma WithoutAround(x: String, rest: String, c: char)
    requires c !in x
    ensures Without(x + [c] + rest, c) == x + Without(rest, c)
  {
    WithoutFree(x, c);
    WithoutSplit(x, [c] + rest, c);
    assert ([c] + rest)[1..] == rest;
    assert x + [c] + rest == x + ([c] + rest);
  }

  lemma {:induction false} WithoutSplit(a: String, b: String, c: char)
    ensures Without(a + b, c) == Without(a, c) + Without(b, c)
    decreases |a|
  {
    if |a| > 0 {
      assert (a + b)[1..] == a[1..] + b;
      WithoutSplit(a[1..], b, c);
    } else {
      assert a + b == b;
    }
  }

  lemma {:induction false} WithoutFree(a: String, c: char)
    requires c !in a
    ensures Without(a, c) == a
    decreases |a|
  {
    if |a| > 0 {
      WithoutFree(a[1..], c);
    }
  }

  lemma {:induction false} JoinAppend(a: seq<String>, b: seq<String>, delim: char)
    requires |a| > 0 && |b| > 0
    ensures Join(a + b, delim) == Join(a, delim) + [delim] + Join(b, delim)
  {
    if |a| > 1 {
      assert (a + b)[1..] == a[1..] + b;
      JoinAppend(a[1..], b, delim);
    } else {
      assert (a + b)[1..] == b;
    }
  }

  lemma {:induction false} NonEmptyAppend(a: seq<String>, b: seq<String>)
    ensures NonEmpty(a + b) == NonEmpty(a) + NonEmpty(b)
  {
    if |a| > 0 {
      assert (a + b)[1..] == a[1..] + b;
      NonEmptyAppend(a[1..], b);
    } else {
      assert a + b == b;
    }
  }

  /** The first example path of the file-module tests. */
  lemma SplitExampleSimple(s: String)
    requires s == "/this/is/a/small/test"
    ensures Segments(s, '/') == ["this", "is", "a", "small", "test"]
  {
    var parts := ["", "this", "is", "a", "small", "test"];
    SimpleJoinValue();
    SplitJoin(parts, '/');
  }

  lemma SimpleJoinValue()
    ensures Join(["", "this", "is", "a", "small", "test"], '/') == "/this/is/a/small/test"
  {
    var c1, c2 := ["", "this", "is"], ["a", "small", "test"];
    assert c1 + c2 == ["", "this", "is", "a", "small", "test"];
    SimpleHalves();
    JoinAppend(c1, c2, '/');
    SimpleJoinConcat(Join(c1, '/'), Join(c2, '/'));
  }

  lemma SimpleHalves()
    ensures Join(["", "this", "is"], '/') == "/this/is"
    ensures Join(["a", "small", "test"], '/') == "a/small/test"
  {
  }

  lemma SimpleJoinConcat(j1: String, j2: String)
    requires j1 == "/this/is" && j2 == "a/small/test"
    ensures j1 + ['/'] + j2 == "/this/is/a/small/test"
  {
  }

  /** The second example path of the file-module tests: runs of separators. */
  lemma SplitExampleComplex(s: String)
    requires s == "this//is///a /more/complex///case///"
    ensures Segments(s, '/') == ["this", "is", "a ", "more", "complex", "case"]
  {
    var c1, c2, c3 := ["this", "", "is", "", ""], ["a ", "more", "complex", "", ""], ["case", "", "", ""];
    ComplexPieces(c1, c2, c3);
    SplitJoin(c1 + c2 + c3, '/');
  }

  lemma ComplexPieces(c1: seq<String>, c2: seq<String>, c3: seq<String>)
    requires c1 == ["this", "", "is", "", ""] && c2 == ["a ", "more", "complex", "", ""]
    requires c3 == ["case", "", "", ""]
    ensures Join(c1 + c2 + c3, '/') == "this//is///a /more/complex///case///"
    ensures NonEmpty(c1 + c2 + c3) == ["this", "is", "a ", "more", "complex", "case"]
  {
    ComplexJoined(c1, c2, c3);
    ComplexKept(c1, c2, c3);
  }

  lemma ComplexJoined(c1: seq<String>, c2: seq<String>, c3: seq<String>)
    requires c1 == ["this", "", "is", "", ""] && c2 == ["a ", "more", "complex", "", ""]
    requires c3 == ["case", "", "", ""]
    ensures Join(c1 + c2 + c3, '/') == "this//is///a /more/complex///case///"
  {
    JoinedFirst();
    JoinedSecond();
    JoinedThird();
    JoinAppend(c1, c2, '/');
    JoinAppend(c1 + c2, c3, '/');
    ComplexJoinValue(Join(c1, '/'), Join(c2, '/'), Join(c3, '/'));
  }

  lemma ComplexKept(c1: seq<String>, c2: seq<String>, c3: seq<String>)
    requires c1 == ["this", "", "is", "", ""] && c2 == ["a ", "more", "complex", "", ""]
    requires c3 == ["case", "", "", ""]
    ensures NonEmpty(c1 + c2 + c3) == ["this", "is", "a ", "more", "complex", "case"]
  {
    KeptFirst();
    KeptSecond();
    KeptThird();
    NonEmptyAppend(c1, c2);
    NonEmptyAppend(c1 + c2, c3);
    ComplexKeptValue(NonEmpty(c1), NonEmpty(c2), NonEmpty(c3));
  }

  lemma ComplexJoinValue(j1: String, j2: String, j3: String)
    requires j1 == "this//is//" && j2 == "a /more/complex//" && j3 == "case///"
    ensures j1 + ['/'] + j2 + ['/'] + j3 == "this//is///a /more/complex///case///"
  {
  }

  lemma ComplexKeptValue(n1: seq<String>, n2: seq<String>, n3: seq<String>)
    requires n1 == ["this", "is"] && n2 == ["a ", "more", "complex"] && n3 == ["case"]
    ensures n1 + n2 + n3 == ["this", "is", "a ", "more", "complex", "case"]
  {
  }

  lemma JoinedFirst()
    ensures Join(["this", "", "is", "", ""], '/') == "this//is//"
  {
    var a: seq<String> := ["this", "", "is", "", ""];
    assert a[3..][1..] == a[4..] == [""];
    assert Join(a[3..], '/') == "/";
    assert a[2..][1..] == a[3..];
    assert Join(a[2..], '/') == "is//";
    assert a[1..][1..] == a[2..];
    assert Join(a[1..], '/') == "/is//";
    assert a[1..] == a[1..];
  }

  lemma JoinedSecond()
    ensures Join(["a ", "more", "complex", "", ""], '/') == "a /more/complex//"
  {
    var a: seq<String> := ["a ", "more", "complex", "", ""];
    assert a[3..][1..] == a[4..] == [""];
    assert Join(a[3..], '/') == "/";
    assert a[2..][1..] == a[3..];
    assert Join(a[2..], '/') == "complex//";
    assert a[1..][1..] == a[2..];
    assert Join(a[1..], '/') == "more/complex//";
    assert Join(a, '/') == "a " + "/" + "more/complex//";
  }

  lemma JoinedThird()
    ensures Join(["case", "", "", ""], '/') == "case///"
  {
    var a: seq<String> := ["case", "", "", ""];
    assert a[2..][1..] == a[3..] == [""];
    assert Join(a[2..], '/') == "/";
    assert a[1..][1..] == a[2..];
    assert Join(a[1..], '/') == "//";
  }

  lemma KeptFirst()
    ensures NonEmpty(["this", "", "is", "", ""]) == ["this", "is"]
  {
    var a: seq<String> := ["this", "", "is", "", ""];
    assert a[4..][1..] == [];
    assert NonEmpty(a[4..]) == [];
    assert a[3..][1..] == a[4..];
    assert NonEmpty(a[3..]) == [];
    assert a[2..][1..] == a[3..];
    assert NonEmpty(a[2..]) == ["is"];
    assert a[1..][1..] == a[2..];
    assert NonEmpty(a[1..]) == ["is"];
  }

  lemma KeptSecond()
    ensures NonEmpty(["a ", "more", "complex", "", ""]) == ["a ", "more", "complex"]
  {
    var a: seq<String> := ["a ", "more", "complex", "", ""];
    assert a[4..][1..] == [];
    assert NonEmpty(a[4..]) == [];
    assert a[3..][1..] == a[4..];
    assert NonEmpty(a[3..]) == [];
    assert a[2..][1..] == a[3..];
    assert NonEmpty(a[2..]) == ["complex"];
    assert a[1..][1..] == a[2..];
    assert NonEmpty(a[1..]) == ["more", "complex"];
  }

  lemma KeptThird()
    ensures NonEmpty(["case", "", "", ""]) == ["case"]
  {
    var a: seq<String> := ["case", "", "", ""];
    assert a[3..][1..] == [];
    assert NonEmpty(a[3..]) == [];
    assert a[2..][1..] == a[3..];
    assert NonEmpty(a[2..]) == [];
    assert a[1..][1..] == a[2..];
    assert NonEmpty(a[1..]) == [];
  }
}
