/**
 * The C string utilities: bounded copy and concatenation, prefix and
 * suffix tests, splitting on a delimiter string, bounded join, escaping
 * and in-place case mapping.
 *
 * A C string value is a `seq<char>` without its terminating NUL; a buffer
 * the caller owns is an `array<char>` whose string ends at the first NUL.
 */
module Str {
  import opened Wrappers

  const NUL: char := '\0'

  /** A C string holds no NUL before its end. */
  predicate CString(s: String)
  {
    NUL !in s
  }

  /** The character of `s` at `i`, its terminator included. */
  function At(s: String, i: nat): char
  {
    if i < |s| then s[i] else NUL
  }

  /** The string a NUL-terminated buffer holds. */
  function CStr(buf: seq<char>): (s: String)
    ensures CString(s) && s <= buf
    ensures |s| < |buf| ==> buf[|s|] == NUL
    decreases |buf|
  {
    if |buf| == 0 || buf[0] == NUL then [] else [buf[0]] + CStr(buf[1..])
  }

  /** A string followed by a NUL reads back as itself, whatever comes after. */
  lemma {:induction false} CStrOfTerminated(s: String, rest: seq<char>)
    requires CString(s)
    ensures CStr(s + [NUL] + rest) == s
    decreases |s|
  {
    if |s| == 0 {
      assert (s + [NUL] + rest)[0] == NUL;
    } else {
      assert (s + [NUL] + rest)[1..] == s[1..] + [NUL] + rest;
      CStrOfTerminated(s[1..], rest);
    }
  }

  // ---------------------------------------------------------------- strlcpy

  /** The buffer after `eina_strlcpy(dst, src, siz)` on a buffer holding `prev`. */
  function StrlcpyBuf(prev: seq<char>, src: String, siz: nat): seq<char>
    requires siz <= |prev|
  {
    if siz == 0 then prev
    else
      var k := if |src| < siz - 1 then |src| else siz - 1;
      src[..k] + [NUL] + prev[k + 1..]
  }

  /**
   * `eina_strlcpy` (the fallback when the C library has no `strlcpy`):
   * copies at most `siz - 1` characters, terminates the copy when `siz`
   * is not 0 and returns the length of `src`.
   */
  method Strlcpy(dst: array<char>, src: String, siz: nat) returns (r: nat)
    requires CString(src) && siz <= dst.Length
    modifies dst
    ensures r == |src|
    ensures dst[..] == StrlcpyBuf(old(dst[..]), src, siz)
  {
    var i := 0;
    var n: nat := siz;
    var copiedNul := false;
    if n != 0 {
      n := n - 1;
      while n != 0
        invariant i + n == siz - 1 && i <= |src| + 1
        invariant copiedNul <==> i == |src| + 1
        invariant !copiedNul ==> i <= |src|
        invariant dst[..i] == (src + [NUL])[..i] && dst[i..] == old(dst[i..])
        decreases n
      {
        var c := At(src, i);
        dst[i] := c;
        i := i + 1;
        if c == NUL {
          copiedNul := true;
          break;
        }
        n := n - 1;
      }
    }
    if !copiedNul && siz != 0 {
      dst[i] := NUL;
    }
    // the rest of `src` is walked to find its length
    var s := i;
    if !copiedNul {
      while At(src, s) != NUL
        invariant i <= s <= |src|
        decreases |src| - s
      {
        s := s + 1;
      }
      s := s + 1;
    }
    r := s - 1;
    if siz != 0 {
      var k := if |src| < siz - 1 then |src| else siz - 1;
      assert dst[..] == src[..k] + [NUL] + old(dst[..])[k + 1..];
    }
  }

  /**
   * The copy is the longest prefix of `src` that fits in `siz` bytes with
   * its terminator; it is truncated exactly when the result is `siz` or more.
   */
  lemma StrlcpyContents(prev: seq<char>, src: String, siz: nat)
    requires CString(src) && 0 < siz <= |prev|
    ensures var n := if |src| < siz then |src| else siz - 1;
      CStr(StrlcpyBuf(prev, src, siz)) == src[..n]
    ensures |CStr(StrlcpyBuf(prev, src, siz))| < |src| <==> |src| >= siz
  {
    var k := if |src| < siz - 1 then |src| else siz - 1;
    assert CString(src[..k]) by {
      forall j | 0 <= j < k ensures src[..k][j] != NUL {
        assert src[j] in src;
      }
    }
    CStrOfTerminated(src[..k], StrlcpyBuf(prev, src, siz)[k + 1..]);
    assert StrlcpyBuf(prev, src, siz) == src[..k] + [NUL] + StrlcpyBuf(prev, src, siz)[k + 1..];
  }

  // ---------------------------------------------------------------- strlcat

  /** The index of the first NUL among the first `bound` characters, or `bound`. */
  function NulWithin(buf: seq<char>, bound: nat): (d: nat)
    requires bound <= |buf|
    ensures d <= bound
    ensures d < bound ==> buf[d] == NUL
    ensures forall j :: 0 <= j < d ==> buf[j] != NUL
    decreases bound
  {
    if bound == 0 then 0
    else
      var d := NulWithin(buf, bound - 1);
      if d < bound - 1 then d else if buf[bound - 1] == NUL then bound - 1 else bound
  }

  /** The buffer after `eina_strlcat(dst, src, siz)` on a buffer holding `prev`. */
  function StrlcatBuf(prev: seq<char>, src: String, siz: nat): seq<char>
    requires siz <= |prev|
  {
    var dlen := NulWithin(prev, siz);
    if dlen == siz then prev else CatAt(prev, src, siz, dlen)
  }

  /** `src` copied after the first `dlen` characters, cut to fit `siz` bytes with its terminator. */
  function CatAt(prev: seq<char>, src: String, siz: nat, dlen: nat): seq<char>
    requires dlen < siz <= |prev|
  {
    var m := if |src| < siz - dlen - 1 then |src| else siz - dlen - 1;
    prev[..dlen] + src[..m] + [NUL] + prev[dlen + m + 1..]
  }

  /**
   * `eina_strlcat`: appends as much of `src` as fits in `siz` bytes with
   * the terminator and returns the length the untruncated result would have.
   */
  method Strlcat(dst: array<char>, src: String, siz: nat) returns (r: nat)
    requires CString(src) && siz <= dst.Length
    modifies dst
    ensures r == NulWithin(old(dst[..]), siz) + |src|
    ensures dst[..] == StrlcatBuf(old(dst[..]), src, siz)
  {
    ghost var prev := dst[..];
    var d := 0;
    var n: nat := siz;
    while n != 0 && dst[d] != NUL
      invariant d + n == siz
      invariant forall j :: 0 <= j < d ==> prev[j] != NUL
      invariant dst[..] == prev
      decreases n
    {
      n := n - 1;
      d := d + 1;
    }
    var dlen := d;
    NulWithinUnique(prev, siz, dlen);
    n := siz - dlen;
    if n == 0 {
      return dlen + |src|;
    }
    assert StrlcatBuf(prev, src, siz) == CatAt(prev, src, siz, dlen);
    var s := AppendAt(dst, src, siz, dlen);
    r := dlen + s;
  }

  /**
   * The copy loop of `eina_strlcat`: copies `src` after the first `dlen`
   * characters while more than one byte of `siz` is left, then writes the
   * terminator; returns the length of `src`.
   */
  method AppendAt(dst: array<char>, src: String, siz: nat, dlen: nat) returns (s: nat)
    requires dlen < siz <= dst.Length
    modifies dst
    ensures s == |src|
    ensures dst[..] == CatAt(old(dst[..]), src, siz, dlen)
  {
    ghost var prev := dst[..];
    ghost var m := if |src| < siz - dlen - 1 then |src| else siz - dlen - 1;
    var d := dlen;
    var n := siz - dlen;
    s := 0;
    while s < |src|
      invariant s <= |src| && dlen <= d < siz && n == siz - d
      invariant d - dlen == if s < m then s else m
      invariant forall i :: dlen <= i < d ==> dst[i] == src[i - dlen]
      invariant forall i :: 0 <= i < dlen ==> dst[i] == prev[i]
      invariant forall i :: d <= i < dst.Length ==> dst[i] == prev[i]
      decreases |src| - s
    {
      if n != 1 {
        dst[d] := src[s];
        d := d + 1;
        n := n - 1;
      }
      s := s + 1;
    }
    dst[d] := NUL;
    CatAtPointwise(prev, dst[..], src, siz, dlen, m);
  }

  /** A buffer written character by character as `CatAt` describes is `CatAt`. */
  lemma CatAtPointwise(prev: seq<char>, d: seq<char>, src: String, siz: nat, dlen: nat, m: nat)
    requires dlen < siz <= |prev| == |d|
    requires m == if |src| < siz - dlen - 1 then |src| else siz - dlen - 1
    requires forall i :: 0 <= i < dlen ==> d[i] == prev[i]
    requires forall i :: dlen <= i < dlen + m ==> d[i] == src[i - dlen]
    requires d[dlen + m] == NUL
    requires forall i :: dlen + m < i < |d| ==> d[i] == prev[i]
    ensures d == CatAt(prev, src, siz, dlen)
  {
    var c := CatAt(prev, src, siz, dlen);
    assert |c| == |d|;
    forall i | 0 <= i < |d|
      ensures d[i] == c[i]
    {
      if i < dlen {
      } else if i < dlen + m {
        assert c[i] == src[i - dlen];
      }
    }
  }

  /** The characterisation of `NulWithin` determines it. */
  lemma NulWithinUnique(buf: seq<char>, bound: nat, d: nat)
    requires d <= bound <= |buf|
    requires d < bound ==> buf[d] == NUL
    requires forall j :: 0 <= j < d ==> buf[j] != NUL
    ensures d == NulWithin(buf, bound)
  {
  }


  /**
   * When `dst` holds a string shorter than `siz`, the result holds it
   * followed by as much of `src` as fits, never more than `siz - 1`
   * characters, and the returned count is `strlen(dst) + strlen(src)`.
   */
  lemma StrlcatContents(prev: seq<char>, src: String, siz: nat)
    requires CString(src) && siz <= |prev|
    requires |CStr(prev)| < siz
    ensures NulWithin(prev, siz) == |CStr(prev)|
    ensures var m := if |src| < siz - |CStr(prev)| - 1 then |src| else siz - |CStr(prev)| - 1;
      CStr(StrlcatBuf(prev, src, siz)) == CStr(prev) + src[..m]
    ensures |CStr(StrlcatBuf(prev, src, siz))| <= siz - 1
  {
    var s := CStr(prev);
    var dlen := NulWithin(prev, siz);
    assert prev[|s|] == NUL;
    assert dlen == |s|;
    var m := if |src| < siz - dlen - 1 then |src| else siz - dlen - 1;
    assert prev[..dlen] == s;
    var t := s + src[..m];
    assert CString(t) by {
      forall j | 0 <= j < |t| ensures t[j] != NUL {
        if j < |s| { assert s[j] in s; } else { assert src[j - |s|] in src; }
      }
    }
    var rest := prev[dlen + m + 1..];
    assert StrlcatBuf(prev, src, siz) == CatAt(prev, src, siz, dlen);
    assert CatAt(prev, src, siz, dlen) == t + [NUL] + rest;
    CStrOfTerminated(t, rest);
  }

  /** A buffer with no NUL among its first `siz` characters is left as it is. */
  lemma StrlcatFull(prev: seq<char>, src: String, siz: nat)
    requires siz <= |prev| && forall j :: 0 <= j < siz ==> prev[j] != NUL
    ensures StrlcatBuf(prev, src, siz) == prev
  {
  }

  // ------------------------------------------------------ prefix and suffix

  /**
   * `eina_strlen_bounded` (documented in the header; its body is in
   * `eina_inline_str.x`, not part of this model): the length, or `None`
   * for `(size_t)-1` when it exceeds `maxlen`.
   */
  function StrlenBounded(s: String, maxlen: nat): (r: Option<nat>)
    ensures r.Some? <==> |s| <= maxlen
    ensures r.Some? ==> r.value == |s|
  {
    if |s| > maxlen then None else Some(|s|)
  }

  /** `strncmp(a, b, n) == 0` for C strings at least `n` long. */
  function StrnEq(a: String, b: String, n: nat): (r: bool)
    requires n <= |a| && n <= |b|
    ensures r <==> a[..n] == b[..n]
  {
    if n == 0 then true else a[0] == b[0] && StrnEq(a[1..], b[1..], n - 1)
  }

  /** `eina_str_has_prefix`. */
  function HasPrefix(str: String, prefix: String): (r: bool)
    ensures r <==> prefix <= str
  {
    var n := StrlenBounded(prefix, |str|);
    if n.None? then false else StrnEq(str, prefix, n.value)
  }

  /** ASCII case folding of `tolower` in the C locale. */
  function ToLower(c: char): char
  {
    if 'A' <= c <= 'Z' then (c as int + 32) as char else c
  }

  /** ASCII case mapping of `toupper` in the C locale. */
  function ToUpper(c: char): char
  {
    if 'a' <= c <= 'z' then (c as int - 32) as char else c
  }

  /** Case mapping commutes with itself: folding after upper-casing gives the folded character. */
  lemma CaseMapsAgree(c: char)
    ensures ToLower(ToUpper(c)) == ToLower(c) && ToUpper(ToLower(c)) == ToUpper(c)
    ensures ToLower(ToLower(c)) == ToLower(c) && ToUpper(ToUpper(c)) == ToUpper(c)
  {
  }

  function Lower(s: String): (r: String)
    ensures |r| == |s| && forall i :: 0 <= i < |s| ==> r[i] == ToLower(s[i])
  {
    if |s| == 0 then [] else [ToLower(s[0])] + Lower(s[1..])
  }

  /** `strcmp(a, b) == 0`, or `strcasecmp` when `nocase`. */
  function StrEq(a: String, b: String, nocase: bool): (r: bool)
    ensures r <==> (if nocase then Lower(a) == Lower(b) else a == b)
  {
    if |a| == 0 || |b| == 0 then |a| == 0 && |b| == 0
    else (if nocase then ToLower(a[0]) == ToLower(b[0]) else a[0] == b[0])
         && StrEq(a[1..], b[1..], nocase)
  }

  /** `eina_str_has_suffix_helper`: a NULL argument gives false. */
  function HasSuffixWith(str: Option<String>, suffix: Option<String>, nocase: bool): (r: bool)
    ensures r <==> (str.Some? && suffix.Some? && |suffix.value| <= |str.value|
      && (if nocase then Lower(str.value[|str.value| - |suffix.value|..]) == Lower(suffix.value)
          else suffix.value == str.value[|str.value| - |suffix.value|..]))
  {
    if str.None? || suffix.None? then false
    else
      var n := StrlenBounded(suffix.value, |str.value|);
      if n.None? then false
      else StrEq(str.value[|str.value| - n.value..], suffix.value, nocase)
  }

  /** `eina_str_has_suffix`. */
  function HasSuffix(str: Option<String>, suffix: Option<String>): (r: bool)
    ensures r <==> (str.Some? && suffix.Some? && |suffix.value| <= |str.value|
      && suffix.value == str.value[|str.value| - |suffix.value|..])
  {
    HasSuffixWith(str, suffix, false)
  }

  /** `eina_str_has_extension`: the suffix test without regard to case. */
  function HasExtension(str: Option<String>, ext: Option<String>): (r: bool)
    ensures r <==> (str.Some? && ext.Some? && |ext.value| <= |str.value|
      && Lower(str.value[|str.value| - |ext.value|..]) == Lower(ext.value))
  {
    HasSuffixWith(str, ext, true)
  }

  /** A suffix is an extension in any case; the converse fails only on case. */
  lemma SuffixIsExtension(str: String, suffix: String)
    requires HasSuffix(Some(str), Some(suffix))
    ensures HasExtension(Some(str), Some(suffix))
  {
  }

  /** Cases of the string tests. */
  lemma PrefixSuffixExamples()
    ensures HasPrefix("", "") && HasPrefix("xab", "x") && !HasPrefix("", "x") && !HasPrefix("X", "x")
    ensures HasSuffix(Some("abx"), Some("x")) && !HasSuffix(Some("x"), Some("xab")) && !HasSuffix(Some("aBx"), Some("X"))
    ensures HasExtension(Some("aBx"), Some("X")) && !HasExtension(Some("xab"), Some("xYz"))
  {
    assert !("x" <= "");
    assert "x"[0] != "X"[0];
    assert "xab"[3 - 1..] == "b";
    assert Lower("xab"[0..]) == "xab" && Lower("xYz") == "xyz";
  }

  // ------------------------------------------------------------------ split

  /** The delimiter occurs in `s` at `i`. */
  predicate MatchAt(s: String, i: nat, delim: String)
  {
    i + |delim| <= |s| && s[i..i + |delim|] == delim
  }

  /** Prepends `prefix` to the first piece. */
  function Attach(prefix: String, pieces: seq<String>): seq<String>
    requires |pieces| > 0
  {
    [prefix + pieces[0]] + pieces[1..]
  }

  /**
   * The pieces of `s` scanned left to right: each non-overlapping
   * occurrence of `delim` ends a piece, while `budget` more cuts are
   * allowed (a negative budget never runs out).
   */
  function Pieces(s: String, delim: String, budget: int): (r: seq<String>)
    requires |delim| > 0
    ensures |r| > 0
    ensures budget >= 0 ==> |r| <= budget + 1
    decreases |s|
  {
    if budget == 0 || |s| == 0 then [s]
    else if MatchAt(s, 0, delim) then [[]] + Pieces(s[|delim|..], delim, if budget < 0 then budget else budget - 1)
    else Attach([s[0]], Pieces(s[1..], delim, budget))
  }

  /** `pieces` joined with `delim` between consecutive ones. */
  function Join(pieces: seq<String>, delim: String): String
    requires |pieces| > 0
  {
    if |pieces| == 1 then pieces[0] else pieces[0] + delim + Join(pieces[1..], delim)
  }

  lemma AttachEmpty(pieces: seq<String>)
    requires |pieces| > 0
    ensures Attach([], pieces) == pieces
  {
    assert [] + pieces[0] == pieces[0];
  }

  lemma AttachAttach(a: String, b: String, pieces: seq<String>)
    requires |pieces| > 0
    ensures Attach(a, Attach(b, pieces)) == Attach(a + b, pieces)
  {
    assert a + (b + pieces[0]) == (a + b) + pieces[0];
  }

  lemma JoinAttach(prefix: String, pieces: seq<String>, delim: String)
    requires |pieces| > 0
    ensures Join(Attach(prefix, pieces), delim) == prefix + Join(pieces, delim)
  {
    var a := Attach(prefix, pieces);
    if |pieces| > 1 {
      assert a[1..] == pieces[1..];
    }
  }

  /** Joining the pieces with the delimiter gives back the string. */
  lemma {:induction false} JoinPieces(s: String, delim: String, budget: int)
    requires |delim| > 0
    ensures Join(Pieces(s, delim, budget), delim) == s
    decreases |s|
  {
    if budget == 0 || |s| == 0 {
    } else if MatchAt(s, 0, delim) {
      var rest := s[|delim|..];
      var b := if budget < 0 then budget else budget - 1;
      JoinPieces(rest, delim, b);
      var p := [[]] + Pieces(rest, delim, b);
      assert p[1..] == Pieces(rest, delim, b);
      assert s == delim + rest;
    } else {
      JoinPieces(s[1..], delim, budget);
      JoinAttach([s[0]], Pieces(s[1..], delim, budget), delim);
      assert s == [s[0]] + s[1..];
    }
  }

  /** With no limit, no piece contains the delimiter. */
  lemma {:induction false} PiecesAvoidDelim(s: String, delim: String)
    requires |delim| > 0
    ensures forall k, i :: 0 <= k < |Pieces(s, delim, -1)| && 0 <= i ==> !MatchAt(Pieces(s, delim, -1)[k], i, delim)
    decreases |s|
  {
    var r := Pieces(s, delim, -1);
    if |s| == 0 {
      forall k, i | 0 <= k < |r| && 0 <= i ensures !MatchAt(r[k], i, delim) {
        assert r[k] == [];
      }
    } else if MatchAt(s, 0, delim) {
      PiecesAvoidDelim(s[|delim|..], delim);
      var t := Pieces(s[|delim|..], delim, -1);
      forall k, i | 0 <= k < |r| && 0 <= i ensures !MatchAt(r[k], i, delim) {
        if k > 0 { assert r[k] == t[k - 1]; }
      }
    } else {
      var rest := s[1..];
      PiecesAvoidDelim(rest, delim);
      var t := Pieces(rest, delim, -1);
      forall k, i | 0 <= k < |r| && 0 <= i ensures !MatchAt(r[k], i, delim) {
        if k > 0 {
          assert r[k] == t[k];
        } else if MatchAt(r[0], i, delim) {
          assert r[0] == [s[0]] + t[0];
          if i == 0 {
            PiecePrefixOfRest(rest, delim);
            assert false;
          } else {
            assert r[0][i..i + |delim|] == t[0][i - 1..i - 1 + |delim|];
            assert MatchAt(t[0], i - 1, delim);
            assert false;
          }
        }
      }
    }
  }

  /** The first piece (with the delimiter after it) is where the string starts. */
  lemma {:induction false} PiecePrefixOfRest(s: String, delim: String)
    requires |delim| > 0
    ensures Pieces(s, delim, -1)[0] <= s
    decreases |s|
  {
    if |s| > 0 && !MatchAt(s, 0, delim) {
      PiecePrefixOfRest(s[1..], delim);
    }
  }

  /** The outcome of `eina_str_split_full` as written. */
  datatype SplitOutcome =
    | NullArray                       // NULL is returned and `*elements` is 0
    | Split(pieces: seq<String>)      // the array of pieces; `*elements` is its length
    | WritesPastArray                 // the copy loop stores past the allocated pointer array

  /**
   * `eina_str_split_full_helper` as written: the pointer array is sized by
   * the delimiter count clamped to `max_tokens`, but the copy loop cuts at
   * every occurrence. `arrayOk` and `bufferOk` are the outcomes of the two
   * allocations.
   */
  function SplitAsWritten(s: String, delim: String, maxTokens: int, arrayOk: bool, bufferOk: bool): SplitOutcome
  {
    if |delim| == 0 then NullArray
    else
      var all := Pieces(s, delim, -1);
      var tokens := |all| - 1;
      var capped := if maxTokens > 0 && tokens > maxTokens then maxTokens else tokens;
      if !arrayOk || !bufferOk then NullArray
      else if tokens > capped then WritesPastArray
      else Split(all)
  }

  /** With two delimiters and `max_tokens` 1, the copy loop overruns the array of 3 entries. */
  lemma SplitAsWrittenOverruns()
    ensures SplitAsWritten("a:b:c", ":", 1, true, true) == WritesPastArray
  {
    assert "c"[0..1] == "c" && !MatchAt("c", 0, ":") && "c"[1..] == "";
    assert |Pieces("c", ":", -1)| == 1;
    assert ":c"[0..1] == ":" && MatchAt(":c", 0, ":") && ":c"[1..] == "c";
    assert |Pieces(":c", ":", -1)| == 2;
    assert "b:c"[0..1] == "b" && !MatchAt("b:c", 0, ":") && "b:c"[1..] == ":c";
    assert |Pieces("b:c", ":", -1)| == 2;
    assert ":b:c"[0..1] == ":" && MatchAt(":b:c", 0, ":") && ":b:c"[1..] == "b:c";
    assert |Pieces(":b:c", ":", -1)| == 3;
    assert "a:b:c"[0..1] == "a" && !MatchAt("a:b:c", 0, ":") && "a:b:c"[1..] == ":b:c";
    assert |Pieces("a:b:c", ":", -1)| == 3;
  }

  /** With no limit the code is sound: it yields every piece. */
  lemma SplitAsWrittenUnlimited(s: String, delim: String, maxTokens: int)
    requires |delim| > 0 && maxTokens <= 0
    ensures SplitAsWritten(s, delim, maxTokens, true, true) == Split(Pieces(s, delim, -1))
  {
  }

  /**
   * `eina_str_split_full` as documented: at most `max_tokens` pieces when
   * it is positive, the last one holding the rest of the string.
   * Returns the pieces and `*elements`.
   */
  method SplitFull(s: String, delim: String, maxTokens: int, arrayOk: bool, bufferOk: bool)
    returns (r: Option<seq<String>>, elements: nat)
    ensures |delim| == 0 || !arrayOk || !bufferOk ==> r.None? && elements == 0
    ensures |delim| > 0 && arrayOk && bufferOk ==>
      r == Some(Pieces(s, delim, maxTokens - 1)) && elements == |r.value|
  {
    if |delim| == 0 || !arrayOk || !bufferOk {
      return None, 0;
    }
    var budget := maxTokens - 1;
    var pieces: seq<String> := [];
    var cur: String := [];
    var i := 0;
    assert s[i..] == s;
    AttachEmpty(Pieces(s, delim, budget));
    while i < |s|
      invariant i <= |s|
      invariant pieces + Attach(cur, Pieces(s[i..], delim, budget)) == Pieces(s, delim, maxTokens - 1)
      decreases |s| - i
    {
      if budget != 0 && MatchAt(s, i, delim) {
        var nextBudget := if budget < 0 then budget else budget - 1;
        SplitCutStep(s, delim, i, budget, nextBudget, pieces, cur);
        pieces := pieces + [cur];
        cur := [];
        i := i + |delim|;
        budget := nextBudget;
      } else {
        SplitCharStep(s, delim, i, budget, pieces, cur);
        cur := cur + [s[i]];
        i := i + 1;
      }
    }
    SplitLastPiece(s, delim, i, budget, cur);
    r := Some(pieces + [cur]);
    elements := |pieces| + 1;
  }

  /** A cut in the copy loop: the current piece is complete and a new, empty one starts. */
  lemma SplitCutStep(s: String, delim: String, i: nat, budget: int, nextBudget: int, pieces: seq<String>, cur: String)
    requires |delim| > 0 && budget != 0 && MatchAt(s, i, delim)
    requires nextBudget == if budget < 0 then budget else budget - 1
    ensures pieces + Attach(cur, Pieces(s[i..], delim, budget))
      == (pieces + [cur]) + Attach([], Pieces(s[i + |delim|..], delim, nextBudget))
  {
    var next := Pieces(s[i + |delim|..], delim, nextBudget);
    PiecesAtMatch(s, delim, i, budget);
    AttachCut(cur, next);
    AttachEmpty(next);
  }

  /** No cut in the copy loop: the character joins the current piece. */
  lemma SplitCharStep(s: String, delim: String, i: nat, budget: int, pieces: seq<String>, cur: String)
    requires |delim| > 0 && i < |s| && !(budget != 0 && MatchAt(s, i, delim))
    ensures pieces + Attach(cur, Pieces(s[i..], delim, budget))
      == pieces + Attach(cur + [s[i]], Pieces(s[i + 1..], delim, budget))
  {
    PiecesAtChar(s, delim, i, budget, cur);
  }

  /** At the end of the string the current piece is the last one. */
  lemma SplitLastPiece(s: String, delim: String, i: nat, budget: int, cur: String)
    requires |delim| > 0 && i == |s|
    ensures Attach(cur, Pieces(s[i..], delim, budget)) == [cur]
  {
    assert s[i..] == [];
    assert Pieces(s[i..], delim, budget) == [[]];
    assert cur + [] == cur;
  }

  /** A cut at a delimiter at `i` starts an empty piece before the pieces after it. */
  lemma PiecesAtMatch(s: String, delim: String, i: nat, budget: int)
    requires |delim| > 0 && budget != 0 && MatchAt(s, i, delim)
    ensures Pieces(s[i..], delim, budget) == [[]] + Pieces(s[i + |delim|..], delim, if budget < 0 then budget else budget - 1)
  {
    var rest := s[i..];
    assert rest[0..|delim|] == s[i..i + |delim|];
    assert rest[|delim|..] == s[i + |delim|..];
  }

  lemma AttachCut(cur: String, next: seq<String>)
    ensures Attach(cur, [[]] + next) == [cur] + next
  {
    assert cur + [] == cur && ([[]] + next)[1..] == next;
  }

  /** Where no cut is made at `i`, the character there joins the current piece. */
  lemma PiecesAtChar(s: String, delim: String, i: nat, budget: int, cur: String)
    requires |delim| > 0 && i < |s| && !(budget != 0 && MatchAt(s, i, delim))
    ensures Attach(cur, Pieces(s[i..], delim, budget)) == Attach(cur + [s[i]], Pieces(s[i + 1..], delim, budget))
  {
    var rest := s[i..];
    assert rest[1..] == s[i + 1..];
    if budget != 0 {
      if i + |delim| <= |s| {
        assert rest[0..|delim|] == s[i..i + |delim|];
      }
      assert !MatchAt(rest, 0, delim);
      AttachAttach(cur, [s[i]], Pieces(s[i + 1..], delim, budget));
    } else {
      assert rest == [s[i]] + s[i + 1..];
      assert cur + rest == (cur + [s[i]]) + s[i + 1..];
    }
  }

  /** The documented guarantees: the pieces rebuild the string and respect the limit. */
  lemma SplitFullProperties(s: String, delim: String, maxTokens: int)
    requires |delim| > 0
    ensures Join(Pieces(s, delim, maxTokens - 1), delim) == s
    ensures maxTokens > 0 ==> |Pieces(s, delim, maxTokens - 1)| <= maxTokens
  {
    JoinPieces(s, delim, maxTokens - 1);
  }

  lemma NoMatchFirst(s: String, delim: String)
    requires |s| > 0 && |delim| > 0 && s[0] != delim[0]
    ensures !MatchAt(s, 0, delim)
  {
  }

  /** Cases of the split tests. */
  lemma SplitExamples()
    ensures Pieces("a:b:", ":", -1) == ["a", "b", ""]
    ensures Pieces(":", ":", -1) == ["", ""]
    ensures Pieces("aaba", "ab", -1) == ["a", "a"]
  {
    var s := "a:b:";
    assert s[1..] == ":b:" && s[2..] == "b:" && s[3..] == ":" && s[4..] == "";
    assert MatchAt(":", 0, ":") && MatchAt(":b:", 0, ":");
    NoMatchFirst(s, ":");
    NoMatchFirst("b:", ":");
    assert ":"[1..] == [] && ":b:"[1..] == "b:" && "b:"[1..] == ":";
    assert Pieces(":", ":", -1) == ["", ""];
    assert "b" + "" == "b";
    assert Attach("b", ["", ""]) == ["b", ""];
    assert Pieces("b:", ":", -1) == ["b", ""];
    assert Pieces(":b:", ":", -1) == ["", "b", ""];
    var u := "aaba";
    assert u[1..] == "aba" && "aba"[2..] == "a" && "a"[1..] == [];
    assert u[0..2][1] != "ab"[1];
    assert MatchAt("aba", 0, "ab");
    assert !MatchAt("a", 0, "ab");
    assert "a" + "" == "a" && "a"[1..] == "";
    assert Pieces("a", "ab", -1) == ["a"];
    assert Pieces("aba", "ab", -1) == ["", "a"];
  }

  // ------------------------------------------------------------------- join

  /**
   * `eina_str_join_len`: writes `a`, `sep`, `b` into the `size`-byte buffer
   * `dst`, truncated to `size - 1` characters and terminated, and returns
   * the length the whole join needs.
   */
  method JoinLen(dst: array<char>, size: nat, sep: char, a: String, b: String) returns (ret: nat)
    requires size <= dst.Length
    modifies dst
    ensures ret == |a| + |b| + 1
    ensures size < 1 ==> dst[..] == old(dst[..])
    ensures 1 <= size <= |a| + 1 + |b| ==> dst[..] == Terminated(a + [sep] + b, old(dst[..]), size - 1)
    ensures |a| + 1 + |b| < size ==> dst[..] == Terminated(a + [sep] + b, old(dst[..]), |a| + 1 + |b|)
  {
    ret := |a| + |b| + 1;
    if size < 1 {
      return;
    }
    ghost var k: nat;
    if size <= |a| {
      forall i | 0 <= i < size - 1 {
        dst[i] := a[i];
      }
      dst[size - 1] := NUL;
      k := size - 1;
    } else {
      forall i | 0 <= i < |a| {
        dst[i] := a[i];
      }
      var off := |a|;
      if size <= off + 1 {
        dst[size - 1] := NUL;
        k := size - 1;
      } else {
        dst[off] := sep;
        off := off + 1;
        if size <= off + |b| + 1 {
          forall i | 0 <= i < size - off - 1 {
            dst[off + i] := b[i];
          }
          dst[size - 1] := NUL;
          k := size - 1;
        } else {
          forall i | 0 <= i < |b| {
            dst[off + i] := b[i];
          }
          dst[off + |b|] := NUL;
          k := |a| + 1 + |b|;
        }
      }
    }
    JoinedBuffer(dst[..], a, sep, b, old(dst[..]), size, k);
  }

  /** A buffer holding `prev` whose first `k + 1` characters are overwritten by the first `k` of `w` and a terminator. */
  function Terminated(w: seq<char>, prev: seq<char>, k: nat): seq<char>
    requires k <= |w| && k < |prev|
  {
    w[..k] + [NUL] + prev[k + 1..]
  }

  /** The join written character by character is the terminated prefix of `a`, `sep`, `b`. */
  lemma JoinedBuffer(d: seq<char>, a: String, sep: char, b: String, prev: seq<char>, size: nat, k: nat)
    requires 1 <= size <= |d| == |prev|
    requires k == if size <= |a| + 1 + |b| then size - 1 else |a| + 1 + |b|
    requires forall i :: 0 <= i < k && i < |a| ==> d[i] == a[i]
    requires |a| < k ==> d[|a|] == sep
    requires forall i :: |a| < i < k ==> d[i] == b[i - |a| - 1]
    requires d[k] == NUL
    requires forall i :: k < i < |d| ==> d[i] == prev[i]
    ensures size <= |a| + 1 + |b| ==> d == Terminated(a + [sep] + b, prev, size - 1)
    ensures |a| + 1 + |b| < size ==> d == Terminated(a + [sep] + b, prev, |a| + 1 + |b|)
  {
    var w := a + [sep] + b;
    var t := Terminated(w, prev, k);
    forall i | 0 <= i < |d|
      ensures d[i] == t[i]
    {
      if i < k {
        assert t[i] == w[i];
      }
    }
  }

  // ----------------------------------------------------------------- escape

  predicate NeedsEscape(c: char)
  {
    c == ' ' || c == '\\' || c == '\''
  }

  /** The escaped form: a backslash before each space, backslash and apostrophe. */
  function Escaped(s: String): (r: String)
    ensures |r| <= 2 * |s|
  {
    if |s| == 0 then []
    else (if NeedsEscape(s[0]) then ['\\', s[0]] else [s[0]]) + Escaped(s[1..])
  }

  /** Reading an escaped string back: a backslash takes the next character literally. */
  function Unescaped(s: String): String
    decreases |s|
  {
    if |s| == 0 then []
    else if s[0] == '\\' && |s| > 1 then [s[1]] + Unescaped(s[2..])
    else [s[0]] + Unescaped(s[1..])
  }

  /** Escaping loses nothing: unescaping gives the string back. */
  lemma {:induction false} UnescapeEscaped(s: String)
    ensures Unescaped(Escaped(s)) == s
    decreases |s|
  {
    if |s| > 0 {
      UnescapeEscaped(s[1..]);
      var e := Escaped(s);
      var tail := Escaped(s[1..]);
      if NeedsEscape(s[0]) {
        assert e == ['\\', s[0]] + tail;
        assert e[2..] == tail;
      } else {
        assert e == [s[0]] + tail;
        assert e[1..] == tail;
      }
      assert s == [s[0]] + s[1..];
    }
  }

  /**
   * `eina_str_escape`: `mallocOk` is the outcome of allocating the
   * `2 * strlen(str) + 1` bytes the result may need.
   */
  method Escape(str: String, mallocOk: bool) returns (r: Option<String>)
    requires CString(str)
    ensures !mallocOk ==> r.None?
    ensures mallocOk ==> r == Some(Escaped(str))
  {
    if !mallocOk {
      return None;
    }
    var buf := new char[2 * |str| + 1];
    var s := 0;
    var d := 0;
    while s < |str|
      invariant s <= |str| && d == |Escaped(str[..s])| && d <= 2 * s
      invariant buf[..d] == Escaped(str[..s])
      decreases |str| - s
    {
      EscapedAppend(str[..s], str[s]);
      assert str[..s + 1] == str[..s] + [str[s]];
      if NeedsEscape(str[s]) {
        buf[d] := '\\';
        d := d + 1;
      }
      buf[d] := str[s];
      d := d + 1;
      s := s + 1;
    }
    buf[d] := NUL;
    assert str[..s] == str;
    return Some(buf[..d]);
  }

  lemma {:induction false} EscapedAppend(s: String, c: char)
    ensures Escaped(s + [c]) == Escaped(s) + (if NeedsEscape(c) then ['\\', c] else [c])
    decreases |s|
  {
    if |s| == 0 {
      assert (s + [c])[1..] == [];
    } else {
      assert (s + [c])[1..] == s[1..] + [c];
      EscapedAppend(s[1..], c);
    }
  }

  // ----------------------------------------------------------- case mapping

  /**
   * `eina_str_tolower` (`upper` false) and `eina_str_toupper` (`upper`
   * true): maps each character of the string `buf` holds, in place; a NULL
   * string is left alone.
   */
  method MapCase(buf: Option<array<char>>, upper: bool)
    requires buf.Some? ==> NUL in buf.value[..]
    modifies if buf.Some? then {buf.value} else {}
    ensures buf.Some? ==> var n := |CStr(old(buf.value[..]))|;
      && buf.value[n..] == old(buf.value[n..])
      && buf.value[..n] == (if upper then UpperAll(old(buf.value[..n])) else Lower(old(buf.value[..n])))
  {
    if buf.None? {
      return;
    }
    var a := buf.value;
    ghost var n := |CStr(a[..])|;
    ghost var orig := a[..];
    CStrStopsAtNul(orig);
    var p := 0;
    while a[p] != NUL
      invariant p <= n
      invariant forall i :: 0 <= i < p ==> a[i] == Mapped(orig[i], upper)
      invariant forall i :: p <= i < a.Length ==> a[i] == orig[i]
      decreases n - p
    {
      a[p] := Mapped(a[p], upper);
      p := p + 1;
    }
    MappedPrefix(orig, a[..], n, upper);
  }

  /** The character `eina_str_toupper` (`upper`) or `eina_str_tolower` makes of `c`. */
  function Mapped(c: char, upper: bool): char
  {
    if upper then ToUpper(c) else ToLower(c)
  }

  /** A buffer mapped character by character up to `n` holds the mapped string there and nothing else changed. */
  lemma MappedPrefix(orig: seq<char>, d: seq<char>, n: nat, upper: bool)
    requires n <= |orig| == |d|
    requires forall i :: 0 <= i < n ==> d[i] == Mapped(orig[i], upper)
    requires forall i :: n <= i < |d| ==> d[i] == orig[i]
    ensures d[n..] == orig[n..]
    ensures d[..n] == (if upper then UpperAll(orig[..n]) else Lower(orig[..n]))
  {
  }

  /** In a buffer that holds a NUL, the string ends before the buffer does. */
  lemma CStrStopsAtNul(buf: seq<char>)
    requires NUL in buf
    ensures |CStr(buf)| < |buf|
  {
  }

  function UpperAll(s: String): (r: String)
    ensures |r| == |s| && forall i :: 0 <= i < |s| ==> r[i] == ToUpper(s[i])
  {
    if |s| == 0 then [] else [ToUpper(s[0])] + UpperAll(s[1..])
  }

  lemma LowerAppend(s: String, c: char)
    ensures Lower(s + [c]) == Lower(s) + [ToLower(c)]
  {
  }

  lemma UpperAllAppend(s: String, c: char)
    ensures UpperAll(s + [c]) == UpperAll(s) + [ToUpper(c)]
  {
  }

  /** Lower-casing twice is lower-casing once. */
  lemma LowerIdempotent(s: String)
    ensures Lower(Lower(s)) == Lower(s)
  {
    forall i | 0 <= i < |s| ensures Lower(Lower(s))[i] == Lower(s)[i] {
      CaseMapsAgree(s[i]);
    }
  }
}
