/**
 * The text side of the logging module: level names, the colour-capable
 * terminal list, and the parser of the `name:level,...` lists read from
 * the environment.
 */
module LogFormat {
  import opened Wrappers

  /** `EINA_LOG_LEVELS`: the number of named levels. */
  const LEVELS: int := 5

  /** `EINA_LOG_LEVEL_UNKNOWN`, the least 32-bit integer. */
  const LEVEL_UNKNOWN: int := -0x8000_0000

  const INT_RANGE: int := 0x1_0000_0000
  const LONG_MIN: int := -0x8000_0000_0000_0000
  const LONG_MAX: int := 0x7FFF_FFFF_FFFF_FFFF

  predicate IsInt32(v: int)
  {
    -0x8000_0000 <= v < 0x8000_0000
  }

  /** A `long` stored into an `int`: the low 32 bits, read as two's complement. */
  function ToInt32(v: int): (r: int)
    ensures IsInt32(r)
    ensures IsInt32(v) ==> r == v
    decreases if v >= 0x8000_0000 then v else if v < -0x8000_0000 then -v else 0
  {
    if IsInt32(v) then v
    else if v >= 0x8000_0000 then ToInt32(v - INT_RANGE)
    else ToInt32(v + INT_RANGE)
  }

  /** The conversion keeps the value modulo 2^32. */
  lemma {:induction false} ToInt32Congruent(v: int)
    ensures (ToInt32(v) - v) % INT_RANGE == 0
    decreases if v >= 0x8000_0000 then v else if v < -0x8000_0000 then -v else 0
  {
    if !IsInt32(v) {
      var v' := if v >= 0x8000_0000 then v - INT_RANGE else v + INT_RANGE;
      ToInt32Congruent(v');
      assert ToInt32(v) - v == (ToInt32(v') - v') + (v' - v);
    }
  }

  // ------------------------------------------------------------- decimals

  predicate IsDigit(c: char)
  {
    '0' <= c <= '9'
  }

  function DigitChar(d: nat): char
    requires d < 10
  {
    ('0' as int + d) as char
  }

  /** The decimal digits of `n`, without leading zeros. */
  function Digits(n: nat): (s: String)
    ensures |s| > 0
    decreases n
  {
    if n < 10 then [DigitChar(n)] else Digits(n / 10) + [DigitChar(n % 10)]
  }

  /** Every character of `Digits(n)` is a decimal digit. */
  lemma {:induction false} DigitsAreDigits(n: nat)
    ensures forall i :: 0 <= i < |Digits(n)| ==> IsDigit(Digits(n)[i])
    decreases n
  {
    if n >= 10 {
      DigitsAreDigits(n / 10);
    }
  }

  /** The value of a string of decimal digits, most significant first. */
  function DigitsValue(s: String): int
  {
    if |s| == 0 then 0
    else 10 * DigitsValue(s[..|s| - 1]) + (s[|s| - 1] as int - '0' as int)
  }

  /** Reading the digits of `n` gives back `n`. */
  lemma {:induction false} DigitsRoundTrip(n: nat)
    ensures DigitsValue(Digits(n)) == n
    decreases n
  {
    if n >= 10 {
      DigitsRoundTrip(n / 10);
      var s := Digits(n);
      assert s[..|s| - 1] == Digits(n / 10);
    }
  }

  /** `Digits(n)` has at most `k` digits exactly when `n < 10^k`. */
  lemma {:induction false} DigitsLength(n: nat)
    ensures |Digits(n)| == 1 <==> n < 10
    ensures |Digits(n)| == 2 <==> 10 <= n < 100
    ensures |Digits(n)| == 3 <==> 100 <= n < 1000
    ensures |Digits(n)| > 3 <==> n >= 1000
    decreases n
  {
    if n >= 10 {
      DigitsLength(n / 10);
    }
  }

  function Zeros(k: nat): (s: String)
    ensures |s| == k && forall i :: 0 <= i < k ==> s[i] == '0'
  {
    if k == 0 then [] else Zeros(k - 1) + ['0']
  }

  /** `%0<w>d` for a non-negative value: the digits, left-padded with zeros to width `w`. */
  function PadZeros(s: String, w: nat): (r: String)
    ensures |r| == if |s| >= w then |s| else w
  {
    if |s| >= w then s else Zeros(w - |s|) + s
  }

  /** `snprintf(buf, 4, "%03d", v)`: the formatted text cut to the 3 characters that fit with the NUL. */
  function Format03d(v: int): (r: String)
    ensures |r| == 3
  {
    var full := if v >= 0 then PadZeros(Digits(v), 3) else "-" + PadZeros(Digits(-v), 2);
    full[..3]
  }

  function Name(level: int): String
    requires 0 <= level < LEVELS
  {
    ["CRI", "ERR", "WRN", "INF", "DBG"][level]
  }

  /** `eina_log_print_level_name_get`: the fixed names, else `%03d` in a 4-byte buffer. */
  function LevelName(level: int): (r: String)
    ensures |r| == 3
  {
    if level < 0 then Format03d(level)
    else if level >= LEVELS then Format03d(level)
    else Name(level)
  }

  /** A level from 5 to 999 reads back from its name. */
  lemma LevelNameReadsBack(level: int)
    requires LEVELS <= level < 1000
    ensures forall i :: 0 <= i < 3 ==> IsDigit(LevelName(level)[i])
    ensures DigitsValue(LevelName(level)) == level
  {
    DigitsLength(level);
    DigitsRoundTrip(level);
    var d := Digits(level);
    var r := PadZeros(d, 3);
    assert LevelName(level) == r;
    DigitsAreDigits(level);
    LeadingZeros(d, 3 - |d|);
  }

  /** A level from -99 to -1 is a minus sign and two digits holding its magnitude. */
  lemma NegativeLevelName(level: int)
    requires -100 < level < 0
    ensures LevelName(level)[0] == '-'
    ensures IsDigit(LevelName(level)[1]) && IsDigit(LevelName(level)[2])
    ensures DigitsValue(LevelName(level)[1..]) == -level
  {
    DigitsLength(-level);
    DigitsRoundTrip(-level);
    var d := Digits(-level);
    var r := PadZeros(d, 2);
    assert LevelName(level) == "-" + r;
    assert LevelName(level)[1..] == r;
    DigitsAreDigits(-level);
    LeadingZeros(d, 2 - |d|);
  }

  /** Leading zeros do not change a decimal value. */
  lemma {:induction false} LeadingZeros(s: String, k: nat)
    requires forall i :: 0 <= i < |s| ==> IsDigit(s[i])
    ensures forall i :: 0 <= i < |Zeros(k) + s| ==> IsDigit((Zeros(k) + s)[i])
    ensures DigitsValue(Zeros(k) + s) == DigitsValue(s)
    decreases |s|
  {
    var z := Zeros(k) + s;
    if |s| == 0 {
      assert z == Zeros(k);
      ZerosValue(k);
    } else {
      var s' := s[..|s| - 1];
      LeadingZeros(s', k);
      assert z[..|z| - 1] == Zeros(k) + s';
    }
  }

  lemma {:induction false} ZerosValue(k: nat)
    ensures DigitsValue(Zeros(k)) == 0
  {
    if k > 0 {
      ZerosValue(k - 1);
      assert Zeros(k)[..k - 1] == Zeros(k - 1);
    }
  }

  /** The names the level tests expect. */
  lemma LevelNameExamples()
    ensures LevelName(0) == "CRI" && LevelName(4) == "DBG"
    ensures LevelName(5) == "005" && LevelName(12) == "012" && LevelName(369) == "369"
    ensures LevelName(-1) == "-01" && LevelName(-48) == "-48"
  {
    PaddedExamples();
    NegativeExamples();
  }

  lemma PaddedExamples()
    ensures Format03d(5) == "005" && Format03d(12) == "012" && Format03d(369) == "369"
  {
    assert PadZeros(Digits(5), 3) == "005";
    assert Digits(12) == Digits(1) + ['2'];
    assert PadZeros(Digits(12), 3) == "012";
    assert Digits(369) == Digits(36) + ['9'] && Digits(36) == Digits(3) + ['6'];
  }

  lemma NegativeExamples()
    ensures Format03d(-1) == "-01" && Format03d(-48) == "-48"
  {
    assert PadZeros(Digits(1), 2) == "01";
    assert Digits(48) == Digits(4) + ['8'];
  }

  // ------------------------------------------------------ colour terminals

  /** The terminals the colour check accepts. */
  const ColorTerms: set<String> := {"xterm", "xterm-color", "Eterm", "aterm", "kterm", "rxvt", "rxvt-unicode", "screen", "gnome", "interix"}

  /** `strncmp(s, p, |p|) == 0` followed by the rest being empty or `suffix`. */
  predicate StemThen(s: String, stem: String, suffix: String)
  {
    stem <= s && (|s| == |stem| || s[|stem|..] == suffix)
  }

  /**
   * `eina_log_term_color_supported`: a switch on the first character, then
   * a comparison of the tail. A NULL `TERM` is not a colour terminal.
   */
  function TermColorSupported(term: Option<String>): (r: bool)
  {
    if term.None? || |term.value| == 0 then false
    else
      var t := term.value;
      var tail := t[1..];
      if t[0] == 'x' then StemThen(tail, "term", "-color")
      else if t[0] == 'E' || t[0] == 'a' || t[0] == 'k' then tail == "term"
      else if t[0] == 'r' then StemThen(tail, "xvt", "-unicode")
      else if t[0] == 's' then tail == "creen"
      else if t[0] == 'g' then tail == "nome"
      else if t[0] == 'i' then tail == "nterix"
      else false
  }

  /** The check accepts exactly the listed terminals. */
  lemma TermColorExactly(t: String)
    ensures TermColorSupported(Some(t)) <==> t in ColorTerms
  {
    if t in ColorTerms {
      TermColorAcceptsListed(t);
    } else if |t| > 0 && TermColorSupported(Some(t)) {
      TermColorOnlyListed(t);
    }
  }

  lemma TermColorAcceptsListed(t: String)
    requires t in ColorTerms
    ensures TermColorSupported(Some(t))
  {
    if t == "xterm" || t == "xterm-color" {
      assert t[1..] == "term" || t[1..] == "term" + "-color";
    } else if t == "rxvt" || t == "rxvt-unicode" {
      assert t[1..] == "xvt" || t[1..] == "xvt" + "-unicode";
    } else if t == "Eterm" || t == "aterm" || t == "kterm" {
      assert t[1..] == "term";
    } else if t == "screen" {
      assert t[1..] == "creen";
    } else if t == "gnome" {
      assert t[1..] == "nome";
    } else {
      assert t[1..] == "nterix";
    }
  }

  lemma TermColorOnlyListed(t: String)
    requires |t| > 0 && TermColorSupported(Some(t))
    ensures t in ColorTerms
  {
    var tail := t[1..];
    assert t == [t[0]] + tail;
    if t[0] == 'x' {
      StemThenExactly(tail, "term", "-color");
      assert t == "xterm" || t == "xterm-color";
    } else if t[0] == 'r' {
      StemThenExactly(tail, "xvt", "-unicode");
      assert t == "rxvt" || t == "rxvt-unicode";
    } else if t[0] == 'E' {
      assert t == "Eterm";
    } else if t[0] == 'a' {
      assert t == "aterm";
    } else if t[0] == 'k' {
      assert t == "kterm";
    } else if t[0] == 's' {
      assert t == "screen";
    } else if t[0] == 'g' {
      assert t == "gnome";
    } else {
      assert t == "interix";
    }
  }

  lemma StemThenExactly(s: String, stem: String, suffix: String)
    ensures StemThen(s, stem, suffix) <==> s == stem || s == stem + suffix
  {
    if StemThen(s, stem, suffix) && |s| != |stem| {
      assert s == stem + s[|stem|..];
    }
  }

  // --------------------------------------------------------- level lists

  /** A `name:level` entry of a pending or glob list. */
  datatype LevelEntry = LevelEntry(name: String, level: int)

  /** `strchr(s + from, c)` as an index, `|s|` when absent. */
  function Find(s: String, from: nat, c: char): (p: nat)
    requires from <= |s|
    ensures from <= p <= |s| && (p < |s| ==> s[p] == c)
    decreases |s| - from
  {
    if from == |s| then |s| else if s[from] == c then from else Find(s, from + 1, c)
  }

  /** Nothing before the found index is `c`. */
  lemma {:induction false} FindFirst(s: String, from: nat, c: char)
    requires from <= |s|
    ensures forall i :: from <= i < Find(s, from, c) ==> s[i] != c
    decreases |s| - from
  {
    if from < |s| && s[from] != c {
      FindFirst(s, from + 1, c);
    }
  }

  predicate IsSpace(c: char)
  {
    c == ' ' || c == '\t' || c == '\n' || c == '\U{B}' || c == '\U{C}' || c == '\r'
  }

  /** The value of the digits `s[i..hi]` accumulated onto `acc`, most significant first. */
  function Acc(s: String, i: nat, hi: nat, acc: nat): nat
    requires i <= hi <= |s| && forall j :: i <= j < hi ==> IsDigit(s[j])
    decreases hi - i
  {
    if i == hi then acc
    else
      assert IsDigit(s[i]);
      Acc(s, i + 1, hi, 10 * acc + (s[i] as int - '0' as int))
  }

  /** Accumulating one more digit at the end. */
  lemma {:induction false} AccSnoc(s: String, i: nat, hi: nat, acc: nat)
    requires i <= hi < |s| && forall j :: i <= j <= hi ==> IsDigit(s[j])
    ensures Acc(s, i, hi + 1, acc) == 10 * Acc(s, i, hi, acc) + (s[hi] as int - '0' as int)
    decreases hi - i
  {
    if i < hi {
      AccSnoc(s, i + 1, hi, 10 * acc + (s[i] as int - '0' as int));
    }
  }

  /** Accumulated from zero, the digits have their decimal value. */
  lemma {:induction false} AccValue(s: String, lo: nat, hi: nat)
    requires lo <= hi <= |s| && forall j :: lo <= j < hi ==> IsDigit(s[j])
    ensures Acc(s, lo, hi, 0) == DigitsValue(s[lo..hi])
    decreases hi - lo
  {
    if lo < hi {
      AccValue(s, lo, hi - 1);
      AccSnoc(s, lo, hi - 1, 0);
      assert s[lo..hi][..hi - lo - 1] == s[lo..hi - 1];
    }
  }

  /** A `long` result: the value clamped to `[LONG_MIN, LONG_MAX]`, as `strtol` does on overflow. */
  function ClampLong(v: int): (r: int)
    ensures LONG_MIN <= r <= LONG_MAX
    ensures LONG_MIN <= v <= LONG_MAX ==> r == v
  {
    if v > LONG_MAX then LONG_MAX else if v < LONG_MIN then LONG_MIN else v
  }

  /** Where `strtol` is: skipping white space, or in the digits that began at `first`. */
  datatype StrtolPhase = Blanks | InDigits(first: nat, neg: bool, acc: nat)

  /**
   * `strtol(s + p, &tmp, 10)`, one character at a time from `i`: leading
   * white space, an optional sign, then the digits, `acc` holding their
   * value so far. Returns the value, clamped to the range of a 64-bit
   * `long`, and the index `tmp` points to, which is `p` when there are no
   * digits.
   */
  function Strtol(s: String, i: nat, p: nat, ph: StrtolPhase): (r: (int, nat))
    requires p <= i <= |s| && (ph.InDigits? ==> p <= ph.first <= i)
    ensures p <= r.1 <= |s|
    ensures LONG_MIN <= r.0 <= LONG_MAX
    decreases |s| - i, ph.Blanks?
  {
    match ph
    case Blanks =>
      if i < |s| && IsSpace(s[i]) then Strtol(s, i + 1, p, Blanks)
      else if i < |s| && (s[i] == '-' || s[i] == '+') then Strtol(s, i + 1, p, InDigits(i + 1, s[i] == '-', 0))
      else Strtol(s, i, p, InDigits(i, false, 0))
    case InDigits(first, neg, acc) =>
      if i < |s| && IsDigit(s[i]) then Strtol(s, i + 1, p, InDigits(first, neg, 10 * acc + (s[i] as int - '0' as int)))
      else if i == first then (0, p)
      else (ClampLong(if neg then 0 - acc else acc), i)
  }

  /** The digit loop over a run of digits ended by a non-digit or the end of the string. */
  lemma {:induction false} StrtolDigitsRun(s: String, i: nat, first: nat, p: nat, neg: bool, acc: nat, hi: nat)
    requires p <= first <= i <= hi <= |s| && first < hi
    requires forall j :: i <= j < hi ==> IsDigit(s[j])
    requires hi == |s| || !IsDigit(s[hi])
    ensures var a := Acc(s, i, hi, acc);
      Strtol(s, i, p, InDigits(first, neg, acc)) == (ClampLong(if neg then 0 - a else a), hi)
    decreases hi - i
  {
    if i < hi {
      StrtolDigitsRun(s, i + 1, first, p, neg, 10 * acc + (s[i] as int - '0' as int), hi);
    }
  }

  /** Where one item's colon, level and following comma are. */
  datatype Scan = Scan(colon: nat, level: int, tmp: nat, comma: nat)

  /**
   * The scan of the item at `start`: `strchr` for the colon, `strtol` for
   * the level after it, and `strchr` for the next comma from where the
   * number ended.
   */
  function ScanItem(s: String, start: nat): (sc: Scan)
    requires start <= |s|
    ensures start <= sc.colon <= |s|
    ensures sc.colon < |s| ==> sc.colon + 1 <= sc.tmp <= sc.comma <= |s|
  {
    var colon := Find(s, start, ':');
    if colon == |s| then Scan(colon, 0, colon, colon)
    else
      var r := Strtol(s, colon + 1, colon + 1, Blanks);
      Scan(colon, r.0, r.1, Find(s, r.1, ','))
  }

  /**
   * What one pass of the parse loop over the item at `start` does: the
   * entry it appends (none when the level has no digits or when the
   * allocation fails), whether the loop then stops, and where the next
   * item starts. The allocation of the `k`-th entry fails when `k` is in
   * `failing`.
   */
  datatype Round = Round(emitted: seq<LevelEntry>, stop: bool, next: nat)

  /** The positions of a scan lie in order inside the string. */
  predicate ScanFits(s: String, start: nat, sc: Scan)
  {
    start <= sc.colon <= |s| && (sc.colon < |s| ==> sc.colon + 1 <= sc.tmp <= sc.comma <= |s|)
  }

  /** The round over the item at `start` once the item has been scanned as `sc`. */
  function RoundOf(s: String, start: nat, k: nat, failing: set<nat>, sc: Scan): (r: Round)
    requires start <= |s| && ScanFits(s, start, sc)
    ensures |r.emitted| <= 1 && (!r.stop ==> start < r.next <= |s|)
    ensures r.emitted != [] ==> k !in failing && IsInt32(r.emitted[0].level)
  {
    if sc.colon == |s| then Round([], true, start)
    else if sc.tmp != sc.colon + 1 && k in failing then Round([], true, start)
    else
      var emitted := if sc.tmp == sc.colon + 1 then [] else [LevelEntry(s[start..sc.colon], ToInt32(sc.level))];
      if sc.comma == |s| then Round(emitted, true, start) else Round(emitted, false, sc.comma + 1)
  }

  function RoundAt(s: String, start: nat, k: nat, failing: set<nat>): (r: Round)
    requires start <= |s|
  {
    RoundOf(s, start, k, failing, ScanItem(s, start))
  }

  /** The entries the parser appends from the item at `start` on. */
  function ParseFrom(s: String, start: nat, k: nat, failing: set<nat>): seq<LevelEntry>
    requires start <= |s|
    decreases |s| - start, 1
  {
    ParseScanned(s, start, k, failing, ScanItem(s, start))
  }

  /** The same, once the item at `start` has been scanned as `sc`. */
  function ParseScanned(s: String, start: nat, k: nat, failing: set<nat>, sc: Scan): seq<LevelEntry>
    requires start <= |s| && ScanFits(s, start, sc)
    decreases |s| - start, 0
  {
    var r := RoundOf(s, start, k, failing, sc);
    if r.stop then r.emitted else r.emitted + ParseFrom(s, r.next, k + |r.emitted|, failing)
  }

  /** One round moves its entry from the unparsed rest to the parsed prefix. */
  lemma ShiftRound(s: String, start: nat, k: nat, failing: set<nat>, emitted: seq<LevelEntry>, stop: bool, next: nat,
                   entries: seq<LevelEntry>, target: seq<LevelEntry>)
    requires start <= |s| && Round(emitted, stop, next) == RoundAt(s, start, k, failing)
    requires entries + ParseFrom(s, start, k, failing) == target
    ensures stop ==> entries + emitted == target
    ensures !stop ==> (entries + emitted) + ParseFrom(s, next, k + |emitted|, failing) == target
  {
    if !stop {
      var rest := ParseFrom(s, next, k + |emitted|, failing);
      assert entries + (emitted + rest) == (entries + emitted) + rest;
    }
  }

  /**
   * The body of the parse loop over the item at `start`: `strchr` for the
   * colon, `strtol` for the level, the allocation of the entry and
   * `strchr` for the comma that ends the item. Returns the entry appended
   * (if any), whether the loop stops, and where the next item starts.
   */
  method ParseRound(s: String, start: nat, k: nat, failing: set<nat>) returns (emitted: seq<LevelEntry>, stop: bool, next: nat)
    requires start <= |s|
    ensures Round(emitted, stop, next) == RoundAt(s, start, k, failing)
  {
    emitted, stop, next := [], true, start;
    var colon := Find(s, start, ':');
    if colon == |s| {
      return;
    }
    var level, tmp := Strtol(s, colon + 1, colon + 1, Blanks).0, Strtol(s, colon + 1, colon + 1, Blanks).1;
    if tmp != colon + 1 {
      if k in failing {
        return;
      }
      emitted := [LevelEntry(s[start..colon], ToInt32(level))];
    }
    var comma := Find(s, tmp, ',');
    if comma < |s| {
      stop, next := false, comma + 1;
    }
  }

  /**
   * `eina_log_domain_parse_pendings` and `eina_log_domain_parse_pending_globs`
   * (the same loop, appending to different lists): the entries parsed from
   * the environment value `env`, `None` when the variable is unset.
   */
  method ParseLevels(env: Option<String>, failing: set<nat>) returns (entries: seq<LevelEntry>)
    ensures env.None? ==> entries == []
    ensures env.Some? ==> entries == ParseFrom(env.value, 0, 0, failing)
  {
    entries := [];
    if env.None? {
      return;
    }
    var s := env.value;
    ghost var target := ParseFrom(s, 0, 0, failing);
    var start: nat := 0;
    var k: nat := 0;
    var done := false;
    while !done
      invariant start <= |s|
      invariant done ==> entries == target
      invariant !done ==> entries + ParseFrom(s, start, k, failing) == target
      decreases |s| - start, !done
    {
      var emitted, stop, next := ParseRound(s, start, k, failing);
      ShiftRound(s, start, k, failing, emitted, stop, next, entries, target);
      entries := entries + emitted;
      if stop {
        done := true;
      } else {
        start, k := next, k + |emitted|;
      }
    }
  }

  /** The text of an entry list as it is written in the environment. */
  function Render(entries: seq<LevelEntry>): String
  {
    if |entries| == 0 then []
    else
      var e := entries[0];
      var item := Item(e);
      if |entries| == 1 then item else item + ("," + Render(entries[1..]))
  }

  /** The `name:level` text of one entry. */
  function Item(e: LevelEntry): String
  {
    e.name + ":" + Decimal(e.level)
  }

  function Decimal(v: int): (s: String)
    ensures |s| > 0
  {
    if v < 0 then "-" + Digits(-v) else Digits(v)
  }

  predicate PlainName(name: String)
  {
    ':' !in name && ',' !in name
  }

  /** Every well-formed list is read back entry for entry when no allocation fails. */
  lemma ParseRender(entries: seq<LevelEntry>)
    requires forall i :: 0 <= i < |entries| ==> PlainName(entries[i].name) && IsInt32(entries[i].level)
    ensures ParseFrom(Render(entries), 0, 0, {}) == entries
  {
    if |entries| == 0 {
      assert RoundAt([], 0, 0, {}) == Round([], true, 0);
    } else {
      RenderItems(entries, 0);
      ItemsParsed(Render(entries), entries, 0, 0);
      assert entries[0..] == entries;
    }
  }

  /** Where the item of `entries[i]` starts in `Render(entries)`. */
  function Offset(entries: seq<LevelEntry>, i: nat): nat
    requires i <= |entries|
  {
    if i == 0 then 0
    else Offset(entries, i - 1) + |Item(entries[i - 1])| + 1
  }

  /** From the offset of its `i`-th item on, a rendered list is the rendering of its tail. */
  lemma {:induction false} RenderSuffix(entries: seq<LevelEntry>, i: nat)
    requires i < |entries|
    ensures Offset(entries, i) <= |Render(entries)|
    ensures Render(entries)[Offset(entries, i)..] == Render(entries[i..])
  {
    var s := Render(entries);
    if i == 0 {
      assert entries[0..] == entries;
    } else {
      RenderSuffix(entries, i - 1);
      RenderHead(s, Offset(entries, i - 1), entries[i - 1..]);
      assert entries[i - 1..][1..] == entries[i..];
    }
  }

  /**
   * `s` holds the items of `entries` from the `i`-th on, each at its offset
   * and followed by a comma, the last one by the end of `s`.
   */
  predicate ItemsFrom(s: String, entries: seq<LevelEntry>, i: nat)
    requires i < |entries|
    decreases |entries| - i
  {
    var off := Offset(entries, i);
    var after := off + |Item(entries[i])|;
    && after <= |s| && s[off..after] == Item(entries[i])
    && (after == |s| <==> i + 1 == |entries|)
    && (after < |s| ==> s[after] == ',')
    && (i + 1 < |entries| ==> Offset(entries, i + 1) == after + 1 && ItemsFrom(s, entries, i + 1))
  }

  lemma {:induction false} RenderItems(entries: seq<LevelEntry>, i: nat)
    requires i < |entries|
    ensures ItemsFrom(Render(entries), entries, i)
    decreases |entries| - i
  {
    RenderItemAt(entries, i);
    if i + 1 < |entries| {
      RenderItems(entries, i + 1);
    }
  }

  /** From each of its items on, a list of plain names and 32-bit levels laid out as rendered reads back as its tail. */
  lemma {:induction false} ItemsParsed(s: String, entries: seq<LevelEntry>, i: nat, k: nat)
    requires forall j :: 0 <= j < |entries| ==> PlainName(entries[j].name) && IsInt32(entries[j].level)
    requires i < |entries| && ItemsFrom(s, entries, i)
    ensures Offset(entries, i) <= |s|
    ensures ParseFrom(s, Offset(entries, i), k, {}) == entries[i..]
    decreases |entries| - i
  {
    ItemThenRestParsed(s, entries, i, k);
    SplitFirst(entries, i);
    if i + 1 < |entries| {
      ItemsParsed(s, entries, i + 1, k + 1);
      ConsBack(ParseFrom(s, Offset(entries, i), k, {}), entries[i], ParseFrom(s, Offset(entries, i + 1), k + 1, {}),
        entries[i + 1..], entries[i..]);
    }
  }

  /** The `i`-th item of a laid-out list is read, then the items after it. */
  lemma ItemThenRestParsed(s: String, entries: seq<LevelEntry>, i: nat, k: nat)
    requires forall j :: 0 <= j < |entries| ==> PlainName(entries[j].name) && IsInt32(entries[j].level)
    requires i < |entries| && ItemsFrom(s, entries, i)
    ensures Offset(entries, i) <= |s|
    ensures i + 1 == |entries| ==> ParseFrom(s, Offset(entries, i), k, {}) == [entries[i]]
    ensures i + 1 < |entries| ==> ItemsFrom(s, entries, i + 1)
    ensures i + 1 < |entries| ==> ParseFrom(s, Offset(entries, i), k, {}) == [entries[i]] + ParseFrom(s, Offset(entries, i + 1), k + 1, {})
  {
    var e := entries[i];
    var off := Offset(entries, i);
    var after := off + |Item(e)|;
    var next := if i + 1 < |entries| then Offset(entries, i + 1) else after + 1;
    ParseItemThenRest(s, off, e, after, next, k);
  }

  /** A suffix of a sequence is its first element and the suffix after it. */
  lemma SplitFirst<T>(xs: seq<T>, i: nat)
    requires i < |xs|
    ensures xs[i..] == [xs[i]] + xs[i + 1..]
    ensures i + 1 == |xs| ==> xs[i..] == [xs[i]]
  {
  }

  /** One `name:level` item that the end or a comma follows is read, then the rest from `next`. */
  lemma ParseItemThenRest(s: String, start: nat, e: LevelEntry, after: nat, next: nat, k: nat)
    requires PlainName(e.name) && IsInt32(e.level)
    requires after == start + |Item(e)| <= |s|
    requires s[start..after] == Item(e)
    requires after == |s| || (s[after] == ',' && next == after + 1)
    ensures after == |s| ==> ParseFrom(s, start, k, {}) == [e]
    ensures after < |s| ==> next <= |s| && ParseFrom(s, start, k, {}) == [e] + ParseFrom(s, next, k + 1, {})
  {
    ParseItem(s, start, k, e.name, e.level, after);
    ParseStep(s, start, k, [e], after == |s|, if after == |s| then start else after + 1);
  }

  /** The `i`-th item of a rendered list sits at its offset, and the end or a comma follows it. */
  lemma RenderItemAt(entries: seq<LevelEntry>, i: nat)
    requires i < |entries|
    ensures var s := Render(entries);
      var off := Offset(entries, i);
      var after := off + |Item(entries[i])|;
      && after <= |s| && s[off..after] == Item(entries[i])
      && (after == |s| <==> i + 1 == |entries|)
      && (after < |s| ==> s[after] == ',')
      && (i + 1 < |entries| ==> Offset(entries, i + 1) == after + 1)
  {
    RenderSuffix(entries, i);
    RenderItem(Render(entries), Offset(entries, i), entries[i..]);
  }

  lemma ConsBack(p: seq<LevelEntry>, e: LevelEntry, q: seq<LevelEntry>, r: seq<LevelEntry>, whole: seq<LevelEntry>)
    requires p == [e] + q && q == r && whole == [e] + r
    ensures p == whole
  {
  }

  /** One round of the parse, followed by the rest of it. */
  lemma ParseStep(s: String, start: nat, k: nat, emitted: seq<LevelEntry>, stop: bool, next: nat)
    requires start <= |s| && RoundAt(s, start, k, {}) == Round(emitted, stop, next)
    ensures !stop ==> next <= |s|
    ensures ParseFrom(s, start, k, {}) == emitted + (if stop then [] else ParseFrom(s, next, k + |emitted|, {}))
  {
    if stop {
      assert emitted + [] == emitted;
    }
  }

  /** The first item of a rendered list sits at its start, and the end or a comma follows it. */
  lemma RenderItem(s: String, start: nat, entries: seq<LevelEntry>)
    requires |entries| > 0 && start <= |s| && s[start..] == Render(entries)
    ensures var item := Item(entries[0]);
      var after := start + |item|;
      && after <= |s| && s[start..after] == item
      && (after == |s| <==> |entries| == 1)
      && (after < |s| ==> s[after] == ',')
  {
    RenderHead(s, start, entries);
  }

  /** The first item of a rendered list sits at its start, and the rest follows a comma. */
  lemma RenderHead(s: String, start: nat, entries: seq<LevelEntry>)
    requires |entries| > 0 && start <= |s| && s[start..] == Render(entries)
    ensures var item := Item(entries[0]);
      var after := start + |item|;
      && after <= |s| && s[start..after] == item
      && (|entries| == 1 ==> after == |s|)
      && (|entries| > 1 ==> after < |s| && s[after] == ',' && s[after + 1..] == Render(entries[1..]))
  {
    var item := Item(entries[0]);
    if |entries| == 1 {
      ItemAlone(s, start, item);
    } else {
      ItemThenRest(s, start, item, Render(entries[1..]));
    }
  }

  lemma ItemAlone(s: String, start: nat, item: String)
    requires start <= |s| && s[start..] == item
    ensures start + |item| == |s| && s[start..start + |item|] == item
  {
    assert s[start..start + |item|] == s[start..];
  }

  lemma ItemThenRest(s: String, start: nat, item: String, rest: String)
    requires start <= |s| && s[start..] == item + ("," + rest)
    ensures var after := start + |item|;
      after < |s| && s[start..after] == item && s[after] == ',' && s[after + 1..] == rest
  {
    var t := s[start..];
    var after := start + |item|;
    assert s[start..after] == t[..|item|];
    assert s[after] == t[|item|];
    assert s[after + 1..] == t[|item| + 1..];
  }

  /** A prefix of a slice is a slice. */
  lemma SlicePrefix(s: String, lo: nat, hi: nat, n: nat)
    requires lo + n <= hi <= |s|
    ensures s[lo..hi][..n] == s[lo..lo + n]
  {
  }

  /** A suffix of a slice is a slice. */
  lemma SliceSuffix(s: String, lo: nat, hi: nat, n: nat)
    requires lo + n <= hi <= |s|
    ensures s[lo..hi][n..] == s[lo + n..hi]
  {
  }

  /** One item `name:level` followed by the end or a comma is appended whole. */
  lemma ParseItem(s: String, start: nat, k: nat, name: String, v: int, after: nat)
    requires PlainName(name) && IsInt32(v)
    requires start + |name| + 1 + |Decimal(v)| == after <= |s|
    requires s[start..after] == name + ":" + Decimal(v)
    requires after == |s| || s[after] == ','
    ensures RoundAt(s, start, k, {})
      == Round([LevelEntry(name, v)], after == |s|, if after == |s| then start else after + 1)
  {
    var sc := ScanItem(s, start);
    assert sc == Scan(start + |name|, v, after, after) by {
      ScanOfItem(s, start, name, v, after);
    }
    assert s[start..sc.colon] == name by {
      SlicePrefix(s, start, after, |name|);
      ItemParts(name, Decimal(v));
    }
    assert LevelEntry(s[start..sc.colon], ToInt32(sc.level)) == LevelEntry(name, v);
  }

  /** The scan of such an item finds its colon, its level and the comma after it. */
  lemma ScanOfItem(s: String, start: nat, name: String, v: int, after: nat)
    requires PlainName(name) && IsInt32(v)
    requires start + |name| + 1 + |Decimal(v)| == after <= |s|
    requires s[start..after] == name + ":" + Decimal(v)
    requires after == |s| || s[after] == ','
    ensures ScanItem(s, start) == Scan(start + |name|, v, after, after)
  {
    ColonOfItem(s, start, name, Decimal(v), after);
    LevelOfItem(s, start, name, v, after);
    if after < |s| {
      FindPast(s, after, ',', after);
    }
  }

  /** The level of an item is read up to its end. */
  lemma LevelOfItem(s: String, start: nat, name: String, v: int, after: nat)
    requires IsInt32(v)
    requires start + |name| + 1 + |Decimal(v)| == after <= |s|
    requires s[start..after] == name + ":" + Decimal(v)
    requires after == |s| || s[after] == ','
    ensures Strtol(s, start + |name| + 1, start + |name| + 1, Blanks) == (v, after)
  {
    var p := start + |name| + 1;
    LevelSlice(s, start, name, Decimal(v), after, p);
    StrtolDecimal(s, p, v, after);
  }

  /** The text after the colon of an item is its level. */
  lemma LevelSlice(s: String, start: nat, name: String, d: String, after: nat, p: nat)
    requires p == start + |name| + 1 && p + |d| == after <= |s|
    requires s[start..after] == name + ":" + d
    ensures s[p..after] == d
  {
    SliceSuffix(s, start, after, |name| + 1);
    ItemParts(name, d);
  }

  lemma ColonOfItem(s: String, start: nat, name: String, d: String, after: nat)
    requires PlainName(name)
    requires start + |name| + 1 + |d| == after <= |s|
    requires s[start..after] == name + ":" + d
    ensures Find(s, start, ':') == start + |name|
  {
    var colon := start + |name|;
    var item := name + ":" + d;
    forall i | start <= i < colon ensures s[i] != ':' {
      assert s[i] == item[i - start] == name[i - start];
    }
    assert s[colon] == item[|name|] == ':';
    FindPast(s, start, ':', colon);
  }

  /** The name, the colon and the level text of an item. */
  lemma ItemParts(name: String, d: String)
    ensures (name + ":" + d)[..|name|] == name
    ensures (name + ":" + d)[|name|] == ':'
    ensures (name + ":" + d)[|name| + 1..] == d
  {
    var item := name + ":" + d;
    assert item[|name| + 1..] == d;
  }

  /** `Find` stops at the first occurrence, past a stretch free of it. */
  lemma {:induction false} FindPast(s: String, from: nat, c: char, at: nat)
    requires from <= at < |s| && s[at] == c && forall i :: from <= i < at ==> s[i] != c
    ensures Find(s, from, c) == at
    decreases at - from
  {
    if from < at {
      FindPast(s, from + 1, c, at);
    }
  }

  /** `strtol` reads back a rendered level that the end or a comma follows. */
  lemma StrtolDecimal(s: String, p: nat, v: int, after: nat)
    requires IsInt32(v) && p + |Decimal(v)| == after <= |s|
    requires s[p..after] == Decimal(v)
    requires after == |s| || s[after] == ','
    ensures Strtol(s, p, p, Blanks) == (v, after)
  {
    var d := Decimal(v);
    var mag: nat := if v < 0 then -v else v;
    var digits := Digits(mag);
    DigitsAreDigits(mag);
    var p2 := if v < 0 then p + 1 else p;
    assert s[p] == d[0];
    if v < 0 {
      assert Strtol(s, p, p, Blanks) == Strtol(s, p2, p, InDigits(p2, true, 0));
    } else {
      assert IsDigit(digits[0]);
      assert Strtol(s, p, p, Blanks) == Strtol(s, p2, p, InDigits(p2, false, 0));
    }
    assert s[p2..after] == digits;
    forall j | p2 <= j < after ensures IsDigit(s[j]) {
      assert s[j] == digits[j - p2];
    }
    StrtolDigitsRun(s, p2, p2, p, v < 0, 0, after);
    AccValue(s, p2, after);
    DigitsRoundTrip(mag);
  }

  /** An item whose level has no digits is skipped, and the next one is read. */
  lemma ParseSkipsBadLevel(s: String)
    requires s == "a:x,b:2"
    ensures ParseFrom(s, 0, 0, {}) == [LevelEntry("b", 2)]
  {
    assert RoundAt(s, 0, 0, {}) == Round([], false, 4) by {
      FindPast(s, 0, ':', 1);
      assert Strtol(s, 2, 2, Blanks) == (0, 2);
      FindPast(s, 2, ',', 3);
    }
    assert RoundAt(s, 4, 0, {}) == Round([LevelEntry("b", 2)], true, 4) by {
      assert s[4..7] == "b" + ":" + Decimal(2);
      ParseItem(s, 4, 0, "b", 2, 7);
    }
    assert ParseFrom(s, 0, 0, {}) == [] + ParseFrom(s, 4, 0, {});
  }
}
