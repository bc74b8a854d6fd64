/**
 * The timing counter: a named list of clocks, newest first. `start` pushes
 * a clock that is not yet valid, `stop` completes the newest one, and
 * `dump` renders every completed clock, oldest first, as a line of text.
 *
 * The clock source is a parameter (`now`, `None` when reading it fails),
 * and so are the outcomes of the allocations.
 */
module Counter {
  import opened Wrappers
  import LogFormat

  /** A `struct timespec`. */
  datatype NanoTime = NanoTime(sec: int, nsec: int)

  const ZERO_TIME := NanoTime(0, 0)

  /** An `Eina_Clock`. */
  datatype Clock = Clock(start: NanoTime, end: NanoTime, specimen: int, valid: bool)

  const NS_PER_SEC: int := 1000000000

  /** A time in nanoseconds, as `dump` computes it. */
  function Nanoseconds(t: NanoTime): int
  {
    t.sec * NS_PER_SEC + t.nsec
  }

  /** The experiment time `dump` prints: `(end.sec - start.sec) * 10^9 + end.nsec - start.nsec`. */
  function Diff(c: Clock): (d: int)
  {
    (c.end.sec - c.start.sec) * NS_PER_SEC + c.end.nsec - c.start.nsec
  }

  /** The experiment time is the ending time less the starting time. */
  lemma DiffIsElapsed(c: Clock)
    ensures Diff(c) == Nanoseconds(c.end) - Nanoseconds(c.start)
  {
  }

  // -------------------------------------------------------------- text

  /** The first line of every dump. */
  const HEADER: String := "# specimen\texperiment time\tstarting time\tending time\n"

  /** `"%i\t%li\t%li\t%li\n"` of a completed clock. */
  function Line(c: Clock): String
  {
    LogFormat.Decimal(c.specimen) + "\t" + LogFormat.Decimal(Diff(c)) + "\t"
      + LogFormat.Decimal(Nanoseconds(c.start)) + "\t" + LogFormat.Decimal(Nanoseconds(c.end)) + "\n"
  }

  /** The lines of the valid clocks, oldest (last in the list) first. */
  function Lines(clocks: seq<Clock>): String
  {
    if |clocks| == 0 then ""
    else Lines(clocks[1..]) + (if clocks[0].valid then Line(clocks[0]) else "")
  }

  /** What `dump` returns when no reallocation fails. */
  function DumpText(clocks: seq<Clock>): String
  {
    HEADER + Lines(clocks)
  }

  /** The dump of the clocks from position `i` on: that of the older clocks, then clock `i`'s line. */
  lemma DumpStep(clocks: seq<Clock>, i: nat)
    requires i < |clocks|
    ensures clocks[i].valid ==> DumpText(clocks[i..]) == DumpText(clocks[i + 1..]) + Line(clocks[i])
    ensures !clocks[i].valid ==> DumpText(clocks[i..]) == DumpText(clocks[i + 1..])
  {
    var rest := Lines(clocks[i + 1..]);
    LinesStep(clocks[i..]);
    assert clocks[i..][1..] == clocks[i + 1..];
    if clocks[i].valid {
      assert HEADER + (rest + Line(clocks[i])) == (HEADER + rest) + Line(clocks[i]);
    } else {
      assert rest + "" == rest;
    }
  }

  /** The dump of no clocks is the header alone. */
  lemma DumpEmpty(clocks: seq<Clock>)
    ensures DumpText(clocks[|clocks|..]) == HEADER
  {
    assert clocks[|clocks|..] == [];
    assert HEADER + "" == HEADER;
  }

  /** One unfolding of `Lines`, with each line kept whole. */
  lemma LinesStep(clocks: seq<Clock>)
    requires |clocks| > 0
    ensures Lines(clocks) == Lines(clocks[1..]) + (if clocks[0].valid then Line(clocks[0]) else "")
  {
  }

  // --------------------------------------------------------- appending

  /**
   * The result buffer of `_eina_counter_asiprintf`: the text a reader
   * sees (up to the terminator) and `position`, the end of what has been
   * appended successfully; the next append writes at `position`.
   */
  datatype Buf = Buf(text: String, position: nat)

  /** The buffer's successfully appended part (nothing for a NULL buffer). */
  function Committed(base: Option<Buf>): String
  {
    if base.None? || |base.value.text| < base.value.position then ""
    else base.value.text[..base.value.position]
  }

  /** The first buffer size `_eina_counter_asiprintf` tries. */
  const FIRST_SIZE: nat := 32

  /**
   * What `_eina_counter_asiprintf` makes of `base` when appending `s`, and
   * the number of reallocations it attempted. `reallocOk(a)` is whether
   * reallocation attempt `a` succeeds.
   *
   * The first reallocation gives room for 32 characters; when it fails the
   * buffer is returned untouched. If `s` fits it is appended. Otherwise
   * 31 characters were written, the buffer is reallocated to `|s| + 1`
   * and, when that succeeds, `s` is written whole; when it fails the 31
   * characters stay behind the position, which does not move.
   */
  function Append(base: Option<Buf>, s: String, reallocOk: nat -> bool, a: nat): (r: (Option<Buf>, nat))
  {
    var pos := if base.None? then 0 else base.value.position;
    var kept := Committed(base);
    if !reallocOk(a) then (base, a + 1)
    else if |s| < FIRST_SIZE then (Some(Buf(kept + s, pos + |s|)), a + 1)
    else if !reallocOk(a + 1) then (Some(Buf(kept + s[..FIRST_SIZE - 1], pos)), a + 2)
    else (Some(Buf(kept + s, pos + |s|)), a + 2)
  }

  /** The text and position of a buffer that only ever grew by whole appends. */
  predicate Whole(b: Option<Buf>)
  {
    b.Some? && b.value.position == |b.value.text|
  }

  /**
   * When every reallocation succeeds, an append adds exactly `s` at the
   * end and moves the position past it, using one attempt when `s` fits
   * in the first size and two otherwise.
   */
  lemma AppendGrowsUntilFits(base: Option<Buf>, s: String, reallocOk: nat -> bool, a: nat)
    requires base.None? || Whole(base)
    requires reallocOk(a) && reallocOk(a + 1)
    ensures var (r, next) := Append(base, s, reallocOk, a);
      && Whole(r) && r.value.text == (if base.None? then "" else base.value.text) + s
      && next == (if |s| < FIRST_SIZE then a + 1 else a + 2)
  {
    if base.Some? {
      assert base.value.text[..base.value.position] == base.value.text;
    }
  }

  /**
   * `_eina_counter_asiprintf` appending the already formatted text `s`:
   * `vsnprintf` writes at most `size - 1` characters and reports the
   * full length, and the buffer grows by reallocation until that length
   * fits.
   */
  method AsIPrintf(base: Option<Buf>, s: String, reallocOk: nat -> bool, a: nat)
    returns (result: Option<Buf>, next: nat)
    ensures (result, next) == Append(base, s, reallocOk, a)
  {
    var pos := if base.None? then 0 else base.value.position;
    var kept := Committed(base);
    var size := FIRST_SIZE;
    next := a + 1;
    if !reallocOk(a) {
      return base, next;
    }
    while true
      invariant size == FIRST_SIZE || size == |s| + 1
      invariant size == FIRST_SIZE ==> next == a + 1
      invariant size != FIRST_SIZE ==> next == a + 2 && reallocOk(a + 1) && FIRST_SIZE <= |s|
      decreases if |s| < size then 0 else 1
    {
      var n := |s|;
      var written := if n < size then s else s[..size - 1];
      if n < size {
        return Some(Buf(kept + written, pos + n)), next;
      }
      size := n + 1;
      next := next + 1;
      if !reallocOk(next - 1) {
        return Some(Buf(kept + written, pos)), next;
      }
    }
  }

  /** The text a clock contributes to a dump: its line when it is valid, nothing otherwise. */
  function ClockText(c: Clock): String
  {
    if c.valid then Line(c) else ""
  }

  /** `dump`'s append of one clock: its line when the clock is valid, nothing otherwise. */
  function AppendClock(b: Option<Buf>, c: Clock, reallocOk: nat -> bool, a: nat): (r: (Option<Buf>, nat))
    ensures b.Some? ==> r.0.Some?
    ensures !c.valid ==> r == (b, a)
    ensures r.1 >= a
  {
    if c.valid then Append(b, Line(c), reallocOk, a) else (b, a)
  }

  /**
   * The buffer after `dump` appended the clocks of `clocks`, oldest (last
   * in the list) first, to `b` from reallocation attempt `a` on, and the
   * next attempt. A buffer that exists is never lost, whichever
   * reallocations fail.
   */
  function AppendLines(b: Option<Buf>, clocks: seq<Clock>, reallocOk: nat -> bool, a: nat): (r: (Option<Buf>, nat))
    ensures b.Some? ==> r.0.Some?
    ensures r.1 >= a
    decreases |clocks|
  {
    if |clocks| == 0 then (b, a)
    else
      var rest := AppendLines(b, clocks[1..], reallocOk, a);
      AppendClock(rest.0, clocks[0], reallocOk, rest.1)
  }

  /**
   * What `eina_counter_dump` returns for any pattern of reallocation
   * outcomes: NULL exactly when the header's first reallocation fails;
   * otherwise the buffer's text after the header and every valid clock's
   * line were appended, each append keeping the buffer it was given when
   * one of its reallocations fails.
   */
  function DumpOutcome(clocks: seq<Clock>, reallocOk: nat -> bool): (r: Option<String>)
    ensures r.Some? <==> reallocOk(0)
  {
    var header := Append(None, HEADER, reallocOk, 0);
    if header.0.None? then None
    else Some(AppendLines(header.0, clocks, reallocOk, header.1).0.value.text)
  }

  /** With every reallocation succeeding, appending a clock adds its line when it is valid. */
  lemma AppendClockAllOk(b: Option<Buf>, c: Clock, reallocOk: nat -> bool, a: nat)
    requires Whole(b) && forall k :: reallocOk(k)
    ensures Whole(AppendClock(b, c, reallocOk, a).0)
    ensures AppendClock(b, c, reallocOk, a).0.value.text == b.value.text + ClockText(c)
  {
    if c.valid {
      AppendGrowsUntilFits(b, Line(c), reallocOk, a);
    } else {
      assert b.value.text + "" == b.value.text;
    }
  }

  /** When every reallocation succeeds, the appends give the buffer's text followed by the lines. */
  lemma {:induction false} AppendLinesAllOk(b: Option<Buf>, clocks: seq<Clock>, reallocOk: nat -> bool, a: nat)
    requires Whole(b) && forall k :: reallocOk(k)
    ensures Whole(AppendLines(b, clocks, reallocOk, a).0)
    ensures AppendLines(b, clocks, reallocOk, a).0.value.text == b.value.text + Lines(clocks)
    decreases |clocks|
  {
    if |clocks| == 0 {
      assert b.value.text + "" == b.value.text;
    } else {
      var rest := AppendLines(b, clocks[1..], reallocOk, a);
      AppendLinesAllOk(b, clocks[1..], reallocOk, a);
      AppendClockAllOk(rest.0, clocks[0], reallocOk, rest.1);
      LinesStep(clocks);
      Assoc(b.value.text, Lines(clocks[1..]), ClockText(clocks[0]));
    }
  }

  /** The appends from clock `i` on: those from clock `i + 1` on, then clock `i`. */
  lemma AppendLinesStep(b: Option<Buf>, clocks: seq<Clock>, i: nat, reallocOk: nat -> bool, a: nat)
    requires i < |clocks|
    ensures var rest := AppendLines(b, clocks[i + 1..], reallocOk, a);
      AppendLines(b, clocks[i..], reallocOk, a) == AppendClock(rest.0, clocks[i], reallocOk, rest.1)
  {
    assert clocks[i..][1..] == clocks[i + 1..];
  }

  /** Concatenation is associative. */
  lemma Assoc(x: String, y: String, z: String)
    ensures x + y + z == x + (y + z)
  {
  }

  /** With every reallocation succeeding, the outcome is the header and every valid clock's line. */
  lemma DumpOutcomeAllOk(clocks: seq<Clock>, reallocOk: nat -> bool)
    requires forall k :: reallocOk(k)
    ensures DumpOutcome(clocks, reallocOk) == Some(DumpText(clocks))
  {
    var header := Append(None, HEADER, reallocOk, 0);
    AppendGrowsUntilFits(None, HEADER, reallocOk, 0);
    assert "" + HEADER == HEADER;
    AppendLinesAllOk(header.0, clocks, reallocOk, header.1);
  }

  /**
   * A failure after the header keeps what was appended: with the second
   * reallocation of the header failing, the dump is the first 31
   * characters of the header and whatever later appends wrote at
   * position 0 over them.
   */
  lemma DumpHeaderCut(reallocOk: nat -> bool)
    requires reallocOk(0) && !reallocOk(1)
    ensures DumpOutcome([], reallocOk) == Some(HEADER[..FIRST_SIZE - 1])
  {
    assert |HEADER| >= FIRST_SIZE;
    assert "" + HEADER[..FIRST_SIZE - 1] == HEADER[..FIRST_SIZE - 1];
  }

  // ----------------------------------------------------------- counter

  /** The clock list after `start` read the time `now`. */
  function Started(clocks: seq<Clock>, now: NanoTime): seq<Clock>
  {
    [Clock(now, ZERO_TIME, 0, false)] + clocks
  }

  /** The clock list after `stop` read the time `now`. */
  function Stopped(clocks: seq<Clock>, now: NanoTime, specimen: int): seq<Clock>
  {
    if |clocks| == 0 || clocks[0].valid then clocks
    else [clocks[0].(end := now, specimen := specimen, valid := true)] + clocks[1..]
  }

  /**
   * `stop` changes only the newest clock, and only when it is still
   * running: it records the end time and the specimen and makes it valid.
   */
  lemma StopTouchesOnlyNewest(clocks: seq<Clock>, now: NanoTime, specimen: int)
    ensures var r := Stopped(clocks, now, specimen);
      && |r| == |clocks| && (|clocks| > 0 ==> r[1..] == clocks[1..])
      && (|clocks| == 0 || clocks[0].valid ==> r == clocks)
      && (|clocks| > 0 && !clocks[0].valid ==>
            r[0] == Clock(clocks[0].start, now, specimen, true))
  {
  }

  /** A clock that was started but not stopped does not show in the dump. */
  lemma StartedNotDumped(clocks: seq<Clock>, now: NanoTime)
    ensures Lines(Started(clocks, now)) == Lines(clocks)
  {
    assert Started(clocks, now)[1..] == clocks;
  }

  /**
   * Starting and then stopping a clock adds exactly its line at the end of
   * the dump, after the lines of every older clock.
   */
  lemma StartStopDumpsLast(clocks: seq<Clock>, t0: NanoTime, t1: NanoTime, specimen: int)
    ensures DumpText(Stopped(Started(clocks, t0), t1, specimen))
      == DumpText(clocks) + Line(Clock(t0, t1, specimen, true))
  {
    var r := Stopped(Started(clocks, t0), t1, specimen);
    assert r[1..] == clocks;
    assert r[0] == Clock(t0, t1, specimen, true);
  }

  /** Stopping again once the newest clock is complete changes nothing. */
  lemma StopTwiceNoEffect(clocks: seq<Clock>, t1: NanoTime, t2: NanoTime, s1: int, s2: int)
    ensures Stopped(Stopped(clocks, t1, s1), t2, s2) == Stopped(clocks, t1, s1)
  {
  }

  /** An `Eina_Counter`: its name and its clocks, newest first. */
  class Counter {
    const name: String
    var clocks: seq<Clock>

    constructor (name: String)
      ensures this.name == name && clocks == []
    {
      this.name := name;
      clocks := [];
    }

    /**
     * `eina_counter_new`: NULL for a NULL name or when the allocation
     * fails, otherwise a counter with a copy of the name and no clocks.
     */
    static method New(name: Option<String>, callocOk: bool) returns (c: Option<Counter>)
      ensures c.Some? <==> name.Some? && callocOk
      ensures c.Some? ==> fresh(c.value) && c.value.name == name.value && c.value.clocks == []
    {
      if name.None? || !callocOk {
        return None;
      }
      var counter := new Counter(name.value);
      return Some(counter);
    }

    /** `eina_counter_free`: every clock is removed before the counter goes. */
    method Free()
      modifies this
      ensures clocks == []
    {
      while |clocks| > 0
        decreases |clocks|
      {
        clocks := clocks[1..];
      }
    }

    /**
     * `eina_counter_start`: nothing happens when the time cannot be read or
     * the clock cannot be allocated; otherwise a running clock is pushed.
     */
    method Start(now: Option<NanoTime>, callocOk: bool)
      modifies this
      ensures now.None? || !callocOk ==> clocks == old(clocks)
      ensures now.Some? && callocOk ==> clocks == Started(old(clocks), now.value)
    {
      if now.None? || !callocOk {
        return;
      }
      clocks := [Clock(now.value, ZERO_TIME, 0, false)] + clocks;
    }

    /** `eina_counter_stop`: nothing happens when the time cannot be read. */
    method Stop(now: Option<NanoTime>, specimen: int)
      modifies this
      ensures now.None? ==> clocks == old(clocks)
      ensures now.Some? ==> clocks == Stopped(old(clocks), now.value, specimen)
    {
      if now.None? {
        return;
      }
      if |clocks| == 0 || clocks[0].valid {
        return;
      }
      clocks := clocks[0 := clocks[0].(end := now.value, specimen := specimen, valid := true)];
    }

    /**
     * `eina_counter_dump`: the header and then a line per valid clock,
     * oldest first. NULL exactly when the first reallocation fails; a later
     * failure leaves the buffer as `_eina_counter_asiprintf` returns it.
     */
    method Dump(reallocOk: nat -> bool) returns (r: Option<String>)
      ensures r == DumpOutcome(clocks, reallocOk)
      ensures r.Some? <==> reallocOk(0)
      ensures !reallocOk(0) ==> r.None?
      ensures (forall k :: reallocOk(k)) ==> r == Some(DumpText(clocks))
    {
      var buf, a := AsIPrintf(None, HEADER, reallocOk, 0);
      if buf.None? {
        return None;
      }
      ghost var header := (buf, a);
      var i: nat := |clocks|;
      while i > 0
        invariant i <= |clocks|
        invariant (buf, a) == AppendLines(header.0, clocks[i..], reallocOk, header.1)
      {
        i := i - 1;
        AppendLinesStep(header.0, clocks, i, reallocOk, header.1);
        if clocks[i].valid {
          buf, a := AsIPrintf(buf, Line(clocks[i]), reallocOk, a);
        }
      }
      assert clocks[0..] == clocks;
      if forall k :: reallocOk(k) {
        DumpOutcomeAllOk(clocks, reallocOk);
      }
      return Some(buf.value.text);
    }
  }
}
