/**
 * The zero-copy line iterator over a mapped file: the end-of-line search
 * and the cursor that walks a byte buffer one line at a time.
 *
 * The mapped buffer is a `seq<char>`; the C pointers `start`, `end` and
 * `it->end` become offsets into it (`it->end` is `|buf|`).
 */
module FileLines {

  predicate IsEol(c: char)
  {
    c == '\n' || c == '\r'
  }

  /** `memchr(buf + lo, c, hi - lo)`: the first `c` in `[lo, hi)`, or `hi` when there is none. */
  function MemChr(buf: seq<char>, lo: nat, hi: nat, c: char): (p: nat)
    requires lo <= hi <= |buf|
    ensures lo <= p <= hi
    ensures p < hi ==> buf[p] == c
    ensures forall i :: lo <= i < p ==> buf[i] != c
    decreases hi - lo
  {
    if lo == hi then hi
    else if buf[lo] == c then lo
    else MemChr(buf, lo + 1, hi, c)
  }

  /**
   * Reference definition of the end of the line that starts at `start`:
   * one past the first '\r' or '\n' at or after `start`, or the end of the
   * buffer when there is none.
   */
  function FirstEol(buf: seq<char>, start: nat): (e: nat)
    requires start <= |buf|
    ensures start <= e <= |buf|
    ensures forall i :: start <= i < e - 1 ==> !IsEol(buf[i])
    ensures (start < e && IsEol(buf[e - 1])) || (e == |buf| && forall i :: start <= i < |buf| ==> !IsEol(buf[i]))
    decreases |buf| - start
  {
    if start == |buf| then |buf|
    else if IsEol(buf[start]) then start + 1
    else FirstEol(buf, start + 1)
  }

  /**
   * The chunked search: each round looks for '\r' and '\n' in the next
   * `boundary` bytes (4096 after the first round) and returns one past the
   * earlier of the two. The chunking never changes the answer.
   */
  method FineEol(buf: seq<char>, start: nat, boundary: nat) returns (e: nat)
    requires start <= |buf| && boundary > 0
    ensures e == FirstEol(buf, start)
  {
    var s := start;
    var b := boundary;
    while s < |buf|
      invariant start <= s <= |buf| && b > 0
      invariant forall i :: start <= i < s ==> !IsEol(buf[i])
      decreases |buf| - s
    {
      var chunk := if s + b < |buf| then b else |buf| - s;
      var cr := MemChr(buf, s, s + chunk, '\r');
      var lf := MemChr(buf, s, s + chunk, '\n');
      if cr < s + chunk {
        if lf < s + chunk && lf < cr {
          return lf + 1;
        }
        return cr + 1;
      } else if lf < s + chunk {
        return lf + 1;
      }
      s := s + chunk;
      b := 4096;
    }
    return |buf|;
  }

  /** The line fields the iterator hands out (`Eina_File_Line`). */
  datatype Cursor = Cursor(start: nat, end: nat, index: nat, length: int)

  /** One iterator step: whether a line was produced, and the new fields. */
  datatype Step = Step(more: bool, cur: Cursor)

  /**
   * Skips the run of terminators at `pos`, counting those equal to `first`
   * (the first byte of the run) into `index`.
   */
  function SkipEols(buf: seq<char>, pos: nat, first: char, index: nat): (r: (nat, nat))
    requires pos <= |buf|
    ensures pos <= r.0 <= |buf| && r.1 >= index
    ensures forall i :: pos <= i < r.0 ==> IsEol(buf[i])
    ensures r.0 == |buf| || !IsEol(buf[r.0])
    decreases |buf| - pos
  {
    if pos < |buf| && IsEol(buf[pos]) then
      SkipEols(buf, pos + 1, first, if buf[pos] == first then index + 1 else index)
    else (pos, index)
  }

  /**
   * The length the source stores for the line `[start, eol)`:
   * `eol - start - 1`, which drops the terminator.
   */
  function LineLengthAsWritten(start: nat, eol: nat): int
  {
    eol - start - 1
  }

  /** The length of the line `[start, eol)` without its terminator, when it has one. */
  function LineLength(buf: seq<char>, start: nat, eol: nat): (n: nat)
    requires start < eol <= |buf|
    ensures n == if IsEol(buf[eol - 1]) then eol - start - 1 else eol - start
  {
    if IsEol(buf[eol - 1]) then eol - start - 1 else eol - start
  }

  /** Specification of one call of the iterator's `next` on the buffer `buf`. */
  function Advance(buf: seq<char>, c: Cursor): Step
  {
    if c.end >= |buf| then Step(false, c)
    else
      var (e, i) := SkipEols(buf, c.end, buf[c.end], c.index);
      if e == |buf| then Step(false, c.(end := e, index := i + 1))
      else
        var eol := FirstEol(buf, e);
        Step(true, Cursor(e, eol, i + 1, LineLength(buf, e, eol)))
  }

  /** Iteration stops exactly when the cursor has reached the end of the buffer. */
  lemma AdvanceStops(buf: seq<char>, c: Cursor)
    requires c.end <= |buf|
    ensures !Advance(buf, c).more <==> (c.end == |buf| || forall i :: c.end <= i < |buf| ==> IsEol(buf[i]))
    ensures !Advance(buf, c).more ==> Advance(buf, c).cur.end == |buf|
  {
    if c.end < |buf| {
      var (e, i) := SkipEols(buf, c.end, buf[c.end], c.index);
      if e < |buf| {
        assert !IsEol(buf[e]);
      }
    }
  }

  /**
   * A produced line starts on a non-terminator, right after the terminators
   * that ended the previous one; its end is the reference end of line; its
   * `length` characters hold no terminator; and the line index grows.
   */
  lemma AdvanceLine(buf: seq<char>, c: Cursor)
    requires Advance(buf, c).more
    ensures var n := Advance(buf, c).cur;
      && c.end <= n.start < n.end <= |buf|
      && !IsEol(buf[n.start])
      && (forall i :: c.end <= i < n.start ==> IsEol(buf[i]))
      && n.end == FirstEol(buf, n.start)
      && 0 <= n.length <= n.end - n.start
      && (forall i :: n.start <= i < n.start + n.length ==> !IsEol(buf[i]))
      && (n.start + n.length == |buf| || IsEol(buf[n.start + n.length]))
      && n.index > c.index
  {
  }

  /** Every call that produces a line moves the cursor forward: the iteration terminates. */
  lemma AdvanceProgress(buf: seq<char>, c: Cursor)
    requires Advance(buf, c).more
    ensures Advance(buf, c).cur.end > c.end
  {
    AdvanceLine(buf, c);
  }

  /** A line ended by the end of the buffer loses its last character to `eol - start - 1`. */
  lemma LastLineLengthShort(buf: seq<char>, start: nat)
    requires start < |buf| && forall i :: start <= i < |buf| ==> !IsEol(buf[i])
    ensures FirstEol(buf, start) == |buf|
    ensures LineLengthAsWritten(start, FirstEol(buf, start)) == |buf| - start - 1
    ensures LineLength(buf, start, FirstEol(buf, start)) == |buf| - start
  {
  }

  /** The two-byte file "ab": its one line has two characters, and the source reports one. */
  lemma LastLineLengthExample()
    ensures Advance("ab", Cursor(0, 0, 0, 0)) == Step(true, Cursor(0, 2, 1, 2))
    ensures LineLengthAsWritten(0, 2) == 1
  {
    assert !IsEol("ab"[0]) && !IsEol("ab"[1]);
    LastLineLengthShort("ab", 0);
  }

  /**
   * `_eina_file_map_lines_iterator_next` over the mapped buffer `buf`,
   * whose first byte sits at the address `base`.
   */
  class LinesIterator {
    const buf: seq<char>
    const base: nat
    var start: nat
    var end: nat
    var index: nat
    var length: int
    var boundary: nat

    ghost predicate Valid()
      reads this
    {
      start <= end <= |buf| && 0 < boundary <= 4096
    }

    function Current(): Cursor
      reads this
    {
      Cursor(start, end, index, length)
    }

    /** `eina_file_map_lines` once the map is obtained: the cursor sits at the start. */
    constructor (buf: seq<char>, base: nat)
      ensures Valid()
      ensures this.buf == buf && this.base == base
      ensures Current() == Cursor(0, 0, 0, 0) && boundary == 4096
    {
      this.buf := buf;
      this.base := base;
      start, end, index, length := 0, 0, 0, 0;
      boundary := 4096;
    }

    /**
     * Advances to the next line. The chunk size of the next search is the
     * line end's address modulo 1024, or 4096 when that is 0.
     */
    method Next() returns (more: bool)
      requires Valid()
      modifies this
      ensures Valid()
      ensures Advance(buf, old(Current())) == Step(more, Current())
      ensures more ==> boundary == (if (base + end) % 1024 == 0 then 4096 else (base + end) % 1024)
      ensures !more ==> boundary == old(boundary)
    {
      if end >= |buf| {
        return false;
      }
      var first := buf[end];
      ghost var c0 := Current();
      while end < |buf| && IsEol(buf[end])
        invariant c0.end <= end <= |buf|
        invariant SkipEols(buf, end, first, index) == SkipEols(buf, c0.end, first, c0.index)
        invariant start == c0.start && length == c0.length && boundary == old(boundary)
        decreases |buf| - end
      {
        if buf[end] == first {
          index := index + 1;
        }
        end := end + 1;
      }
      assert SkipEols(buf, end, first, index) == (end, index);
      index := index + 1;
      if end == |buf| {
        return false;
      }
      var eol := FineEol(buf, end, boundary);
      boundary := (base + eol) % 1024;
      if boundary == 0 {
        boundary := 4096;
      }
      start := end;
      end := eol;
      length := LineLength(buf, start, eol);
      return true;
    }
  }
}
