/**
 * The fixed bitmap memory pool: items of one size are carved out of pools
 * of 32 slots, each pool carrying a 32-bit mask whose set bits mark the
 * free slots. Pools sit on a list (the head is tried first) and in a tree
 * keyed by address that finds the pool of a freed pointer.
 *
 * Addresses are integers; a pool at `addr` keeps its header in
 * `[addr, addr + HEADER)` and its slots after it.
 */
module FixedBitmap {
  import opened Wrappers
  import Bits

  /** `sizeof (Eina_Fixed_Bitmap_Pool)` on LP64: tree node 24, list node 24, mask 4, padding 4. */
  const HEADER: nat := 56

  /**
   * A pool's 32-bit mask is modelled as the set of its set bits, the
   * indices of its free slots: `mask &= ~(1 << i)` removes `i`,
   * `mask |= 1 << i` adds it, `mask == 0` is the empty set and
   * `0xFFFFFFFF` is `ALL_FREE`.
   */
  datatype Pool = Pool(addr: int, free: set<nat>)

  /** The mask `0xFFFFFFFF`: all 32 slots free. */
  const ALL_FREE: set<nat> := set i: nat | i < 32

  // ------------------------------------------------------------- bits

  /** The lowest index in `s` at or above `i`, or 32 when there is none below 32. */
  function LowestFrom(s: set<nat>, i: nat): (r: nat)
    requires i <= 32
    decreases 32 - i
    ensures i <= r <= 32
    ensures r < 32 ==> r in s
    ensures forall j :: i <= j < r ==> j !in s
  {
    if i == 32 then 32
    else if i in s then i
    else LowestFrom(s, i + 1)
  }

  /**
   * `ffs`: one plus the lowest set bit, 0 for a zero mask. The mask's bits
   * are the elements of `s`, all below 32.
   */
  function Ffs(s: set<nat>): (r: nat)
    requires s <= ALL_FREE
    ensures r == 0 <==> s == {}
    ensures r <= 32
    ensures r > 0 ==> r - 1 in s && forall j :: j in s ==> r - 1 <= j
  {
    if s == {} then 0
    else
      var x :| x in s;
      var r := LowestFrom(s, 0);
      assert r <= x;
      r + 1
  }

  // ------------------------------------------------------ comparisons

  /** The number of bytes a pool covers, header included. */
  function Span(itemSize: nat): int
  {
    HEADER + itemSize * 32
  }

  /**
   * `_eina_fixed_cmp_key`: 0 when `key` lies in the closed range
   * `[node, node + Span]`, 1 when it lies below `node`, -1 above.
   */
  function CmpKey(node: int, key: int, itemSize: nat): (r: int)
    ensures r == 0 <==> node <= key <= node + Span(itemSize)
    ensures r == 1 <==> key < node
    ensures r == -1 <==> node + Span(itemSize) < key
  {
    var limit := Span(itemSize);
    var delta := node - key;
    if delta > 0 then 1
    else if delta + limit < 0 then -1
    else 0
  }

  datatype Direction = Left | Right

  /** `_eina_fixed_cmp`: the order of two pools in the tree. */
  function Cmp(left: int, right: int): (d: Direction)
    ensures d == Left <==> left < right
  {
    if left - right < 0 then Left else Right
  }

  /** Two pools whose closed ranges do not touch. */
  predicate Separate(a: int, b: int, itemSize: nat)
  {
    a + Span(itemSize) < b || b + Span(itemSize) < a
  }

  /**
   * The node order and the key order agree: a key that belongs to pool
   * `b` lies above every pool `a` that `Cmp` puts to the left of `b` and
   * below every pool it puts to the right, so a search by `CmpKey`
   * follows the order the tree was built with.
   */
  lemma KeyFollowsNodeOrder(a: int, b: int, key: int, itemSize: nat)
    requires Separate(a, b, itemSize) && CmpKey(b, key, itemSize) == 0
    ensures Cmp(a, b) == Left ==> CmpKey(a, key, itemSize) == -1
    ensures Cmp(a, b) == Right ==> CmpKey(a, key, itemSize) == 1
  {
  }

  // ----------------------------------------------------------- pools

  /** Whether every slot of the pool is in use (its mask is 0). */
  predicate Full(p: Pool)
  {
    p.free == {}
  }

  /**
   * What the pool keeps true between calls: a positive item size, masks
   * of 32 bits, pools whose ranges do not touch, no pool entirely free
   * (such a pool is released), and the full pools after all the others
   * on the list.
   */
  predicate ValidPools(pools: seq<Pool>, itemSize: nat)
  {
    && 0 < itemSize < ITEM_LIMIT
    && (forall i :: 0 <= i < |pools| ==> pools[i].free <= ALL_FREE && pools[i].free != ALL_FREE)
    && (forall i, j :: 0 <= i < |pools| && 0 <= j < |pools| && i != j ==>
          Separate(pools[i].addr, pools[j].addr, itemSize))
    && (forall i, j :: 0 <= i < j < |pools| && Full(pools[i]) ==> Full(pools[j]))
  }

  /** The address of slot `idx` of pool `p`: `(unsigned char *)(pool + 1) + idx * item_size`. */
  function SlotAddr(p: Pool, itemSize: nat, idx: int): int
  {
    p.addr + HEADER + idx * itemSize
  }

  /** Values of `size_t`: pointer differences mixed with `sizeof` wrap modulo this. */
  const SIZE_RANGE: nat := 0x1_0000_0000_0000_0000

  /** Values of `int` below this are positive item sizes. */
  const INT_LIMIT: nat := 0x8000_0000

  /**
   * Item sizes below this keep `item_size * 32`, the pool size the `int`
   * arithmetic of malloc and of the lookup compare computes, below `INT_LIMIT`.
   */
  const ITEM_LIMIT: nat := INT_LIMIT / 32

  /**
   * The slot index `eina_fixed_bitmap_free` computes for `ptr` in pool `p`:
   * the byte offset past the header is a `size_t`, so it wraps when `ptr`
   * lies inside the header; it is divided as an unsigned value and the
   * quotient is stored in an `ssize_t`.
   */
  function SlotIndex(p: Pool, ptr: int, itemSize: nat): (delta: int)
    requires itemSize > 0
    ensures -(SIZE_RANGE / 2) <= delta < SIZE_RANGE / 2
  {
    var q := ((ptr - p.addr - HEADER) % SIZE_RANGE) / itemSize;
    if q < SIZE_RANGE / 2 then q else q - SIZE_RANGE
  }

  /** The slot index of a slot's address is that slot. */
  lemma SlotIndexOfSlot(p: Pool, itemSize: nat, idx: nat)
    requires 0 < itemSize < INT_LIMIT && idx < 32
    ensures SlotIndex(p, SlotAddr(p, itemSize, idx), itemSize) == idx
  {
    var off := itemSize * idx;
    assert SlotAddr(p, itemSize, idx) - p.addr - HEADER == off;
    Bits.MulStep(itemSize, idx, 32);
    Bits.DivModUnique(off, SIZE_RANGE, 0, off);
    Bits.DivModUnique(off, itemSize, idx, 0);
  }

  /**
   * An address inside a pool's header wraps to an offset near 2^64, whose
   * quotient fails the `delta < 32` assertion: such a pointer is never
   * taken for slot 0.
   */
  lemma HeaderPointerRejected(p: Pool, ptr: int, itemSize: nat)
    requires 0 < itemSize < INT_LIMIT && p.addr <= ptr < p.addr + HEADER
    ensures !(0 <= SlotIndex(p, ptr, itemSize) < 32)
  {
    var off := ptr - p.addr - HEADER;
    var m := off % SIZE_RANGE;
    assert m == SIZE_RANGE + off;
    var q := m / itemSize;
    if q < 32 {
      Bits.MulStep(itemSize, q, 32);
      assert false;
    }
  }

  /**
   * The tree lookup with `_eina_fixed_cmp_key`: the position of the pool
   * whose range holds `ptr`, or `|pools|` when none does. Pools do not
   * touch, so at most one pool matches and the tree's shape does not
   * change the answer.
   */
  function Find(pools: seq<Pool>, ptr: int, itemSize: nat): (k: nat)
    ensures k <= |pools|
    ensures k < |pools| ==> CmpKey(pools[k].addr, ptr, itemSize) == 0
    ensures k == |pools| ==> forall j :: 0 <= j < |pools| ==> CmpKey(pools[j].addr, ptr, itemSize) != 0
  {
    if |pools| == 0 then 0
    else if CmpKey(pools[0].addr, ptr, itemSize) == 0 then 0
    else 1 + Find(pools[1..], ptr, itemSize)
  }

  /** Among separate pools, the one holding `ptr` is the one `Find` returns. */
  lemma FindUnique(pools: seq<Pool>, ptr: int, itemSize: nat, k: nat)
    requires ValidPools(pools, itemSize)
    requires k < |pools| && CmpKey(pools[k].addr, ptr, itemSize) == 0
    ensures Find(pools, ptr, itemSize) == k
  {
  }

  // ------------------------------------------------------ allocation

  datatype AllocResult = AllocResult(pools: seq<Pool>, ptr: Option<int>)

  /** A pool is created exactly when there is no head pool or the head pool is full. */
  predicate NeedsPool(pools: seq<Pool>)
  {
    |pools| == 0 || Full(pools[0])
  }

  /** The pool an allocation takes its slot from: the head, or a new all-free pool at `newAddr`. */
  function Source(pools: seq<Pool>, newAddr: int): (p: Pool)
  {
    if NeedsPool(pools) then Pool(newAddr, ALL_FREE) else pools[0]
  }

  /** The source pool always has a free slot. */
  lemma SourceHasFreeSlot(pools: seq<Pool>, itemSize: nat, newAddr: int)
    requires ValidPools(pools, itemSize)
    ensures var p := Source(pools, newAddr);
      p.free <= ALL_FREE && 0 < Ffs(p.free) && Ffs(p.free) - 1 in p.free
  {
    assert 0 in ALL_FREE;
  }

  /**
   * `eina_fixed_bitmap_malloc`. `newAddr` is the address `malloc` returns
   * for a new pool and `mallocOk` whether it succeeded.
   */
  function Alloc(pools: seq<Pool>, itemSize: nat, newAddr: int, mallocOk: bool): (r: AllocResult)
    requires ValidPools(pools, itemSize)
  {
    if NeedsPool(pools) && !mallocOk then AllocResult(pools, None)
    else
      SourceHasFreeSlot(pools, itemSize, newAddr);
      TakeSlot(Source(pools, newAddr), if NeedsPool(pools) then pools else pools[1..], itemSize)
  }

  /**
   * The rest of `eina_fixed_bitmap_malloc` once the source pool `p` is
   * chosen: its lowest free slot is handed out, and the pool goes to the
   * tail of the other pools `rest` when that leaves it full, else to the head.
   */
  function TakeSlot(p: Pool, rest: seq<Pool>, itemSize: nat): (r: AllocResult)
    requires p.free <= ALL_FREE && p.free != {}
  {
    var idx := Ffs(p.free) - 1;
    var used := p.(free := p.free - {idx});
    var ptr := SlotAddr(p, itemSize, idx);
    if Full(used) then AllocResult(rest + [used], Some(ptr))
    else AllocResult([used] + rest, Some(ptr))
  }

  /** Taking a slot from a pool apart from the others keeps the list valid. */
  lemma TakeSlotKeepsValid(p: Pool, rest: seq<Pool>, itemSize: nat)
    requires p.free <= ALL_FREE && p.free != {}
    requires ValidPools(rest, itemSize)
    requires forall i :: 0 <= i < |rest| ==> Separate(rest[i].addr, p.addr, itemSize)
    ensures ValidPools(TakeSlot(p, rest, itemSize).pools, itemSize)
  {
    var idx := Ffs(p.free) - 1;
    var used := p.(free := p.free - {idx});
    assert used.free != ALL_FREE by {
      assert idx in ALL_FREE;
    }
    if Full(used) {
      TailKeepsValid(rest, used, itemSize);
    } else {
      HeadKeepsValid(rest, used, itemSize);
    }
  }

  /** A new pool's address does not touch any existing pool (what `malloc` guarantees). */
  predicate Apart(pools: seq<Pool>, newAddr: int, itemSize: nat)
  {
    forall i :: 0 <= i < |pools| ==> Separate(pools[i].addr, newAddr, itemSize)
  }

  /**
   * What one allocation does: it fails only when a pool is needed and
   * `malloc` fails, and then changes nothing; otherwise it hands out the
   * lowest free slot of the source pool, which becomes used while the
   * pool's other slots keep their state.
   */
  lemma AllocTakesLowestSlot(pools: seq<Pool>, itemSize: nat, newAddr: int, mallocOk: bool)
    requires ValidPools(pools, itemSize)
    ensures var r := Alloc(pools, itemSize, newAddr, mallocOk);
      && (r.ptr.None? <==> NeedsPool(pools) && !mallocOk)
      && (r.ptr.None? ==> r.pools == pools)
      && (r.ptr.Some? ==>
            var p := Source(pools, newAddr);
            exists idx: nat :: idx < 32
              && idx in p.free && (forall j :: j in p.free ==> idx <= j)
              && r.ptr.value == SlotAddr(p, itemSize, idx)
              && p.(free := p.free - {idx}) in r.pools)
  {
    var r := Alloc(pools, itemSize, newAddr, mallocOk);
    if r.ptr.Some? {
      var p := Source(pools, newAddr);
      SourceHasFreeSlot(pools, itemSize, newAddr);
      var idx := Ffs(p.free) - 1;
      var used := p.(free := p.free - {idx});
      assert used in r.pools;
      assert idx < 32 && idx in p.free && (forall j :: j in p.free ==> idx <= j)
        && r.ptr.value == SlotAddr(p, itemSize, idx) && used in r.pools;
    }
  }

  /**
   * A new pool is created only when every pool is full: since full pools
   * are kept after the others, a full head means no slot is free anywhere.
   */
  lemma NewPoolOnlyWhenAllFull(pools: seq<Pool>, itemSize: nat)
    requires ValidPools(pools, itemSize) && NeedsPool(pools)
    ensures forall i :: 0 <= i < |pools| ==> Full(pools[i])
  {
    forall i | 0 < i < |pools|
      ensures Full(pools[i])
    {
      assert Full(pools[0]);
    }
  }

  /** Allocation keeps the pool list valid. */
  lemma AllocKeepsValid(pools: seq<Pool>, itemSize: nat, newAddr: int, mallocOk: bool)
    requires ValidPools(pools, itemSize) && Apart(pools, newAddr, itemSize)
    ensures ValidPools(Alloc(pools, itemSize, newAddr, mallocOk).pools, itemSize)
  {
    if NeedsPool(pools) && !mallocOk {
      return;
    }
    SourceHasFreeSlot(pools, itemSize, newAddr);
    if NeedsPool(pools) {
      TakeSlotKeepsValid(Source(pools, newAddr), pools, itemSize);
    } else {
      var rest := pools[1..];
      assert forall i :: 0 <= i < |rest| ==> rest[i] == pools[i + 1];
      TakeSlotKeepsValid(Source(pools, newAddr), rest, itemSize);
    }
  }

  /** A pool whose range touches no other may go last on the list when it is full. */
  lemma TailKeepsValid(rest: seq<Pool>, p: Pool, itemSize: nat)
    requires ValidPools(rest, itemSize) && Full(p)
    requires p.free <= ALL_FREE && p.free != ALL_FREE
    requires forall i :: 0 <= i < |rest| ==> Separate(rest[i].addr, p.addr, itemSize)
    ensures ValidPools(rest + [p], itemSize)
  {
    var l := rest + [p];
    assert forall i :: 0 <= i < |l| ==> l[i] == if i < |rest| then rest[i] else p;
  }

  /** A pool whose range touches no other may go first on the list when it is not full. */
  lemma HeadKeepsValid(rest: seq<Pool>, p: Pool, itemSize: nat)
    requires ValidPools(rest, itemSize) && !Full(p)
    requires p.free <= ALL_FREE && p.free != ALL_FREE
    requires forall i :: 0 <= i < |rest| ==> Separate(rest[i].addr, p.addr, itemSize)
    ensures ValidPools([p] + rest, itemSize)
  {
    var l := [p] + rest;
    assert forall i :: 0 <= i < |l| ==> l[i] == if i == 0 then p else rest[i - 1];
  }

  /** Removing a pool keeps the list valid. */
  lemma RemoveKeepsValid(pools: seq<Pool>, k: nat, itemSize: nat)
    requires ValidPools(pools, itemSize) && k < |pools|
    ensures ValidPools(pools[..k] + pools[k + 1..], itemSize)
    ensures forall i :: 0 <= i < |pools| && i != k ==> Separate(pools[i].addr, pools[k].addr, itemSize)
  {
    var rest := pools[..k] + pools[k + 1..];
    assert forall i :: 0 <= i < |rest| ==> rest[i] == pools[if i < k then i else i + 1];
  }

  // ------------------------------------------------------------ free

  /** How a call of `eina_fixed_bitmap_free` ends. */
  datatype FreeOutcome =
    | Ignored       // no pool holds the address
    | AssertFailed  // the slot index is outside [0, 32): the `assert` aborts
    | Released      // the pool became all free and was released
    | Kept          // the slot was freed and the pool stays

  datatype FreeResult = FreeResult(pools: seq<Pool>, outcome: FreeOutcome)

  /** `eina_fixed_bitmap_free`. */
  function FreeSlot(pools: seq<Pool>, ptr: int, itemSize: nat): (r: FreeResult)
    requires itemSize > 0
  {
    var k := Find(pools, ptr, itemSize);
    if k == |pools| then FreeResult(pools, Ignored)
    else
      var p := pools[k];
      var pushFront := p.free != ALL_FREE;
      var delta := SlotIndex(p, ptr, itemSize);
      if !(0 <= delta < 32) then FreeResult(pools, AssertFailed)
      else GiveBack(pools, k, delta, pushFront)
  }

  /**
   * The rest of `eina_fixed_bitmap_free` once the pool at position `k`
   * and the slot `delta` are known: the slot becomes free; an all-free
   * pool is released, otherwise it moves to the head when `pushFront`
   * (its mask was not all ones before).
   */
  function GiveBack(pools: seq<Pool>, k: nat, delta: nat, pushFront: bool): (r: FreeResult)
    requires k < |pools| && delta < 32
  {
    var freed := pools[k].(free := pools[k].free + {delta});
    if freed.free == ALL_FREE then FreeResult(pools[..k] + pools[k + 1..], Released)
    else if pushFront then FreeResult([freed] + (pools[..k] + pools[k + 1..]), Kept)
    else FreeResult(pools[k := freed], Kept)
  }

  /** Giving a slot back keeps the list valid. */
  lemma GiveBackKeepsValid(pools: seq<Pool>, k: nat, delta: nat, itemSize: nat)
    requires ValidPools(pools, itemSize) && k < |pools| && delta < 32
    ensures ValidPools(GiveBack(pools, k, delta, true).pools, itemSize)
  {
    var freed := pools[k].(free := pools[k].free + {delta});
    var rest := pools[..k] + pools[k + 1..];
    RemoveKeepsValid(pools, k, itemSize);
    if freed.free != ALL_FREE {
      assert forall i :: 0 <= i < |rest| ==> rest[i] == pools[if i < k then i else i + 1];
      assert delta in freed.free;
      HeadKeepsValid(rest, freed, itemSize);
    }
  }

  /**
   * What one free does: an address outside every pool changes nothing;
   * otherwise exactly the slot it points into becomes free, and the pool
   * is released if that leaves it all free, else moved to the head.
   */
  lemma FreeGivesSlot(pools: seq<Pool>, ptr: int, itemSize: nat)
    requires ValidPools(pools, itemSize)
    ensures var r := FreeSlot(pools, ptr, itemSize);
      && ((forall i :: 0 <= i < |pools| ==> CmpKey(pools[i].addr, ptr, itemSize) != 0) <==>
            r.outcome == Ignored)
      && (r.outcome == Ignored || r.outcome == AssertFailed ==> r.pools == pools)
      && (r.outcome == Released || r.outcome == Kept ==>
            var k := Find(pools, ptr, itemSize);
            var idx := SlotIndex(pools[k], ptr, itemSize);
            && 0 <= idx < 32
            && (r.outcome == Released <==> pools[k].free + {idx} == ALL_FREE)
            && (r.outcome == Released ==> r.pools == pools[..k] + pools[k + 1..])
            && (r.outcome == Kept ==>
                  r.pools == [pools[k].(free := pools[k].free + {idx})] + (pools[..k] + pools[k + 1..])))
  {
  }

  /** Freeing keeps the pool list valid. */
  lemma FreeKeepsValid(pools: seq<Pool>, ptr: int, itemSize: nat)
    requires ValidPools(pools, itemSize)
    ensures ValidPools(FreeSlot(pools, ptr, itemSize).pools, itemSize)
  {
    var k := Find(pools, ptr, itemSize);
    if k < |pools| {
      var delta := SlotIndex(pools[k], ptr, itemSize);
      if 0 <= delta < 32 {
        GiveBackKeepsValid(pools, k, delta, itemSize);
      }
    }
  }

  /**
   * Freeing the pointer an allocation just returned gives back exactly the
   * pool list the allocation started from: the slot is free again, a pool
   * created for it is released, and a head pool that was moved to the
   * tail returns to the head.
   */
  lemma FreeUndoesAlloc(pools: seq<Pool>, itemSize: nat, newAddr: int, mallocOk: bool)
    requires ValidPools(pools, itemSize) && Apart(pools, newAddr, itemSize)
    requires !NeedsPool(pools) || mallocOk
    ensures var a := Alloc(pools, itemSize, newAddr, mallocOk);
      a.ptr.Some? && FreeSlot(a.pools, a.ptr.value, itemSize).pools == pools
  {
    var a := Alloc(pools, itemSize, newAddr, mallocOk);
    AllocKeepsValid(pools, itemSize, newAddr, mallocOk);
    SourceHasFreeSlot(pools, itemSize, newAddr);
    var p := Source(pools, newAddr);
    var rest := if NeedsPool(pools) then pools else pools[1..];
    assert a == TakeSlot(p, rest, itemSize);
    var idx := Ffs(p.free) - 1;
    var used := p.(free := p.free - {idx});
    var k := if Full(used) then |rest| else 0;
    GiveBackUndoesTakeSlot(p, rest, itemSize);
    var ptr := SlotAddr(used, itemSize, idx);
    SlotInPool(used, itemSize, idx);
    SlotIndexOfSlot(used, itemSize, idx);
    FreeAt(a.pools, ptr, itemSize, k, idx);
    if !NeedsPool(pools) {
      assert [p] + rest == pools;
    }
  }

  /** Freeing an address of the pool at `k` that points into a slot `idx` gives that slot back. */
  lemma FreeAt(pools: seq<Pool>, ptr: int, itemSize: nat, k: nat, idx: nat)
    requires ValidPools(pools, itemSize) && k < |pools| && idx < 32
    requires CmpKey(pools[k].addr, ptr, itemSize) == 0
    requires SlotIndex(pools[k], ptr, itemSize) == idx
    ensures FreeSlot(pools, ptr, itemSize) == GiveBack(pools, k, idx, true)
  {
    FindUnique(pools, ptr, itemSize, k);
  }

  /** A slot's address lies in its pool's range. */
  lemma SlotInPool(p: Pool, itemSize: nat, idx: nat)
    requires idx < 32
    ensures CmpKey(p.addr, SlotAddr(p, itemSize, idx), itemSize) == 0
  {
    Bits.MulStep(itemSize, idx, 32);
  }

  /**
   * Giving back the slot `TakeSlot` handed out restores the list: a pool
   * that was all free is released again, any other returns to the head
   * with its old mask.
   */
  lemma GiveBackUndoesTakeSlot(p: Pool, rest: seq<Pool>, itemSize: nat)
    requires p.free <= ALL_FREE && p.free != {}
    ensures var a := TakeSlot(p, rest, itemSize);
      var idx := Ffs(p.free) - 1;
      var used := p.(free := p.free - {idx});
      var k := if Full(used) then |rest| else 0;
      && k < |a.pools| && a.pools[k] == used && used.free != ALL_FREE
      && idx < 32 && a.ptr == Some(SlotAddr(used, itemSize, idx))
      && GiveBack(a.pools, k, idx, true).pools == if p.free == ALL_FREE then rest else [p] + rest
  {
    var a := TakeSlot(p, rest, itemSize);
    var idx := Ffs(p.free) - 1;
    var used := p.(free := p.free - {idx});
    var k := if Full(used) then |rest| else 0;
    assert idx in ALL_FREE && idx !in used.free;
    assert used.free + {idx} == p.free;
    if p.free == ALL_FREE {
      assert (if idx == 0 then 1 else 0) in used.free;
      assert a.pools == [used] + rest;
    } else if Full(used) {
      assert a.pools[..k] + a.pools[k + 1..] == rest;
    } else {
      assert a.pools[..k] + a.pools[k + 1..] == rest;
    }
  }

  /** `eina_fixed_bitmap_realloc`: resizing is not supported. */
  function Realloc(element: int, size: nat): (r: Option<int>)
    ensures r.None?
  {
    None
  }

  // ------------------------------------------------------------ pool

  /** An `Eina_Fixed_Bitmap`: the item size and the pools, head first. */
  class Mempool {
    var itemSize: nat
    var pools: seq<Pool>

    predicate Valid()
      reads this
    {
      ValidPools(pools, itemSize)
    }

    /**
     * `eina_fixed_bitmap_init`. `aligned` is what `eina_mempool_alignof`
     * makes of the requested size; that function is not part of this model.
     * From `ITEM_LIMIT` on, `item_size * 32` overflows `int` in malloc and
     * in the lookup compare, which C leaves undefined, so the pool is only
     * modelled below it.
     */
    constructor (aligned: int)
      requires 0 < aligned < ITEM_LIMIT
      ensures Valid() && itemSize == aligned && pools == []
    {
      itemSize := aligned;
      pools := [];
    }

    /** `eina_fixed_bitmap_malloc`. */
    method Malloc(newAddr: int, mallocOk: bool) returns (ptr: Option<int>)
      requires Valid() && Apart(pools, newAddr, itemSize)
      modifies this
      ensures Valid() && itemSize == old(itemSize)
      ensures AllocResult(pools, ptr) == Alloc(old(pools), itemSize, newAddr, mallocOk)
    {
      AllocKeepsValid(pools, itemSize, newAddr, mallocOk);
      var head: Pool, rest: seq<Pool>;
      if |pools| > 0 && pools[0].free != {} {
        head, rest := pools[0], pools[1..];
      } else {
        if !mallocOk {
          return None;
        }
        // a new all-free pool, prepended to the list
        head, rest := Pool(newAddr, ALL_FREE), pools;
      }
      var idx := Ffs(head.free) - 1;
      ptr := Some(SlotAddr(head, itemSize, idx));
      head := head.(free := head.free - {idx});
      if head.free == {} {
        // demoted to the tail
        pools := rest + [head];
      } else {
        pools := [head] + rest;
      }
    }

    /** `eina_fixed_bitmap_free`. */
    method Free(ptr: int) returns (outcome: FreeOutcome)
      requires Valid()
      modifies this
      ensures Valid() && itemSize == old(itemSize)
      ensures FreeResult(pools, outcome) == FreeSlot(old(pools), ptr, itemSize)
    {
      FreeKeepsValid(pools, ptr, itemSize);
      var k := Find(pools, ptr, itemSize);
      if k == |pools| {
        return Ignored;
      }
      var pushFront := pools[k].free != ALL_FREE;
      var delta := SlotIndex(pools[k], ptr, itemSize);
      if !(0 <= delta < 32) {
        return AssertFailed;
      }
      pools := pools[k := pools[k].(free := pools[k].free + {delta})];
      if pools[k].free == ALL_FREE {
        pools := pools[..k] + pools[k + 1..];
        outcome := Released;
      } else {
        if pushFront {
          pools := [pools[k]] + (pools[..k] + pools[k + 1..]);
        }
        outcome := Kept;
      }
    }

    /** `eina_fixed_bitmap_shutdown`: every pool is released. */
    method Shutdown()
      modifies this
      ensures pools == [] && itemSize == old(itemSize)
    {
      pools := [];
    }
  }
}
