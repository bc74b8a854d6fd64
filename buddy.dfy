/**
 * The buddy memory pool: a heap of `2^max_order` bytes cut into blocks of
 * `2^min_order` bytes. A block of order `o` covers `2^o` consecutive
 * block slots. `areas[o]` is the free list of order `o`. Allocation splits
 * a larger free block down to the requested order. Freeing merges a block
 * with its buddy (the block it was split from) while that buddy is free.
 *
 * The merge loop as written keeps the freed block's own index even when
 * its buddy is the lower half, so a merged block can start in the middle
 * of its order. `FreeAsWritten` models that code. `Merge`, which the
 * allocator uses, merges into the lower buddy.
 */
module BuddyMempool {
  import opened Wrappers
  import opened Bits

  /** `_init` raises the minimum order to 15 (32 KiB blocks). */
  const MIN_ORDER_FLOOR: nat := 15
  /** The range of `size_t`. */
  const SIZE_RANGE: nat := 0x1_0000_0000_0000_0000

  /** A slot of the block array: whether it heads a free block, and its order above `min_order`. */
  datatype Block = Block(available: bool, order: nat)

  /** The allocator's bookkeeping as values: one free list per order, and the block array. */
  datatype State = State(areas: seq<seq<nat>>, blocks: seq<Block>)

  /** Bytes in a block of order `i`: `(1 << min_order) << i`. */
  function Bytes(minOrder: nat, i: nat): nat
  {
    Pow2(minOrder + i)
  }

  // ------------------------------------------------------------ orders

  /** The loop of `_get_order` from doubling step `i` on. */
  function OrderFrom(minOrder: nat, numOrder: nat, request: nat, i: nat): (r: nat)
    requires i <= numOrder
    ensures i <= r <= numOrder
    ensures r < numOrder ==> request <= Bytes(minOrder, r)
    ensures forall t :: i <= t < r ==> Bytes(minOrder, t) < request
    decreases numOrder - i
  {
    if i < numOrder && Bytes(minOrder, i) < request then OrderFrom(minOrder, numOrder, request, i + 1) else i
  }

  /**
   * `_get_order`: the smallest order whose blocks hold `request` bytes, or
   * `numOrder` when no order does.
   */
  function Order(minOrder: nat, numOrder: nat, request: nat): (r: nat)
    ensures r <= numOrder
    ensures r < numOrder ==> request <= Bytes(minOrder, r)
    ensures forall t :: 0 <= t < r ==> Bytes(minOrder, t) < request
  {
    OrderFrom(minOrder, numOrder, request, 0)
  }

  /** The loop of `_init` from doubling step `i` on. */
  function CountFrom(minOrder: nat, size: nat, i: nat): (r: nat)
    requires i <= size
    ensures i <= r
    ensures size < Bytes(minOrder, r)
    ensures forall t :: i <= t < r ==> Bytes(minOrder, t) <= size
    decreases size - i
  {
    if Bytes(minOrder, i) <= size then CountFrom(minOrder, size, i + 1) else i
  }

  /**
   * The number of orders `_init` sets up: how many of the sizes
   * `2^minOrder`, `2^(minOrder+1)`, ... fit in `size`.
   */
  function NumOrders(minOrder: nat, size: nat): (r: nat)
    ensures size < Bytes(minOrder, r)
    ensures forall t :: 0 <= t < r ==> Bytes(minOrder, t) <= size
  {
    CountFrom(minOrder, size, 0)
  }

  // --------------------------------------------------------- alignment

  /** A block at slot `x` of order `o` starts on a multiple of its length and ends within `n` slots. */
  predicate Fits(x: nat, o: nat, n: nat)
  {
    x % Pow2(o) == 0 && x + Pow2(o) <= n
  }

  /**
   * Every free-list entry of order `o` and every block of the array fits
   * the block array, which has `2^(numOrder-1)` slots.
   */
  predicate Aligned(s: State)
  {
    |s.areas| >= 1 && |s.blocks| == Pow2(|s.areas| - 1)
    && (forall o, i :: 0 <= o < |s.areas| && 0 <= i < |s.areas[o]| ==> Fits(s.areas[o][i], o, |s.blocks|))
    && (forall x :: 0 <= x < |s.blocks| ==> s.blocks[x].order < |s.areas| && Fits(x, s.blocks[x].order, |s.blocks|))
  }

  /** Halving a block that fits gives two halves that fit. */
  lemma FitsHalves(x: nat, o: nat, n: nat)
    requires o >= 1 && Fits(x, o, n)
    ensures Fits(x, o - 1, n) && Fits(x + Pow2(o - 1), o - 1, n)
  {
    AlignedCoarser(x, o - 1, 1);
    AlignedShift(x, Pow2(o - 1), Pow2(o - 1));
  }

  /** A block that fits, cut down to order `k`, and its buddies of orders `k` up to `j-1` all fit. */
  lemma {:induction false} FitsBelow(x: nat, k: nat, j: nat, n: nat)
    requires k <= j && Fits(x, j, n)
    ensures Fits(x, k, n)
    ensures forall t :: k <= t < j ==> Fits(x + Pow2(t), t, n)
    decreases j - k
  {
    if k < j {
      FitsHalves(x, j, n);
      FitsBelow(x, k, j - 1, n);
    }
  }

  /** Bit `o` of `x`: `x & (1 << o)`. */
  predicate BitSet(x: nat, o: nat)
  {
    (x / Pow2(o)) % 2 == 1
  }

  /** `x ^ (1 << o)`: the slot of the buddy of a block of order `o` at `x`. */
  function Flip(x: nat, o: nat): (r: nat)
    ensures BitSet(x, o) ==> r + Pow2(o) == x
    ensures !BitSet(x, o) ==> r == x + Pow2(o)
  {
    if BitSet(x, o) then
      MulStep(Pow2(o), 0, x / Pow2(o));
      x - Pow2(o)
    else
      x + Pow2(o)
  }

  /**
   * The buddy of a block that fits lies inside the array, and the lower of
   * the two is a block of the next order that fits and covers both.
   */
  lemma BuddyFits(x: nat, o: nat, num: nat)
    requires o + 1 < num && Fits(x, o, Pow2(num - 1))
    ensures Flip(x, o) < Pow2(num - 1)
    ensures var low := if Flip(x, o) < x then Flip(x, o) else x;
      Fits(low, o + 1, Pow2(num - 1)) && low <= x < low + Pow2(o + 1)
  {
    var P, n := Pow2(o), Pow2(num - 1);
    assert Pow2(o + 1) == 2 * P;
    if BitSet(x, o) {
      OddHalf(x, P);
    } else {
      EvenHalf(x, P);
      Pow2Add(o + 1, num - 2 - o);
      DivModUnique(n, 2 * P, Pow2(num - 2 - o), 0);
      AlignedBelow(x, n, 2 * P);
    }
  }

  /** A multiple of `P` with an odd quotient lies `P` past a multiple of `2P`. */
  lemma OddHalf(x: nat, P: nat)
    requires P >= 1 && x % P == 0 && (x / P) % 2 == 1
    ensures x >= P && (x - P) % (2 * P) == 0
  {
    var m := (x / P) / 2;
    assert x == P * (2 * m + 1);
    Twice(P, m);
    DivModUnique(x - P, 2 * P, m, 0);
  }

  /** A multiple of `P` with an even quotient is a multiple of `2P`. */
  lemma EvenHalf(x: nat, P: nat)
    requires P >= 1 && x % P == 0 && (x / P) % 2 == 0
    ensures x % (2 * P) == 0
  {
    var m := (x / P) / 2;
    assert x == P * (2 * m);
    Twice(P, m);
    DivModUnique(x, 2 * P, m, 0);
  }

  /** In an aligned state, the buddy of a block below the top order lies in the array. */
  lemma BuddyInside(s: State, x: nat)
    requires Aligned(s) && x < |s.blocks| && s.blocks[x].order + 1 < |s.areas|
    ensures var o := s.blocks[x].order;
      var bud := Flip(x, o);
      bud < |s.blocks| && Fits(if bud < x then bud else x, o + 1, |s.blocks|)
  {
    BuddyFits(x, s.blocks[x].order, |s.areas|);
  }

  lemma Twice(p: nat, m: nat)
    ensures p * (2 * m) == (2 * p) * m
    ensures p * (2 * m + 1) == (2 * p) * m + p
  {
  }

  /** A block of order `p` that starts inside a block of order `R >= p` ends inside it too. */
  lemma Nested(big: nat, R: nat, x: nat, p: nat)
    requires p <= R && big % Pow2(R) == 0 && x % Pow2(p) == 0
    requires big <= x < big + Pow2(R)
    ensures x + Pow2(p) <= big + Pow2(R)
  {
    AlignedCoarser(big, p, R - p);
    AlignedShift(x, big, Pow2(p));
    AlignedCoarser(Pow2(R), p, R - p) by {
      DivModUnique(Pow2(R), Pow2(R), 1, 0);
    }
    AlignedBelow(x - big, Pow2(R), Pow2(p));
  }

  // -------------------------------------------------------- free lists

  /** `eina_inlist_remove`: unlink the first occurrence of `x`. */
  function Unlink(xs: seq<nat>, x: nat): (r: seq<nat>)
    ensures |r| <= |xs|
    ensures x !in xs ==> r == xs
    ensures x in xs ==> |r| == |xs| - 1
  {
    if xs == [] then []
    else if xs[0] == x then xs[1..]
    else [xs[0]] + Unlink(xs[1..], x)
  }

  lemma {:induction false} UnlinkFits(xs: seq<nat>, x: nat, o: nat, n: nat)
    requires forall i :: 0 <= i < |xs| ==> Fits(xs[i], o, n)
    ensures forall i :: 0 <= i < |Unlink(xs, x)| ==> Fits(Unlink(xs, x)[i], o, n)
  {
    if xs != [] && xs[0] != x {
      UnlinkFits(xs[1..], x, o, n);
    }
  }

  /** The `while` loop of `_alloc`: the first order from `j` on with a free block, or `|areas|`. */
  function FirstFree(areas: seq<seq<nat>>, j: nat): (r: nat)
    requires j <= |areas|
    ensures j <= r <= |areas|
    ensures r < |areas| ==> areas[r] != []
    ensures forall t :: j <= t < r ==> areas[t] == []
    decreases |areas| - j
  {
    if j < |areas| && areas[j] == [] then FirstFree(areas, j + 1) else j
  }

  // -------------------------------------------------------- allocation

  /** A list of order `j` whose head fits, above empty lists down to order `k`: where the `found:` loop runs. */
  predicate Splittable(s: State, k: nat, j: nat)
  {
    k <= j < |s.areas| && s.areas[j] != [] && Fits(s.areas[j][0], j, |s.blocks|)
    && forall t :: k <= t < j ==> s.areas[t] == []
  }

  /**
   * One split of the `found:` loop: the head `h` of list `j` moves to list
   * `j-1`, followed by its upper half at `h + 2^(j-1)`, which becomes an
   * available block of order `j-1`.
   */
  function SplitStep(s: State, j: nat): (r: State)
    requires 1 <= j < |s.areas| && s.areas[j] != [] && Fits(s.areas[j][0], j, |s.blocks|)
    ensures |r.areas| == |s.areas| && |r.blocks| == |s.blocks|
    ensures r.areas[j - 1] == s.areas[j - 1] + [s.areas[j][0], s.areas[j][0] + Pow2(j - 1)]
    ensures Fits(s.areas[j][0], j - 1, |s.blocks|)
  {
    var h := s.areas[j][0];
    FitsHalves(h, j, |s.blocks|);
    var bud := h + Pow2(j - 1);
    State(s.areas[j := s.areas[j][1..]][j - 1 := s.areas[j - 1] + [h] + [bud]], s.blocks[bud := Block(true, j - 1)])
  }

  /** The end of the `found:` loop: the head of list `j` is unlinked and marked in use with order `j`. */
  function Take(s: State, j: nat): (r: State)
    requires j < |s.areas| && s.areas[j] != [] && s.areas[j][0] < |s.blocks|
  {
    State(s.areas[j := s.areas[j][1..]], s.blocks[s.areas[j][0] := Block(false, j)])
  }

  /** The `found:` loop of `_alloc`: split the head of list `j` down to order `k`, then take it. */
  function Split(s: State, k: nat, j: nat): (r: State)
    requires Splittable(s, k, j)
    ensures |r.areas| == |s.areas| && |r.blocks| == |s.blocks|
    decreases j - k
  {
    if j == k then Take(s, j) else Split(SplitStep(s, j), k, j - 1)
  }

  /** Slot `x` is one of the buddies `h + 2^t`, `k <= t < j`, that splitting `h` from order `j` to `k` hands out. */
  predicate SplitBuddy(x: nat, h: nat, k: nat, j: nat)
    decreases j
  {
    k < j && (x == h + Pow2(j - 1) || SplitBuddy(x, h, k, j - 1))
  }

  /**
   * The free lists a split leaves: list `j` lost its head `h`, each list
   * `t` from `k` to `j-1` holds just the buddy `h + 2^t`, and the other
   * lists are unchanged.
   */
  lemma {:induction false} SplitAreas(s: State, k: nat, j: nat)
    requires Splittable(s, k, j)
    ensures var r, h := Split(s, k, j), s.areas[j][0];
      && r.areas[j] == s.areas[j][1..]
      && (forall t :: k <= t < j ==> r.areas[t] == [h + Pow2(t)])
      && (forall t :: 0 <= t < |s.areas| && (t < k || j < t) ==> r.areas[t] == s.areas[t])
    decreases j - k
  {
    if j > k {
      var r, h := Split(s, k, j), s.areas[j][0];
      var s1 := SplitStep(s, j);
      assert s1.areas[j - 1] == [h, h + Pow2(j - 1)];
      SplitAreas(s1, k, j - 1);
      assert r == Split(s1, k, j - 1);
      forall t | 0 <= t < |s.areas| && (t < k || j <= t)
        ensures r.areas[t] == s1.areas[t]
      {
      }
    }
  }

  /**
   * The blocks a split leaves, slot by slot: `h` is in use with order
   * `k`, and a slot that is not one of the buddies is unchanged.
   */
  lemma {:induction false} SplitBlockAt(s: State, k: nat, j: nat, x: nat)
    requires Splittable(s, k, j) && x < |s.blocks|
    ensures var r, h := Split(s, k, j), s.areas[j][0];
      && (x == h ==> r.blocks[x] == Block(false, k))
      && (x != h && !SplitBuddy(x, h, k, j) ==> r.blocks[x] == s.blocks[x])
    decreases j - k
  {
    if j > k {
      var s1 := SplitStep(s, j);
      assert s1.areas[j - 1][0] == s.areas[j][0];
      SplitBlockAt(s1, k, j - 1, x);
    }
  }

  /** Each buddy `h + 2^t` a split hands out lies inside the array, available with order `t`. */
  lemma {:induction false} SplitBuddyAt(s: State, k: nat, j: nat, t: nat)
    requires Splittable(s, k, j) && k <= t < j
    ensures var r, h := Split(s, k, j), s.areas[j][0];
      h + Pow2(t) < |s.blocks| && r.blocks[h + Pow2(t)] == Block(true, t)
    decreases j - k
  {
    var h := s.areas[j][0];
    FitsBelow(h, k, j, |s.blocks|);
    var s1 := SplitStep(s, j);
    assert s1.areas[j - 1][0] == h;
    if t == j - 1 {
      BuddyNotLower(h + Pow2(t), h, k, t);
      SplitBlockAt(s1, k, j - 1, h + Pow2(t));
    } else {
      SplitBuddyAt(s1, k, j - 1, t);
    }
  }

  /** The buddy handed out first is not among those handed out after it. */
  lemma {:induction false} BuddyNotLower(x: nat, h: nat, k: nat, j: nat)
    requires x == h + Pow2(j)
    ensures x != h && !SplitBuddy(x, h, k, j)
    decreases j
  {
    if k < j {
      Pow2Less(j - 1, j);
      BuddyNotLowerFrom(x, h, k, j - 1, j);
    }
  }

  lemma {:induction false} BuddyNotLowerFrom(x: nat, h: nat, k: nat, i: nat, j: nat)
    requires x == h + Pow2(j) && i < j
    ensures !SplitBuddy(x, h, k, i)
    decreases i
  {
    if k < i {
      Pow2Less(i - 1, j);
      BuddyNotLowerFrom(x, h, k, i - 1, j);
    }
  }

  /** What `_alloc` leaves behind, and the slot of the block it hands out (`None` for NULL). */
  datatype Allocation = Allocation(state: State, index: Option<nat>)

  /**
   * `_alloc` for order `k`: NULL exactly when every free list from `k` up
   * is empty; otherwise the head of the first non-empty list is split
   * down to order `k` and handed out, in use, and the block fits the heap.
   */
  function Allocate(s: State, k: nat): (r: Allocation)
    requires Aligned(s) && k <= |s.areas|
    ensures r.index.None? <==> forall t :: k <= t < |s.areas| ==> s.areas[t] == []
    ensures r.index.None? ==> r.state == s
    ensures r.index.Some? ==> var j := FirstFree(s.areas, k);
      j < |s.areas| && r.index.value == s.areas[j][0] && r.state == Split(s, k, j)
    ensures r.index.Some? ==> Fits(r.index.value, k, |s.blocks|) && r.state.blocks[r.index.value] == Block(false, k)
    ensures Aligned(r.state)
  {
    var j := FirstFree(s.areas, k);
    if j == |s.areas| then
      Allocation(s, None)
    else
      assert Fits(s.areas[j][0], j, |s.blocks|);
      FitsBelow(s.areas[j][0], k, j, |s.blocks|);
      var r := Split(s, k, j);
      SplitBlockAt(s, k, j, s.areas[j][0]);
      SplitAligned(s, k, j);
      Allocation(r, Some(s.areas[j][0]))
  }

  /** The order of a split buddy. */
  lemma {:induction false} BuddyOrder(x: nat, h: nat, k: nat, j: nat) returns (t: nat)
    requires SplitBuddy(x, h, k, j)
    ensures k <= t < j && x == h + Pow2(t)
    decreases j
  {
    if x == h + Pow2(j - 1) {
      t := j - 1;
    } else {
      t := BuddyOrder(x, h, k, j - 1);
    }
  }

  lemma SplitAligned(s: State, k: nat, j: nat)
    requires Aligned(s) && Splittable(s, k, j)
    ensures Aligned(Split(s, k, j))
  {
    SplitListsFit(s, k, j);
    SplitBlocksFit(s, k, j);
  }

  /** After a split every free-list entry still fits. */
  lemma SplitListsFit(s: State, k: nat, j: nat)
    requires Aligned(s) && Splittable(s, k, j)
    ensures var r := Split(s, k, j);
      forall o, i :: 0 <= o < |r.areas| && 0 <= i < |r.areas[o]| ==> Fits(r.areas[o][i], o, |r.blocks|)
  {
    var h, n, r := s.areas[j][0], |s.blocks|, Split(s, k, j);
    FitsBelow(h, k, j, n);
    SplitAreas(s, k, j);
    forall o, i | 0 <= o < |r.areas| && 0 <= i < |r.areas[o]|
      ensures Fits(r.areas[o][i], o, n)
    {
      if o == j {
        assert r.areas[o][i] == s.areas[j][i + 1];
      } else if k <= o < j {
        assert r.areas[o][i] == h + Pow2(o);
      } else {
        assert r.areas[o][i] == s.areas[o][i];
      }
    }
  }

  /** After a split every block still fits, with an order below the number of lists. */
  lemma SplitBlocksFit(s: State, k: nat, j: nat)
    requires Aligned(s) && Splittable(s, k, j)
    ensures var r := Split(s, k, j);
      forall x :: 0 <= x < |r.blocks| ==> r.blocks[x].order < |r.areas| && Fits(x, r.blocks[x].order, |r.blocks|)
  {
    var h, n, r := s.areas[j][0], |s.blocks|, Split(s, k, j);
    FitsBelow(h, k, j, n);
    forall x | 0 <= x < n
      ensures r.blocks[x].order < |r.areas| && Fits(x, r.blocks[x].order, n)
    {
      SplitBlockAt(s, k, j, x);
      if SplitBuddy(x, h, k, j) {
        var t := BuddyOrder(x, h, k, j);
        SplitBuddyAt(s, k, j, t);
      }
    }
  }

  /** `_get_offset`: the address of the block at slot `index`; shifting back gives the slot. */
  function Address(heap: nat, minOrder: nat, index: nat): (p: nat)
    ensures heap <= p && Shr(p - heap, minOrder) == index
  {
    ShrShl(index, minOrder);
    heap + Shl(index, minOrder)
  }

  /** `element - heap` as a `size_t`. */
  function Offset(heap: nat, element: nat): nat
  {
    (element - heap) % SIZE_RANGE
  }

  /**
   * Freeing an address `_alloc` handed out is not ignored, and finds the
   * slot it came from.
   */
  lemma FreeFindsBlock(heap: nat, minOrder: nat, numOrder: nat, size: nat, index: nat)
    requires numOrder >= 1 && index < Pow2(numOrder - 1)
    requires Bytes(minOrder, numOrder - 1) <= size < SIZE_RANGE
    ensures Offset(heap, Address(heap, minOrder, index)) <= size
    ensures Shr(Offset(heap, Address(heap, minOrder, index)), minOrder) == index
  {
    var p := Address(heap, minOrder, index);
    ShlMul(index, minOrder);
    MulStep(Pow2(minOrder), index, Pow2(numOrder - 1));
    Pow2Add(minOrder, numOrder - 1);
    assert p - heap < SIZE_RANGE;
    DivModUnique(p - heap, SIZE_RANGE, 0, p - heap);
  }

  /**
   * The test `offset > size` lets through the address `heap + size`,
   * whose slot `size >> min_order` is at least the number of slots
   * `1 << (num_order - 1)` that `_init` allocates: every heap has an
   * address `_free` accepts and indexes past the block array with.
   */
  lemma SizeOffsetPastBlocks(heap: nat, minOrder: nat, numOrder: nat, size: nat)
    requires numOrder >= 1 && Bytes(minOrder, numOrder - 1) <= size < SIZE_RANGE
    ensures Offset(heap, heap + size) == size
    ensures Shr(size, minOrder) >= Pow2(numOrder - 1)
  {
    DivModUnique(size, SIZE_RANGE, 0, size);
    ShrDiv(size, minOrder);
    Pow2Add(minOrder, numOrder - 1);
    DivAtLeast(size, Pow2(minOrder), Pow2(numOrder - 1));
  }

  // ----------------------------------------------------------- freeing

  /** `end:` of `_free`: the block becomes available at the tail of its order's list. */
  function Release(s: State, x: nat): (r: State)
    requires x < |s.blocks| && s.blocks[x].order < |s.areas|
    ensures |r.areas| == |s.areas| && |r.blocks| == |s.blocks|
    ensures r.blocks[x] == s.blocks[x].(available := true)
    ensures r.areas[s.blocks[x].order] == s.areas[s.blocks[x].order] + [x]
  {
    var o := s.blocks[x].order;
    State(s.areas[o := s.areas[o] + [x]], s.blocks[x := s.blocks[x].(available := true)])
  }

  /** The freed or merged block, and the state the merge loop leaves. */
  datatype Merged = Merged(state: State, block: nat)

  /** One merge: the buddy leaves list `o`, and the lower of the two becomes a block of order `o+1`. */
  function Join(s: State, o: nat, bud: nat, low: nat): (r: State)
    requires o < |s.areas| && low < |s.blocks|
    ensures |r.areas| == |s.areas| && |r.blocks| == |s.blocks|
  {
    State(s.areas[o := Unlink(s.areas[o], bud)], s.blocks[low := s.blocks[low].(order := o + 1)])
  }

  /**
   * The `check:` loop of `_free`, merging into the lower buddy: it stops
   * at the top order, at a buddy in use, or at a buddy that heads a block
   * of another order (one that was split and is partly in use). The guard
   * on the buddy's slot never fires once every block fits the heap
   * (`BuddyInside`); `MergeAligned` shows that every block still fits
   * afterwards.
   */
  function Merge(s: State, x: nat): (r: Merged)
    requires x < |s.blocks| && s.blocks[x].order < |s.areas|
    ensures |r.state.areas| == |s.areas| && |r.state.blocks| == |s.blocks|
    ensures r.block < |s.blocks|
    decreases |s.areas| - s.blocks[x].order
  {
    if Stops(s, x) then
      Merged(Release(s, x), x)
    else
      var o := s.blocks[x].order;
      var bud := Flip(x, o);
      var low := if bud < x then bud else x;
      Merge(Join(s, o, bud, low), low)
  }

  /** The merge loop stops at block `x`: top order, or no free buddy of the same order. */
  predicate Stops(s: State, x: nat)
    requires x < |s.blocks| && s.blocks[x].order < |s.areas|
  {
    var o := s.blocks[x].order;
    var bud := Flip(x, o);
    o + 1 == |s.areas| || bud >= |s.blocks| || !s.blocks[bud].available || s.blocks[bud].order != o
  }

  /** Merging keeps every block fitting the heap. */
  lemma {:induction false} MergeAligned(s: State, x: nat)
    requires Aligned(s) && x < |s.blocks|
    ensures Aligned(Merge(s, x).state)
    decreases |s.areas| - s.blocks[x].order
  {
    if Stops(s, x) {
      ReleaseAligned(s, x);
    } else {
      var o := s.blocks[x].order;
      var bud := Flip(x, o);
      var low := if bud < x then bud else x;
      MergeUnfolds(s, x, o, bud, low);
      MergeAligned(Join(s, o, bud, low), low);
    }
  }

  /** Block `b` is available and last on the free list of its order. */
  predicate EndsFree(s: State, b: nat)
  {
    b < |s.blocks| && s.blocks[b].available && s.blocks[b].order < |s.areas|
    && s.areas[s.blocks[b].order] != [] && s.areas[s.blocks[b].order][|s.areas[s.blocks[b].order]| - 1] == b
  }

  /**
   * The end of `_free` for a block of order `o` at slot `x`: the merged
   * block is available at the tail of its order's list, its order is no
   * lower than `o`, and it covers slot `x`.
   */
  predicate EndsCovering(o: nat, x: nat, r: Merged)
  {
    EndsFree(r.state, r.block)
    && o <= r.state.blocks[r.block].order
    && r.block <= x < r.block + Pow2(r.state.blocks[r.block].order)
  }

  /** `_free` ends with the merged block available and covering the freed slot. */
  lemma {:induction false} MergeEnds(s: State, x: nat)
    requires Aligned(s) && x < |s.blocks|
    ensures EndsCovering(s.blocks[x].order, x, Merge(s, x))
    decreases |s.areas| - s.blocks[x].order, 2
  {
    if Stops(s, x) {
      ReleaseEnds(s, x);
    } else {
      MergeEndsStep(s, x);
    }
  }

  /** The case of `MergeEnds` where the merge goes ahead with the buddy. */
  lemma {:induction false} MergeEndsStep(s: State, x: nat)
    requires Aligned(s) && x < |s.blocks| && s.blocks[x].order < |s.areas| && !Stops(s, x)
    ensures EndsCovering(s.blocks[x].order, x, Merge(s, x))
    decreases |s.areas| - s.blocks[x].order, 1
  {
    var o := s.blocks[x].order;
    var bud := Flip(x, o);
    var low := if bud < x then bud else x;
    MergeStepCovers(s, x, o, bud, low);
    EndsCoveringLower(o, o + 1, x, Merge(s, x));
  }

  /** The merge goes ahead from `x`, and the rest of it ends covering `x` at order at least `o + 1`. */
  lemma {:induction false} MergeStepCovers(s: State, x: nat, o: nat, bud: nat, low: nat)
    requires Aligned(s) && x < |s.blocks| && o == s.blocks[x].order && o < |s.areas| && !Stops(s, x)
    requires bud == Flip(x, o) && low == (if bud < x then bud else x)
    ensures EndsCovering(o + 1, x, Merge(s, x))
    decreases |s.areas| - o, 0
  {
    MergeUnfolds(s, x, o, bud, low);
    MergeEndsJoined(Join(s, o, bud, low), low, o + 1, x);
  }

  /** A released block ends its order's free list, with its order unchanged. */
  lemma ReleaseEnds(s: State, x: nat)
    requires x < |s.blocks| && s.blocks[x].order < |s.areas| && Stops(s, x)
    ensures Merge(s, x) == Merged(Release(s, x), x)
    ensures EndsCovering(s.blocks[x].order, x, Merged(Release(s, x), x))
  {
  }

  lemma EndsCoveringLower(o: nat, p: nat, x: nat, r: Merged)
    requires o <= p && EndsCovering(p, x, r)
    ensures EndsCovering(o, x, r)
  {
  }

  /** The recursive case of `MergeEnds`: the merge goes on from the joined block of order `p`, which holds `x`. */
  lemma {:induction false} MergeEndsJoined(s1: State, low: nat, p: nat, x: nat)
    requires Aligned(s1) && low < |s1.blocks| && p == s1.blocks[low].order && p < |s1.areas|
    requires low % Pow2(p) == 0 && low <= x < low + Pow2(p)
    ensures EndsCovering(p, x, Merge(s1, low))
    decreases |s1.areas| - p, 3
  {
    MergeEnds(s1, low);
    MergeAligned(s1, low);
    var r := Merge(s1, low);
    MergeCovers(r.block, r.state.blocks[r.block].order, low, p, x);
  }

  /** A merge step that goes ahead leaves the rest of the merge to the joined block, which holds `x`. */
  lemma MergeUnfolds(s: State, x: nat, o: nat, bud: nat, low: nat)
    requires Aligned(s) && x < |s.blocks| && o == s.blocks[x].order && !Stops(s, x)
    requires bud == Flip(x, o) && low == (if bud < x then bud else x)
    ensures var j := Join(s, o, bud, low);
      && Aligned(j) && low < |j.blocks| && o + 1 == j.blocks[low].order && o + 1 < |j.areas|
      && low % Pow2(o + 1) == 0 && low <= x < low + Pow2(o + 1)
      && Merge(s, x) == Merge(j, low)
  {
    BuddyFits(x, o, |s.areas|);
    MergeStepAligned(s, o, bud, low);
  }

  /** A block of order `R` holding slot `low` of an aligned block of order `p` also holds the slots of that block. */
  lemma MergeCovers(b: nat, R: nat, low: nat, p: nat, x: nat)
    requires b % Pow2(R) == 0 && low % Pow2(p) == 0 && p <= R && b <= low < b + Pow2(R)
    requires low <= x < low + Pow2(p)
    ensures b <= x < b + Pow2(R)
  {
    Nested(b, R, low, p);
  }

  lemma ReleaseAligned(s: State, x: nat)
    requires Aligned(s) && x < |s.blocks|
    ensures Aligned(Release(s, x))
  {
    var r := Release(s, x);
    assert forall y :: 0 <= y < |s.blocks| ==> r.blocks[y].order == s.blocks[y].order;
    forall o, i | 0 <= o < |r.areas| && 0 <= i < |r.areas[o]|
      ensures Fits(r.areas[o][i], o, |r.blocks|)
    {
      if o == s.blocks[x].order && i == |s.areas[o]| {
        assert r.areas[o][i] == x;
      } else {
        assert r.areas[o][i] == s.areas[o][i];
      }
    }
  }

  /** One merge step keeps every block fitting the heap. */
  lemma MergeStepAligned(s: State, o: nat, bud: nat, low: nat)
    requires Aligned(s) && o < |s.areas| && low < |s.blocks| && Fits(low, o + 1, |s.blocks|) && o + 1 < |s.areas|
    ensures Aligned(Join(s, o, bud, low))
  {
    var r := Join(s, o, bud, low);
    UnlinkFits(s.areas[o], bud, o, |s.blocks|);
    assert forall p, i :: 0 <= p < |r.areas| && p != o && 0 <= i < |r.areas[p]| ==> r.areas[p][i] == s.areas[p][i];
  }

  // --------------------------------------------------- free as written

  /** `end:` as written, NULL-free: `None` when the block's order indexes past the list array. */
  function ReleaseAsWritten(s: State, x: nat): (r: Option<State>)
    requires x < |s.blocks|
    ensures r.Some? <==> s.blocks[x].order < |s.areas|
  {
    if s.blocks[x].order < |s.areas| then Some(Release(s, x)) else None
  }

  /**
   * Whether `eina_inlist_remove(areas[o], bud)` acts as `Unlink` on the
   * lists as values: `bud` is on list `o`, or list `o` is empty, or `bud`
   * has no neighbour on any list. When `bud` sits with neighbours on the
   * list of another order, the call relinks that other list's nodes and
   * may hand list `o` the other list's tail; that is not modelled.
   */
  predicate UnlinkModelled(areas: seq<seq<nat>>, o: nat, bud: nat)
    requires o < |areas|
  {
    bud in areas[o] || areas[o] == [] || forall p :: 0 <= p < |areas| && bud in areas[p] ==> areas[p] == [bud]
  }

  /**
   * The `check:` loop of `_free` as written: the merged block keeps slot
   * `x` whether its buddy lies above or below it. `None` when it would
   * index outside the block array or the list array, or unlink the buddy
   * from a list in a way `UnlinkModelled` excludes.
   */
  function MergeAsWritten(s: State, x: nat): (r: Option<State>)
    requires x < |s.blocks|
    decreases |s.areas| - s.blocks[x].order
  {
    var o := s.blocks[x].order;
    if o + 1 == |s.areas| then ReleaseAsWritten(s, x)
    else
      var bud := Flip(x, o);
      if bud >= |s.blocks| || o >= |s.areas| then None
      else if !s.blocks[bud].available then ReleaseAsWritten(s, x)
      else if !UnlinkModelled(s.areas, o, bud) then None
      else MergeAsWritten(State(s.areas[o := Unlink(s.areas[o], bud)], s.blocks[x := s.blocks[x].(order := o + 1)]), x)
  }

  /**
   * `_free` from the block slot on, as written: a block whose order bit
   * is set first merges with the block below it when that one is
   * available, whatever its order, and then runs the merge loop. `None`
   * where `MergeAsWritten` gives `None`, and when the lower block's unlink
   * is one `UnlinkModelled` excludes.
   */
  function FreeAsWritten(s: State, x: nat): (r: Option<State>)
    requires x < |s.blocks|
  {
    var o := s.blocks[x].order;
    if BitSet(x, o) then
      var left := Flip(x, o);
      if !s.blocks[left].available then ReleaseAsWritten(s, x)
      else
        var lo := s.blocks[left].order;
        if lo >= |s.areas| || !UnlinkModelled(s.areas, lo, left) then None
        else MergeAsWritten(State(s.areas[lo := Unlink(s.areas[lo], left)], s.blocks[left := s.blocks[left].(order := lo + 1)]), left)
    else
      MergeAsWritten(s, x)
  }

  /** The state `_init` sets up for `numOrder` orders: slot 0 heads the whole heap on the top list. */
  function Initial(numOrder: nat): (s: State)
    requires numOrder >= 1
    ensures Aligned(s)
    ensures |s.areas| == numOrder && s.areas[numOrder - 1] == [0]
    ensures forall o :: 0 <= o < numOrder - 1 ==> s.areas[o] == []
    ensures s.blocks[0] == Block(true, 0) && forall x :: 1 <= x < |s.blocks| ==> s.blocks[x] == Block(false, 0)
  {
    var n := Pow2(numOrder - 1);
    DivModUnique(0, n, 0, 0);
    State(seq(numOrder, o => if o == numOrder - 1 then [0] else []),
          seq(n, x => if x == 0 then Block(true, 0) else Block(false, 0)))
  }

  // ------------------------------------------- a 128 KiB example heap

  /*
   * The states below are those of a 128 KiB heap with 32 KiB blocks
   * (`min_order` 15, three orders, four slots) along two runs of calls.
   */

  /** As `_init` sets it up: slot 0 heads the whole heap. */
  const Fresh: State := State([[], [], [0]], [Block(true, 0), Block(false, 0), Block(false, 0), Block(false, 0)])
  /** After a 64 KiB allocation: slot 0 in use with order 1, slot 2 free with order 1. */
  const OneOut: State := State([[], [2], []], [Block(false, 1), Block(false, 0), Block(true, 1), Block(false, 0)])
  /** After a further 32 KiB allocation: slot 2 in use, slot 3 free, both of order 0. */
  const TwoOut: State := State([[3], [], []], [Block(false, 1), Block(false, 0), Block(false, 0), Block(true, 0)])
  /** `TwoOut` after freeing slot 0, whose buddy (slot 2) is in use. */
  const OneBack: State := State([[3], [0], []], [Block(true, 1), Block(false, 0), Block(false, 0), Block(true, 0)])
  /** `OneBack` after freeing slot 2 as written: the top list holds slot 2. */
  const TopAtTwo: State := State([[], [], [2]], [Block(true, 1), Block(false, 0), Block(true, 2), Block(true, 0)])
  /** `OneBack` after freeing slot 2 with the lower-buddy merge: the top list holds slot 0. */
  const TopAtZero: State := State([[], [], [0]], [Block(true, 2), Block(false, 0), Block(false, 1), Block(true, 0)])
  /** `TwoOut` after another 32 KiB allocation: every slot is in use. */
  const ThreeOut: State := State([[], [], []], [Block(false, 1), Block(false, 0), Block(false, 0), Block(false, 0)])
  /** `ThreeOut` after freeing slot 2, whose buddy (slot 3) is in use. */
  const SlotTwoBack: State := State([[2], [], []], [Block(false, 1), Block(false, 0), Block(true, 0), Block(false, 0)])
  /** `SlotTwoBack` after freeing slot 0 as written: slot 0 heads the whole heap while slot 3 is in use. */
  const OverInUse: State := State([[2], [], [0]], [Block(true, 2), Block(false, 0), Block(true, 0), Block(false, 0)])
  /** `SlotTwoBack` after freeing slot 0 with the order check: slot 0 is free with order 1. */
  const BesideInUse: State := State([[2], [0], []], [Block(true, 1), Block(false, 0), Block(true, 0), Block(false, 0)])

  lemma InitialThree()
    ensures Initial(3) == Fresh
  {
    var s := Initial(3);
    assert Pow2(2) == 4;
    assert s.areas == Fresh.areas;
    assert s.blocks == Fresh.blocks;
  }

  /** From the fresh heap, a 64 KiB allocation splits the whole heap once and hands out slot 0. */
  lemma FirstAllocation()
    ensures Allocate(Initial(3), 1) == Allocation(OneOut, Some(0))
  {
    InitialThree();
    var s0 := Fresh;
    assert Pow2(1) == 2;
    assert FirstFree(s0.areas, 1) == 2;
    var r1 := SplitStep(s0, 2);
    assert r1.areas[0] == [] && r1.areas[1] == [0, 2] && r1.areas[2] == [];
    assert r1.blocks[2] == Block(true, 1);
    var s1 := State([[], [0, 2], []], [Block(true, 0), Block(false, 0), Block(true, 1), Block(false, 0)]);
    assert r1.areas == s1.areas && r1.blocks == s1.blocks;
    assert Split(s0, 1, 2) == Take(s1, 1);
  }

  /** Then a 32 KiB allocation splits slot 2 and hands it out, leaving slot 3 free. */
  lemma SecondAllocation()
    ensures Aligned(OneOut) && Allocate(OneOut, 0) == Allocation(TwoOut, Some(2))
  {
    FirstAllocation();
    var s0 := OneOut;
    assert Pow2(0) == 1;
    assert FirstFree(s0.areas, 0) == 1;
    var r2 := SplitStep(s0, 1);
    assert r2.areas[0] == [2, 3] && r2.areas[1] == [] && r2.areas[2] == [];
    var s2 := State([[2, 3], [], []], [Block(false, 1), Block(false, 0), Block(true, 1), Block(true, 0)]);
    assert r2.areas == s2.areas && r2.blocks == s2.blocks;
    assert Split(s0, 0, 1) == Take(s2, 0);
  }

  /** A third allocation of 32 KiB takes slot 3, the last free block. */
  lemma ThirdAllocation()
    ensures Aligned(TwoOut) && Allocate(TwoOut, 0) == Allocation(ThreeOut, Some(3))
  {
    SecondAllocation();
    assert FirstFree(TwoOut.areas, 0) == 0;
    var r := Take(TwoOut, 0);
    assert r.areas[0] == [] && r.areas[1] == [] && r.areas[2] == [];
    assert r.areas == ThreeOut.areas && r.blocks == ThreeOut.blocks;
  }

  /** Freeing slot 0 of `TwoOut`, as written and with the corrected merge alike, only releases it. */
  lemma FreeFirst()
    ensures Aligned(TwoOut) && FreeAsWritten(TwoOut, 0) == Some(OneBack) && Merge(TwoOut, 0) == Merged(OneBack, 0)
  {
    SecondAllocation();
    assert Pow2(1) == 2 && Pow2(0) == 1;
    assert !BitSet(0, 1) && Flip(0, 1) == 2;
    var r1 := Release(TwoOut, 0);
    assert r1.areas[0] == [3] && r1.areas[1] == [0] && r1.areas[2] == [];
    assert r1.areas == OneBack.areas && r1.blocks == OneBack.blocks;
  }

  /** Freeing slot 2 of `OneBack` as written: the merged block keeps slot 2 and reaches the top order. */
  lemma FreeSecondAsWritten()
    ensures FreeAsWritten(OneBack, 2) == Some(TopAtTwo)
  {
    assert Pow2(1) == 2 && Pow2(0) == 1;
    var c1 := OneBack;
    assert !BitSet(2, 0) && Flip(2, 0) == 3;
    var c2 := State([[], [0], []], [Block(true, 1), Block(false, 0), Block(false, 1), Block(true, 0)]);
    var m2 := State(c1.areas[0 := Unlink(c1.areas[0], 3)], c1.blocks[2 := c1.blocks[2].(order := 1)]);
    assert m2.areas == c2.areas && m2.blocks == c2.blocks;
    assert MergeAsWritten(c1, 2) == MergeAsWritten(c2, 2);
    assert BitSet(2, 1) && Flip(2, 1) == 0;
    var c3 := State([[], [], []], [Block(true, 1), Block(false, 0), Block(false, 2), Block(true, 0)]);
    var m3 := State(c2.areas[1 := Unlink(c2.areas[1], 0)], c2.blocks[2 := c2.blocks[2].(order := 2)]);
    assert m3.areas == c3.areas && m3.blocks == c3.blocks;
    assert MergeAsWritten(c2, 2) == MergeAsWritten(c3, 2);
    var r4 := Release(c3, 2);
    assert r4.areas[0] == [] && r4.areas[1] == [] && r4.areas[2] == [2];
    assert r4.areas == TopAtTwo.areas && r4.blocks == TopAtTwo.blocks;
    assert MergeAsWritten(c3, 2) == Some(r4);
    assert FreeAsWritten(c1, 2) == MergeAsWritten(c1, 2);
  }

  /** Freeing slot 2 of `OneBack` with the lower-buddy merge: two merges, then slot 0 heads the heap. */
  lemma FreeSecond()
    ensures Aligned(OneBack) && Merge(OneBack, 2) == Merged(TopAtZero, 0)
  {
    FreeFirst();
    assert Pow2(2) == 4 && Pow2(1) == 2 && Pow2(0) == 1;
    assert !BitSet(2, 0) && Flip(2, 0) == 3;
    var m2 := Join(OneBack, 0, 3, 2);
    assert m2.blocks == [Block(true, 1), Block(false, 0), Block(false, 1), Block(true, 0)];
    assert Merge(OneBack, 2) == Merge(m2, 2);
    assert BitSet(2, 1) && Flip(2, 1) == 0;
    var m3 := Join(m2, 1, 0, 0);
    assert m3.blocks == TopAtZero.blocks;
    assert Merge(m2, 2) == Merge(m3, 0);
    var r4 := Release(m3, 0);
    assert r4.areas[0] == [] && r4.areas[1] == [] && r4.areas[2] == [0];
    assert r4.areas == TopAtZero.areas && r4.blocks == TopAtZero.blocks;
  }

  /** Freeing slot 2 of `ThreeOut`, as written and corrected alike, only releases it. */
  lemma FreeSlotTwo()
    ensures Aligned(ThreeOut) && FreeAsWritten(ThreeOut, 2) == Some(SlotTwoBack) && Merge(ThreeOut, 2) == Merged(SlotTwoBack, 2)
  {
    ThirdAllocation();
    assert Pow2(0) == 1;
    assert !BitSet(2, 0) && Flip(2, 0) == 3;
    var r := Release(ThreeOut, 2);
    assert r.areas[0] == [2] && r.areas[1] == [] && r.areas[2] == [];
    assert r.areas == SlotTwoBack.areas && r.blocks == SlotTwoBack.blocks;
  }

  /**
   * Freeing slot 0 (order 1) of `SlotTwoBack` as written: its buddy slot 2
   * is available but heads a block of order 0, and the merge still goes
   * ahead, to the top order.
   */
  lemma FreeOverSplitAsWritten()
    ensures FreeAsWritten(SlotTwoBack, 0) == Some(OverInUse)
  {
    assert Pow2(1) == 2;
    var c1 := SlotTwoBack;
    assert !BitSet(0, 1) && Flip(0, 1) == 2;
    var c2 := State([[2], [], []], [Block(false, 2), Block(false, 0), Block(true, 0), Block(false, 0)]);
    var m2 := State(c1.areas[1 := Unlink(c1.areas[1], 2)], c1.blocks[0 := c1.blocks[0].(order := 2)]);
    assert m2.areas == c2.areas && m2.blocks == c2.blocks;
    assert MergeAsWritten(c1, 0) == MergeAsWritten(c2, 0);
    var r := Release(c2, 0);
    assert r.areas[0] == [2] && r.areas[1] == [] && r.areas[2] == [0];
    assert r.areas == OverInUse.areas && r.blocks == OverInUse.blocks;
    assert MergeAsWritten(c2, 0) == Some(r);
  }

  /** With the order check, freeing slot 0 of `SlotTwoBack` stops at order 1. */
  lemma FreeOverSplit()
    ensures Aligned(SlotTwoBack) && Merge(SlotTwoBack, 0) == Merged(BesideInUse, 0)
  {
    FreeSlotTwo();
    assert Pow2(1) == 2;
    assert !BitSet(0, 1) && Flip(0, 1) == 2;
    var r := Release(SlotTwoBack, 0);
    assert r.areas[0] == [2] && r.areas[1] == [0] && r.areas[2] == [];
    assert r.areas == BesideInUse.areas && r.blocks == BesideInUse.blocks;
  }

  /**
   * Allocating 64 KiB and then 32 KiB, and freeing both as written,
   * leaves the whole heap on the top list as slot 2, which does not start
   * on a multiple of its length: the next 128 KiB allocation would run
   * 64 KiB past the heap.
   */
  lemma MisalignedAfterFree()
    ensures Allocate(Initial(3), 1) == Allocation(OneOut, Some(0))
    ensures Aligned(OneOut) && Allocate(OneOut, 0) == Allocation(TwoOut, Some(2))
    ensures FreeAsWritten(TwoOut, 0) == Some(OneBack) && FreeAsWritten(OneBack, 2) == Some(TopAtTwo)
    ensures TopAtTwo.areas[2] == [2] && !Aligned(TopAtTwo)
  {
    FirstAllocation();
    SecondAllocation();
    FreeFirst();
    FreeSecondAsWritten();
    assert Pow2(2) == 4 && !Fits(2, 2, 4);
  }

  /** The same calls with the merge kept at the lower buddy leave the heap whole at slot 0, as `_init` left it. */
  lemma MergeReassembles()
    ensures Aligned(TwoOut) && Merge(TwoOut, 0) == Merged(OneBack, 0)
    ensures Aligned(OneBack) && Merge(OneBack, 2) == Merged(TopAtZero, 0)
    ensures TopAtZero.areas == Initial(3).areas
  {
    FreeFirst();
    FreeSecond();
    InitialThree();
  }

  /**
   * Allocating 64 KiB, then 32 KiB twice, and freeing the second and then
   * the first as written: the whole heap lands on the top list as slot 0
   * while slot 3 is still handed out, and slot 2 stays on the order-0
   * list inside it. The next 128 KiB allocation would overlap slot 3.
   */
  lemma MergesOverBlockInUse()
    ensures Aligned(TwoOut) && Allocate(TwoOut, 0) == Allocation(ThreeOut, Some(3))
    ensures FreeAsWritten(ThreeOut, 2) == Some(SlotTwoBack) && FreeAsWritten(SlotTwoBack, 0) == Some(OverInUse)
    ensures OverInUse.areas[2] == [0] && !OverInUse.blocks[3].available && OverInUse.areas[0] == [2]
  {
    ThirdAllocation();
    FreeSlotTwo();
    FreeOverSplitAsWritten();
  }

  /** The same calls with the order check leave slot 0 free at order 1, beside the block in use. */
  lemma MergeStopsAtSplitBuddy()
    ensures Aligned(ThreeOut) && Merge(ThreeOut, 2) == Merged(SlotTwoBack, 2)
    ensures Aligned(SlotTwoBack) && Merge(SlotTwoBack, 0) == Merged(BesideInUse, 0)
    ensures BesideInUse.areas[1] == [0] && BesideInUse.blocks[0] == Block(true, 1)
  {
    FreeSlotTwo();
    FreeOverSplit();
  }

  /** Handing out the whole heap and freeing it puts it back on the top list, as `_init` left it. */
  lemma WholeHeapRoundTrip(numOrder: nat)
    requires numOrder >= 1
    ensures var a := Allocate(Initial(numOrder), numOrder - 1);
      a.index == Some(0) && Merge(a.state, 0).state.areas == Initial(numOrder).areas
  {
    var s := Initial(numOrder);
    var a := Allocate(s, numOrder - 1);
    assert FirstFree(s.areas, numOrder - 1) == numOrder - 1;
    assert a.state == Take(s, numOrder - 1);
    assert a.state.blocks[0] == Block(false, numOrder - 1);
    var m := Merge(a.state, 0);
    assert m.state == Release(a.state, 0);
    forall o | 0 <= o < numOrder
      ensures m.state.areas[o] == s.areas[o]
    {
      if o == numOrder - 1 {
        assert a.state.areas[o] == [];
      }
    }
  }

  // -------------------------------------------------------- the pool

  /**
   * A buddy pool as `_init` sets it up: `areas` holds the free lists and
   * `blocks` the block array, both updated in place by `_alloc` and
   * `_free`. Addresses are byte offsets counted from address 0.
   */
  class Buddy {
    const heap: nat
    const size: nat
    const minOrder: nat
    const maxOrder: nat
    const numOrder: nat
    const areas: array<seq<nat>>
    const blocks: array<Block>

    /** The lists and the block array as a value. */
    function Snapshot(): State
      reads areas, blocks
    {
      State(areas[..], blocks[..])
    }

    /**
     * The orders span the heap: the largest block fits in `size`, the next
     * order would not, and every block fits the array.
     */
    ghost predicate Valid()
      reads areas, blocks
    {
      minOrder >= MIN_ORDER_FLOOR && numOrder >= 1 && maxOrder == minOrder + numOrder - 1
      && Bytes(minOrder, numOrder - 1) <= size < Bytes(minOrder, numOrder) && size < SIZE_RANGE
      && areas.Length == numOrder && Aligned(Snapshot())
    }

    /** The pool `_init` makes once it has counted the orders: slot 0 heads the whole heap. */
    constructor (heap: nat, size: nat, minOrder: nat, numOrder: nat)
      requires minOrder >= MIN_ORDER_FLOOR && numOrder >= 1
      requires Bytes(minOrder, numOrder - 1) <= size < Bytes(minOrder, numOrder) && size < SIZE_RANGE
      ensures Valid() && fresh(areas) && fresh(blocks)
      ensures this.heap == heap && this.size == size && this.minOrder == minOrder && this.numOrder == numOrder
      ensures Snapshot() == Initial(numOrder)
    {
      this.heap := heap;
      this.size := size;
      this.minOrder := minOrder;
      this.maxOrder := minOrder + numOrder - 1;
      this.numOrder := numOrder;
      areas := new seq<nat>[numOrder](_ => []);
      blocks := new Block[Pow2(numOrder - 1)](_ => Block(false, 0));
      new;
      blocks[0] := Block(true, 0);
      areas[numOrder - 1] := [0];
      var s := Initial(numOrder);
      assert areas[..] == s.areas;
      assert blocks[..] == s.blocks;
    }

    /**
     * `_init`: the minimum order is raised to 15, and the orders counted
     * while their blocks fit in `size`. NULL when not even one block fits.
     * The pool shifts `1` by the minimum order and by every order below
     * `num_order` as an `int`, so it is modelled where those shifts stay
     * below 31: a minimum order of at most 30 and at most 31 orders.
     */
    static method Init(heap: nat, size: nat, minOrderArg: nat) returns (b: Buddy?)
      requires size < SIZE_RANGE / 2 && minOrderArg <= 30
      requires size < Bytes(if minOrderArg < MIN_ORDER_FLOOR then MIN_ORDER_FLOOR else minOrderArg, 31)
      ensures var m := if minOrderArg < MIN_ORDER_FLOOR then MIN_ORDER_FLOOR else minOrderArg;
        && (b == null <==> NumOrders(m, size) == 0)
        && (b != null ==>
          && fresh(b) && fresh(b.areas) && fresh(b.blocks) && b.Valid()
          && b.heap == heap && b.size == size && b.minOrder == m && b.numOrder == NumOrders(m, size)
          && b.Snapshot() == Initial(b.numOrder))
      ensures b != null ==> b.numOrder <= 31
    {
      var m := if minOrderArg < MIN_ORDER_FLOOR then MIN_ORDER_FLOOR else minOrderArg;
      var bytes := Pow2(m);
      var i := 0;
      while bytes <= size
        invariant i <= size && bytes == Bytes(m, i)
        invariant CountFrom(m, size, i) == NumOrders(m, size)
        decreases size - i
      {
        bytes := bytes + bytes;
        i := i + 1;
      }
      if i == 0 {
        return null;
      }
      b := new Buddy(heap, size, m, i);
    }

    /** `_get_order`: the doubling loop finds the order of a request. */
    method GetOrder(request: nat) returns (i: nat)
      ensures i == Order(minOrder, numOrder, request)
    {
      var bytes := Pow2(minOrder);
      i := 0;
      while bytes < request && i < numOrder
        invariant i <= numOrder && bytes == Bytes(minOrder, i)
        invariant OrderFrom(minOrder, numOrder, request, i) == Order(minOrder, numOrder, request)
        decreases numOrder - i
      {
        bytes := bytes + bytes;
        i := i + 1;
      }
    }

    /**
     * `_alloc`: the pool takes the step `Allocate` describes for the
     * request's order, and the block handed out is returned by address.
     */
    method Alloc(request: nat) returns (p: Option<nat>)
      requires Valid()
      modifies areas, blocks
      ensures Valid()
      ensures var a := Allocate(old(Snapshot()), Order(minOrder, numOrder, request));
        && Snapshot() == a.state
        && p == (if a.index.None? then None else Some(Address(heap, minOrder, a.index.value)))
    {
      var k := GetOrder(request);
      ghost var a := Allocate(Snapshot(), k);
      var j := FindList(k);
      if j + minOrder > maxOrder {
        assert a.index.None?;
        return None;
      }
      assert a.index == Some(areas[j][0]) && Aligned(a.state);
      var h := SplitDown(k, j);
      assert Snapshot() == a.state;
      p := Some(Address(heap, minOrder, h));
    }

    /** The `while` loop of `_alloc`: the first order from `k` up with a free block. */
    method FindList(k: nat) returns (j: nat)
      requires k <= numOrder == areas.Length
      ensures j == FirstFree(areas[..], k)
    {
      j := k;
      while j < numOrder && areas[j] == []
        invariant k <= j <= numOrder
        invariant FirstFree(areas[..], j) == FirstFree(areas[..], k)
        decreases numOrder - j
      {
        j := j + 1;
      }
    }

    /** The `found:` loop of `_alloc`: the head of list `j` is split down to order `k` and taken. */
    method SplitDown(k: nat, j: nat) returns (h: nat)
      requires Splittable(Snapshot(), k, j)
      modifies areas, blocks
      ensures h == old(areas[j][0]) && Snapshot() == Split(old(Snapshot()), k, j)
    {
      ghost var target := Split(Snapshot(), k, j);
      h := areas[j][0];
      var i: nat := j;
      while i != k
        invariant Splittable(Snapshot(), k, i) && areas[i][0] == h
        invariant Split(Snapshot(), k, i) == target
        decreases i
      {
        ghost var s := Snapshot();
        SplitHead(i, h);
        i := i - 1;
        assert Split(s, k, i + 1) == Split(Snapshot(), k, i);
      }
      TakeHead(i, h);
    }

    /** One split of the `found:` loop, in place. */
    method SplitHead(j: nat, h: nat)
      requires 1 <= j < areas.Length && areas[j] != [] && areas[j][0] == h && Fits(h, j, blocks.Length)
      modifies areas, blocks
      ensures Snapshot() == SplitStep(old(Snapshot()), j)
    {
      ghost var s := Snapshot();
      areas[j] := areas[j][1..];
      areas[j - 1] := areas[j - 1] + [h];
      FitsHalves(h, j, blocks.Length);
      var bud := h + Pow2(j - 1);
      blocks[bud] := Block(true, j - 1);
      areas[j - 1] := areas[j - 1] + [bud];
      assert areas[..] == s.areas[j := s.areas[j][1..]][j - 1 := s.areas[j - 1] + [h] + [bud]];
    }

    /** The end of the `found:` loop, in place. */
    method TakeHead(j: nat, h: nat)
      requires j < areas.Length && areas[j] != [] && areas[j][0] == h && h < blocks.Length
      modifies areas, blocks
      ensures Snapshot() == Take(old(Snapshot()), j)
    {
      blocks[h] := Block(false, j);
      areas[j] := areas[j][1..];
    }

    /**
     * `_free`, merging into the lower buddy: an address more than `size`
     * bytes past the heap is ignored, and so is one whose slot lies past
     * the block array (`SizeOffsetPastBlocks`: the test as written lets
     * such slots through); otherwise the pool takes the step `Merge`
     * describes for the block's slot.
     */
    method Free(element: nat)
      requires Valid()
      modifies areas, blocks
      ensures Valid()
      ensures Offset(heap, element) > size || Shr(Offset(heap, element), minOrder) >= blocks.Length ==>
        Snapshot() == old(Snapshot())
      ensures Offset(heap, element) <= size && Shr(Offset(heap, element), minOrder) < blocks.Length ==>
        Snapshot() == Merge(old(Snapshot()), Shr(Offset(heap, element), minOrder)).state
    {
      var offset := Offset(heap, element);
      if offset > size || Shr(offset, minOrder) >= blocks.Length {
        return;
      }
      MergeFrom(Shr(offset, minOrder));
    }

    /** The `check:` loop and `end:` of `_free` from slot `x`, merging into the lower buddy. */
    method MergeFrom(x: nat)
      requires Valid() && x < blocks.Length
      modifies areas, blocks
      ensures Valid() && Snapshot() == Merge(old(Snapshot()), x).state
    {
      var idx: nat := x;
      ghost var target := Merge(Snapshot(), idx);
      while true
        invariant Aligned(Snapshot()) && areas.Length == numOrder && idx < blocks.Length
        invariant Merge(Snapshot(), idx) == target
        decreases numOrder - blocks[idx].order
      {
        ghost var s := Snapshot();
        var o := blocks[idx].order;
        assert o == s.blocks[idx].order;
        if o + minOrder == maxOrder {
          ReleaseEnds(s, idx);
          break;
        }
        BuddyInside(s, idx);
        var bud := Flip(idx, o);
        if !blocks[bud].available || blocks[bud].order != o {
          ReleaseEnds(s, idx);
          break;
        }
        var low: nat := if bud < idx then bud else idx;
        MergeUnfolds(s, idx, o, bud, low);
        JoinBuddy(o, bud, low);
        idx := low;
      }
      ReleaseAligned(Snapshot(), idx);
      ReleaseSlot(idx);
    }

    /** One merge of the `check:` loop, in place. */
    method JoinBuddy(o: nat, bud: nat, low: nat)
      requires o < areas.Length && low < blocks.Length
      modifies areas, blocks
      ensures Snapshot() == Join(old(Snapshot()), o, bud, low)
    {
      areas[o] := Unlink(areas[o], bud);
      blocks[low] := blocks[low].(order := o + 1);
    }

    /** `end:` of `_free`, in place. */
    method ReleaseSlot(x: nat)
      requires x < blocks.Length && blocks[x].order < areas.Length
      modifies areas, blocks
      ensures Snapshot() == Release(old(Snapshot()), x)
    {
      var o := blocks[x].order;
      blocks[x] := blocks[x].(available := true);
      areas[o] := areas[o] + [x];
    }
  }
}
