/**
 * Bit-level arithmetic on non-negative integers shared by the allocators:
 * powers of two, C's `&`, and the division facts the proofs about them
 * need.
 */
module Bits {
  /** C's `&` on non-negative integers, bit by bit from the lowest. */
  function BitAnd(a: nat, b: nat): (r: nat)
    ensures r <= a && r <= b
    decreases a
  {
    if a == 0 || b == 0 then 0 else 2 * BitAnd(a / 2, b / 2) + (if a % 2 == 1 && b % 2 == 1 then 1 else 0)
  }

  function Pow2(k: nat): (r: nat)
    ensures r >= 1 && r > k
  {
    if k == 0 then 1 else 2 * Pow2(k - 1)
  }

  /** C's `v << k`, without a width: `k` doublings. */
  function Shl(v: nat, k: nat): (r: nat)
    ensures v <= r
  {
    if k == 0 then v else 2 * Shl(v, k - 1)
  }

  /** C's `v >> k`: `k` halvings, the lowest bit dropped first. */
  function Shr(v: nat, k: nat): (r: nat)
    ensures r <= v
  {
    if k == 0 then v else Shr(v / 2, k - 1)
  }

  /** Shifting left multiplies by a power of two. */
  lemma {:induction false} ShlMul(v: nat, k: nat)
    ensures Shl(v, k) == Pow2(k) * v
  {
    if k > 0 {
      ShlMul(v, k - 1);
      MulAssoc(2, Pow2(k - 1), v);
    }
  }

  /** Shifting right divides by a power of two. */
  lemma {:induction false} ShrDiv(v: nat, k: nat)
    ensures Shr(v, k) == v / Pow2(k)
  {
    if k > 0 {
      ShrDiv(v / 2, k - 1);
      DivHalves(v, Pow2(k - 1));
      assert Pow2(k) == 2 * Pow2(k - 1);
    }
  }

  /** Halving and then dividing by `P` is dividing by `2P`. */
  lemma DivHalves(v: nat, P: nat)
    requires P >= 1
    ensures (v / 2) / P == v / (2 * P)
  {
    var q, r := (v / 2) / P, (v / 2) % P;
    assert v == 2 * (P * q + r) + v % 2;
    assert v == (2 * P) * q + (2 * r + v % 2);
    DivModUnique(v, 2 * P, q, 2 * r + v % 2);
  }

  /** Shifting left and back right by the same count gives the value back. */
  lemma {:induction false} ShrShl(v: nat, k: nat)
    ensures Shr(Shl(v, k), k) == v
  {
    if k > 0 {
      assert Shl(v, k) / 2 == Shl(v, k - 1);
      ShrShl(v, k - 1);
    }
  }

  /** And-ing with `2^k - 1` keeps the `k` low bits. */
  lemma {:induction false} LowMask(a: nat, k: nat)
    ensures BitAnd(a, Pow2(k) - 1) == a % Pow2(k)
    decreases a
  {
    if k > 0 && a > 0 {
      LowMask(a / 2, k - 1);
      LowMaskStep(a, k);
    } else {
      LowMaskBase(a, k);
    }
  }

  /** An empty mask, or nothing to mask. */
  lemma LowMaskBase(a: nat, k: nat)
    requires k == 0 || a == 0
    ensures BitAnd(a, Pow2(k) - 1) == a % Pow2(k)
  {
    if k == 0 {
      assert Pow2(0) - 1 == 0 && BitAnd(a, 0) == 0;
      DivModUnique(a, 1, a, 0);
    } else {
      DivModUnique(0, Pow2(k), 0, 0);
    }
  }

  /** One bit more of the mask: the low bit of `a` joins the masked rest. */
  lemma LowMaskStep(a: nat, k: nat)
    requires a >= 1 && k >= 1 && BitAnd(a / 2, Pow2(k - 1) - 1) == (a / 2) % Pow2(k - 1)
    ensures BitAnd(a, Pow2(k) - 1) == a % Pow2(k)
  {
    var m := Pow2(k - 1);
    assert Pow2(k) == 2 * m;
    BitAndOdd(a, m);
    ModHalves(a, m);
  }

  /** And-ing with an odd mask `2m - 1` keeps the low bit and masks the rest with `m - 1`. */
  lemma BitAndOdd(a: nat, m: nat)
    requires a >= 1 && m >= 1
    ensures BitAnd(a, 2 * m - 1) == 2 * BitAnd(a / 2, m - 1) + a % 2
  {
    assert (2 * m - 1) / 2 == m - 1 && (2 * m - 1) % 2 == 1;
  }

  /** `a mod 2m` from the halves: twice `(a/2) mod m`, plus the low bit. */
  lemma ModHalves(a: nat, m: nat)
    requires m >= 1
    ensures a % (2 * m) == 2 * ((a / 2) % m) + a % 2
  {
    var q := (a / 2) / m;
    var t := (a / 2) % m;
    assert a / 2 == q * m + t;
    assert a == (2 * m) * q + (2 * t + a % 2);
    DivModUnique(a, 2 * m, q, 2 * t + a % 2);
  }

  /** Division and remainder are the unique such pair. */
  lemma DivModUnique(a: nat, d: nat, q: nat, r: nat)
    requires d >= 1 && r < d && a == d * q + r
    ensures a / d == q && a % d == r
  {
    if a / d < q {
      MulStep(d, a / d, q);
    } else if a / d > q {
      MulStep(d, q, a / d);
    }
  }

  /** A larger factor adds at least one more `d`. */
  lemma {:induction false} MulStep(d: nat, x: nat, y: nat)
    requires x < y
    ensures d * x + d <= d * y
    decreases y - x
  {
    assert d * y == d * (y - 1) + d;
    if x + 1 < y {
      MulStep(d, x, y - 1);
    }
  }

  lemma {:induction false} Pow2Add(a: nat, b: nat)
    ensures Pow2(a + b) == Pow2(a) * Pow2(b)
    decreases a
  {
    if a > 0 {
      Pow2Add(a - 1, b);
      assert Pow2(a + b) == 2 * Pow2(a - 1 + b);
      MulAssoc(2, Pow2(a - 1), Pow2(b));
    }
  }
  lemma {:induction false} Pow2Less(a: nat, b: nat)
    requires a < b
    ensures 2 * Pow2(a) <= Pow2(b)
    decreases b - a
  {
    if a + 1 < b {
      Pow2Less(a, b - 1);
    }
  }

  lemma MulAssoc(a: nat, b: nat, c: nat)
    ensures (a * b) * c == a * (b * c)
  {
  }

  /** A multiple of `2^(a+b)` is a multiple of `2^a`. */
  lemma AlignedCoarser(x: nat, a: nat, b: nat)
    requires x % Pow2(a + b) == 0
    ensures x % Pow2(a) == 0
  {
    Pow2Add(a, b);
    ModFactor(x, Pow2(a), Pow2(b));
  }

  /** A multiple of `A * B` is a multiple of `A`. */
  lemma ModFactor(x: nat, A: nat, B: nat)
    requires A >= 1 && B >= 1 && x % (A * B) == 0
    ensures x % A == 0
  {
    var q := x / (A * B);
    assert x == (A * B) * q;
    MulAssoc(A, B, q);
    DivModUnique(x, A, B * q, 0);
  }

  /** A non-negative multiple of a positive number has a non-negative factor. */
  lemma MulSign(d: nat, e: int)
    requires d >= 1 && d * e >= 0
    ensures e >= 0
  {
  }

  /** A value of at least `n` times `d` holds `d` at least `n` times. */
  lemma DivAtLeast(a: nat, d: nat, n: nat)
    requires d >= 1 && d * n <= a
    ensures a / d >= n
  {
    if a / d < n {
      MulStep(d, a / d, n);
      assert false;
    }
  }

  /** Two multiples of `d`, the first below the second, are at least `d` apart. */
  lemma AlignedBelow(x: nat, n: nat, d: nat)
    requires d >= 1 && x % d == 0 && n % d == 0 && x < n
    ensures x + d <= n
  {
    if x / d >= n / d {
      if x / d > n / d {
        MulStep(d, n / d, x / d);
      }
      assert false;
    }
    MulStep(d, x / d, n / d);
  }

  /** Multiples of `d` stay multiples when `d` or another multiple is added or taken away. */
  lemma AlignedShift(x: nat, y: nat, d: nat)
    requires d >= 1 && x % d == 0 && y % d == 0
    ensures (x + y) % d == 0
    ensures y <= x ==> (x - y) % d == 0
  {
    var p, q := x / d, y / d;
    assert x + y == d * (p + q);
    DivModUnique(x + y, d, p + q, 0);
    if y <= x {
      assert x - y == d * (p - q);
      MulSign(d, p - q);
      DivModUnique(x - y, d, p - q, 0);
    }
  }

}
