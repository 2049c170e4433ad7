/** Facts about products, quotients and shifts.  Shifts are repeated doubling and halving. */
module Arithmetic {
  lemma MulLeq(a: int, x: int, y: int)
    requires a >= 0 && x <= y
    ensures x * a <= y * a
  {
  }

  // Quotient and remainder are determined by the division equation.
  lemma DivModOf(a: int, k: int, r: int)
    requires a > 0 && 0 <= r < a
    ensures (k * a + r) / a == k && (k * a + r) % a == r
  {
    var q := (k * a + r) / a;
    var m := (k * a + r) % a;
    assert (q - k) * a == r - m;
    if q - k >= 1 {
      MulLeq(a, 1, q - k);
    } else if q - k <= -1 {
      MulLeq(a, q - k, -1);
    }
  }

  // n << k, n >> k and n & ((1 << k) - 1).

  function Shl(n: nat, k: nat): nat
    decreases k
  {
    if k == 0 then n else 2 * Shl(n, k - 1)
  }

  function Pow2(k: nat): nat {
    Shl(1, k)
  }

  function Shr(n: nat, k: nat): nat
    decreases k
  {
    if k == 0 then n else Shr(n / 2, k - 1)
  }

  function LowBits(n: nat, k: nat): nat
    decreases k
  {
    if k == 0 then 0 else n % 2 + 2 * LowBits(n / 2, k - 1)
  }

  lemma {:induction false} ShlAdd(a: nat, b: nat, k: nat)
    ensures Shl(a + b, k) == Shl(a, k) + Shl(b, k)
  {
    if k > 0 {
      ShlAdd(a, b, k - 1);
    }
  }

  lemma {:induction false} ShlTwice(n: nat, j: nat, k: nat)
    ensures Shl(Shl(n, j), k) == Shl(n, j + k)
  {
    if k > 0 {
      ShlTwice(n, j, k - 1);
    }
  }

  // Shifting doubles: the same bits one place further.
  lemma {:induction false} ShlDouble(n: nat, k: nat)
    ensures Shl(2 * n, k) == Shl(n, k + 1)
  {
    if k > 0 {
      ShlDouble(n, k - 1);
    }
  }

  lemma {:induction false} ShlLeq(a: nat, b: nat, k: nat)
    requires a <= b
    ensures Shl(a, k) <= Shl(b, k)
  {
    if k > 0 {
      ShlLeq(a, b, k - 1);
    }
  }

  lemma ShlLess(a: nat, b: nat, k: nat)
    requires a < b
    ensures Shl(a, k) + Pow2(k) <= Shl(b, k)
  {
    ShlAdd(a, 1, k);
    ShlLeq(a + 1, b, k);
  }

  lemma {:induction false} Pow2Positive(k: nat)
    ensures Pow2(k) >= 1
  {
    if k > 0 {
      Pow2Positive(k - 1);
    }
  }

  lemma Pow2Leq(j: nat, k: nat)
    requires j <= k
    ensures Pow2(j) <= Pow2(k)
  {
    ShlTwice(1, k - j, j);
    Pow2Positive(k - j);
    ShlLeq(1, Pow2(k - j), j);
  }

  lemma {:induction false} ShrSplits(n: nat, k: nat)
    ensures n == Shl(Shr(n, k), k) + LowBits(n, k)
    ensures LowBits(n, k) < Pow2(k)
  {
    if k > 0 {
      ShrSplits(n / 2, k - 1);
    }
  }

  lemma SameSplit(q: nat, r: nat, t: nat, u: nat, k: nat)
    requires r < Pow2(k) && u < Pow2(k) && Shl(q, k) + r == Shl(t, k) + u
    ensures q == t && r == u
  {
    if q < t {
      ShlLess(q, t, k);
    } else if t < q {
      ShlLess(t, q, k);
    }
  }

  lemma ShrOf(q: nat, r: nat, k: nat)
    requires r < Pow2(k)
    ensures Shr(Shl(q, k) + r, k) == q && LowBits(Shl(q, k) + r, k) == r
  {
    var n := Shl(q, k) + r;
    ShrSplits(n, k);
    SameSplit(q, r, Shr(n, k), LowBits(n, k), k);
  }

  lemma Shl8(n: nat)
    ensures Shl(n, 8) == 0x100 * n && Shl(n, 7) == 0x80 * n
    ensures Shl(n, 6) == 64 * n && Shl(n, 5) == 32 * n
  {
    assert Shl(n, 1) == 2 * n && Shl(n, 2) == 4 * n;
    assert Shl(n, 3) == 8 * n && Shl(n, 4) == 16 * n;
  }

  // The bounds of the program's 64-bit integers.
  lemma Pow2Values()
    ensures Pow2(0) == 1 && Pow2(1) == 2 && Pow2(5) == 32 && Pow2(6) == 64
    ensures Pow2(63) == 0x8000_0000_0000_0000
  {
    Shl8(1);
    ShlTwice(1, 8, 8);
    Shl8(0x100);
    ShlTwice(1, 16, 8);
    Shl8(0x1_0000);
    ShlTwice(1, 24, 8);
    Shl8(0x100_0000);
    Pow2Above32();
  }

  lemma Pow2Above32()
    requires Pow2(32) == 0x1_0000_0000
    ensures Pow2(63) == 0x8000_0000_0000_0000
  {
    ShlTwice(1, 32, 8);
    Shl8(0x1_0000_0000);
    ShlTwice(1, 40, 8);
    Shl8(0x100_0000_0000);
    ShlTwice(1, 48, 8);
    Shl8(0x1_0000_0000_0000);
    ShlTwice(1, 56, 7);
    Shl8(0x100_0000_0000_0000);
  }
}
