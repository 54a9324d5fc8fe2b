/** Integer facts shared by the models: shifts, low bits, powers of two, precision. */
module Numbers {
  /** `lword` arithmetic is modulo 2^64. */
  const LWORD: nat := 0x1_0000_0000_0000_0000

  /** 2^n */
  function Pow2(n: nat): (r: nat)
    ensures r >= 1
  {
    if n == 0 then 1 else 2 * Pow2(n - 1)
  }

  /** x << i */
  function Shl(x: int, i: nat): int {
    if i == 0 then x else 2 * Shl(x, i - 1)
  }

  /** n >> i */
  function Shr(n: nat, i: nat): nat {
    if i == 0 then n else Shr(n / 2, i - 1)
  }

  /** n & ((1 << i) - 1) */
  function Low(n: nat, i: nat): nat {
    if i == 0 then 0 else n % 2 + 2 * Low(n / 2, i - 1)
  }

  /** Bit i of n, least significant first. */
  function Bit(n: nat, i: nat): (b: nat)
    ensures b < 2
  {
    Shr(n, i) % 2
  }

  /** The number of bits of n without leading zeros: `Integer::BitCount`. */
  function BitCount(n: nat): nat {
    if n == 0 then 0 else 1 + BitCount(n / 2)
  }

  lemma {:induction false} ShlIsProduct(x: int, i: nat)
    ensures Shl(x, i) == x * Pow2(i)
  {
    if i == 0 {
    } else {
      ShlIsProduct(x, i - 1);
      assert x * Pow2(i) == 2 * (x * Pow2(i - 1));
    }
  }

  lemma {:induction false} ShlSum(x: int, y: int, i: nat)
    ensures Shl(x + y, i) == Shl(x, i) + Shl(y, i)
  {
    if i == 0 {
    } else {
      ShlSum(x, y, i - 1);
    }
  }

  lemma {:induction false} ShlOne(i: nat)
    ensures Shl(1, i) == Pow2(i) && Shl(0, i) == 0
  {
    if i == 0 {
    } else {
      ShlOne(i - 1);
    }
  }

  lemma Pow2Step(n: nat)
    ensures Pow2(0) == 1 && Pow2(n + 1) == 2 * Pow2(n)
  {
  }

  /** Shifts by nothing and by one, for use where the definitions are hidden. */
  lemma SmallShifts(n: nat)
    ensures Shl(n, 0) == n && Shl(n, 1) == 2 * n && Shr(n, 0) == n
  {
    assert Shl(n, 1) == 2 * Shl(n, 0);
  }

  lemma {:induction false} ShlShl(x: int, i: nat, j: nat)
    ensures Shl(Shl(x, i), j) == Shl(x, i + j)
  {
    if j == 0 {
    } else {
      ShlShl(x, i, j - 1);
    }
  }

  lemma {:induction false} ShlGrows(x: nat, i: nat)
    ensures Shl(x, i) >= x
    ensures i > 0 ==> Shl(x, i) >= 2 * x
  {
    if i == 0 {
    } else {
      ShlGrows(x, i - 1);
    }
  }

  lemma Pow2Add(a: nat, b: nat)
    ensures Pow2(a + b) == Pow2(a) * Pow2(b)
  {
    hide Pow2, Shl;
    ShlOne(a);
    ShlOne(a + b);
    ShlShl(1, a, b);
    ShlIsProduct(Pow2(a), b);
  }

  lemma {:induction false} Pow2Monotone(a: nat, b: nat)
    requires a <= b
    ensures Pow2(a) <= Pow2(b)
    ensures a < b ==> Pow2(a) < Pow2(b)
    decreases b
  {
    if a == b {
    } else {
      Pow2Monotone(a, b - 1);
    }
  }

  lemma {:induction false} ShrShr(n: nat, i: nat, j: nat)
    ensures Shr(Shr(n, i), j) == Shr(n, i + j)
  {
    if i == 0 {
    } else {
      ShrShr(n / 2, i - 1, j);
    }
  }

  /** Shifting one bit further. */
  lemma ShrStep(n: nat, i: nat)
    ensures Shr(n, i + 1) == Shr(n, i) / 2
    ensures Shr(n, i) == 2 * Shr(n, i + 1) + Bit(n, i)
  {
    ShrShr(n, i, 1);
    assert Shr(Shr(n, i), 1) == Shr(Shr(n, i) / 2, 0);
  }

  /** A number is its low bits plus the rest, shifted back. */
  lemma {:induction false} SplitLow(n: nat, i: nat)
    ensures n == Low(n, i) + Shl(Shr(n, i), i)
    ensures Low(n, i) < Pow2(i)
  {
    if i == 0 {
    } else {
      SplitLow(n / 2, i - 1);
    }
  }

  lemma LowOdd(n: nat, i: nat)
    requires n % 2 == 1 && i > 0
    ensures Low(n, i) % 2 == 1 && Pow2(i) % 2 == 0
  {
  }

  lemma {:induction false} SplitUnique(n: nat, i: nat, q: nat, r: nat)
    requires n == r + Shl(q, i) && r < Pow2(i)
    ensures Shr(n, i) == q && Low(n, i) == r
  {
    if i == 0 {
    } else {
      assert n / 2 == r / 2 + Shl(q, i - 1);
      SplitUnique(n / 2, i - 1, q, r / 2);
    }
  }

  /** Shifts and masks are division and remainder by a power of two. */
  lemma ShrIsDivision(n: nat, i: nat)
    ensures Shr(n, i) == n / Pow2(i) && Low(n, i) == n % Pow2(i)
  {
    SplitLow(n, i);
    ShlIsProduct(Shr(n, i), i);
    DivModUnique(n, Pow2(i), Shr(n, i), Low(n, i));
  }

  lemma {:induction false} BitCountBounds(n: nat)
    ensures n < Pow2(BitCount(n))
    ensures n > 0 ==> BitCount(n) > 0 && Pow2(BitCount(n) - 1) <= n
  {
    if n == 0 {
    } else {
      BitCountBounds(n / 2);
    }
  }

  /** Numbers of at most k bits are those below 2^k. */
  lemma BitCountAtMost(n: nat, k: nat)
    ensures BitCount(n) <= k <==> n < Pow2(k)
  {
    BitCountBounds(n);
    if BitCount(n) <= k {
      Pow2Monotone(BitCount(n), k);
    } else {
      Pow2Monotone(k, BitCount(n) - 1);
    }
  }

  lemma {:induction false} ShrBeyond(n: nat, i: nat)
    requires i >= BitCount(n)
    ensures Shr(n, i) == 0
  {
    if i == 0 {
    } else if n == 0 {
      ShrBeyond(0, i - 1);
    } else {
      ShrBeyond(n / 2, i - 1);
    }
  }

  /** The top bit is set. */
  lemma {:induction false} ShrTop(n: nat)
    requires n > 0
    ensures Shr(n, BitCount(n) - 1) == 1
  {
    if n == 1 {
    } else {
      ShrTop(n / 2);
    }
  }

  lemma MulLe(a: int, b: int, c: nat)
    requires a <= b
    ensures a * c <= b * c
  {
    assert b * c == a * c + (b - a) * c;
  }

  /** Quotient and remainder are determined by their defining equation. */
  lemma DivModUnique(n: int, d: int, q: int, r: int)
    requires d > 0 && 0 <= r < d && n == q * d + r
    ensures n / d == q && n % d == r
  {
    var k, s := n / d, n % d;
    assert n == k * d + s;
    assert (q + 1) * d == q * d + d && (k + 1) * d == k * d + d;
    if k > q {
      MulLe(q + 1, k, d);
    } else if k < q {
      MulLe(k + 1, q, d);
    }
  }

  lemma LwordIsPow2()
    ensures Pow2(64) == LWORD
  {
    hide Pow2;
    Pow2OfSixteen();
    Pow2Add(16, 16);
    Pow2Add(32, 32);
  }

  lemma Pow2OfSixteen()
    ensures Pow2(16) == 0x1_0000
  {
    assert Pow2(4) == 16 && Pow2(8) == 256 && Pow2(12) == 4096;
  }
}
