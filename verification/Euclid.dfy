/** Euclid's algorithm and inverses in a quotient ring of the integers (`Gcd`, `MultiplicativeInverse`). */
module Euclid {

  function Abs(x: int): nat {
    if x < 0 then -x else x
  }

  ghost predicate Divides(d: int, n: int) {
    exists k :: n == d * k
  }

  /** d is a greatest common divisor of a and b, up to sign. */
  ghost predicate IsGcd(d: int, a: int, b: int) {
    && Divides(d, a) && Divides(d, b)
    && forall e :: Divides(e, a) && Divides(e, b) ==> Divides(e, d)
  }

  /** Only the units divide both. */
  ghost predicate Coprime(a: int, b: int) {
    forall d :: Divides(d, a) && Divides(d, b) ==> Abs(d) == 1
  }

  /** a * r is 1 modulo m. */
  ghost predicate IsInverse(r: int, a: int, m: int) {
    exists k :: a * r == 1 + m * k
  }

  lemma DividesLinear(d: int, a: int, b: int, y: int)
    requires Divides(d, a) && Divides(d, b)
    ensures Divides(d, a * y + b) && Divides(d, b - a * y)
  {
    var i :| a == d * i;
    var j :| b == d * j;
    assert a * y + b == d * (i * y + j);
    assert b - a * y == d * (j - i * y);
  }

  /** The quotient and the remainder `Integer::Divide` gives: the remainder is never negative. */
  lemma Remainder(a: int, b: int)
    requires b != 0
    ensures a == b * (a / b) + a % b && 0 <= a % b < Abs(b)
  {
  }

  /** Common divisors survive a division step, in both directions. */
  lemma GcdStep(d: int, a: int, b: int)
    requires b != 0
    ensures IsGcd(d, b, a % b) <==> IsGcd(d, a, b)
  {
    Remainder(a, b);
    var y := a / b;
    forall e
      ensures Divides(e, a) && Divides(e, b) <==> Divides(e, b) && Divides(e, a % b)
    {
      if Divides(e, b) && Divides(e, a) {
        DividesLinear(e, b, a, y);
      }
      if Divides(e, b) && Divides(e, a % b) {
        DividesLinear(e, b, a % b, y);
      }
    }
  }

  lemma GcdWithZero(a: int)
    ensures IsGcd(a, a, 0)
  {
    assert a == a * 1 && 0 == a * 0;
  }

  /** `AbstractEuclideanDomain::Gcd` over the integers. */
  method Gcd(a: int, b: int) returns (result: int)
    ensures IsGcd(result, a, b)
  {
    hide IsGcd;
    var g := new int[] [b, a, 0];
    var i0, i1, i2 := 0, 1, 2;
    assert forall d :: IsGcd(d, b, a) <==> IsGcd(d, a, b) by { GcdSymmetric(a, b); }
    while g[i1] != 0
      invariant {i0, i1, i2} == {0, 1, 2} && g.Length == 3
      invariant forall d :: IsGcd(d, g[i0], g[i1]) <==> IsGcd(d, a, b)
      decreases Abs(g[i1])
    {
      forall d {
        GcdStep(d, g[i0], g[i1]);
      }
      Remainder(g[i0], g[i1]);
      g[i2] := g[i0] % g[i1];
      i0, i1, i2 := i1, i2, i0;
    }
    GcdWithZero(g[i0]);
    result := g[i0];
  }

  lemma GcdSymmetric(a: int, b: int)
    ensures forall d :: IsGcd(d, b, a) <==> IsGcd(d, a, b)
  {
  }

  datatype Final = Final(g: int, v: int)

  /** The rotating slots of `MultiplicativeInverse`, from any point of its loop to its end. */
  function Run(m: nat, g0: int, g1: int, v0: int, v1: int): Final
    requires m > 0
    decreases Abs(g1)
  {
    if g1 % m == 0 then Final(g0, v0)
    else
      Remainder(g0, g1);
      Run(m, g1, g0 % g1, v1, v0 - v1 * (g0 / g1))
  }

  /** What `MultiplicativeInverse` returns. */
  function Inverse(m: nat, a: int): int
    requires m > 0
  {
    var f := Run(m, m, a, 0, 1);
    if Abs(f.g) == 1 then f.v / f.g else 0
  }

  /** `QuotientRing::MultiplicativeInverse`; the loop's zero test is equality modulo m. */
  method MultiplicativeInverse(m: nat, a: int) returns (result: int)
    requires m > 0
    ensures result == Inverse(m, a)
  {
    var g := new int[] [m, a, 0];
    var v := new int[] [0, 1, 0];
    var i0, i1, i2 := 0, 1, 2;
    while (g[i1] - 0) % m != 0
      invariant {i0, i1, i2} == {0, 1, 2} && g.Length == v.Length == 3 && g != v
      invariant Run(m, g[i0], g[i1], v[i0], v[i1]) == Run(m, m, a, 0, 1)
      decreases Abs(g[i1])
    {
      Remainder(g[i0], g[i1]);
      var y := g[i0] / g[i1];
      g[i2] := g[i0] % g[i1];
      v[i2] := v[i0] - v[i1] * y;
      i0, i1, i2 := i1, i2, i0;
    }
    result := if Abs(g[i0]) == 1 then v[i0] / g[i0] else 0;
  }

  /** While the current remainder is below m, equality to zero modulo m is equality to zero. */
  lemma SmallZeroTest(m: nat, g: int)
    requires m > 0 && Abs(g) < m
    ensures g % m == 0 <==> g == 0
  {
  }

  /** Each slot is a combination of a and m, with v as the coefficient of a. */
  ghost predicate Combination(m: nat, a: int, g: int, v: int, u: int) {
    g == a * v + m * u
  }

  lemma CombinationStep(m: nat, a: int, g0: int, g1: int, v0: int, v1: int, u0: int, u1: int, y: int)
    requires Combination(m, a, g0, v0, u0) && Combination(m, a, g1, v1, u1)
    ensures Combination(m, a, g0 - g1 * y, v0 - v1 * y, u0 - u1 * y)
  {
    assert a * (v0 - v1 * y) == a * v0 - a * v1 * y;
    assert m * (u0 - u1 * y) == m * u0 - m * u1 * y;
    assert g1 * y == a * v1 * y + m * u1 * y;
  }

  /** The loop ends at a greatest common divisor that is a combination of a and m. */
  lemma {:induction false} RunFindsCombination(m: nat, a: int, g0: int, g1: int, v0: int, v1: int, u0: int, u1: int)
    returns (u: int)
    requires m > 0 && Abs(g1) < m
    requires Combination(m, a, g0, v0, u0) && Combination(m, a, g1, v1, u1)
    ensures var f := Run(m, g0, g1, v0, v1); Combination(m, a, f.g, f.v, u) && IsGcd(f.g, g0, g1)
    decreases Abs(g1)
  {
    SmallZeroTest(m, g1);
    if g1 == 0 {
      u := u0;
      GcdWithZero(g0);
    } else {
      Remainder(g0, g1);
      var y := g0 / g1;
      CombinationStep(m, a, g0, g1, v0, v1, u0, u1, y);
      u := RunFindsCombination(m, a, g1, g0 % g1, v1, v0 - v1 * y, u1, u0 - u1 * y);
      GcdStep(Run(m, g0, g1, v0, v1).g, g0, g1);
    }
  }

  /** Coefficients alternate in sign and their sizes, weighted by the remainders, make up m. */
  ghost predicate Balanced(m: nat, g0: int, g1: int, v0: int, v1: int) {
    && 0 <= g1 < g0
    && (v0 <= 0 <= v1 || v1 <= 0 <= v0)
    && Abs(v1) * g0 + Abs(v0) * g1 == m
    && Abs(v0) < m
  }

  lemma AbsProduct(v: int, y: nat)
    ensures Abs(v * y) == Abs(v) * y
    ensures if v >= 0 then v * y >= 0 else v * y <= 0
  {
    assert -v * y == -(v * y);
  }

  lemma BalanceArithmetic(a0: nat, a1: nat, g1: nat, y: nat, r: nat)
    ensures (a0 + a1 * y) * g1 + a1 * r == a1 * (g1 * y + r) + a0 * g1
  {
    assert (a0 + a1 * y) * g1 == a0 * g1 + a1 * y * g1;
    assert a1 * (g1 * y + r) == a1 * (g1 * y) + a1 * r;
    assert a1 * y * g1 == a1 * (g1 * y);
  }

  lemma HalfBound(a: nat, g: nat, m: nat)
    requires g >= 2 && m > 0 && a * g <= m
    ensures a < m
  {
    assert a * g == a * 2 + a * (g - 2);
  }

  lemma QuotientNonNegative(a: nat, b: nat)
    requires b > 0
    ensures a / b >= 0
  {
  }

  lemma BalancedStep(m: nat, g0: int, g1: int, v0: int, v1: int)
    requires m > 0 && Balanced(m, g0, g1, v0, v1) && g1 > 0
    ensures Balanced(m, g1, g0 % g1, v1, v0 - v1 * (g0 / g1))
  {
    Remainder(g0, g1);
    QuotientNonNegative(g0, g1);
    var y, r := g0 / g1, g0 % g1;
    AbsProduct(v1, y);
    BalanceArithmetic(Abs(v0), Abs(v1), g1, y, r);
    assert Abs(v1) * g0 <= m by {
      assert Abs(v0) * g1 >= 0;
    }
    HalfBound(Abs(v1), g0, m);
    assert Abs(v0 - v1 * y) == Abs(v0) + Abs(v1) * y;
  }

  lemma {:induction false} RunStaysBelow(m: nat, g0: int, g1: int, v0: int, v1: int)
    requires m > 0 && g1 < m && Balanced(m, g0, g1, v0, v1)
    ensures Abs(Run(m, g0, g1, v0, v1).v) < m
    decreases g1
  {
    SmallZeroTest(m, g1);
    if g1 != 0 {
      BalancedStep(m, g0, g1, v0, v1);
      Remainder(g0, g1);
      RunStaysBelow(m, g1, g0 % g1, v1, v0 - v1 * (g0 / g1));
    }
  }

  lemma CoprimeIffUnitGcd(d: int, a: int, b: int)
    requires IsGcd(d, a, b)
    ensures Coprime(a, b) <==> Abs(d) == 1
  {
    if Abs(d) == 1 {
      forall e | Divides(e, a) && Divides(e, b)
        ensures Abs(e) == 1
      {
        var k :| d == e * k;
        UnitFactor(e, k);
      }
    }
  }

  /** `QuotientRing::IsUnit`: a greatest common divisor of a and the modulus is a unit. */
  method IsUnit(m: nat, a: int) returns (unit: bool)
    requires m > 0
    ensures unit <==> Coprime(m, a)
    ensures unit <==> exists r :: IsInverse(r, a, m)
  {
    hide IsGcd, Coprime, IsInverse;
    var d := Gcd(a, m);
    IsGcdSwapped(d, a, m);
    CoprimeIffUnitGcd(d, m, a);
    UnitsAreCoprime(m, a);
    unit := Abs(d) == 1;
  }

  lemma IsGcdSwapped(d: int, a: int, b: int)
    requires IsGcd(d, a, b)
    ensures IsGcd(d, b, a)
  {
  }

  /** Exactly the elements coprime to the modulus have inverses, reduced or not. */
  lemma UnitsAreCoprime(m: nat, a: int)
    requires m > 0
    ensures Coprime(m, a) <==> exists r :: IsInverse(r, a, m)
  {
    hide IsInverse, Coprime;
    if r :| IsInverse(r, a, m) {
      InverseMeansCoprime(m, a, r);
    }
    if Coprime(m, a) {
      hide Coprime, IsInverse, Divides;
      Remainder(a, m);
      ReducedCoprime(m, a);
      InverseOfReduced(m, a % m);
      LiftInverse(m, a, a / m, a % m, Inverse(m, a % m));
    }
  }

  /** An inverse of the remainder is one of the number. */
  lemma LiftInverse(m: nat, a: int, y: int, r: int, v: int)
    requires a == m * y + r && IsInverse(v, r, m)
    ensures IsInverse(v, a, m)
  {
    var k :| r * v == 1 + m * k;
    SplitProduct(m, y, r, v);
    assert a * v == 1 + m * (k + y * v);
  }

  lemma SplitProduct(m: int, y: int, r: int, v: int)
    ensures (m * y + r) * v == m * (y * v) + r * v
  {
    assert m * y * v == m * (y * v);
  }

  lemma InverseMeansCoprime(m: nat, a: int, r: int)
    requires IsInverse(r, a, m)
    ensures Coprime(m, a)
  {
    var k :| a * r == 1 + m * k;
    forall d | Divides(d, m) && Divides(d, a)
      ensures Abs(d) == 1
    {
      var i :| m == d * i;
      var j :| a == d * j;
      CommonFactor(d, i, j, k, r);
      UnitFactor(d, j * r - i * k);
    }
  }

  lemma CommonFactor(d: int, i: int, j: int, k: int, r: int)
    ensures d * (j * r - i * k) == d * j * r - d * i * k
  {
    assert d * (j * r) == d * j * r && d * (i * k) == d * i * k;
  }

  lemma ReducedCoprime(m: nat, a: int)
    requires m > 0 && Coprime(m, a)
    ensures Coprime(m, a % m)
  {
    Remainder(a, m);
    forall d | Divides(d, m) && Divides(d, a % m)
      ensures Abs(d) == 1
    {
      DividesLinear(d, m, a % m, a / m);
    }
  }

  lemma AbsGrows(e: int, k: int)
    ensures Abs(e) >= 2 && k != 0 ==> Abs(e * k) >= 2
    ensures e == 0 || k == 0 ==> e * k == 0
  {
    if k >= 0 {
      AbsProduct(e, k);
    } else {
      AbsProduct(e, -k);
      assert e * k == -(e * -k);
    }
    assert Abs(e) >= 2 && Abs(k) >= 1 ==> Abs(e) * Abs(k) >= 2;
  }

  lemma UnitFactor(e: int, k: int)
    requires Abs(e * k) == 1
    ensures Abs(e) == 1
  {
    AbsGrows(e, k);
  }

  /** A combination of size one gives an inverse. */
  lemma UnitGivesInverse(m: nat, a: int, g: int, v: int, u: int)
    requires Combination(m, a, g, v, u) && Abs(g) == 1
    ensures IsInverse(v / g, a, m) && Abs(v / g) == Abs(v)
  {
    if g == 1 {
      assert v / 1 == v;
      assert a * v == 1 + m * -u;
    } else {
      assert v / -1 == -v;
      assert a * -v == -(a * v);
      assert a * -v == 1 + m * u;
    }
  }

  /** For |a| < m the result is a true inverse exactly when a is coprime to m, and otherwise 0. */
  lemma InverseOfReduced(m: nat, a: int)
    requires m > 0 && Abs(a) < m
    ensures if Coprime(m, a) then IsInverse(Inverse(m, a), a, m) else Inverse(m, a) == 0
    ensures a >= 0 ==> Abs(Inverse(m, a)) < m
  {
    assert Combination(m, a, m, 0, 1) && Combination(m, a, a, 1, 0);
    assert a >= 0 ==> Balanced(m, m, a, 0, 1);
    hide Combination, Balanced, Run, IsGcd, Coprime, IsInverse;
    var u := RunFindsCombination(m, a, m, a, 0, 1, 1, 0);
    var f := Run(m, m, a, 0, 1);
    CoprimeIffUnitGcd(f.g, m, a);
    if Abs(f.g) == 1 {
      UnitGivesInverse(m, a, f.g, f.v, u);
    }
    if a >= 0 {
      RunStaysBelow(m, m, a, 0, 1);
    }
  }

  /** For |a| >= m the loop stops at once, or after one division by a larger number. */
  lemma InverseOfUnreduced(m: nat, a: int)
    requires m > 0 && Abs(a) >= m
    ensures Inverse(m, a) == 0
  {
    if a % m != 0 {
      MultiplesAreZero(m);
      DivideByLarger(m, a);
      assert Run(m, m, a, 0, 1) == Run(m, a, m, 1, 0);
      assert Run(m, a, m, 1, 0) == Final(a, 1);
    } else {
      assert Run(m, m, a, 0, 1) == Final(m, 0);
      assert m == 1 ==> 0 / 1 == 0;
    }
  }

  lemma MultiplesAreZero(m: nat)
    requires m > 0
    ensures m % m == 0 && (0 - m) % m == 0
  {
    assert 0 - m == m * -1;
  }

  lemma DivideByLarger(m: nat, a: int)
    requires 0 < m < Abs(a)
    ensures m / a == 0 && m % a == m
  {
  }

  lemma CoprimeToOne(a: int)
    ensures Coprime(1, a)
  {
    forall d | Divides(d, 1) && Divides(d, a)
      ensures Abs(d) == 1
    {
      var k :| 1 == d * k;
      UnitFactor(d, k);
    }
  }

  /**
   * The code keeps its promise, an inverse for every a coprime to m and 0 for every other a,
   * exactly for a within (-m, m), for m == 1, and for a not coprime to m.
   */
  lemma InverseKeepsPromiseExactly(m: nat, a: int)
    requires m > 0
    ensures (if Coprime(m, a) then IsInverse(Inverse(m, a), a, m) else Inverse(m, a) == 0)
       <==> (Abs(a) < m || m == 1 || !Coprime(m, a))
  {
    if Abs(a) < m {
      InverseOfReduced(m, a);
    } else {
      InverseOfUnreduced(m, a);
      if m == 1 {
        CoprimeToOne(a);
        assert a * 0 == 1 + m * -1;
      } else if Coprime(m, a) && IsInverse(0, a, m) {
        var k :| a * 0 == 1 + m * k;
        UnitFactor(m, k);
        assert false;
      }
    }
  }

  /** An unreduced element: 3 has the inverse 1 modulo 2, but the code returns 0. */
  lemma UnreducedElementHasNoInverse()
    ensures IsInverse(1, 3, 2) && Inverse(2, 3) == 0 && !IsInverse(0, 3, 2)
  {
    assert 3 * 1 == 1 + 2 * 1;
    InverseOfUnreduced(2, 3);
  }
}
