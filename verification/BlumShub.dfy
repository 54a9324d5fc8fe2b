/** The Blum Blum Shub generator: sequential bits, and seeking (`blumshub.cpp`). */
module BlumShub {
  import opened Numbers
  import opened Bytes
  import opened Euclid
  import opened Fermat

  /** The same residue is a difference that the modulus divides. */
  lemma SameResidue(a: int, b: int, n: nat)
    requires n > 0
    ensures a % n == b % n <==> Divides(n, a - b)
  {
    var i, r := a / n, a % n;
    var j, s := b / n, b % n;
    assert a == n * i + r && b == n * j + s;
    if r == s {
      assert a - b == n * (i - j);
    }
    if Divides(n, a - b) {
      var k :| a - b == n * k;
      assert a == (j + k) * n + s;
      DivModUnique(a, n, j + k, s);
    }
  }

  lemma DividesRemainder(a: int, n: nat)
    requires n > 0
    ensures Divides(n, a - a % n)
  {
    assert a - a % n == n * (a / n);
  }

  /** `Square` and `Exponentiate` of `ModularArithmetic`. */
  function Square(x: int, n: nat): (r: nat)
    requires n > 0
    ensures r < n
  {
    x * x % n
  }

  function Exponentiate(x: int, e: nat, n: nat): (r: nat)
    requires n > 0
    ensures r < n
  {
    Pow(x, e) % n
  }

  /** The k-th state: x0 squared k times. */
  function Squared(x0: nat, n: nat, k: nat): (x: nat)
    requires n > 0
    ensures k > 0 ==> x < n
  {
    if k == 0 then x0 else Square(Squared(x0, n, k - 1), n)
  }

  /** Squaring k times is raising to the power 2^k. */
  lemma {:induction false} SquaredIsPower(x0: nat, n: nat, k: nat)
    requires n > 0 && (k > 0 || x0 < n)
    ensures Squared(x0, n, k) == Exponentiate(x0, Pow2(k), n)
    decreases k, 0
  {
    if k == 0 {
      assert Pow(x0, 1) == x0 * Pow(x0, 0);
      DivModUnique(x0, n, 0, x0);
    } else {
      var y := Squared(x0, n, k - 1);
      var z := Pow(x0, Pow2(k - 1));
      PowAdd(x0, Pow2(k - 1), Pow2(k - 1));
      assert Pow(x0, Pow2(k)) == z * z;
      hide Squared, Pow, Pow2, Exponentiate;
      assert Divides(n, z - y) by {
        SquaredCongruent(x0, n, k - 1);
      }
      DividesProduct(n, z - y, z + y);
      assert (z - y) * (z + y) == z * z - y * y;
      SameResidue(z * z, y * y, n);
      SquaredStep(x0, n, k);
      ExponentiateIs(x0, Pow2(k), n);
    }
  }

  lemma SquaredStep(x0: nat, n: nat, k: nat)
    requires n > 0 && k > 0
    ensures Squared(x0, n, k) == Squared(x0, n, k - 1) * Squared(x0, n, k - 1) % n
  {
  }

  lemma ExponentiateIs(x0: nat, e: nat, n: nat)
    requires n > 0
    ensures Exponentiate(x0, e, n) == Pow(x0, e) % n
  {
  }

  lemma {:induction false} SquaredCongruent(x0: nat, n: nat, k: nat)
    requires n > 0
    ensures Divides(n, Pow(x0, Pow2(k)) - Squared(x0, n, k))
    decreases k, 1
  {
    if k == 0 {
      assert Pow(x0, 1) == x0 * Pow(x0, 0);
      DividesSelf(n);
    } else {
      SquaredIsPower(x0, n, k);
      DividesRemainder(Pow(x0, Pow2(k)), n);
    }
  }

  /** Exponents that differ by a multiple of p - 1 give the same power of what p does not divide. */
  lemma ReducedCoprime(p: nat, x: nat, e: nat, k: nat)
    requires Prime(p) && !Divides(p, x)
    ensures (p - 1) * k >= 0 && Divides(p, Pow(x, e + (p - 1) * k) - Pow(x, e))
  {
    LittleTheorem(p, x);
    PowMul(x, p - 1, k);
    PowOfOne(p, Pow(x, p - 1), k);
    PowAdd(x, e, (p - 1) * k);
    var y := Pow(x, (p - 1) * k);
    DividesProduct(p, y - 1, Pow(x, e));
    assert Pow(x, e) * (y - 1) == Pow(x, e) * y - Pow(x, e);
  }

  /** Modulo one prime: the exponent may be reduced exactly when it stays positive or p does not divide x. */
  lemma ReducedModPrime(p: nat, x: nat, e: nat, big: nat, k: nat)
    requires Prime(p) && big > 0 && big == e + (p - 1) * k
    ensures Divides(p, Pow(x, big) - Pow(x, e)) <==> !Divides(p, x) || e > 0
  {
    hide Prime, Divides, Pow;
    if !Divides(p, x) {
      ReducedCoprime(p, x, e, k);
    } else {
      DividesPow(p, x, big);
      if e > 0 {
        DividesPow(p, x, e);
        DividesSum(p, Pow(x, big), Pow(x, e));
      } else {
        NoPower(x);
        if Divides(p, Pow(x, big) - 1) {
          DividesSum(p, Pow(x, big), Pow(x, big) - 1);
          PrimeIsNoUnit(p);
        }
      }
    }
  }

  lemma NoPower(x: int)
    ensures Pow(x, 0) == 1
  {
  }

  lemma PrimeIsNoUnit(p: nat)
    requires Prime(p)
    ensures !Divides(p, 1)
  {
    if Divides(p, 1) {
      DividesSmall(p, 1);
    }
  }

  /** Two primes divide a number exactly when their product does. */
  lemma ProductDivides(p: nat, q: nat, d: int)
    requires Prime(p) && Prime(q) && p != q
    ensures p * q > 0 && (Divides(p * q, d) <==> Divides(p, d) && Divides(q, d))
  {
    MulLe(1, q, p);
    if Divides(p * q, d) {
      ProductSplits(p, q, d);
    }
    if Divides(p, d) && Divides(q, d) {
      ProductJoins(p, q, d);
    }
  }

  lemma ProductSplits(p: int, q: int, d: int)
    requires Divides(p * q, d)
    ensures Divides(p, d) && Divides(q, d)
  {
    var k :| d == p * q * k;
    Reassociate(p, q, k);
  }

  lemma ProductJoins(p: nat, q: nat, d: int)
    requires Prime(p) && Prime(q) && p != q && Divides(p, d) && Divides(q, d)
    ensures Divides(p * q, d)
  {
    var k :| d == p * k;
    EuclidsLemma(q, p, k);
    if Divides(q, p) {
      DividesSmall(q, p);
    } else {
      var j :| k == q * j;
      Reassociate(p, q, j);
    }
  }

  /** The seed's square shares a prime with the modulus exactly when the seed does. */
  lemma SquareDivisible(p: nat, seed: int, n: nat)
    requires Prime(p) && n > 0 && Divides(p, n)
    ensures Divides(p, Square(seed, n)) <==> Divides(p, seed)
  {
    var x := Square(seed, n);
    DividesRemainder(seed * seed, n);
    var j :| n == p * j;
    var k :| seed * seed - x == n * k;
    assert seed * seed - x == p * (j * k);
    assert Divides(p, seed * seed - x);
    if Divides(p, seed) {
      DividesProduct(p, seed, seed);
      DividesSum(p, seed * seed, seed * seed - x);
    }
    if Divides(p, x) {
      DividesSum(p, seed * seed - x, x);
      EuclidsLemma(p, seed, seed);
    }
  }

  /** The exponent `Seek` uses for the k-th state. */
  function SeekExponent(p: nat, q: nat, k: nat): nat
    requires p >= 2 && q >= 2
  {
    MulLe(1, q - 1, p - 1);
    Pow2(k) % ((p - 1) * (q - 1))
  }

  /** What a caller can check: the seed has no prime in common with the modulus, or the exponent is not zero. */
  ghost predicate Seekable(p: nat, q: nat, seed: int, k: nat)
    requires p >= 2 && q >= 2
  {
    (!Divides(p, seed) && !Divides(q, seed)) || SeekExponent(p, q, k) != 0
  }

  /** The state `Seek` computes is the k-th exactly then. */
  lemma SeekExactly(p: nat, q: nat, seed: int, k: nat)
    requires Prime(p) && Prime(q) && p != q && k > 0
    ensures p * q > 0
    ensures var x0 := Square(seed, p * q);
      Exponentiate(x0, SeekExponent(p, q, k), p * q) == Squared(x0, p * q, k) <==> Seekable(p, q, seed, k)
  {
    MulLe(1, q, p);
    hide Prime, Divides, Pow, SeekExponent, Pow2, Square;
    var n := p * q;
    var x0 := Square(seed, n);
    var big, e := Pow2(k), SeekExponent(p, q, k);
    PrimeSize(p);
    PrimeSize(q);
    var i, j := ExponentParts(p, q, k);
    SquaredIsPower(x0, n, k);
    SameResidue(Pow(x0, e), Pow(x0, big), n);
    NegateDivides(n, Pow(x0, e), Pow(x0, big));
    ProductDivides(p, q, Pow(x0, big) - Pow(x0, e));
    ReducedModPrime(p, x0, e, big, i);
    ReducedModPrime(q, x0, e, big, j);
    FactorsDivide(p, q);
    SquareDivisible(p, seed, n);
    SquareDivisible(q, seed, n);
  }

  lemma PrimeSize(p: int)
    requires Prime(p)
    ensures p >= 2
  {
  }

  /** The exponent is reduced by multiples of both p - 1 and q - 1. */
  lemma ExponentParts(p: nat, q: nat, k: nat) returns (i: nat, j: nat)
    requires p >= 2 && q >= 2
    ensures Pow2(k) == SeekExponent(p, q, k) + (p - 1) * i && Pow2(k) == SeekExponent(p, q, k) + (q - 1) * j
  {
    hide Pow2;
    var m := Quotient(p - 1, q - 1, Pow2(k));
    MulLe(0, m, q - 1);
    MulLe(0, m, p - 1);
    i, j := (q - 1) * m, (p - 1) * m;
  }

  /** Quotient and remainder by a product, in terms of its factors. */
  lemma Quotient(a: nat, b: nat, n: nat) returns (m: nat)
    requires a > 0 && b > 0
    ensures a * b > 0 && n == n % (a * b) + a * (b * m) == n % (a * b) + b * (a * m)
  {
    MulLe(1, b, a);
    var d := a * b;
    m := DivideBy(n, d);
    Reassociate(a, b, m);
  }

  lemma DivideBy(n: nat, d: nat) returns (m: nat)
    requires d > 0
    ensures n == n % d + d * m
  {
    m := n / d;
  }

  lemma Reassociate(a: int, b: int, m: int)
    ensures a * b * m == a * (b * m) && a * b * m == b * (a * m)
  {
  }

  lemma NegateDivides(n: int, a: int, b: int)
    ensures Divides(n, a - b) <==> Divides(n, b - a)
  {
    if Divides(n, a - b) {
      DividesProduct(n, a - b, -1);
    }
    if Divides(n, b - a) {
      DividesProduct(n, b - a, -1);
    }
  }

  lemma FactorsDivide(p: int, q: int)
    ensures Divides(p, p * q) && Divides(q, p * q)
  {
    assert p * q == q * p;
  }

  /** An odd divisor of twice a number divides the number. */
  lemma OddDividesHalf(d: int, x: int)
    requires d % 2 == 1 && Divides(d, 2 * x)
    ensures Divides(d, x)
  {
    var j :| 2 * x == d * j;
    OddTimes(d, j);
    assert x == d * (j / 2) by {
      Reassociate(d, j / 2, 2);
    }
  }

  lemma OddTimes(d: int, j: int)
    requires d % 2 == 1 && d * j % 2 == 0
    ensures j % 2 == 0 && j == 2 * (j / 2)
  {
    var c := d / 2;
    assert d * j == 2 * (c * j) + j;
  }

  lemma {:induction false} OddDividesPower(d: nat, k: nat)
    requires d % 2 == 1 && Divides(d, Pow2(k))
    ensures d == 1
  {
    if k == 0 {
      DividesSmall(d, 1);
    } else {
      OddDividesHalf(d, Pow2(k - 1));
      OddDividesPower(d, k - 1);
    }
  }

  /**
   * For the primes the documentation asks for, distinct and 3 modulo 4, the exponent is never zero,
   * so that every byte can be sought from every seed.
   */
  lemma BlumPrimesAlwaysSeek(p: nat, q: nat, seed: int, k: nat)
    requires p % 4 == 3 && q % 4 == 3 && p != q
    ensures Seekable(p, q, seed, k)
  {
    if SeekExponent(p, q, k) == 0 {
      var i, j := ExponentParts(p, q, k);
      HalfDivides(p, k, i);
      HalfDivides(q, k, j);
      assert false;
    }
  }

  lemma HalfDivides(p: nat, k: nat, i: nat)
    requires p % 4 == 3 && Pow2(k) == (p - 1) * i
    ensures p == 3
  {
    hide Pow2;
    var m := (p - 1) / 2;
    assert p - 1 == 2 * m && m % 2 == 1;
    Reassociate(2, m, i);
    assert Divides(m, Pow2(k));
    OddDividesPower(m, k);
  }
}
