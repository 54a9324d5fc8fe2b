/** Primes, and Fermat's little theorem by the binomial theorem. */
module Fermat {
  import opened Numbers
  import opened Euclid

  ghost predicate Prime(p: int) {
    p >= 2 && forall d :: 1 < d < p ==> !Divides(d, p)
  }

  lemma DividesSum(d: int, a: int, b: int)
    requires Divides(d, a) && Divides(d, b)
    ensures Divides(d, a + b) && Divides(d, a - b)
  {
    var i :| a == d * i;
    var j :| b == d * j;
    assert a + b == d * (i + j) && a - b == d * (i - j);
  }

  lemma DividesProduct(d: int, a: int, b: int)
    requires Divides(d, a)
    ensures Divides(d, a * b) && Divides(d, b * a)
  {
    var i :| a == d * i;
    assert a * b == d * (i * b) && b * a == a * b;
  }

  lemma DividesSelf(d: int)
    ensures Divides(d, d) && Divides(d, 0)
  {
    assert d == d * 1 && 0 == d * 0;
  }

  lemma DividesSmall(d: int, n: int)
    requires d > 0 && 0 < n && Divides(d, n)
    ensures d <= n
  {
    var k :| n == d * k;
    if k <= 0 {
      MulLe(k, 0, d);
    } else {
      MulLe(1, k, d);
    }
  }

  /** A common divisor that is a combination of both. */
  lemma {:induction false} Bezout(a: nat, b: nat) returns (g: nat, u: int, v: int)
    requires a > 0
    ensures g > 0 && g == u * a + v * b && Divides(g, a) && Divides(g, b)
    decreases b
  {
    if b == 0 {
      g, u, v := a, 1, 0;
      DividesSelf(a);
    } else {
      var y, r := a / b, a % b;
      assert a == b * y + r;
      var s, t;
      g, s, t := Bezout(b, r);
      DividesProduct(g, b, y);
      DividesSum(g, b * y, r);
      u, v := t, s - t * y;
      assert u * a + v * b == t * (b * y + r) + (s - t * y) * b == s * b + t * r by {
        Distribute(s, t, b, y, r);
      }
    }
  }

  lemma Distribute(s: int, t: int, b: int, y: int, r: int)
    ensures t * (b * y + r) + (s - t * y) * b == s * b + t * r
  {
    assert t * (b * y + r) == t * b * y + t * r;
    assert (s - t * y) * b == s * b - t * b * y;
  }

  /** A prime that divides a product divides a factor. */
  lemma EuclidsLemma(p: int, a: int, b: int)
    requires Prime(p) && Divides(p, a * b)
    ensures Divides(p, a) || Divides(p, b)
  {
    var x := if a < 0 then -a else a;
    var g, u, v := Bezout(p, x);
    if g == p {
      DividesProduct(p, x, -1);
    } else {
      DividesSmall(g, p);
      assert g == 1;
      var w := if a < 0 then -v else v;
      assert w * a == v * x;
      CofactorDivides(p, a, b, u, w);
    }
  }

  lemma CofactorDivides(p: int, a: int, b: int, u: int, w: int)
    requires 1 == u * p + w * a && Divides(p, a * b)
    ensures Divides(p, b)
  {
    hide Divides;
    DividesSelf(p);
    DividesProduct(p, p, u * b);
    DividesProduct(p, a * b, w);
    DividesSum(p, (u * b) * p, w * (a * b));
    calc {
      b;
      (u * p + w * a) * b;
      (u * b) * p + w * (a * b);
    }
  }

  function Pow(a: int, n: nat): int {
    if n == 0 then 1 else a * Pow(a, n - 1)
  }

  lemma {:induction false} PowAdd(a: int, m: nat, n: nat)
    ensures Pow(a, m + n) == Pow(a, m) * Pow(a, n)
  {
    if m > 0 {
      PowAdd(a, m - 1, n);
      assert a * (Pow(a, m - 1) * Pow(a, n)) == a * Pow(a, m - 1) * Pow(a, n);
    }
  }

  lemma {:induction false} PowMul(a: int, m: nat, n: nat)
    ensures m * n >= 0 && Pow(a, m * n) == Pow(Pow(a, m), n)
  {
    if n > 0 {
      PowMul(a, m, n - 1);
      assert m * n == m + m * (n - 1);
      PowAdd(a, m, m * (n - 1));
    } else {
      assert m * n == 0;
    }
  }

  lemma DividesPow(d: int, a: int, n: nat)
    requires Divides(d, a) && n > 0
    ensures Divides(d, Pow(a, n))
  {
    DividesProduct(d, a, Pow(a, n - 1));
  }

  /** Powers of what is one modulo d are one modulo d. */
  lemma {:induction false} PowOfOne(d: int, a: int, n: nat)
    requires Divides(d, a - 1)
    ensures Divides(d, Pow(a, n) - 1)
  {
    if n == 0 {
      DividesSelf(d);
    } else {
      PowOfOne(d, a, n - 1);
      DividesProduct(d, Pow(a, n - 1) - 1, a);
      DividesSum(d, a * (Pow(a, n - 1) - 1), a - 1);
      assert a * (Pow(a, n - 1) - 1) + (a - 1) == Pow(a, n) - 1;
    }
  }

  /** Pascal's triangle. */
  function Choose(n: nat, k: nat): nat {
    if k == 0 then 1 else if n == 0 then 0 else Choose(n - 1, k - 1) + Choose(n - 1, k)
  }

  lemma {:induction false} ChooseEdge(n: nat, k: nat)
    requires k >= n
    ensures Choose(n, k) == if k == n then 1 else 0
  {
    if n > 0 {
      ChooseEdge(n - 1, k - 1);
      ChooseEdge(n - 1, k);
    }
  }

  lemma {:induction false} Absorption(n: nat, k: nat)
    requires n > 0 && k > 0
    ensures k * Choose(n, k) == n * Choose(n - 1, k - 1)
  {
    if n == 1 {
      ChooseEdge(1, k);
      ChooseEdge(0, k - 1);
    } else if k == 1 {
      Absorption(n - 1, 1);
    } else {
      Absorption(n - 1, k - 1);
      Absorption(n - 1, k);
      var a, b := Choose(n - 2, k - 2), Choose(n - 2, k - 1);
      assert Choose(n - 1, k - 1) == a + b;
      Pascal(n, k, a, b, Choose(n - 1, k));
    }
  }

  lemma Pascal(n: nat, k: nat, a: nat, b: nat, c: nat)
    requires (k - 1) * (a + b) == (n - 1) * a && k * c == (n - 1) * b
    ensures k * ((a + b) + c) == n * (a + b)
  {
    assert k * ((a + b) + c) == (k - 1) * (a + b) + (a + b) + k * c;
    assert (n - 1) * a + (n - 1) * b == (n - 1) * (a + b);
    assert n * (a + b) == (n - 1) * (a + b) + (a + b);
  }

  /** Inside its row, a prime divides the entries. */
  lemma PrimeRow(p: nat, k: nat)
    requires Prime(p) && 0 < k < p
    ensures Divides(p, Choose(p, k))
  {
    Absorption(p, k);
    DividesSelf(p);
    DividesProduct(p, p, Choose(p - 1, k - 1));
    EuclidsLemma(p, k, Choose(p, k));
    if Divides(p, k) {
      DividesSmall(p, k);
    }
  }

  /** The first k terms of the expansion of (a + 1)^n. */
  function Expansion(n: nat, a: int, k: nat): int {
    if k == 0 then 0 else Expansion(n, a, k - 1) + Choose(n, k - 1) * Pow(a, k - 1)
  }

  lemma {:induction false} ExpansionStep(n: nat, a: int, k: nat)
    requires n > 0
    ensures Expansion(n, a, k + 1) == Expansion(n - 1, a, k + 1) + a * Expansion(n - 1, a, k)
  {
    if k == 0 {
      assert Expansion(n, a, 1) == Expansion(n, a, 0) + Choose(n, 0) * Pow(a, 0);
      assert Expansion(n - 1, a, 1) == Expansion(n - 1, a, 0) + Choose(n - 1, 0) * Pow(a, 0);
    } else {
      ExpansionStep(n, a, k - 1);
      var c, d, x := Choose(n - 1, k - 1), Choose(n - 1, k), Pow(a, k - 1);
      assert Pow(a, k) == a * x;
      ExpansionTerm(a, c, d, x, Expansion(n - 1, a, k), Expansion(n - 1, a, k - 1));
    }
  }

  lemma ExpansionTerm(a: int, c: int, d: int, x: int, s: int, t: int)
    ensures (s + a * t) + (c + d) * (a * x) == (s + d * (a * x)) + a * (t + c * x)
  {
    assert (c + d) * (a * x) == d * (a * x) + a * (c * x);
    assert a * (t + c * x) == a * t + a * (c * x);
  }

  lemma {:induction false} BinomialTheorem(a: int, n: nat)
    ensures Pow(a + 1, n) == Expansion(n, a, n + 1)
  {
    if n == 0 {
      assert Expansion(0, a, 1) == Expansion(0, a, 0) + Choose(0, 0) * Pow(a, 0);
    } else {
      BinomialTheorem(a, n - 1);
      ExpansionStep(n, a, n);
      ChooseEdge(n - 1, n);
      assert Expansion(n - 1, a, n + 1) == Expansion(n - 1, a, n) + 0 * Pow(a, n);
      assert (a + 1) * Expansion(n - 1, a, n) == a * Expansion(n - 1, a, n) + Expansion(n - 1, a, n);
    }
  }

  lemma {:induction false} ExpansionModPrime(p: nat, a: int, k: nat)
    requires Prime(p) && 0 < k <= p
    ensures Divides(p, Expansion(p, a, k) - 1)
  {
    if k == 1 {
      assert Expansion(p, a, 1) == Expansion(p, a, 0) + Choose(p, 0) * Pow(a, 0);
      DividesSelf(p);
    } else {
      ExpansionModPrime(p, a, k - 1);
      PrimeRow(p, k - 1);
      DividesProduct(p, Choose(p, k - 1), Pow(a, k - 1));
      DividesSum(p, Expansion(p, a, k - 1) - 1, Choose(p, k - 1) * Pow(a, k - 1));
    }
  }

  /** The p-th power of a number is the number, modulo p. */
  lemma {:induction false} PrimePower(p: nat, a: nat)
    requires Prime(p)
    ensures Divides(p, Pow(a, p) - a)
  {
    if a == 0 {
      DividesSelf(p);
    } else {
      PrimePower(p, a - 1);
      BinomialTheorem(a - 1, p);
      ExpansionModPrime(p, a - 1, p);
      ChooseEdge(p, p);
      assert Expansion(p, a - 1, p + 1) == Expansion(p, a - 1, p) + 1 * Pow(a - 1, p);
      DividesSum(p, Expansion(p, a - 1, p) - 1, Pow(a - 1, p) - (a - 1));
    }
  }

  /** Fermat's little theorem. */
  lemma LittleTheorem(p: nat, a: nat)
    requires Prime(p) && !Divides(p, a)
    ensures Divides(p, Pow(a, p - 1) - 1)
  {
    PrimePower(p, a);
    assert Pow(a, p) - a == a * (Pow(a, p - 1) - 1);
    EuclidsLemma(p, a, Pow(a, p - 1) - 1);
  }
}
