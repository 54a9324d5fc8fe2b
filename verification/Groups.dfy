/** Commutative groups and scalar multiples: what `AbstractGroup` computes in. */
module Groups {

  /** The virtual members of `AbstractGroup<T>` that the algorithms call. */
  datatype Group<!T> = Group(identity: T, plus: (T, T) -> T, minus: T -> T, inversionIsFast: bool) {
    function Identity(): T { identity }

    function Add(a: T, b: T): T { plus(a, b) }

    function Inverse(a: T): T { minus(a) }

    function Double(a: T): T { Add(a, a) }
  }

  /** The group laws, at three elements. */
  ghost predicate Law<T>(g: Group<T>, a: T, b: T, c: T) {
    && g.Add(g.Add(a, b), c) == g.Add(a, g.Add(b, c))
    && g.Add(a, b) == g.Add(b, a)
    && g.Add(a, g.Identity()) == a
    && g.Add(a, g.Inverse(a)) == g.Identity()
  }

  ghost predicate Abelian<T(!new)>(g: Group<T>) {
    forall a, b, c :: Law(g, a, b, c)
  }

  /** The scalar multiple n * x, by repeated addition. */
  ghost function Times<T>(g: Group<T>, n: int, x: T): T
    decreases n < 0, if n < 0 then -n else n
  {
    if n == 0 then g.Identity()
    else if n > 0 then g.Add(Times(g, n - 1, x), x)
    else g.Inverse(Times(g, -n, x))
  }

  lemma AddZero<T(!new)>(g: Group<T>, a: T)
    requires Abelian(g)
    ensures g.Add(a, g.Identity()) == a && g.Add(g.Identity(), a) == a
  {
    assert Law(g, a, g.Identity(), a);
  }

  lemma AddComm<T(!new)>(g: Group<T>, a: T, b: T)
    requires Abelian(g)
    ensures g.Add(a, b) == g.Add(b, a)
  {
    assert Law(g, a, b, a);
  }

  lemma AddAssoc<T(!new)>(g: Group<T>, a: T, b: T, c: T)
    requires Abelian(g)
    ensures g.Add(g.Add(a, b), c) == g.Add(a, g.Add(b, c))
  {
    assert Law(g, a, b, c);
  }

  lemma AddInverse<T(!new)>(g: Group<T>, a: T)
    requires Abelian(g)
    ensures g.Add(a, g.Inverse(a)) == g.Identity() && g.Add(g.Inverse(a), a) == g.Identity()
  {
    assert Law(g, a, g.Inverse(a), a);
  }

  /** (a + b) + (c + d) == (a + c) + (b + d) */
  lemma AddSwap<T(!new)>(g: Group<T>, a: T, b: T, c: T, d: T)
    requires Abelian(g)
    ensures g.Add(g.Add(a, b), g.Add(c, d)) == g.Add(g.Add(a, c), g.Add(b, d))
  {
    AddAssoc(g, a, b, g.Add(c, d));
    AddAssoc(g, b, c, d);
    AddComm(g, b, c);
    AddAssoc(g, c, b, d);
    AddAssoc(g, a, c, g.Add(b, d));
  }

  lemma CancelRight<T(!new)>(g: Group<T>, a: T, b: T, c: T)
    requires Abelian(g) && g.Add(a, c) == g.Add(b, c)
    ensures a == b
  {
    var d := g.Inverse(c);
    AddAssoc(g, a, c, d);
    AddAssoc(g, b, c, d);
    AddInverse(g, c);
    AddZero(g, a);
    AddZero(g, b);
  }

  lemma TimesOne<T(!new)>(g: Group<T>, x: T)
    requires Abelian(g)
    ensures Times(g, 1, x) == x
  {
    AddZero(g, x);
    assert Times(g, 0, x) == g.Identity();
  }

  lemma TimesNegate<T(!new)>(g: Group<T>, n: int, x: T)
    requires Abelian(g)
    ensures Times(g, -n, x) == g.Inverse(Times(g, n, x))
  {
    if n > 0 {
    } else if n == 0 {
      AddInverse(g, g.Identity());
      AddZero(g, g.Inverse(g.Identity()));
    } else {
      var y := Times(g, -n, x);
      AddInverse(g, y);
      AddInverse(g, g.Inverse(y));
      AddComm(g, y, g.Inverse(y));
      CancelRight(g, y, g.Inverse(g.Inverse(y)), g.Inverse(y));
    }
  }

  /** One more x, for a coefficient of either sign. */
  lemma TimesStep<T(!new)>(g: Group<T>, n: int, x: T)
    requires Abelian(g)
    ensures Times(g, n + 1, x) == g.Add(Times(g, n, x), x)
  {
    if n >= 0 {
    } else {
      // -(m x) + x == -((m - 1) x), where m == -n
      var lo, hi := Times(g, -n - 1, x), Times(g, -n, x);
      assert hi == g.Add(lo, x);
      TimesNegate(g, -n - 1, x);
      TimesNegate(g, -n, x);
      AddInverse(g, hi);
      AddInverse(g, lo);
      AddComm(g, lo, x);
      AddAssoc(g, g.Inverse(hi), x, lo);
      CancelRight(g, g.Add(g.Inverse(hi), x), g.Inverse(lo), lo);
    }
  }

  lemma {:induction false} TimesAdd<T(!new)>(g: Group<T>, a: int, b: int, x: T)
    requires Abelian(g)
    ensures Times(g, a + b, x) == g.Add(Times(g, a, x), Times(g, b, x))
    decreases if b < 0 then -b else b
  {
    if b == 0 {
      AddZero(g, Times(g, a, x));
    } else if b > 0 {
      TimesAdd(g, a, b - 1, x);
      TimesStep(g, a + b - 1, x);
      TimesStep(g, b - 1, x);
      AddAssoc(g, Times(g, a, x), Times(g, b - 1, x), x);
    } else {
      TimesAdd(g, a, b + 1, x);
      TimesStep(g, a + b, x);
      TimesStep(g, b, x);
      AddAssoc(g, Times(g, a, x), Times(g, b, x), x);
      CancelRight(g, Times(g, a + b, x), g.Add(Times(g, a, x), Times(g, b, x)), x);
    }
  }

  lemma {:induction false} TimesTimes<T(!new)>(g: Group<T>, a: nat, b: int, x: T)
    requires Abelian(g)
    ensures Times(g, a * b, x) == Times(g, a, Times(g, b, x))
  {
    if a == 0 {
    } else {
      TimesTimes(g, a - 1, b, x);
      assert a * b == (a - 1) * b + b;
      TimesAdd(g, (a - 1) * b, b, x);
    }
  }

  lemma {:induction false} TimesSum<T(!new)>(g: Group<T>, n: nat, x: T, y: T)
    requires Abelian(g)
    ensures Times(g, n, g.Add(x, y)) == g.Add(Times(g, n, x), Times(g, n, y))
  {
    if n == 0 {
      AddZero(g, g.Identity());
    } else {
      TimesSum(g, n - 1, x, y);
      AddSwap(g, Times(g, n - 1, x), Times(g, n - 1, y), x, y);
    }
  }

  /** Doubling doubles the coefficient. */
  lemma TimesDouble<T(!new)>(g: Group<T>, n: int, x: T)
    requires Abelian(g)
    ensures g.Double(Times(g, n, x)) == Times(g, 2 * n, x)
  {
    TimesAdd(g, n, n, x);
  }

  /** The two-base combination a * x + b * y. */
  ghost function Comb<T>(g: Group<T>, a: int, x: T, b: int, y: T): T {
    g.Add(Times(g, a, x), Times(g, b, y))
  }

  lemma CombAdd<T(!new)>(g: Group<T>, a: int, b: int, c: int, d: int, x: T, y: T)
    requires Abelian(g)
    ensures g.Add(Comb(g, a, x, b, y), Comb(g, c, x, d, y)) == Comb(g, a + c, x, b + d, y)
  {
    AddSwap(g, Times(g, a, x), Times(g, b, y), Times(g, c, x), Times(g, d, y));
    TimesAdd(g, a, c, x);
    TimesAdd(g, b, d, y);
  }

  lemma CombUnits<T(!new)>(g: Group<T>, x: T, y: T)
    requires Abelian(g)
    ensures Comb(g, 0, x, 0, y) == g.Identity()
    ensures Comb(g, 1, x, 0, y) == x
    ensures Comb(g, 0, x, 1, y) == y
  {
    TimesOne(g, x);
    TimesOne(g, y);
    AddZero(g, g.Identity());
    AddZero(g, x);
    AddZero(g, y);
  }
}
