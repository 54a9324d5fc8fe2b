/** Many bases at once, by repeated division of the largest exponent (`GeneralCascadeMultiplication`). */
module GeneralCascade {
  import opened Groups
  import SimultaneousMultiplication
  import CascadeMultiplication

  datatype BaseAndExponent<T> = BaseAndExponent(base: T, exponent: nat)

  /** The sum of f over a list, in a group. */
  ghost function Sum<A, T>(g: Group<T>, f: A -> T, s: seq<A>): T {
    if s == [] then g.Identity() else g.Add(f(s[0]), Sum(g, f, s[1..]))
  }

  /** The sum without element i, plus that element. */
  lemma {:induction false} SumWithout<A, T(!new)>(g: Group<T>, f: A -> T, s: seq<A>, i: nat)
    requires Abelian(g) && i < |s|
    ensures Sum(g, f, s) == g.Add(f(s[i]), Sum(g, f, s[..i] + s[i + 1..]))
  {
    var rest := s[..i] + s[i + 1..];
    if i == 0 {
      assert rest == s[1..];
    } else {
      SumWithout(g, f, s[1..], i - 1);
      var inner := s[1..][..i - 1] + s[1..][i..];
      assert rest[1..] == inner && rest[0] == s[0];
      AddAssoc(g, f(s[0]), f(s[i]), Sum(g, f, inner));
      AddComm(g, f(s[0]), f(s[i]));
      AddAssoc(g, f(s[i]), f(s[0]), Sum(g, f, inner));
    }
  }

  lemma MultisetWithout<A>(s: seq<A>, i: nat)
    requires i < |s|
    ensures multiset(s[..i] + s[i + 1..]) == multiset(s) - multiset{s[i]}
  {
    assert s == s[..i] + [s[i]] + s[i + 1..];
  }

  /** The sum does not depend on the order. */
  lemma {:induction false} SumOfPermutation<A, T(!new)>(g: Group<T>, f: A -> T, s: seq<A>, t: seq<A>)
    requires Abelian(g) && multiset(s) == multiset(t)
    ensures Sum(g, f, s) == Sum(g, f, t)
    decreases |s|
  {
    hide Abelian, Law;
    if s == [] {
      assert |multiset(s)| == |s| && |multiset(t)| == |t|;
    } else {
      var i := FirstElsewhere(s, t);
      SumWithout(g, f, t, i);
      SumOfPermutation(g, f, s[1..], t[..i] + t[i + 1..]);
    }
  }

  /** Where a permutation has the first element, and what is left without it. */
  lemma FirstElsewhere<A>(s: seq<A>, t: seq<A>) returns (i: nat)
    requires s != [] && multiset(s) == multiset(t)
    ensures i < |t| && t[i] == s[0] && multiset(s[1..]) == multiset(t[..i] + t[i + 1..])
  {
    MultisetOfTail(s);
    i := PlaceOf(t, s[0]);
    MultisetWithout(t, i);
  }

  lemma PlaceOf<A>(t: seq<A>, x: A) returns (i: nat)
    requires x in multiset(t)
    ensures i < |t| && t[i] == x
  {
    i :| 0 <= i < |t| && t[i] == x;
  }

  lemma MultisetOfTail<A>(s: seq<A>)
    requires s != []
    ensures s[0] in multiset(s) && multiset(s[1..]) == multiset(s) - multiset{s[0]}
  {
    assert s == [s[0]] + s[1..];
  }

  /** The sum after two elements are replaced. */
  lemma SumReplaceTwo<A, T(!new)>(g: Group<T>, f: A -> T, s: seq<A>, a: A, b: A)
    requires Abelian(g) && |s| >= 2
    requires g.Add(f(a), f(b)) == g.Add(f(s[0]), f(s[|s| - 1]))
    ensures Sum(g, f, s[0 := a][|s| - 1 := b]) == Sum(g, f, s)
  {
    var n := |s|;
    var t := s[0 := a][n - 1 := b];
    var mid := s[1..n - 1];
    SumWithout(g, f, s, n - 1);
    SumWithout(g, f, t, n - 1);
    assert s[..n - 1] + s[n..] == [s[0]] + mid;
    assert t[..n - 1] + t[n..] == [a] + mid;
    assert ([s[0]] + mid)[1..] == mid && ([a] + mid)[1..] == mid;
    var m := Sum(g, f, mid);
    AddAssoc(g, f(s[n - 1]), f(s[0]), m);
    AddComm(g, f(s[n - 1]), f(s[0]));
    AddAssoc(g, f(b), f(a), m);
    AddComm(g, f(b), f(a));
  }

  /** base * exponent */
  ghost function Term<T>(g: Group<T>): BaseAndExponent<T> -> T {
    (e: BaseAndExponent<T>) => Times(g, e.exponent, e.base)
  }

  /** What the whole computation stands for: the sum of base * exponent. */
  ghost function DotProduct<T>(g: Group<T>, s: seq<BaseAndExponent<T>>): T {
    Sum(g, Term(g), s)
  }

  ghost function Integers(): Group<int> {
    Group(0, (a: int, b: int) => a + b, (a: int) => -a, true)
  }

  ghost function ExponentOf<T>(): BaseAndExponent<T> -> int {
    (e: BaseAndExponent<T>) => e.exponent
  }

  /** The total of the exponents; it shrinks with every round. */
  ghost function Total<T>(s: seq<BaseAndExponent<T>>): int {
    Sum(Integers(), ExponentOf(), s)
  }

  lemma IntegersAbelian()
    ensures Abelian(Integers())
  {
    forall a, b, c
      ensures Law(Integers(), a, b, c)
    {
    }
  }

  lemma {:induction false} TotalNonNegative<T>(s: seq<BaseAndExponent<T>>)
    ensures Total(s) >= 0
  {
    if s == [] {
    } else {
      TotalNonNegative(s[1..]);
    }
  }

  /** With all exponents but the last zero, only the last term is left. */
  lemma {:induction false} OnlyLastLeft<T(!new)>(g: Group<T>, s: seq<BaseAndExponent<T>>)
    requires Abelian(g) && |s| > 0
    requires forall j :: 0 <= j < |s| - 1 ==> s[j].exponent == 0
    ensures DotProduct(g, s) == Times(g, s[|s| - 1].exponent, s[|s| - 1].base)
  {
    var head := Term(g)(s[0]);
    assert head == Times(g, s[0].exponent, s[0].base);
    assert DotProduct(g, s) == g.Add(head, DotProduct(g, s[1..]));
    if |s| == 1 {
      assert DotProduct(g, s[1..]) == g.Identity();
      AddZero(g, head);
    } else {
      OnlyLastLeft(g, s[1..]);
      AddZero(g, DotProduct(g, s[1..]));
      assert s[1..][|s| - 2] == s[|s| - 1];
    }
  }

  /** Dividing the largest exponent by the next largest moves value from one base to the other. */
  lemma RoundPreserves<T(!new)>(g: Group<T>, x: T, t: nat, y: T, b: nat)
    requires Abelian(g) && b > 0
    ensures g.Add(Times(g, b, g.Add(y, Times(g, t / b, x))), Times(g, t % b, x)) == g.Add(Times(g, b, y), Times(g, t, x))
  {
    var q, r := t / b, t % b;
    assert b * q + r == t;
    hide Times, Abelian;
    TimesSum(g, b, y, Times(g, q, x));
    TimesTimes(g, b, q, x);
    AddAssoc(g, Times(g, b, y), Times(g, b * q, x), Times(g, r, x));
    TimesAdd(g, b * q, r, x);
  }

  function Parent(k: nat): nat {
    if k == 0 then 0 else (k - 1) / 2
  }

  /** Element k does not exceed its parent. */
  ghost predicate Ordered<T>(s: seq<BaseAndExponent<T>>, k: nat) {
    k < |s| && s[k].exponent <= s[Parent(k)].exponent
  }

  /** The first n elements are in `std::make_heap` order. */
  ghost predicate IsHeap<T>(s: seq<BaseAndExponent<T>>, n: nat) {
    n <= |s| && forall k :: 1 <= k < n ==> Ordered(s, k)
  }

  lemma {:induction false} RootIsLargest<T>(s: seq<BaseAndExponent<T>>, n: nat, k: nat)
    requires IsHeap(s, n) && k < n
    ensures s[k].exponent <= s[0].exponent
  {
    if k == 0 {
    } else {
      assert Ordered(s, k);
      RootIsLargest(s, n, Parent(k));
    }
  }

  /** A heap but for element k, which may be too large; its children are below its parent. */
  ghost predicate Rising<T>(s: seq<BaseAndExponent<T>>, n: nat, k: nat) {
    && k < n <= |s|
    && (forall j :: 1 <= j < n && j != k ==> Ordered(s, j))
    && (forall j :: 1 <= j < n && Parent(j) == k ==> s[j].exponent <= s[Parent(k)].exponent)
  }

  /** A heap but for element k, which may be too small; its children are below its parent. */
  ghost predicate Sinking<T>(s: seq<BaseAndExponent<T>>, n: nat, k: nat) {
    && k < n <= |s|
    && (forall j :: 1 <= j < n && Parent(j) != k ==> Ordered(s, j))
    && (forall j :: 1 <= j < n && Parent(j) == k ==> s[j].exponent <= s[Parent(k)].exponent || k == 0)
  }

  ghost function Swapped<T>(s: seq<T>, i: nat, j: nat): seq<T>
    requires i < |s| && j < |s|
  {
    s[i := s[j]][j := s[i]]
  }

  lemma RiseOnce<T>(s: seq<BaseAndExponent<T>>, n: nat, k: nat)
    requires Rising(s, n, k) && k > 0
    ensures !(s[Parent(k)].exponent < s[k].exponent) ==> IsHeap(s, n)
    ensures s[Parent(k)].exponent < s[k].exponent ==> Rising(Swapped(s, Parent(k), k), n, Parent(k))
  {
    var p := Parent(k);
    if s[p].exponent < s[k].exponent {
      var t := Swapped(s, p, k);
      forall j | 1 <= j < n && j != p
        ensures Ordered(t, j)
      {
        if j != k {
          assert Ordered(s, j);
        }
      }
      forall j | 1 <= j < n && Parent(j) == p
        ensures t[j].exponent <= t[Parent(p)].exponent
      {
        if p > 0 {
          assert Ordered(s, p);
        }
        if j != k {
          assert Ordered(s, j);
        }
      }
    }
  }

  lemma SinkOnce<T>(s: seq<BaseAndExponent<T>>, n: nat, k: nat, c: nat)
    requires Sinking(s, n, k) && k < c < n <= |s| && (c == 2 * k + 1 || c == 2 * k + 2)
    requires s[2 * k + 1].exponent <= s[c].exponent && (2 * k + 2 < n ==> s[2 * k + 2].exponent <= s[c].exponent)
    ensures s[c].exponent <= s[k].exponent ==> IsHeap(s, n)
    ensures s[c].exponent > s[k].exponent ==> Sinking(Swapped(s, k, c), n, c)
  {
    hide Parent, Swapped;
    ChildrenOf(c, k);
    forall j | 1 <= j < n && Parent(j) == k
      ensures s[j].exponent <= s[c].exponent
    {
      ChildrenOf(j, k);
    }
    if s[c].exponent > s[k].exponent {
      SinkFurther(s, n, k, c);
    } else {
      forall j | 1 <= j < n
        ensures Ordered(s, j)
      {
        ChildrenOf(j, k);
      }
    }
  }

  lemma ChildrenOf(j: nat, k: nat)
    requires j >= 1
    ensures Parent(j) == k <==> j == 2 * k + 1 || j == 2 * k + 2
    ensures Parent(j) < j
  {
  }

  lemma SwappedAt<T>(s: seq<T>, i: nat, j: nat, m: nat)
    requires i < |s| && j < |s| && m < |s| && i != j
    ensures |Swapped(s, i, j)| == |s|
    ensures Swapped(s, i, j)[m] == if m == i then s[j] else if m == j then s[i] else s[m]
  {
  }

  lemma SinkFurther<T>(s: seq<BaseAndExponent<T>>, n: nat, k: nat, c: nat)
    requires Sinking(s, n, k) && k < c < n <= |s| && Parent(c) == k && s[c].exponent > s[k].exponent
    requires forall j :: 1 <= j < n && Parent(j) == k ==> s[j].exponent <= s[c].exponent
    ensures Sinking(Swapped(s, k, c), n, c)
  {
    hide Parent, Swapped;
    var t := Swapped(s, k, c);
    SwappedAt(s, k, c, 0);
    forall j | 1 <= j < n && Parent(j) != c
      ensures Ordered(t, j)
    {
      ChildrenOf(j, k);
      SwappedAt(s, k, c, j);
      SwappedAt(s, k, c, Parent(j));
      if Parent(j) != k {
        assert Ordered(s, j);
      }
    }
    ChildrenOf(c, k);
    forall j | 1 <= j < n && Parent(j) == c
      ensures t[j].exponent <= t[Parent(c)].exponent
    {
      ChildrenOf(j, c);
      SwappedAt(s, k, c, j);
      SwappedAt(s, k, c, k);
      assert Ordered(s, j);
    }
  }

  /** Order depends on the exponents only. */
  lemma SameOrder<T>(s: seq<BaseAndExponent<T>>, t: seq<BaseAndExponent<T>>, n: nat)
    requires IsHeap(s, n) && n <= |t| && forall j :: 0 <= j < n ==> s[j].exponent == t[j].exponent
    ensures IsHeap(t, n)
  {
    forall k | 1 <= k < n
      ensures Ordered(t, k)
    {
      assert Ordered(s, k);
    }
  }

  lemma SinkStart<T>(s: seq<BaseAndExponent<T>>, n: nat)
    requires n >= 2 && IsHeap(s, n)
    ensures |s| >= n && Sinking(Swapped(s, 0, n - 1), n - 1, 0)
  {
    var t := Swapped(s, 0, n - 1);
    forall j | 1 <= j < n - 1 && Parent(j) != 0
      ensures Ordered(t, j)
    {
      assert Ordered(s, j);
    }
  }

  lemma SinkEnd<T>(s: seq<BaseAndExponent<T>>, n: nat, k: nat)
    requires Sinking(s, n, k) && 2 * k + 1 >= n
    ensures IsHeap(s, n)
  {
  }

  method Swap<T>(a: array<T>, i: nat, j: nat)
    requires i < a.Length && j < a.Length
    modifies a
    ensures a[..] == Swapped(old(a[..]), i, j)
    ensures multiset(a[..]) == multiset(old(a[..]))
    ensures forall k :: 0 <= k < a.Length && k != i && k != j ==> a[k] == old(a[k])
  {
    a[i], a[j] := a[j], a[i];
  }

  /** `std::push_heap`: the last of the first n elements joins the heap of those before it. */
  method PushHeap<T>(a: array<BaseAndExponent<T>>, n: nat)
    requires 1 <= n <= a.Length && IsHeap(a[..], n - 1)
    modifies a
    ensures IsHeap(a[..], n) && multiset(a[..]) == multiset(old(a[..]))
  {
    var k: nat := n - 1;
    while k > 0 && a[Parent(k)].exponent < a[k].exponent
      invariant 0 <= k < n && Rising(a[..], n, k) && multiset(a[..]) == multiset(old(a[..]))
    {
      RiseOnce(a[..], n, k);
      Swap(a, Parent(k), k);
      k := Parent(k);
    }
    if k > 0 {
      RiseOnce(a[..], n, k);
    }
  }

  /** Moves the root of the first n elements down to where it belongs. */
  method SiftDown<T>(a: array<BaseAndExponent<T>>, n: nat)
    requires 1 <= n <= a.Length && Sinking(a[..], n, 0)
    modifies a
    ensures IsHeap(a[..], n) && multiset(a[..]) == multiset(old(a[..]))
    ensures forall k :: n <= k < a.Length ==> a[k] == old(a[k])
  {
    hide Sinking, IsHeap, Ordered, Swapped;
    ghost var s := a[..];
    var k: nat := 0;
    while 2 * k + 1 < n
      invariant k < n <= a.Length && Sinking(a[..], n, k) && multiset(a[..]) == multiset(s)
      invariant forall i :: n <= i < a.Length ==> a[i] == s[i]
      decreases n - k
    {
      var c := 2 * k + 1;
      if c + 1 < n && a[c].exponent < a[c + 1].exponent {
        c := c + 1;
      }
      SinkOnce(a[..], n, k, c);
      if a[c].exponent <= a[k].exponent {
        return;
      }
      Swap(a, k, c);
      k := c;
    }
    SinkEnd(a[..], n, k);
  }

  /** `std::pop_heap`: the largest of the first n elements goes last, the rest stay a heap. */
  method PopHeap<T>(a: array<BaseAndExponent<T>>, n: nat)
    requires 2 <= n <= a.Length && IsHeap(a[..], n)
    modifies a
    ensures IsHeap(a[..], n - 1) && a[n - 1] == old(a[0])
    ensures multiset(a[..]) == multiset(old(a[..]))
  {
    SinkStart(a[..], n);
    hide Sinking, IsHeap;
    Swap(a, 0, n - 1);
    SiftDown(a, n - 1);
  }

  /** `std::make_heap` */
  method MakeHeap<T>(a: array<BaseAndExponent<T>>)
    modifies a
    ensures IsHeap(a[..], a.Length) && multiset(a[..]) == multiset(old(a[..]))
  {
    for n := 0 to a.Length
      invariant IsHeap(a[..], n) && multiset(a[..]) == multiset(old(a[..]))
    {
      PushHeap(a, n + 1);
    }
  }

  /** Between rounds: the last exponent is the largest and the first is the next largest. */
  ghost predicate Popped<T>(s: seq<BaseAndExponent<T>>) {
    && |s| >= 2
    && IsHeap(s, |s| - 1)
    && forall j :: 0 <= j < |s| - 1 ==> s[j].exponent <= s[0].exponent <= s[|s| - 1].exponent
  }

  lemma PoppedAfterPop<T>(s: seq<BaseAndExponent<T>>, t: seq<BaseAndExponent<T>>)
    requires |s| == |t| >= 2 && multiset(s) == multiset(t)
    requires IsHeap(s, |s|) && IsHeap(t, |t| - 1) && t[|t| - 1] == s[0]
    ensures Popped(t)
  {
    assert t[0] in multiset(t);
    assert t[0] in multiset(s);
    var i :| 0 <= i < |s| && s[i] == t[0];
    RootIsLargest(s, |s|, i);
    forall j | 0 <= j < |t| - 1
      ensures t[j].exponent <= t[0].exponent
    {
      RootIsLargest(t, |t| - 1, j);
    }
  }

  /** The result is the sum of base * exponent over all the pairs, for any number of them. */
  method GeneralCascadeMultiplication<T(0, !new)>(g: Group<T>, a: array<BaseAndExponent<T>>) returns (result: T)
    requires Abelian(g) && a.Length >= 1
    modifies a
    ensures result == old(DotProduct(g, a[..]))
  {
    ghost var start := a[..];
    var n := a.Length;
    if n == 1 {
      OnlyLastLeft(g, a[..]);
      result := SimultaneousMultiplication.ScalarMultiply(g, a[0].base, a[0].exponent);
    } else if n == 2 {
      OnlyLastLeft(g, a[..][1..]);
      assert DotProduct(g, a[..]) == g.Add(Term(g)(a[0]), DotProduct(g, a[..][1..]));
      result := CascadeMultiplication.CascadeScalarMultiply(g, a[0].base, a[0].exponent, a[1].base, a[1].exponent);
    } else {
      MakeHeap(a);
      ghost var heap := a[..];
      PopHeap(a, n);
      PoppedAfterPop(heap, a[..]);
      SumOfPermutation(g, Term(g), start, a[..]);
      while a[0].exponent != 0
        invariant DotProduct(g, a[..]) == DotProduct(g, start)
        invariant Popped(a[..])
        decreases Total(a[..])
      {
        Round(g, a);
      }
      OnlyLastLeft(g, a[..]);
      result := SimultaneousMultiplication.ScalarMultiply(g, a[n - 1].base, a[n - 1].exponent);
    }
  }

  /** The list after a round's two assignments. */
  lemma RoundOnList<T(!new)>(g: Group<T>, s: seq<BaseAndExponent<T>>, x: T)
    requires Abelian(g) && |s| >= 2 && s[0].exponent > 0
    requires s[0].exponent <= s[|s| - 1].exponent
    requires x == Times(g, s[|s| - 1].exponent / s[0].exponent, s[|s| - 1].base)
    ensures var n := |s|;
      var u := s[0 := BaseAndExponent(g.Add(s[0].base, x), s[0].exponent)]
                [n - 1 := BaseAndExponent(s[n - 1].base, s[n - 1].exponent % s[0].exponent)];
      DotProduct(g, u) == DotProduct(g, s) && Total(u) < Total(s)
  {
    var n := |s|;
    var first, last := s[0], s[n - 1];
    var a := BaseAndExponent(g.Add(first.base, x), first.exponent);
    var b := BaseAndExponent(last.base, last.exponent % first.exponent);
    RoundPreserves(g, last.base, last.exponent, first.base, first.exponent);
    SumReplaceTwo(g, Term(g), s, a, b);
    TotalDrops(s, a.base, b);
  }

  /** The two assignments of a round. */
  method DivideLargest<T(!new)>(g: Group<T>, a: array<BaseAndExponent<T>>)
    requires Abelian(g) && a.Length >= 2 && Popped(a[..]) && a[0].exponent > 0
    modifies a
    ensures IsHeap(a[..], a.Length - 1)
    ensures DotProduct(g, a[..]) == old(DotProduct(g, a[..]))
    ensures Total(a[..]) < old(Total(a[..]))
  {
    hide Abelian, Times, DotProduct, Total, IsHeap;
    var n := a.Length;
    ghost var s := a[..];
    var first, last := a[0], a[n - 1];
    var t := last.exponent;
    var q, r := t / first.exponent, t % first.exponent;
    a[n - 1] := BaseAndExponent(last.base, r);
    var x := last.base;
    if q == 1 {
      TimesOne(g, last.base);
    } else {
      x := SimultaneousMultiplication.ScalarMultiply(g, last.base, q);
    }
    a[0] := BaseAndExponent(g.Add(first.base, x), first.exponent);
    RoundOnList(g, s, x);
    ghost var u := a[..];
    assert u == s[0 := a[0]][n - 1 := a[n - 1]];
    SameOrder(s, u, n - 1);
  }

  /** One round of the loop: the sum stays, the total of the exponents shrinks. */
  method Round<T(!new)>(g: Group<T>, a: array<BaseAndExponent<T>>)
    requires Abelian(g) && a.Length >= 2 && Popped(a[..]) && a[0].exponent > 0
    modifies a
    ensures Popped(a[..])
    ensures DotProduct(g, a[..]) == old(DotProduct(g, a[..]))
    ensures 0 <= Total(a[..]) < old(Total(a[..]))
  {
    DivideLargest(g, a);
    hide *;
    ghost var u := a[..];
    PushHeap(a, a.Length);
    ghost var heap := a[..];
    PopHeap(a, a.Length);
    PoppedAfterPop(heap, a[..]);
    SumsOfPermutation(g, u, a[..]);
  }

  lemma SumsOfPermutation<T(!new)>(g: Group<T>, s: seq<BaseAndExponent<T>>, t: seq<BaseAndExponent<T>>)
    requires Abelian(g) && multiset(s) == multiset(t)
    ensures DotProduct(g, s) == DotProduct(g, t)
    ensures Total(s) == Total(t) >= 0
  {
    IntegersAbelian();
    SumOfPermutation(g, Term(g), s, t);
    SumOfPermutation(Integers(), ExponentOf(), s, t);
    TotalNonNegative(t);
  }

  lemma TotalDrops<T>(s: seq<BaseAndExponent<T>>, base: T, last: BaseAndExponent<T>)
    requires |s| >= 2 && last.exponent < s[|s| - 1].exponent
    ensures Total(s[0 := BaseAndExponent(base, s[0].exponent)][|s| - 1 := last]) < Total(s)
  {
    IntegersAbelian();
    var n := |s|;
    var f := ExponentOf<T>();
    var t := s[0 := BaseAndExponent(base, s[0].exponent)][n - 1 := last];
    var rs, rt := s[..n - 1], t[..n - 1];
    assert s[..n - 1] + s[n..] == rs && t[..n - 1] + t[n..] == rt;
    SumWithout(Integers(), f, s, n - 1);
    SumWithout(Integers(), f, t, n - 1);
    assert rt[1..] == rs[1..];
    assert f(rt[0]) == f(rs[0]);
    assert Sum(Integers(), f, rt) == Sum(Integers(), f, rs);
  }
}
