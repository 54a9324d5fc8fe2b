/** Many multiples of one base, by bucketed sliding windows (`AbstractGroup::SimultaneousMultiply`). */
module SimultaneousMultiplication {
  import opened Numbers
  import opened Groups
  import opened WindowSliders

  /** The sum of (2k + 1) * c[k] for k >= j. */
  ghost function Weighted(c: seq<int>, j: nat): int
    decreases |c| - j
  {
    if j >= |c| then 0 else (2 * j + 1) * c[j] + Weighted(c, j + 1)
  }

  /** The sum of c[k] for k >= j. */
  ghost function Suffix(c: seq<int>, j: nat): int
    decreases |c| - j
  {
    if j >= |c| then 0 else c[j] + Suffix(c, j + 1)
  }

  /** The sum of the suffix sums from j on. */
  ghost function SuffixSums(c: seq<int>, j: nat): int
    decreases |c| - j
  {
    if j >= |c| then 0 else Suffix(c, j) + SuffixSums(c, j + 1)
  }

  /** The suffix-sum trick computes the sum weighted by odd numbers. */
  lemma {:induction false} SuffixSumsAreWeighted(c: seq<int>, j: nat)
    ensures Weighted(c, j) == 2 * SuffixSums(c, j + 1) + (2 * j + 1) * Suffix(c, j)
    decreases |c| - j
  {
    if j >= |c| {
    } else {
      SuffixSumsAreWeighted(c, j + 1);
      var s := Suffix(c, j + 1);
      assert (2 * j + 1) * (c[j] + s) == (2 * j + 1) * c[j] + (2 * j + 1) * s;
      assert (2 * (j + 1) + 1) * s == (2 * j + 1) * s + 2 * s;
    }
  }

  lemma {:induction false} WeightedUpdate(c: seq<int>, k: nat, d: int, j: nat)
    requires k < |c|
    ensures Weighted(c[k := c[k] + d], j) == Weighted(c, j) + if j <= k then (2 * k + 1) * d else 0
    decreases |c| - j
  {
    if j >= |c| {
    } else {
      WeightedUpdate(c, k, d, j + 1);
      if j == k {
        assert (2 * k + 1) * (c[k] + d) == (2 * k + 1) * c[k] + (2 * k + 1) * d;
      }
    }
  }

  lemma {:induction false} WeightedZero(c: seq<int>, j: nat)
    requires forall k :: 0 <= k < |c| ==> c[k] == 0
    ensures Weighted(c, j) == 0
    decreases |c| - j
  {
    if j >= |c| {
    } else {
      WeightedZero(c, j + 1);
    }
  }

  /** Each bucket is a known multiple of the base. */
  ghost predicate Multiples<T>(g: Group<T>, base: T, bucket: seq<T>, c: seq<int>) {
    |bucket| == |c| && forall k :: 0 <= k < |c| ==> bucket[k] == Times(g, c[k], base)
  }

  lemma MultiplesUpdate<T(!new)>(g: Group<T>, base: T, bucket: seq<T>, c: seq<int>, k: nat, x: T, d: int)
    requires Abelian(g) && Multiples(g, base, bucket, c) && k < |c| && x == Times(g, d, base)
    ensures k < |bucket|
    ensures Multiples(g, base, bucket[k := g.Add(bucket[k], x)], c[k := c[k] + d])
  {
    TimesAdd(g, c[k], d, base);
  }

  /** Buckets plus what the slider still has to produce account for the whole exponent. */
  ghost predicate Accounts(e: nat, s: Slider, c: seq<int>) {
    && s.Reachable() && !s.firstTime
    && |c| == Pow2(s.windowSize - 1)
    && (!s.finished ==> FoundOddDigit(s))
    && Weighted(c, 0) + s.Pending() == e
  }

  /** The coefficient the current window adds to its bucket. */
  ghost function SignedPower(s: Slider): int {
    if s.negateNext then 0 - Pow2(s.windowBegin) as int else Pow2(s.windowBegin)
  }

  /** Adding the current power of two times the base to the digit's bucket, and moving on. */
  lemma BucketStep(e: nat, s: Slider, c: seq<int>)
    requires Accounts(e, s, c) && !s.finished
    ensures s.expWindow / 2 < |c|
    ensures var k := s.expWindow / 2;
      Accounts(e, Next(s), c[k := c[k] + SignedPower(s)])
    ensures Next(s).Measure() < s.Measure()
    ensures Next(s).finished || Next(s).windowBegin > s.windowBegin
  {
    hide Weighted, Next, Shl, Shr, Slider.Measure, Slider.Rest;
    var k := s.expWindow / 2;
    assert Pow2(s.windowSize) == 2 * Pow2(s.windowSize - 1);
    assert s.expWindow == 2 * k + 1;
    hide Pow2;
    NextConserves(s);
    NextShrinks(s);
    WeightedUpdate(c, k, SignedPower(s), 0);
    ShlIsProduct(s.Digit(), s.windowBegin);
    assert s.Digit() * Pow2(s.windowBegin) == (2 * k + 1) * SignedPower(s);
  }

  ghost function Total(states: seq<Slider>): nat {
    if states == [] then 0 else states[0].Measure() + Total(states[1..])
  }

  lemma {:induction false} TotalUpdate(states: seq<Slider>, i: nat, t: Slider)
    requires i < |states|
    ensures Total(states[i := t]) == Total(states) - states[i].Measure() + t.Measure()
  {
    if i == 0 {
      assert states[i := t][1..] == states[1..];
    } else {
      TotalUpdate(states[1..], i - 1, t);
      assert states[i := t][1..] == states[1..][i - 1 := t];
    }
  }

  ghost function MaxBegin(states: seq<Slider>): nat {
    if states == [] then 0
    else
      var m := MaxBegin(states[1..]);
      if states[0].windowBegin > m then states[0].windowBegin else m
  }

  lemma {:induction false} MaxBeginBounds(states: seq<Slider>, i: nat)
    requires i < |states|
    ensures states[i].windowBegin <= MaxBegin(states)
  {
    if i == 0 {
    } else {
      MaxBeginBounds(states[1..], i - 1);
    }
  }

  /** No unfinished slider waits for a position that has already gone by. */
  ghost predicate NotMissed(states: seq<Slider>, processed: nat, position: nat) {
    forall i :: 0 <= i < |states| && !states[i].finished ==>
      if i < processed then states[i].windowBegin > position else states[i].windowBegin >= position
  }

  /** One step of the suffix sums, with the definitions out of the way. */
  lemma SuffixStep(c: seq<int>, j: nat)
    requires j < |c|
    ensures Suffix(c, j) == c[j] + Suffix(c, j + 1)
    ensures SuffixSums(c, j) == Suffix(c, j) + SuffixSums(c, j + 1)
    ensures j + 1 == |c| ==> Suffix(c, j) == c[j] && SuffixSums(c, j) == c[j] && SuffixSums(c, j + 1) == 0
  {
  }

  /** The final pass over one list of buckets. */
  method Collect<T(!new)>(g: Group<T>, base: T, bucketsIn: seq<T>, ghost c: seq<int>) returns (r: T)
    requires Abelian(g) && |bucketsIn| > 0 && Multiples(g, base, bucketsIn, c)
    ensures r == Times(g, Weighted(c, 0), base)
  {
    hide Times, Abelian, Weighted, Suffix, SuffixSums;
    var buckets := bucketsIn;
    var n := |buckets|;
    r := buckets[n - 1];
    SuffixSumsAreWeighted(c, 0);
    SuffixStep(c, n - 1);
    if n > 1 {
      var j := n - 2;
      while j >= 1
        invariant 0 <= j <= n - 2 && |buckets| == n
        invariant forall k :: 0 <= k <= j ==> buckets[k] == Times(g, c[k], base)
        invariant buckets[j + 1] == Times(g, Suffix(c, j + 1), base)
        invariant r == Times(g, SuffixSums(c, j + 1), base)
      {
        SuffixStep(c, j);
        TimesAdd(g, c[j], Suffix(c, j + 1), base);
        TimesAdd(g, SuffixSums(c, j + 1), Suffix(c, j), base);
        buckets := buckets[j := g.Add(buckets[j], buckets[j + 1])];
        r := g.Add(r, buckets[j]);
        j := j - 1;
      }
      buckets := buckets[0 := g.Add(buckets[0], buckets[1])];
      SuffixStep(c, 0);
      TimesAdd(g, c[0], Suffix(c, 1), base);
      TimesDouble(g, SuffixSums(c, 1), base);
      TimesAdd(g, 2 * SuffixSums(c, 1), Suffix(c, 0), base);
      r := g.Add(g.Double(r), buckets[0]);
    }
  }

  /** The last loop: once every slider is finished, the buckets hold the results. */
  method CollectAll<T(!new)>(g: Group<T>, base: T, ghost exps: seq<nat>, ghost states: seq<Slider>,
                             ghost cs: seq<seq<int>>, buckets: seq<seq<T>>)
    returns (results: seq<T>)
    requires Abelian(g) && AllAccounted(g, base, exps, states, cs, buckets)
    requires forall j :: 0 <= j < |exps| ==> states[j].finished
    ensures |results| == |exps|
    ensures forall i :: 0 <= i < |exps| ==> results[i] == Times(g, exps[i], base)
  {
    hide Abelian, Slider.Reachable, Slider.Rest, Times, Weighted;
    results := [];
    for i := 0 to |buckets|
      invariant |results| == i
      invariant forall j :: 0 <= j < i ==> results[j] == Times(g, exps[j], base)
    {
      assert Accounts(exps[i], states[i], cs[i]);
      var r := Collect(g, base, buckets[i], cs[i]);
      results := results + [r];
    }
  }

  /** The sliders are separate objects whose fields are `states`. */
  ghost predicate InStates(exponents: seq<WindowSlider>, states: seq<Slider>)
    reads exponents
  {
    && |exponents| == |states|
    && (forall i :: 0 <= i < |exponents| ==> exponents[i].Valid() && exponents[i].State() == states[i])
    && (forall i, j :: 0 <= i < j < |exponents| ==> exponents[i] != exponents[j])
  }

  /** Every exponent is accounted for by its buckets and its slider. */
  ghost predicate AllAccounted<T>(g: Group<T>, base: T, exps: seq<nat>, states: seq<Slider>,
                                  cs: seq<seq<int>>, buckets: seq<seq<T>>) {
    && |states| == |cs| == |buckets| == |exps|
    && forall i :: 0 <= i < |exps| ==> Accounts(exps[i], states[i], cs[i]) && Multiples(g, base, buckets[i], cs[i])
  }

  /** A slider that has found its first window. */
  method MakeSlider(e: nat, fastNegate: bool) returns (s: WindowSlider, ghost c: seq<int>)
    ensures fresh(s) && s.Valid()
    ensures s.windowSize >= 1 && c == seq(Pow2(s.windowSize - 1), k => 0)
    ensures Accounts(e, s.State(), c)
  {
    hide Weighted, Next, Shr, Slider.Measure, Slider.Rest;
    s := new WindowSlider(e, fastNegate);
    StartPending(e, fastNegate, DefaultWindowSize(e));
    NextConserves(s.State());
    s.FindNextWindow();
    c := seq(Pow2(s.windowSize - 1), k => 0);
    WeightedZero(c, 0);
  }

  /** One visit of slider i at the current bit position. */
  method Visit<T(!new)>(g: Group<T>, ghost base: T, ghost exps: seq<nat>, exponents: seq<WindowSlider>, i: nat,
                        expBitPosition: nat, power: T, bucketsIn: seq<seq<T>>,
                        ghost statesIn: seq<Slider>, ghost csIn: seq<seq<int>>)
    returns (buckets: seq<seq<T>>, ghost states: seq<Slider>, ghost cs: seq<seq<int>>)
    requires Abelian(g) && i < |exponents| && InStates(exponents, statesIn)
    requires AllAccounted(g, base, exps, statesIn, csIn, bucketsIn)
    requires power == Times(g, Pow2(expBitPosition), base)
    requires NotMissed(statesIn, i, expBitPosition)
    modifies exponents[i]
    ensures InStates(exponents, states)
    ensures AllAccounted(g, base, exps, states, cs, buckets)
    ensures NotMissed(states, i + 1, expBitPosition)
    ensures states == statesIn[i := states[i]]
    ensures states == statesIn || Total(states) < Total(statesIn)
  {
    hide Times, Abelian, Next, Pow2, Accounts, Multiples, Total, Slider.Reachable, Slider.Measure;
    buckets, states, cs := bucketsIn, statesIn, csIn;
    var s := exponents[i];
    if !s.finished && expBitPosition == s.windowBegin {
      ghost var c, d := cs[i], SignedPower(states[i]);
      BucketStep(exps[i], states[i], c);
      TotalUpdate(states, i, Next(states[i]));
      var k := s.expWindow / 2;
      var bucket := buckets[i];
      if s.negateNext {
        TimesNegate(g, Pow2(expBitPosition), base);
        MultiplesUpdate(g, base, bucket, c, k, g.Inverse(power), d);
        bucket := bucket[k := g.Add(bucket[k], g.Inverse(power))];
      } else {
        MultiplesUpdate(g, base, bucket, c, k, power, d);
        bucket := bucket[k := g.Add(bucket[k], power)];
      }
      buckets, cs := buckets[i := bucket], cs[i := c[k := c[k] + d]];
      s.FindNextWindow();
      states := states[i := s.State()];
    }
  }

  /** The first loop: one slider and one list of empty buckets per exponent. */
  method Prepare<T(!new)>(g: Group<T>, ghost base: T, exps: seq<nat>)
    returns (exponents: seq<WindowSlider>, buckets: seq<seq<T>>, ghost states: seq<Slider>, ghost cs: seq<seq<int>>)
    ensures |exponents| == |exps| == |states| && InStates(exponents, states)
    ensures NotMissed(states, 0, 0)
    ensures forall j :: 0 <= j < |exps| ==> fresh(exponents[j])
    ensures AllAccounted(g, base, exps, states, cs, buckets)
  {
    hide Accounts, Pow2, Slider.Reachable;
    buckets, exponents, states, cs := [], [], [], [];
    for i := 0 to |exps|
      invariant |exponents| == i && InStates(exponents, states)
      invariant forall j :: 0 <= j < i ==> fresh(exponents[j])
      invariant |cs| == |buckets| == i
      invariant forall j :: 0 <= j < i ==> Accounts(exps[j], states[j], cs[j]) && Multiples(g, base, buckets[j], cs[j])
    {
      var s, c := MakeSlider(exps[i], g.inversionIsFast);
      exponents, states, cs := exponents + [s], states + [s.State()], cs + [c];
      buckets := buckets + [seq(Pow2(s.windowSize - 1), k => g.Identity())];
    }
  }

  /** The body of the main loop: every slider is visited at the current bit position. */
  method Pass<T(!new)>(g: Group<T>, ghost base: T, ghost exps: seq<nat>, exponents: seq<WindowSlider>,
                       expBitPosition: nat, power: T, bucketsIn: seq<seq<T>>,
                       ghost statesIn: seq<Slider>, ghost csIn: seq<seq<int>>)
    returns (notDone: bool, buckets: seq<seq<T>>, ghost states: seq<Slider>, ghost cs: seq<seq<int>>)
    requires Abelian(g) && |exponents| == |exps| && InStates(exponents, statesIn)
    requires AllAccounted(g, base, exps, statesIn, csIn, bucketsIn)
    requires power == Times(g, Pow2(expBitPosition), base)
    requires NotMissed(statesIn, 0, expBitPosition)
    modifies exponents
    ensures InStates(exponents, states) && AllAccounted(g, base, exps, states, cs, buckets)
    ensures NotMissed(states, |exps|, expBitPosition)
    ensures |states| == |exps|
    ensures notDone <==> exists j :: 0 <= j < |exps| && !states[j].finished
    ensures states == statesIn || Total(states) < Total(statesIn)
  {
    hide Accounts, Abelian, Times, Pow2, Slider.Reachable, Total, Multiples;
    notDone, buckets, states, cs := false, bucketsIn, statesIn, csIn;
    for i := 0 to |exponents|
      invariant InStates(exponents, states) && AllAccounted(g, base, exps, states, cs, buckets)
      invariant NotMissed(states, i, expBitPosition)
      invariant notDone <==> exists j :: 0 <= j < i && !states[j].finished
      invariant states == statesIn || Total(states) < Total(statesIn)
    {
      ghost var before := states;
      buckets, states, cs := Visit(g, base, exps, exponents, i, expBitPosition, power, buckets, states, cs);
      assert forall j :: 0 <= j < i ==> states[j] == before[j];
      assert exponents[i].finished == states[i].finished;
      notDone := notDone || !exponents[i].finished;
    }
  }

  /** Every result is the plain scalar multiple, for any list of exponents, with or without fast inversion. */
  method SimultaneousMultiply<T(!new)>(g: Group<T>, base: T, exps: seq<nat>) returns (results: seq<T>)
    requires Abelian(g)
    ensures |results| == |exps|
    ensures forall i :: 0 <= i < |exps| ==> results[i] == Times(g, exps[i], base)
  {
    hide Abelian, Slider.Reachable, Slider.Measure, Slider.Rest, Times, Weighted, Total, MaxBegin, Accounts, Multiples, Pow2, InStates, AllAccounted;
    Pow2Step(0);
    var exponents, buckets, states, cs := Prepare(g, base, exps);
    var expBitPosition := 0;
    var power := base;
    var notDone := true;
    TimesOne(g, base);
    while notDone
      invariant |exponents| == |states| == |exps|
      invariant forall j :: 0 <= j < |exps| ==> fresh(exponents[j])
      invariant InStates(exponents, states) && AllAccounted(g, base, exps, states, cs, buckets)
      invariant power == Times(g, Pow2(expBitPosition), base)
      invariant NotMissed(states, 0, expBitPosition)
      invariant !notDone ==> forall j :: 0 <= j < |exps| ==> states[j].finished
      decreases notDone, Total(states), MaxBegin(states) - expBitPosition
    {
      notDone, buckets, states, cs := Pass(g, base, exps, exponents, expBitPosition, power, buckets, states, cs);
      if notDone {
        ghost var waiting :| 0 <= waiting < |exps| && !states[waiting].finished;
        MaxBeginBounds(states, waiting);
        TimesDouble(g, Pow2(expBitPosition), base);
        Pow2Step(expBitPosition);
        power := g.Double(power);
        expBitPosition := expBitPosition + 1;
      }
    }
    results := CollectAll(g, base, exps, states, cs, buckets);
  }

  /** `AbstractGroup::ScalarMultiply` */
  method ScalarMultiply<T(!new)>(g: Group<T>, base: T, exponent: nat) returns (result: T)
    requires Abelian(g)
    ensures result == Times(g, exponent, base)
  {
    var results := SimultaneousMultiply(g, base, [exponent]);
    result := results[0];
  }
}
