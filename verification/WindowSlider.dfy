/** The signed sliding-window recoding of an exponent (`WindowSlider`). */
module WindowSliders {
  import opened Numbers

  const WORD_BITS: nat := 32

  /** `Integer::WordCount` */
  function WordCount(n: nat): nat {
    (BitCount(n) + WORD_BITS - 1) / WORD_BITS
  }

  function DefaultWindowSize(n: nat): (w: nat)
    ensures 1 <= w <= 7
  {
    var expLen := BitCount(n);
    if expLen <= 17 then 1 else if expLen <= 24 then 2 else if expLen <= 70 then 3
    else if expLen <= 197 then 4 else if expLen <= 539 then 5 else if expLen <= 1434 then 6 else 7
  }

  /** Wider windows for larger exponents. */
  lemma WindowSizes(n: nat)
    ensures DefaultWindowSize(n) == 1 <==> n < Pow2(17)
    ensures DefaultWindowSize(n) <= 2 <==> n < Pow2(24)
    ensures DefaultWindowSize(n) <= 3 <==> n < Pow2(70)
    ensures DefaultWindowSize(n) <= 4 <==> n < Pow2(197)
    ensures DefaultWindowSize(n) <= 5 <==> n < Pow2(539)
    ensures DefaultWindowSize(n) <= 6 <==> n < Pow2(1434)
  {
    hide Pow2, BitCount;
    BitCountAtMost(n, 17);
    BitCountAtMost(n, 24);
    BitCountAtMost(n, 70);
    BitCountAtMost(n, 197);
    BitCountAtMost(n, 539);
    BitCountAtMost(n, 1434);
  }

  /** The fields of a slider, as a value. */
  datatype Slider = Slider(exp: nat, windowSize: nat, windowBegin: nat, expWindow: nat,
                           fastNegate: bool, negateNext: bool, firstTime: bool, finished: bool) {

    /** The signed digit of the current window. */
    function Digit(): int {
      if negateNext then 0 - expWindow else expWindow
    }

    /** Where the search for the next window starts, counted from `windowBegin`. */
    function From(): nat {
      if firstTime then 0 else windowSize
    }

    /** What the windows after the current one still have to produce. */
    ghost function Rest(): int {
      Shl(Shr(exp, From()), From() + windowBegin)
    }

    /** What the current window and those after it still have to produce. */
    ghost function Pending(): int {
      if finished then 0 else if firstTime then Rest() else Shl(Digit(), windowBegin) + Rest()
    }

    /** With fast negation the bit above the current window is always clear. */
    ghost predicate Reachable() {
      && windowSize >= 1
      && (firstTime ==> !finished)
      && (!firstTime && fastNegate ==> Shr(exp, windowSize) % 2 == 0)
      && (finished ==> Shr(exp, From()) == 0)
    }

    /** Shrinks with every window. */
    ghost function Measure(): nat {
      if finished then 0 else if firstTime then exp + 2 else Shr(exp, windowSize) + 1
    }
  }

  /** The first set bit of n at position i or above. */
  function FirstSetBit(n: nat, i: nat): (r: nat)
    requires Shr(n, i) > 0
    ensures r >= i && Bit(n, r) == 1
    ensures forall j :: i <= j < r ==> Bit(n, j) == 0
    decreases Shr(n, i)
  {
    if Bit(n, i) == 1 then i
    else
      ShrStep(n, i);
      FirstSetBit(n, i + 1)
  }

  /** Shifting past clear bits loses nothing. */
  lemma {:induction false} ShiftPastZeros(n: nat, i: nat, r: nat)
    requires i <= r && forall j :: i <= j < r ==> Bit(n, j) == 0
    ensures Shr(n, i) == Shl(Shr(n, r), r - i)
    decreases r - i
  {
    if i < r {
      assert Bit(n, i) == 0;
      ShrStep(n, i);
      ShiftPastZeros(n, i + 1, r);
    }
  }

  /** A fresh slider for the exponent n. */
  function Start(n: nat, fastNegate: bool, w: nat): Slider {
    Slider(n, w, 0, 0, fastNegate, false, true, false)
  }

  lemma StartPending(n: nat, fastNegate: bool, w: nat)
    requires w >= 1
    ensures Start(n, fastNegate, w).Reachable() && Start(n, fastNegate, w).Rest() == n
  {
  }

  /** The slider after `FindNextWindow`. */
  function Next(s: Slider): (t: Slider) {
    if Shr(s.exp, s.From()) == 0 then s.(firstTime := false, finished := true)
    else
      var skip := FirstSetBit(s.exp, s.From());
      var e := Shr(s.exp, skip);
      SplitLow(e, s.windowSize);
      var t := s.(firstTime := false, windowBegin := s.windowBegin + skip);
      if s.fastNegate && Bit(e, s.windowSize) == 1 then
        t.(exp := e + Pow2(s.windowSize), expWindow := Pow2(s.windowSize) - Low(e, s.windowSize), negateNext := true)
      else
        t.(exp := e, expWindow := Low(e, s.windowSize), negateNext := false)
  }

  /** What `Next` is, once the search has skipped over clear bits. */
  lemma NextAfterSkip(s: Slider, skip: nat)
    requires skip >= s.From() && forall j :: s.From() <= j < skip ==> Bit(s.exp, j) == 0
    ensures Shr(s.exp, skip) == 0 ==> Next(s) == s.(firstTime := false, finished := true)
    ensures Bit(s.exp, skip) == 1 ==>
      var e := Shr(s.exp, skip);
      && Low(e, s.windowSize) < Pow2(s.windowSize)
      && var t := s.(firstTime := false, windowBegin := s.windowBegin + skip);
      Next(s) == if s.fastNegate && Bit(e, s.windowSize) == 1 then
        t.(exp := e + Pow2(s.windowSize), expWindow := Pow2(s.windowSize) - Low(e, s.windowSize), negateNext := true)
      else
        t.(exp := e, expWindow := Low(e, s.windowSize), negateNext := false)
  {
    hide Shl, Shr, Low, Pow2;
    ShiftPastZeros(s.exp, s.From(), skip);
    ShlOne(skip - s.From());
    ShlGrows(Shr(s.exp, skip), skip - s.From());
    SplitLow(Shr(s.exp, skip), s.windowSize);
  }

  /** The arithmetic of one window: the odd number e is its low digit plus the rest. */
  lemma SplitWindow(e: nat, w: nat)
    requires w >= 1 && e % 2 == 1
    ensures 0 < Low(e, w) < Pow2(w) && Low(e, w) % 2 == 1 && Pow2(w) % 2 == 0
    ensures e == Low(e, w) + Shl(Shr(e, w), w)
    ensures Shr(e + Pow2(w), w) == Shr(e, w) + 1
    ensures 2 * Shr(e, w) < e
  {
    hide Shl, Shr, Low, Pow2;
    LowOdd(e, w);
    SplitLow(e, w);
    ShlSum(Shr(e, w), 1, w);
    ShlOne(w);
    SplitUnique(e + Pow2(w), w, Shr(e, w) + 1, Low(e, w));
    ShlGrows(Shr(e, w), w);
  }

  /** What holds of a slider right after a window was found. */
  ghost predicate FoundOddDigit(t: Slider) {
    && t.expWindow % 2 == 1 && 0 < t.expWindow < Pow2(t.windowSize)
    && (t.negateNext ==> t.fastNegate)
  }

  /** The new window stands for the whole lead of the exponent. */
  lemma WindowValue(e: nat, w: nat, begin: nat, negate: bool)
    requires w >= 1 && e % 2 == 1
    ensures var low := Low(e, w);
      Shl(e, begin) ==
      if negate then Shl(low - Pow2(w), begin) + Shl(Shr(e + Pow2(w), w), w + begin)
      else Shl(low, begin) + Shl(Shr(e, w), w + begin)
  {
    SplitWindow(e, w);
    var q, low := Shr(e, w), Low(e, w);
    ShlOne(w);
    ShlSum(q, 1, w);
    if negate {
      ShlShl(q + 1, w, begin);
      ShlSum(low - Pow2(w), Shl(q + 1, w), begin);
    } else {
      ShlShl(q, w, begin);
      ShlSum(low, Shl(q, w), begin);
    }
  }

  lemma NextFindsWindow(s: Slider)
    requires s.Reachable() && Shr(s.exp, s.From()) > 0
    ensures var t := Next(s);
      && !t.finished && FoundOddDigit(t) && t.Pending() == s.Rest() && s.Rest() > 0
      && (t.fastNegate ==> Shr(t.exp, t.windowSize) % 2 == 0)
      && t.windowBegin >= s.windowBegin + s.From() + (if !s.firstTime && s.fastNegate then 1 else 0)
  {
    hide Shl, Shr, Low, Pow2;
    var t := Next(s);
    var w, from := s.windowSize, s.From();
    var skip := FirstSetBit(s.exp, from);
    var e := Shr(s.exp, skip);
    ShiftPastZeros(s.exp, from, skip);
    ShlShl(e, skip - from, from + s.windowBegin);
    ShlGrows(Shr(s.exp, from), from + s.windowBegin);
    assert Bit(s.exp, skip) == 1;
    SplitWindow(e, w);
    WindowValue(e, w, t.windowBegin, t.negateNext);
    assert t.exp == e + (if t.negateNext then Pow2(w) else 0);
    assert t.Rest() == Shl(Shr(t.exp, w), w + t.windowBegin);
    assert t.Digit() == Low(e, w) - (if t.negateNext then Pow2(w) else 0);
  }

  /**
   * One call conserves the value: what was left is the new signed digit at its position plus
   * what is left now. The digit is odd, below 2^w, and at least w above the one before it
   * (w + 1 with fast negation).
   */
  lemma NextConserves(s: Slider)
    requires s.Reachable() && !s.finished
    ensures var t := Next(s);
      && t.Reachable() && !t.firstTime && t.windowSize == s.windowSize && t.fastNegate == s.fastNegate
      && t.Pending() == s.Rest()
      && (t.finished <==> s.Rest() == 0)
      && (t.finished ==> t.windowBegin == s.windowBegin)
      && (!t.finished ==>
            && FoundOddDigit(t)
            && t.windowBegin >= s.windowBegin + s.From() + (if !s.firstTime && s.fastNegate then 1 else 0))
  {
    if Shr(s.exp, s.From()) == 0 {
      ShlOne(s.From() + s.windowBegin);
      if s.firstTime {
        ShrBeyond(0, s.windowSize);
      }
    } else {
      NextFindsWindow(s);
    }
  }

  /** The recoding terminates: every call shrinks the measure. */
  lemma NextShrinks(s: Slider)
    requires s.Reachable() && !s.finished
    ensures Next(s).Measure() < s.Measure()
  {
    var from := s.From();
    if Shr(s.exp, from) != 0 {
      var skip := FirstSetBit(s.exp, from);
      var e := Shr(s.exp, skip);
      ShiftPastZeros(s.exp, from, skip);
      SplitWindow(e, s.windowSize);
      ShlGrows(e, skip - from);
      assert Bit(s.exp, skip) == 1;
    }
  }

  datatype SignedDigit = SignedDigit(position: nat, value: int)

  /** Every window from the current state on, in the order `FindNextWindow` finds them. */
  ghost function Windows(s: Slider): seq<SignedDigit>
    requires s.Reachable()
    decreases s.Measure()
  {
    if s.finished then []
    else
      NextConserves(s);
      NextShrinks(s);
      if s.firstTime then Windows(Next(s))
      else [SignedDigit(s.windowBegin, s.Digit())] + Windows(Next(s))
  }

  /** The number a list of signed digits stands for. */
  ghost function ValueOf(ds: seq<SignedDigit>): int {
    if ds == [] then 0 else Shl(ds[0].value, ds[0].position) + ValueOf(ds[1..])
  }

  /** Digits are odd, smaller than 2^w in size, unsigned unless negation is fast, and spaced by `gap`. */
  ghost predicate Spaced(ds: seq<SignedDigit>, w: nat, fastNegate: bool) {
    && (forall i :: 0 <= i < |ds| ==>
          && ds[i].value % 2 == 1 && 0 - Pow2(w) < ds[i].value < Pow2(w)
          && (!fastNegate ==> ds[i].value > 0))
    && (forall i :: 0 <= i < |ds| - 1 ==>
          ds[i + 1].position >= ds[i].position + w + (if fastNegate then 1 else 0))
  }

  lemma {:induction false} WindowsRecode(s: Slider)
    requires s.Reachable()
    requires !s.firstTime && !s.finished ==> FoundOddDigit(s)
    ensures ValueOf(Windows(s)) == s.Pending()
    ensures Spaced(Windows(s), s.windowSize, s.fastNegate)
    ensures !s.finished && !s.firstTime ==> Windows(s) != [] && Windows(s)[0].position == s.windowBegin
    decreases s.Measure()
  {
    hide Next, Shl, Shr, Pow2, Slider.Rest, Slider.Measure, Slider.Reachable, ValueOf, Spaced;
    if s.finished {
      NoWindows(s.windowSize, s.fastNegate);
    } else {
      NextConserves(s);
      NextShrinks(s);
      WindowsRecode(Next(s));
      if !s.firstTime {
        var d := SignedDigit(s.windowBegin, s.Digit());
        var ds := Windows(Next(s));
        assert Windows(s) == [d] + ds;
        assert ds != [] ==> ds[0].position == Next(s).windowBegin;
        FirstWindow(d, ds, s.windowSize, s.fastNegate);
      }
    }
  }

  lemma NoWindows(w: nat, fastNegate: bool)
    ensures ValueOf([]) == 0 && Spaced([], w, fastNegate)
  {
  }

  /** A digit in front of digits far enough from it. */
  lemma FirstWindow(d: SignedDigit, ds: seq<SignedDigit>, w: nat, fastNegate: bool)
    requires d.value % 2 == 1 && 0 - Pow2(w) < d.value < Pow2(w) && (!fastNegate ==> d.value > 0)
    requires Spaced(ds, w, fastNegate)
    requires ds != [] ==> ds[0].position >= d.position + w + (if fastNegate then 1 else 0)
    ensures ValueOf([d] + ds) == Shl(d.value, d.position) + ValueOf(ds)
    ensures Spaced([d] + ds, w, fastNegate)
  {
    hide Shl, Pow2;
    assert ([d] + ds)[1..] == ds;
    var all := [d] + ds;
    assert forall i :: 1 <= i < |all| ==> all[i] == ds[i - 1];
    forall i | 0 <= i < |all| - 1
      ensures all[i + 1].position >= all[i].position + w + (if fastNegate then 1 else 0)
    {
      if i > 0 {
        assert ds[i - 1 + 1].position >= ds[i - 1].position + w + (if fastNegate then 1 else 0);
      }
    }
  }

  /** Every exponent is recoded exactly, with odd digits below 2^w at least w positions apart. */
  lemma RecodingIsExact(n: nat, fastNegate: bool, w: nat)
    requires w >= 1
    ensures Start(n, fastNegate, w).Reachable()
    ensures var ds := Windows(Start(n, fastNegate, w));
      ValueOf(ds) == n && Spaced(ds, w, fastNegate)
  {
    var s := Start(n, fastNegate, w);
    WindowsRecode(s);
  }

  class WindowSlider {
    var exp: nat
    var windowModulus: nat
    var windowSize: nat
    var windowBegin: nat
    var expWindow: nat
    var fastNegate: bool
    var negateNext: bool
    var firstTime: bool
    var finished: bool

    ghost function State(): Slider
      reads this
    {
      Slider(exp, windowSize, windowBegin, expWindow, fastNegate, negateNext, firstTime, finished)
    }

    ghost predicate Valid()
      reads this
    {
      State().Reachable() && windowModulus == Pow2(windowSize)
    }

    constructor (expIn: nat, fastNegateIn: bool, windowSizeIn: nat := 0)
      ensures Valid()
      ensures State() == Start(expIn, fastNegateIn, if windowSizeIn == 0 then DefaultWindowSize(expIn) else windowSizeIn)
    {
      exp := expIn;
      var w := windowSizeIn;
      if w == 0 {
        w := DefaultWindowSize(expIn);
      }
      windowSize := w;
      windowModulus := Pow2(w);
      windowBegin, expWindow := 0, 0;
      fastNegate, negateNext, firstTime, finished := fastNegateIn, false, true, false;
    }

    method FindNextWindow()
      requires Valid() && !finished
      modifies this
      ensures Valid()
      ensures State() == Next(old(State()))
    {
      hide Shl, Shr, Low, Pow2, Next, Slider.Rest, Slider.Pending, Slider.Reachable, Slider.Measure;
      ghost var s := State();
      NextConserves(s);
      var expLen := WordCount(exp) * WORD_BITS;
      var skipCount := if firstTime then 0 else windowSize;
      firstTime := false;
      while Bit(exp, skipCount) == 0
        invariant s.From() <= skipCount && forall j :: s.From() <= j < skipCount ==> Bit(exp, j) == 0
        invariant State() == s.(firstTime := false) && windowModulus == Pow2(windowSize)
        decreases expLen - skipCount
      {
        if skipCount >= expLen {
          ShrBeyond(exp, skipCount);
          NextAfterSkip(s, skipCount);
          finished := true;
          return;
        }
        skipCount := skipCount + 1;
      }
      NextAfterSkip(s, skipCount);
      exp := Shr(exp, skipCount);
      windowBegin := windowBegin + skipCount;
      expWindow := Low(exp, windowSize);
      if fastNegate && Bit(exp, windowSize) == 1 {
        negateNext := true;
        expWindow := Pow2(windowSize) - expWindow;
        exp := exp + windowModulus;
      } else {
        negateNext := false;
      }
    }
  }
}
