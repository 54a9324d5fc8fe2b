/** Two-base interleaved multiplication (`AbstractGroup::CascadeScalarMultiply`). */
module CascadeMultiplication {
  import opened Numbers
  import opened Groups

  /** tableSize: two to the window width, for the three widths in use. */
  type TableSize = t: nat | t == 2 || t == 4 || t == 8 witness 2

  function Max(a: nat, b: nat): nat {
    if a >= b then a else b
  }

  function WindowWidth(expLen: nat): (w: nat)
    ensures 1 <= w <= 3
  {
    if expLen <= 46 then 1 else if expLen <= 260 then 2 else 3
  }

  /** Wider windows for larger exponents. */
  lemma WindowWidths(e1: nat, e2: nat)
    ensures var w := WindowWidth(Max(BitCount(e1), BitCount(e2)));
      && (w == 1 <==> e1 < Pow2(46) && e2 < Pow2(46))
      && (w <= 2 <==> e1 < Pow2(260) && e2 < Pow2(260))
  {
    hide Pow2, BitCount;
    BitCountAtMost(e1, 46);
    BitCountAtMost(e2, 46);
    BitCountAtMost(e1, 260);
    BitCountAtMost(e2, 260);
  }

  /** 1 << w */
  function TableSizeOf(w: nat): (t: TableSize)
    requires 1 <= w <= 3
    ensures t == Pow2(w)
  {
    assert Pow2(2) == 2 * Pow2(1) && Pow2(3) == 2 * Pow2(2);
    if w == 1 then 2 else if w == 2 then 4 else 8
  }

  /** tableSize << w */
  function TableLength(t: TableSize): nat {
    if t == 2 then 4 else if t == 4 then 16 else 64
  }

  /** (power2 << w) + power1 */
  function Slot(t: TableSize, power1: nat, power2: nat): (k: nat)
    ensures power1 < t && power2 < t ==> k < TableLength(t)
  {
    (if t == 2 then 2 * power2 else if t == 4 then 4 * power2 else 8 * power2) + power1
  }

  /** Neighbouring slots. */
  lemma SlotSteps(t: TableSize, a: nat, b: nat)
    ensures Slot(t, a, b + 1) == Slot(t, a, b) + t
    ensures Slot(t, a + 1, b) == Slot(t, a, b) + 1
  {
  }

  /** Where rows and columns start, and where the table ends. */
  lemma SlotEdges(t: TableSize, a: nat, b: nat)
    ensures a < t ==> (Slot(t, a, b) < TableLength(t) <==> b < t)
    ensures Slot(t, a, 0) == a && Slot(t, 0, 1) == t && Slot(t, 0, 2) == 2 * t && Slot(t, 0, 3) == 3 * t
  {
  }

  lemma SlotInjective(t: TableSize, a: nat, b: nat, c: nat, d: nat)
    requires a < t && c < t && Slot(t, a, b) == Slot(t, c, d)
    ensures a == c && b == d
  {
  }

  type Powers = (nat, nat)

  /** The slots named by `filled` hold the combinations their powers name. */
  ghost predicate Holds<T>(g: Group<T>, x: T, y: T, t: TableSize, table: seq<T>, filled: set<Powers>) {
    && |table| == TableLength(t)
    && forall p :: p in filled ==> p.0 < t && p.1 < t && table[Slot(t, p.0, p.1)] == Comb(g, p.0, x, p.1, y)
  }

  /** Every slot with an odd power is filled. */
  ghost predicate TableReady<T>(g: Group<T>, x: T, y: T, t: TableSize, table: seq<T>) {
    && |table| == TableLength(t)
    && forall a: nat, b: nat :: a < t && b < t && (a % 2 == 1 || b % 2 == 1) ==>
         table[Slot(t, a, b)] == Comb(g, a, x, b, y)
  }

  lemma HoldsStore<T(!new)>(g: Group<T>, x: T, y: T, t: TableSize, table: seq<T>, filled: set<Powers>, p: Powers, q: Powers)
    requires Abelian(g) && Holds(g, x, y, t, table, filled) && p in filled && p.0 + q.0 < t && p.1 + q.1 < t
    ensures Slot(t, p.0, p.1) < |table|
    ensures var sum := g.Add(table[Slot(t, p.0, p.1)], Comb(g, q.0, x, q.1, y));
      Holds(g, x, y, t, table[Slot(t, p.0 + q.0, p.1 + q.1) := sum], filled + {(p.0 + q.0, p.1 + q.1)})
  {
    CombAdd(g, p.0, p.1, q.0, q.1, x, y);
    hide Comb, Abelian;
    var k := Slot(t, p.0 + q.0, p.1 + q.1);
    forall r | r in filled && Slot(t, r.0, r.1) == k
      ensures r == (p.0 + q.0, p.1 + q.1)
    {
      SlotInjective(t, r.0, r.1, p.0 + q.0, p.1 + q.1);
    }
  }

  /** Fills the slot whose powers are the sums of those of a filled slot and of a known element. */
  method Store<T(!new)>(g: Group<T>, ghost x: T, ghost y: T, t: TableSize, table: array<T>, ghost filled: set<Powers>,
                        k: nat, i: nat, e: T, ghost p1: Powers, ghost p2: Powers)
    requires Abelian(g) && Holds(g, x, y, t, table[..], filled)
    requires p1 in filled && i == Slot(t, p1.0, p1.1) && e == Comb(g, p2.0, x, p2.1, y)
    requires p1.0 + p2.0 < t && p1.1 + p2.1 < t && k == Slot(t, p1.0 + p2.0, p1.1 + p2.1)
    modifies table
    ensures Holds(g, x, y, t, table[..], filled + {(p1.0 + p2.0, p1.1 + p2.1)})
  {
    HoldsStore(g, x, y, t, table[..], filled, p1, p2);
    hide Comb, Abelian, Slot;
    assert table.Length == TableLength(t);
    hide Holds;
    table[k] := g.Add(table[i], e);
    assert table[..] == old(table[..])[k := g.Add(old(table[i]), e)];
  }

  lemma HoldsIsReady<T>(g: Group<T>, x: T, y: T, t: TableSize, table: seq<T>, filled: set<Powers>)
    requires Holds(g, x, y, t, table, filled)
    requires forall a: nat, b: nat :: a < t && b < t && (a % 2 == 1 || b % 2 == 1) ==> (a, b) in filled
    ensures TableReady(g, x, y, t, table)
  {
    forall a: nat, b: nat | a < t && b < t && (a % 2 == 1 || b % 2 == 1)
      ensures table[Slot(t, a, b)] == Comb(g, a, x, b, y)
    {
      assert (a, b) in filled;
    }
  }

  /** First loop: the odd multiples of x alone. */
  method FillFirstRow<T(!new)>(g: Group<T>, ghost x: T, ghost y: T, t: TableSize, table: array<T>, ghost filledIn: set<Powers>)
    returns (ghost filled: set<Powers>)
    requires Abelian(g) && t > 2 && Holds(g, x, y, t, table[..], filledIn) && (1, 0) in filledIn && (2, 0) in filledIn
    modifies table
    ensures Holds(g, x, y, t, table[..], filled) && filledIn <= filled
    ensures forall a: nat :: a < t && a % 2 == 1 ==> (a, 0) in filled
  {
    hide Comb, Abelian;
    filled := filledIn;
    var i := 3;
    while i < t
      invariant 3 <= i <= t + 1 && i % 2 == 1
      invariant Holds(g, x, y, t, table[..], filled) && filledIn <= filled
      invariant forall a: nat :: a < i && a < t && a % 2 == 1 ==> (a, 0) in filled
    {
      assert Slot(t, 2, 0) == 2;
      Store(g, x, y, t, table, filled, i, i - 2, table[2], (i - 2, 0), (2, 0));
      filled := filled + {(i, 0)};
      i := i + 2;
    }
  }

  /** The inner loop of the second: one column, all rows. */
  method FillColumn<T(!new)>(g: Group<T>, ghost x: T, y: T, t: TableSize, table: array<T>, i: nat, ghost filledIn: set<Powers>)
    returns (ghost filled: set<Powers>)
    requires Abelian(g) && table.Length == TableLength(t) && Holds(g, x, y, t, table[..], filledIn)
    requires i < t && (i, 0) in filledIn
    modifies table
    ensures Holds(g, x, y, t, table[..], filled) && filledIn <= filled
    ensures forall b: nat :: b < t ==> (i, b) in filled
  {
    hide Comb, Abelian, Holds, Slot;
    CombUnits(g, x, y);
    filled := filledIn;
    var j := i + t;
    ghost var row := 1;
    SlotSteps(t, i, 0);
    SlotEdges(t, i, 1);
    SlotEdges(t, i, 0);
    while j < table.Length
      invariant 1 <= row <= t && j == Slot(t, i, row) && (j < table.Length <==> row < t)
      invariant Holds(g, x, y, t, table[..], filled) && filledIn <= filled
      invariant forall b: nat :: b < row ==> (i, b) in filled
    {
      SlotSteps(t, i, row - 1);
      SlotSteps(t, i, row);
      SlotEdges(t, i, row + 1);
      ghost var p: Powers := (i, row - 1);
      assert p in filled;
      Store(g, x, y, t, table, filled, j, j - t, y, p, (0, 1));
      filled := filled + {(i, row)};
      j, row := j + t, row + 1;
    }
  }

  /** Second loop: every row of the columns with odd power1. */
  method FillOddColumns<T(!new)>(g: Group<T>, ghost x: T, y: T, t: TableSize, table: array<T>, ghost filledIn: set<Powers>)
    returns (ghost filled: set<Powers>)
    requires Abelian(g) && table.Length == TableLength(t) && Holds(g, x, y, t, table[..], filledIn)
    requires forall a: nat :: a < t && a % 2 == 1 ==> (a, 0) in filledIn
    modifies table
    ensures Holds(g, x, y, t, table[..], filled) && filledIn <= filled
    ensures forall a: nat, b: nat :: a < t && b < t && a % 2 == 1 ==> (a, b) in filled
  {
    hide Comb, Abelian, Holds, Slot;
    filled := filledIn;
    var i := 1;
    while i < t
      invariant 1 <= i <= t + 1 && i % 2 == 1
      invariant Holds(g, x, y, t, table[..], filled) && filledIn <= filled
      invariant forall a: nat, b: nat :: a < i && a < t && b < t && a % 2 == 1 ==> (a, b) in filled
    {
      filled := FillColumn(g, x, y, t, table, i, filled);
      i := i + 2;
    }
  }

  /** Third loop: the odd multiples of y alone. */
  method FillFirstColumn<T(!new)>(g: Group<T>, ghost x: T, ghost y: T, t: TableSize, table: array<T>, ghost filledIn: set<Powers>)
    returns (ghost filled: set<Powers>)
    requires Abelian(g) && t > 2 && Holds(g, x, y, t, table[..], filledIn) && (0, 1) in filledIn && (0, 2) in filledIn
    modifies table
    ensures Holds(g, x, y, t, table[..], filled) && filledIn <= filled
    ensures forall b: nat :: b < t && b % 2 == 1 ==> (0, b) in filled
  {
    hide Comb, Abelian;
    filled := filledIn;
    var i := 3 * t;
    ghost var row := 3;
    while i < table.Length
      invariant 3 <= row <= t + 1 && row % 2 == 1 && i == Slot(t, 0, row)
      invariant Holds(g, x, y, t, table[..], filled) && filledIn <= filled
      invariant forall b: nat :: b < row && b < t && b % 2 == 1 ==> (0, b) in filled
    {
      assert Slot(t, 0, 2) == 2 * t;
      Store(g, x, y, t, table, filled, i, i - 2 * t, table[2 * t], (0, row - 2), (0, 2));
      filled := filled + {(0, row)};
      i, row := i + 2 * t, row + 2;
    }
  }

  /** The inner loop of the fourth: one row, the even columns. */
  method FillRow<T(!new)>(g: Group<T>, x: T, ghost y: T, t: TableSize, table: array<T>, i: nat, ghost row: nat,
                          ghost filledIn: set<Powers>)
    returns (ghost filled: set<Powers>)
    requires Abelian(g) && Holds(g, x, y, t, table[..], filledIn) && row < t && i == Slot(t, 0, row)
    requires forall a: nat :: a < t && (a % 2 == 1 || a == 0) ==> (a, row) in filledIn
    modifies table
    ensures Holds(g, x, y, t, table[..], filled) && filledIn <= filled
    ensures forall a: nat :: a < t ==> (a, row) in filled
  {
    hide Comb, Abelian, Holds, Slot;
    CombUnits(g, x, y);
    filled := filledIn;
    var j := i + 2;
    SlotSteps(t, 0, row);
    SlotSteps(t, 1, row);
    while j < i + t
      invariant i + 2 <= j <= i + t && (j - i) % 2 == 0 && j == Slot(t, j - i, row)
      invariant Holds(g, x, y, t, table[..], filled) && filledIn <= filled
      invariant forall a: nat :: a < t && a < j - i ==> (a, row) in filled
    {
      SlotSteps(t, j - i - 1, row);
      SlotSteps(t, j - i, row);
      SlotSteps(t, j - i + 1, row);
      ghost var p: Powers := (j - i - 1, row);
      assert p in filled;
      Store(g, x, y, t, table, filled, j, j - 1, x, p, (1, 0));
      filled := filled + {(j - i, row)};
      j := j + 2;
    }
  }

  /** Fourth loop: the even, nonzero columns of the rows with odd power2. */
  method FillOddRows<T(!new)>(g: Group<T>, x: T, ghost y: T, t: TableSize, table: array<T>, ghost filledIn: set<Powers>)
    returns (ghost filled: set<Powers>)
    requires Abelian(g) && table.Length == TableLength(t) && Holds(g, x, y, t, table[..], filledIn)
    requires forall a: nat, b: nat :: a < t && b < t && a % 2 == 1 ==> (a, b) in filledIn
    requires forall b: nat :: b < t && b % 2 == 1 ==> (0, b) in filledIn
    modifies table
    ensures Holds(g, x, y, t, table[..], filled) && filledIn <= filled
    ensures forall a: nat, b: nat :: a < t && b < t && b % 2 == 1 ==> (a, b) in filled
  {
    hide Comb, Abelian, Holds, Slot;
    filled := filledIn;
    var i: nat := t;
    ghost var row := 1;
    SlotEdges(t, 0, 1);
    while i < table.Length
      invariant 1 <= row <= t + 1 && row % 2 == 1 && i == Slot(t, 0, row) && (i < table.Length <==> row < t)
      invariant Holds(g, x, y, t, table[..], filled) && filledIn <= filled
      invariant forall a: nat, b: nat :: a < t && b < row && b < t && b % 2 == 1 ==> (a, b) in filled
    {
      filled := FillRow(g, x, y, t, table, i, row, filled);
      SlotSteps(t, 0, row);
      SlotSteps(t, 0, row + 1);
      SlotEdges(t, 0, row + 2);
      i, row := i + 2 * t, row + 2;
    }
  }

  /** The fill loops leave no slot with an odd power unset. */
  method FillTable<T(!new)>(g: Group<T>, x: T, y: T, tableSize: TableSize, powerTable: array<T>)
    requires Abelian(g) && powerTable.Length == TableLength(tableSize)
    modifies powerTable
    ensures TableReady(g, x, y, tableSize, powerTable[..])
  {
    hide Comb, Abelian;
    CombUnits(g, x, y);
    powerTable[1] := x;
    powerTable[tableSize] := y;
    ghost var filled: set<Powers> := {(1, 0), (0, 1)};
    assert Holds(g, x, y, tableSize, powerTable[..], filled);
    hide Holds, Slot;
    SlotEdges(tableSize, 1, 0);
    SlotEdges(tableSize, 2, 0);
    if tableSize == 2 {
      SlotSteps(tableSize, 1, 0);
      Store(g, x, y, tableSize, powerTable, filled, 3, 1, y, (1, 0), (0, 1));
      filled := filled + {(1, 1)};
    } else {
      Store(g, x, y, tableSize, powerTable, filled, 2, 1, x, (1, 0), (1, 0));
      filled := filled + {(2, 0)};
      Store(g, x, y, tableSize, powerTable, filled, 2 * tableSize, tableSize, y, (0, 1), (0, 1));
      filled := filled + {(0, 2)};
      filled := FillFirstRow(g, x, y, tableSize, powerTable, filled);
      filled := FillOddColumns(g, x, y, tableSize, powerTable, filled);
      filled := FillFirstColumn(g, x, y, tableSize, powerTable, filled);
      filled := FillOddRows(g, x, y, tableSize, powerTable, filled);
    }
    HoldsIsReady(g, x, y, tableSize, powerTable[..], filled);
  }

  /** `while (n--) result = Double(result)` */
  method DoubleRepeatedly<T(!new)>(g: Group<T>, ghost x: T, ghost y: T, resultIn: T, n: nat, ghost a: int, ghost b: int)
    returns (result: T)
    requires Abelian(g) && resultIn == Comb(g, a, x, b, y)
    ensures result == Comb(g, Shl(a, n), x, Shl(b, n), y)
  {
    hide Comb, Abelian;
    result := resultIn;
    for i := 0 to n
      invariant result == Comb(g, Shl(a, i), x, Shl(b, i), y)
    {
      CombAdd(g, Shl(a, i), Shl(b, i), Shl(a, i), Shl(b, i), x, y);
      result := g.Double(result);
    }
  }

  /** Shifting what was there, adding the window, and shifting the zeros back in. */
  lemma WindowSum(a: nat, p: nat, before: nat, after: nat)
    ensures Shl(Shl(a, before) + p, after) == Shl(a, before + after) + Shl(p, after)
  {
    ShlSum(Shl(a, before), p, after);
    ShlShl(a, before, after);
  }

  /** Common factors of two leave the window and become doublings after it. */
  method StripTwos(power1In: nat, power2In: nat, squares: nat, firstTime: bool)
    returns (power1: nat, power2: nat, squaresBefore: nat, squaresAfter: nat)
    requires firstTime ==> power1In > 0 || power2In > 0
    requires power1In < Pow2(if firstTime then squares + 1 else squares)
    requires power2In < Pow2(if firstTime then squares + 1 else squares)
    ensures squaresBefore + squaresAfter == squares
    ensures Shl(power1, squaresAfter) == power1In && Shl(power2, squaresAfter) == power2In
    ensures power1 <= power1In && power2 <= power2In
    ensures power1 % 2 == 1 || power2 % 2 == 1 || (power1 == power2 == 0 && !firstTime)
  {
    hide Shl;
    power1, power2, squaresBefore, squaresAfter := power1In, power2In, squares, 0;
    SmallShifts(power1);
    SmallShifts(power2);
    while (power1 != 0 || power2 != 0) && power1 % 2 == 0 && power2 % 2 == 0
      invariant squaresBefore + squaresAfter == squares
      invariant Shl(power1, squaresAfter) == power1In && Shl(power2, squaresAfter) == power2In
      invariant power1 <= power1In && power2 <= power2In
      invariant firstTime ==> power1 != 0 || power2 != 0
      invariant power1 < Pow2(if firstTime then squaresBefore + 1 else squaresBefore)
      invariant power2 < Pow2(if firstTime then squaresBefore + 1 else squaresBefore)
      decreases power1 + power2
    {
      SmallShifts(power1 / 2);
      SmallShifts(power2 / 2);
      ShlShl(power1 / 2, 1, squaresAfter);
      ShlShl(power2 / 2, 1, squaresAfter);
      power1, power2 := power1 / 2, power2 / 2;
      squaresBefore, squaresAfter := squaresBefore - 1, squaresAfter + 1;
    }
  }

  /**
   * One window. Common factors of two are stripped first, so that the slot looked up is one the
   * table guarantees; in the first window there is nothing to shift.
   */
  method ApplyWindow<T(!new)>(g: Group<T>, ghost x: T, ghost y: T, t: TableSize, powerTable: array<T>,
                              power1In: nat, power2In: nat, squares: nat, firstTime: bool, resultIn: T,
                              ghost a: nat, ghost b: nat)
    returns (result: T)
    requires Abelian(g) && TableReady(g, x, y, t, powerTable[..])
    requires power1In < t && power2In < t
    requires firstTime ==> a == b == 0 && (power1In > 0 || power2In > 0)
    requires power1In < Pow2(if firstTime then squares + 1 else squares)
    requires power2In < Pow2(if firstTime then squares + 1 else squares)
    requires !firstTime ==> resultIn == Comb(g, a, x, b, y)
    ensures result == Comb(g, Shl(a, squares) + power1In, x, Shl(b, squares) + power2In, y)
  {
    hide Comb, Abelian, Slot, Shl, Pow2;
    var power1, power2, squaresBefore, squaresAfter := StripTwos(power1In, power2In, squares, firstTime);
    ShlOne(squaresBefore);
    WindowSum(a, power1, squaresBefore, squaresAfter);
    WindowSum(b, power2, squaresBefore, squaresAfter);
    if firstTime {
      result := powerTable[Slot(t, power1, power2)];
    } else {
      result := DoubleRepeatedly(g, x, y, resultIn, squaresBefore, a, b);
      if power1 != 0 || power2 != 0 {
        CombAdd(g, Shl(a, squaresBefore), Shl(b, squaresBefore), power1, power2, x, y);
        result := g.Add(result, powerTable[Slot(t, power1, power2)]);
      }
    }
    result := DoubleRepeatedly(g, x, y, result, squaresAfter, Shl(a, squaresBefore) + power1, Shl(b, squaresBefore) + power2);
  }

  /** The bits of e down to position i are those before the last window, and the window so far. */
  ghost predicate Consumed(e: nat, i: nat, prevPosition: nat, firstTime: bool, power: nat) {
    if firstTime then
      i <= prevPosition + 1 && power == Shr(e, i) && power < Pow2(prevPosition + 1 - i)
    else
      i <= prevPosition && power < Pow2(prevPosition - i)
      && Shr(e, i) == Shl(Shr(e, prevPosition), prevPosition - i) + power
  }

  lemma ConsumeBit(e: nat, i: nat, prevPosition: nat, firstTime: bool, power: nat)
    requires Consumed(e, i + 1, prevPosition, firstTime, power)
    ensures Consumed(e, i, prevPosition, firstTime, 2 * power + Bit(e, i))
    ensures firstTime ==> 2 * power + Bit(e, i) == Shr(e, i)
    ensures i <= prevPosition
  {
    ShrStep(e, i);
    if firstTime {
      Pow2Step(prevPosition - i);
    } else {
      Pow2Step(prevPosition - i - 1);
      assert Shl(Shr(e, prevPosition), prevPosition - i) == 2 * Shl(Shr(e, prevPosition), prevPosition - i - 1);
    }
  }

  lemma NothingConsumed(e: nat, i: nat)
    requires BitCount(e) <= i + 1
    ensures Consumed(e, i + 1, i, true, 0)
    ensures Consumed(e, i, i, false, 0)
  {
    ShrBeyond(e, i + 1);
  }

  lemma WindowDone(e: nat, i: nat)
    ensures Consumed(e, i, i, false, 0)
  {
  }

  /** The first bit looked at is set in at least one exponent. */
  lemma FirstBits(e1: nat, e2: nat, i: nat, power1: nat, power2: nat)
    requires Max(BitCount(e1), BitCount(e2)) == i + 1
    requires power1 == Shr(e1, i) && power2 == Shr(e2, i)
    ensures power1 > 0 || power2 > 0
  {
    hide Shr;
    if BitCount(e1) == i + 1 {
      ShrTop(e1);
    } else {
      ShrTop(e2);
    }
  }

  /** What the result holds of e before the window, and that it and the window make up e so far. */
  ghost function WindowBase(e: nat, i: nat, prevPosition: nat, firstTime: bool, power: nat): (a: nat)
    requires Consumed(e, i, prevPosition, firstTime, power) && i <= prevPosition
    ensures a == if firstTime then 0 else Shr(e, prevPosition)
    ensures power < Pow2(if firstTime then prevPosition - i + 1 else prevPosition - i)
    ensures Shl(a, prevPosition - i) + power == Shr(e, i)
  {
    ShlOne(prevPosition - i);
    if firstTime then 0 else Shr(e, prevPosition)
  }

  /** What the main loop knows when the bits of both exponents down to position i are read. */
  ghost predicate Reading<T>(g: Group<T>, x: T, e1: nat, y: T, e2: nat, i: nat, prevPosition: nat,
                             firstTime: bool, power1: nat, power2: nat, result: T) {
    && Consumed(e1, i, prevPosition, firstTime, power1)
    && Consumed(e2, i, prevPosition, firstTime, power2)
    && (firstTime ==>
          && prevPosition + 1 == Max(BitCount(e1), BitCount(e2))
          && (i <= prevPosition ==> power1 > 0 || power2 > 0))
    && (!firstTime ==> result == Comb(g, Shr(e1, prevPosition), x, Shr(e2, prevPosition), y))
  }

  lemma ReadBits<T>(g: Group<T>, x: T, e1: nat, y: T, e2: nat, i: nat, prevPosition: nat,
                    firstTime: bool, power1: nat, power2: nat, result: T)
    requires Reading(g, x, e1, y, e2, i + 1, prevPosition, firstTime, power1, power2, result)
    ensures i <= prevPosition
    ensures Reading(g, x, e1, y, e2, i, prevPosition, firstTime, 2 * power1 + Bit(e1, i), 2 * power2 + Bit(e2, i), result)
  {
    hide Comb, Shl, Shr, Pow2, Consumed;
    ConsumeBit(e1, i, prevPosition, firstTime, power1);
    ConsumeBit(e2, i, prevPosition, firstTime, power2);
    if firstTime && i == prevPosition {
      FirstBits(e1, e2, i, 2 * power1 + Bit(e1, i), 2 * power2 + Bit(e2, i));
    }
  }

  /** The body of the `if` in the main loop: the window so far goes into the result. */
  method Flush<T(!new)>(g: Group<T>, ghost x: T, ghost e1: nat, ghost y: T, ghost e2: nat, t: TableSize, powerTable: array<T>,
                        i: nat, prevPosition: nat, firstTime: bool, power1: nat, power2: nat, resultIn: T)
    returns (result: T)
    requires Abelian(g) && TableReady(g, x, y, t, powerTable[..]) && power1 < t && power2 < t && i <= prevPosition
    requires Reading(g, x, e1, y, e2, i, prevPosition, firstTime, power1, power2, resultIn)
    ensures Reading(g, x, e1, y, e2, i, i, false, 0, 0, result)
  {
    hide Comb, Abelian, Shl, Shr, Pow2, Consumed, TableReady;
    ghost var a := WindowBase(e1, i, prevPosition, firstTime, power1);
    ghost var b := WindowBase(e2, i, prevPosition, firstTime, power2);
    result := ApplyWindow(g, x, y, t, powerTable, power1, power2, prevPosition - i, firstTime, resultIn, a, b);
    WindowDone(e1, i);
    WindowDone(e2, i);
  }

  /** For all nonnegative e1 and e2 the result is e1 * x + e2 * y. */
  method CascadeScalarMultiply<T(0, !new)>(g: Group<T>, x: T, e1: nat, y: T, e2: nat) returns (result: T)
    requires Abelian(g)
    ensures result == Comb(g, e1, x, e2, y)
  {
    hide Abelian, Comb, TableReady, Shl, Shr, Pow2, Consumed;
    var expLen := Max(BitCount(e1), BitCount(e2));
    if expLen == 0 {
      CombUnits(g, x, y);
      return g.Identity();
    }
    var tableSize := TableSizeOf(WindowWidth(expLen));
    var powerTable := new T[TableLength(tableSize)];
    FillTable(g, x, y, tableSize, powerTable);

    var power1: nat, power2: nat, prevPosition: nat := 0, 0, expLen - 1;
    var firstTime := true;
    result := *;
    NothingConsumed(e1, expLen - 1);
    NothingConsumed(e2, expLen - 1);
    for i := expLen downto 0
      invariant TableReady(g, x, y, tableSize, powerTable[..])
      invariant 2 * power1 < tableSize && 2 * power2 < tableSize
      invariant Reading(g, x, e1, y, e2, i, prevPosition, firstTime, power1, power2, result)
      invariant i == 0 ==> !firstTime && prevPosition == 0
    {
      ReadBits(g, x, e1, y, e2, i, prevPosition, firstTime, power1, power2, result);
      power1 := 2 * power1 + Bit(e1, i);
      power2 := 2 * power2 + Bit(e2, i);
      if i == 0 || 2 * power1 >= tableSize || 2 * power2 >= tableSize {
        result := Flush(g, x, e1, y, e2, tableSize, powerTable, i, prevPosition, firstTime, power1, power2, result);
        prevPosition, firstTime, power1, power2 := i, false, 0, 0;
      }
    }
    SmallShifts(e1);
    SmallShifts(e2);
  }
}
