/** Strings of bits, most significant first, the numbers they spell, and cells of a fixed number of bits. */
module BitStrings {
  import opened Numbers
  import opened Bytes
  import opened Ciphers

  type bits = seq<bool>

  /** The last n bits of v. */
  function ToBits(v: nat, n: nat): (s: bits)
    ensures |s| == n
  {
    if n == 0 then [] else ToBits(v / 2, n - 1) + [v % 2 == 1]
  }

  function FromBits(s: bits): nat {
    if s == [] then 0 else 2 * FromBits(s[..|s| - 1]) + if s[|s| - 1] then 1 else 0
  }

  function ZeroBits(n: nat): (s: bits)
    ensures |s| == n
  {
    seq(n, i => false)
  }

  lemma {:induction false} FromToBits(v: nat, n: nat)
    requires v < Pow2(n)
    ensures FromBits(ToBits(v, n)) == v
  {
    if n > 0 {
      FromToBits(v / 2, n - 1);
      assert ToBits(v, n)[..n - 1] == ToBits(v / 2, n - 1);
    }
  }

  lemma {:induction false} ToFromBits(s: bits)
    ensures ToBits(FromBits(s), |s|) == s
  {
    if s != [] {
      ToFromBits(s[..|s| - 1]);
      assert s == s[..|s| - 1] + [s[|s| - 1]];
    }
  }

  lemma {:induction false} FromBitsBound(s: bits)
    ensures FromBits(s) < Pow2(|s|)
  {
    if s != [] {
      FromBitsBound(s[..|s| - 1]);
    }
  }

  lemma {:induction false} FromBitsAppend(s: bits, t: bits)
    ensures FromBits(s + t) == Shl(FromBits(s), |t|) + FromBits(t)
  {
    if t == [] {
      assert s + t == s;
    } else {
      var u := t[..|t| - 1];
      FromBitsAppend(s, u);
      assert (s + t)[..|s + t| - 1] == s + u;
    }
  }

  lemma {:induction false} FromZeroBits(n: nat)
    ensures FromBits(ZeroBits(n)) == 0
  {
    if n > 0 {
      FromZeroBits(n - 1);
      assert ZeroBits(n)[..n - 1] == ZeroBits(n - 1);
    }
  }

  /** v << n */
  function LeftBy(v: nat, n: nat): nat {
    ShlGrows(v, n);
    Shl(v, n)
  }

  /** Shifting left appends zeros. */
  lemma ShiftedLeft(s: bits, n: nat)
    ensures FromBits(s + ZeroBits(n)) == LeftBy(FromBits(s), n)
  {
    FromBitsAppend(s, ZeroBits(n));
    FromZeroBits(n);
  }

  /** Shifting right drops bits at the end, and masking drops bits at the front. */
  lemma ShiftedRight(s: bits, n: nat)
    requires n <= |s|
    ensures Shr(FromBits(s), n) == FromBits(s[..|s| - n])
    ensures Low(FromBits(s), n) == FromBits(s[|s| - n..])
  {
    var a, b := s[..|s| - n], s[|s| - n..];
    assert a + b == s;
    FromBitsAppend(a, b);
    FromBitsBound(b);
    SplitUnique(FromBits(s), n, FromBits(a), FromBits(b));
  }

  /** Bitwise or. */
  function OrNat(a: nat, b: nat): (r: nat)
    decreases a + b
  {
    if a == 0 && b == 0 then 0 else 2 * OrNat(a / 2, b / 2) + if a % 2 == 0 && b % 2 == 0 then 0 else 1
  }

  /** Bits put where there are zeros. */
  lemma {:induction false} OrPlaces(s: bits, t: bits)
    ensures OrNat(FromBits(s + ZeroBits(|t|)), FromBits(t)) == FromBits(s + t)
  {
    if t == [] {
      assert s + t == s && s + ZeroBits(0) == s;
      OrZero(FromBits(s));
    } else {
      var n := |t| - 1;
      OrPlaces(s, t[..n]);
      assert (s + t)[..|s + t| - 1] == s + t[..n];
      assert (s + ZeroBits(|t|))[..|s + t| - 1] == s + ZeroBits(n);
    }
  }

  lemma {:induction false} OrZero(a: nat)
    ensures OrNat(a, 0) == a
  {
    if a > 0 {
      OrZero(a / 2);
    }
  }

  /** n bits are pos cells of c bits and some more. */
  predicate At(n: nat, c: nat, pos: nat, more: nat) {
    if pos == 0 then n == more else n >= c && At(n - c, c, pos - 1, more)
  }

  lemma {:induction false} AtMore(n: nat, c: nat, pos: nat, more: nat, k: nat)
    requires At(n, c, pos, more)
    ensures At(n + k, c, pos, more + k)
  {
    if pos > 0 {
      AtMore(n - c, c, pos - 1, more, k);
    }
  }

  /** A cell is full. */
  lemma {:induction false} AtNext(n: nat, c: nat, pos: nat)
    requires At(n, c, pos, c)
    ensures At(n, c, pos + 1, 0)
  {
    if pos > 0 {
      AtNext(n - c, c, pos - 1);
    }
  }

  /** A longer string needs more cells, and the cells and the bits over are determined. */
  lemma {:induction false} AtOrder(n: nat, c: nat, pos: nat, more: nat, m: nat, cells: nat)
    requires more < c && At(n, c, pos, more) && At(m, c, cells, 0)
    ensures n < m <==> pos < cells
    ensures n == m <==> pos == cells && more == 0
    decreases pos
  {
    if pos > 0 && cells > 0 {
      AtOrder(n - c, c, pos - 1, more, m - c, cells - 1);
    } else if cells > 0 {
      AtSize(m, c, cells);
    }
  }

  lemma {:induction false} AtSize(m: nat, c: nat, cells: nat)
    requires At(m, c, cells, 0)
    ensures m == c * cells
  {
    if cells > 0 {
      AtSize(m - c, c, cells - 1);
      assert c * cells == c * (cells - 1) + c;
    }
  }

  lemma {:induction false} AtWhole(m: nat, c: nat, cells: nat)
    requires c > 0 && At(m, c, cells, 0)
    ensures Whole(m, c)
  {
    if cells > 0 {
      AtWhole(m - c, c, cells - 1);
    }
  }

  lemma {:induction false} AtProduct(c: nat, cells: nat)
    ensures c * cells >= 0 && At(c * cells, c, cells, 0)
  {
    if cells > 0 {
      assert c * cells == c * (cells - 1) + c;
      AtProduct(c, cells - 1);
    }
  }

  /** n cells of c bits: p from the front on, and zeros behind it. */
  function Filled(p: bits, c: nat, n: nat): (cells: seq<nat>)
    ensures |cells| == n
    decreases n
  {
    if n == 0 then []
    else if |p| >= c then [FromBits(p[..c])] + Filled(p[c..], c, n - 1)
    else [FromBits(p + ZeroBits(c - |p|))] + Filled([], c, n - 1)
  }

  /** Nothing filled in is all zeros. */
  lemma {:induction false} FilledNone(c: nat, n: nat)
    requires c > 0
    ensures Filled([], c, n) == seq(n, i => 0)
  {
    if n > 0 {
      FilledNone(c, n - 1);
      FromZeroBits(c);
      assert [] + ZeroBits(c) == ZeroBits(c);
      assert seq(n, i => 0) == [0] + seq(n - 1, i => 0);
    }
  }

  /** More bits into the cell that is being filled: the code ors in their number, shifted into place. */
  lemma {:induction false} FillCell(p: bits, t: bits, c: nat, n: nat, pos: nat, bitPos: nat)
    requires At(|p|, c, pos, bitPos) && bitPos < c && bitPos + |t| <= c && pos < n
    ensures Filled(p + t, c, n)
         == Filled(p, c, n)[pos := OrNat(Filled(p, c, n)[pos], FromBits(t + ZeroBits(c - bitPos - |t|)))]
    decreases pos
  {
    if pos == 0 {
      FillFirst(p, t, c, n);
    } else {
      FilledStep(p, c, n);
      FilledStep(p + t, c, n);
      hide Filled, OrNat, FromBits, ZeroBits;
      FillCell(p[c..], t, c, n - 1, pos - 1, bitPos);
      assert (p + t)[..c] == p[..c] && (p + t)[c..] == p[c..] + t;
    }
  }

  lemma FillFirst(p: bits, t: bits, c: nat, n: nat)
    requires |p| < c && |p| + |t| <= c && n > 0
    ensures Filled(p + t, c, n)
         == Filled(p, c, n)[0 := OrNat(Filled(p, c, n)[0], FromBits(t + ZeroBits(c - |p| - |t|)))]
  {
    var z := c - |p| - |t|;
    hide *;
    FilledShort(p, c, n);
    FilledShort(p + t, c, n);
    OrPlaces(p, t + ZeroBits(z));
    Regroup(p, t, ZeroBits(z));
  }

  lemma Regroup(p: bits, q: bits, r: bits)
    ensures p + (q + r) == p + q + r
  {
  }

  lemma FilledShort(p: bits, c: nat, n: nat)
    requires |p| <= c && n > 0
    ensures Filled(p, c, n) == [FromBits(p + ZeroBits(c - |p|))] + Filled([], c, n - 1)
  {
    if |p| == c {
      assert p[..c] == p && p[c..] == [] && ZeroBits(0) == [] && p + [] == p;
      hide FromBits, ZeroBits;
    }
  }

  lemma FilledStep(p: bits, c: nat, n: nat)
    requires c > 0 && |p| >= c && n > 0
    ensures Filled(p, c, n) == [FromBits(p[..c])] + Filled(p[c..], c, n - 1)
  {
  }

  /** The digits of c bits of p, the last one filled up with zeros. */
  function Digits(p: bits, c: nat): (d: seq<nat>)
    requires c > 0
    decreases |p|
  {
    if p == [] then []
    else if |p| < c then [FromBits(p + ZeroBits(c - |p|))]
    else [FromBits(p[..c])] + Digits(p[c..], c)
  }

  lemma {:induction false} DigitsBound(p: bits, c: nat)
    requires c > 0
    ensures forall i :: 0 <= i < |Digits(p, c)| ==> Digits(p, c)[i] < Pow2(c)
    decreases |p|
  {
    if p == [] {
    } else if |p| < c {
      FromBitsBound(p + ZeroBits(c - |p|));
    } else {
      FromBitsBound(p[..c]);
      DigitsBound(p[c..], c);
    }
  }

  lemma DigitsStep(p: bits, c: nat)
    requires c > 0 && |p| >= c
    ensures Digits(p, c) == [FromBits(p[..c])] + Digits(p[c..], c)
  {
  }

  /** The cells in use hold the digits. */
  lemma {:induction false} FilledDigits(p: bits, c: nat, n: nat, pos: nat, bitPos: nat)
    requires At(|p|, c, pos, bitPos) && bitPos < c && pos <= n && (bitPos > 0 ==> pos < n)
    ensures Digits(p, c) == Filled(p, c, n)[..if bitPos > 0 then pos + 1 else pos]
    decreases pos
  {
    if pos > 0 {
      FilledStep(p, c, n);
      DigitsStep(p, c);
      hide *;
      FilledDigits(p[c..], c, n - 1, pos - 1, bitPos);
    }
  }

  lemma {:induction false} DigitsConcat(p: bits, q: bits, c: nat)
    requires c > 0 && Whole(|p|, c)
    ensures Digits(p + q, c) == Digits(p, c) + Digits(q, c)
    decreases |p|
  {
    if p == [] {
      assert p + q == q;
    } else {
      WholeStep(|p|, c);
      DigitsStep(p, c);
      DigitsStep(p + q, c);
      hide *;
      assert (p + q)[..c] == p[..c] && (p + q)[c..] == p[c..] + q;
      DigitsConcat(p[c..], q, c);
    }
  }

  lemma SpreadLength(n: nat, c: nat, cells: nat)
    requires At(n, c, cells, 0)
    ensures At(n + c, c, cells + 1, 0)
  {
    AtMore(n, c, cells, 0, c);
    AtNext(n + c, c, cells);
  }

  /** The bits of a string of digits, c from each. */
  function Spread(d: seq<nat>, c: nat): (p: bits)
    ensures At(|p|, c, |d|, 0)
  {
    if d == [] then [] else
      SpreadLength(|Spread(d[..|d| - 1], c)|, c, |d| - 1);
      Spread(d[..|d| - 1], c) + ToBits(d[|d| - 1], c)
  }

  lemma {:induction false} SpreadConcat(d: seq<nat>, e: seq<nat>, c: nat)
    ensures Spread(d + e, c) == Spread(d, c) + Spread(e, c)
  {
    hide Spread, ToBits;
    if e == [] {
      SpreadNone(c);
      assert d + e == d;
    } else {
      var u := e[..|e| - 1];
      SpreadConcat(d, u, c);
      SpreadLast(e, c);
      SpreadLast(d + e, c);
      assert (d + e)[..|d + e| - 1] == d + u;
      Regroup(Spread(d, c), Spread(u, c), ToBits(e[|e| - 1], c));
    }
  }

  lemma SpreadLast(d: seq<nat>, c: nat)
    requires d != []
    ensures Spread(d, c) == Spread(d[..|d| - 1], c) + ToBits(d[|d| - 1], c)
  {
  }

  /** Spreading out the digits gives the bits, and fewer zeros than a digit has places. */
  lemma {:induction false} SpreadDigits(p: bits, c: nat)
    requires c > 0
    ensures |p| <= |Spread(Digits(p, c), c)| < |p| + c
    ensures Spread(Digits(p, c), c) == p + ZeroBits(|Spread(Digits(p, c), c)| - |p|)
    decreases |p|
  {
    hide FromBits, Spread;
    if p == [] {
      assert Spread([], c) == [] by {
        SpreadNone(c);
      }
      assert ZeroBits(0) == [];
    } else if |p| < c {
      SpreadOne(p + ZeroBits(c - |p|));
    } else {
      SpreadDigits(p[c..], c);
      SpreadOne(p[..c]);
      SpreadConcat([FromBits(p[..c])], Digits(p[c..], c), c);
      assert p == p[..c] + p[c..];
    }
  }

  lemma SpreadNone(c: nat)
    ensures Spread([], c) == []
  {
  }

  lemma SpreadOne(s: bits)
    ensures Spread([FromBits(s)], |s|) == s
  {
    ToFromBits(s);
    assert [FromBits(s)][..0] == [];
    assert Spread([], |s|) == [];
  }

  /** The bytes that are complete. */
  function Octets(p: bits): (d: bytes)
    decreases |p|
  {
    if |p| < 8 then []
    else
      FromBitsBound(p[..8]);
      Pow2OfEight();
      [FromBits(p[..8])] + Octets(p[8..])
  }

  lemma OctetsStep(p: bits)
    requires |p| >= 8
    ensures FromBits(p[..8]) < 256 && Octets(p) == [FromBits(p[..8])] + Octets(p[8..])
  {
    FromBitsBound(p[..8]);
    Pow2OfEight();
    hide FromBits, Pow2;
  }

  /** Reading the bits of bytes off gives the bytes; up to seven bits more are dropped. */
  lemma {:induction false} OctetsOfSpread(m: bytes, extra: bits)
    requires |extra| < 8
    ensures Octets(Spread(m, 8) + extra) == m
    decreases |m|
  {
    if m == [] {
    } else {
      var p := Spread(m, 8) + extra;
      FirstOctet(m, extra);
      OctetsStep(p);
      hide *;
      OctetsOfSpread(m[1..], extra);
      assert m == [m[0]] + m[1..];
    }
  }

  lemma FirstOctet(m: bytes, extra: bits)
    requires m != []
    ensures var p := Spread(m, 8) + extra;
      |p| >= 8 && FromBits(p[..8]) == m[0] && p[8..] == Spread(m[1..], 8) + extra
  {
    hide *;
    Pow2OfEight();
    FromToBits(m[0], 8);
    SpreadFirst(m);
    var p := Spread(m, 8) + extra;
    assert p[..8] == ToBits(m[0], 8);
  }

  lemma SpreadFirst(m: bytes)
    requires m != []
    ensures Spread(m, 8) == ToBits(m[0], 8) + Spread(m[1..], 8)
  {
    var one := m[..1];
    assert m == one + m[1..] && one == [m[0]] && one[..0] == [];
    assert Spread(one, 8) == Spread([], 8) + ToBits(m[0], 8);
    SpreadNone(8);
    SpreadConcat(one, m[1..], 8);
  }

  /** Whole bytes come off the front on their own. */
  lemma {:induction false} OctetsConcat(p: bits, q: bits)
    requires Whole(|p|, 8)
    ensures Octets(p + q) == Octets(p) + Octets(q)
    decreases |p|
  {
    if p == [] {
      assert p + q == q;
    } else {
      WholeStep(|p|, 8);
      OctetsStep(p);
      OctetsStep(p + q);
      hide *;
      assert (p + q)[..8] == p[..8] && (p + q)[8..] == p[8..] + q;
      OctetsConcat(p[8..], q);
    }
  }

  /** The complete cells of 8 bits hold the bytes. */
  lemma {:induction false} FilledOctets(p: bits, n: nat, pos: nat, bitPos: nat)
    requires At(|p|, 8, pos, bitPos) && bitPos < 8 && pos <= n
    ensures Octets(p) == Filled(p, 8, n)[..pos]
    decreases pos
  {
    if pos > 0 {
      FilledOctets(p[8..], n - 1, pos - 1, bitPos);
    }
  }
}
