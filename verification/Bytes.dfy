/** Bytes, exclusive or, and big-endian numbers. */
module Bytes {
  import opened Numbers

  type byte = x: nat | x < 256

  type bytes = seq<byte>

  /** Exclusive or of the lowest bits. */
  function LowXor(a: nat, b: nat): (bit: nat)
    ensures bit < 2
  {
    if a % 2 == b % 2 then 0 else 1
  }

  /** Bitwise exclusive or of two numbers. */
  function XorNat(a: nat, b: nat): nat
    decreases a + b
  {
    if a == 0 && b == 0 then 0 else 2 * XorNat(a / 2, b / 2) + LowXor(a, b)
  }

  lemma {:induction false} XorBound(a: nat, b: nat, n: nat)
    requires a < Pow2(n) && b < Pow2(n)
    ensures XorNat(a, b) < Pow2(n)
  {
    if n == 0 {
    } else {
      XorBound(a / 2, b / 2, n - 1);
    }
  }

  lemma {:induction false} XorZero(a: nat)
    ensures XorNat(a, 0) == a && XorNat(0, a) == a
  {
    if a == 0 {
    } else {
      XorZero(a / 2);
    }
  }

  lemma {:induction false} XorSelf(a: nat)
    ensures XorNat(a, a) == 0
  {
    if a == 0 {
    } else {
      XorSelf(a / 2);
    }
  }

  lemma {:induction false} XorComm(a: nat, b: nat)
    ensures XorNat(a, b) == XorNat(b, a)
    decreases a + b
  {
    if a == 0 && b == 0 {
    } else {
      XorComm(a / 2, b / 2);
    }
  }

  lemma XorUnfold(a: nat, b: nat)
    ensures XorNat(a, b) == 2 * XorNat(a / 2, b / 2) + LowXor(a, b)
  {
  }

  lemma XorHalves(a: nat, b: nat)
    ensures XorNat(a, b) / 2 == XorNat(a / 2, b / 2)
    ensures XorNat(a, b) % 2 == LowXor(a, b)
  {
  }

  lemma {:induction false} XorAssoc(a: nat, b: nat, c: nat)
    ensures XorNat(XorNat(a, b), c) == XorNat(a, XorNat(b, c))
    decreases a + b + c
  {
    if a + b + c == 0 {
    } else {
      hide XorNat;
      XorAssoc(a / 2, b / 2, c / 2);
      XorAssocHalves(a, b, c);
      XorAssocParity(a, b, c);
    }
  }

  lemma XorAssocHalves(a: nat, b: nat, c: nat)
    ensures XorNat(XorNat(a, b), c) / 2 == XorNat(XorNat(a / 2, b / 2), c / 2)
    ensures XorNat(a, XorNat(b, c)) / 2 == XorNat(a / 2, XorNat(b / 2, c / 2))
  {
    hide XorNat;
    XorHalves(a, b);
    XorHalves(b, c);
    XorHalves(XorNat(a, b), c);
    XorHalves(a, XorNat(b, c));
  }

  lemma XorAssocParity(a: nat, b: nat, c: nat)
    ensures XorNat(XorNat(a, b), c) % 2 == XorNat(a, XorNat(b, c)) % 2
  {
    hide XorNat;
    XorHalves(a, b);
    XorHalves(b, c);
    XorHalves(XorNat(a, b), c);
    XorHalves(a, XorNat(b, c));
  }

  /** Exclusive or acts on high and low parts separately. */
  lemma {:induction false} XorSplit(a: nat, b: nat, n: nat, r: nat, s: nat)
    requires r < Pow2(n) && s < Pow2(n)
    ensures Shl(a, n) >= 0 && Shl(b, n) >= 0
    ensures XorNat(Shl(a, n) + r, Shl(b, n) + s) == Shl(XorNat(a, b), n) + XorNat(r, s)
  {
    hide XorNat;
    ShlGrows(a, n);
    ShlGrows(b, n);
    if n == 0 {
      XorZero(0);
    } else {
      ShlGrows(a, n - 1);
      ShlGrows(b, n - 1);
      var x, y := Shl(a, n - 1), Shl(b, n - 1);
      var z := Shl(XorNat(a, b), n - 1);
      assert Shl(a, n) == 2 * x && Shl(b, n) == 2 * y && Shl(XorNat(a, b), n) == 2 * z;
      XorSplit(a, b, n - 1, r / 2, s / 2);
      hide Pow2, Shl, LowXor;
      calc {
        XorNat(2 * x + r, 2 * y + s);
        { XorDoubled(x, y, r, s); }
        2 * XorNat(x + r / 2, y + s / 2) + LowXor(r, s);
        2 * (z + XorNat(r / 2, s / 2)) + LowXor(r, s);
        { XorUnfold(r, s); }
        2 * z + XorNat(r, s);
      }
    }
  }

  /** Both strings one place longer. */
  lemma XorDoubled(a: nat, b: nat, r: nat, s: nat)
    ensures XorNat(2 * a + r, 2 * b + s) == 2 * XorNat(a + r / 2, b + s / 2) + LowXor(r, s)
  {
    assert (2 * a + r) / 2 == a + r / 2 && (2 * b + s) / 2 == b + s / 2;
    assert (2 * a + r) % 2 == r % 2 && (2 * b + s) % 2 == s % 2;
  }

  lemma Pow2OfEight()
    ensures Pow2(8) == 256
  {
    assert Pow2(4) == 16;
  }

  function Xor(a: byte, b: byte): (r: byte)
    ensures a == 0 ==> r == b
    ensures b == 0 ==> r == a
  {
    Pow2OfEight();
    XorBound(a, b, 8);
    XorZero(a);
    XorZero(b);
    XorNat(a, b)
  }

  /** Xoring twice with the same byte changes nothing. */
  lemma XorCancel(a: byte, b: byte)
    ensures Xor(Xor(a, b), b) == a
  {
    XorAssoc(a, b, b);
    XorSelf(b);
    XorZero(a);
  }

  function Zeros(n: nat): (r: bytes)
    ensures |r| == n && forall i :: 0 <= i < n ==> r[i] == 0
  {
    seq(n, i => 0)
  }

  /** Bytewise exclusive or of equally long strings. */
  function XorBytes(a: bytes, b: bytes): (r: bytes)
    requires |a| == |b|
    ensures |r| == |a|
    ensures forall i :: 0 <= i < |a| ==> r[i] == Xor(a[i], b[i])
  {
    seq(|a|, i requires 0 <= i < |a| => Xor(a[i], b[i]))
  }

  /** b xored into a from position i on. */
  function XorAt(a: bytes, i: nat, b: bytes): (r: bytes)
    requires i + |b| <= |a|
    ensures |r| == |a|
    ensures forall j :: 0 <= j < |a| ==> r[j] == if i <= j < i + |b| then Xor(a[j], b[j - i]) else a[j]
  {
    seq(|a|, j requires 0 <= j < |a| => if i <= j < i + |b| then Xor(a[j], b[j - i]) else a[j])
  }

  /** The number a byte string spells, most significant byte first. */
  function Value(s: bytes): nat {
    if s == [] then 0 else 256 * Value(s[..|s| - 1]) + s[|s| - 1]
  }

  /** The last len bytes of n, most significant first. */
  function BigEndian(n: nat, len: nat): (s: bytes)
    ensures |s| == len
  {
    if len == 0 then [] else BigEndian(n / 256, len - 1) + [n % 256]
  }

  /** The last len bytes of n, least significant first. */
  function LittleEndian(n: nat, len: nat): (s: bytes)
    ensures |s| == len
  {
    if len == 0 then [] else [n % 256] + LittleEndian(n / 256, len - 1)
  }

  /** The bytes of the big-endian encoding from the last to the first. */
  lemma {:induction false} LittleEndianReversed(n: nat, len: nat)
    ensures forall i :: 0 <= i < len ==> LittleEndian(n, len)[i] == BigEndian(n, len)[len - 1 - i]
  {
    if len > 0 {
      LittleEndianReversed(n / 256, len - 1);
    }
  }

  lemma {:induction false} ValueBound(s: bytes)
    ensures Value(s) < Pow2(8 * |s|)
  {
    if s == [] {
    } else {
      var t := s[..|s| - 1];
      ValueBound(t);
      ByteShift(Pow2(8 * |t|), 8 * |t|);
    }
  }

  /** Eight positions are a factor of 256. */
  lemma ByteShift(x: int, n: nat)
    ensures Pow2(n + 8) == 256 * Pow2(n)
    ensures Shl(x, n + 8) == 256 * Shl(x, n)
    ensures Shl(x, 8) == 256 * x
  {
    hide Shl, Pow2;
    Pow2OfEight();
    Pow2Add(n, 8);
    ShlShl(x, n, 8);
    ShlIsProduct(Shl(x, n), 8);
    ShlIsProduct(x, 8);
  }

  /** A byte in front counts at its full place. */
  lemma {:induction false} ValueFront(b: byte, s: bytes)
    ensures Value([b] + s) == Shl(b, 8 * |s|) + Value(s)
  {
    if s == [] {
      assert ([b] + s)[..0] == [];
    } else {
      var t := s[..|s| - 1];
      ValueFront(b, t);
      assert ([b] + s)[..|s|] == [b] + t;
      ByteShift(b, 8 * |t|);
    }
  }

  lemma {:induction false} ValueAppend(s: bytes, t: bytes)
    ensures Value(s + t) == Shl(Value(s), 8 * |t|) + Value(t)
  {
    if t == [] {
      assert s + t == s;
    } else {
      var u := t[..|t| - 1];
      ValueAppend(s, u);
      assert (s + t)[..|s + t| - 1] == s + u;
      ByteShift(Value(s), 8 * |u|);
    }
  }

  lemma {:induction false} ValueXor(a: bytes, b: bytes)
    requires |a| == |b|
    ensures Value(XorBytes(a, b)) == XorNat(Value(a), Value(b))
  {
    hide XorNat, Value;
    if a == [] {
      XorZero(0);
      ValueNone();
    } else {
      var n := |a| - 1;
      ValueXor(a[..n], b[..n]);
      assert XorBytes(a, b)[..n] == XorBytes(a[..n], b[..n]);
      ValueLast(a);
      ValueLast(b);
      ValueLast(XorBytes(a, b));
      XorOneByte(Value(a[..n]), Value(b[..n]), a[n], b[n]);
    }
  }

  lemma ValueNone()
    ensures Value([]) == 0
  {
  }

  lemma ValueLast(s: bytes)
    requires s != []
    ensures Value(s) == 256 * Value(s[..|s| - 1]) + s[|s| - 1]
  {
  }

  lemma XorOneByte(x: nat, y: nat, a: byte, b: byte)
    ensures XorNat(256 * x + a, 256 * y + b) == 256 * XorNat(x, y) + XorNat(a, b)
  {
    hide XorNat, Shl;
    Pow2OfEight();
    XorSplit(x, y, 8, a, b);
    ByteShift(x, 0);
    ByteShift(y, 0);
    ByteShift(XorNat(x, y), 0);
  }

  lemma {:induction false} ValueZeros(n: nat, s: bytes)
    ensures Value(Zeros(n) + s) == Value(s)
  {
    if n == 0 {
      assert Zeros(0) + s == s;
    } else {
      ValueZeros(n - 1, s);
      ValueFront(0, Zeros(n - 1) + s);
      assert Zeros(n) + s == [0] + (Zeros(n - 1) + s);
      ShlOne(8 * |Zeros(n - 1) + s|);
    }
  }

  /** Encoding a value in its own length gives the bytes back. */
  lemma {:induction false} BigEndianOfValue(s: bytes)
    ensures BigEndian(Value(s), |s|) == s
  {
    if s == [] {
    } else {
      BigEndianOfValue(s[..|s| - 1]);
      assert Value(s) / 256 == Value(s[..|s| - 1]) && Value(s) % 256 == s[|s| - 1];
      assert s == s[..|s| - 1] + [s[|s| - 1]];
    }
  }

  lemma {:induction false} ValueOfBigEndian(n: nat, len: nat)
    requires n < Pow2(8 * len)
    ensures Value(BigEndian(n, len)) == n
  {
    if len == 0 {
    } else {
      ByteShift(0, 8 * (len - 1));
      ValueOfBigEndian(n / 256, len - 1);
      assert BigEndian(n, len)[..len - 1] == BigEndian(n / 256, len - 1);
    }
  }

  /** Handing the first k bytes over from b to a. */
  lemma HandOver(a: bytes, b: bytes, k: nat)
    requires k <= |b|
    ensures (a + b[..k]) + b[k..] == a + b
  {
    assert b[..k] + b[k..] == b;
  }
}
