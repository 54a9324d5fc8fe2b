/** Lengths and unsigned integers in BER and DER (ITU-T X.690), on octet strings. */
module Ber {
  import opened Numbers
  import opened Bytes
  import opened Wrappers

  /** `BytePrecision` */
  function BytePrecision(n: nat): (p: nat)
    ensures p == 0 <==> n == 0
  {
    if n == 0 then 0 else 1 + BytePrecision(n / 256)
  }

  /** Exactly the octets that are needed. */
  lemma {:induction false} PrecisionIsLeast(n: nat, len: nat)
    ensures n < Pow2(8 * BytePrecision(n))
    ensures n < Pow2(8 * len) <==> BytePrecision(n) <= len
  {
    hide Pow2;
    Pow2Step(0);
    if n > 0 {
      ByteShift(0, 8 * BytePrecision(n / 256));
      PrecisionIsLeast(n / 256, if len > 0 then len - 1 else 0);
      if len > 0 {
        ByteShift(0, 8 * (len - 1));
      }
    }
  }

  lemma WordPrecision(n: nat)
    ensures n < LWORD <==> BytePrecision(n) <= 8
    ensures n < 0x1_0000_0000 <==> BytePrecision(n) <= 4
  {
    hide Pow2, BytePrecision;
    WordSizes();
    PrecisionIsLeast(n, 8);
    PrecisionIsLeast(n, 4);
  }

  lemma WordSizes()
    ensures Pow2(32) == 0x1_0000_0000 && Pow2(64) == LWORD && Pow2(56) == 0x100_0000_0000_0000
  {
    Pow2OfEight();
    hide Pow2;
    ByteShift(0, 8);
    ByteShift(0, 16);
    ByteShift(0, 24);
    ByteShift(0, 32);
    ByteShift(0, 40);
    ByteShift(0, 48);
    ByteShift(0, 56);
  }

  /** The length octets of DER: X.690, sections 8.1.3 and 10.1. */
  function DerLength(n: nat): (s: bytes)
    requires n < LWORD
    ensures |s| > 0 && s[0] != 0x80
  {
    if n <= 0x7f then [n]
    else
      WordPrecision(n);
      [BytePrecision(n) + 0x80] + BigEndian(n, BytePrecision(n))
  }

  datatype Length = Definite(value: nat) | Indefinite

  /** count octets more, behind those that gave `value`; a value that does not fit 64 bits is refused. */
  function LengthOctets(s: bytes, count: nat, value: nat): (r: Option<(nat, bytes)>)
    decreases count
  {
    if count == 0 then Some((value, s))
    else if value >= 0x100_0000_0000_0000 || s == [] then None
    else LengthOctets(s[1..], count - 1, 256 * value + s[0])
  }

  /** A length in any form of BER, and what follows it. */
  function ParseLength(s: bytes): (r: Option<(Length, bytes)>)
    ensures r.Some? ==> |r.value.1| < |s| && r.value.1 == s[|s| - |r.value.1|..]
    ensures r.Some? && r.value.0.Definite? ==> r.value.0.value < LWORD
  {
    if s == [] then None
    else if s[0] < 0x80 then Some((Definite(s[0]), s[1..]))
    else if s[0] == 0x80 then Some((Indefinite, s[1..]))
    else
      LengthOctetsExactly(s[1..], s[0] - 0x80, 0, []);
      match LengthOctets(s[1..], s[0] - 0x80, 0)
      case None => None
      case Some((n, rest)) => Some((Definite(n), rest))
  }

  /** What is read is the exact number, and it is refused exactly when it is 2^64 or more. */
  lemma {:induction false} LengthOctetsExactly(s: bytes, count: nat, value: nat, done: bytes)
    requires value == Value(done) < LWORD
    ensures LengthOctets(s, count, value).Some? <==> count <= |s| && Value(done + s[..count]) < LWORD
    ensures LengthOctets(s, count, value).Some? ==>
      LengthOctets(s, count, value) == Some((Value(done + s[..count]), s[count..]))
    decreases count
  {
    hide Value;
    if count == 0 {
      assert done + s[..0] == done;
    } else if s != [] && count <= |s| {
      ValueSnoc(done, s[0]);
      assert done + s[..count] == done + [s[0]] + s[1..][..count - 1];
      if value >= 0x100_0000_0000_0000 {
        ValueAppend(done + [s[0]], s[1..][..count - 1]);
        ShlGrows(Value(done + [s[0]]), 8 * (count - 1));
      } else {
        LengthOctetsExactly(s[1..], count - 1, 256 * value + s[0], done + [s[0]]);
        assert s[1..][count - 1..] == s[count..];
      }
    } else if value < 0x100_0000_0000_0000 && s != [] {
      ValueSnoc(done, s[0]);
      LengthOctetsExactly(s[1..], count - 1, 256 * value + s[0], done + [s[0]]);
    }
  }

  lemma ValueSnoc(s: bytes, b: byte)
    ensures Value(s + [b]) == 256 * Value(s) + b
  {
    assert (s + [b])[..|s|] == s;
  }

  /** The decoder's guards make every accepted length exact: the long form is accepted iff it is there and fits. */
  lemma LongLengthExactly(s: bytes)
    requires s != [] && s[0] > 0x80
    ensures var count := s[0] - 0x80;
      ParseLength(s) == if count < |s| && Value(s[1..1 + count]) < LWORD
                        then Some((Definite(Value(s[1..1 + count])), s[1 + count..])) else None
  {
    var count := s[0] - 0x80;
    LengthOctetsExactly(s[1..], count, 0, []);
    if count < |s| {
      assert [] + s[1..][..count] == s[1..1 + count] && s[1..][count..] == s[1 + count..];
    }
  }

  /** A DER length is read back, and nothing behind it is touched. */
  lemma LengthRoundTrip(n: nat, rest: bytes)
    requires n < LWORD
    ensures ParseLength(DerLength(n) + rest) == Some((Definite(n), rest))
  {
    var s := DerLength(n) + rest;
    if n > 0x7f {
      hide Value, BigEndian, Pow2;
      LongLengthExactly(s);
      PrecisionIsLeast(n, BytePrecision(n));
      ValueOfBigEndian(n, BytePrecision(n));
      assert s[1..1 + (s[0] - 0x80)] == BigEndian(n, BytePrecision(n));
    }
  }

  /** No BER encoding of a length is shorter than the DER one, and no other is as short. */
  lemma DerLengthIsMinimal(s: bytes, n: nat)
    requires ParseLength(s).Some? && ParseLength(s).value.0 == Definite(n)
    ensures n < LWORD
    ensures |DerLength(n)| <= |s| - |ParseLength(s).value.1|
    ensures |DerLength(n)| == |s| - |ParseLength(s).value.1| ==> DerLength(n) == s[..|DerLength(n)|]
  {
    hide Pow2, Value, BigEndian, BytePrecision, LengthOctets;
    if s[0] > 0x80 {
      var count := s[0] - 0x80;
      LongLengthExactly(s);
      var octets := s[1..1 + count];
      ValueBound(octets);
      PrecisionIsLeast(n, count);
      BigEndianOfValue(octets);
      if n > 0x7f && BytePrecision(n) == count {
        assert s[..1 + count] == [s[0]] + octets;
      }
    }
  }

  const BOOLEAN: byte := 1
  const INTEGER: byte := 2
  const OBJECT_IDENTIFIER: byte := 6
  const ENUMERATED: byte := 10
  const CONSTRUCTED: byte := 0x20

  /** The contents of an unsigned integer of a type of `size` bytes; a BOOLEAN keeps only its truth. */
  function UnsignedContents(w: nat, asnTag: byte): (c: bytes)
    ensures |c| > 0
  {
    if asnTag == BOOLEAN then (if w != 0 then [0xff] else [0])
    else
      var c := BigEndian(w, if w == 0 then 1 else BytePrecision(w));
      if c[0] >= 0x80 then [0] + c else c
  }

  /** X.690, section 8.3.3: contents as a two's complement number, the first bit counting negative. */
  function SignedValue(c: bytes): int {
    if c == [] || c[0] < 0x80 then Value(c) else Value(c) - Pow2(8 * |c|)
  }

  /**
   * X.690, sections 8.3.2 and 8.3.3: as a two's complement number the contents are the value, and the
   * first nine bits are not all equal, so that no shorter contents would do.
   */
  lemma ContentsAreMinimal(w: nat, asnTag: byte)
    requires asnTag != BOOLEAN
    ensures var c := UnsignedContents(w, asnTag);
      && SignedValue(c) == Value(c) == w && c[0] < 0x80
      && (|c| > 1 && c[0] == 0 ==> c[1] >= 0x80)
  {
    hide Value, BigEndian, BytePrecision, Pow2;
    var len := if w == 0 then 1 else BytePrecision(w);
    var c := BigEndian(w, len);
    PrecisionIsLeast(w, len);
    ValueOfBigEndian(w, len);
    ZeroInFront(c);
    if c[0] == 0 && w != 0 {
      ZeroInFront(c[1..]);
      assert c == [0] + c[1..];
      ValueBound(c[1..]);
      PrecisionIsLeast(w, len - 1);
    }
  }

  lemma ZeroInFront(c: bytes)
    ensures Value([0] + c) == Value(c)
  {
    ValueFront(0, c);
    ShlOne(8 * |c|);
  }

  /** DER: tag, length and contents. */
  function EncodedUnsigned(w: nat, asnTag: byte): (s: bytes)
    requires |UnsignedContents(w, asnTag)| < LWORD
  {
    var c := UnsignedContents(w, asnTag);
    [asnTag] + DerLength(|c|) + c
  }

  lemma ContentsSize(w: nat, size: nat, asnTag: byte)
    requires 0 < size <= 8 && w < Pow2(8 * size)
    ensures |UnsignedContents(w, asnTag)| <= size + 1
  {
    PrecisionIsLeast(w, size);
  }

  /** The number of a tag's contents, for a type of `size` bytes; and what follows. */
  function ParseUnsigned(s: bytes, size: nat, asnTag: byte, minValue: nat, maxValue: nat): (r: Option<(nat, bytes)>) {
    if s == [] || s[0] != asnTag then None
    else match ParseLength(s[1..])
      case None => None
      case Some((Indefinite, _)) => None
      case Some((Definite(bc), rest)) =>
        if bc > |rest| || (asnTag == BOOLEAN && bc != 1) || ((asnTag == INTEGER || asnTag == ENUMERATED) && bc == 0)
        then None
        else
          var c := Stripped(rest[..bc], size);
          if |c| > size || Value(c) < minValue || Value(c) > maxValue then None else Some((Value(c), rest[bc..]))
  }

  /** Leading zero octets are consumed while there are more than fit. */
  function Stripped(c: bytes, size: nat): (d: bytes)
    ensures |d| <= |c|
  {
    if |c| > size && c[0] == 0 then Stripped(c[1..], size) else c
  }

  /** Stripping keeps the value, and makes the contents fit exactly when the value fits. */
  lemma {:induction false} StrippedExactly(c: bytes, size: nat)
    ensures Value(Stripped(c, size)) == Value(c)
    ensures |Stripped(c, size)| <= size <==> Value(c) < Pow2(8 * size)
  {
    hide Pow2, Value;
    if |c| > size {
      ValueFront(c[0], c[1..]);
      assert c == [c[0]] + c[1..];
      ShlOne(8 * |c[1..]|);
      if c[0] == 0 {
        StrippedExactly(c[1..], size);
      } else {
        ShlMonotone(1, c[0], 8 * |c[1..]|);
        Pow2Monotone(8 * size, 8 * |c[1..]|);
      }
    } else {
      ValueBound(c);
      Pow2Monotone(8 * |c|, 8 * size);
    }
  }

  lemma {:induction false} ShlMonotone(a: int, b: int, n: nat)
    requires a <= b
    ensures Shl(a, n) <= Shl(b, n)
  {
    if n > 0 {
      ShlMonotone(a, b, n - 1);
    }
  }

  /** Accepted exactly: the contents are there, and their unwrapped unsigned value fits the type and the bounds. */
  lemma UnsignedExactly(s: bytes, size: nat, asnTag: byte, minValue: nat, maxValue: nat, bc: nat, rest: bytes)
    requires s != [] && s[0] == asnTag && ParseLength(s[1..]) == Some((Definite(bc), rest))
    ensures ParseUnsigned(s, size, asnTag, minValue, maxValue)
      == if && bc <= |rest| && (asnTag == BOOLEAN ==> bc == 1) && (asnTag == INTEGER || asnTag == ENUMERATED ==> bc != 0)
            && Value(rest[..bc]) < Pow2(8 * size) && minValue <= Value(rest[..bc]) <= maxValue
         then Some((Value(rest[..bc]), rest[bc..])) else None
  {
    hide Pow2, Value, Stripped, ParseLength;
    if bc <= |rest| {
      StrippedExactly(rest[..bc], size);
    }
  }

  /**
   * The number that is accepted is the one X.690 gives the contents if and only if their first bit
   * is clear; the encoder's contents always are such.
   */
  lemma SignedExactly(s: bytes, size: nat, asnTag: byte, minValue: nat, maxValue: nat, bc: nat, rest: bytes)
    requires s != [] && ParseLength(s[1..]) == Some((Definite(bc), rest))
    requires ParseUnsigned(s, size, asnTag, minValue, maxValue).Some?
    ensures bc <= |rest|
    ensures var c := rest[..bc];
      ParseUnsigned(s, size, asnTag, minValue, maxValue).value.0 == SignedValue(c) <==> c == [] || c[0] < 0x80
  {
    hide Pow2, Value, Stripped, ParseLength;
    UnsignedExactly(s, size, asnTag, minValue, maxValue, bc, rest);
  }

  /** One INTEGER octet ff is -1 in X.690, and is accepted as 255. */
  lemma NegativeIsReadAsLarge(size: nat)
    requires 0 < size
    ensures SignedValue([0xff]) == -1
    ensures ParseUnsigned([INTEGER, 1, 0xff], size, INTEGER, 0, 0xffff_ffff) == Some((255, []))
  {
    var c: bytes := [0xff];
    assert c[..0] == [] && Value(c) == 255;
    Pow2OfEight();
    Pow2Monotone(8, 8 * size);
    hide Pow2, Value;
    var s: bytes := [INTEGER, 1, 0xff];
    var t: bytes := [1, 0xff];
    assert s[1..] == t && t[1..] == c && c[..1] == c && c[1..] == [];
    UnsignedExactly(s, size, INTEGER, 0, 0xffff_ffff, 1, c);
  }

  /**
   * What is encoded is read back, and nothing behind it is touched: always for an INTEGER, and for a
   * BOOLEAN exactly when the number is the one that stands for its truth.
   */
  lemma UnsignedRoundTrip(w: nat, size: nat, asnTag: byte, rest: bytes)
    requires 0 < size <= 8 && w < Pow2(8 * size)
    ensures |UnsignedContents(w, asnTag)| < LWORD
    ensures ParseUnsigned(EncodedUnsigned(w, asnTag) + rest, size, asnTag, 0, Pow2(8 * size) - 1) == Some((w, rest))
       <==> asnTag != BOOLEAN || w == 0 || w == 0xff
  {
    hide Pow2, Value, ParseLength, DerLength, UnsignedContents;
    ContentsSize(w, size, asnTag);
    var c := UnsignedContents(w, asnTag);
    var s := EncodedUnsigned(w, asnTag) + rest;
    assert s[1..] == DerLength(|c|) + (c + rest);
    LengthRoundTrip(|c|, c + rest);
    UnsignedExactly(s, size, asnTag, 0, Pow2(8 * size) - 1, |c|, c + rest);
    assert (c + rest)[..|c|] == c && (c + rest)[|c|..] == rest;
    if asnTag == BOOLEAN {
      BooleanContents(w, size);
    } else {
      ContentsAreMinimal(w, asnTag);
    }
  }

  /** The number that does not come back: 1 is encoded as a BOOLEAN by the octet ff, and read as 255. */
  lemma BooleanKeepsTruthOnly(size: nat)
    requires 0 < size <= 8
    ensures EncodedUnsigned(1, BOOLEAN) == [BOOLEAN, 1, 0xff]
    ensures ParseUnsigned([BOOLEAN, 1, 0xff], size, BOOLEAN, 0, Pow2(8 * size) - 1) == Some((0xff, []))
  {
    var s: bytes := [BOOLEAN, 1, 0xff];
    var c: bytes := [0xff];
    assert DerLength(1) == [1] && UnsignedContents(1, BOOLEAN) == c;
    assert s[1..] == [1] + c && (s[1..])[1..] == c && c[..1] == c && c[1..] == [];
    BooleanContents(1, size);
    UnsignedExactly(s, size, BOOLEAN, 0, Pow2(8 * size) - 1, 1, c);
  }

  lemma BooleanContents(w: nat, size: nat)
    requires 0 < size
    ensures var c := UnsignedContents(w, BOOLEAN);
      |c| == 1 && Value(c) == (if w != 0 then 0xff else 0) && Value(c) < Pow2(8 * size)
  {
    var c := UnsignedContents(w, BOOLEAN);
    assert c[..0] == [];
    Pow2OfEight();
    Pow2Monotone(8, 8 * size);
  }

  /** The universal tags of X.680, section 8.4, that a number may have, as they come out. */
  lemma NumbersAsWritten()
    ensures EncodedUnsigned(5, BOOLEAN) == [1, 1, 0xff]
    ensures EncodedUnsigned(5, INTEGER) == [2, 1, 5]
    ensures EncodedUnsigned(5, ENUMERATED) == [10, 1, 5]
    ensures EncodedUnsigned(128, INTEGER) == [2, 2, 0, 0x80]
  {
    assert DerLength(1) == [1] && DerLength(2) == [2];
    assert BigEndian(5, 1) == [5] && BigEndian(128, 2) == [0, 128];
  }
}
