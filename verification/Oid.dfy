/** Object identifiers: `OID::EncodeValue` to `OID::BERDecode` (X.690, section 8.19), on octet strings. */
module Oids {
  import opened Numbers
  import opened Bytes
  import opened Wrappers
  import opened Ber

  const WORD32: nat := 0x1_0000_0000

  /** The octets before the last, each with its top bit set. */
  function HighOctets(v: nat): (s: bytes)
    ensures forall i :: 0 <= i < |s| ==> s[i] >= 0x80
  {
    if v == 0 then [] else HighOctets(v / 128) + [0x80 + v % 128]
  }

  /** An arc in base 128. */
  function EncodedArc(v: nat): (s: bytes)
    ensures |s| > 0 && s[|s| - 1] < 0x80
  {
    HighOctets(v / 128) + [v % 128]
  }

  /** The number of base 128 digits, whatever their top bits. */
  function ArcValue(s: bytes): nat {
    if s == [] then 0 else 128 * ArcValue(s[..|s| - 1]) + s[|s| - 1] % 128
  }

  /** One arc behind digits that gave v; refused before v would not fit 32 bits. */
  function ParseArc(s: bytes, v: nat): (r: Option<(nat, bytes)>)
    ensures r.Some? ==> |r.value.1| < |s| && r.value.1 == s[|s| - |r.value.1|..]
  {
    if s == [] || v >= 0x200_0000 then None
    else
      var w := 128 * v + s[0] % 128;
      if s[0] < 0x80 then Some((w, s[1..])) else ParseArc(s[1..], w)
  }

  /** Arcs that take exactly `length` octets. */
  function ParseArcs(s: bytes, length: nat): (r: Option<(seq<nat>, bytes)>)
    decreases length
  {
    if length == 0 then Some(([], s))
    else match ParseArc(s, 0)
      case None => None
      case Some((v, rest)) =>
        var used := |s| - |rest|;
        if used > length then None
        else match ParseArcs(rest, length - used)
          case None => None
          case Some((arcs, after)) => Some(([v] + arcs, after))
  }

  function EncodedArcs(arcs: seq<nat>): bytes {
    if arcs == [] then [] else EncodedArc(arcs[0]) + EncodedArcs(arcs[1..])
  }

  /** The first octet holds two arcs, modulo 2^32 and then modulo 256. */
  function OidContents(values: seq<nat>): (c: bytes)
    requires |values| >= 2
    ensures |c| > 0
  {
    [(values[0] * 40 + values[1]) % WORD32 % 256] + EncodedArcs(values[2..])
  }

  function EncodedOid(values: seq<nat>): bytes
    requires |values| >= 2 && |OidContents(values)| < LWORD
  {
    var c := OidContents(values);
    [OBJECT_IDENTIFIER] + DerLength(|c|) + c
  }

  function ParseOid(s: bytes): Option<(seq<nat>, bytes)> {
    if s == [] || s[0] != OBJECT_IDENTIFIER then None
    else match ParseLength(s[1..])
      case None => None
      case Some((Indefinite, _)) => None
      case Some((Definite(length), rest)) =>
        if length < 1 || rest == [] then None
        else match ParseArcs(rest[1..], length - 1)
          case None => None
          case Some((arcs, after)) => Some(([rest[0] / 40, rest[0] % 40] + arcs, after))
  }

  lemma {:induction false} HighValue(v: nat)
    ensures ArcValue(HighOctets(v)) == v
  {
    hide ArcValue;
    if v > 0 {
      HighValue(v / 128);
      ArcValueStep(HighOctets(v / 128), 0x80 + v % 128);
    } else {
      NoArc();
    }
  }

  lemma NoArc()
    ensures ArcValue([]) == 0
  {
  }

  /** The position of the first octet without the top bit, if there is one. */
  ghost predicate EndsAt(s: bytes, n: nat) {
    n < |s| && s[n] < 0x80 && forall i :: 0 <= i < n ==> s[i] >= 0x80
  }

  lemma {:induction false} ArcValueGrows(s: bytes, t: bytes)
    ensures ArcValue(s + t) >= ArcValue(s)
    ensures t != [] && ArcValue(s) >= 0x200_0000 ==> ArcValue(s + t) >= WORD32
  {
    if t == [] {
      assert s + t == s;
    } else {
      assert (s + t)[..|s + t| - 1] == s + t[..|t| - 1];
      ArcValueGrows(s, t[..|t| - 1]);
    }
  }

  /** The guard makes every accepted arc exact, and refuses exactly those of 2^32 or more. */
  lemma {:induction false} ArcExactly(done: bytes, s: bytes, n: nat)
    requires EndsAt(s, n)
    ensures ParseArc(s, ArcValue(done))
         == if ArcValue(done + s[..n + 1]) < WORD32 then Some((ArcValue(done + s[..n + 1]), s[n + 1..])) else None
    decreases n
  {
    hide ArcValue;
    var next := done + [s[0]];
    var t := s[1..];
    assert s[..n + 1] == [s[0]] + t[..n] && s[n + 1..] == t[n..];
    assert done + s[..n + 1] == next + t[..n];
    ArcValueGrows(done, s[..n + 1]);
    ArcValueStep(done, s[0]);
    if n > 0 {
      ArcExactly(next, t, n - 1);
    } else {
      assert next + t[..0] == next;
    }
  }

  lemma ArcValueStep(s: bytes, b: byte)
    ensures ArcValue(s + [b]) == 128 * ArcValue(s) + b % 128
  {
    assert (s + [b])[..|s|] == s;
  }

  /** Octets that never end an arc are refused. */
  lemma {:induction false} UnendedArc(s: bytes, v: nat)
    requires forall i :: 0 <= i < |s| ==> s[i] >= 0x80
    ensures ParseArc(s, v) == None
    decreases s
  {
    if s != [] {
      UnendedArc(s[1..], 128 * v + s[0] % 128);
    }
  }

  /** An arc is read back, and nothing behind it is touched, exactly when it fits 32 bits. */
  lemma ArcRoundTrip(v: nat, rest: bytes)
    ensures ParseArc(EncodedArc(v) + rest, 0) == if v < WORD32 then Some((v, rest)) else None
  {
    hide *;
    var e := EncodedArc(v);
    EncodedArcEnds(v, rest);
    ArcExactly([], e + rest, |e| - 1);
    assert [] + (e + rest)[..|e|] == e && (e + rest)[|e|..] == rest;
  }

  lemma EncodedArcEnds(v: nat, rest: bytes)
    ensures EndsAt(EncodedArc(v) + rest, |EncodedArc(v)| - 1)
    ensures ArcValue(EncodedArc(v)) == v && ArcValue([]) == 0
  {
    hide HighOctets;
    HighValue(v / 128);
    ArcValueStep(HighOctets(v / 128), v % 128);
  }

  /** No octets for an arc are fewer than the encoder's. */
  lemma {:induction false} ArcIsMinimal(s: bytes)
    ensures s != [] ==> |EncodedArc(ArcValue(s))| <= |s|
    ensures |HighOctets(ArcValue(s))| <= |s|
  {
    if s != [] {
      var t := s[..|s| - 1];
      ArcIsMinimal(t);
      assert ArcValue(s) / 128 == ArcValue(t);
    }
  }

  lemma {:induction false} ArcsRoundTrip(arcs: seq<nat>, rest: bytes)
    requires forall i :: 0 <= i < |arcs| ==> arcs[i] < WORD32
    ensures ParseArcs(EncodedArcs(arcs) + rest, |EncodedArcs(arcs)|) == Some((arcs, rest))
  {
    hide EncodedArc, ParseArc;
    if arcs != [] {
      var e, more := EncodedArc(arcs[0]), EncodedArcs(arcs[1..]);
      assert EncodedArcs(arcs) + rest == e + (more + rest);
      ArcRoundTrip(arcs[0], more + rest);
      ArcsRoundTrip(arcs[1..], rest);
      assert [arcs[0]] + arcs[1..] == arcs;
    } else {
      assert [] + rest == rest;
    }
  }

  /**
   * An object identifier is read back, and nothing behind it is touched, exactly when its first two
   * arcs fit the one octet the encoder gives them.
   */
  lemma OidRoundTrip(values: seq<nat>, rest: bytes)
    requires |values| >= 2 && |OidContents(values)| < LWORD
    requires forall i :: 0 <= i < |values| ==> values[i] < WORD32
    ensures ParseOid(EncodedOid(values) + rest) == Some((values, rest))
       <==> values[1] < 40 && 40 * values[0] + values[1] <= 255
  {
    hide ParseLength, DerLength, ParseArcs, EncodedArcs;
    var c := OidContents(values);
    var s := EncodedOid(values) + rest;
    assert s[1..] == DerLength(|c|) + (c + rest);
    LengthRoundTrip(|c|, c + rest);
    assert (c + rest)[1..] == EncodedArcs(values[2..]) + rest;
    ArcsRoundTrip(values[2..], rest);
    var b := c[0];
    assert ParseOid(s) == Some(([b / 40, b % 40] + values[2..], rest));
    assert values == [values[0], values[1]] + values[2..];
    FirstArcs(values[0], values[1]);
    assert [b / 40, b % 40] + values[2..] == values <==> b / 40 == values[0] && b % 40 == values[1] by {
      assert ([b / 40, b % 40] + values[2..])[0] == b / 40 && ([b / 40, b % 40] + values[2..])[1] == b % 40;
    }
  }

  lemma FirstArcs(a: nat, b: nat)
    requires a < WORD32 && b < WORD32
    ensures var x := (a * 40 + b) % WORD32 % 256;
      (x / 40 == a && x % 40 == b) <==> b < 40 && 40 * a + b <= 255
  {
  }

  /** The identifier 2.999, an example in X.660, does not survive: 1079 is kept modulo 256, as 1.15. */
  lemma JointArcIsLost()
    ensures OidContents([2, 999]) == [55]
    ensures ParseOid(EncodedOid([2, 999])) == Some(([1, 15], []))
  {
    var c: bytes := [55];
    assert OidContents([2, 999]) == c;
    LengthRoundTrip(1, c);
    assert EncodedOid([2, 999])[1..] == DerLength(1) + c;
    assert c[1..] == [];
    assert ParseArcs(c[1..], 0) == Some(([], c[1..]));
    var none: seq<nat> := [];
    assert [1, 15] + none == [1, 15];
  }

  /** The identifier 1.2.840.113549 as it comes out: tag 6 (X.680, section 8.4), and arcs of one, two and three octets. */
  lemma IdentifierAsWritten()
    ensures EncodedOid([1, 2, 840, 113549]) == [6, 6, 0x2a, 0x86, 0x48, 0x86, 0xf7, 0x0d]
  {
    var c: bytes := [0x2a, 0x86, 0x48, 0x86, 0xf7, 0x0d];
    ArcsAsWritten();
    var values := [1, 2, 840, 113549];
    assert values[2..] == [840, 113549];
    assert [0x2a] + ([0x86, 0x48] + [0x86, 0xf7, 0x0d]) == c;
    assert OidContents(values) == c;
    assert DerLength(6) == [6];
  }

  lemma ArcsAsWritten()
    ensures EncodedArcs([840, 113549]) == [0x86, 0x48] + [0x86, 0xf7, 0x0d]
  {
    assert HighOctets(0) == [];
    assert HighOctets(6) == [0x86];
    assert HighOctets(887) == HighOctets(6) + [0xf7];
    assert EncodedArc(840) == [0x86, 0x48] && EncodedArc(113549) == [0x86, 0xf7, 0x0d];
    var arcs := [840, 113549];
    assert arcs[1..] == [113549] && arcs[1..][1..] == [];
    assert EncodedArcs([]) == [];
  }
}
