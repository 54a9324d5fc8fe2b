/** `DEREncodeUnsigned`, `BERDecodeUnsigned` and `OID`, on queues. */
module AsnScalars {
  import opened Numbers
  import opened Bytes
  import opened Wrappers
  import opened Ber
  import opened Oids
  import opened AsnSources
  import opened Asn

  /** The octets from position k on. */
  lemma {:induction false} BigEndianTail(n: nat, len: nat, k: nat)
    requires k <= len
    ensures BigEndian(n, len)[k..] == BigEndian(n, len - k)
    decreases len
  {
    if k < len {
      BigEndianTail(n / 256, len - 1, k);
    }
  }

  /** An octet that is zero can be left out in front. */
  lemma FirstOctet(n: nat, len: nat)
    requires len > 0 && n < Pow2(8 * len)
    ensures BigEndian(n, len)[0] == 0 <==> n < Pow2(8 * (len - 1))
    ensures BigEndian(n, len) == [BigEndian(n, len)[0]] + BigEndian(n, len - 1)
  {
    hide BigEndian, Pow2, Value;
    var s := BigEndian(n, len);
    BigEndianTail(n, len, 1);
    ValueOfBigEndian(n, len);
    ValueFront(s[0], s[1..]);
    assert s == [s[0]] + s[1..];
    ValueBound(s[1..]);
    ShlOne(8 * (len - 1));
    if s[0] > 0 {
      ShlMonotone(1, s[0], 8 * (len - 1));
    }
  }

  /** One octet, or as many as are needed, and none that is zero in front of others. */
  lemma LeastOctets(n: nat, len: nat)
    requires len > 0 && n < Pow2(8 * len) && (len > 1 ==> n >= Pow2(8 * (len - 1)))
    ensures len == if n == 0 then 1 else BytePrecision(n)
  {
    hide Pow2;
    PrecisionIsLeast(n, len);
    PrecisionIsLeast(n, len - 1);
    Pow2Step(0);
  }

  /** `DEREncodeUnsigned` for a type of `size` bytes. */
  method DEREncodeUnsigned(out: ByteQueue, w: nat, size: nat, asnTag: byte) returns (written: nat)
    requires 0 < size <= 8 && w < Pow2(8 * size)
    modifies out
    ensures |UnsignedContents(w, asnTag)| < LWORD
    ensures out.data == old(out.data) + EncodedUnsigned(w, asnTag) && written == |EncodedUnsigned(w, asnTag)|
  {
    hide Pow2, DerLength, UnsignedContents;
    ContentsSize(w, size, asnTag);
    var buf := new byte[size + 1](_ => 0);
    var bc;
    if asnTag == BOOLEAN {
      buf[size] := if w != 0 then 0xff else 0;
      bc := 1;
      BooleanOctet(w);
      assert buf[size + 1 - bc..] == [buf[size]];
    } else {
      FillOctets(buf, w, size);
      bc := LeastCount(buf, w, size, asnTag);
    }
    out.Put([asnTag]);
    var lengthBytes := DERLengthEncode(out, bc);
    out.Put(buf[size + 1 - bc..]);
    written := 1 + lengthBytes + bc;
  }

  lemma BooleanOctet(w: nat)
    ensures UnsignedContents(w, BOOLEAN) == [if w != 0 then 0xff else 0]
  {
  }

  /** The second loop: zero octets are left out in front, but not before one with its top bit set. */
  method LeastCount(buf: array<byte>, w: nat, size: nat, asnTag: byte) returns (bc: nat)
    requires buf.Length == size + 1 && 0 < size && w < Pow2(8 * size) && asnTag != BOOLEAN
    requires buf[0] == 0 && buf[..][1..] == BigEndian(w, size)
    ensures 0 < bc <= size + 1 && buf[size + 1 - bc..] == UnsignedContents(w, asnTag)
  {
    hide *;
    ghost var all := buf[..];
    bc := size;
    while bc > 1 && buf[size + 1 - bc] == 0
      invariant 1 <= bc <= size && w < Pow2(8 * bc) && LastOctets(all, bc) == BigEndian(w, bc)
      invariant all[size - bc] == 0
    {
      LastLess(all, bc);
      StripOne(LastOctets(all, bc), w, bc);
      bc := bc - 1;
    }
    LastLess(all, bc);
    LeastContents(LastOctets(all, bc), w, bc, asnTag);
    if buf[size + 1 - bc] >= 0x80 {
      LastLess(all, bc + 1);
      bc := bc + 1;
    }
  }

  function LastOctets(s: bytes, n: nat): (r: bytes)
    requires n <= |s|
    ensures r == s[|s| - n..] && |r| == n
  {
    s[|s| - n..]
  }

  lemma LastLess(s: bytes, n: nat)
    requires 0 < n <= |s|
    ensures LastOctets(s, n)[0] == s[|s| - n]
    ensures LastOctets(s, n)[1..] == LastOctets(s, n - 1)
    ensures LastOctets(s, n) == [s[|s| - n]] + LastOctets(s, n - 1)
  {
  }

  /** The least octets are the contents, or are so behind a zero. */
  lemma LeastContents(octets: bytes, w: nat, bc: nat, asnTag: byte)
    requires bc > 0 && w < Pow2(8 * bc) && octets == BigEndian(w, bc) && asnTag != BOOLEAN
    requires bc > 1 ==> octets[0] != 0
    ensures UnsignedContents(w, asnTag) == if octets[0] >= 0x80 then [0] + octets else octets
  {
    hide BigEndian, Pow2, BytePrecision;
    FirstOctet(w, bc);
    LeastOctets(w, bc);
  }

  lemma StripOne(octets: bytes, w: nat, bc: nat)
    requires bc > 1 && w < Pow2(8 * bc) && octets == BigEndian(w, bc) && octets[0] == 0
    ensures w < Pow2(8 * (bc - 1)) && octets[1..] == BigEndian(w, bc - 1)
  {
    hide *;
    FirstOctet(w, bc);
  }

  /** The first loop: all octets of w behind a zero. */
  method FillOctets(buf: array<byte>, w: nat, size: nat)
    requires buf.Length == size + 1 && w < Pow2(8 * size) && buf[0] == 0
    modifies buf
    ensures buf[0] == 0 && buf[..][1..] == BigEndian(w, size)
  {
    hide *;
    ShrAll(w, size);
    for i := 0 to size
      invariant buf[0] == 0 && buf[1..i + 1] == BigEndian(Shr(w, 8 * (size - i)), i)
    {
      ByteAtPlace(w, size - i, i);
      buf[i + 1] := Shr(w, 8 * (size - 1 - i)) % 256;
      assert buf[1..i + 2] == buf[1..i + 1] + [buf[i + 1]];
    }
    assert buf[1..size + 1] == buf[..][1..];
    SmallShifts(w);
  }

  lemma ShrAll(w: nat, size: nat)
    ensures BigEndian(Shr(w, 8 * size), 0) == []
  {
  }

  /** The octets with which both decoders begin: the tag, and a definite length. */
  function ParseHead(s: bytes, asnTag: byte): Option<(nat, bytes)> {
    if s == [] || s[0] != asnTag then None
    else match ParseLength(s[1..])
      case None => None
      case Some((Indefinite, _)) => None
      case Some((Definite(length), rest)) => Some((length, rest))
  }

  method DecodeHead(source: Store, asnTag: byte) returns (ok: bool, length: nat)
    requires source.Valid()
    modifies source.repr
    ensures match ParseHead(old(source.Src().Available()), asnTag)
      case None => !ok
      case Some((n, rest)) =>
        ok && length == n && Advanced(old(source.Src()), source.Src(), rest) && source.Src().Available() == rest
  {
    hide Advanced, ParseLength;
    length := 0;
    ghost var src := source.Src();
    ghost var all := src.Available();
    var b: byte;
    ok, b := source.Get();
    if !ok || b != asnTag {
      return false, 0;
    }
    AdvancedBy(src, 1);
    ghost var now := source.Src();
    var definite: bool;
    ok, length, definite := BERLengthDecode(source);
    if !ok || !definite {
      return false, 0;
    }
    ghost var rest := source.Src().Available();
    AdvancedBy(now, |all| - 1 - |rest|);
    AdvancedMore(src, now, source.Src(), all[1..], rest);
  }

  /** `BERDecodeUnsigned` */
  method BERDecodeUnsigned(source: Store, size: nat, asnTag: byte, minValue: nat, maxValue: nat) returns (ok: bool, w: nat)
    requires source.Valid() && size > 0
    modifies source.repr
    ensures match ParseUnsigned(old(source.Src().Available()), size, asnTag, minValue, maxValue)
      case None => !ok
      case Some((n, rest)) => ok && w == n && Advanced(old(source.Src()), source.Src(), rest)
  {
    hide Value, ParseLength, Advanced, Stripped;
    w := 0;
    ghost var src := source.Src();
    var bc: nat;
    ok, bc := DecodeHead(source, asnTag);
    if !ok {
      return;
    }
    ghost var s2, rest := source.Src(), source.Src().Available();
    var buf := source.TransferTo(bc);
    if |buf| < bc || (asnTag == BOOLEAN && bc != 1) || ((asnTag == INTEGER || asnTag == ENUMERATED) && bc == 0) {
      return false, 0;
    }
    assert buf == rest[..bc];
    AdvancedBy(s2, bc);
    AdvancedMore(src, s2, source.Src(), rest, rest[bc..]);
    ok, w := Number(buf, size);
    if w < minValue || w > maxValue {
      ok := false;
    }
  }

  /** Leading zeros skipped while there are too many octets, and the rest as a number. */
  method Number(buf: bytes, size: nat) returns (ok: bool, w: nat)
    ensures ok == (|Stripped(buf, size)| <= size) && (ok ==> w == Value(Stripped(buf, size)))
  {
    hide Value, Stripped;
    var ptr := SkipZeros(buf, size);
    w := 0;
    ok := |buf| - ptr <= size;
    if ok {
      w := ReadNumber(buf[ptr..]);
    }
  }

  /** The first loop. */
  method SkipZeros(buf: bytes, size: nat) returns (ptr: nat)
    ensures ptr <= |buf| && buf[ptr..] == Stripped(buf, size)
  {
    var bc := |buf|;
    ptr := 0;
    assert buf[0..] == buf;
    while bc > size && buf[ptr] == 0
      invariant 0 <= bc && ptr + bc == |buf| && Stripped(buf[ptr..], size) == Stripped(buf, size)
      decreases bc
    {
      assert buf[ptr..][1..] == buf[ptr + 1..];
      bc := bc - 1;
      ptr := ptr + 1;
    }
  }

  /** The second loop. */
  method ReadNumber(c: bytes) returns (w: nat)
    ensures w == Value(c)
  {
    hide Value;
    w := 0;
    ValueNone();
    for i := 0 to |c|
      invariant w == Value(c[..i])
    {
      ValueSnoc(c[..i], c[i]);
      assert c[..i + 1] == c[..i] + [c[i]];
      w := 256 * w + c[i];
    }
    assert c[..|c|] == c;
  }

  lemma ShrSeven(n: nat)
    ensures Shr(n, 7) == n / 128
  {
    ShrIsDivision(n, 7);
    assert Pow2(3) == 8 && Pow2(7) == 128;
  }

  /** One more octet of the arc, from the top. */
  lemma NextHighOctet(v: nat, i: nat)
    requires Shr(v, i) > 0
    ensures HighOctets(Shr(v, i)) == HighOctets(Shr(v, i + 7)) + [0x80 + Shr(v, i) % 128]
  {
    hide Shr;
    ShrShr(v, i, 7);
    ShrSeven(Shr(v, i));
  }

  /** Where the loop starts: nothing is above it, and what is at it is not zero. */
  lemma FirstShift(v: nat, i: nat)
    requires i % 7 == 0 && i < (if BitCount(v) > 7 then BitCount(v) else 7) <= i + 7
    ensures HighOctets(Shr(v, i + 7)) == []
    ensures i > 0 ==> Shr(v, i) > 0
  {
    ShrBeyond(v, i + 7);
    if i > 0 {
      ShrTop(v);
      ShrShr(v, i, BitCount(v) - 1 - i);
      if Shr(v, i) == 0 {
        ShrBeyond(0, BitCount(v) - 1 - i);
      }
    }
  }

  lemma ShrLess(v: nat, i: nat, j: nat)
    requires j <= i && Shr(v, i) > 0
    ensures Shr(v, j) > 0
  {
    ShrShr(v, j, i - j);
    if Shr(v, j) == 0 {
      ShrBeyond(0, i - j);
    }
  }

  /** `OID::EncodeValue` */
  method EncodeValue(bt: ByteQueue, v: nat)
    modifies bt
    ensures bt.data == old(bt.data) + EncodedArc(v)
  {
    hide HighOctets, Shr, BitCount;
    var precision := BitCount(v);
    var start := if precision > 7 then precision else 7;
    var i := (start + 6) / 7 * 7 - 7;
    FirstShift(v, i);
    while i > 0
      invariant 0 <= i && i % 7 == 0 && (i > 0 ==> Shr(v, i) > 0)
      invariant bt.data == old(bt.data) + HighOctets(Shr(v, i + 7))
    {
      NextHighOctet(v, i);
      ShrLess(v, i, i - 7);
      bt.Put([0x80 + Shr(v, i) % 128]);
      i := i - 7;
    }
    ShrSeven(v);
    bt.Put([v % 128]);
  }

  /** `OID::DecodeValue`, with the number of octets read. */
  method DecodeValue(bt: Store) returns (ok: bool, i: nat, v: nat)
    requires bt.Valid()
    modifies bt.repr
    ensures var all := old(bt.Src().Available());
      match ParseArc(all, 0)
      case None => !ok
      case Some((w, rest)) =>
        ok && v == w && i == |all| - |rest| && Advanced(old(bt.Src()), bt.Src(), rest) && bt.Src().Available() == rest
  {
    hide Advanced, ParseArc, Source.Available, Source.After;
    ghost var src := bt.Src();
    ghost var all, s := src.Available(), src.Available();
    AdvancedNothing(src);
    i, v := 0, 0;
    while true
      invariant Advanced(src, bt.Src(), s) && bt.Src().Available() == s && i + |s| == |all|
      invariant ParseArc(all, 0) == ParseArc(s, v)
      decreases |s|
    {
      ghost var now := bt.Src();
      ParseArcStep(s, v);
      var b: byte;
      ok, b := bt.Get();
      if !ok {
        return;
      }
      i := i + 1;
      if v >= 0x200_0000 {
        return false, i, v;
      }
      v := 128 * v + b % 128;
      AdvancedBy(now, 1);
      AdvancedMore(src, now, bt.Src(), s, s[1..]);
      s := s[1..];
      if b < 0x80 {
        return true, i, v;
      }
    }
  }

  lemma ParseArcStep(s: bytes, v: nat)
    ensures ParseArc(s, v) ==
      if s == [] || v >= 0x200_0000 then None
      else if s[0] < 0x80 then Some((128 * v + s[0] % 128, s[1..]))
      else ParseArc(s[1..], 128 * v + s[0] % 128)
  {
  }

  /** `OID` */
  class OID {
    var values: seq<nat>

    constructor (values: seq<nat>)
      ensures this.values == values
    {
      this.values := values;
    }

    method DEREncode(bt: ByteQueue)
      requires |values| >= 2 && |OidContents(values)| < LWORD
      modifies bt
      ensures bt.data == old(bt.data) + EncodedOid(values)
    {
      hide EncodedArc, DerLength;
      var temp := new ByteQueue();
      temp.Put([(values[0] * 40 + values[1]) % WORD32 % 256]);
      ghost var first := temp.data;
      for i := 2 to |values|
        invariant temp.data + EncodedArcs(values[i..]) == first + EncodedArcs(values[2..])
        invariant bt.data == old(bt.data)
      {
        assert values[i..][0] == values[i] && values[i..][1..] == values[i + 1..];
        EncodeValue(temp, values[i]);
      }
      assert values[|values|..] == [] && temp.data + [] == temp.data;
      assert temp.data == OidContents(values);
      bt.Put([OBJECT_IDENTIFIER]);
      var _ := DERLengthEncode(bt, |temp.data|);
      bt.Put(temp.data);
    }

    /** A failure leaves the values in any state. */
    method BERDecode(bt: Store) returns (ok: bool)
      requires bt.Valid() && this !in bt.repr
      modifies this, bt.repr
      ensures match ParseOid(old(bt.Src().Available()))
        case None => !ok
        case Some((decoded, rest)) => ok && values == decoded && Advanced(old(bt.Src()), bt.Src(), rest)
    {
      hide Advanced, ParseLength, ParseArc, ParseArcs;
      ghost var src := bt.Src();
      var length: nat;
      ok, length := DecodeHead(bt, OBJECT_IDENTIFIER);
      if !ok || length < 1 {
        return false;
      }
      ghost var s2, rest := bt.Src(), bt.Src().Available();
      var b: byte;
      ok, b := bt.Get();
      if !ok {
        return;
      }
      AdvancedBy(s2, 1);
      AdvancedMore(src, s2, bt.Src(), rest, rest[1..]);
      length := length - 1;
      values := [b / 40, b % 40];
      ok := DecodeArcs(bt, length, src, rest[1..]);
    }

    /** The loop over the other arcs. */
    method DecodeArcs(bt: Store, total: nat, ghost src: Source, ghost all: bytes) returns (ok: bool)
      requires bt.Valid() && this !in bt.repr && bt.Src().Available() == all && Advanced(src, bt.Src(), all)
      modifies this, bt.repr
      ensures match ParseArcs(all, total)
        case None => !ok
        case Some((arcs, rest)) => ok && values == old(values) + arcs && Advanced(src, bt.Src(), rest)
    {
      hide Advanced, ParseArc, ParseArcs, ArcsProgress;
      ghost var got: seq<nat>, s, was := [], all, values;
      var length := total;
      ArcsStart(all, total);
      ok := true;
      while length > 0
        invariant 0 <= length && ok && bt.Src().Available() == s && Advanced(src, bt.Src(), s)
        invariant values == was + got && ArcsProgress(all, total, got, s, length)
      {
        ghost var now := bt.Src();
        ArcsStep(all, total, got, s, length);
        var valueLen: nat, v: nat;
        ok, valueLen, v := DecodeValue(bt);
        if !ok || valueLen > length {
          return false;
        }
        ghost var rest := ParseArc(s, 0).value.1;
        AdvancedMore(src, now, bt.Src(), s, rest);
        got, s := got + [v], rest;
        values := values + [v];
        length := length - valueLen;
      }
      ArcsEnd(all, total, got, s);
    }
  }

  /** Up to the octets s, of which `length` belong to arcs, the arcs of `all` have been decoded to `got`. */
  ghost predicate ArcsProgress(all: bytes, total: nat, got: seq<nat>, s: bytes, length: nat) {
    ParseArcs(all, total) == match ParseArcs(s, length)
                             case None => None
                             case Some((arcs, rest)) => Some((got + arcs, rest))
  }

  lemma ArcsStart(all: bytes, total: nat)
    ensures ArcsProgress(all, total, [], all, total)
  {
    hide ParseArcs;
    if ParseArcs(all, total).Some? {
      assert [] + ParseArcs(all, total).value.0 == ParseArcs(all, total).value.0;
    }
  }

  /** Another arc, or a failure. */
  lemma ArcsStep(all: bytes, total: nat, got: seq<nat>, s: bytes, length: nat)
    requires ArcsProgress(all, total, got, s, length) && length > 0
    ensures match ParseArc(s, 0)
      case None => ParseArcs(all, total) == None
      case Some((v, rest)) =>
        var used := |s| - |rest|;
        if used > length then ParseArcs(all, total) == None
        else ArcsProgress(all, total, got + [v], rest, length - used)
  {
    hide ParseArc;
    match ParseArc(s, 0)
    case None =>
    case Some((v, rest)) =>
      var used := |s| - |rest|;
      if used <= length {
        match ParseArcs(rest, length - used)
        case None =>
        case Some((arcs, after)) => assert got + ([v] + arcs) == got + [v] + arcs;
      }
  }

  lemma ArcsEnd(all: bytes, total: nat, got: seq<nat>, s: bytes)
    requires ArcsProgress(all, total, got, s, 0)
    ensures ParseArcs(all, total) == Some((got, s))
  {
    assert got + [] == got;
  }
}
