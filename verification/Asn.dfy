/** The encoders and decoders of `asn.cpp` and `asn.h`, on queues and nested decoders. */
module Asn {
  import opened Numbers
  import opened Bytes
  import opened Wrappers
  import opened Ber
  import opened AsnSources
  import opened BerTrees

  /** `ByteQueue`, as far as encoders put to it. */
  class ByteQueue {
    var data: bytes

    constructor ()
      ensures data == []
    {
      data := [];
    }

    method Put(s: bytes)
      modifies this
      ensures data == old(data) + s
    {
      data := data + s;
    }
  }

  /** A queue to read from, or a `BERGeneralDecoder` on another source. */
  class Store {
    const outer: Store?
    const definite: bool
    var data: bytes
    var length: nat
    var finished: bool
    ghost const repr: set<object>
    ghost const depth: nat

    /** A chain of decoders with a queue at its end. */
    ghost predicate Valid()
      decreases depth
    {
      if outer == null then repr == {this}
      else this !in outer.repr && repr == {this} + outer.repr && depth == outer.depth + 1 && outer.Valid()
    }

    ghost function Src(): Source
      requires Valid()
      reads repr
      decreases depth
    {
      if outer == null then Queue(data) else Decoder(definite, length, outer.Src())
    }

    constructor OfQueue(data: bytes)
      ensures Valid() && outer == null && Src() == AsnSources.Queue(data) && fresh(repr)
    {
      outer, definite := null, false;
      this.data, length, finished := data, 0, false;
      repr, depth := {this}, 0;
    }

    constructor OfDecoder(source: Store, definite: bool, length: nat)
      requires source.Valid()
      ensures Valid() && outer == source && repr == {this} + source.repr
      ensures Src() == AsnSources.Decoder(definite, length, source.Src())
    {
      outer, this.definite := source, definite;
      data, this.length, finished := [], length, false;
      repr, depth := {this} + source.repr, source.depth + 1;
    }

    /** At most n octets, through all decoders on the way: each clamps the request and is charged. */
    method TransferTo(n: nat) returns (s: bytes)
      requires Valid()
      modifies repr
      ensures var all := old(Src().Available());
        s == (if n < |all| then all[..n] else all) && Src() == old(Src()).After(|s|)
      decreases depth
    {
      hide Source.Available, Source.After;
      if outer == null {
        TakeOfQueue(data, n);
        s := if n < |data| then data[..n] else data;
        data := data[|s|..];
      } else {
        TakeThrough(definite, length, outer.Src(), n);
        s := outer.TransferTo(if definite && n > length then length else n);
        if definite {
          length := length - |s|;
        }
      }
    }

    /** `Get` of one octet. */
    method Get() returns (ok: bool, b: byte)
      requires Valid()
      modifies repr
      ensures var all := old(Src().Available());
        && ok == (all != [])
        && (ok ==> b == all[0] && Src() == old(Src()).After(1) && Src().Available() == all[1..])
    {
      ghost var src := Src();
      var s := TransferTo(1);
      ok, b := s != [], if s != [] then s[0] else 0;
      if ok {
        AvailableAfter(src, 1);
      }
    }

    /** At most n octets without consuming them: `CopyRangeTo2` from the start. */
    method Peek(n: nat) returns (s: bytes)
      requires Valid()
      ensures var all := Src().Available(); s == if n < |all| then all[..n] else all
      decreases depth
    {
      if outer == null {
        s := if n < |data| then data[..n] else data;
      } else {
        s := outer.Peek(if definite && n > length then length else n);
      }
    }

    /** For a decoder: a definite length is used up, or the end-of-contents octets are next. */
    method EndReached() returns (end: bool)
      requires Valid() && outer != null
      ensures end == if definite then length == 0 else IsEnd(Src().Available())
    {
      if definite {
        end := length == 0;
      } else {
        var i := outer.Peek(2);
        end := |i| == 2 && i[0] == 0 && i[1] == 0;
      }
    }

    /** For a decoder: a definite length must be used up; the end-of-contents octets are removed. */
    method MessageEnd() returns (ok: bool)
      requires Valid() && outer != null
      modifies repr
      ensures var all := old(outer.Src().Available());
        && ok == (if definite then old(length) == 0 else IsEnd(all))
        && (ok ==> outer.Src() == old(outer.Src()).After(if definite then 0 else 2))
    {
      finished := true;
      if definite {
        AfterNothing(outer.Src());
        ok := length == 0;
      } else {
        var i := outer.TransferTo(2);
        ok := |i| == 2 && i[0] == 0 && i[1] == 0;
      }
    }
  }

  /** `BERLengthDecode` */
  method BERLengthDecode(bt: Store) returns (ok: bool, length: nat, definiteLength: bool)
    requires bt.Valid()
    modifies bt.repr
    ensures var all := old(bt.Src().Available());
      match ParseLength(all)
      case None => !ok
      case Some((len, rest)) =>
        && ok && (if definiteLength then len == Definite(length) else len == Indefinite && length == 0)
        && bt.Src() == old(bt.Src()).After(|all| - |rest|) && bt.Src().Available() == rest
  {
    length, definiteLength := 0, false;
    ghost var src := bt.Src();
    ghost var all := src.Available();
    var b: byte;
    ok, b := bt.Get();
    if !ok {
      return;
    }
    if b < 0x80 {
      definiteLength, length := true, b;
    } else {
      var lengthBytes := b - 0x80;
      if lengthBytes == 0 {
        return;
      }
      definiteLength := true;
      ghost var mid := bt.Src();
      ok, length := LengthBytes(bt, lengthBytes);
      if ok {
        AfterAfter(src, 1, lengthBytes);
      }
    }
  }

  /** The loop over the octets of a long length. */
  method LengthBytes(bt: Store, count: nat) returns (ok: bool, length: nat)
    requires bt.Valid()
    modifies bt.repr
    ensures var all := old(bt.Src().Available());
      match LengthOctets(all, count, 0)
      case None => !ok
      case Some((len, rest)) =>
        && ok && length == len && count <= |all| && rest == all[count..]
        && bt.Src() == old(bt.Src()).After(count) && bt.Src().Available() == rest
  {
    hide Source.Available, Source.After;
    length, ok := 0, true;
    ghost var src := bt.Src();
    ghost var all := src.Available();
    AfterNothing(src);
    ghost var n := 0;
    var lengthBytes := count;
    while lengthBytes > 0
      invariant ok && 0 <= n <= |all| && n + lengthBytes == count
      invariant bt.Src() == src.After(n) && bt.Src().Available() == all[n..]
      invariant LengthOctets(all, count, 0) == LengthOctets(all[n..], lengthBytes, length)
    {
      lengthBytes := lengthBytes - 1;
      if length >= 0x100_0000_0000_0000 {
        return false, 0;
      }
      var b: byte;
      ok, b := bt.Get();
      if !ok {
        return;
      }
      AfterAfter(src, n, 1);
      n := n + 1;
      length := 256 * length + b;
    }
  }

  /** `BERGeneralDecoder::Init`: the tag and the length; no decoder comes of a failure. */
  method OpenDecoder(source: Store, asnTag: byte) returns (decoder: Store?)
    requires source.Valid()
    modifies source.repr
    ensures var all := old(source.Src().Available());
      if all == [] || all[0] != asnTag || ParseLength(all[1..]).None?
         || (ParseLength(all[1..]).value.0.Indefinite? && !Constructed(asnTag))
      then decoder == null
      else
        var (len, rest) := ParseLength(all[1..]).value;
        && decoder != null && fresh(decoder) && decoder.Valid() && decoder.outer == source
        && decoder.repr == {decoder} + source.repr
        && source.Src() == old(source.Src()).After(|all| - |rest|) && source.Src().Available() == rest
        && decoder.definite == len.Definite? && (len.Definite? ==> decoder.length == len.value)
  {
    ghost var src := source.Src();
    ghost var all := src.Available();
    var ok, b := source.Get();
    if !ok || b != asnTag {
      return null;
    }
    var length: nat;
    var definiteLength: bool;
    ok, length, definiteLength := BERLengthDecode(source);
    if !ok || (!definiteLength && !Constructed(asnTag)) {
      return null;
    }
    AfterAfter(src, 1, |all| - 1 - |ParseLength(all[1..]).value.1|);
    decoder := new Store.OfDecoder(source, definiteLength, length);
  }

  /** The octets of n from one place up, and the one at that place. */
  lemma ByteAtPlace(n: nat, j: nat, len: nat)
    requires j > 0
    ensures BigEndian(Shr(n, 8 * (j - 1)), len + 1) == BigEndian(Shr(n, 8 * j), len) + [Shr(n, 8 * (j - 1)) % 256]
  {
    hide BigEndian;
    ShrShr(n, 8 * (j - 1), 8);
    ShrByte(Shr(n, 8 * (j - 1)));
    BigEndianStep(Shr(n, 8 * (j - 1)), len);
  }

  lemma BigEndianStep(n: nat, len: nat)
    ensures BigEndian(n, len + 1) == BigEndian(n / 256, len) + [n % 256]
  {
  }

  lemma ShrByte(n: nat)
    ensures Shr(n, 8) == n / 256
  {
    Pow2OfEight();
    ShrIsDivision(n, 8);
  }

  /** Nothing is left above all the octets. */
  lemma NothingAbove(n: nat)
    ensures BigEndian(Shr(n, 8 * BytePrecision(n)), 0) == [] && Shr(n, 0) == n
  {
  }

  /** `DERLengthEncode` */
  method DERLengthEncode(bt: ByteQueue, length: nat) returns (i: nat)
    requires length < LWORD
    modifies bt
    ensures bt.data == old(bt.data) + DerLength(length) && i == |DerLength(length)|
  {
    hide BigEndian, Shr, BytePrecision;
    i := 0;
    if length <= 0x7f {
      bt.Put([length]);
      i := i + 1;
    } else {
      var precision := BytePrecision(length);
      WordPrecision(length);
      NothingAbove(length);
      bt.Put([precision + 0x80]);
      i := i + 1;
      var j := precision;
      while j > 0
        invariant 0 <= j <= precision && i == 1 + precision - j
        invariant bt.data == old(bt.data) + ([precision + 0x80] + BigEndian(Shr(length, 8 * j), precision - j))
      {
        ByteAtPlace(length, j, precision - j);
        bt.Put([Shr(length, 8 * (j - 1)) % 256]);
        i := i + 1;
        j := j - 1;
      }
    }
  }

  /** Tag, length and contents. */
  function Wrapped(tag: byte, content: bytes): bytes {
    [tag] + DerLength(|content| % LWORD) + content
  }

  /** A queue of its own for the contents, put out behind tag and length when they are complete. */
  class DERGeneralEncoder {
    const outQueue: ByteQueue
    const asnTag: byte
    const queue: ByteQueue
    var finished: bool

    constructor (outQueue: ByteQueue, asnTag: byte)
      ensures this.outQueue == outQueue && this.asnTag == asnTag && fresh(queue) && queue.data == []
    {
      this.outQueue, this.asnTag, finished := outQueue, asnTag, false;
      queue := new ByteQueue();
    }

    method MessageEnd()
      requires queue != outQueue
      modifies this, queue, outQueue
      ensures outQueue.data == old(outQueue.data) + Wrapped(asnTag, old(queue.data))
    {
      hide DerLength;
      finished := true;
      var length := |queue.data| % LWORD;
      outQueue.Put([asnTag]);
      var _ := DERLengthEncode(outQueue, length);
      outQueue.Put(queue.data);
      queue.data := [];
    }
  }

  /** Up to the octets s the children of `all` have been re-encoded to `done`. */
  ghost predicate Progress(all: bytes, done: bytes, s: bytes) {
    ReencodeAll(all) == match ReencodeAll(s)
                        case None => None
                        case Some((more, after)) => Some((done + more, after))
  }

  lemma ProgressStart(all: bytes)
    ensures Progress(all, [], all)
  {
    hide ReencodeAll;
    if ReencodeAll(all).Some? {
      assert [] + ReencodeAll(all).value.0 == ReencodeAll(all).value.0;
    }
  }

  /** Another child, or the failure to re-encode it. */
  lemma ProgressStep(all: bytes, done: bytes, s: bytes)
    requires Progress(all, done, s) && !IsEnd(s)
    ensures match Reencode(s)
      case None => ReencodeAll(all) == None
      case Some((out, rest)) => Progress(all, done + out, rest)
  {
    hide Reencode;
    match Reencode(s)
    case None =>
    case Some((out, rest)) =>
      match ReencodeAll(rest)
      case None =>
      case Some((more, after)) => assert done + (out + more) == done + out + more;
  }

  lemma ProgressEnd(all: bytes, done: bytes, s: bytes)
    requires Progress(all, done, s) && IsEnd(s)
    ensures ReencodeAll(all) == Some((done, s))
  {
    assert done + [] == done;
  }

  /** What is read of a source is a suffix of what was there. */
  ghost predicate Advanced(src: Source, now: Source, rest: bytes) {
    && |rest| <= |src.Available()| && now == src.After(|src.Available()| - |rest|) && now.Available() == rest
  }

  lemma AdvancedMore(src: Source, mid: Source, now: Source, s: bytes, rest: bytes)
    requires Advanced(src, mid, s) && Advanced(mid, now, rest)
    ensures Advanced(src, now, rest)
  {
    AfterAfter(src, |src.Available()| - |s|, |s| - |rest|);
  }

  lemma AdvancedBy(src: Source, n: nat)
    requires n <= |src.Available()|
    ensures Advanced(src, src.After(n), src.Available()[n..])
  {
    AvailableAfter(src, n);
  }

  /** The source below a decoder advances with it. */
  lemma OuterAdvances(src: Source, now: Source, rest: bytes)
    requires src.Decoder? && Advanced(src, now, rest)
    ensures now.Decoder? && |rest| <= |src.Available()| <= |src.inner.Available()|
    ensures var n := |src.Available()| - |rest|;
      && Advanced(src.inner, now.inner, src.inner.Available()[n..])
      && now.definite == src.definite && (src.definite ==> n <= src.length && now.length == src.length - n)
  {
    AdvancedBy(src.inner, |src.Available()| - |rest|);
  }

  /** The contents of an element as they come out, and what follows the element. */
  function Contents(definite: bool, length: nat, s: bytes): Option<(bytes, bytes)> {
    if definite then
      if length > |s| then None else Some((s[..length], s[length..]))
    else match ReencodeAll(s)
      case None => None
      case Some((out, rest)) => Some((out, rest[2..]))
  }

  /** An element re-encoded, once its tag and length have been read. */
  lemma ReencodeWrapped(s: bytes, definite: bool, length: nat, rest: bytes)
    requires s != [] && ParseLength(s[1..]) == Some((if definite then Definite(length) else Indefinite, rest))
    requires definite || Constructed(s[0])
    ensures Reencode(s) == match Contents(definite, length, rest)
                           case None => None
                           case Some((content, after)) => Some((Wrapped(s[0], content), after))
  {
    hide ParseLength, ReencodeAll, Constructed, DerLength;
  }

  lemma ReencodeRefused(s: bytes)
    requires s == [] || ParseLength(s[1..]).None?
          || (ParseLength(s[1..]).value.0.Indefinite? && !Constructed(s[0]))
    ensures Reencode(s) == None
  {
    hide ReencodeAll;
  }

  /** `DERReencode`: reads one element and puts it out with definite lengths along indefinite chains. */
  method DERReencode(source: Store, dest: ByteQueue) returns (ok: bool)
    requires source.Valid() && dest !in source.repr
    modifies source.repr, dest
    ensures match Reencode(old(source.Src().Available()))
      case None => !ok
      case Some((out, rest)) =>
        ok && dest.data == old(dest.data) + out && Advanced(old(source.Src()), source.Src(), rest)
    decreases |source.Src().Available()|, 0
  {
    hide Advanced, ParseLength, Reencode, Contents, Wrapped, Constructed;
    ghost var src := source.Src();
    ghost var all := src.Available();
    var peeked := source.Peek(1);
    var tag: byte := if peeked == [] then 0 else peeked[0];
    var decoder := OpenDecoder(source, tag);
    if decoder == null {
      ReencodeRefused(all);
      return false;
    }
    ghost var mid := source.Src();
    ghost var rest := mid.Available();
    AdvancedBy(src, |all| - |rest|);
    ReencodeWrapped(all, decoder.definite, decoder.length, rest);
    ghost var contents := Contents(decoder.definite, decoder.length, rest);
    var encoder := new DERGeneralEncoder(dest, tag);
    ok := ReencodeContents(decoder, encoder.queue);
    if ok {
      assert encoder.queue.data == contents.value.0;
      AdvancedMore(src, mid, source.Src(), rest, contents.value.1);
      encoder.MessageEnd();
    }
  }

  /** The contents of an element of definite length, and the end of its decoder. */
  method CopyContents(decoder: Store, dest: ByteQueue) returns (ok: bool)
    requires decoder.Valid() && decoder.outer != null && decoder.definite && dest !in decoder.repr
    modifies decoder.repr, dest
    ensures var all, n := old(decoder.outer.Src().Available()), old(decoder.length);
      && ok == (n <= |all|)
      && (ok ==> dest.data == old(dest.data) + all[..n] && Advanced(old(decoder.outer.Src()), decoder.outer.Src(), all[n..]))
  {
    hide Advanced, Source.Available, Source.After, IsEnd;
    ghost var src := decoder.Src();
    var s := decoder.TransferTo(decoder.length);
    dest.Put(s);
    CopiedOf(src, s);
    AfterNothing(decoder.outer.Src());
    ok := decoder.MessageEnd();
  }

  /** What a decoder of definite length gives, when all of its length is asked for. */
  lemma CopiedOf(src: Source, s: bytes)
    requires src.Decoder? && src.definite
    requires var a := src.Available(); s == if src.length < |a| then a[..src.length] else a
    ensures var all := src.inner.Available();
      && |s| <= |src.Available()| && |s| <= src.length && |s| <= |all|
      && src.After(|s|) == Decoder(true, src.length - |s|, src.inner.After(|s|))
      && (|s| == src.length <==> src.length <= |all|)
      && s == all[..|s|] && Advanced(src.inner, src.inner.After(|s|), all[|s|..])
  {
    AdvancedBy(src.inner, |s|);
  }

  /** The contents of an element in either form, and the end of its decoder. */
  method ReencodeContents(decoder: Store, dest: ByteQueue) returns (ok: bool)
    requires decoder.Valid() && decoder.outer != null && dest !in decoder.repr
    modifies decoder.repr, dest
    ensures match Contents(decoder.definite, old(decoder.length), old(decoder.outer.Src().Available()))
      case None => !ok
      case Some((content, after)) =>
        ok && dest.data == old(dest.data) + content && Advanced(old(decoder.outer.Src()), decoder.outer.Src(), after)
    decreases |decoder.outer.Src().Available()|, 2
  {
    hide IsEnd, ReencodeAll, Advanced;
    if decoder.definite {
      ok := CopyContents(decoder, dest);
      return;
    }
    ghost var src, mid := decoder.Src(), decoder.outer.Src();
    assert src.Available() == mid.Available();
    ok := ReencodeChildren(decoder, dest);
    if ok {
      ghost var rest := ReencodeAll(mid.Available()).value.1;
      EndAdvances(src, decoder.Src(), rest);
      ok := decoder.MessageEnd();
    }
  }

  /** The end-of-contents octets are two. */
  lemma EndAdvances(src: Source, now: Source, rest: bytes)
    requires src.Decoder? && !src.definite && Advanced(src, now, rest) && IsEnd(rest)
    ensures now.Decoder? && now.inner.Available() == rest && |rest| >= 2
    ensures Advanced(src.inner, now.inner.After(2), rest[2..])
  {
    hide Advanced;
    OuterAdvances(src, now, rest);
    AdvancedTo(src, now, rest);
    assert now.inner.Available() == rest;
    AdvancedBy(now.inner, 2);
    AdvancedMore(src.inner, now.inner, now.inner.After(2), rest, rest[2..]);
  }

  /** The loop over the children of an element of indefinite length. */
  method ReencodeChildren(decoder: Store, dest: ByteQueue) returns (ok: bool)
    requires decoder.Valid() && decoder.outer != null && !decoder.definite && dest !in decoder.repr
    modifies decoder.repr, dest
    ensures match ReencodeAll(old(decoder.Src().Available()))
      case None => !ok
      case Some((out, rest)) =>
        ok && dest.data == old(dest.data) + out && Advanced(old(decoder.Src()), decoder.Src(), rest)
    decreases |decoder.Src().Available()|, 1
  {
    hide Advanced, IsEnd, Reencode, ReencodeAll, Progress;
    ghost var src := decoder.Src();
    ghost var all, done, s := src.Available(), [], src.Available();
    ProgressStart(all);
    AdvancedNothing(src);
    ok := true;
    var end := decoder.EndReached();
    while !end
      invariant ok && end == IsEnd(s) && |s| <= |all| && decoder.Src().Available() == s
      invariant Advanced(src, decoder.Src(), s) && Progress(all, done, s) && dest.data == old(dest.data) + done
      decreases |s|
    {
      ghost var now := decoder.Src();
      ProgressStep(all, done, s);
      ok := DERReencode(decoder, dest);
      if !ok {
        return;
      }
      ghost var (out, rest) := Reencode(s).value;
      AdvancedMore(src, now, decoder.Src(), s, rest);
      AdvancedTo(src, decoder.Src(), rest);
      done, s := done + out, rest;
      end := decoder.EndReached();
    }
    ProgressEnd(all, done, s);
  }

  lemma AdvancedNothing(src: Source)
    ensures Advanced(src, src, src.Available())
  {
    AfterNothing(src);
  }

  lemma AdvancedTo(src: Source, now: Source, rest: bytes)
    requires Advanced(src, now, rest)
    ensures |rest| <= |src.Available()| && now.Available() == rest
  {
  }
}
