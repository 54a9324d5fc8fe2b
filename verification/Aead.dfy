/** What the two authenticated modes compute, whatever the calls: RFC 8439 and RFC 3610. */
module Aead {
  import opened Numbers
  import opened Wrappers
  import opened Bytes
  import opened Ciphers
  import opened AeadState
  import opened AeadModes
  import opened AeadMachine
  import ChaChaPoly
  import Ccm

  /**
   * The form of the message that is authenticated, of what went in and what came out: the message
   * itself in section 2.2 of RFC 3610, the ciphertext in section 2.8 of RFC 8439.
   */
  function Authentic(m: Machine, input: bytes, output: bytes): bytes {
    var plain := if m.encrypting then input else output;
    var cipher := if m.encrypting then output else input;
    match m.mode
    case CcmMode(_, _) => plain
    case ChaCha20Poly1305(_) => cipher
  }

  /**
   * Any legal run between the IV and the tag gives out the message in one piece under the key
   * stream, and then the tag of header and message in one piece.
   */
  lemma AnyRun(m: Machine, calls: seq<Call>, size: nat)
    requires Fresh(m) && size <= m.mode.DigestSize()
    requires Run(m, calls).1 == NoError && !Run(m, calls).0.state.AuthFooter?
    ensures m.mode.Valid() && m.mode.InStep(m.inner)
    ensures Run(m, calls).2 == Crypt(m.mode, m.inner, m.mode.StreamStart(), Datas(calls))
    ensures var (t, e, mac) := Finished(Run(m, calls).0, size);
      match OneShotTag(m.mode, m.inner, m.held, Headers(calls), Authentic(m, Datas(calls), Run(m, calls).2), size)
      case None => e == InvalidArgument
      case Some(tag) => e == NoError && mac == tag && t.state.KeySet?
  {
    var (t, _, output) := Run(m, calls);
    var h := HistoryOf(m, calls, output);
    RunTracks(m, calls);
    RunIsCrypt(t, h);
    CryptInvolution(m.mode, m.inner, m.mode.StreamStart(), output);
    CryptInvolution(m.mode, m.inner, m.mode.StreamStart(), h.plain);
    hide Tracks, OneShotTag, Finished, Crypt, Run, Machine.Shape;
    FinishIsOneShot(t, h, size);
  }

  lemma RunIsCrypt(m: Machine, h: History)
    requires Tracks(m, h)
    ensures m.mode.InStep(h.base) && h.cipher == Crypt(m.mode, h.base, m.mode.StreamStart(), h.plain)
  {
    if m.state.IVSet? {
      assert h.cipher == [] && Crypt(m.mode, h.base, m.mode.StreamStart(), h.plain) == [];
    }
  }

  /**
   * A decrypting object given the same key and IV, the same header, and what came out of the
   * encrypting one, each cut up in any way, gives the message back and computes the same tag.
   */
  lemma DecryptsWhatWasEncrypted(m: Machine, n: Machine, calls: seq<Call>, others: seq<Call>, size: nat)
    requires Fresh(m) && m.encrypting && n == m.(encrypting := false) && size <= m.mode.DigestSize()
    requires Run(m, calls).1 == NoError && !Run(m, calls).0.state.AuthFooter?
    requires Run(n, others).1 == NoError && !Run(n, others).0.state.AuthFooter?
    requires Headers(others) == Headers(calls) && Datas(others) == Run(m, calls).2
    ensures Run(n, others).2 == Datas(calls)
    ensures Finished(Run(m, calls).0, size).1 == Finished(Run(n, others).0, size).1
    ensures Finished(Run(m, calls).0, size).1 == NoError ==>
      Finished(Run(m, calls).0, size).2 == Finished(Run(n, others).0, size).2
  {
    AnyRun(m, calls, size);
    AnyRun(n, others, size);
    CryptInvolution(m.mode, m.inner, m.mode.StreamStart(), Datas(calls));
    hide Finished, Run, Crypt, OneShotTag, Fresh, Headers, Datas;
  }

  /** The input of Poly1305 in section 2.8 of RFC 8439. */
  function MacInput(header: bytes, ciphertext: bytes): bytes {
    header + Pad16(|header|) + ciphertext + Pad16(|ciphertext|)
    + LittleEndian(|header|, 8) + LittleEndian(|ciphertext|, 8)
  }

  /** Blocks of one byte, one after the other, are an append. */
  lemma {:induction false} AppendAll(mode: Mode, s: Inner, data: bytes)
    requires mode.ChaCha20Poly1305?
    ensures Whole(|data|, 1) && WholePart(|data|, 1) == |data|
    ensures AuthenticateAll(mode, s, data) == s.(mac := s.mac + data)
    decreases |data|
  {
    WholeIsMultiple(|data|, 1);
    WholePartUnique(|data|, 1, |data|);
    if data == [] {
      assert s.mac + data == s.mac;
    } else {
      var t := s.(mac := s.mac + data[..1]);
      AppendAll(mode, t, data[1..]);
      assert s.mac + data[..1] + data[1..] == s.mac + data;
    }
  }

  lemma AppendFront(mode: Mode, s: Inner, data: bytes)
    requires mode.ChaCha20Poly1305?
    ensures Front(mode, s, data) == s.(mac := s.mac + data) && Tail(mode, data) == []
  {
    AppendAll(mode, s, data);
    assert data[..|data|] == data;
  }

  /** Totals modulo 2^64 are enough for the pads and the length fields. */
  lemma LowLength(n: nat)
    ensures Pad16(n % LWORD) == Pad16(n)
    ensures LittleEndian(n % LWORD, 8) == LittleEndian(n, 8)
  {
    LowRemainder(n);
    LwordIsPow2();
    hide Pow2, Shl, Pad16, LittleEndian;
    ShlIsProduct(n / LWORD, 64);
    LowLittleEndian(n % LWORD, n / LWORD, 8);
  }

  lemma LowRemainder(n: nat)
    ensures n % LWORD % 16 == n % 16 && Pad16(n % LWORD) == Pad16(n)
  {
    DivModUnique(n, 16, n / LWORD * (LWORD / 16) + n % LWORD / 16, n % LWORD % 16);
  }

  lemma {:induction false} LowLittleEndian(r: nat, q: nat, len: nat)
    ensures r + Shl(q, 8 * len) >= 0
    ensures LittleEndian(r + Shl(q, 8 * len), len) == LittleEndian(r, len)
  {
    ShlGrows(q, 8 * len);
    if len > 0 {
      ByteShift(q, 8 * (len - 1));
      ShlGrows(q, 8 * (len - 1));
      LowLittleEndian(r / 256, q, len - 1);
      var z := Shl(q, 8 * (len - 1));
      assert (r + 256 * z) / 256 == r / 256 + z && (r + 256 * z) % 256 == r % 256;
    }
  }

  /** Block `counter` of the key stream in section 2.3 of RFC 8439, of 64 bytes. */
  function ChaChaBlock(p: ChaChaPoly.Primitives, key: bytes, nonce: bytes, counter: nat): (b: bytes)
    ensures |b| == 64
  {
    seq<byte>(64, i requires 0 <= i < 64 => p.Stream(key, nonce, 64 * counter + i))
  }

  /** Section 2.6 of RFC 8439: the MAC is keyed with the first half of block 0. */
  lemma MacKeyIsStandard(p: ChaChaPoly.Primitives, key: bytes, nonce: bytes)
    ensures p.MacKey(key, nonce) == ChaChaBlock(p, key, nonce, 0)[..32]
  {
  }

  /** The one-shot tag of ChaCha20/Poly1305 is the tag of section 2.8 of RFC 8439. */
  lemma ChaChaPolyTag(mode: Mode, s: Inner, header: bytes, ciphertext: bytes, size: nat)
    requires mode.ChaCha20Poly1305? && s.mac == [] && size <= 16
    ensures OneShotTag(mode, s, [], header, ciphertext, size)
         == Some(mode.chacha.Tag(ChaChaBlock(mode.chacha, s.key, s.iv, 0)[..32], MacInput(header, ciphertext))[..size])
  {
    MacKeyIsStandard(mode.chacha, s.key, s.iv);
    AppendFront(mode, s, [] + header);
    assert [] + ([] + header) == header;
    var t := s.(mac := header + Pad16(|header|));
    AppendFront(mode, t, ciphertext);
    LowLength(|header|);
    LowLength(|ciphertext|);
    hide Pad16, LittleEndian, Front, Tail;
    assert HeaderDone(mode, s, [] + header, |header|) == Some(t);
    var u := t.(mac := t.mac + ciphertext + Pad16(|ciphertext|));
    assert MessageDone(mode, t, ciphertext) == Some(u);
    assert MacInput(header, ciphertext) == u.mac + LittleEndian(|header|, 8) + LittleEndian(|ciphertext|, 8);
  }

  /** RFC 3610, section 2.2: the encoding of the length of the header, n. */
  ghost predicate EncodesLength(p: bytes, n: nat) {
    if n == 0 then p == []
    else if n < Pow2(16) - Pow2(8) then |p| == 2 && Value(p) == n
    else if n < Pow2(32) then |p| == 6 && p[..2] == [0xff, 0xfe] && Value(p[2..]) == n
    else |p| == 10 && p[..2] == [0xff, 0xff] && Value(p[2..]) == n
  }

  /** The prefix is that encoding, and nothing else is. */
  lemma HeaderPrefixExactly(p: bytes, n: nat)
    requires n < LWORD
    ensures EncodesLength(p, n) <==> p == Ccm.HeaderPrefix(n)
  {
    hide Value, BigEndian, Pow2;
    Pow2OfEight();
    Pow2OfSixteen();
    Pow2OfThirtyTwo();
    LwordIsPow2();
    if EncodesLength(p, n) && n > 0 {
      BigEndianOfValue(p);
      if |p| > 2 {
        BigEndianOfValue(p[2..]);
        assert p == p[..2] + p[2..];
      }
    }
    ValueOfBigEndian(n, if n < 0xff00 then 2 else if n < 0x1_0000_0000 then 4 else 8);
  }

  /** RFC 3610, section 2.2: the data of the CBC-MAC behind the first block, each part padded to whole blocks. */
  function CcmBlocks(first: bytes, header: bytes, text: bytes): (blocks: bytes)
    requires |first| == 16 && |header| < LWORD
    ensures Whole(|blocks|, 16)
  {
    var a := Ccm.HeaderPrefix(|header|) + header;
    WholeIsMultiple(|a + Pad16(|a|)|, 16);
    WholeIsMultiple(|text + Pad16(|text|)|, 16);
    WholePlus(16, |a + Pad16(|a|)|, 16);
    WholePlus(16 + |a + Pad16(|a|)|, |text + Pad16(|text|)|, 16);
    first + (a + Pad16(|a|)) + (text + Pad16(|text|))
  }

  /** RFC 3610, section 2.3: the i-th block of the key stream is of the flags, the nonce and i. */
  function StreamBlock(c: BlockCipher, nonce: bytes, i: nat): (b: bytes)
    requires c.blockSize == 16 && 7 <= |nonce| <= 13
    ensures |b| == 16
  {
    c.Process([14 - |nonce|] + nonce + BigEndian(i, 15 - |nonce|))
  }

  /** RFC 3610, section 2.2: the first block is the flags, the nonce and the message length. */
  function B0(digestSize: nat, nonce: bytes, headerLength: nat, messageLength: nat): (b: bytes)
    requires 4 <= digestSize <= 16 && 7 <= |nonce| <= 13
    ensures |b| == 16
  {
    var flags: byte := (if headerLength > 0 then 64 else 0) + 8 * ((digestSize - 2) / 2) + (14 - |nonce|);
    [flags] + nonce + BigEndian(messageLength, 15 - |nonce|)
  }

  /** RFC 3610, sections 2.2 and 2.3: the tag. */
  function CcmTag(c: BlockCipher, digestSize: nat, nonce: bytes, header: bytes, text: bytes, size: nat): (tag: bytes)
    requires c.blockSize == 16 && 4 <= digestSize <= 16 && 7 <= |nonce| <= 13 && |header| < LWORD && size <= 16
    ensures |tag| == size
  {
    var mac := Chain(c, Zeros(16), CcmBlocks(B0(digestSize, nonce, |header|, |text|), header, text));
    XorBytes(mac, StreamBlock(c, nonce, 0))[..size]
  }

  /** The last bytes of a longer encoding are the shorter encoding. */
  lemma {:induction false} BigEndianLast(n: nat, len: nat, k: nat)
    requires k <= len
    ensures BigEndian(n, len)[len - k..] == BigEndian(n, k)
    decreases k
  {
    if k > 0 {
      BigEndianLast(n / 256, len - 1, k - 1);
    }
  }

  /** The first block as the code lays it out is the one of the standard. */
  lemma FirstBlockIsB0(digestSize: nat, nonce: bytes, headerLength: nat, messageLength: nat)
    requires 4 <= digestSize <= 16 && 7 <= |nonce| <= 13
    ensures Ccm.FirstBlock(digestSize, 15 - |nonce|, nonce, headerLength, messageLength)
         == B0(digestSize, nonce, headerLength, messageLength)
  {
    BigEndianLast(messageLength, 8, 15 - |nonce|);
  }

  /** Counting the whole block up leaves flags and nonce alone while the count fits its field. */
  lemma CountedBlock(nonce: bytes, i: nat)
    requires 7 <= |nonce| <= 13 && i < Pow2(8 * (15 - |nonce|))
    ensures Ccm.Counted(Ccm.CounterBlock(15 - |nonce|, nonce), i)
         == [14 - |nonce|] + nonce + BigEndian(i, 15 - |nonce|)
  {
    hide Shl, Pow2, Value, BigEndian, Zeros;
    var len := 15 - |nonce|;
    var front: bytes := [len - 1] + nonce;
    CountedField(front, len, i);
    assert Ccm.CounterBlock(len, nonce) == front + Zeros(len);
    BigEndianOfValue(front + BigEndian(i, len));
  }

  /** Adding to a string that ends in zeros adds to the number those zeros are. */
  lemma CountedField(front: bytes, len: nat, i: nat)
    requires i < Pow2(8 * len)
    ensures Value(front + Zeros(len)) + i == Value(front + BigEndian(i, len))
  {
    hide *;
    ValueAppend(front, Zeros(len));
    ValueZeros(len, []);
    assert Zeros(len) + [] == Zeros(len);
    ValueNone();
    ValueAppend(front, BigEndian(i, len));
    ValueOfBigEndian(i, len);
  }

  /** The counter mode key stream is that of the standard, for as long as the counter lasts. */
  lemma CcmStream(p: Ccm.Primitives, s: Inner, pos: nat)
    requires 7 <= |s.iv| <= 13 && s.lengthBytes == 15 - |s.iv| && pos / 16 < Pow2(8 * s.lengthBytes)
    ensures Ccm.Stream(p, s, pos) == StreamBlock(p.Cipher(s.key), s.iv, pos / 16)[pos % 16]
  {
    hide BlockCipher.Process;
    CountedBlock(s.iv, pos / 16);
  }

  /** Whole blocks are chained, and a partial one is padded with zeros. */
  lemma {:induction false} ChainAll(mode: Mode, s: Inner, data: bytes)
    requires mode.CcmMode? && mode.InStep(s) && Whole(|data|, 16)
    ensures AuthenticateAll(mode, s, data) == s.(mac := Chain(mode.ccm.Cipher(s.key), s.mac, data))
    decreases |data|
  {
    if data != [] {
      hide XorBytes, BlockCipher.Process;
      WholeStep(|data|, 16);
      var t := mode.AuthenticateBlock(s, data[..16]);
      ChainAll(mode, t, data[16..]);
    }
  }

  /** The last block, when it is partial. */
  lemma ChainTail(c: BlockCipher, x: bytes, data: bytes, w: nat)
    requires c.blockSize == |x| == 16 && w < |data| < w + 16 && Whole(w, 16)
    ensures Whole(|data + Pad16(|data|)|, 16)
    ensures Chain(c, x, data + Pad16(|data|)) == c.Process(XorAt(Chain(c, x, data[..w]), 0, data[w..]))
  {
    WholeIsMultiple(w, 16);
    PadOfTail(|data|, w);
    hide Chain, BlockCipher.Process, Pad16;
    var block := data[w..] + Pad16(|data|);
    assert data + Pad16(|data|) == data[..w] + block;
    ChainOne(c, Chain(c, x, data[..w]), block);
    ChainConcat(c, x, data[..w], block);
    assert XorAt(Chain(c, x, data[..w]), 0, data[w..]) == XorBytes(Chain(c, x, data[..w]), block);
  }

  /** Authenticating data and flushing the rest is chaining over the padded data. */
  lemma ChainFlush(mode: Mode, s: Inner, data: bytes)
    requires mode.CcmMode? && mode.InStep(s)
    ensures Whole(|data + Pad16(|data|)|, 16)
    ensures Ccm.FlushBuffer(mode.ccm, Front(mode, s, data), Tail(mode, data))
         == s.(mac := Chain(mode.ccm.Cipher(s.key), s.mac, data + Pad16(|data|)))
  {
    var w := WholePart(|data|, 16);
    hide Chain, BlockCipher.Process, Pad16, AuthenticateAll, Whole, WholePart, XorAt;
    ChainAll(mode, s, data[..w]);
    if |data| == w {
      WholeIsMultiple(w, 16);
      NoPad(w);
      assert data[..w] == data && data[w..] == [] && data + [] == data;
    } else {
      ChainTail(mode.ccm.Cipher(s.key), s.mac, data, w);
    }
  }

  lemma NoPad(n: nat)
    requires n % 16 == 0
    ensures Pad16(n) == []
  {
  }

  lemma PadOfTail(n: nat, w: nat)
    requires w < n < w + 16 && w % 16 == 0
    ensures n - w + |Pad16(n)| == 16
  {
  }

  /**
   * Once the lengths have been specified, the one-shot tag of CCM is the tag of RFC 3610, and there
   * is one exactly when the lengths were right.
   */
  lemma CcmOneShotTag(m: Machine, nonce: bytes, headerLength: nat, messageLength: nat,
                      header: bytes, text: bytes, size: nat)
    requires Fresh(m) && m.mode.CcmMode? && m.held == [] && nonce == m.inner.iv && size <= m.mode.DigestSize()
    requires |header| < LWORD && |text| < LWORD
    requires Specified(m, nonce, headerLength, messageLength).1 == NoError
    ensures var t := Specified(m, nonce, headerLength, messageLength).0;
      && Fresh(t)
      && OneShotTag(m.mode, t.inner, t.held, header, text, size)
         == if headerLength == |header| && messageLength == |text|
            then Some(CcmTag(m.mode.ccm.Cipher(m.inner.key), m.mode.digestSize, nonce, header, text, size))
            else None
  {
    hide Ccm.FlushBuffer, Front, Tail, BlockCipher.Process, Specified, B0, Ccm.HeaderPrefix, Pad16, HeaderDone, MessageDone,
         Chain, StreamBlock, Whole, Mode.LastFooterBlock, XorBytes;
    var t := Specified(m, nonce, headerLength, messageLength).0;
    var c := m.mode.ccm.Cipher(m.inner.key);
    SpecifiedIs(m, nonce, headerLength, messageLength);
    var first := B0(m.mode.digestSize, nonce, headerLength, messageLength);
    var a := t.held + header;
    CcmHeaderDone(m.mode, t.inner, a, |header|);
    if headerLength == |header| {
      var u := t.inner.(mac := Chain(c, t.inner.mac, a + Pad16(|a|)));
      CcmMessageDone(m.mode, u, text);
      if messageLength == |text| {
        var v := u.(mac := Chain(c, u.mac, text + Pad16(|text|)));
        ChainFirst(c, first, a + Pad16(|a|), text + Pad16(|text|));
        TagIsMasked(m.mode, v, |header| % LWORD, |text| % LWORD, size);
      }
    }
  }

  /** The fields once the lengths are specified. */
  lemma SpecifiedIs(m: Machine, nonce: bytes, headerLength: nat, messageLength: nat)
    requires Fresh(m) && m.mode.CcmMode? && m.held == [] && nonce == m.inner.iv
    requires Specified(m, nonce, headerLength, messageLength).1 == NoError
    ensures headerLength < LWORD && 7 <= |nonce| <= 13 && 4 <= m.mode.digestSize <= 16
    ensures var t := Specified(m, nonce, headerLength, messageLength).0;
      var first := B0(m.mode.digestSize, nonce, headerLength, messageLength);
      && Fresh(t) && t.held == Ccm.HeaderPrefix(headerLength) && t.mode == m.mode && m.mode.InStep(t.inner)
      && t.inner == m.inner.(aadLength := headerLength, messageLength := messageLength,
                             mac := m.mode.ccm.Cipher(m.inner.key).Process(first))
  {
    hide BlockCipher.Process, Ccm.FirstBlock, B0;
    FirstBlockIsB0(m.mode.digestSize, nonce, headerLength, messageLength);
  }

  lemma CcmHeaderDone(mode: Mode, s: Inner, a: bytes, headerLength: nat)
    requires mode.CcmMode? && mode.InStep(s) && headerLength < LWORD
    ensures Whole(|a + Pad16(|a|)|, 16)
    ensures HeaderDone(mode, s, a, headerLength)
         == if s.aadLength != headerLength then None
            else Some(s.(mac := Chain(mode.ccm.Cipher(s.key), s.mac, a + Pad16(|a|))))
  {
    hide Ccm.FlushBuffer, Front, Tail, BlockCipher.Process, Pad16, Chain, Whole;
    ChainFlush(mode, s, a);
    assert headerLength % LWORD == headerLength;
  }

  lemma CcmMessageDone(mode: Mode, s: Inner, text: bytes)
    requires mode.CcmMode? && mode.InStep(s) && |text| < LWORD
    ensures Whole(|text + Pad16(|text|)|, 16)
    ensures MessageDone(mode, s, text)
         == if s.messageLength != |text| then None
            else Some(s.(mac := Chain(mode.ccm.Cipher(s.key), s.mac, text + Pad16(|text|))))
  {
    hide Ccm.FlushBuffer, Front, Tail, BlockCipher.Process, Pad16, Chain, Whole;
    ChainFlush(mode, s, text);
    assert |text| % LWORD == |text|;
  }

  /** The first block, and then two more whole parts. */
  lemma ChainFirst(c: BlockCipher, first: bytes, a: bytes, b: bytes)
    requires c.blockSize == |first| == 16 && Whole(|a|, 16) && Whole(|b|, 16)
    ensures Whole(|first + a + b|, 16)
    ensures Chain(c, Zeros(16), first + a + b) == Chain(c, Chain(c, c.Process(first), a), b)
  {
    hide BlockCipher.Process, Chain;
    ChainOne(c, Zeros(16), first);
    assert XorBytes(Zeros(16), first) == first;
    ChainConcat(c, Zeros(16), first, a);
    ChainConcat(c, Zeros(16), first + a, b);
  }

  lemma TagIsMasked(mode: Mode, s: Inner, totalHeader: nat, totalMessage: nat, size: nat)
    requires mode.Valid() && mode.CcmMode? && mode.InStep(s) && size <= mode.DigestSize()
    ensures mode.LastFooterBlock(s, totalHeader, totalMessage, size)
         == XorBytes(s.mac, StreamBlock(mode.ccm.Cipher(s.key), s.iv, 0))[..size]
  {
    hide BlockCipher.Process, Xor, Ccm.Stream;
    forall i | 0 <= i < size
      ensures Ccm.Stream(mode.ccm, s, i) == StreamBlock(mode.ccm.Cipher(s.key), s.iv, 0)[i]
    {
      assert i / 16 == 0 && i % 16 == i;
      CcmStream(mode.ccm, s, i);
    }
  }

  /**
   * In a tracked run message data is refused exactly when it makes the message too long, or when it
   * is the first and the header is not of the length specified.
   */
  lemma RefusedExactly(m: Machine, h: History, input: bytes)
    requires Tracks(m, h) && m.mode.InStep(h.base) && |h.plain| <= m.mode.MaxMessageLength(h.base)
    ensures Processed(m, input).1 == NoError
       <==> (&& |h.plain| + |input| <= m.mode.MaxMessageLength(h.base)
             && (m.state.IVSet? ==> HeaderDone(m.mode, h.base, h.prefix + h.header, |h.header|).Some?))
  {
    hide *;
    TrackedState(m, h);
    MaxFits(m.mode, h.base);
    SameMax(m, h);
    var max := m.mode.MaxMessageLength(h.base);
    RoomLeft(max, |h.plain|);
    ProcessedExactly(m, input, max - |h.plain|);
    if m.state.IVSet? {
      ClosesExactly(m, h);
    }
  }

  lemma TrackedState(m: Machine, h: History)
    requires Tracks(m, h)
    ensures m.Shape() && m.mode.InStep(h.base) && (m.state.IVSet? || m.state.InMessage()) && m.totalMessage == |h.plain| % LWORD
    ensures m.totalMessage < LWORD
  {
  }

  /** What is left of the limit, in the wrapping arithmetic of the code. */
  lemma RoomLeft(max: nat, n: nat)
    requires n <= max < LWORD
    ensures (max - n % LWORD) % LWORD == max - n
  {
  }

  /** When message data is refused, in a state that takes it. */
  lemma ProcessedExactly(m: Machine, input: bytes, room: nat)
    requires m.Shape() && (m.state.IVSet? || m.state.InMessage()) && m.mode.InStep(m.inner)
    requires (m.mode.MaxMessageLength(m.inner) - m.totalMessage) % LWORD == room
    ensures Processed(m, input).1 == NoError
       <==> |input| <= room && (m.state.IVSet? ==> m.mode.LastHeaderBlock(m.inner, m.held, m.totalHeader).Some?)
  {
    hide Mode.MaxMessageLength, Transformed, Opened, Mode.InStep, Machine.Shape, Mode.LastHeaderBlock;
  }

  /** The header can be closed exactly when its length is right. */
  lemma ClosesExactly(m: Machine, h: History)
    requires Tracks(m, h) && m.state.IVSet?
    ensures m.mode.LastHeaderBlock(m.inner, m.held, m.totalHeader)
         == HeaderDone(m.mode, h.base, h.prefix + h.header, |h.header|)
  {
  }

  lemma SameMax(m: Machine, h: History)
    requires Tracks(m, h)
    ensures m.mode.MaxMessageLength(m.inner) == m.mode.MaxMessageLength(h.base)
    ensures m.mode.InStep(m.inner)
  {
    if !m.state.IVSet? {
      assert h.Text(m.mode) + [] == h.Text(m.mode);
      TextMore(m.mode, m.inner, m.held, h, h, []);
    }
  }

  lemma MaxFits(mode: Mode, s: Inner)
    requires mode.InStep(s)
    ensures mode.MaxMessageLength(s) < LWORD
  {
    LwordIsPow2();
    if mode.CcmMode? && s.lengthBytes < 8 {
      Pow2Monotone(8 * s.lengthBytes, 64);
    }
  }

  /** All header data comes before all message data. */
  predicate Ordered(calls: seq<Call>) {
    forall i, j :: 0 <= i < j < |calls| && calls[i].Data? ==> calls[j].Data?
  }

  predicate HasData(calls: seq<Call>) {
    calls != [] && calls[|calls| - 1].Data?
  }

  /** Every ordered run is accepted, if the message is not too long and the header fits. */
  lemma {:induction false} OrderedRunIsAccepted(m: Machine, calls: seq<Call>)
    requires Fresh(m) && Ordered(calls) && m.mode.InStep(m.inner)
    requires |Datas(calls)| <= m.mode.MaxMessageLength(m.inner)
    requires HasData(calls) ==> HeaderDone(m.mode, m.inner, m.held + Headers(calls), |Headers(calls)|).Some?
    ensures Run(m, calls).1 == NoError
    ensures if HasData(calls) then Run(m, calls).0.state.InMessage() else Run(m, calls).0.state.IVSet?
  {
    if calls != [] {
      var before, last := calls[..|calls| - 1], calls[|calls| - 1];
      hide HeaderDone, Mode.MaxMessageLength, Mode.InStep, Machine.Shape, Tracks, Updated, Processed;
      assert last.Data? ==> Headers(before) == Headers(calls);
      OrderedRunIsAccepted(m, before);
      RunTracks(m, before);
      var (t, e, out) := Run(m, before);
      var h := HistoryOf(m, before, out);
      match last
      case Header(input) =>
        assert !HasData(before);
        UpdateTracks(t, h, input);
      case Data(input) =>
        HistoryLength(t, h);
        RefusedExactly(t, h, input);
        ProcessTracks(t, h, input);
    }
  }

  lemma HistoryLength(m: Machine, h: History)
    requires Tracks(m, h)
    ensures |h.plain| == |h.cipher|
  {
  }

  /** `EncryptAndAuthenticate`, and `DecryptAndVerify` before it compares: only CCM is told the lengths. */
  function OneCall(m: Machine, iv: bytes, header: bytes, input: bytes, size: nat): (r: (Machine, Error, bytes, bytes))
    requires m.Shape()
    ensures r.0.Shape()
  {
    var (a, e) := Resynchronized(m, iv);
    if e != NoError then (a, e, [], [])
    else
      var (b, f) := if m.mode.CcmMode? then Specified(a, iv, |header|, |input|) else (a, NoError);
      if f != NoError then (b, f, [], [])
      else
        var (c, g) := Updated(b, header);
        if g != NoError then (c, g, [], [])
        else
          var (d, h, output) := Processed(c, input);
          if h != NoError then (d, h, output, [])
          else
            var (t, i, mac) := Finished(d, size);
            (t, i, output, mac)
  }

  /** The tag of RFC 8439, section 2.8, or of RFC 3610, section 2. */
  function StandardTag(mode: Mode, key: bytes, iv: bytes, header: bytes, text: bytes, size: nat): bytes
    requires mode.Valid() && mode.MinIVLength() <= |iv| <= mode.MaxIVLength()
    requires |header| < LWORD && size <= mode.DigestSize()
  {
    if mode.CcmMode? then CcmTag(mode.ccm.Cipher(key), mode.digestSize, iv, header, text, size)
    else mode.chacha.Tag(ChaChaBlock(mode.chacha, key, iv, 0)[..32], MacInput(header, text))[..size]
  }

  /** What the message is enciphered with: the two standards' key streams from their message start. */
  function StandardCrypt(mode: Mode, key: bytes, iv: bytes, text: bytes): (r: bytes)
    requires mode.Valid() && mode.MinIVLength() <= |iv| <= mode.MaxIVLength()
    ensures |r| == |text|
  {
    seq(|text|, i requires 0 <= i < |text| => Xor(text[i],
      if mode.CcmMode? then StreamBlock(mode.ccm.Cipher(key), iv, 1 + i / 16)[i % 16]
      else ChaChaBlock(mode.chacha, key, iv, 1 + i / 64)[i % 64]))
  }

  /**
   * The longest message for an IV: what its length field counts, in section 2.2 of RFC 3610; what the
   * 32-bit block counter counts behind block 0, in section 2.8 of RFC 8439.
   */
  function Longest(mode: Mode, iv: bytes): nat
    requires mode.MinIVLength() <= |iv| <= mode.MaxIVLength()
  {
    if mode.CcmMode? then (if |iv| > 7 then Pow2(8 * (15 - |iv|)) - 1 else LWORD - 1) else 64 * (Pow2(32) - 1)
  }

  lemma LongestFits(mode: Mode, s: Inner, iv: bytes)
    requires mode.MinIVLength() <= |iv| <= mode.MaxIVLength() && (mode.CcmMode? ==> |s.mac| == 16)
    ensures mode.MaxMessageLength(mode.Resync(s, iv)) == Longest(mode, iv) < LWORD
    ensures mode.CcmMode? ==> Longest(mode, iv) < Pow2(8 * (15 - |iv|))
  {
    MaxFits(mode, mode.Resync(s, iv));
    LwordIsPow2();
    Pow2OfThirtyTwo();
  }

  lemma Pow2OfThirtyTwo()
    ensures Pow2(32) == 0x1_0000_0000
  {
    Pow2OfSixteen();
    Pow2Add(16, 16);
  }

  /**
   * The parameters the two standards allow: nonces of 12 bytes and tags of 16, or a length field of 2 to
   * 8 bytes that leaves the nonce the rest of 15, and tags of 4 to 16 bytes in steps of two; footers are
   * for neither.
   */
  lemma LimitsAreStandard(mode: Mode, n: nat)
    ensures mode.MinIVLength() <= n <= mode.MaxIVLength() <==> if mode.CcmMode? then 2 <= 15 - n <= 8 else n == 12
    ensures mode.Valid() && mode.DigestSize() == n ==> if mode.CcmMode? then n in {4, 6, 8, 10, 12, 14, 16} else n == 16
    ensures mode.CcmMode? && mode.digestSize in {4, 6, 8, 10, 12, 14, 16} ==> mode.Valid() && mode.DigestSize() == mode.digestSize
    ensures mode.MaxFooterLength() == 0
  {
  }

  lemma CryptIsStandard(mode: Mode, s: Inner, text: bytes)
    requires mode.InStep(s) && mode.Valid() && mode.MinIVLength() <= |s.iv| <= mode.MaxIVLength()
    requires mode.CcmMode? ==> |text| < Pow2(8 * (15 - |s.iv|))
    ensures Crypt(mode, s, mode.StreamStart(), text) == StandardCrypt(mode, s.key, s.iv, text)
  {
    hide Xor, Ccm.Stream, StreamBlock, Pow2;
    if mode.CcmMode? {
      forall i | 0 <= i < |text|
        ensures Ccm.Stream(mode.ccm, s, 16 + i) == StreamBlock(mode.ccm.Cipher(s.key), s.iv, 1 + i / 16)[i % 16]
      {
        StreamFromOne(mode, s, i, Pow2(8 * (15 - |s.iv|)));
      }
    } else {
      forall i | 0 <= i < |text|
        ensures mode.chacha.Stream(s.key, s.iv, 64 + i) == ChaChaBlock(mode.chacha, s.key, s.iv, 1 + i / 64)[i % 64]
      {
        assert 64 + i == 64 * (1 + i / 64) + i % 64;
      }
    }
  }

  /** The message is enciphered from block 1 on. */
  lemma StreamFromOne(mode: Mode, s: Inner, i: nat, limit: nat)
    requires mode.CcmMode? && mode.InStep(s) && mode.Valid() && 7 <= |s.iv| <= 13
    requires i + 1 < limit == Pow2(8 * (15 - |s.iv|))
    ensures Ccm.Stream(mode.ccm, s, 16 + i) == StreamBlock(mode.ccm.Cipher(s.key), s.iv, 1 + i / 16)[i % 16]
  {
    hide Ccm.Stream, StreamBlock, Pow2, BlockCipher.Process;
    assert (16 + i) / 16 == 1 + i / 16 && (16 + i) % 16 == i % 16;
    CcmStream(mode.ccm, s, 16 + i);
  }

  /** The key stream depends on the key, the nonce and the length of the counter. */
  lemma CryptLike(mode: Mode, s: Inner, t: Inner, text: bytes)
    requires mode.InStep(s) && mode.InStep(t) && s.key == t.key && s.iv == t.iv
    ensures Crypt(mode, s, mode.StreamStart(), text) == Crypt(mode, t, mode.StreamStart(), text)
  {
    hide BlockCipher.Process, Ccm.Counted, Ccm.CounterBlock, Xor;
    forall pos: nat ensures mode.Stream(s, pos) == mode.Stream(t, pos) {
    }
  }

  /** The tag of a machine that has its IV and, for CCM, the lengths. */
  lemma PreparedTag(a: Machine, b: Machine, header: bytes, text: bytes, size: nat)
    requires Fresh(a) && a.held == [] && (a.mode.ChaCha20Poly1305? ==> a.inner.mac == [])
    requires a.mode.MinIVLength() <= |a.inner.iv| <= a.mode.MaxIVLength() && size <= a.mode.DigestSize()
    requires |header| < LWORD && |text| < LWORD
    requires if a.mode.CcmMode? then Specified(a, a.inner.iv, |header|, |text|) == (b, NoError) else a == b
    ensures Fresh(b) && OneShotTag(a.mode, b.inner, b.held, header, text, size)
                     == Some(StandardTag(a.mode, a.inner.key, a.inner.iv, header, text, size))
  {
    hide Specified, OneShotTag;
    if a.mode.CcmMode? {
      CcmOneShotTag(a, a.inner.iv, |header|, |text|, header, text, size);
    } else {
      ChaChaPolyTag(a.mode, a.inner, header, text, size);
    }
  }

  /** Header and message in one call each. */
  lemma TwoCalls(b: Machine, header: bytes, input: bytes)
    requires b.Shape()
    ensures var calls := [Header(header), Data(input)];
      && Headers(calls) == header && Datas(calls) == input && Ordered(calls) && HasData(calls)
      && var (c, g) := Updated(b, header);
      && (g != NoError ==> Run(b, calls).1 == g)
      && (g == NoError ==> Run(b, calls) == Processed(c, input))
  {
    hide Updated, Processed, Machine.Shape;
    var calls := [Header(header), Data(input)];
    assert calls[..1] == [Header(header)] && calls[..1][..0] == [];
    assert Run(b, []) == (b, NoError, []);
    assert Headers([]) == [] && Datas([]) == [];
    var (c, g) := Updated(b, header);
    var none: bytes := [];
    assert none + none == none;
    assert Run(b, calls[..1]) == (c, g, none + none);
    assert none + Processed(c, input).2 == Processed(c, input).2;
    assert Headers(calls[..1]) == header && Datas(calls[..1]) == [];
  }

  /** A machine with its IV set, and the lengths if it wants them, up to the tag. */
  lemma PreparedCall(a: Machine, b: Machine, header: bytes, input: bytes, size: nat)
    requires Fresh(a) && a.held == [] && (a.mode.ChaCha20Poly1305? ==> a.inner.mac == [])
    requires a.mode.MinIVLength() <= |a.inner.iv| <= a.mode.MaxIVLength() && size <= a.mode.DigestSize()
    requires |header| < LWORD && |input| < LWORD && a.mode.InStep(a.inner)
    requires |input| <= a.mode.MaxMessageLength(a.inner)
    requires if a.mode.CcmMode? then Specified(a, a.inner.iv, |header|, |input|) == (b, NoError) else a == b
    ensures var calls := [Header(header), Data(input)];
      && Fresh(b) && b.mode == a.mode && b.encrypting == a.encrypting
      && Run(b, calls).1 == NoError && Run(b, calls).0.state.InMessage()
      && Run(b, calls).2 == Crypt(a.mode, a.inner, a.mode.StreamStart(), input)
      && var (t, e, mac) := Finished(Run(b, calls).0, size);
      && e == NoError && t.state.KeySet?
      && mac == StandardTag(a.mode, a.inner.key, a.inner.iv, header, Authentic(a, input, Run(b, calls).2), size)
  {
    var calls := [Header(header), Data(input)];
    assert b.mode == a.mode && b.encrypting == a.encrypting && b.mode.InStep(b.inner);
    assert b.inner.key == a.inner.key && b.inner.iv == a.inner.iv;
    assert b.mode.MaxMessageLength(b.inner) == a.mode.MaxMessageLength(a.inner);
    PreparedTag(a, b, header, input, size);
    TwoCalls(b, header, input);
    HeaderFits(b, header, input, size);
    hide Run, Crypt, Finished, OneShotTag, Specified, Mode.InStep, Mode.MaxMessageLength, StandardTag, Ordered,
         HeaderDone, Fresh, Machine.Shape, Headers, Datas;
    OrderedRunIsAccepted(b, calls);
    AnyRun(b, calls, size);
    CryptLike(a.mode, a.inner, b.inner, input);
    PreparedTag(a, b, header, Authentic(a, input, Run(b, calls).2), size);
  }

  lemma HeaderFits(b: Machine, header: bytes, text: bytes, size: nat)
    requires b.Shape() && b.mode.InStep(b.inner) && size <= b.mode.DigestSize()
    requires OneShotTag(b.mode, b.inner, b.held, header, text, size).Some?
    ensures HeaderDone(b.mode, b.inner, b.held + header, |header|).Some?
  {
  }

  /** Nothing is refused before the header is given. */
  lemma FittingPrepared(m: Machine, iv: bytes, header: bytes, input: bytes)
    requires m.Shape() && !m.state.Start? && |header| < LWORD
    requires m.mode.MinIVLength() <= |iv| <= m.mode.MaxIVLength() && |input| <= Longest(m.mode, iv)
    ensures var (a, e) := Resynchronized(m, iv);
      && e == NoError && Fresh(a) && a.held == [] && a.mode == m.mode && a.encrypting == m.encrypting
      && a.mode.InStep(a.inner) && a.inner.key == m.inner.key && a.inner.iv == iv
      && (a.mode.ChaCha20Poly1305? ==> a.inner.mac == [])
      && |input| <= a.mode.MaxMessageLength(a.inner) < LWORD
      && (a.mode.CcmMode? ==> |input| < Pow2(8 * (15 - |iv|)) && Specified(a, iv, |header|, |input|).1 == NoError)
  {
    hide Longest, Pow2, Mode.MaxMessageLength, BlockCipher.Process;
    LongestFits(m.mode, m.inner, iv);
  }

  /** With everything of a fitting length. */
  lemma FittingCall(m: Machine, iv: bytes, header: bytes, input: bytes, size: nat)
    requires m.Shape() && !m.state.Start? && |header| < LWORD
    requires m.mode.MinIVLength() <= |iv| <= m.mode.MaxIVLength() && |input| <= Longest(m.mode, iv)
    requires size <= m.mode.DigestSize()
    ensures var (t, e, output, mac) := OneCall(m, iv, header, input, size);
      && e == NoError && t.state.KeySet?
      && output == StandardCrypt(m.mode, m.inner.key, iv, input)
      && mac == StandardTag(m.mode, m.inner.key, iv, header, Authentic(m, input, output), size)
  {
    hide Specified, Updated, Processed, Finished, Crypt, StandardCrypt, StandardTag, Longest, Mode.MaxMessageLength;
    var (a, _) := Resynchronized(m, iv);
    var b := if m.mode.CcmMode? then Specified(a, iv, |header|, |input|).0 else a;
    FittingPrepared(m, iv, header, input);
    PreparedCall(a, b, header, input, size);
    TwoCalls(b, header, input);
    CryptIsStandard(m.mode, a.inner, input);
  }

  /** A message over the limit is refused in one piece, whatever the header. */
  lemma TooLong(a: Machine, header: bytes, input: bytes)
    requires Fresh(a) && a.mode.InStep(a.inner) && |input| > a.mode.MaxMessageLength(a.inner)
    ensures Updated(a, header).1 == NoError ==> Processed(Updated(a, header).0, input).1 != NoError
  {
    var h := History(a.inner, a.held, [], [], []);
    StartTracks(a, a.held);
    UpdateTracks(a, h, header);
    hide Front, Tail, Mode.MaxMessageLength, Tracks, Updated, Processed;
    RefusedExactly(Updated(a, header).0, h.(header := h.header + header), input);
  }

  /** No transition changes the mode. */
  lemma ModeKept(m: Machine, input: bytes)
    requires m.Shape()
    ensures Updated(m, input).0.mode == m.mode && Processed(m, input).0.mode == m.mode
  {
  }

  /** Anything else is refused. */
  lemma UnfittingCall(m: Machine, iv: bytes, header: bytes, input: bytes, size: nat)
    requires m.Shape() && !m.state.Start? && |header| < LWORD
    requires !(&& m.mode.MinIVLength() <= |iv| <= m.mode.MaxIVLength() && |input| <= Longest(m.mode, iv)
               && size <= m.mode.DigestSize())
    ensures OneCall(m, iv, header, input, size).1 != NoError
  {
    if m.mode.MinIVLength() <= |iv| <= m.mode.MaxIVLength() {
      LongestFits(m.mode, m.inner, iv);
      var (a, _) := Resynchronized(m, iv);
      var b := if m.mode.CcmMode? then Specified(a, iv, |header|, |input|).0 else a;
      assert b.mode == a.mode;
      assert m.mode.CcmMode? && |input| > Longest(m.mode, iv) ==> Specified(a, iv, |header|, |input|).1 != NoError;
      hide Longest, Mode.MaxMessageLength, Updated, Processed, Specified;
      if |input| > Longest(m.mode, iv) {
        TooLong(a, header, input);
      } else {
        ModeKept(b, header);
        ModeKept(Updated(b, header).0, input);
      }
    }
  }

  /** One call is accepted exactly when the IV, the message and the tag are of fitting lengths. */
  lemma OneCallIsStandard(m: Machine, iv: bytes, header: bytes, input: bytes, size: nat)
    requires m.Shape() && !m.state.Start? && |header| < LWORD
    ensures var (t, e, output, mac) := OneCall(m, iv, header, input, size);
      && (e == NoError <==> && m.mode.MinIVLength() <= |iv| <= m.mode.MaxIVLength()
                            && |input| <= Longest(m.mode, iv) && size <= m.mode.DigestSize())
      && (e == NoError ==>
            && t.state.KeySet?
            && output == StandardCrypt(m.mode, m.inner.key, iv, input)
            && mac == StandardTag(m.mode, m.inner.key, iv, header, Authentic(m, input, output), size))
  {
    hide OneCall, StandardCrypt, StandardTag, Longest;
    if && m.mode.MinIVLength() <= |iv| <= m.mode.MaxIVLength() && |input| <= Longest(m.mode, iv)
       && size <= m.mode.DigestSize() {
      FittingCall(m, iv, header, input, size);
    } else {
      UnfittingCall(m, iv, header, input, size);
    }
  }

  /** Enciphering twice under one key and IV is doing nothing. */
  lemma StandardCryptInvolution(mode: Mode, key: bytes, iv: bytes, text: bytes)
    requires mode.Valid() && mode.MinIVLength() <= |iv| <= mode.MaxIVLength()
    ensures StandardCrypt(mode, key, iv, StandardCrypt(mode, key, iv, text)) == text
  {
    hide Xor, StreamBlock;
    forall i | 0 <= i < |text|
      ensures StandardCrypt(mode, key, iv, StandardCrypt(mode, key, iv, text))[i] == text[i]
    {
      XorCancel(text[i], if mode.CcmMode? then StreamBlock(mode.ccm.Cipher(key), iv, 1 + i / 16)[i % 16]
                         else ChaChaBlock(mode.chacha, key, iv, 1 + i / 64)[i % 64]);
    }
  }

  /** No run that is not refused has a message over the limit. */
  lemma {:induction false} RunIsShort(m: Machine, calls: seq<Call>)
    requires Fresh(m) && m.mode.InStep(m.inner)
    requires Run(m, calls).1 == NoError && !Run(m, calls).0.state.AuthFooter?
    ensures |Datas(calls)| <= m.mode.MaxMessageLength(m.inner)
  {
    if calls != [] {
      var before, last := calls[..|calls| - 1], calls[|calls| - 1];
      hide HeaderDone, Mode.MaxMessageLength, Mode.InStep, Machine.Shape, Tracks, Updated, Processed;
      var (t, e, out) := Run(m, before);
      StepKeeps(t, last);
      RunIsShort(m, before);
      RunTracks(m, before);
      if last.Data? {
        var h := HistoryOf(m, before, out);
        HistoryLength(t, h);
        RefusedExactly(t, h, last.input);
      }
    }
  }

  /** A machine keyed and given its IV, and for CCM the lengths. */
  function Prepared(m: Machine, iv: bytes, headerLength: nat, messageLength: nat): (r: (Machine, Error))
    requires m.Shape() && !m.state.Start? && m.mode.MinIVLength() <= |iv| <= m.mode.MaxIVLength()
    ensures r.0.Shape()
  {
    var a := Resynchronized(m, iv).0;
    if m.mode.CcmMode? then Specified(a, iv, headerLength, messageLength) else (a, NoError)
  }

  /**
   * Any legal run gives out the message under the key stream of the standard, and then the tag of
   * the standard, however header and message are cut up, in both directions; CCM gives a tag exactly
   * when the lengths were those specified.
   */
  lemma AnyRunIsStandard(m: Machine, iv: bytes, headerLength: nat, messageLength: nat, calls: seq<Call>, size: nat)
    requires m.Shape() && !m.state.Start? && m.mode.MinIVLength() <= |iv| <= m.mode.MaxIVLength()
    requires Prepared(m, iv, headerLength, messageLength).1 == NoError
    requires var b := Prepared(m, iv, headerLength, messageLength).0;
      Run(b, calls).1 == NoError && !Run(b, calls).0.state.AuthFooter?
    requires |Headers(calls)| < LWORD && size <= m.mode.DigestSize()
    ensures var b := Prepared(m, iv, headerLength, messageLength).0;
      var (t, _, output) := Run(b, calls);
      var (u, e, mac) := Finished(t, size);
      && output == StandardCrypt(m.mode, m.inner.key, iv, Datas(calls))
      && (e == NoError <==> (m.mode.CcmMode? ==> headerLength == |Headers(calls)| && messageLength == |Datas(calls)|))
      && (e == NoError ==>
            && u.state.KeySet?
            && mac == StandardTag(m.mode, m.inner.key, iv, Headers(calls), Authentic(m, Datas(calls), output), size))
  {
    hide Headers, Datas, Run, Finished, StandardTag, StandardCrypt, Crypt, OneShotTag, Specified, Mode.MaxMessageLength;
    var b := Prepared(m, iv, headerLength, messageLength).0;
    PreparedIs(m, iv, headerLength, messageLength);
    AnyRun(b, calls, size);
    RunIsShort(b, calls);
    var output := Run(b, calls).2;
    PreparedOneShotTag(m, iv, headerLength, messageLength, Headers(calls), Authentic(m, Datas(calls), output), size);
    CryptIsStandard(b.mode, b.inner, Datas(calls));
  }

  /** CCM has to be told the lengths: without them there is a tag for an empty header and message only. */
  lemma UnspecifiedLengths(m: Machine, iv: bytes, header: bytes, text: bytes, size: nat)
    requires m.Shape() && m.mode.CcmMode? && !m.state.Start? && m.mode.MinIVLength() <= |iv| <= m.mode.MaxIVLength()
    requires |header| < LWORD && |text| < LWORD && size <= m.mode.DigestSize()
    ensures var a := Resynchronized(m, iv).0;
      && Fresh(a) && a.mode == m.mode && a.mode.InStep(a.inner)
      && (OneShotTag(a.mode, a.inner, a.held, header, text, size).Some? <==> header == [] && text == [])
  {
    hide Ccm.FlushBuffer, Front, Tail, BlockCipher.Process, Mode.LastFooterBlock;
    var a := Resynchronized(m, iv).0;
    assert a.inner.aadLength == 0 && a.inner.messageLength == 0;
  }

  /** What a prepared machine keeps of the key and the IV. */
  lemma PreparedIs(m: Machine, iv: bytes, headerLength: nat, messageLength: nat)
    requires m.Shape() && !m.state.Start? && m.mode.MinIVLength() <= |iv| <= m.mode.MaxIVLength()
    requires Prepared(m, iv, headerLength, messageLength).1 == NoError
    ensures var b := Prepared(m, iv, headerLength, messageLength).0;
      && Fresh(b) && b.mode == m.mode && b.encrypting == m.encrypting && b.mode.InStep(b.inner)
      && b.inner.key == m.inner.key && b.inner.iv == iv
      && b.mode.MaxMessageLength(b.inner) == Longest(m.mode, iv) < LWORD
      && (m.mode.CcmMode? ==> Longest(m.mode, iv) < Pow2(8 * (15 - |iv|)))
  {
    LongestFits(m.mode, m.inner, iv);
    hide Pow2, Longest, BlockCipher.Process;
  }

  lemma PreparedOneShotTag(m: Machine, iv: bytes, headerLength: nat, messageLength: nat, header: bytes, text: bytes, size: nat)
    requires m.Shape() && !m.state.Start? && m.mode.MinIVLength() <= |iv| <= m.mode.MaxIVLength()
    requires Prepared(m, iv, headerLength, messageLength).1 == NoError
    requires |header| < LWORD && |text| < LWORD && size <= m.mode.DigestSize()
    ensures var b := Prepared(m, iv, headerLength, messageLength).0;
      && b.mode.Valid() && b.mode.InStep(b.inner)
      && OneShotTag(m.mode, b.inner, b.held, header, text, size)
         == if m.mode.CcmMode? && !(headerLength == |header| && messageLength == |text|) then None
            else Some(StandardTag(m.mode, m.inner.key, iv, header, text, size))
  {
    hide OneShotTag, CcmTag, MacInput, Specified, Pow2;
    var a := Resynchronized(m, iv).0;
    assert a.held == [] && Fresh(a);
    if m.mode.CcmMode? {
      CcmOneShotTag(a, iv, headerLength, messageLength, header, text, size);
    } else {
      ChaChaPolyTag(m.mode, a.inner, header, text, size);
    }
  }
}
