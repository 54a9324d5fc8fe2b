/** What the two authenticated modes fill in for the base class: `chachapoly.cpp` and `ccm.cpp`. */
module AeadState {
  import opened Bytes

  /**
   * The fields a derived class adds. `mac` is what the MAC has been given so far for
   * ChaCha20/Poly1305, and the CBC buffer for CCM; the length fields are CCM's.
   */
  datatype Inner = Inner(key: bytes, iv: bytes, mac: bytes, lengthBytes: nat, aadLength: nat, messageLength: nat)

  /** Zero bytes up to the next multiple of 16. */
  function Pad16(n: nat): (z: bytes)
    ensures z == Zeros(|z|) && (n + |z|) % 16 == 0 && |z| < 16
  {
    Zeros((16 - n % 16) % 16)
  }
}

/** `ChaCha20Poly1305_Base` */
module ChaChaPoly {
  import opened Bytes
  import opened AeadState

  /** The ChaCha20 key stream of a key and an IV, by byte position, and the Poly1305 tag of a message. */
  datatype Primitives = Primitives(stream: (bytes, bytes, nat) -> byte, poly1305: (bytes, bytes) -> bytes) {
    function Stream(key: bytes, iv: bytes, pos: nat): byte { stream(key, iv, pos) }

    function Tag(key: bytes, message: bytes): (t: bytes)
      ensures |t| == 16
    {
      var t := poly1305(key, message);
      if |t| == 16 then t else Zeros(16)
    }

    /** The first 32 bytes of key stream block 0 key the MAC. */
    function MacKey(key: bytes, iv: bytes): bytes {
      seq(32, i requires 0 <= i < 32 => Stream(key, iv, i))
    }
  }

  function Resync(s: Inner, iv: bytes): Inner {
    s.(iv := iv, mac := [])
  }

  /** `AccessMAC().Update` with one byte. */
  function AuthenticateBlock(s: Inner, block: bytes): Inner {
    s.(mac := s.mac + block)
  }

  /** The pads are computed from the running totals, which are modulo 2^64. */
  function LastHeaderBlock(s: Inner, totalHeader: nat): Inner {
    s.(mac := s.mac + Pad16(totalHeader))
  }

  function LastConfidentialBlock(s: Inner, totalMessage: nat): Inner {
    s.(mac := s.mac + Pad16(totalMessage))
  }

  function LastFooterBlock(p: Primitives, s: Inner, totalHeader: nat, totalMessage: nat, size: nat): (mac: bytes)
    requires size <= 16
    ensures |mac| == size
  {
    p.Tag(p.MacKey(s.key, s.iv), s.mac + LittleEndian(totalHeader, 8) + LittleEndian(totalMessage, 8))[..size]
  }
}

/** `CCM_Base` */
module Ccm {
  import opened Numbers
  import opened Wrappers
  import opened Bytes
  import opened Ciphers
  import opened AeadState

  /** A cipher on blocks of 16 bytes under a key. */
  datatype Primitives = Primitives(encrypt: (bytes, bytes) -> bytes) {
    function Cipher(key: bytes): (c: BlockCipher)
      ensures c.blockSize == 16
    {
      BlockCipher(16, (b: bytes) => encrypt(key, b))
    }
  }

  function LengthBytes(ivLength: nat): nat
    requires ivLength <= 13
  {
    if 15 - ivLength > 8 then 8 else 15 - ivLength
  }

  /** The counter block: flag, nonce, and a zero counter. */
  function CounterBlock(lengthBytes: nat, iv: bytes): (b: bytes)
    requires 1 <= lengthBytes <= 8 && |iv| <= 15
    ensures |b| == 16
  {
    [lengthBytes - 1] + iv + Zeros(15 - |iv|)
  }

  /** The CBC buffer is left as it is until the lengths are known. */
  function Resync(s: Inner, iv: bytes): Inner
    requires |iv| <= 13
  {
    s.(iv := iv, lengthBytes := LengthBytes(|iv|), aadLength := 0, messageLength := 0)
  }

  /** The counter mode's i-th counter block: the initial one plus i, as a 128-bit number. */
  function Counted(block: bytes, i: nat): (b: bytes)
    requires |block| == 16
    ensures |b| == 16
  {
    BigEndian(Value(block) + i, 16)
  }

  /** The counter mode key stream by byte position. */
  function Stream(p: Primitives, s: Inner, pos: nat): byte
    requires 1 <= s.lengthBytes <= 8 && |s.iv| <= 15
  {
    p.Cipher(s.key).Process(Counted(CounterBlock(s.lengthBytes, s.iv), pos / 16))[pos % 16]
  }

  /** The 2, 6 or 10 bytes in front of the header that give its length. */
  function HeaderPrefix(headerLength: nat): (prefix: bytes)
    requires headerLength < LWORD
    ensures |prefix| < 16
  {
    if headerLength == 0 then []
    else if headerLength < 0x10000 - 0x100 then BigEndian(headerLength, 2)
    else if headerLength < 0x1_0000_0000 then [0xff, 0xfe] + BigEndian(headerLength, 4)
    else [0xff, 0xff] + BigEndian(headerLength, 8)
  }

  /**
   * The first block of the CBC-MAC: the flag, the message length in the last eight bytes, and then
   * the nonce copied over the front of them.
   */
  function FirstBlock(digestSize: nat, lengthBytes: nat, nonce: bytes, headerLength: nat, messageLength: nat): (b: bytes)
    requires 4 <= digestSize <= 16 && 2 <= lengthBytes <= 8 && |nonce| == 15 - lengthBytes
    ensures |b| == 16
  {
    var flag: byte := (if headerLength > 0 then 64 else 0) + 8 * ((digestSize - 2) / 2) + (lengthBytes - 1);
    var tail := BigEndian(messageLength, 8);
    [flag] + nonce + tail[8 - lengthBytes..]
  }

  function AuthenticateBlock(p: Primitives, s: Inner, block: bytes): Inner
    requires |s.mac| == |block| == 16
  {
    s.(mac := p.Cipher(s.key).Process(XorBytes(s.mac, block)))
  }

  /** The bytes left in the buffer are xored in and enciphered. */
  function FlushBuffer(p: Primitives, s: Inner, tail: bytes): Inner
    requires |s.mac| == 16 && |tail| < 16
  {
    if tail == [] then s else s.(mac := p.Cipher(s.key).Process(XorAt(s.mac, 0, tail)))
  }

  function LastHeaderBlock(p: Primitives, s: Inner, tail: bytes, totalHeader: nat): Option<Inner>
    requires |s.mac| == 16 && |tail| < 16
  {
    if s.aadLength != totalHeader then None else Some(FlushBuffer(p, s, tail))
  }

  function LastConfidentialBlock(p: Primitives, s: Inner, tail: bytes, totalMessage: nat): Option<Inner>
    requires |s.mac| == 16 && |tail| < 16
  {
    if s.messageLength != totalMessage then None else Some(FlushBuffer(p, s, tail))
  }

  /** The tag is masked with the start of the key stream. */
  function LastFooterBlock(p: Primitives, s: Inner, size: nat): (mac: bytes)
    requires |s.mac| == 16 && size <= 16 && 1 <= s.lengthBytes <= 8 && |s.iv| <= 15
    ensures |mac| == size
  {
    seq(size, i requires 0 <= i < size => Xor(s.mac[i], Stream(p, s, i)))
  }
}

/** The virtual members of `AuthenticatedSymmetricCipherBase`, dispatched on the mode. */
module AeadModes {
  import opened Numbers
  import opened Wrappers
  import opened Bytes
  import opened Ciphers
  import opened AeadState
  import ChaChaPoly
  import Ccm

  datatype Mode =
    | ChaCha20Poly1305(chacha: ChaChaPoly.Primitives)
    | CcmMode(ccm: Ccm.Primitives, digestSize: nat)
  {
    /** `SetKeyWithoutResync` refuses other digest sizes. */
    predicate Valid() {
      match this
      case ChaCha20Poly1305(_) => true
      case CcmMode(_, d) => 4 <= d <= 16 && d % 2 == 0
    }

    function BlockSize(): nat {
      if CcmMode? then 16 else 1
    }

    predicate OnPlaintext() {
      CcmMode?
    }

    function DigestSize(): nat {
      if CcmMode? then digestSize else 16
    }

    function MinIVLength(): nat { if CcmMode? then 7 else 12 }

    function MaxIVLength(): nat { if CcmMode? then 13 else 12 }

    function MaxHeaderLength(): nat { LWORD - 1 }

    function MaxMessageLength(s: Inner): nat {
      match this
      case ChaCha20Poly1305(_) => 274877906880
      case CcmMode(_, _) => if s.lengthBytes < 8 then Pow2(8 * s.lengthBytes) - 1 else LWORD - 1
    }

    function MaxFooterLength(): nat { 0 }

    /** The fields are in step with the mode, as `Resync` leaves them. */
    predicate InStep(s: Inner) {
      CcmMode? ==> |s.mac| == 16 && 2 <= s.lengthBytes <= 8 && |s.iv| == 15 - s.lengthBytes
    }

    function Resync(s: Inner, iv: bytes): (t: Inner)
      requires MinIVLength() <= |iv| <= MaxIVLength()
      requires CcmMode? ==> |s.mac| == 16
      ensures InStep(t) && t.key == s.key && t.iv == iv
    {
      if CcmMode? then Ccm.Resync(s, iv) else ChaChaPoly.Resync(s, iv)
    }

    function AuthenticateBlock(s: Inner, block: bytes): (t: Inner)
      requires InStep(s) && |block| == BlockSize()
      ensures t == s.(mac := t.mac) && InStep(t)
    {
      if CcmMode? then Ccm.AuthenticateBlock(ccm, s, block) else ChaChaPoly.AuthenticateBlock(s, block)
    }

    function LastHeaderBlock(s: Inner, tail: bytes, totalHeader: nat): (t: Option<Inner>)
      requires InStep(s) && |tail| < BlockSize()
      ensures t.Some? ==> t.value == s.(mac := t.value.mac) && InStep(t.value)
    {
      if CcmMode? then Ccm.LastHeaderBlock(ccm, s, tail, totalHeader) else Some(ChaChaPoly.LastHeaderBlock(s, totalHeader))
    }

    function LastConfidentialBlock(s: Inner, tail: bytes, totalMessage: nat): (t: Option<Inner>)
      requires InStep(s) && |tail| < BlockSize()
      ensures t.Some? ==> t.value == s.(mac := t.value.mac) && InStep(t.value)
    {
      if CcmMode? then Ccm.LastConfidentialBlock(ccm, s, tail, totalMessage)
      else Some(ChaChaPoly.LastConfidentialBlock(s, totalMessage))
    }

    function LastFooterBlock(s: Inner, totalHeader: nat, totalMessage: nat, size: nat): (mac: bytes)
      requires InStep(s) && Valid() && size <= DigestSize()
      ensures |mac| == size
    {
      if CcmMode? then Ccm.LastFooterBlock(ccm, s, size)
      else ChaChaPoly.LastFooterBlock(chacha, s, totalHeader, totalMessage, size)
    }

    /** The key stream by position, and where the message starts in it. */
    function Stream(s: Inner, pos: nat): byte
      requires InStep(s)
    {
      if CcmMode? then Ccm.Stream(ccm, s, pos) else chacha.Stream(s.key, s.iv, pos)
    }

    function StreamStart(): nat {
      if CcmMode? then 16 else 64
    }
  }

  /** `AuthenticateBlocks` on whole blocks. */
  function AuthenticateAll(mode: Mode, s: Inner, data: bytes): (t: Inner)
    requires mode.InStep(s) && Whole(|data|, mode.BlockSize())
    ensures t == s.(mac := t.mac) && mode.InStep(t)
    decreases |data|
  {
    if data == [] then s
    else AuthenticateAll(mode, mode.AuthenticateBlock(s, data[..mode.BlockSize()]), data[mode.BlockSize()..])
  }

  lemma {:induction false} AuthenticateConcat(mode: Mode, s: Inner, a: bytes, b: bytes)
    requires mode.InStep(s) && Whole(|a|, mode.BlockSize()) && Whole(|b|, mode.BlockSize())
    ensures Whole(|a + b|, mode.BlockSize())
    ensures AuthenticateAll(mode, s, a + b) == AuthenticateAll(mode, AuthenticateAll(mode, s, a), b)
    decreases |a|
  {
    WholePlus(|a|, |b|, mode.BlockSize());
    hide Mode.AuthenticateBlock, Whole, Mode.InStep;
    if a == [] {
      assert a + b == b;
    } else {
      var n := mode.BlockSize();
      WholeStep(|a|, n);
      WholeStep(|a + b|, n);
      var t := mode.AuthenticateBlock(s, a[..n]);
      assert (a + b)[..n] == a[..n] && (a + b)[n..] == a[n..] + b;
      AuthenticateConcat(mode, t, a[n..], b);
    }
  }

  /** The whole blocks at the front of n bytes. */
  function WholePart(n: nat, b: nat): (w: nat)
    requires b > 0
    ensures w <= n < w + b && Whole(w, b)
  {
    if n < b then 0 else b + WholePart(n - b, b)
  }

  lemma {:induction false} WholePartUnique(n: nat, b: nat, w: nat)
    requires b > 0 && w <= n < w + b && Whole(w, b)
    ensures WholePart(n, b) == w
  {
    if n >= b {
      WholePartUnique(n - b, b, w - b);
    }
  }

  /** data in one piece: its whole blocks authenticated, and the rest. */
  function Front(mode: Mode, s: Inner, data: bytes): (t: Inner)
    requires mode.InStep(s)
    ensures t == s.(mac := t.mac) && mode.InStep(t)
  {
    AuthenticateAll(mode, s, data[..WholePart(|data|, mode.BlockSize())])
  }

  function Tail(mode: Mode, data: bytes): (tail: bytes)
    ensures |tail| < mode.BlockSize()
  {
    data[WholePart(|data|, mode.BlockSize())..]
  }

  function HeaderDone(mode: Mode, s: Inner, data: bytes, headerLength: nat): (t: Option<Inner>)
    requires mode.InStep(s)
    ensures t.Some? ==> t.value == s.(mac := t.value.mac) && mode.InStep(t.value)
  {
    mode.LastHeaderBlock(Front(mode, s, data), Tail(mode, data), headerLength % LWORD)
  }

  function MessageDone(mode: Mode, s: Inner, data: bytes): (t: Option<Inner>)
    requires mode.InStep(s)
    ensures t.Some? ==> t.value == s.(mac := t.value.mac) && mode.InStep(t.value)
  {
    mode.LastConfidentialBlock(Front(mode, s, data), Tail(mode, data), |data| % LWORD)
  }

  /**
   * The tag in one shot: the header behind what a mode put in front of it, the authenticated form
   * of the message, and the closing block.
   */
  function OneShotTag(mode: Mode, s: Inner, prefix: bytes, header: bytes, text: bytes, size: nat): Option<bytes>
    requires mode.InStep(s) && mode.Valid() && size <= mode.DigestSize()
  {
    match HeaderDone(mode, s, prefix + header, |header|)
    case None => None
    case Some(t) =>
      match MessageDone(mode, t, text)
      case None => None
      case Some(u) => Some(mode.LastFooterBlock(u, |header| % LWORD, |text| % LWORD, size))
  }

  /** text xored with the key stream from a position on. */
  function Crypt(mode: Mode, s: Inner, pos: nat, text: bytes): (r: bytes)
    requires mode.InStep(s)
    ensures |r| == |text|
  {
    seq(|text|, i requires 0 <= i < |text| => Xor(text[i], mode.Stream(s, pos + i)))
  }

  /** Encrypting and decrypting are the same operation, and undo each other. */
  lemma CryptInvolution(mode: Mode, s: Inner, pos: nat, text: bytes)
    requires mode.InStep(s)
    ensures Crypt(mode, s, pos, Crypt(mode, s, pos, text)) == text
  {
    hide Xor, Mode.Stream;
    forall i | 0 <= i < |text|
      ensures Crypt(mode, s, pos, Crypt(mode, s, pos, text))[i] == text[i]
    {
      XorCancel(text[i], mode.Stream(s, pos + i));
    }
  }

  lemma CryptConcat(mode: Mode, s: Inner, pos: nat, a: bytes, b: bytes)
    requires mode.InStep(s)
    ensures Crypt(mode, s, pos, a + b) == Crypt(mode, s, pos, a) + Crypt(mode, s, pos + |a|, b)
  {
    hide Xor, Mode.Stream;
  }

  /** The key stream depends on the fields the MAC does not change. */
  lemma CryptSame(mode: Mode, s: Inner, t: Inner, pos: nat, text: bytes)
    requires mode.InStep(s) && mode.InStep(t) && t == s.(mac := t.mac)
    ensures Crypt(mode, s, pos, text) == Crypt(mode, t, pos, text)
  {
  }
}
