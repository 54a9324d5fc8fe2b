/** Objects of authenticated modes: `AuthenticatedSymmetricCipherBase` with a mode's members. */
module AuthenticatedCipher {
  import opened Numbers
  import opened Wrappers
  import opened Bytes
  import opened Ciphers
  import opened AeadState
  import opened AeadModes
  import opened AeadMachine
  import Aead
  import Ccm

  /** data copied over the buffer from a position on. */
  function Overwrite(buffer: bytes, at: nat, data: bytes): (r: bytes)
    requires at + |data| <= |buffer|
    ensures |r| == |buffer|
    ensures r[..at] == buffer[..at] && r[at..at + |data|] == data && r[at + |data|..] == buffer[at + |data|..]
  {
    buffer[..at] + data + buffer[at + |data|..]
  }

  /** Data that does not fill the block is all held. */
  lemma HeldWhole(mode: Mode, s: Inner, data: bytes)
    requires mode.InStep(s) && |data| < mode.BlockSize()
    ensures Front(mode, s, data) == s && Tail(mode, data) == data
  {
    FrontOfTail(mode, s, data);
  }

  /** One full block, and the rest on its own. */
  lemma BlockThenRest(mode: Mode, s: Inner, data: bytes)
    requires mode.InStep(s) && |data| >= mode.BlockSize()
    ensures var t := mode.AuthenticateBlock(s, data[..mode.BlockSize()]);
      && Front(mode, s, data) == Front(mode, t, data[mode.BlockSize()..])
      && Tail(mode, data) == Tail(mode, data[mode.BlockSize()..])
  {
    var block, rest := data[..mode.BlockSize()], data[mode.BlockSize()..];
    assert block + rest == data;
    FrontMore(mode, s, block, rest);
    assert WholePart(|block|, mode.BlockSize()) == mode.BlockSize();
    assert block[..mode.BlockSize()] == block && block[mode.BlockSize()..] == [];
    var t := mode.AuthenticateBlock(s, block);
    assert AuthenticateAll(mode, t, []) == t;
    assert [] + rest == rest;
  }

  lemma WholeBlocks(mode: Mode, s: Inner, data: bytes)
    requires mode.InStep(s)
    ensures var w := WholePart(|data|, mode.BlockSize());
      Front(mode, s, data) == AuthenticateAll(mode, s, data[..w]) && Tail(mode, data) == data[w..]
  {
  }

  class AuthenticatedCipherBase {
    const mode: Mode
    const encrypting: bool
    var state: State
    var inner: Inner
    /** `m_buffer` as far as data is held in it, and `m_bufferedDataLength`. */
    var buffer: bytes
    var num: nat
    var totalHeader: nat
    var totalMessage: nat
    var totalFooter: nat
    /** The position of the cipher in its key stream. */
    var pos: nat

    predicate Valid()
      reads this
    {
      && num <= |buffer| == (if mode.CcmMode? then 16 else 0)
      && State().Shape()
    }

    function State(): Machine
      reads this
      requires num <= |buffer|
    {
      Machine(mode, encrypting, state, inner, buffer[..num], totalHeader, totalMessage, totalFooter, pos)
    }

    /** The nonce is still in the buffer: nothing has been held since the IV was set. */
    predicate NonceInBuffer()
      reads this
      requires Valid()
    {
      mode.CcmMode? ==> num == 0 && mode.InStep(inner) && buffer[1..16 - inner.lengthBytes] == inner.iv
    }

    constructor (mode: Mode, encrypting: bool)
      requires mode.Valid()
      ensures Valid() && this.mode == mode && this.encrypting == encrypting && state.Start?
    {
      this.mode, this.encrypting := mode, encrypting;
      state := Start;
      inner := Inner([], [], if mode.CcmMode? then Zeros(16) else [], 0, 0, 0);
      buffer := if mode.CcmMode? then Zeros(16) else [];
      num, totalHeader, totalMessage, totalFooter, pos := 0, 0, 0, 0, 0;
    }

    /** With an IV among the parameters, or without. */
    method SetKey(key: bytes, iv: Option<bytes>) returns (e: Error)
      requires Valid()
      modifies this
      ensures Valid()
      ensures (State(), e) == Keyed(old(State()), key, iv)
    {
      num := 0;
      state := Start;
      inner := inner.(key := key, lengthBytes := 8);
      state := KeySet;
      match iv {
      case None => e := NoError;
      case Some(v) => e := Resynchronize(v);
      }
    }

    /** The leftover of the last call is completed first; whole blocks go on; the rest is held. */
    method AuthenticateData(data: bytes)
      requires Valid() && mode.InStep(inner)
      modifies this`inner, this`buffer, this`num
      ensures Valid()
      ensures State() == Authenticated(old(State()), data)
    {
      ghost var was := inner;
      ghost var all := buffer[..num] + data;
      hide Front, Tail, AuthenticateAll, WholePart, Mode.AuthenticateBlock, Whole;
      if data == [] {
        assert all == buffer[..num];
        HeldWhole(mode, inner, all);
        return;
      }
      var input := data;
      var blockSize := mode.BlockSize();
      if num != 0 {
        if num + |input| >= blockSize {
          buffer := Overwrite(buffer, num, input[..blockSize - num]);
          assert buffer == all[..blockSize];
          BlockThenRest(mode, was, all);
          inner := mode.AuthenticateBlock(inner, buffer);
          input := input[blockSize - num..];
          num := 0;
          assert input == all[blockSize..];
        } else {
          HeldWhole(mode, inner, all);
          buffer := Overwrite(buffer, num, input);
          num := num + |input|;
          assert buffer[..num] == all;
          return;
        }
      } else {
        assert all == data;
      }
      assert Front(mode, inner, input) == Front(mode, was, all) && Tail(mode, input) == Tail(mode, all);
      WholeBlocks(mode, inner, input);
      var whole := WholePart(|input|, blockSize);
      inner := AuthenticateAll(mode, inner, input[..whole]);
      input := input[whole..];
      if |buffer| > 0 {
        buffer := Overwrite(buffer, 0, input);
      }
      num := |input|;
      assert buffer[..num] == input;
    }

    method Resynchronize(iv: bytes) returns (e: Error)
      requires Valid()
      modifies this
      ensures Valid()
      ensures (State(), e) == Resynchronized(old(State()), iv)
      ensures e == NoError ==> NonceInBuffer() && Fresh(State()) && num == 0
    {
      if state.Start? {
        return BadState;
      }
      num, totalHeader, totalMessage, totalFooter := 0, 0, 0, 0;
      state := KeySet;
      if |iv| < mode.MinIVLength() || |iv| > mode.MaxIVLength() {
        return InvalidArgument;
      }
      inner := mode.Resync(inner, iv);
      if mode.CcmMode? {
        buffer := Ccm.CounterBlock(inner.lengthBytes, iv);
      }
      pos := mode.StreamStart();
      state := IVSet;
      return NoError;
    }

    method SpecifyDataLengths(headerLength: nat, messageLength: nat) returns (e: Error)
      requires Valid()
      modifies this
      ensures Valid()
      ensures mode.CcmMode? && old(state).IVSet? ==> 2 <= old(inner).lengthBytes <= 8
      ensures (State(), e) == Specified(old(State()), if mode.CcmMode? && old(state).IVSet? then old(buffer)[1..16 - old(inner).lengthBytes] else [],
                                        headerLength, messageLength)
    {
      if headerLength > mode.MaxHeaderLength() || messageLength > mode.MaxMessageLength(inner) {
        return InvalidArgument;
      }
      if mode.CcmMode? {
        if !state.IVSet? {
          return BadState;
        }
        var nonce := buffer[1..16 - inner.lengthBytes];
        var first := Ccm.FirstBlock(mode.digestSize, inner.lengthBytes, nonce, headerLength, messageLength);
        inner := inner.(aadLength := headerLength, messageLength := messageLength,
                        mac := mode.ccm.Cipher(inner.key).Process(first));
        if headerLength > 0 {
          var prefix := Ccm.HeaderPrefix(headerLength);
          buffer := Overwrite(buffer, 0, prefix);
          num := |prefix|;
          assert buffer[..num] == prefix;
        }
      }
      return NoError;
    }

    method Update(input: bytes) returns (e: Error)
      requires Valid()
      modifies this
      ensures Valid()
      ensures (State(), e) == Updated(old(State()), input)
    {
      hide Authenticated, Mode.LastConfidentialBlock;
      if input == [] {
        return NoError;
      }
      match state {
      case Start => return BadState;
      case KeySet => return BadState;
      case IVSet =>
        AuthenticateData(input);
        totalHeader := (totalHeader + |input|) % LWORD;
      case AuthFooter =>
        AuthenticateData(input);
        totalFooter := (totalFooter + |input|) % LWORD;
      case _ =>
        var last := mode.LastConfidentialBlock(inner, buffer[..num], totalMessage);
        if last.None? {
          return InvalidArgument;
        }
        inner := last.value;
        num := 0;
        state := AuthFooter;
        AuthenticateData(input);
        totalFooter := (totalFooter + |input|) % LWORD;
      }
      return NoError;
    }

    method ProcessData(input: bytes) returns (e: Error, output: bytes)
      requires Valid()
      modifies this
      ensures Valid()
      ensures (State(), e, output) == Processed(old(State()), input)
    {
      hide Front, Tail, Crypt, Mode.LastHeaderBlock, Mode.MaxMessageLength, Mode.InStep;
      ghost var m := State();
      assert state.HasIV() ==> mode.InStep(inner);
      if state.HasIV() && |input| > (mode.MaxMessageLength(inner) - totalMessage) % LWORD {
        return InvalidArgument, [];
      }
      totalMessage := (totalMessage + |input|) % LWORD;
      if state.IVSet? {
        var last := mode.LastHeaderBlock(inner, buffer[..num], totalHeader);
        if last.None? {
          return InvalidArgument, [];
        }
        inner := last.value;
        num := 0;
        state := if mode.OnPlaintext() == encrypting then AuthUntransformed else AuthTransformed;
        assert State().(totalMessage := m.totalMessage) == Opened(m, inner);
      }
      if !state.InMessage() {
        return BadState, [];
      }
      output := Transform(input);
      return NoError, output;
    }

    /** The two states that take message data; the total has been counted. */
    method Transform(input: bytes) returns (output: bytes)
      requires Valid() && state.InMessage() && mode.InStep(inner)
      modifies this
      ensures Valid()
      ensures (State(), output) == (Transformed(old(State()), input).0.(totalMessage := old(totalMessage)),
                                    Transformed(old(State()), input).1)
    {
      hide Front, Tail, Crypt, Mode.InStep;
      ghost var was := inner;
      if state.AuthUntransformed? {
        AuthenticateData(input);
        CryptSame(mode, was, inner, pos, input);
        output := Crypt(mode, inner, pos, input);
      } else {
        output := Crypt(mode, inner, pos, input);
        AuthenticateData(output);
      }
      pos := pos + |input|;
    }

    method TruncatedFinal(size: nat) returns (e: Error, mac: bytes)
      requires Valid()
      modifies this
      ensures Valid()
      ensures (State(), e, mac) == Finished(old(State()), size)
    {
      if size > mode.DigestSize() || totalHeader > mode.MaxHeaderLength() || totalFooter > mode.MaxFooterLength() {
        return InvalidArgument, [];
      }
      if !state.HasIV() {
        return BadState, [];
      }
      if state.IVSet? {
        var last := mode.LastHeaderBlock(inner, buffer[..num], totalHeader);
        if last.None? {
          return InvalidArgument, [];
        }
        inner := last.value;
        num := 0;
      }
      if !state.AuthFooter? {
        var last := mode.LastConfidentialBlock(inner, buffer[..num], totalMessage);
        if last.None? {
          return InvalidArgument, [];
        }
        inner := last.value;
        num := 0;
      }
      mac := mode.LastFooterBlock(inner, totalHeader, totalMessage, size);
      num := 0;
      state := KeySet;
      return NoError, mac;
    }

    /** Both whole calls up to the tag; ChaCha20/Poly1305 is not told the lengths. */
    method OneCall(iv: bytes, header: bytes, input: bytes, size: nat) returns (e: Error, output: bytes, mac: bytes)
      requires Valid()
      modifies this
      ensures Valid()
      ensures (State(), e, output, mac) == Aead.OneCall(old(State()), iv, header, input, size)
    {
      hide Machine.Shape, Specified, Updated, Processed, Finished;
      e := Resynchronize(iv);
      if e != NoError {
        return e, [], [];
      }
      if mode.CcmMode? {
        assert buffer[1..16 - inner.lengthBytes] == iv;
        e := SpecifyDataLengths(|header|, |input|);
        if e != NoError {
          return e, [], [];
        }
      }
      e := Update(header);
      if e != NoError {
        return e, [], [];
      }
      e, output := ProcessData(input);
      if e != NoError {
        return e, output, [];
      }
      e, mac := TruncatedFinal(size);
    }

    /** Accepted exactly when the lengths fit, and then the result is that of the standards. */
    method EncryptAndAuthenticate(iv: bytes, header: bytes, message: bytes, size: nat)
      returns (e: Error, ciphertext: bytes, mac: bytes)
      requires Valid() && !state.Start? && encrypting && |header| < LWORD
      modifies this
      ensures Valid()
      ensures e == NoError <==> && mode.MinIVLength() <= |iv| <= mode.MaxIVLength()
                                && |message| <= Aead.Longest(mode, iv) && size <= mode.DigestSize()
      ensures e == NoError ==>
        && state.KeySet?
        && ciphertext == Aead.StandardCrypt(mode, old(inner).key, iv, message)
        && mac == Aead.StandardTag(mode, old(inner).key, iv, header, if mode.OnPlaintext() then message else ciphertext, size)
    {
      hide Aead.OneCall, Aead.StandardTag, Aead.StandardCrypt, Aead.Longest;
      Aead.OneCallIsStandard(State(), iv, header, message, size);
      e, ciphertext, mac := OneCall(iv, header, message, size);
    }

    /** The message comes out in any case; `ok` says whether the tag is the one given. */
    method DecryptAndVerify(iv: bytes, header: bytes, ciphertext: bytes, mac: bytes)
      returns (e: Error, message: bytes, ok: bool)
      requires Valid() && !state.Start? && !encrypting && |header| < LWORD
      modifies this
      ensures Valid()
      ensures e == NoError <==> && mode.MinIVLength() <= |iv| <= mode.MaxIVLength()
                                && |ciphertext| <= Aead.Longest(mode, iv) && |mac| <= mode.DigestSize()
      ensures e == NoError ==>
        && state.KeySet?
        && ciphertext == Aead.StandardCrypt(mode, old(inner).key, iv, message)
        && (ok <==> mac == Aead.StandardTag(mode, old(inner).key, iv, header,
                                            if mode.OnPlaintext() then message else ciphertext, |mac|))
    {
      hide Aead.OneCall, Aead.StandardTag, Aead.Longest;
      Aead.OneCallIsStandard(State(), iv, header, ciphertext, |mac|);
      ghost var key := inner.key;
      var tag: bytes;
      e, message, tag := OneCall(iv, header, ciphertext, |mac|);
      ok := mac == tag;
      if e == NoError {
        Aead.StandardCryptInvolution(mode, key, iv, ciphertext);
      }
    }
  }
}
