/** CMAC (`cmac.cpp`): subkey derivation, incremental update, and the one-shot definition. */
module Cmac {
  import opened Numbers
  import opened Bytes
  import opened Ciphers

  /** The block lengths the subkey derivation knows a polynomial for. */
  predicate WideBlock(len: nat) {
    len == 8 || len == 16 || len == 32 || len == 64 || len == 128
  }

  /** The last three bytes of the reduction polynomial for blocks of len bytes. */
  function ReductionTail(len: nat): (t: bytes)
    requires WideBlock(len)
    ensures |t| == 3
  {
    if len == 8 then [0, 0, 0x1b]
    else if len == 16 then [0, 0, 0x87]
    else if len == 32 then [0, 4, 0x25]
    else if len == 64 then [0, 1, 0x25]
    else [8, 0, 0x43]
  }

  /**
   * The polynomials are x^64 + x^4 + x^3 + x + 1, x^128 + x^7 + x^2 + x + 1, x^256 + x^10 + x^5 + x^2 + 1,
   * x^512 + x^8 + x^5 + x^2 + 1 and x^1024 + x^19 + x^6 + x + 1.
   */
  lemma TailsOfPolynomials()
    ensures Value(ReductionTail(8)) == Pow2(4) + Pow2(3) + Pow2(1) + Pow2(0)
    ensures Value(ReductionTail(16)) == Pow2(7) + Pow2(2) + Pow2(1) + Pow2(0)
    ensures Value(ReductionTail(32)) == Pow2(10) + Pow2(5) + Pow2(2) + Pow2(0)
    ensures Value(ReductionTail(64)) == Pow2(8) + Pow2(5) + Pow2(2) + Pow2(0)
    ensures Value(ReductionTail(128)) == Pow2(19) + Pow2(6) + Pow2(1) + Pow2(0)
  {
    hide Value;
    PowersUpTo19();
    ValueOfThree(0, 0, 0x1b);
    ValueOfThree(0, 0, 0x87);
    ValueOfThree(0, 4, 0x25);
    ValueOfThree(0, 1, 0x25);
    ValueOfThree(8, 0, 0x43);
  }

  lemma PowersUpTo19()
    ensures Pow2(0) == 1 && Pow2(1) == 2 && Pow2(2) == 4 && Pow2(3) == 8 && Pow2(4) == 16 && Pow2(5) == 32
    ensures Pow2(6) == 64 && Pow2(7) == 128 && Pow2(8) == 0x100 && Pow2(10) == 0x400 && Pow2(19) == 0x8_0000
  {
    Pow2Add(8, 11);
    assert Pow2(11) == 0x800;
  }

  lemma ValueOfThree(a: byte, b: byte, c: byte)
    ensures Value([a, b, c]) == 0x10000 * a + 0x100 * b + c
  {
    hide Value;
    var s: bytes := [a, b, c];
    var t: bytes := [a, b];
    var u: bytes := [a];
    assert s[..2] == t && t[..1] == u && u[..0] == [];
    ValueLast(s);
    ValueLast(t);
    ValueLast(u);
    ValueNone();
  }

  /**
   * Multiplication by x of a polynomial over GF(2), coefficients as bits, modulo the polynomial
   * x^bits + reduction.
   */
  function TimesX(n: nat, bits: nat, reduction: nat): nat {
    if 2 * n < Pow2(bits) then 2 * n else XorNat(2 * n, Pow2(bits) + reduction)
  }

  /** The result is the doubled polynomial, reduced: below x^bits, and off by a multiple of the modulus. */
  lemma TimesXIsReduced(n: nat, bits: nat, reduction: nat)
    requires n < Pow2(bits) && reduction < Pow2(bits)
    ensures var r := TimesX(n, bits, reduction);
      r < Pow2(bits) && (r == 2 * n || r == XorNat(2 * n, Pow2(bits) + reduction))
    ensures 2 * n >= Pow2(bits) ==> TimesX(n, bits, reduction) == XorNat(2 * n - Pow2(bits), reduction)
  {
    if 2 * n >= Pow2(bits) {
      var v: nat := 2 * n - Pow2(bits);
      ShlOne(bits);
      XorSplit(1, 1, bits, v, reduction);
      assert XorNat(1, 1) == 0;
      XorBound(v, reduction, bits);
    }
  }

  /** A byte shifted left with carry c in leaves b' and sends c' out. */
  lemma DoubleFront(b: byte, c: nat, b': byte, c': nat, shifted: bytes, old_: bytes)
    requires 2 * b + c == 256 * c' + b'
    requires |shifted| == |old_| && Shl(c, 8 * |old_|) + Value(shifted) == 2 * Value(old_)
    ensures Shl(c', 8 * |old_| + 8) + Value([b'] + shifted) == 2 * Value([b] + old_)
  {
    hide Shl, Value;
    var j := 8 * |old_|;
    ValueFront(b', shifted);
    ValueFront(b, old_);
    ByteShift(c', j);
    ShlShl(c', 8, j);
    ShlSum(256 * c', b', j);
    ShlSum(2 * b, c, j);
    ShlSum(b, b, j);
  }

  /** The carry out of a byte is its old top bit. */
  lemma CarryOut(b: byte, c: nat)
    requires c < 2
    ensures 2 * b + c == 256 * (b / 128) + (2 * b + c) % 256 && b / 128 < 2
  {
  }

  /** The bytes of `was` from i on have been shifted; `carry` is the bit that fell out. */
  ghost predicate ShiftedFrom(k: bytes, was: bytes, i: nat, carry: nat) {
    && |k| == |was| && i <= |was| && carry < 2
    && k[..i] == was[..i]
    && Shl(carry, 8 * (|was| - i)) + Value(k[i..]) == 2 * Value(was[i..])
  }

  lemma ShiftNextByte(k: bytes, was: bytes, i: nat, carry: nat)
    requires ShiftedFrom(k, was, i, carry) && i > 0
    ensures ShiftedFrom(k[i - 1 := (2 * k[i - 1] + carry) % 256], was, i - 1, k[i - 1] / 128)
  {
    hide Shl, Value;
    var b: byte := k[i - 1];
    assert b == was[i - 1] by { assert k[..i][i - 1] == was[..i][i - 1]; }
    CarryOut(b, carry);
    var b': byte := (2 * b + carry) % 256;
    DoubleFront(b, carry, b', b / 128, k[i..], was[i..]);
    var t := k[i - 1 := b'];
    assert t[i - 1..] == [b'] + k[i..];
    assert was[i - 1..] == [b] + was[i..];
    assert t[..i - 1] == k[..i][..i - 1] == was[..i][..i - 1] == was[..i - 1];
  }

  /** What the switch on the block length xors into the last bytes. */
  method XorReduction(k: array<byte>)
    requires WideBlock(k.Length)
    modifies k
    ensures k[..] == old(XorAt(k[..], k.Length - 3, ReductionTail(k.Length)))
  {
    var len := k.Length;
    if len == 8 {
      k[7] := Xor(k[7], 0x1b);
    } else if len == 16 {
      k[15] := Xor(k[15], 0x87);
    } else if len == 32 {
      k[30] := Xor(k[30], 4);
      k[31] := Xor(k[31], 0x25);
    } else if len == 64 {
      k[62] := Xor(k[62], 1);
      k[63] := Xor(k[63], 0x25);
    } else {
      k[125] := Xor(k[125], 8);
      k[126] := Xor(k[126], 0x00);
      k[127] := Xor(k[127], 0x43);
    }
  }

  /** The subkey step on a block: multiplication by x, in the block's own length. */
  function Doubled(k: bytes): (r: bytes)
    requires WideBlock(|k|)
    ensures |r| == |k|
  {
    BigEndian(TimesX(Value(k), 8 * |k|, Value(ReductionTail(|k|))), |k|)
  }

  /** If no bit fell out, the shifted block is the result. */
  lemma ShiftWithoutCarry(k: bytes, shifted: bytes)
    requires WideBlock(|k|) && |shifted| == |k| && Value(shifted) == 2 * Value(k)
    ensures Doubled(k) == shifted
  {
    hide Value, BigEndian, XorNat, ReductionTail, Pow2, WideBlock;
    ValueBound(shifted);
    BigEndianOfValue(shifted);
  }

  /** If a bit fell out, xoring the tail in is the reduction. */
  lemma ShiftWithCarry(k: bytes, shifted: bytes)
    requires WideBlock(|k|) && |shifted| == |k| && Pow2(8 * |k|) + Value(shifted) == 2 * Value(k)
    ensures Doubled(k) == XorAt(shifted, |k| - 3, ReductionTail(|k|))
  {
    var n := |k|;
    assert n >= 8;
    hide Value, BigEndian, XorNat, ReductionTail, Pow2, WideBlock;
    var tail := ReductionTail(n);
    var r := Value(tail);
    var padded := Zeros(n - 3) + tail;
    assert XorAt(shifted, n - 3, tail) == XorBytes(shifted, padded);
    hide XorAt, XorBytes;
    ValueBound(k);
    ValueBound(padded);
    ValueZeros(n - 3, tail);
    TimesXIsReduced(Value(k), 8 * n, r);
    assert TimesX(Value(k), 8 * n, r) == XorNat(Value(shifted), Value(padded));
    ValueXor(shifted, padded);
    BigEndianOfValue(XorBytes(shifted, padded));
  }

  /** Shifting with carries and xoring the tail in if a bit fell out is multiplication by x. */
  lemma ShiftAndReduce(k: bytes, shifted: bytes, carry: nat)
    requires WideBlock(|k|) && ShiftedFrom(shifted, k, 0, carry)
    ensures Doubled(k) == if carry == 0 then shifted else XorAt(shifted, |k| - 3, ReductionTail(|k|))
  {
    hide Value, WideBlock, Doubled, ReductionTail;
    assert shifted[0..] == shifted && k[0..] == k;
    ShlOne(8 * |k|);
    if carry == 0 {
      ShiftWithoutCarry(k, shifted);
    } else {
      ShiftWithCarry(k, shifted);
    }
  }

  /** The loop of `MulU`: two bytes a round, carries handed on through two variables. */
  method ShiftLeft(k: array<byte>) returns (carry: byte)
    requires k.Length % 2 == 0
    modifies k
    ensures ShiftedFrom(k[..], old(k[..]), 0, carry)
  {
    hide ShiftedFrom;
    ghost var was := k[..];
    ghost var cur := was;
    carry := 0;
    var i := k.Length - 1;
    NothingShifted(was);
    while i >= 1
      invariant -1 <= i < k.Length && (i + 1) % 2 == 0
      invariant k[..] == cur && ShiftedFrom(cur, was, i + 1, carry)
    {
      ShiftNextByte(cur, was, i + 1, carry);
      var carry2: byte := k[i] / 128;
      k[i] := (2 * k[i] + carry) % 256;
      cur := cur[i := k[i]];
      ShiftNextByte(cur, was, i, carry2);
      carry := k[i - 1] / 128;
      k[i - 1] := (2 * k[i - 1] + carry2) % 256;
      cur := cur[i - 1 := k[i - 1]];
      i := i - 2;
    }
  }

  /** `MulU` multiplies the block by x, in place. */
  method MulU(k: array<byte>)
    requires WideBlock(k.Length)
    modifies k
    ensures k[..] == Doubled(old(k[..]))
  {
    hide Doubled, ReductionTail, ShiftedFrom;
    ghost var was := k[..];
    var carry := ShiftLeft(k);
    ShiftAndReduce(was, k[..], carry);
    if carry != 0 {
      XorReduction(k);
    }
  }

  lemma NothingShifted(was: bytes)
    ensures ShiftedFrom(was, was, |was|, 0)
  {
  }

  /** The last block with a one bit and zeros after it. */
  function Padded(last: bytes, blockSize: nat): (r: bytes)
    requires |last| < blockSize
    ensures |r| == blockSize
  {
    last + [0x80] + Zeros(blockSize - |last| - 1)
  }

  /** The one-shot definition: chain all but the last block, then the last with its subkey. */
  function OneShot(c: BlockCipher, message: bytes): (tag: bytes)
    requires WideBlock(c.blockSize)
    ensures |tag| == c.blockSize
  {
    var k1 := Doubled(c.Process(Zeros(c.blockSize)));
    var k2 := Doubled(k1);
    var cut := BeforeLast(|message|, c.blockSize);
    var x := Chain(c, Zeros(c.blockSize), message[..cut]);
    var last := message[cut..];
    var masked := if |last| == c.blockSize then XorBytes(last, k1) else XorBytes(Padded(last, c.blockSize), k2);
    c.Process(XorBytes(x, masked))
  }

  /**
   * The register after message: its last `counter` bytes xored onto the chain of what comes
   * before them.
   */
  ghost predicate Absorbed(c: BlockCipher, message: bytes, counter: nat, reg: bytes) {
    && c.blockSize > 0 && counter <= |message| && counter <= c.blockSize
    && Whole(|message| - counter, c.blockSize)
    && reg == XorAt(Chain(c, Zeros(c.blockSize), message[..|message| - counter]), 0, message[|message| - counter..])
  }

  lemma AbsorbedSize(c: BlockCipher, message: bytes, counter: nat, reg: bytes)
    requires Absorbed(c, message, counter, reg)
    ensures |reg| == c.blockSize > 0 && counter <= c.blockSize && counter <= |message|
  {
  }

  lemma AbsorbedStart(c: BlockCipher)
    requires c.blockSize > 0
    ensures Absorbed(c, [], 0, Zeros(c.blockSize))
  {
  }

  /** Xoring more input in at the counter. */
  lemma AbsorbPart(c: BlockCipher, message: bytes, counter: nat, reg: bytes, part: bytes)
    requires Absorbed(c, message, counter, reg) && counter + |part| <= c.blockSize
    ensures |reg| == c.blockSize
    ensures Absorbed(c, message + part, counter + |part|, XorAt(reg, counter, part))
  {
    hide Chain, Xor, Whole;
    var cut := |message| - counter;
    assert (message + part)[..cut] == message[..cut];
    assert (message + part)[cut..] == message[cut..] + part;
  }

  /** Enciphering a full register. */
  lemma AbsorbFull(c: BlockCipher, message: bytes, reg: bytes)
    requires Absorbed(c, message, c.blockSize, reg)
    ensures |reg| == c.blockSize && Absorbed(c, message, 0, c.Process(reg))
  {
    hide Chain, Whole, BlockCipher.Process, Xor;
    var cut := |message| - c.blockSize;
    var zero := Zeros(c.blockSize);
    var head, tail := message[..cut], message[cut..];
    var x := Chain(c, zero, head);
    ChainOne(c, x, tail);
    ChainConcat(c, zero, head, tail);
    assert head + tail == message && message[..|message| - 0] == message && message[|message| - 0..] == [];
    XorWhole(x, tail);
    XorNothing(c.Process(reg));
    assert Whole(|message| - 0, c.blockSize);
  }

  lemma XorWhole(a: bytes, b: bytes)
    requires |a| == |b|
    ensures XorAt(a, 0, b) == XorBytes(a, b)
  {
    hide Xor;
  }

  lemma XorNothing(a: bytes)
    ensures XorAt(a, 0, []) == a
  {
    hide Xor;
  }

  /** Finishing the register gives the one-shot tag. */
  lemma FinishIsOneShot(c: BlockCipher, message: bytes, counter: nat, reg: bytes, k1: bytes, k2: bytes)
    requires WideBlock(c.blockSize) && Absorbed(c, message, counter, reg)
    requires |message| > 0 ==> counter > 0
    requires k1 == Doubled(c.Process(Zeros(c.blockSize))) && k2 == Doubled(k1)
    ensures |reg| == c.blockSize
    ensures OneShot(c, message) == c.Process(
      if counter < c.blockSize then XorBytes(XorAt(reg, counter, [0x80]), k2) else XorBytes(reg, k1))
  {
    hide Chain, Doubled, WideBlock, Whole, Padded, BeforeLast, XorBytes, XorAt, BlockCipher.Process;
    var b := c.blockSize;
    var cut := |message| - counter;
    BeforeLastUnique(|message|, b, cut);
    LastBlock(Chain(c, Zeros(b), message[..cut]), message[cut..], reg, k1, k2, b);
  }

  /** The last block xored in, and then its subkey, is the last block with its subkey xored in. */
  lemma LastBlock(x: bytes, last: bytes, reg: bytes, k1: bytes, k2: bytes, b: nat)
    requires |x| == |k1| == |k2| == b && |last| <= b && reg == XorAt(x, 0, last)
    ensures |last| == b ==> XorBytes(x, XorBytes(last, k1)) == XorBytes(reg, k1)
    ensures |last| < b ==> XorBytes(x, XorBytes(Padded(last, b), k2)) == XorBytes(XorAt(reg, |last|, [0x80]), k2)
  {
    hide Xor;
    if |last| < b {
      XorRegroup(x, Padded(last, b), k2);
      assert XorAt(reg, |last|, [0x80]) == XorBytes(x, Padded(last, b));
    } else {
      XorRegroup(x, last, k1);
      assert reg == XorBytes(x, last);
    }
  }

  lemma XorRegroup(a: bytes, b: bytes, c: bytes)
    requires |a| == |b| == |c|
    ensures XorBytes(a, XorBytes(b, c)) == XorBytes(XorBytes(a, b), c)
  {
    forall i | 0 <= i < |a|
      ensures Xor(a[i], Xor(b[i], c[i])) == Xor(Xor(a[i], b[i]), c[i])
    {
      XorAssoc(a[i], b[i], c[i]);
    }
  }

  /** `CMAC_Base`; the three blocks of `m_reg` are the register and the two subkeys. */
  class CmacBase {
    var cipher: BlockCipher
    var reg: bytes
    var k1: bytes
    var k2: bytes
    var counter: nat
    /** Everything passed to `Update` since the key was set or the last tag was taken. */
    ghost var message: bytes

    ghost predicate Keyed()
      reads this
    {
      && WideBlock(cipher.blockSize)
      && k1 == Doubled(cipher.Process(Zeros(cipher.blockSize)))
      && k2 == Doubled(k1)
    }

    ghost predicate Valid()
      reads this
    {
      && Keyed()
      && Absorbed(cipher, message, counter, reg)
      && (message != [] ==> counter > 0)
    }

    constructor (c: BlockCipher)
      requires WideBlock(c.blockSize)
      ensures Valid() && cipher == c && message == []
    {
      cipher := c;
      counter := 0;
      new;
      UncheckedSetKey(c);
    }

    /** Keying derives both subkeys from the encrypted zero block. */
    method UncheckedSetKey(c: BlockCipher)
      requires WideBlock(c.blockSize)
      modifies this
      ensures Valid() && cipher == c && message == []
    {
      assert c.blockSize > 0;
      hide Doubled, WideBlock;
      cipher := c;
      var zeros := Zeros(c.blockSize);
      reg, counter, message := zeros, 0, [];
      AbsorbedStart(c);
      var l := cipher.Process(zeros);
      var block := new byte[c.blockSize](i requires 0 <= i < c.blockSize => l[i]);
      assert block[..] == l;
      MulU(block);
      k1 := block[..];
      MulU(block);
      k2 := block[..];
    }

    /** `xorbuf` into the register at the counter. */
    method AbsorbBytes(part: bytes, ghost before: bytes)
      requires Absorbed(cipher, before, counter, reg) && counter + |part| <= cipher.blockSize
      modifies this`counter, this`reg
      ensures Absorbed(cipher, before + part, counter, reg) && counter == old(counter) + |part|
    {
      AbsorbPart(cipher, before, counter, reg, part);
      hide Absorbed;
      reg := XorAt(reg, counter, part);
      counter := counter + |part|;
    }

    /** `cipher.ProcessBlock(m_reg)` on a full register. */
    method ProcessBlock(ghost before: bytes)
      requires Absorbed(cipher, before, counter, reg) && counter == cipher.blockSize
      modifies this`counter, this`reg
      ensures Absorbed(cipher, before, counter, reg) && counter == 0
    {
      AbsorbFull(cipher, before, reg);
      hide Absorbed;
      reg := cipher.Process(reg);
      counter := 0;
    }

    /**
     * `AdvancedProcessBlocks` with the register as both input and output and the input blocks
     * xored in: whole blocks are absorbed, the rest is reported back.
     */
    method AdvancedProcessBlocks(input: bytes, ghost before: bytes) returns (leftOver: nat)
      requires cipher.blockSize > 0 && Absorbed(cipher, before, counter, reg) && counter == 0
      modifies this`counter, this`reg
      ensures leftOver <= |input| && leftOver < cipher.blockSize && counter == 0
      ensures Absorbed(cipher, before + input[..|input| - leftOver], counter, reg)
    {
      hide Absorbed;
      var b := cipher.blockSize;
      leftOver := |input|;
      ghost var done := before;
      assert before + input[..0] == before;
      while leftOver >= b
        invariant leftOver <= |input| && counter == 0
        invariant done == before + input[..|input| - leftOver] && Absorbed(cipher, done, counter, reg)
      {
        var block := input[|input| - leftOver..|input| - leftOver + b];
        AbsorbBytes(block, done);
        done := done + block;
        ProcessBlock(done);
        leftOver := leftOver - b;
      }
    }

    /** The last block is held back: once there is input, the register is never left empty. */
    method Update(input: bytes)
      requires Valid()
      modifies this
      ensures Valid() && cipher == old(cipher) && message == old(message) + input
    {
      hide Absorbed, Doubled, WideBlock, BlockCipher.Process, XorAt, Zeros;
      AbsorbedSize(cipher, message, counter, reg);
      ghost var done := message;
      message := message + input;
      if |input| == 0 {
        assert message == done;
        return;
      }
      var b, rest := cipher.blockSize, input;
      if counter > 0 {
        var len := if b - counter <= |rest| then b - counter else |rest|;
        if len > 0 {
          AbsorbBytes(rest[..len], done);
          done, rest := done + rest[..len], rest[len..];
        }
        if counter == b && |rest| > 0 {
          ProcessBlock(done);
        }
      }
      assert done + rest == message;
      if |rest| > b {
        var most := rest[..|rest| - 1];
        var leftOver := AdvancedProcessBlocks(most, done);
        leftOver := leftOver + 1;
        assert most[..|most| - (leftOver - 1)] == rest[..|rest| - leftOver];
        done, rest := done + rest[..|rest| - leftOver], rest[|rest| - leftOver..];
      }
      assert done + rest == message;
      if |rest| > 0 {
        AbsorbBytes(rest, done);
      } else {
        assert done == message;
      }
    }

    /** The tag is the one-shot tag of everything absorbed, and the object is freshly keyed again. */
    method TruncatedFinal(size: nat) returns (ok: bool, mac: bytes)
      requires Valid()
      modifies this
      ensures Valid() && cipher == old(cipher)
      ensures ok <==> size <= cipher.blockSize
      ensures if ok then message == [] && mac == OneShot(cipher, old(message))[..size] else message == old(message)
    {
      hide Absorbed, OneShot, Doubled, WideBlock, BlockCipher.Process, XorAt, XorBytes, Zeros;
      if size > cipher.blockSize {
        return false, [];
      }
      FinishIsOneShot(cipher, message, counter, reg, k1, k2);
      AbsorbedSize(cipher, message, counter, reg);
      AbsorbedStart(cipher);
      if counter < cipher.blockSize {
        reg := XorAt(reg, counter, [0x80]);
        reg := cipher.Process(XorBytes(reg, k2));
      } else {
        reg := cipher.Process(XorBytes(reg, k1));
      }
      ok, mac := true, reg[..size];
      counter := 0;
      reg := Zeros(cipher.blockSize);
      message := [];
    }
  }
}
