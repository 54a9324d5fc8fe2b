/** Encoding and decoding in bases that are powers of two: `basecode.cpp`. */
module BaseN {
  import opened Numbers
  import opened Bytes
  import opened Ciphers
  import opened BitStrings

  /** d with every digit looked up. */
  function Looked(alphabet: bytes, d: seq<nat>): (s: bytes)
    requires forall i :: 0 <= i < |d| ==> d[i] < |alphabet|
    ensures |s| == |d| && forall i :: 0 <= i < |d| ==> s[i] == alphabet[d[i]]
  {
    seq(|d|, i requires 0 <= i < |d| => alphabet[d[i]])
  }

  /** What is missing to a multiple of block. */
  function Missing(n: nat, block: nat): (r: nat)
    requires block > 0
    ensures r < block && Whole(n + r, block)
  {
    if n == 0 then 0
    else if n <= block then block - n
    else
      assert Whole(n - block + Missing(n - block, block), block);
      Missing(n - block, block)
  }

  /** Up to a whole block, in so many more. */
  lemma {:induction false} MissingUnique(n: nat, block: nat, r: nat)
    requires block > 0 && r < block && Whole(n + r, block)
    ensures Missing(n, block) == r
    decreases n
  {
    if n > block {
      MissingUnique(n - block, block, r);
    }
  }

  /** The symbols of a string of bits. */
  function Symbols(alphabet: bytes, k: nat, p: bits): (s: bytes)
    requires 0 < k && |alphabet| == Pow2(k)
    ensures |s| == |Digits(p, k)|
  {
    DigitsBound(p, k);
    Looked(alphabet, Digits(p, k))
  }

  lemma SymbolsConcat(alphabet: bytes, k: nat, p: bits, q: bits)
    requires 0 < k && |alphabet| == Pow2(k) && Whole(|p|, k)
    ensures Symbols(alphabet, k, p + q) == Symbols(alphabet, k, p) + Symbols(alphabet, k, q)
  {
    hide Digits;
    DigitsConcat(p, q, k);
    DigitsBound(p, k);
    DigitsBound(q, k);
  }

  function Padding(n: nat, padding: byte): (s: bytes)
    ensures |s| == n && forall i :: 0 <= i < n ==> s[i] == padding
  {
    seq(n, i => padding)
  }

  /** The encoding of a whole message: its k-bit digits, and padding up to a whole block, if any. */
  function Encoded(alphabet: bytes, k: nat, padding: int, block: nat, message: bytes): bytes
    requires 0 < k && |alphabet| == Pow2(k) && -1 <= padding < 256 && block > 0
  {
    var s := Symbols(alphabet, k, Spread(message, 8));
    if padding == -1 then s else s + Padding(Missing(|s|, block), padding)
  }

  /** One byte into the buffer, its bits from the most significant on, at most a digit's worth at a time. */
  method PutByte(buffer: seq<nat>, startBytePos: nat, startBitPos: nat, k: nat, value: byte,
                 ghost pending: bits, ghost total: nat)
    returns (outBuf: seq<nat>, bytePos: nat, bitPos: nat)
    requires 1 <= k < 8 && startBitPos < k && At(|pending|, k, startBytePos, startBitPos)
    requires buffer == Filled(pending, k, |buffer|) && |pending| + 8 <= total && At(total, k, |buffer|, 0)
    ensures |outBuf| == |buffer| && bitPos < k && At(|pending| + 8, k, bytePos, bitPos)
    ensures outBuf == Filled(pending + ToBits(value, 8), k, |buffer|)
  {
    hide *;
    outBuf, bytePos, bitPos := buffer, startBytePos, startBitPos;
    var b: nat, bitsLeftInSource := value, 8;
    ghost var done, rest := pending, ToBits(value, 8);
    Pow2OfEight();
    FromToBits(value, 8);
    assert rest + ZeroBits(0) == rest;
    while true
      invariant 0 < bitsLeftInSource == |rest| <= 8 && b == FromBits(rest + ZeroBits(8 - |rest|))
      invariant done + rest == pending + ToBits(value, 8)
      invariant bitPos < k && At(|done|, k, bytePos, bitPos)
      invariant |outBuf| == |buffer| && outBuf == Filled(done, k, |buffer|)
      decreases bitsLeftInSource
    {
      var bitsLeftInTarget := k - bitPos;
      ghost var t := First(rest, bitsLeftInTarget);
      PutBits(outBuf, done, rest, k, bytePos, bitPos, total);
      outBuf := outBuf[bytePos := OrNat(outBuf[bytePos], Shr(b, 8 - bitsLeftInTarget))];
      done := done + t;
      if bitsLeftInSource >= bitsLeftInTarget {
        bitPos := 0;
        bytePos := bytePos + 1;
        bitsLeftInSource := bitsLeftInSource - bitsLeftInTarget;
        if bitsLeftInSource == 0 {
          break;
        }
        OtherBits(rest, bitsLeftInTarget);
        rest := rest[bitsLeftInTarget..];
        b := Low(LeftBy(b, bitsLeftInTarget), 8);
      } else {
        bitPos := bitPos + bitsLeftInSource;
        break;
      }
    }
    assert done == pending + ToBits(value, 8);
  }

  /** At most n bits from the front. */
  function First(s: bits, n: nat): (t: bits)
    ensures |t| == (if |s| >= n then n else |s|) && t == s[..|t|]
  {
    if |s| >= n then s[..n] else s
  }

  /** What one round of the loop does to the buffer. */
  lemma PutBits(outBuf: seq<nat>, done: bits, rest: bits, k: nat, bytePos: nat, bitPos: nat, total: nat)
    requires bitPos < k < 8 && At(|done|, k, bytePos, bitPos) && At(total, k, |outBuf|, 0)
    requires outBuf == Filled(done, k, |outBuf|) && 0 < |rest| <= 8 && |done| + |rest| <= total
    ensures bytePos < |outBuf|
    ensures var t, b := First(rest, k - bitPos), FromBits(rest + ZeroBits(8 - |rest|));
      && outBuf[bytePos := OrNat(outBuf[bytePos], Shr(b, 8 - (k - bitPos)))] == Filled(done + t, k, |outBuf|)
      && (if |rest| >= k - bitPos then At(|done + t|, k, bytePos + 1, 0) else At(|done + t|, k, bytePos, bitPos + |rest|))
  {
    hide *;
    var t := First(rest, k - bitPos);
    AtOrder(|done|, k, bytePos, bitPos, total, |outBuf|);
    TopBits(rest, k - bitPos);
    FillCell(done, t, k, |outBuf|, bytePos, bitPos);
    AtMore(|done|, k, bytePos, bitPos, |t|);
    if |rest| >= k - bitPos {
      AtNext(|done + t|, k, bytePos);
    }
  }

  /** The next n bits of the byte, in the order of a digit. */
  lemma TopBits(rest: bits, n: nat)
    requires |rest| <= 8 && n <= 8
    ensures var t := First(rest, n);
      Shr(FromBits(rest + ZeroBits(8 - |rest|)), 8 - n) == FromBits(t + ZeroBits(n - |t|))
  {
    var w := rest + ZeroBits(8 - |rest|);
    ShiftedRight(w, 8 - n);
    assert w[..n] == First(rest, n) + ZeroBits(n - |First(rest, n)|);
  }

  /** The byte without its next n bits. */
  lemma OtherBits(rest: bits, n: nat)
    requires n <= |rest| <= 8
    ensures Low(LeftBy(FromBits(rest + ZeroBits(8 - |rest|)), n), 8) == FromBits(rest[n..] + ZeroBits(8 - |rest[n..]|))
  {
    var w := rest + ZeroBits(8 - |rest|);
    ShiftedLeft(w, n);
    ShiftedRight(w + ZeroBits(n), 8);
    assert (w + ZeroBits(n))[n..] == rest[n..] + ZeroBits(8 - |rest[n..]|);
  }

  /** i is a multiple of k. */
  predicate Multiple(i: nat, k: nat)
    requires k > 0
  {
    i % k == 0
  }

  lemma MultipleOf(n: nat, k: nat)
    requires k > 0
    ensures Multiple(k * n, k)
  {
    DivModUnique(k * n, k, n, 0);
  }

  lemma Quotient(i: nat, k: nat)
    requires k > 0 && Multiple(i, k)
    ensures k * (i / k) == i
  {
  }

  /** The smallest block of whole digits and whole bytes, in digits. */
  method OutputBlockSize(k: nat) returns (block: nat)
    requires 1 <= k < 8
    ensures block > 0 && (k * block) % 8 == 0
    ensures forall n :: 0 < n < block ==> (k * n) % 8 != 0
  {
    hide *;
    MultipleOf(8, k);
    var i := 8;
    while !Multiple(i, k)
      invariant i % 8 == 0 && 8 <= i <= 8 * k
      invariant forall j | 0 < j < i && j % 8 == 0 :: !Multiple(j, k)
      decreases 8 * k - i
    {
      i := i + 8;
    }
    block := i / k;
    Quotient(i, k);
    forall n | 0 < n < block
      ensures (k * n) % 8 != 0
    {
      Cancel2(n, block, k);
      MultipleOf(n, k);
    }
  }

  lemma Cancel2(n: nat, m: nat, k: nat)
    requires 0 < n < m && k > 0
    ensures 0 < k * n < k * m
  {
    MulLe(1, n, k);
    MulLe(n + 1, m, k);
  }

  /** The block is whole digits and whole bytes. */
  ghost predicate Shape(alphabet: bytes, k: nat, block: nat, total: nat) {
    1 <= k < 8 && |alphabet| == Pow2(k) && block > 0 && At(total, k, block, 0) && Whole(total, 8) && total > 0
  }

  /** The buffer holds these bits, fewer than a block. */
  ghost predicate Held(k: nat, total: nat, outBuf: seq<nat>, bytePos: nat, bitPos: nat, pending: bits) {
    && At(|pending|, k, bytePos, bitPos) && bitPos < k && |pending| < total && Whole(|pending|, 8)
    && (pending == [] || outBuf == Filled(pending, k, |outBuf|))
  }

  /** What was flushed was whole blocks; flushed and pending bits are those of the message. */
  ghost predicate Flushed(k: nat, block: nat, message: bytes, flushed: bits, pending: bits) {
    && k > 0 && block > 0 && flushed + pending == Spread(message, 8)
    && Whole(|flushed|, k) && Whole(|Digits(flushed, k)|, block)
  }

  /** The buffer is at its start exactly when nothing is pending. */
  lemma HeldNothing(k: nat, total: nat, outBuf: seq<nat>, bytePos: nat, bitPos: nat, pending: bits)
    requires k < 8 && Held(k, total, outBuf, bytePos, bitPos, pending)
    ensures bytePos == 0 <==> pending == []
    ensures pending == [] ==> bitPos == 0
  {
    if bytePos == 0 {
      assert |pending| == bitPos;
    }
  }

  lemma HoldNothing(k: nat, total: nat, outBuf: seq<nat>)
    requires 0 < k && 0 < total
    ensures Held(k, total, outBuf, 0, 0, [])
  {
  }

  /** There is room for another byte. */
  lemma RoomForByte(n: nat, total: nat)
    requires Whole(n, 8) && Whole(total, 8) && n < total
    ensures n + 8 <= total && Whole(n + 8, 8)
  {
    WholeIsMultiple(n, 8);
    WholeIsMultiple(total, 8);
  }

  /** A cleared buffer, or one in use, is the pending bits and zeros. */
  lemma ReadyToPut(k: nat, total: nat, outBuf: seq<nat>, bytePos: nat, bitPos: nat, pending: bits)
    requires 0 < k < 8 && Held(k, total, outBuf, bytePos, bitPos, pending) && Whole(total, 8)
    ensures (if bytePos == 0 then seq(|outBuf|, i => 0) else outBuf) == Filled(pending, k, |outBuf|)
    ensures At(|pending|, k, bytePos, bitPos) && bitPos < k && |pending| + 8 <= total && Whole(|pending|, 8)
  {
    HeldNothing(k, total, outBuf, bytePos, bitPos, pending);
    RoomForByte(|pending|, total);
    hide Filled;
    FilledNone(k, |outBuf|);
  }

  /** A byte more is held, or makes the block full. */
  lemma PutHeld(k: nat, total: nat, outBuf: seq<nat>, bytePos: nat, bitPos: nat,
                pending: bits, value: byte)
    requires 0 < k && At(total, k, |outBuf|, 0) && Whole(total, 8) && Whole(|pending|, 8) && |pending| + 8 <= total
    requires bitPos < k && At(|pending| + 8, k, bytePos, bitPos)
    requires outBuf == Filled(pending + ToBits(value, 8), k, |outBuf|)
    ensures bytePos <= |outBuf|
    ensures if bytePos == |outBuf| then bitPos == 0 && Whole(|pending| + 8, k) && Digits(pending + ToBits(value, 8), k) == outBuf
            else Held(k, total, outBuf, bytePos, bitPos, pending + ToBits(value, 8))
  {
    hide Filled, Digits;
    AtOrder(|pending| + 8, k, bytePos, bitPos, total, |outBuf|);
    WholePlus(|pending|, 8, 8);
    AtWhole(total, k, |outBuf|);
    if bytePos == |outBuf| {
      FilledDigits(pending + ToBits(value, 8), k, |outBuf|, bytePos, bitPos);
    }
  }

  lemma MoreMessage(k: nat, block: nat, message: bytes, flushed: bits, pending: bits, value: byte)
    requires Flushed(k, block, message, flushed, pending)
    ensures Flushed(k, block, message + [value], flushed, pending + ToBits(value, 8))
  {
    assert Spread(message + [value], 8) == Spread(message, 8) + ToBits(value, 8) by {
      assert (message + [value])[..|message|] == message;
    }
    assert flushed + (pending + ToBits(value, 8)) == flushed + pending + ToBits(value, 8);
  }

  /** A full block goes out. */
  lemma FlushBlock(alphabet: bytes, k: nat, block: nat, message: bytes, flushed: bits,
                   pending: bits, outBuf: seq<nat>)
    requires Flushed(k, block, message, flushed, pending) && |alphabet| == Pow2(k)
    requires Whole(|pending|, k) && Digits(pending, k) == outBuf && |outBuf| == block
    ensures Flushed(k, block, message, flushed + pending, [])
    ensures forall i :: 0 <= i < |outBuf| ==> outBuf[i] < |alphabet|
    ensures Symbols(alphabet, k, flushed + pending) == Symbols(alphabet, k, flushed) + Looked(alphabet, outBuf)
  {
    hide Digits, Whole;
    WholePlus(|flushed|, |pending|, k);
    DigitsBound(pending, k);
    SymbolsConcat(alphabet, k, flushed, pending);
    DigitsConcat(flushed, pending, k);
    WholeOne(block);
    WholePlus(|Digits(flushed, k)|, block, block);
    assert flushed + pending + [] == flushed + pending;
  }

  lemma WholeOne(b: nat)
    requires b > 0
    ensures Whole(b, b)
  {
  }

  /** How many cells are in use when the message ends. */
  function InUse(bytePos: nat, bitPos: nat): nat {
    if bitPos > 0 then bytePos + 1 else bytePos
  }

  /** What is put out when the message ends. */
  lemma FinishMessage(alphabet: bytes, k: nat, padding: int, block: nat, total: nat, outBuf: seq<nat>,
                      bytePos: nat, bitPos: nat, message: bytes, flushed: bits, pending: bits)
    requires Shape(alphabet, k, block, total) && -1 <= padding < 256 && |outBuf| == block
    requires Held(k, total, outBuf, bytePos, bitPos, pending) && Flushed(k, block, message, flushed, pending)
    ensures var used := InUse(bytePos, bitPos);
      && used <= block && (forall i :: 0 <= i < |outBuf[..used]| ==> outBuf[..used][i] < |alphabet|)
      && Encoded(alphabet, k, padding, block, message)
         == Symbols(alphabet, k, flushed) + Looked(alphabet, outBuf[..used])
            + if padding == -1 || used == 0 then [] else Padding(block - used, padding)
  {
    hide Digits, Held, Filled, Whole, At, Pow2, Spread, InUse, Symbols, Looked, Missing, Padding;
    var used := InUse(bytePos, bitPos);
    InUseDigits(k, block, total, outBuf, bytePos, bitPos, pending);
    AppendSymbols(alphabet, k, flushed, pending, outBuf[..used]);
    MissingAfter(|Symbols(alphabet, k, flushed)|, used, block);
    NoPadding();
  }

  lemma AppendSymbols(alphabet: bytes, k: nat, p: bits, q: bits, digits: seq<nat>)
    requires 0 < k && |alphabet| == Pow2(k) && Whole(|p|, k) && digits == Digits(q, k)
    ensures forall i :: 0 <= i < |digits| ==> digits[i] < |alphabet|
    ensures Symbols(alphabet, k, p + q) == Symbols(alphabet, k, p) + Looked(alphabet, digits)
  {
    hide Digits, Whole;
    SymbolsConcat(alphabet, k, p, q);
    DigitsBound(q, k);
  }

  lemma MissingAfter(n: nat, used: nat, block: nat)
    requires block > 0 && Whole(n, block) && used <= block
    ensures Missing(n + used, block) == if used == 0 then 0 else block - used
  {
    WholeOne(block);
    WholePlus(n, block, block);
    MissingUnique(n + used, block, if used == 0 then 0 else block - used);
  }

  lemma NoPadding()
    ensures forall b: byte :: Padding(0, b) == []
  {
  }

  /** The cells in use hold the digits of the pending bits. */
  lemma InUseDigits(k: nat, block: nat, total: nat, outBuf: seq<nat>, bytePos: nat, bitPos: nat,
                    pending: bits)
    requires 0 < k < 8 && |outBuf| == block > 0 && At(total, k, block, 0) && Held(k, total, outBuf, bytePos, bitPos, pending)
    ensures InUse(bytePos, bitPos) <= block && outBuf[..InUse(bytePos, bitPos)] == Digits(pending, k)
  {
    hide At, Filled, Whole;
    HeldNothing(k, total, outBuf, bytePos, bitPos, pending);
    AtOrder(|pending|, k, bytePos, bitPos, total, block);
    if pending != [] {
      FilledDigits(pending, k, block, bytePos, bitPos);
    }
  }

  /** The start of a message. */
  lemma StartMessage(alphabet: bytes, k: nat, block: nat, total: nat, outBuf: seq<nat>)
    requires Shape(alphabet, k, block, total)
    ensures Held(k, total, outBuf, 0, 0, []) && Flushed(k, block, [], [], []) && Symbols(alphabet, k, []) == []
  {
    assert Spread([], 8) == [];
  }

  /** The first n cells replaced by their symbols. */
  method LookUp(alphabet: bytes, outBuf: seq<nat>, n: nat) returns (r: seq<nat>)
    requires n <= |outBuf| && forall i :: 0 <= i < n ==> outBuf[i] < |alphabet|
    ensures |r| == |outBuf| && r[..n] == Looked(alphabet, outBuf[..n]) && r[n..] == outBuf[n..]
    ensures n == |outBuf| ==> r == Looked(alphabet, outBuf)
  {
    r := outBuf;
    for i := 0 to n
      invariant |r| == |outBuf|
      invariant forall j :: 0 <= j < i ==> r[j] == alphabet[outBuf[j]]
      invariant forall j :: i <= j < |r| ==> r[j] == outBuf[j]
    {
      r := r[i := alphabet[r[i]]];
    }
    assert n == |outBuf| ==> outBuf[..n] == outBuf && r[..n] == r;
  }

  /** One round of the loop: a byte into the buffer, and the buffer out when it is full. */
  method PutOne(alphabet: bytes, k: nat, buffer: seq<nat>, startBytePos: nat, startBitPos: nat, value: byte,
                ghost total: nat, ghost message: bytes, ghost flushed: bits, ghost pending: bits)
    returns (outBuf: seq<nat>, bytePos: nat, bitPos: nat, more: bytes, ghost flushedNow: bits, ghost pendingNow: bits)
    requires Shape(alphabet, k, |buffer|, total) && Held(k, total, buffer, startBytePos, startBitPos, pending)
    requires Flushed(k, |buffer|, message, flushed, pending)
    ensures |outBuf| == |buffer| && Held(k, total, outBuf, bytePos, bitPos, pendingNow)
    ensures Flushed(k, |outBuf|, message + [value], flushedNow, pendingNow)
    ensures Symbols(alphabet, k, flushedNow) == Symbols(alphabet, k, flushed) + more
  {
    hide Held, Flushed, Filled, Digits, Symbols, Looked, At, Whole, ToBits, Pow2;
    ReadyToPut(k, total, buffer, startBytePos, startBitPos, pending);
    outBuf, bytePos, bitPos := buffer, startBytePos, startBitPos;
    if bytePos == 0 {
      outBuf := seq(|outBuf|, i => 0);
    }
    outBuf, bytePos, bitPos := PutByte(outBuf, bytePos, bitPos, k, value, pending, total);
    PutHeld(k, total, outBuf, bytePos, bitPos, pending, value);
    MoreMessage(k, |outBuf|, message, flushed, pending, value);
    more, flushedNow, pendingNow := [], flushed, pending + ToBits(value, 8);
    if bytePos == |outBuf| {
      FlushBlock(alphabet, k, |outBuf|, message + [value], flushed, pendingNow, outBuf);
      flushedNow, pendingNow := flushed + pendingNow, [];
      outBuf := LookUp(alphabet, outBuf, bytePos);
      more := outBuf;
      bytePos, bitPos := 0, 0;
      HoldNothing(k, total, outBuf);
    }
  }

  /** What goes out at the end of a message: the cells in use, and padding if there is any to pad. */
  method LastBlock(alphabet: bytes, padding: int, buffer: seq<nat>, startBytePos: nat, bitPos: nat)
    returns (outBuf: seq<nat>, last: bytes)
    requires -1 <= padding < 256 && InUse(startBytePos, bitPos) <= |buffer|
    requires forall i :: 0 <= i < |buffer[..InUse(startBytePos, bitPos)]| ==> buffer[..InUse(startBytePos, bitPos)][i] < |alphabet|
    ensures |outBuf| == |buffer|
    ensures var used := InUse(startBytePos, bitPos);
      last == Looked(alphabet, buffer[..used])
              + if padding == -1 || used == 0 then [] else Padding(|buffer| - used, padding)
  {
    hide Looked, Padding;
    var bytePos := startBytePos;
    if bitPos > 0 {
      bytePos := bytePos + 1;
    }
    forall i | 0 <= i < bytePos
      ensures buffer[i] < |alphabet|
    {
      assert buffer[..bytePos][i] == buffer[i];
    }
    outBuf := LookUp(alphabet, buffer, bytePos);
    if padding != -1 && bytePos > 0 {
      outBuf := outBuf[..bytePos] + Padding(|outBuf| - bytePos, padding);
      bytePos := |outBuf|;
    }
    last := outBuf[..bytePos];
  }

  /** `BaseN_Encoder`; `out` is what it has passed on. */
  class BaseNEncoder {
    const alphabet: bytes
    const padding: int
    const bitsPerChar: nat
    const outputBlockSize: nat
    var outBuf: seq<nat>
    var bytePos: nat
    var bitPos: nat
    var out: bytes
    /** What had been passed on when the current message began, the message so far, and its bits. */
    ghost var before: bytes
    ghost var message: bytes
    ghost var flushed: bits
    ghost var pending: bits
    ghost const total: nat

    ghost predicate Valid()
      reads this
    {
      && Shape(alphabet, bitsPerChar, outputBlockSize, total) && -1 <= padding < 256
      && |outBuf| == outputBlockSize
      && Held(bitsPerChar, total, outBuf, bytePos, bitPos, pending)
      && Flushed(bitsPerChar, outputBlockSize, message, flushed, pending)
      && out == before + Symbols(alphabet, bitsPerChar, flushed)
    }

    constructor (alphabet: bytes, log2base: nat, padding: int)
      requires 1 <= log2base < 8 && |alphabet| == Pow2(log2base) && -1 <= padding < 256
      ensures Valid() && out == before == message == []
      ensures this.alphabet == alphabet && bitsPerChar == log2base && this.padding == padding
      ensures (log2base * outputBlockSize) % 8 == 0 && forall n :: 0 < n < outputBlockSize ==> (log2base * n) % 8 != 0
    {
      var block := OutputBlockSize(log2base);
      this.alphabet, this.padding, bitsPerChar := alphabet, padding, log2base;
      outputBlockSize := block;
      outBuf := seq(block, i => 0);
      bytePos, bitPos, out := 0, 0, [];
      before, message, flushed, pending := [], [], [], [];
      total := log2base * block;
      new;
      AtProduct(log2base, block);
      WholeIsMultiple(total, 8);
      MulLe(1, block, log2base);
      StartMessage(alphabet, log2base, block, total, outBuf);
    }

    /** Any piece of the message; with the end of the message, the whole encoding is out. */
    method Put(begin: bytes, messageEnd: bool)
      requires Valid()
      modifies this
      ensures Valid()
      ensures !messageEnd ==> before == old(before) && message == old(message) + begin
      ensures messageEnd ==>
        && before == out && message == []
        && out == old(before) + Encoded(alphabet, bitsPerChar, padding, outputBlockSize, old(message) + begin)
    {
      hide Shape, Held, Flushed, Symbols, Encoded, Pow2;
      var inputPosition := 0;
      while inputPosition < |begin|
        invariant 0 <= inputPosition <= |begin|
        invariant Valid() && before == old(before) && message == old(message) + begin[..inputPosition]
      {
        var more: bytes;
        outBuf, bytePos, bitPos, more, flushed, pending :=
          PutOne(alphabet, bitsPerChar, outBuf, bytePos, bitPos, begin[inputPosition], total, message, flushed, pending);
        message := message + [begin[inputPosition]];
        out := out + more;
        inputPosition := inputPosition + 1;
      }
      assert begin[..|begin|] == begin;
      if messageEnd {
        EndMessage();
      }
    }

    method EndMessage()
      requires Valid()
      modifies this
      ensures Valid() && before == out && message == []
      ensures out == old(before) + Encoded(alphabet, bitsPerChar, padding, outputBlockSize, old(message))
    {
      hide Held, Flushed, Symbols, Looked, Pow2, Shape, Encoded, Padding;
      FinishMessage(alphabet, bitsPerChar, padding, outputBlockSize, total, outBuf, bytePos, bitPos, message, flushed, pending);
      var last: bytes;
      outBuf, last := LastBlock(alphabet, padding, outBuf, bytePos, bitPos);
      out := out + last;
      bytePos, bitPos := 0, 0;
      StartMessage(alphabet, bitsPerChar, outputBlockSize, total, outBuf);
      before, message, flushed, pending := out, [], [], [];
    }
  }
}
