/** The decoder's half of `basecode.cpp`. */
module BaseNDecoding {
  import opened Numbers
  import opened Bytes
  import opened Ciphers
  import opened BitStrings

  /** A table for digits of k bits: each of its 256 entries is one, or out of a byte's range. */
  ghost predicate LookupTable(lookup: seq<int>, k: nat) {
    |lookup| == 256 && forall c :: 0 <= c < 256 ==> 0 <= lookup[c] < 256 ==> lookup[c] < Pow2(k)
  }

  /** The bits of the characters that stand for digits; others are skipped. */
  function Accepted(lookup: seq<int>, k: nat, s: bytes): (p: bits)
    requires |lookup| == 256
  {
    if s == [] then []
    else
      var v := lookup[s[|s| - 1]];
      Accepted(lookup, k, s[..|s| - 1]) + if 0 <= v < 256 then ToBits(v, k) else []
  }

  /** What a whole text decodes to: the complete bytes. */
  function Decoded(lookup: seq<int>, k: nat, s: bytes): bytes
    requires |lookup| == 256
  {
    Octets(Accepted(lookup, k, s))
  }

  lemma {:induction false} AcceptedConcat(lookup: seq<int>, k: nat, s: bytes, t: bytes)
    requires |lookup| == 256
    ensures Accepted(lookup, k, s + t) == Accepted(lookup, k, s) + Accepted(lookup, k, t)
  {
    hide ToBits;
    if t == [] {
      assert s + t == s;
    } else {
      assert (s + t)[..|s + t| - 1] == s + t[..|t| - 1];
      AcceptedConcat(lookup, k, s, t[..|t| - 1]);
    }
  }

  /** The smallest block of whole bytes and whole digits, in bytes. */
  method OutputBlockSize(k: nat) returns (block: nat, ghost total: nat)
    requires 1 <= k < 8
    ensures block > 0 && total > 0 && At(total, 8, block, 0) && Whole(total, k)
  {
    hide *;
    AtProduct(k, 1);
    var i := k;
    ghost var n := 1;
    while i % 8 != 0
      invariant 1 <= n <= 8 && i > 0 && At(i, k, n, 0)
      decreases 8 - n
    {
      AtSize(i, k, n);
      SpreadLength(i, k, n);
      n := n + 1;
      i := i + k;
    }
    block := i / 8;
    total := i;
    AtWhole(i, k, n);
    AtProduct(8, block);
  }

  /** All cells are bytes. */
  ghost predicate ByteCells(buffer: seq<nat>) {
    forall i :: 0 <= i < |buffer| ==> buffer[i] < 256
  }

  lemma {:induction false} OrIsByte(a: nat, b: nat, n: nat)
    requires a < Pow2(n) && b < Pow2(n)
    ensures OrNat(a, b) < Pow2(n)
  {
    if n > 0 {
      OrIsByte(a / 2, b / 2, n - 1);
    }
  }

  /** Oring a byte into a cell. */
  method OrInto(buffer: seq<nat>, at: nat, value: nat) returns (outBuf: seq<nat>)
    requires at < |buffer| && value < 256 && ByteCells(buffer)
    ensures outBuf == buffer[at := OrNat(buffer[at], value)] && ByteCells(outBuf)
  {
    Pow2OfEight();
    OrIsByte(buffer[at], value, 8);
    outBuf := buffer[at := OrNat(buffer[at], value)];
  }

  /** A shift stored in a byte keeps its last eight bits. */
  lemma LowIsByte(v: nat)
    ensures Low(v, 8) < 256 && (v < 256 ==> Low(v, 8) == v)
  {
    hide *;
    Pow2OfEight();
    SplitLow(v, 8);
    if v < 256 {
      ShlOne(8);
      SplitUnique(v, 8, 0, v);
    }
  }

  lemma {:induction false} ShrIsLess(v: nat, n: nat)
    ensures Shr(v, n) <= v
  {
    if n > 0 {
      ShrIsLess(v / 2, n - 1);
    }
  }

  /**
   * The value of a character goes into one cell or two, inside the buffer. A value below 2^k appends
   * its k bits to those held.
   */
  method PutDigit(buffer: seq<nat>, startBytePos: nat, startBitPos: nat, k: nat, value: nat,
                  ghost pending: bits, ghost total: nat)
    returns (outBuf: seq<nat>, bytePos: nat, bitPos: nat)
    requires 1 <= k < 8 && value < 256 && startBitPos < 8 && At(|pending|, 8, startBytePos, startBitPos)
    requires ByteCells(buffer) && |pending| + k <= total && At(total, 8, |buffer|, 0)
    ensures |outBuf| == |buffer| && bitPos < 8 && At(|pending| + k, 8, bytePos, bitPos) && ByteCells(outBuf)
    ensures value < Pow2(k) && buffer == Filled(pending, 8, |buffer|) ==>
      outBuf == Filled(pending + ToBits(value, k), 8, |buffer|)
  {
    hide *;
    outBuf, bytePos, bitPos := buffer, startBytePos, startBitPos;
    AtOrder(|pending|, 8, bytePos, bitPos, total, |buffer|);
    var newBitPos := bitPos + k;
    AtMore(|pending|, 8, bytePos, bitPos, k);
    if newBitPos <= 8 {
      LowIsByte(LeftBy(value, 8 - newBitPos));
      outBuf := OrInto(outBuf, bytePos, Low(LeftBy(value, 8 - newBitPos), 8));
      if value < Pow2(k) && buffer == Filled(pending, 8, |buffer|) {
        OneCell(buffer, pending, bytePos, bitPos, k, value);
      }
    } else {
      SecondCell(|pending|, bytePos, bitPos, k, total, |buffer|);
      ShrIsLess(value, newBitPos - 8);
      LowIsByte(LeftBy(value, 16 - newBitPos));
      outBuf := OrInto(outBuf, bytePos, Shr(value, newBitPos - 8));
      outBuf := OrInto(outBuf, bytePos + 1, Low(LeftBy(value, 16 - newBitPos), 8));
      if value < Pow2(k) && buffer == Filled(pending, 8, |buffer|) {
        TwoCells(buffer, pending, bytePos, bitPos, k, value);
      }
    }
    bitPos := newBitPos;
    while bitPos >= 8
      invariant At(|pending| + k, 8, bytePos, bitPos)
    {
      AtCarry(|pending| + k, 8, bytePos, bitPos);
      bitPos := bitPos - 8;
      bytePos := bytePos + 1;
    }
  }

  lemma OneCell(buffer: seq<nat>, pending: bits, pos: nat, bitPos: nat, k: nat, value: nat)
    requires At(|pending|, 8, pos, bitPos) && bitPos < 8 && bitPos + k <= 8 && pos < |buffer|
    requires value < Pow2(k) && buffer == Filled(pending, 8, |buffer|)
    ensures Filled(pending + ToBits(value, k), 8, |buffer|)
         == buffer[pos := OrNat(buffer[pos], Low(LeftBy(value, 8 - bitPos - k), 8))]
  {
    hide *;
    var v := ToBits(value, k);
    FromToBits(value, k);
    ShiftedLeft(v, 8 - bitPos - k);
    FillCell(pending, v, 8, |buffer|, pos, bitPos);
    FromBitsBound(v + ZeroBits(8 - bitPos - k));
    Pow2Monotone(8 - bitPos, 8);
    Pow2OfEight();
    LowIsByte(LeftBy(value, 8 - bitPos - k));
  }

  lemma TwoCells(buffer: seq<nat>, pending: bits, pos: nat, bitPos: nat, k: nat, value: nat)
    requires At(|pending|, 8, pos, bitPos) && bitPos < 8 < bitPos + k <= 16 && pos + 1 < |buffer|
    requires value < Pow2(k) && buffer == Filled(pending, 8, |buffer|)
    ensures Filled(pending + ToBits(value, k), 8, |buffer|)
         == var b := buffer[pos := OrNat(buffer[pos], Shr(value, bitPos + k - 8))];
            b[pos + 1 := OrNat(b[pos + 1], Low(LeftBy(value, 16 - bitPos - k), 8))]
  {
    hide *;
    var v := ToBits(value, k);
    FromToBits(value, k);
    var first, second := v[..8 - bitPos], v[8 - bitPos..];
    SplitDigit(v, bitPos, bitPos + k);
    FillCell(pending, first, 8, |buffer|, pos, bitPos);
    AtMore(|pending|, 8, pos, bitPos, 8 - bitPos);
    AtNext(|pending + first|, 8, pos);
    FillCell(pending + first, second, 8, |buffer|, pos + 1, 0);
    assert pending + first + second == pending + v;
  }

  /** There is a second cell, if it is needed. */
  lemma SecondCell(n: nat, pos: nat, bitPos: nat, k: nat, total: nat, cells: nat)
    requires At(n, 8, pos, bitPos) && bitPos < 8 < bitPos + k && n + k <= total && At(total, 8, cells, 0)
    ensures pos + 1 < cells
  {
    hide *;
    AtMore(n, 8, pos, bitPos, 8 - bitPos);
    AtNext(n + (8 - bitPos), 8, pos);
    AtOrder(n + (8 - bitPos), 8, pos + 1, 0, total, cells);
  }

  /** A cell's worth of the bits over is another cell. */
  lemma {:induction false} AtCarry(n: nat, c: nat, pos: nat, more: nat)
    requires At(n, c, pos, more) && more >= c
    ensures At(n, c, pos + 1, more - c)
  {
    if pos > 0 {
      AtCarry(n - c, c, pos - 1, more);
    }
  }

  /** The two shifts of a digit that does not fit the rest of a cell. */
  lemma SplitDigit(v: bits, bitPos: nat, newBitPos: nat)
    requires bitPos < 8 < newBitPos == bitPos + |v| <= 16
    ensures var first, second := v[..8 - bitPos], v[8 - bitPos..];
      && Shr(FromBits(v), newBitPos - 8) == FromBits(first + ZeroBits(8 - bitPos - |first|))
      && Low(LeftBy(FromBits(v), 16 - newBitPos), 8) == FromBits(second + ZeroBits(8 - |second|))
  {
    hide *;
    var first, second := v[..8 - bitPos], v[8 - bitPos..];
    ShiftedRight(v, newBitPos - 8);
    assert first + ZeroBits(0) == first;
    var w := v + ZeroBits(16 - newBitPos);
    ShiftedLeft(v, 16 - newBitPos);
    ShiftedRight(w, 8);
    assert w[|w| - 8..] == second + ZeroBits(8 - |second|);
  }

  /** The block is whole digits and whole bytes. */
  ghost predicate Shape(lookup: seq<int>, k: nat, block: nat, total: nat) {
    1 <= k < 8 && |lookup| == 256 && block > 0 && At(total, 8, block, 0) && Whole(total, k) && total > 0
  }

  /** The buffer holds these bits, fewer than a block, if the table was one for digits of k bits. */
  ghost predicate Held(lookup: seq<int>, k: nat, total: nat, outBuf: seq<nat>, bytePos: nat, bitPos: nat, pending: bits) {
    && k > 0 && At(|pending|, 8, bytePos, bitPos) && bitPos < 8 && |pending| < total && Whole(|pending|, k)
    && ByteCells(outBuf)
    && (LookupTable(lookup, k) ==> pending == [] || outBuf == Filled(pending, 8, |outBuf|))
  }

  /** Flushed and pending bits are those of the text, and what was flushed was whole bytes. */
  ghost predicate Flushed(lookup: seq<int>, k: nat, text: bytes, flushed: bits, pending: bits) {
    |lookup| == 256 && flushed + pending == Accepted(lookup, k, text) && Whole(|flushed|, 8)
  }

  lemma {:induction false} RoomForDigit(n: nat, total: nat, k: nat)
    requires k > 0 && Whole(n, k) && Whole(total, k) && n < total
    ensures n + k <= total && Whole(n + k, k)
  {
    if n > 0 {
      RoomForDigit(n - k, total - k, k);
    }
  }

  /** A cleared buffer, or one in use, is the pending bits and zeros. */
  lemma ReadyToPut(lookup: seq<int>, k: nat, total: nat, outBuf: seq<nat>, bytePos: nat, bitPos: nat,
                   pending: bits)
    requires Held(lookup, k, total, outBuf, bytePos, bitPos, pending) && Whole(total, k)
    ensures var b := if bytePos == 0 && bitPos == 0 then seq(|outBuf|, i => 0) else outBuf;
      ByteCells(b) && (LookupTable(lookup, k) ==> b == Filled(pending, 8, |outBuf|))
    ensures At(|pending|, 8, bytePos, bitPos) && bitPos < 8 && |pending| + k <= total && Whole(|pending| + k, k)
  {
    hide Filled, Whole, LookupTable;
    RoomForDigit(|pending|, total, k);
    FilledNone(8, |outBuf|);
    if pending == [] {
      assert bytePos == 0 && bitPos == 0;
    }
  }

  /** A digit more is held, or makes the block full. */
  lemma PutHeld(lookup: seq<int>, k: nat, total: nat, outBuf: seq<nat>, bytePos: nat, bitPos: nat,
                pending: bits)
    requires 0 < k && At(total, 8, |outBuf|, 0) && |pending| <= total && Whole(|pending|, k) && ByteCells(outBuf)
    requires bitPos < 8 && At(|pending|, 8, bytePos, bitPos)
    requires LookupTable(lookup, k) ==> outBuf == Filled(pending, 8, |outBuf|)
    ensures bytePos <= |outBuf|
    ensures if bytePos == |outBuf| then
              bitPos == 0 && Whole(|pending|, 8) && (LookupTable(lookup, k) ==> Octets(pending) == outBuf)
            else Held(lookup, k, total, outBuf, bytePos, bitPos, pending)
  {
    hide Filled, Octets, Whole, At, LookupTable, ByteCells;
    AtOrder(|pending|, 8, bytePos, bitPos, total, |outBuf|);
    if bytePos == |outBuf| {
      AtWhole(total, 8, |outBuf|);
      if LookupTable(lookup, k) {
        FilledOctets(pending, |outBuf|, bytePos, bitPos);
        assert outBuf[..bytePos] == outBuf;
      }
    }
  }

  /** A character of the text: the bits of a digit, or nothing. */
  lemma MoreText(lookup: seq<int>, k: nat, text: bytes, flushed: bits, pending: bits, c: byte)
    requires Flushed(lookup, k, text, flushed, pending)
    ensures 0 <= lookup[c] < 256 ==> Flushed(lookup, k, text + [c], flushed, pending + ToBits(lookup[c], k))
    ensures !(0 <= lookup[c] < 256) ==> Flushed(lookup, k, text + [c], flushed, pending)
  {
    assert (text + [c])[..|text|] == text;
    if 0 <= lookup[c] < 256 {
      assert flushed + (pending + ToBits(lookup[c], k)) == flushed + pending + ToBits(lookup[c], k);
    } else {
      assert flushed + pending + [] == flushed + pending;
    }
  }

  lemma FlushBlock(lookup: seq<int>, k: nat, text: bytes, flushed: bits, pending: bits)
    requires Flushed(lookup, k, text, flushed, pending) && Whole(|pending|, 8)
    ensures Flushed(lookup, k, text, flushed + pending, [])
    ensures Octets(flushed + pending) == Octets(flushed) + Octets(pending)
  {
    hide Octets, Whole;
    OctetsConcat(flushed, pending);
    WholePlus(|flushed|, |pending|, 8);
    assert flushed + pending + [] == flushed + pending;
  }

  /** The start of a text. */
  lemma StartText(lookup: seq<int>, k: nat, total: nat, outBuf: seq<nat>)
    requires k > 0 && total > 0 && |lookup| == 256 && ByteCells(outBuf)
    ensures Held(lookup, k, total, outBuf, 0, 0, []) && Flushed(lookup, k, [], [], []) && Octets([]) == []
  {
  }

  /** What is put out at the end. */
  lemma FinishText(lookup: seq<int>, k: nat, total: nat, outBuf: seq<nat>, bytePos: nat, bitPos: nat,
                   text: bytes, flushed: bits, pending: bits)
    requires k > 0 && At(total, 8, |outBuf|, 0) && Held(lookup, k, total, outBuf, bytePos, bitPos, pending)
    requires Flushed(lookup, k, text, flushed, pending)
    ensures bytePos <= |outBuf| && ByteCells(outBuf)
    ensures LookupTable(lookup, k) ==> outBuf[..bytePos] == Octets(pending)
    ensures Decoded(lookup, k, text) == Octets(flushed) + Octets(pending)
  {
    hide Octets, Whole, At, Filled, Accepted, LookupTable, ByteCells;
    OctetsConcat(flushed, pending);
    AtOrder(|pending|, 8, bytePos, bitPos, total, |outBuf|);
    if pending == [] {
      NoOctets();
      AtNothing(bytePos, bitPos);
    } else if LookupTable(lookup, k) {
      FilledOctets(pending, |outBuf|, bytePos, bitPos);
    }
  }

  lemma NoOctets()
    ensures Octets([]) == []
  {
  }

  lemma AtNothing(pos: nat, more: nat)
    requires At(0, 8, pos, more)
    ensures pos == 0
  {
  }

  /** One round of the loop. */
  method PutOne(lookup: seq<int>, k: nat, buffer: seq<nat>, startBytePos: nat, startBitPos: nat, c: byte,
                ghost total: nat, ghost text: bytes, ghost flushed: bits, ghost pending: bits)
    returns (outBuf: seq<nat>, bytePos: nat, bitPos: nat, more: bytes, ghost flushedNow: bits, ghost pendingNow: bits)
    requires Shape(lookup, k, |buffer|, total) && Held(lookup, k, total, buffer, startBytePos, startBitPos, pending)
    requires Flushed(lookup, k, text, flushed, pending)
    ensures |outBuf| == |buffer| && Held(lookup, k, total, outBuf, bytePos, bitPos, pendingNow)
    ensures Flushed(lookup, k, text + [c], flushedNow, pendingNow)
    ensures LookupTable(lookup, k) ==> Octets(flushedNow) == Octets(flushed) + more
  {
    hide Held, Flushed, Filled, Octets, At, Whole, ToBits, Pow2, Accepted, LookupTable;
    outBuf, bytePos, bitPos, more, flushedNow, pendingNow := buffer, startBytePos, startBitPos, [], flushed, pending;
    var value := lookup[c];
    MoreText(lookup, k, text, flushed, pending, c);
    if value < 0 || value >= 256 {
      return;
    }
    ReadyToPut(lookup, k, total, buffer, bytePos, bitPos, pending);
    if bytePos == 0 && bitPos == 0 {
      outBuf := seq(|outBuf|, i => 0);
    }
    if LookupTable(lookup, k) {
      EntryIsDigit(lookup, k, c);
    }
    outBuf, bytePos, bitPos := PutDigit(outBuf, bytePos, bitPos, k, value, pending, total);
    pendingNow := pending + ToBits(value, k);
    PutHeld(lookup, k, total, outBuf, bytePos, bitPos, pendingNow);
    if bytePos == |outBuf| {
      FlushBlock(lookup, k, text + [c], flushed, pendingNow);
      more := outBuf;
      flushedNow, pendingNow := flushed + pendingNow, [];
      bytePos, bitPos := 0, 0;
      StartText(lookup, k, total, outBuf);
    }
  }

  lemma EntryIsDigit(lookup: seq<int>, k: nat, c: byte)
    requires LookupTable(lookup, k) && 0 <= lookup[c] < 256
    ensures lookup[c] < Pow2(k)
  {
  }

  /** `BaseN_Decoder`; `out` is what it has passed on. The buffer is not overrun for any table. */
  class BaseNDecoder {
    const lookup: seq<int>
    const bitsPerChar: nat
    const outputBlockSize: nat
    var outBuf: seq<nat>
    var bytePos: nat
    var bitPos: nat
    var out: bytes
    /** What had been passed on when the current text began, the text so far, and its bits. */
    ghost var before: bytes
    ghost var text: bytes
    ghost var flushed: bits
    ghost var pending: bits
    ghost const total: nat

    ghost predicate Valid()
      reads this
    {
      && Shape(lookup, bitsPerChar, outputBlockSize, total) && |outBuf| == outputBlockSize
      && Held(lookup, bitsPerChar, total, outBuf, bytePos, bitPos, pending)
      && Flushed(lookup, bitsPerChar, text, flushed, pending)
      && (LookupTable(lookup, bitsPerChar) ==> out == before + Octets(flushed))
    }

    constructor (lookup: seq<int>, log2base: nat)
      requires 1 <= log2base < 8 && |lookup| == 256
      ensures Valid() && out == before == text == []
      ensures this.lookup == lookup && bitsPerChar == log2base
    {
      var block: nat;
      ghost var size: nat;
      block, size := OutputBlockSize(log2base);
      this.lookup, bitsPerChar, outputBlockSize, total := lookup, log2base, block, size;
      outBuf := seq(block, i => 0);
      bytePos, bitPos, out := 0, 0, [];
      before, text, flushed, pending := [], [], [], [];
      new;
      StartText(lookup, log2base, total, outBuf);
    }

    /** Any piece of the text; with its end, everything it decodes to is out, if the table is one for the base. */
    method Put(begin: bytes, messageEnd: bool)
      requires Valid()
      modifies this
      ensures Valid()
      ensures !messageEnd ==> before == old(before) && text == old(text) + begin
      ensures messageEnd ==> before == out && text == []
      ensures messageEnd && LookupTable(lookup, bitsPerChar) ==>
        out == old(before) + Decoded(lookup, bitsPerChar, old(text) + begin)
    {
      hide Shape, Held, Flushed, Octets, Decoded, Pow2, LookupTable;
      var inputPosition := 0;
      while inputPosition < |begin|
        invariant 0 <= inputPosition <= |begin|
        invariant Valid() && before == old(before) && text == old(text) + begin[..inputPosition]
      {
        var more: bytes;
        outBuf, bytePos, bitPos, more, flushed, pending :=
          PutOne(lookup, bitsPerChar, outBuf, bytePos, bitPos, begin[inputPosition], total, text, flushed, pending);
        text := text + [begin[inputPosition]];
        out := out + more;
        inputPosition := inputPosition + 1;
      }
      assert begin[..|begin|] == begin;
      if messageEnd {
        EndMessage();
      }
    }

    method EndMessage()
      requires Valid()
      modifies this
      ensures Valid() && before == out && text == []
      ensures LookupTable(lookup, bitsPerChar) ==> out == old(before) + Decoded(lookup, bitsPerChar, old(text))
    {
      hide Held, Flushed, Octets, Pow2, Decoded, LookupTable;
      FinishText(lookup, bitsPerChar, total, outBuf, bytePos, bitPos, text, flushed, pending);
      out := out + outBuf[..bytePos];
      bytePos, bitPos := 0, 0;
      StartText(lookup, bitsPerChar, total, outBuf);
      before, text, flushed, pending := out, [], [], [];
    }
  }
}
