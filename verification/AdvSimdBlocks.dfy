/** What the templates of `adv_simd.h` compute, block by block, in terms of their arguments. */
module AdvSimdBlocks {
  import opened Bytes
  import opened Ciphers
  import opened AdvSimd

  /** Where block j of a region is: from its start on, or back from its end. */
  function Position(flags: Flags, region: int, length: int, j: int): int {
    if flags.reverseDirection then region + length - 16 - 16 * j else region + 16 * j
  }

  /** The block that goes in: the j-th, or the counter block with its last byte j higher. */
  function BlockIn(flags: Flags, inBlocks: int, length: int, mem: bytes, j: nat): (b: bytes)
    requires 0 <= Position(flags, inBlocks, length, if flags.inBlockIsCounter then 0 else j) <= |mem| - 16
    ensures |b| == 16
  {
    var p := Position(flags, inBlocks, length, if flags.inBlockIsCounter then 0 else j);
    if flags.inBlockIsCounter then mem[p..p + 15] + [(mem[p + 15] + j) % 256] else mem[p..p + 16]
  }

  /** The xor block that goes with it, if there is an xor pointer. */
  function XorIn(flags: Flags, hasXor: bool, xorBlocks: int, length: int, mem: bytes, j: nat): (x: bytes)
    requires hasXor ==> 0 <= Position(flags, xorBlocks, length, j) <= |mem| - 16
    ensures hasXor ==> |x| == 16
  {
    var p := Position(flags, xorBlocks, length, j);
    if hasXor then mem[p..p + 16] else []
  }

  /** The block that comes out: xored before the cipher with `BT_XorInput`, and behind it without. */
  function BlockOut(c: BlockCipher, flags: Flags, b: bytes, hasXor: bool, x: bytes): (r: bytes)
    requires c.blockSize == 16 && |b| == 16 && (hasXor ==> |x| == 16)
    ensures |r| == 16
  {
    if !hasXor then c.Process(b)
    else if flags.xorInput then c.Process(XorBytes(b, x))
    else XorBytes(c.Process(b), x)
  }

  /** Blocks are stored one behind the other. */
  predicate Advancing(w: Walk) {
    w.outStep == 16 || w.outStep == -16
  }

  lemma {:induction false} OutSkips(w: Walk, j: nat)
    requires Advancing(w)
    ensures Advancing(w.Skip(j)) && w.Skip(j).outStep == w.outStep
    ensures w.Skip(j).outp == if w.outStep == 16 then w.outp + 16 * j else w.outp - 16 * j
    decreases j
  {
    if j > 0 {
      OutSkips(w.Next(), j - 1);
    }
  }

  lemma StoreThenLoad(mem: bytes, at: int, b: bytes)
    requires 0 <= at <= |mem| - 16 && |b| == 16
    ensures Load(Store(mem, at, b), at) == b
  {
  }

  /** The k-th block that is stored is still there at the end. */
  lemma {:induction false} StoresStay(w: Walk, mem: bytes, outs: seq<bytes>, k: nat)
    requires Advancing(w) && w.Fits(|mem|, |outs|) && (forall j :: 0 <= j < |outs| ==> |outs[j]| == 16) && k < |outs|
    ensures w.Skip(k).Fits(|mem|, 1) && Load(Stores(w, mem, outs), w.Skip(k).outp) == outs[k]
    decreases |outs|
  {
    hide Load, Store;
    if k > 0 {
      StoresStay(w.Next(), Store(mem, w.outp, outs[0]), outs[1..], k - 1);
    } else {
      FitsLess(w, |mem|, |outs|, 1);
      assert w.Skip(0) == w;
      StoreThenLoad(mem, w.outp, outs[0]);
      forall j | 0 <= j < |outs| - 1
        ensures Apart(w.Next().Skip(j).outp, w.outp)
      {
        OutSkips(w.Next(), j);
      }
      StoresLeave(w.Next(), Store(mem, w.outp, outs[0]), outs[1..], w.outp);
    }
  }

  lemma {:induction false} StoresLeave(w: Walk, mem: bytes, outs: seq<bytes>, at: int)
    requires w.Fits(|mem|, |outs|) && (forall j :: 0 <= j < |outs| ==> |outs[j]| == 16) && 0 <= at <= |mem| - 16
    requires forall j :: 0 <= j < |outs| ==> Apart(w.Skip(j).outp, at)
    ensures Load(Stores(w, mem, outs), at) == Load(mem, at)
    decreases |outs|
  {
    hide Load, Store;
    if outs != [] {
      assert w.Skip(0) == w;
      LoadStored(mem, w.outp, outs[0], at);
      forall j | 0 <= j < |outs| - 1
        ensures Apart(w.Next().Skip(j).outp, at)
      {
        assert Apart(w.Skip(j + 1).outp, at);
      }
      StoresLeave(w.Next(), Store(mem, w.outp, outs[0]), outs[1..], at);
    }
  }

  /** A byte that no store meets is left alone. */
  lemma {:induction false} StoresMiss(w: Walk, mem: bytes, outs: seq<bytes>, i: nat)
    requires w.Fits(|mem|, |outs|) && (forall j :: 0 <= j < |outs| ==> |outs[j]| == 16) && i < |mem|
    requires forall j :: 0 <= j < |outs| ==> !(w.Skip(j).outp <= i < w.Skip(j).outp + 16)
    ensures Stores(w, mem, outs)[i] == mem[i]
    decreases |outs|
  {
    if outs != [] {
      var next := Store(mem, w.outp, outs[0]);
      assert w.Skip(0) == w && next[i] == mem[i];
      hide Store;
      forall j | 0 <= j < |outs| - 1
        ensures !(w.Next().Skip(j).outp <= i < w.Next().Skip(j).outp + 16)
      {
        assert w.Skip(j + 1) == w.Next().Skip(j);
      }
      StoresMiss(w.Next(), next, outs[1..], i);
    }
  }

  /** The pointers of the j-th block, for pointers that are incremented. */
  lemma SetupPositions(flags: Flags, inBlocks: int, hasXor: bool, xorBlocks: int, outBlocks: int, length: int, j: nat)
    requires !flags.dontIncrementInOutPointers
    ensures var w := Setup(flags, inBlocks, hasXor, xorBlocks, outBlocks, length);
      && Advancing(w)
      && w.Skip(j).outp == Position(flags, outBlocks, length, j)
      && w.Skip(j).inp == Position(flags, inBlocks, length, if flags.inBlockIsCounter then 0 else j)
      && (hasXor ==> w.Skip(j).xorp == Position(flags, xorBlocks, length, j))
  {
    var w := Setup(flags, inBlocks, hasXor, xorBlocks, outBlocks, length);
    OutSkips(w, j);
    SkipIs(w, j);
  }

  /** What the flags make of a block. */
  lemma SetupTransforms(c: BlockCipher, flags: Flags, inBlocks: int, hasXor: bool, xorBlocks: int, outBlocks: int, length: int,
                        b: bytes, x: bytes)
    requires c.blockSize == 16 && |b| == |x| == 16
    ensures var w := Setup(flags, inBlocks, hasXor, xorBlocks, outBlocks, length);
      w.Xors() == hasXor && w.counter == flags.inBlockIsCounter && Transformed(c, w, b, x, x) == BlockOut(c, flags, b, hasXor, x)
  {
    hide BlockCipher.Process, XorBytes;
  }

  /** The transformation does not change from block to block. */
  lemma TransformedAlike(c: BlockCipher, w: Walk, v: Walk, b: bytes, x: bytes)
    requires c.blockSize == 16 && |b| == |x| == 16 && w.xorIn == v.xorIn && w.xorOut == v.xorOut
    ensures Transformed(c, w, b, x, x) == Transformed(c, v, b, x, x)
  {
  }

  /** A batch's outputs, from memory as it is before the batch. */
  lemma OutputFromBefore(c: BlockCipher, w: Walk, mem: bytes, n: nat, j: nat)
    requires c.blockSize == 16 && w.Fits(|mem|, n) && Clear(w, n) && j < n
    ensures w.Skip(j).Fits(|mem|, 1) && w.Fits(|mem|, j + 1)
    ensures var x := LoadXor(w.Skip(j), mem);
      Output(c, w, mem, n, j) == Transformed(c, w, BatchBlock(w, mem, j), x, x)
  {
    hide Load, Transformed, BatchBlock, Bump, Clear;
    FitsAt(w, |mem|, n, j);
    FitsSkip(w, |mem|, n, j);
    if w.Xors() {
      if w.counter {
        CounterMissesXor(w, n, j);
      }
      LoadBumped(w, mem, n, w.Skip(j).xorp);
    }
  }

  lemma CounterMissesXor(w: Walk, n: nat, j: nat)
    requires Clear(w, n) && w.Xors() && w.counter && j < n
    ensures Apart(w.inp, w.Skip(j).xorp)
  {
  }

  /** Counting raises the last byte. */
  lemma CountedIs(mem: bytes, p: int, j: nat)
    requires 0 <= p <= |mem| - 16
    ensures Counted(Load(mem, p), j) == mem[p..p + 15] + [(mem[p + 15] + j) % 256]
  {
  }

  /** The pointers of the walk are in memory. */
  lemma PositionsFit(flags: Flags, inBlocks: int, hasXor: bool, xorBlocks: int, outBlocks: int, size: nat, length: nat, j: nat)
    requires !flags.dontIncrementInOutPointers && length >= 16
    requires Setup(flags, inBlocks, hasXor, xorBlocks, outBlocks, length).Fits(size, j + 1)
    ensures 0 <= Position(flags, outBlocks, length, j) <= size - 16
    ensures hasXor ==> 0 <= Position(flags, xorBlocks, length, j) <= size - 16
    ensures 0 <= Position(flags, inBlocks, length, if flags.inBlockIsCounter then 0 else j) <= size - 16
    ensures var w := Setup(flags, inBlocks, hasXor, xorBlocks, outBlocks, length);
      w.Skip(j).Fits(size, 1) && w.Skip(j).Xors() == w.Xors() == hasXor
  {
    var w := Setup(flags, inBlocks, hasXor, xorBlocks, outBlocks, length);
    assert w.Xors() == hasXor;
    hide Setup, Position, Walk.Skip;
    FitsAt(w, size, j + 1, j);
    SetupPositions(flags, inBlocks, hasXor, xorBlocks, outBlocks, length, j);
  }

  /** The block that a batch starts from, and the xor block, are read from memory as it was. */
  lemma BlockIsIn(flags: Flags, inBlocks: int, hasXor: bool, xorBlocks: int, outBlocks: int, mem: bytes, length: nat, j: nat)
    requires !flags.dontIncrementInOutPointers && length >= 16
    requires Setup(flags, inBlocks, hasXor, xorBlocks, outBlocks, length).Fits(|mem|, j + 1)
    ensures 0 <= Position(flags, inBlocks, length, if flags.inBlockIsCounter then 0 else j) <= |mem| - 16
    ensures BatchBlock(Setup(flags, inBlocks, hasXor, xorBlocks, outBlocks, length), mem, j)
         == BlockIn(flags, inBlocks, length, mem, j)
  {
    var w := Setup(flags, inBlocks, hasXor, xorBlocks, outBlocks, length);
    hide Setup, Position, Walk.Skip, Load, Counted, Walk.Fits;
    CounterStays(flags, inBlocks, hasXor, xorBlocks, outBlocks, length);
    PositionsFit(flags, inBlocks, hasXor, xorBlocks, outBlocks, |mem|, length, j);
    SetupPositions(flags, inBlocks, hasXor, xorBlocks, outBlocks, length, j);
    var p := Position(flags, inBlocks, length, if flags.inBlockIsCounter then 0 else j);
    if w.counter {
      CountedIs(mem, p, j);
    } else {
      LoadIs(mem, p);
    }
  }

  lemma CounterStays(flags: Flags, inBlocks: int, hasXor: bool, xorBlocks: int, outBlocks: int, length: int)
    ensures var w := Setup(flags, inBlocks, hasXor, xorBlocks, outBlocks, length);
      w.inp == Position(flags, inBlocks, length, 0) && w.counter == flags.inBlockIsCounter
  {
  }

  /**
   * Block by block: where nothing is stored that is read later, the block at the j-th output position
   * is that of the j-th input block, or of the counter plus j, and of the j-th xor block, all as they
   * were; in both directions.
   */
  lemma EachBlock(c: BlockCipher, flags: Flags, inBlocks: int, hasXor: bool, xorBlocks: int, outBlocks: int, mem: bytes,
                  length: nat, j: nat)
    requires c.blockSize == 16 && !flags.dontIncrementInOutPointers && length >= 16 && j < length / 16
    requires Setup(flags, inBlocks, hasXor, xorBlocks, outBlocks, length).Fits(|mem|, length / 16)
    requires Clear(Setup(flags, inBlocks, hasXor, xorBlocks, outBlocks, length), length / 16)
    ensures 0 <= Position(flags, outBlocks, length, j) <= |mem| - 16
    ensures hasXor ==> 0 <= Position(flags, xorBlocks, length, j) <= |mem| - 16
    ensures 0 <= Position(flags, inBlocks, length, if flags.inBlockIsCounter then 0 else j) <= |mem| - 16
    ensures var r := SerialRun(c, Setup(flags, inBlocks, hasXor, xorBlocks, outBlocks, length), mem, length / 16);
      var o := Position(flags, outBlocks, length, j);
      r[o..o + 16] == BlockOut(c, flags, BlockIn(flags, inBlocks, length, mem, j), hasXor,
                               XorIn(flags, hasXor, xorBlocks, length, mem, j))
  {
    var w, n := Setup(flags, inBlocks, hasXor, xorBlocks, outBlocks, length), length / 16;
    hide *;
    FitsLess(w, |mem|, n, j + 1);
    PositionsFit(flags, inBlocks, hasXor, xorBlocks, outBlocks, |mem|, length, j);
    SetupPositions(flags, inBlocks, hasXor, xorBlocks, outBlocks, length, j);
    BlockIsIn(flags, inBlocks, hasXor, xorBlocks, outBlocks, mem, length, j);
    BlockOfRun(c, w, mem, n, j);
    LoadIs(SerialRun(c, w, mem, n), w.Skip(j).outp);
    XorIsIn(flags, inBlocks, hasXor, xorBlocks, outBlocks, mem, length, j);
    SetupTransforms(c, flags, inBlocks, hasXor, xorBlocks, outBlocks, length, BatchBlock(w, mem, j), LoadXor(w.Skip(j), mem));
    NoXorBlock(c, flags, BatchBlock(w, mem, j), LoadXor(w.Skip(j), mem), XorIn(flags, hasXor, xorBlocks, length, mem, j));
  }

  lemma XorIsIn(flags: Flags, inBlocks: int, hasXor: bool, xorBlocks: int, outBlocks: int, mem: bytes, length: nat, j: nat)
    requires !flags.dontIncrementInOutPointers && length >= 16
    requires Setup(flags, inBlocks, hasXor, xorBlocks, outBlocks, length).Fits(|mem|, j + 1)
    ensures var w := Setup(flags, inBlocks, hasXor, xorBlocks, outBlocks, length);
      && w.Skip(j).Fits(|mem|, 1) && (hasXor ==> 0 <= Position(flags, xorBlocks, length, j) <= |mem| - 16)
      && (hasXor ==> LoadXor(w.Skip(j), mem) == XorIn(flags, hasXor, xorBlocks, length, mem, j))
  {
    var w := Setup(flags, inBlocks, hasXor, xorBlocks, outBlocks, length);
    hide Setup, Position, Walk.Skip, Walk.Fits, LoadXor;
    PositionsFit(flags, inBlocks, hasXor, xorBlocks, outBlocks, |mem|, length, j);
    SetupPositions(flags, inBlocks, hasXor, xorBlocks, outBlocks, length, j);
    XorIs(w.Skip(j), mem);
  }

  lemma BlockOfRun(c: BlockCipher, w: Walk, mem: bytes, n: nat, j: nat)
    requires c.blockSize == 16 && Advancing(w) && w.Fits(|mem|, n) && Clear(w, n) && j < n
    ensures w.Skip(j).Fits(|mem|, 1) && w.Fits(|mem|, j + 1)
    ensures var x := LoadXor(w.Skip(j), mem);
      Load(SerialRun(c, w, mem, n), w.Skip(j).outp) == Transformed(c, w, BatchBlock(w, mem, j), x, x)
  {
    hide Clear, Output, Transformed, BatchBlock, Load, LoadXor, BatchStep, SerialRun;
    OutputFromBefore(c, w, mem, n, j);
    BatchIsSerial(c, w, mem, n);
    BatchStores(c, w, mem, n, j);
  }

  lemma XorIs(w: Walk, mem: bytes)
    requires w.Fits(|mem|, 1)
    ensures w.Xors() ==> 0 <= w.xorp <= |mem| - 16 && LoadXor(w, mem) == mem[w.xorp..w.xorp + 16]
  {
  }

  lemma NoXorBlock(c: BlockCipher, flags: Flags, b: bytes, x: bytes, y: bytes)
    requires c.blockSize == 16 && |b| == 16
    ensures BlockOut(c, flags, b, false, x) == BlockOut(c, flags, b, false, y)
  {
  }

  lemma BatchStores(c: BlockCipher, w: Walk, mem: bytes, n: nat, j: nat)
    requires c.blockSize == 16 && Advancing(w) && w.Fits(|mem|, n) && j < n
    ensures w.Skip(j).Fits(|mem|, 1) && Load(BatchStep(c, w, mem, n), w.Skip(j).outp) == Output(c, w, mem, n, j)
  {
    hide Output, Bump, Stores, Load;
    FitsAt(w, |mem|, n, j);
    StoresStay(w, Bump(w, mem, n), Outputs(c, w, mem, n), j);
  }

  /** The same of a single block, whether pointers are incremented or not. */
  lemma OneBlock(c: BlockCipher, flags: Flags, inBlocks: int, hasXor: bool, xorBlocks: int, outBlocks: int, mem: bytes, length: nat)
    requires c.blockSize == 16 && 16 <= length < 32
    requires Setup(flags, inBlocks, hasXor, xorBlocks, outBlocks, length).Fits(|mem|, 1)
    requires Clear(Setup(flags, inBlocks, hasXor, xorBlocks, outBlocks, length), 1)
    ensures 0 <= Position(flags, outBlocks, length, 0) <= |mem| - 16
    ensures hasXor ==> 0 <= Position(flags, xorBlocks, length, 0) <= |mem| - 16
    ensures 0 <= Position(flags, inBlocks, length, 0) <= |mem| - 16
    ensures var r := SerialRun(c, Setup(flags, inBlocks, hasXor, xorBlocks, outBlocks, length), mem, 1);
      var o := Position(flags, outBlocks, length, 0);
      r[o..o + 16] == BlockOut(c, flags, BlockIn(flags, inBlocks, length, mem, 0), hasXor,
                               XorIn(flags, hasXor, xorBlocks, length, mem, 0))
  {
    var w := Setup(flags, inBlocks, hasXor, xorBlocks, outBlocks, length);
    FirstPositions(flags, inBlocks, hasXor, xorBlocks, outBlocks, length);
    hide Setup, Position, XorBytes, BlockCipher.Process, BlockOut, Clear, SerialRun, Transformed, BlockIn, XorIn;
    FirstStored(c, w, mem);
    LoadIs(SerialRun(c, w, mem, 1), w.outp);
    XorIs(w, mem);
    var b, x := Load(mem, w.inp), LoadXor(w, mem);
    FirstIn(flags, inBlocks, hasXor, xorBlocks, length, mem);
    SetupTransforms(c, flags, inBlocks, hasXor, xorBlocks, outBlocks, length, b, x);
    NoXorBlock(c, flags, b, x, XorIn(flags, hasXor, xorBlocks, length, mem, 0));
  }

  lemma FirstPositions(flags: Flags, inBlocks: int, hasXor: bool, xorBlocks: int, outBlocks: int, length: int)
    ensures var w := Setup(flags, inBlocks, hasXor, xorBlocks, outBlocks, length);
      && w.inp == Position(flags, inBlocks, length, 0) && w.outp == Position(flags, outBlocks, length, 0)
      && w.xorp == Position(flags, xorBlocks, length, 0) && w.Xors() == hasXor
  {
  }

  lemma FirstIn(flags: Flags, inBlocks: int, hasXor: bool, xorBlocks: int, length: int, mem: bytes)
    requires 0 <= Position(flags, inBlocks, length, 0) <= |mem| - 16
    requires hasXor ==> 0 <= Position(flags, xorBlocks, length, 0) <= |mem| - 16
    ensures BlockIn(flags, inBlocks, length, mem, 0) == Load(mem, Position(flags, inBlocks, length, 0))
    ensures hasXor ==> XorIn(flags, hasXor, xorBlocks, length, mem, 0) == Load(mem, Position(flags, xorBlocks, length, 0))
  {
  }

  lemma FirstStored(c: BlockCipher, w: Walk, mem: bytes)
    requires c.blockSize == 16 && w.Fits(|mem|, 1) && Clear(w, 1)
    ensures var x := LoadXor(w, mem);
      Load(SerialRun(c, w, mem, 1), w.outp) == Transformed(c, w, Load(mem, w.inp), x, x)
  {
    hide Transformed, Load, Store, Bump, Clear;
    var counted := Bump(w, mem, 1);
    assert w.Skip(0) == w;
    if w.Xors() {
      if w.counter {
        CounterMissesXor(w, 1, 0);
      }
      LoadBumped(w, mem, 1, w.xorp);
    }
    StoreThenLoad(counted, w.outp, Transformed(c, w, Load(mem, w.inp), LoadXor(w, mem), LoadXor(w, counted)));
    NothingRun(c, w.Next(), SerialStep(c, w, mem));
  }

  /** Everything else is left alone, but for the last byte of the counter, which is as much higher as there are blocks. */
  lemma NothingElse(c: BlockCipher, flags: Flags, inBlocks: int, hasXor: bool, xorBlocks: int, outBlocks: int, mem: bytes,
                    length: nat, i: nat)
    requires c.blockSize == 16 && !flags.dontIncrementInOutPointers && length >= 16 && i < |mem|
    requires Setup(flags, inBlocks, hasXor, xorBlocks, outBlocks, length).Fits(|mem|, length / 16)
    requires Clear(Setup(flags, inBlocks, hasXor, xorBlocks, outBlocks, length), length / 16)
    requires forall j :: 0 <= j < length / 16 ==>
      !(Position(flags, outBlocks, length, j) <= i < Position(flags, outBlocks, length, j) + 16)
    ensures SerialRun(c, Setup(flags, inBlocks, hasXor, xorBlocks, outBlocks, length), mem, length / 16)[i]
         == if flags.inBlockIsCounter && i == Position(flags, inBlocks, length, 0) + 15
            then (mem[i] + length / 16) % 256 else mem[i]
  {
    hide *;
    var w, n := Setup(flags, inBlocks, hasXor, xorBlocks, outBlocks, length), length / 16;
    SetupMisses(flags, inBlocks, hasXor, xorBlocks, outBlocks, length, n, i);
    CounterStays(flags, inBlocks, hasXor, xorBlocks, outBlocks, length);
    MissedByRun(c, w, mem, n, i);
  }

  lemma SetupMisses(flags: Flags, inBlocks: int, hasXor: bool, xorBlocks: int, outBlocks: int, length: int, n: nat, i: int)
    requires !flags.dontIncrementInOutPointers
    requires forall j :: 0 <= j < n ==>
      !(Position(flags, outBlocks, length, j) <= i < Position(flags, outBlocks, length, j) + 16)
    ensures var w := Setup(flags, inBlocks, hasXor, xorBlocks, outBlocks, length);
      forall j :: 0 <= j < n ==> !(w.Skip(j).outp <= i < w.Skip(j).outp + 16)
  {
    var w := Setup(flags, inBlocks, hasXor, xorBlocks, outBlocks, length);
    hide Setup, Position, Walk.Skip;
    forall j | 0 <= j < n
      ensures !(w.Skip(j).outp <= i < w.Skip(j).outp + 16)
    {
      SetupPositions(flags, inBlocks, hasXor, xorBlocks, outBlocks, length, j);
    }
  }

  lemma MissedByRun(c: BlockCipher, w: Walk, mem: bytes, n: nat, i: nat)
    requires c.blockSize == 16 && n > 0 && w.Fits(|mem|, n) && Clear(w, n) && i < |mem|
    requires forall j :: 0 <= j < n ==> !(w.Skip(j).outp <= i < w.Skip(j).outp + 16)
    ensures SerialRun(c, w, mem, n)[i] == if w.counter && i == w.inp + 15 then (mem[i] + n) % 256 else mem[i]
  {
    hide Clear, Outputs, Stores, SerialRun;
    BatchIsSerial(c, w, mem, n);
    StoresMiss(w, Bump(w, mem, n), Outputs(c, w, mem, n), i);
  }

  /** Both block pointers stay at one block, and xor blocks that are apart from it are xored in before the cipher. */
  predicate Chaining(w: Walk, n: nat) {
    && w.inStep == w.outStep == 0 && w.xorStep == 16 && w.inp == w.outp && w.xorIn && !w.xorOut && !w.counter
    && (w.xorp + 16 * n <= w.outp || w.outp + 16 <= w.xorp)
  }

  lemma StoredTwice(mem: bytes, at: int, a: bytes, b: bytes)
    requires 0 <= at <= |mem| - 16 && |a| == |b| == 16
    ensures Store(Store(mem, at, a), at, b) == Store(mem, at, b)
  {
  }

  /** n blocks of memory. */
  function Piece(mem: bytes, from: int, n: nat): (s: bytes)
    requires 0 <= from && from + 16 * n <= |mem|
    ensures |s| == 16 * n
  {
    mem[from..from + 16 * n]
  }

  lemma PieceApart(mem: bytes, at: int, b: bytes, from: int, n: nat)
    requires 0 <= at <= |mem| - 16 && |b| == 16 && 0 <= from && from + 16 * n <= |mem|
    requires from + 16 * n <= at || at + 16 <= from
    ensures Piece(Store(mem, at, b), from, n) == Piece(mem, from, n)
  {
  }

  lemma PieceFirst(mem: bytes, from: int, n: nat)
    requires n > 0 && 0 <= from && from + 16 * n <= |mem|
    ensures Piece(mem, from, n)[..16] == Load(mem, from) && Piece(mem, from, n)[16..] == Piece(mem, from + 16, n - 1)
  {
  }

  lemma ChainFirst(c: BlockCipher, x: bytes, s: bytes)
    requires c.blockSize == |x| == 16 && |s| >= 16 && Whole(|s|, 16)
    ensures Whole(|s[16..]|, 16) && Chain(c, x, s) == Chain(c, c.Process(XorBytes(x, s[..16])), s[16..])
  {
  }

  lemma {:induction false} WholeBlocks(n: nat)
    ensures Whole(16 * n, 16)
  {
    if n > 0 {
      WholeBlocks(n - 1);
    }
  }

  lemma {:induction false} XorsFit(w: Walk, size: nat, n: nat)
    requires w.Fits(size, n) && n > 0 && w.xorStep == 16 && w.Xors()
    ensures 0 <= w.xorp && w.xorp + 16 * n <= size
    decreases n
  {
    if n > 1 {
      XorsFit(w.Next(), size, n - 1);
    }
  }

  lemma ChainingStep(c: BlockCipher, w: Walk, mem: bytes, n: nat)
    requires c.blockSize == 16 && n > 0 && Chaining(w, n) && w.Fits(|mem|, n)
    ensures w.Fits(|mem|, 1) && w.Next().Fits(|mem|, n - 1) && Chaining(w.Next(), n - 1) && w.Next().outp == w.outp
    ensures var next := Store(mem, w.outp, c.Process(XorBytes(Load(mem, w.outp), Load(mem, w.xorp))));
      SerialRun(c, w, mem, n) == SerialRun(c, w.Next(), next, n - 1)
  {
    hide Load, Store, XorBytes, BlockCipher.Process;
    FitsLess(w, |mem|, n, 1);
  }

  /** One block at a time, the blocks are chained. */
  lemma {:induction false} ChainingRun(c: BlockCipher, w: Walk, mem: bytes, n: nat)
    requires c.blockSize == 16 && n > 0 && Chaining(w, n) && w.Fits(|mem|, n)
    ensures 0 <= w.outp <= |mem| - 16 && 0 <= w.xorp && w.xorp + 16 * n <= |mem| && Whole(16 * n, 16)
    ensures SerialRun(c, w, mem, n) == Store(mem, w.outp, Chain(c, Load(mem, w.outp), Piece(mem, w.xorp, n)))
    decreases n
  {
    hide Store, Load, Chain, Whole, XorBytes, BlockCipher.Process, SerialStep, SerialRun, Piece, Walk.Fits, Chaining;
    ChainingBounds(w, |mem|, n);
    ChainingStep(c, w, mem, n);
    PieceFirst(mem, w.xorp, n);
    var y := c.Process(XorBytes(Load(mem, w.outp), Load(mem, w.xorp)));
    ChainFirst(c, Load(mem, w.outp), Piece(mem, w.xorp, n));
    ChainingRest(c, w, mem, n, y);
  }

  lemma ChainingBounds(w: Walk, size: nat, n: nat)
    requires n > 0 && Chaining(w, n) && w.Fits(size, n)
    ensures 0 <= w.outp <= size - 16 && 0 <= w.xorp && w.xorp + 16 * n <= size
    ensures w.Next().outp == w.outp && w.Next().xorp == w.xorp + 16 && (w.xorp + 16 * n <= w.outp || w.outp + 16 <= w.xorp)
    ensures Whole(16 * n, 16) && Whole(16 * (n - 1), 16)
  {
    XorsFit(w, size, n);
    WholeBlocks(n);
    WholeBlocks(n - 1);
  }

  /** What follows the first block. */
  lemma {:induction false} ChainingRest(c: BlockCipher, w: Walk, mem: bytes, n: nat, y: bytes)
    requires c.blockSize == 16 && n > 0 && Chaining(w, n) && w.Fits(|mem|, n) && |y| == 16
    requires 0 <= w.outp <= |mem| - 16 && 0 <= w.xorp && w.xorp + 16 * n <= |mem| && Whole(16 * (n - 1), 16)
    ensures w.Next().Fits(|mem|, n - 1)
    ensures SerialRun(c, w.Next(), Store(mem, w.outp, y), n - 1)
         == Store(mem, w.outp, Chain(c, y, Piece(mem, w.xorp + 16, n - 1)))
    decreases n, 0
  {
    hide Store, Load, Chain, Whole, SerialRun, Piece, Walk.Fits, Chaining;
    ChainingStep(c, w, mem, n);
    var s := Piece(mem, w.xorp + 16, n - 1);
    if n == 1 {
      NoMoreChain(c, y, s);
      NothingRun(c, w.Next(), Store(mem, w.outp, y));
    } else {
      ChainingBounds(w, |mem|, n);
      PieceApart(mem, w.outp, y, w.xorp + 16, n - 1);
      StoreThenLoad(mem, w.outp, y);
      ChainingRun(c, w.Next(), Store(mem, w.outp, y), n - 1);
      StoredTwice(mem, w.outp, y, Chain(c, y, s));
    }
  }

  lemma NoMoreChain(c: BlockCipher, x: bytes, s: bytes)
    requires c.blockSize == |x| == 16 && s == []
    ensures Chain(c, x, s) == x
  {
  }

  /**
   * The call that CCM makes: with pointers that stay at one block and `BT_XorInput`, the data is chained
   * onto that block, as a CBC-MAC chains it.
   */
  lemma ChainsXorBlocks(c: BlockCipher, flags: Flags, block: int, xorBlocks: int, mem: bytes, length: nat)
    requires c.blockSize == 16 && length >= 16
    requires flags.dontIncrementInOutPointers && flags.xorInput && !flags.reverseDirection && !flags.inBlockIsCounter
    requires 0 <= block <= |mem| - 16 && 0 <= xorBlocks && xorBlocks + 16 * (length / 16) <= |mem|
    requires xorBlocks + 16 * (length / 16) <= block || block + 16 <= xorBlocks
    ensures var w := Setup(flags, block, true, xorBlocks, block, length);
      && w.Fits(|mem|, length / 16) && Whole(16 * (length / 16), 16)
      && SerialRun(c, w, mem, length / 16)
         == mem[..block] + Chain(c, mem[block..block + 16], mem[xorBlocks..xorBlocks + 16 * (length / 16)]) + mem[block + 16..]
  {
    hide *;
    var w, n := Setup(flags, block, true, xorBlocks, block, length), length / 16;
    SetupChains(flags, block, xorBlocks, length, n);
    ChainingFits(w, |mem|, n);
    ChainingRun(c, w, mem, n);
    LoadIs(mem, block);
    PieceIs(mem, xorBlocks, n);
    StoreIs(mem, block, Chain(c, Load(mem, block), Piece(mem, xorBlocks, n)));
  }

  lemma SetupChains(flags: Flags, block: int, xorBlocks: int, length: int, n: nat)
    requires flags.dontIncrementInOutPointers && flags.xorInput && !flags.reverseDirection && !flags.inBlockIsCounter
    requires xorBlocks + 16 * n <= block || block + 16 <= xorBlocks
    ensures var w := Setup(flags, block, true, xorBlocks, block, length);
      && Chaining(w, n) && w.inp == w.outp == block && w.xorp == xorBlocks && w.inStep == w.outStep == 0 && w.xorStep == 16
  {
  }

  lemma PieceIs(mem: bytes, from: int, n: nat)
    requires 0 <= from && from + 16 * n <= |mem|
    ensures Piece(mem, from, n) == mem[from..from + 16 * n]
  {
  }

  lemma StoreIs(mem: bytes, at: int, b: bytes)
    requires 0 <= at <= |mem| - 16 && |b| == 16
    ensures Store(mem, at, b) == mem[..at] + b + mem[at + 16..]
  {
  }

  lemma {:induction false} ChainingFits(w: Walk, size: nat, n: nat)
    requires w.inStep == w.outStep == 0 && w.xorStep == 16
    requires 0 <= w.inp <= size - 16 && 0 <= w.outp <= size - 16 && 0 <= w.xorp && w.xorp + 16 * n <= size
    ensures w.Fits(size, n)
    decreases n
  {
    if n > 0 {
      ChainingFits(w.Next(), size, n - 1);
    }
  }
}
