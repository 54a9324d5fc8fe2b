/** The block-processing templates of `adv_simd.h`: several blocks at a time, or one. */
module AdvSimd {
  import opened Numbers
  import opened Bytes
  import opened Ciphers

  datatype Flags = Flags(inBlockIsCounter: bool, dontIncrementInOutPointers: bool, xorInput: bool,
                         reverseDirection: bool, allowParallel: bool)

  /** The three pointers, what is added to them for each block, and what the flags make of a block. */
  datatype Walk = Walk(inp: int, xorp: int, outp: int, inStep: int, xorStep: int, outStep: int,
                       counter: bool, xorIn: bool, xorOut: bool)
  {
    function Next(): Walk {
      this.(inp := inp + inStep, xorp := xorp + xorStep, outp := outp + outStep)
    }

    function Skip(k: nat): Walk
      decreases k
    {
      if k == 0 then this else Next().Skip(k - 1)
    }

    predicate Xors() { xorIn || xorOut }

    /** The next n blocks are in memory. */
    predicate Fits(size: nat, n: nat)
      decreases n
    {
      n > 0 ==>
        && 0 <= inp <= size - 16 && 0 <= outp <= size - 16 && (Xors() ==> 0 <= xorp <= size - 16)
        && Next().Fits(size, n - 1)
    }
  }

  /** The walk the prologue sets up; `hasXor` is whether there is an xor pointer. */
  function Setup(flags: Flags, inBlocks: int, hasXor: bool, xorBlocks: int, outBlocks: int, length: int): Walk {
    var inStep := if flags.inBlockIsCounter || flags.dontIncrementInOutPointers then 0 else 16;
    var xorStep := if hasXor then 16 else 0;
    var outStep := if flags.dontIncrementInOutPointers then 0 else 16;
    var last := length - 16;
    if flags.reverseDirection then
      Walk(inBlocks + last, xorBlocks + last, outBlocks + last, -inStep, -xorStep, -outStep,
           flags.inBlockIsCounter, hasXor && flags.xorInput, hasXor && !flags.xorInput)
    else
      Walk(inBlocks, xorBlocks, outBlocks, inStep, xorStep, outStep,
           flags.inBlockIsCounter, hasXor && flags.xorInput, hasXor && !flags.xorInput)
  }

  function Load(mem: bytes, a: int): (b: bytes)
    requires 0 <= a <= |mem| - 16
    ensures |b| == 16
  {
    mem[a..a + 16]
  }

  function Store(mem: bytes, a: int, b: bytes): (r: bytes)
    requires 0 <= a <= |mem| - 16 && |b| == 16
    ensures |r| == |mem|
    ensures forall i :: 0 <= i < |mem| ==> r[i] == if a <= i < a + 16 then b[i - a] else mem[i]
  {
    mem[..a] + b + mem[a + 16..]
  }

  /** A byte counted up; it wraps. */
  function Raised(x: byte, k: nat): (r: byte) {
    (x + k) % 256
  }

  lemma RaisedTwice(x: byte, j: nat, k: nat)
    ensures Raised(Raised(x, j), k) == Raised(x, j + k)
  {
    ModStep(x + j, k);
  }

  /** The counter block's last byte, k higher. */
  function Counted(b: bytes, k: nat): (r: bytes)
    requires |b| == 16
    ensures |r| == 16
  {
    b[15 := Raised(b[15], k)]
  }

  function Poke(mem: bytes, i: int, v: byte): (r: bytes)
    requires 0 <= i < |mem|
    ensures |r| == |mem|
  {
    mem[i := v]
  }

  /** The counter block in memory, k higher. */
  function Bump(w: Walk, mem: bytes, k: nat): (r: bytes)
    requires w.counter ==> 0 <= w.inp <= |mem| - 16
    ensures |r| == |mem|
  {
    if w.counter then Poke(mem, w.inp + 15, Raised(mem[w.inp + 15], k)) else mem
  }

  /** A block through the cipher, xored before or behind it. */
  function Transformed(c: BlockCipher, w: Walk, block: bytes, before: bytes, behind: bytes): (r: bytes)
    requires c.blockSize == 16 && |block| == |before| == |behind| == 16
    ensures |r| == 16
  {
    var out := c.Process(if w.xorIn then XorBytes(block, before) else block);
    if w.xorOut then XorBytes(out, behind) else out
  }

  /** The xor block, if one is used. */
  function LoadXor(w: Walk, mem: bytes): (b: bytes)
    requires w.Xors() ==> 0 <= w.xorp <= |mem| - 16
    ensures |b| == 16
  {
    if w.Xors() then Load(mem, w.xorp) else Zeros(16)
  }

  /** One round of the last loop: load, count, encipher, store. */
  function SerialStep(c: BlockCipher, w: Walk, mem: bytes): (r: bytes)
    requires c.blockSize == 16 && w.Fits(|mem|, 1)
    ensures |r| == |mem|
  {
    var counted := Bump(w, mem, 1);
    Store(counted, w.outp, Transformed(c, w, Load(mem, w.inp), LoadXor(w, mem), LoadXor(w, counted)))
  }

  /** Memory after n blocks one at a time. */
  function SerialRun(c: BlockCipher, w: Walk, mem: bytes, n: nat): (r: bytes)
    requires c.blockSize == 16 && w.Fits(|mem|, n)
    ensures |r| == |mem|
    decreases n
  {
    if n == 0 then mem else SerialRun(c, w.Next(), SerialStep(c, w, mem), n - 1)
  }

  /** The j-th block of a batch: all are loaded, or counted up from the first, before any is stored. */
  function BatchBlock(w: Walk, mem: bytes, j: nat): (b: bytes)
    requires w.Fits(|mem|, j + 1)
    ensures |b| == 16
  {
    FitsSkip(w, |mem|, j + 1, j);
    if w.counter then Counted(Load(mem, w.inp), j) else Load(mem, w.Skip(j).inp)
  }

  /** What a batch of m blocks computes; the xor blocks are loaded once the counter has been stored. */
  function Outputs(c: BlockCipher, w: Walk, mem: bytes, m: nat): (outs: seq<bytes>)
    requires c.blockSize == 16 && w.Fits(|mem|, m)
    ensures |outs| == m && forall j :: 0 <= j < m ==> |outs[j]| == 16
  {
    seq(m, j requires 0 <= j < m => Output(c, w, mem, m, j))
  }

  function Output(c: BlockCipher, w: Walk, mem: bytes, m: nat, j: nat): (out: bytes)
    requires c.blockSize == 16 && w.Fits(|mem|, m) && j < m
    ensures |out| == 16
  {
    FitsLess(w, |mem|, m, j + 1);
    FitsSkip(w, |mem|, m, j);
    var x := LoadXor(w.Skip(j), Bump(w, mem, m));
    Transformed(c, w, BatchBlock(w, mem, j), x, x)
  }

  function Stores(w: Walk, mem: bytes, outs: seq<bytes>): (r: bytes)
    requires w.Fits(|mem|, |outs|) && forall j :: 0 <= j < |outs| ==> |outs[j]| == 16
    ensures |r| == |mem|
    decreases |outs|
  {
    if outs == [] then mem else Stores(w.Next(), Store(mem, w.outp, outs[0]), outs[1..])
  }

  /** One round of a parallel loop. */
  function BatchStep(c: BlockCipher, w: Walk, mem: bytes, m: nat): (r: bytes)
    requires c.blockSize == 16 && m > 0 && w.Fits(|mem|, m)
    ensures |r| == |mem|
  {
    Stores(w, Bump(w, mem, m), Outputs(c, w, mem, m))
  }

  lemma {:induction false} FitsLess(w: Walk, size: nat, n: nat, m: nat)
    requires w.Fits(size, n) && m <= n
    ensures w.Fits(size, m)
    decreases n
  {
    if m > 0 {
      FitsLess(w.Next(), size, n - 1, m - 1);
    }
  }

  lemma {:induction false} FitsSkip(w: Walk, size: nat, n: nat, k: nat)
    requires w.Fits(size, n) && k <= n
    ensures w.Skip(k).Fits(size, n - k)
    ensures w.Skip(k) == w.(inp := w.Skip(k).inp, xorp := w.Skip(k).xorp, outp := w.Skip(k).outp)
    decreases k
  {
    if k > 0 {
      FitsSkip(w.Next(), size, n - 1, k - 1);
    }
  }

  predicate Apart(a: int, b: int) {
    a + 16 <= b || b + 16 <= a
  }

  /**
   * The block that is stored first is none that is read later, and a counter block is neither
   * stored to nor xored with.
   */
  predicate ClearFirst(w: Walk, n: nat) {
    && (forall j :: 0 < j < n && !w.counter ==> Apart(w.outp, w.Skip(j).inp))
    && (forall j :: 0 < j < n && w.Xors() ==> Apart(w.outp, w.Skip(j).xorp))
    && (w.counter ==> w.inStep == 0)
    && (w.counter ==> Apart(w.outp, w.inp))
    && (forall j :: 0 <= j < n && w.counter && w.Xors() ==> Apart(w.inp, w.Skip(j).xorp))
  }

  predicate Clear(w: Walk, n: nat)
    decreases n
  {
    n > 0 ==> ClearFirst(w, n) && Clear(w.Next(), n - 1)
  }

  lemma {:induction false} ClearLess(w: Walk, n: nat, m: nat)
    requires Clear(w, n) && m <= n
    ensures Clear(w, m)
    decreases n
  {
    if m > 0 {
      ClearLess(w.Next(), n - 1, m - 1);
    }
  }

  lemma {:induction false} ClearSkip(w: Walk, n: nat, k: nat)
    requires Clear(w, n) && k <= n
    ensures Clear(w.Skip(k), n - k)
    decreases k
  {
    if k > 0 {
      ClearSkip(w.Next(), n - 1, k - 1);
    }
  }

  lemma LoadStored(mem: bytes, a: int, b: bytes, at: int)
    requires 0 <= a <= |mem| - 16 && 0 <= at <= |mem| - 16 && |b| == 16 && Apart(a, at)
    ensures Load(Store(mem, a, b), at) == Load(mem, at)
  {
  }

  /** Where the counter is, nothing is stored; everything else is left alone by counting. */
  lemma LoadBumped(w: Walk, mem: bytes, k: nat, at: int)
    requires 0 <= at <= |mem| - 16 && (w.counter ==> 0 <= w.inp <= |mem| - 16 && Apart(w.inp, at))
    ensures Load(Bump(w, mem, k), at) == Load(mem, at)
  {
  }

  /** The outputs of a batch but the first are those of the batch without its first block, once that is done. */
  lemma LaterOutput(c: BlockCipher, w: Walk, mem: bytes, m: nat, j: nat)
    requires c.blockSize == 16 && w.Fits(|mem|, m) && Clear(w, m) && 0 < j < m
    ensures w.Next().Fits(|mem|, m - 1)
    ensures Output(c, w.Next(), SerialStep(c, w, mem), m - 1, j - 1) == Output(c, w, mem, m, j)
  {
    var next, mid := w.Next(), SerialStep(c, w, mem);
    LaterBlock(c, w, mem, m, j);
    LaterXor(c, w, mem, m, j);
    hide Load, LoadXor, Bump, SerialStep, BatchBlock;
  }

  lemma LaterBlock(c: BlockCipher, w: Walk, mem: bytes, m: nat, j: nat)
    requires c.blockSize == 16 && w.Fits(|mem|, m) && Clear(w, m) && 0 < j < m
    ensures w.Next().Fits(|mem|, j) && w.Fits(|mem|, j + 1)
    ensures BatchBlock(w.Next(), SerialStep(c, w, mem), j - 1) == BatchBlock(w, mem, j)
  {
    hide Transformed, LoadXor, Load, Store, Bump, Counted, Clear;
    FitsLess(w, |mem|, m, j + 1);
    FitsSkip(w, |mem|, j + 1, j);
    ClearFor(w, m, j);
    var counted := Bump(w, mem, 1);
    var out := Transformed(c, w, Load(mem, w.inp), LoadXor(w, mem), LoadXor(w, counted));
    if w.counter {
      LoadStored(counted, w.outp, out, w.inp);
      LoadCounter(w, mem);
      CountedTwice(Load(mem, w.inp), j - 1);
    } else {
      NoCounter(w, mem, 1);
      LoadStored(mem, w.outp, out, w.Skip(j).inp);
    }
  }

  lemma ClearFor(w: Walk, m: nat, j: nat)
    requires Clear(w, m) && 0 < j < m
    ensures w.counter ==> w.Next().inp == w.inp && Apart(w.outp, w.inp)
    ensures !w.counter ==> Apart(w.outp, w.Skip(j).inp)
  {
  }

  lemma NoCounter(w: Walk, mem: bytes, k: nat)
    requires !w.counter
    ensures Bump(w, mem, k) == mem
  {
  }

  lemma LoadCounter(w: Walk, mem: bytes)
    requires w.counter && 0 <= w.inp <= |mem| - 16
    ensures Load(Bump(w, mem, 1), w.inp) == Counted(Load(mem, w.inp), 1)
  {
  }

  lemma CountedTwice(b: bytes, k: nat)
    requires |b| == 16
    ensures Counted(Counted(b, 1), k) == Counted(b, k + 1)
  {
    hide Raised;
    RaisedTwice(b[15], 1, k);
  }

  lemma LaterXor(c: BlockCipher, w: Walk, mem: bytes, m: nat, j: nat)
    requires c.blockSize == 16 && w.Fits(|mem|, m) && Clear(w, m) && 0 < j < m
    ensures w.Skip(j).Fits(|mem|, 1) && w.Next().Skip(j - 1) == w.Skip(j)
    ensures LoadXor(w.Skip(j), Bump(w.Next(), SerialStep(c, w, mem), m - 1)) == LoadXor(w.Skip(j), Bump(w, mem, m))
  {
    FitsSkip(w, |mem|, m, j);
    FitsLess(w.Skip(j), |mem|, m - j, 1);
    if w.Xors() {
      var counted := Bump(w, mem, 1);
      var out := Transformed(c, w, Load(mem, w.inp), LoadXor(w, mem), LoadXor(w, counted));
      var at := w.Skip(j).xorp;
      hide Transformed, LoadXor, Load, Store, Bump;
      LoadBumped(w, mem, m, at);
      LoadBumped(w, mem, 1, at);
      LoadStored(counted, w.outp, out, at);
      LoadBumped(w.Next(), SerialStep(c, w, mem), m - 1, at);
    }
  }

  /** The first output, and the counter. */
  lemma FirstOutput(c: BlockCipher, w: Walk, mem: bytes, m: nat)
    requires c.blockSize == 16 && m > 0 && w.Fits(|mem|, m) && Clear(w, m)
    ensures Bump(w.Next(), SerialStep(c, w, mem), m - 1) == Store(Bump(w, mem, m), w.outp, Output(c, w, mem, m, 0))
  {
    hide Transformed, Load, LoadXor, Output, Store, Bump, Clear;
    FirstIsSerial(c, w, mem, m);
    BumpStored(w, mem, Output(c, w, mem, m, 0), m);
  }

  lemma {:induction false} BumpCounter(w: Walk, mem: bytes, out: bytes, m: nat)
    requires w.counter && m > 0 && |out| == 16 && w.Fits(|mem|, 1) && Apart(w.outp, w.inp) && w.Next().inp == w.inp
    ensures Bump(w.Next(), Store(Bump(w, mem, 1), w.outp, out), m - 1) == Store(Bump(w, mem, m), w.outp, out)
  {
    hide Store, Raised, Poke;
    var i, o := w.inp + 15, w.outp;
    var u, v := Raised(mem[i], 1), Raised(mem[i], m);
    RaisedTwice(mem[i], 1, m - 1);
    StorePoked(mem, o, out, i, u);
    StorePoked(mem, o, out, i, v);
    PokedTwice(Store(mem, o, out), i, u, v);
  }

  lemma StorePoked(mem: bytes, o: int, out: bytes, i: int, v: byte)
    requires 0 <= o <= |mem| - 16 && |out| == 16 && 0 <= i < |mem| && (i < o || o + 16 <= i)
    ensures Store(Poke(mem, i, v), o, out) == Poke(Store(mem, o, out), i, v)
  {
    hide Store;
  }

  lemma PokedTwice(s: bytes, i: int, u: byte, v: byte)
    requires 0 <= i < |s|
    ensures Poke(s, i, u)[i] == u && Poke(Poke(s, i, u), i, v) == Poke(s, i, v)
  {
  }

  /** The store and the counter do not touch each other. */
  lemma BumpStored(w: Walk, mem: bytes, out: bytes, m: nat)
    requires m > 0 && Clear(w, m) && |out| == 16 && w.Fits(|mem|, 1)
    ensures w.counter ==> w.Next().inp == w.inp
    ensures Bump(w.Next(), Store(Bump(w, mem, 1), w.outp, out), m - 1) == Store(Bump(w, mem, m), w.outp, out)
  {
    hide Clear, Bump, Store;
    ClearNext(w, m);
    if w.counter {
      BumpCounter(w, mem, out, m);
    } else {
      NoCounter(w, mem, m);
      NoCounter(w, mem, 1);
      NoCounter(w.Next(), Store(mem, w.outp, out), m - 1);
    }
  }

  lemma FirstIsSerial(c: BlockCipher, w: Walk, mem: bytes, m: nat)
    requires c.blockSize == 16 && m > 0 && w.Fits(|mem|, m) && Clear(w, m)
    ensures Output(c, w, mem, m, 0) == Transformed(c, w, Load(mem, w.inp), LoadXor(w, mem), LoadXor(w, Bump(w, mem, 1)))
  {
    hide Transformed, Load, Bump;
    if w.Xors() {
      assert w.Skip(0) == w && (w.counter ==> Apart(w.inp, w.Skip(0).xorp));
      LoadBumped(w, mem, m, w.xorp);
      LoadBumped(w, mem, 1, w.xorp);
    }
    CountedNothing(Load(mem, w.inp));
  }

  lemma CountedNothing(b: bytes)
    requires |b| == 16
    ensures Counted(b, 0) == b
  {
  }

  lemma BumpNothing(w: Walk, mem: bytes)
    requires w.counter ==> 0 <= w.inp <= |mem| - 16
    ensures Bump(w, mem, 0) == mem
  {
  }

  /** A batch does what its blocks do one at a time. */
  lemma {:induction false} BatchIsSerial(c: BlockCipher, w: Walk, mem: bytes, m: nat)
    requires c.blockSize == 16 && m > 0 && w.Fits(|mem|, m) && Clear(w, m)
    ensures BatchStep(c, w, mem, m) == SerialRun(c, w, mem, m)
    decreases m
  {
    var next, mid := w.Next(), SerialStep(c, w, mem);
    var outs := Outputs(c, w, mem, m);
    hide Outputs, Output, Bump, SerialStep, Store, Clear;
    assert outs[0] == Output(c, w, mem, m, 0) by {
      OutputsFirst(c, w, mem, m);
    }
    FirstOutput(c, w, mem, m);
    ClearNext(w, m);
    assert BatchStep(c, w, mem, m) == Stores(next, Bump(next, mid, m - 1), outs[1..]);
    assert SerialRun(c, w, mem, m) == SerialRun(c, next, mid, m - 1);
    if m == 1 {
      assert outs[1..] == [];
      BumpNothing(next, mid);
    } else {
      BatchIsSerial(c, next, mid, m - 1);
      LaterOutputs(c, w, mem, m);
    }
  }

  lemma OutputsFirst(c: BlockCipher, w: Walk, mem: bytes, m: nat)
    requires c.blockSize == 16 && m > 0 && w.Fits(|mem|, m)
    ensures Outputs(c, w, mem, m)[0] == Output(c, w, mem, m, 0)
  {
    hide Output;
  }

  lemma LaterOutputs(c: BlockCipher, w: Walk, mem: bytes, m: nat)
    requires c.blockSize == 16 && m > 1 && w.Fits(|mem|, m) && Clear(w, m)
    ensures Outputs(c, w, mem, m)[1..] == Outputs(c, w.Next(), SerialStep(c, w, mem), m - 1)
  {
    hide Output, SerialStep, Clear;
    forall j | 0 < j < m
      ensures Outputs(c, w, mem, m)[j] == Outputs(c, w.Next(), SerialStep(c, w, mem), m - 1)[j - 1]
    {
      LaterOutput(c, w, mem, m, j);
    }
  }

  lemma ClearNext(w: Walk, n: nat)
    requires Clear(w, n) && n > 0
    ensures Clear(w.Next(), n - 1) && (w.counter ==> w.Next().inp == w.inp && Apart(w.outp, w.inp))
  {
  }

  /** Going on where a run stopped. */
  lemma {:induction false} SerialSplit(c: BlockCipher, w: Walk, mem: bytes, k: nat, n: nat)
    requires c.blockSize == 16 && w.Fits(|mem|, n) && k <= n
    ensures w.Fits(|mem|, k) && w.Skip(k).Fits(|mem|, n - k)
    ensures SerialRun(c, w, mem, n) == SerialRun(c, w.Skip(k), SerialRun(c, w, mem, k), n - k)
    decreases k
  {
    hide SerialStep;
    FitsLess(w, |mem|, n, k);
    FitsSkip(w, |mem|, n, k);
    if k > 0 {
      SerialSplit(c, w.Next(), SerialStep(c, w, mem), k - 1, n - 1);
    }
  }

  /** Pointers after j blocks, for the steps there are. */
  lemma {:induction false} SkipIs(w: Walk, j: nat)
    ensures w.Skip(j).inp == if w.inStep == 0 then w.inp else if w.inStep == 16 then w.inp + 16 * j
                             else if w.inStep == -16 then w.inp - 16 * j else w.Skip(j).inp
    ensures w.Skip(j).xorp == if w.xorStep == 16 then w.xorp + 16 * j
                              else if w.xorStep == -16 then w.xorp - 16 * j else w.Skip(j).xorp
    decreases j
  {
    if j > 0 {
      SkipIs(w.Next(), j - 1);
    }
  }

  /** n blocks from p on, in the direction of the step, are the same as, or do not meet, those from q on. */
  predicate SameOrApart(p: int, q: int, n: nat) {
    p == q || p + 16 * n <= q || q + 16 * n <= p
  }

  /** The counter block does not meet the n blocks from q on. */
  predicate CounterApart(counter: int, q: int, n: nat, step: int) {
    var low := if step == 16 then q else q - 16 * (n - 1);
    counter + 16 <= low || low + 16 * n <= counter
  }

  /** All pointers step by whole blocks, the counter's excepted, over regions that are the same or apart. */
  predicate Regular(w: Walk, n: nat) {
    && (w.outStep == 16 || w.outStep == -16)
    && (if w.counter then w.inStep == 0 && CounterApart(w.inp, w.outp, n, w.outStep)
        else w.inStep == w.outStep && SameOrApart(w.inp, w.outp, n))
    && (w.Xors() ==> w.xorStep == w.outStep && SameOrApart(w.xorp, w.outp, n)
                     && (w.counter ==> CounterApart(w.inp, w.xorp, n, w.xorStep)))
  }

  lemma {:induction false} RegularIsClear(w: Walk, n: nat)
    requires Regular(w, n)
    ensures Clear(w, n)
    decreases n
  {
    if n > 0 {
      RegularIsClear(w.Next(), n - 1);
      forall j | 0 <= j < n
        ensures 0 < j && !w.counter ==> Apart(w.outp, w.Skip(j).inp)
        ensures 0 < j && w.Xors() ==> Apart(w.outp, w.Skip(j).xorp)
        ensures w.counter && w.Xors() ==> Apart(w.inp, w.Skip(j).xorp)
      {
        SkipIs(w, j);
      }
    }
  }

  /**
   * What makes working in parallel safe: the pointers are incremented, in, xor and out regions are
   * the same or disjoint, and a counter block is apart from the others.
   */
  predicate Safe(flags: Flags, inBlocks: int, hasXor: bool, xorBlocks: int, outBlocks: int, length: nat) {
    var same := (p: int, q: int) => p == q || p + length <= q || q + length <= p;
    var counter := if flags.reverseDirection then inBlocks + length - 16 else inBlocks;
    && !flags.dontIncrementInOutPointers
    && (!flags.inBlockIsCounter ==> same(inBlocks, outBlocks))
    && (hasXor ==> same(xorBlocks, outBlocks))
    && (flags.inBlockIsCounter ==> counter + 16 <= outBlocks || outBlocks + length <= counter)
    && (flags.inBlockIsCounter && hasXor ==> counter + 16 <= xorBlocks || xorBlocks + length <= counter)
  }

  lemma SafeIsClear(flags: Flags, inBlocks: int, hasXor: bool, xorBlocks: int, outBlocks: int, length: nat)
    requires Safe(flags, inBlocks, hasXor, xorBlocks, outBlocks, length) && length >= 16
    ensures Clear(Setup(flags, inBlocks, hasXor, xorBlocks, outBlocks, length), length / 16)
  {
    var n := length / 16;
    assert 16 * n <= length < 16 * n + 16;
    RegularIsClear(Setup(flags, inBlocks, hasXor, xorBlocks, outBlocks, length), n);
  }

  /** Within each batch of m blocks nothing is stored that the batch reads later. */
  predicate ClearInBatches(w: Walk, n: nat, m: nat)
    requires m > 0
    decreases n
  {
    n >= m ==> Clear(w, m) && ClearInBatches(w.Skip(m), n - m, m)
  }

  lemma {:induction false} ClearIsClearInBatches(w: Walk, n: nat, m: nat)
    requires m > 0 && Clear(w, n)
    ensures ClearInBatches(w, n, m)
    decreases n
  {
    hide Clear;
    if n >= m {
      ClearLess(w, n, m);
      ClearSkip(w, n, m);
      ClearIsClearInBatches(w.Skip(m), n - m, m);
    }
  }

  /** The batches of the two templates. */
  predicate ClearFor4x1(w: Walk, n: nat) {
    ClearInBatches(w, n, 4)
  }

  predicate ClearFor6x2(w: Walk, n: nat) {
    ClearInBatches(w, n, 6) && ClearInBatches(w.Skip(n - n % 6), n % 6, 2)
  }

  /** Regions that are the same or disjoint are clear in both templates. */
  lemma SafeIsClearInBatches(flags: Flags, inBlocks: int, hasXor: bool, xorBlocks: int, outBlocks: int,
                             length: nat)
    requires Safe(flags, inBlocks, hasXor, xorBlocks, outBlocks, length) && length >= 16
    ensures ClearFor4x1(Setup(flags, inBlocks, hasXor, xorBlocks, outBlocks, length), length / 16)
    ensures ClearFor6x2(Setup(flags, inBlocks, hasXor, xorBlocks, outBlocks, length), length / 16)
  {
    hide Safe, Setup, Clear, ClearInBatches;
    var w, n := Setup(flags, inBlocks, hasXor, xorBlocks, outBlocks, length), length / 16;
    SafeIsClear(flags, inBlocks, hasXor, xorBlocks, outBlocks, length);
    ClearIsClearInBatches(w, n, 4);
    ClearIsClearInBatches(w, n, 6);
    ClearSkip(w, n, n - n % 6);
    ClearIsClearInBatches(w.Skip(n - n % 6), n % 6, 2);
  }

  /** Memory after the batches of m blocks, as long as there are as many. */
  function BatchedRun(c: BlockCipher, w: Walk, mem: bytes, n: nat, m: nat): (r: bytes)
    requires c.blockSize == 16 && m > 0 && w.Fits(|mem|, n)
    ensures |r| == |mem|
    decreases n
  {
    if n < m then mem
    else
      FitsLess(w, |mem|, n, m);
      FitsSkip(w, |mem|, n, m);
      BatchedRun(c, w.Skip(m), BatchStep(c, w, mem, m), n - m, m)
  }

  /** As many blocks as whole batches take. */
  function Batched(n: nat, m: nat): (k: nat)
    requires m > 0
    ensures k <= n && (n >= m ==> k >= m)
  {
    if n < m then 0 else m + Batched(n - m, m)
  }

  /** Batches of m, and the rest one at a time. */
  function RunInBatches(c: BlockCipher, w: Walk, mem: bytes, n: nat, m: nat): (r: bytes)
    requires c.blockSize == 16 && m > 0 && w.Fits(|mem|, n)
    ensures |r| == |mem|
  {
    var k := Batched(n, m);
    FitsSkip(w, |mem|, n, k);
    SerialRun(c, w.Skip(k), BatchedRun(c, w, mem, n, m), n - k)
  }

  function Run4x1(c: BlockCipher, w: Walk, mem: bytes, n: nat): (r: bytes)
    requires c.blockSize == 16 && w.Fits(|mem|, n)
    ensures |r| == |mem|
  {
    RunInBatches(c, w, mem, n, 4)
  }

  /** Batches of six, then of two, and the rest one at a time. */
  function Run6x2(c: BlockCipher, w: Walk, mem: bytes, n: nat): (r: bytes)
    requires c.blockSize == 16 && w.Fits(|mem|, n)
    ensures |r| == |mem|
  {
    var k := Batched(n, 6);
    FitsSkip(w, |mem|, n, k);
    RunInBatches(c, w.Skip(k), BatchedRun(c, w, mem, n, 6), n - k, 2)
  }

  /** Batches that store nothing they read later do what their blocks do one at a time. */
  lemma {:induction false} BatchedIsSerial(c: BlockCipher, w: Walk, mem: bytes, n: nat, m: nat)
    requires c.blockSize == 16 && m > 0 && w.Fits(|mem|, n) && ClearInBatches(w, n, m)
    ensures w.Fits(|mem|, Batched(n, m)) && BatchedRun(c, w, mem, n, m) == SerialRun(c, w, mem, Batched(n, m))
    decreases n
  {
    hide Clear, BatchStep, SerialRun;
    FitsLess(w, |mem|, n, Batched(n, m));
    if n < m {
      NothingRun(c, w, mem);
    } else {
      FitsLess(w, |mem|, n, m);
      FitsSkip(w, |mem|, n, m);
      BatchedIsSerial(c, w.Skip(m), BatchStep(c, w, mem, m), n - m, m);
      BatchIsSerial(c, w, mem, m);
      SerialSplit(c, w, mem, m, Batched(n, m));
    }
  }

  lemma NothingRun(c: BlockCipher, w: Walk, mem: bytes)
    requires c.blockSize == 16
    ensures SerialRun(c, w, mem, 0) == mem
  {
  }

  lemma {:induction false} BatchedIs(n: nat, m: nat)
    requires m > 0
    ensures Batched(n, m) == n - n % m
    decreases n
  {
    if n < m {
      DivModUnique(n, m, 0, n);
    } else {
      BatchedIs(n - m, m);
      var q := (n - m) / m;
      assert n == (q + 1) * m + (n - m) % m;
      DivModUnique(n, m, q + 1, (n - m) % m);
    }
  }

  lemma RunInBatchesIsSerial(c: BlockCipher, w: Walk, mem: bytes, n: nat, m: nat)
    requires c.blockSize == 16 && m > 0 && w.Fits(|mem|, n) && ClearInBatches(w, n, m)
    ensures RunInBatches(c, w, mem, n, m) == SerialRun(c, w, mem, n)
  {
    hide ClearInBatches, BatchedRun, SerialRun, Batched;
    BatchedIsSerial(c, w, mem, n, m);
    SerialSplit(c, w, mem, Batched(n, m), n);
  }

  lemma Run4x1IsSerial(c: BlockCipher, w: Walk, mem: bytes, n: nat)
    requires c.blockSize == 16 && w.Fits(|mem|, n) && ClearFor4x1(w, n)
    ensures Run4x1(c, w, mem, n) == SerialRun(c, w, mem, n)
  {
    hide ClearInBatches, RunInBatches, SerialRun;
    RunInBatchesIsSerial(c, w, mem, n, 4);
  }

  lemma Run6x2IsSerial(c: BlockCipher, w: Walk, mem: bytes, n: nat)
    requires c.blockSize == 16 && w.Fits(|mem|, n) && ClearFor6x2(w, n)
    ensures Run6x2(c, w, mem, n) == SerialRun(c, w, mem, n)
  {
    hide ClearInBatches, BatchedRun, SerialRun, RunInBatches, Batched;
    BatchedIsSerial(c, w, mem, n, 6);
    BatchedIs(n, 6);
    SerialSplit(c, w, mem, n - n % 6, n);
    RunInBatchesIsSerial(c, w.Skip(n - n % 6), BatchedRun(c, w, mem, n, 6), n % 6, 2);
  }

  /** A kernel for several blocks does to each what the cipher does. */
  ghost predicate Blockwise(c: BlockCipher, kernel: seq<bytes> -> seq<bytes>, m: nat)
    requires c.blockSize == 16
  {
    forall blocks: seq<bytes> :: |blocks| == m && (forall i :: 0 <= i < m ==> |blocks[i]| == 16)
      ==> |kernel(blocks)| == m && forall i :: 0 <= i < m ==> kernel(blocks)[i] == c.Process(blocks[i])
  }

  /** A kernel for one block. */
  ghost predicate OfOneBlock(c: BlockCipher, kernel: bytes -> bytes)
    requires c.blockSize == 16
  {
    forall b: bytes :: |b| == 16 ==> kernel(b) == c.Process(b)
  }

  lemma KernelIs(c: BlockCipher, kernel: bytes -> bytes, b: bytes)
    requires c.blockSize == 16 && OfOneBlock(c, kernel) && |b| == 16
    ensures kernel(b) == c.Process(b)
  {
  }

  method StoreBlock(mem: array<byte>, a: int, b: bytes)
    requires 0 <= a <= mem.Length - 16 && |b| == 16
    modifies mem
    ensures mem[..] == Store(old(mem[..]), a, b)
  {
    forall i | 0 <= i < 16 {
      mem[a + i] := b[i];
    }
    assert mem[..] == Store(old(mem[..]), a, b);
  }

  lemma {:induction false} SkipNext(w: Walk, j: nat)
    ensures w.Skip(j + 1) == w.Skip(j).Next() && w.Skip(0) == w
    ensures w.Skip(j) == w.(inp := w.Skip(j).inp, xorp := w.Skip(j).xorp, outp := w.Skip(j).outp)
    decreases j
  {
    if j > 0 {
      SkipNext(w.Next(), j - 1);
    }
  }

  /** The pointers that are not stepped stay. */
  predicate Stepping(w: Walk) {
    (w.counter ==> w.inStep == 0) && (!w.Xors() ==> w.xorStep == 0)
  }

  lemma {:induction false} SkipStays(w: Walk, j: nat)
    ensures w.inStep == 0 ==> w.Skip(j).inp == w.inp
    ensures w.xorStep == 0 ==> w.Skip(j).xorp == w.xorp
    decreases j
  {
    if j > 0 {
      SkipStays(w.Next(), j - 1);
    }
  }

  lemma FitsAt(w: Walk, size: nat, m: nat, j: nat)
    requires w.Fits(size, m) && j < m
    ensures w.Fits(size, j + 1) && w.Skip(j).Fits(size, 1)
    ensures w.Skip(j).Xors() == w.Xors()
  {
    FitsLess(w, size, m, j + 1);
    FitsSkip(w, size, j + 1, j);
  }

  /** The loads of a batch; a counter is counted up for each block, and stored for the next batch. */
  method LoadBlocks(mem: array<byte>, w: Walk, m: nat) returns (blocks: seq<bytes>, inp: int)
    requires m > 0 && w.Fits(mem.Length, m) && Stepping(w)
    modifies mem
    ensures mem[..] == Bump(w, old(mem[..]), m) && inp == w.Skip(m).inp && |blocks| == m
    ensures forall j :: 0 <= j < m ==> w.Fits(mem.Length, j + 1) && blocks[j] == BatchBlock(w, old(mem[..]), j)
  {
    ghost var was := mem[..];
    forall k | 0 < k <= m ensures w.Fits(mem.Length, k) {
      FitsLess(w, mem.Length, m, k);
    }
    hide Counted, Load;
    blocks, inp := [], w.inp;
    if w.counter {
      var block := mem[inp..inp + 16];
      FirstCount(w, was);
      for j := 0 to m
        invariant |blocks| == j && block == Counted(Load(was, w.inp), j)
        invariant forall i :: 0 <= i < j ==> blocks[i] == BatchBlock(w, was, i)
        modifies {}
      {
        blocks := blocks + [block];
        CountedMore(Load(was, w.inp), j);
        block := Counted(block, 1);
      }
      StoreBlock(mem, inp, block);
      StoreCounter(w, was, m);
      SkipStays(w, m);
    } else {
      for j := 0 to m
        invariant inp == w.Skip(j).inp && |blocks| == j
        invariant forall i :: 0 <= i < j ==> blocks[i] == BatchBlock(w, was, i)
        modifies {}
      {
        FitsAt(w, mem.Length, m, j);
        SkipNext(w, j);
        LoadIs(was, inp);
        assert mem[inp..inp + 16] == was[inp..inp + 16];
        blocks := blocks + [mem[inp..inp + 16]];
        inp := inp + w.inStep;
      }
    }
  }

  lemma LoadIs(mem: bytes, a: int)
    requires 0 <= a <= |mem| - 16
    ensures Load(mem, a) == mem[a..a + 16]
  {
  }

  lemma FirstCount(w: Walk, mem: bytes)
    requires 0 <= w.inp <= |mem| - 16
    ensures mem[w.inp..w.inp + 16] == Counted(Load(mem, w.inp), 0)
  {
  }

  lemma CountedMore(b: bytes, k: nat)
    requires |b| == 16
    ensures Counted(Counted(b, k), 1) == Counted(b, k + 1)
  {
    hide Raised;
    RaisedTwice(b[15], k, 1);
  }

  lemma ModStep(x: nat, k: nat)
    ensures (x % 256 + k) % 256 == (x + k) % 256
  {
  }

  lemma StoreCounter(w: Walk, mem: bytes, m: nat)
    requires w.counter && 0 <= w.inp <= |mem| - 16
    ensures Store(mem, w.inp, Counted(Load(mem, w.inp), m)) == Bump(w, mem, m)
  {
  }

  /** Every block of a batch xored with its xor block. */
  method XorBlocks(mem: array<byte>, blocks: seq<bytes>, w: Walk) returns (r: seq<bytes>, xorp: int)
    requires w.Fits(mem.Length, |blocks|) && w.Xors() && forall j :: 0 <= j < |blocks| ==> |blocks[j]| == 16
    ensures |r| == |blocks| && xorp == w.Skip(|blocks|).xorp
    ensures forall j :: 0 <= j < |blocks| ==>
      w.Skip(j).Fits(mem.Length, 1) && w.Skip(j).Xors() && r[j] == XorBytes(blocks[j], LoadXor(w.Skip(j), mem[..]))
  {
    forall j | 0 <= j < |blocks| ensures w.Skip(j).Fits(mem.Length, 1) && w.Skip(j).Xors() {
      FitsAt(w, mem.Length, |blocks|, j);
    }
    r, xorp := [], w.xorp;
    for j := 0 to |blocks|
      invariant |r| == j && xorp == w.Skip(j).xorp
      invariant forall i :: 0 <= i < j ==> r[i] == XorBytes(blocks[i], LoadXor(w.Skip(i), mem[..]))
    {
      hide XorBytes;
      SkipNext(w, j);
      assert LoadXor(w.Skip(j), mem[..]) == mem[xorp..xorp + 16];
      r := r + [XorBytes(blocks[j], mem[xorp..xorp + 16])];
      xorp := xorp + w.xorStep;
    }
  }

  /** The stores of a batch. */
  method StoreBlocks(mem: array<byte>, blocks: seq<bytes>, w: Walk) returns (outp: int)
    requires w.Fits(mem.Length, |blocks|) && forall j :: 0 <= j < |blocks| ==> |blocks[j]| == 16
    modifies mem
    ensures mem[..] == Stores(w, old(mem[..]), blocks) && outp == w.Skip(|blocks|).outp
  {
    hide Store;
    outp := w.outp;
    assert blocks[0..] == blocks;
    for j := 0 to |blocks|
      invariant outp == w.Skip(j).outp && w.Skip(j).Fits(mem.Length, |blocks| - j)
      invariant Stores(w.Skip(j), mem[..], blocks[j..]) == Stores(w, old(mem[..]), blocks)
    {
      SkipNext(w, j);
      StoreBlock(mem, outp, blocks[j]);
      assert blocks[j..][0] == blocks[j] && blocks[j..][1..] == blocks[j + 1..];
      outp := outp + w.outStep;
    }
  }

  /** One round of a parallel loop: all m blocks are loaded, enciphered, and stored. */
  method ProcessBatch(ghost c: BlockCipher, kernel: seq<bytes> -> seq<bytes>, mem: array<byte>, walk: Walk, m: nat)
    returns (w: Walk)
    requires c.blockSize == 16 && m > 0 && walk.Fits(mem.Length, m) && Stepping(walk) && Blockwise(c, kernel, m)
    modifies mem
    ensures w == walk.Skip(m) && mem[..] == BatchStep(c, walk, old(mem[..]), m)
  {
    hide Load, LoadXor, XorBytes, Store, Stores, BatchBlock, BlockCipher.Process, Bump;
    ghost var was := mem[..];
    w := walk;
    SkipNext(w, m);
    SkipStays(w, m);
    var blocks: seq<bytes>, inp, xorp := [], w.inp, w.xorp;
    blocks, inp := LoadBlocks(mem, walk, m);
    if walk.xorIn {
      blocks, xorp := XorBlocks(mem, blocks, walk);
    }
    blocks := kernel(blocks);
    if walk.xorOut {
      blocks, xorp := XorBlocks(mem, blocks, walk);
    }
    forall j | 0 <= j < m
      ensures blocks[j] == Output(c, walk, was, m, j)
    {
      FitsAt(walk, mem.Length, m, j);
    }
    assert blocks == Outputs(c, walk, was, m);
    var outp := StoreBlocks(mem, blocks, walk);
    w := walk.(inp := inp, xorp := xorp, outp := outp);
  }

  lemma LoadsAre(w: Walk, mem: bytes)
    requires w.Fits(|mem|, 1)
    ensures Load(mem, w.inp) == mem[w.inp..w.inp + 16]
    ensures w.Xors() ==> LoadXor(w, mem) == mem[w.xorp..w.xorp + 16]
  {
  }

  lemma NotCounted(w: Walk, mem: bytes)
    ensures !w.counter ==> Bump(w, mem, 1) == mem
  {
  }

  /** The counter's last byte incremented in place. */
  method CountUp(mem: array<byte>, w: Walk)
    requires w.counter && 0 <= w.inp <= mem.Length - 16
    modifies mem
    ensures mem[..] == Bump(w, old(mem[..]), 1)
  {
    mem[w.inp + 15] := Raised(mem[w.inp + 15], 1);
    assert mem[..] == old(mem[..])[w.inp + 15 := mem[w.inp + 15]];
  }

  /** One round of the last loop. */
  method ProcessOne(ghost c: BlockCipher, kernel: bytes -> bytes, mem: array<byte>, walk: Walk) returns (w: Walk)
    requires c.blockSize == 16 && walk.Fits(mem.Length, 1)
    requires OfOneBlock(c, kernel)
    modifies mem
    ensures w == walk.Next() && mem[..] == SerialStep(c, walk, old(mem[..]))
  {
    hide Store, XorBytes, BlockCipher.Process, Bump, OfOneBlock, Load, LoadXor;
    ghost var was := mem[..];
    NotCounted(walk, was);
    LoadsAre(walk, was);
    LoadsAre(walk, Bump(walk, was, 1));
    var block := mem[walk.inp..walk.inp + 16];
    if walk.xorIn {
      block := XorBytes(block, mem[walk.xorp..walk.xorp + 16]);
    }
    if walk.counter {
      CountUp(mem, walk);
    }
    KernelIs(c, kernel, block);
    block := kernel(block);
    if walk.xorOut {
      block := XorBytes(block, mem[walk.xorp..walk.xorp + 16]);
    }
    StoreBlock(mem, walk.outp, block);
    w := walk.Next();
  }

  lemma {:induction false} SkipSkip(w: Walk, i: nat, j: nat)
    ensures w.Skip(i).Skip(j) == w.Skip(i + j)
    decreases i
  {
    if i > 0 {
      SkipSkip(w.Next(), i - 1, j);
    }
  }

  lemma SteppingSkip(w: Walk, m: nat)
    requires Stepping(w)
    ensures Stepping(w.Skip(m))
  {
    SkipNext(w, m);
  }

  /** A parallel loop: batches of m blocks as long as there are as many. */
  method BatchLoop(ghost c: BlockCipher, kernel: seq<bytes> -> seq<bytes>, mem: array<byte>, walk: Walk, size: nat, m: nat)
    returns (w: Walk, length: nat)
    requires c.blockSize == 16 && m > 0 && Blockwise(c, kernel, m) && Stepping(walk) && walk.Fits(mem.Length, size / 16)
    modifies mem
    ensures length <= size && length % 16 == size % 16 && length / 16 == size / 16 - Batched(size / 16, m) && Stepping(w)
    ensures w == walk.Skip(Batched(size / 16, m)) && w.Fits(mem.Length, length / 16)
    ensures mem[..] == BatchedRun(c, walk, old(mem[..]), size / 16, m)
  {
    hide Blockwise, BatchStep, Stepping, BatchedRun, Batched;
    w, length := walk, size;
    ghost var left := size / 16;
    SkipNext(walk, 0);
    while length >= 16 * m
      invariant length <= size && length % 16 == size % 16 && 0 <= left == length / 16 <= size / 16 && Stepping(w)
      invariant w.Fits(mem.Length, left) && w == walk.Skip(size / 16 - left)
      invariant left - Batched(left, m) == size / 16 - Batched(size / 16, m)
      invariant BatchedRun(c, w, mem[..], left, m) == BatchedRun(c, walk, old(mem[..]), size / 16, m)
    {
      BatchedStep(c, w, mem[..], left, m);
      SteppingSkip(w, m);
      SkipSkip(walk, size / 16 - left, m);
      w := ProcessBatch(c, kernel, mem, w, m);
      length := length - 16 * m;
      left := left - m;
    }
    BatchedNothing(c, w, mem[..], left, m);
  }

  lemma BatchedStep(c: BlockCipher, w: Walk, mem: bytes, n: nat, m: nat)
    requires c.blockSize == 16 && n >= m > 0 && w.Fits(|mem|, n)
    ensures w.Fits(|mem|, m) && w.Skip(m).Fits(|mem|, n - m) && Batched(n, m) == m + Batched(n - m, m)
    ensures BatchedRun(c, w, mem, n, m) == BatchedRun(c, w.Skip(m), BatchStep(c, w, mem, m), n - m, m)
  {
    hide BatchStep;
    FitsLess(w, |mem|, n, m);
    FitsSkip(w, |mem|, n, m);
  }

  lemma BatchedNothing(c: BlockCipher, w: Walk, mem: bytes, n: nat, m: nat)
    requires c.blockSize == 16 && n < m && w.Fits(|mem|, n)
    ensures BatchedRun(c, w, mem, n, m) == mem && Batched(n, m) == 0
  {
  }

  /** The last loop. */
  method SerialLoop(ghost c: BlockCipher, kernel: bytes -> bytes, mem: array<byte>, walk: Walk, size: nat)
    returns (length: nat)
    requires c.blockSize == 16 && OfOneBlock(c, kernel) && walk.Fits(mem.Length, size / 16)
    modifies mem
    ensures length == size % 16 && mem[..] == SerialRun(c, walk, old(mem[..]), size / 16)
  {
    hide SerialStep, BlockCipher.Process, OfOneBlock;
    length := size;
    var w := walk;
    while length >= 16
      invariant length <= size && length % 16 == size % 16 && w.Fits(mem.Length, length / 16)
      invariant SerialRun(c, w, mem[..], length / 16) == SerialRun(c, walk, old(mem[..]), size / 16)
    {
      w := ProcessOne(c, kernel, mem, w);
      length := length - 16;
    }
  }

  /**
   * Four blocks at a time, then one. Without `BT_AllowParallel` memory is that of one block at a time;
   * with it, too, as long as no batch stores anything it reads later.
   */
  method AdvancedProcessBlocks128_4x1_SSE(ghost c: BlockCipher, func1: bytes -> bytes, func4: seq<bytes> -> seq<bytes>,
                                          mem: array<byte>, inBlocks: int, hasXor: bool, xorBlocks: int, outBlocks: int,
                                          size: nat, flags: Flags)
    returns (length: nat)
    requires c.blockSize == 16 && Blockwise(c, func4, 4) && OfOneBlock(c, func1)
    requires size >= 16 && Setup(flags, inBlocks, hasXor, xorBlocks, outBlocks, size).Fits(mem.Length, size / 16)
    modifies mem
    ensures length == size % 16
    ensures var w := Setup(flags, inBlocks, hasXor, xorBlocks, outBlocks, size);
      && mem[..] == (if flags.allowParallel then Run4x1(c, w, old(mem[..]), size / 16) else SerialRun(c, w, old(mem[..]), size / 16))
      && (!flags.allowParallel || ClearFor4x1(w, size / 16) ==> mem[..] == SerialRun(c, w, old(mem[..]), size / 16))
  {
    hide Blockwise, OfOneBlock, BlockCipher.Process, SerialRun, BatchedRun, ClearFor4x1;
    length := size;
    var w := Setup(flags, inBlocks, hasXor, xorBlocks, outBlocks, size);
    ghost var w0, mem0 := w, mem[..];
    if flags.allowParallel {
      w, length := BatchLoop(c, func4, mem, w, length, 4);
    }
    length := SerialLoop(c, func1, mem, w, length);
    if flags.allowParallel && ClearFor4x1(w0, size / 16) {
      Run4x1IsSerial(c, w0, mem0, size / 16);
    }
  }

  /** One block beside a zero block. */
  function BesideZero(func2: seq<bytes> -> seq<bytes>): bytes -> bytes {
    b => var r := func2([b, Zeros(16)]); if r == [] then b else r[0]
  }

  lemma BesideZeroIs(c: BlockCipher, func2: seq<bytes> -> seq<bytes>)
    requires c.blockSize == 16 && Blockwise(c, func2, 2)
    ensures OfOneBlock(c, BesideZero(func2))
  {
    hide BlockCipher.Process, Zeros;
    forall b: bytes | |b| == 16
      ensures BesideZero(func2)(b) == c.Process(b)
    {
      var blocks := [b, Zeros(16)];
      assert |blocks| == 2 && |blocks[0]| == 16 && |blocks[1]| == 16;
      assert |func2(blocks)| == 2 && func2(blocks)[0] == c.Process(blocks[0]);
    }
  }

  /** Six blocks at a time, then two, then one beside a zero block. */
  method AdvancedProcessBlocks128_6x2_SSE(ghost c: BlockCipher, func2: seq<bytes> -> seq<bytes>, func6: seq<bytes> -> seq<bytes>,
                                          mem: array<byte>, inBlocks: int, hasXor: bool, xorBlocks: int, outBlocks: int,
                                          size: nat, flags: Flags)
    returns (length: nat)
    requires c.blockSize == 16 && Blockwise(c, func2, 2) && Blockwise(c, func6, 6)
    requires size >= 16 && Setup(flags, inBlocks, hasXor, xorBlocks, outBlocks, size).Fits(mem.Length, size / 16)
    modifies mem
    ensures length == size % 16
    ensures var w := Setup(flags, inBlocks, hasXor, xorBlocks, outBlocks, size);
      && mem[..] == (if flags.allowParallel then Run6x2(c, w, old(mem[..]), size / 16) else SerialRun(c, w, old(mem[..]), size / 16))
      && (!flags.allowParallel || ClearFor6x2(w, size / 16) ==> mem[..] == SerialRun(c, w, old(mem[..]), size / 16))
  {
    hide Blockwise, OfOneBlock, BlockCipher.Process, SerialRun, BatchedRun, ClearFor6x2;
    length := size;
    var w := Setup(flags, inBlocks, hasXor, xorBlocks, outBlocks, size);
    ghost var w0, mem0 := w, mem[..];
    if flags.allowParallel {
      w, length := BatchLoop(c, func6, mem, w, length, 6);
      w, length := BatchLoop(c, func2, mem, w, length, 2);
    }
    BesideZeroIs(c, func2);
    length := SerialLoop(c, BesideZero(func2), mem, w, length);
    if flags.allowParallel && ClearFor6x2(w0, size / 16) {
      Run6x2IsSerial(c, w0, mem0, size / 16);
    }
  }
}
