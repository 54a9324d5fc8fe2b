/** When the parallel rounds of `adv_simd.h` are the serial ones for all ciphers, and when they go wrong. */
module AdvSimdExactly {
  import opened Bytes
  import opened Ciphers
  import opened AdvSimd
  import opened AdvSimdBlocks

  /** Both block pointers stay: what `BT_DontIncrementInOutPointers` is for. */
  predicate Staying(w: Walk, n: nat) {
    && w.inStep == w.outStep == 0 && !w.counter
    && forall j :: 0 <= j < n && w.Xors() ==> Apart(w.outp, w.Skip(j).xorp)
  }

  function Fill(v: byte): (b: bytes)
    ensures |b| == 16 && forall i :: 0 <= i < 16 ==> b[i] == v
  {
    seq(16, i => v)
  }

  /** A cipher that tells a block of zeros from any other. */
  function Marker(): (c: BlockCipher)
    ensures c.blockSize == 16
  {
    BlockCipher(16, (b: bytes) => if b == Zeros(16) then Fill(255) else Fill(1))
  }

  lemma MarkerMarks(b: bytes)
    requires |b| == 16
    ensures Marker().Process(b) == if b == Zeros(16) then Fill(255) else Fill(1)
  {
  }

  /** Xoring with zeros does nothing. */
  lemma XorZeros(b: bytes)
    requires |b| == 16
    ensures XorBytes(b, Zeros(16)) == b
  {
  }

  lemma MarkedTransform(w: Walk, block: bytes)
    requires |block| == 16
    ensures Transformed(Marker(), w, block, Zeros(16), Zeros(16)) == if block == Zeros(16) then Fill(255) else Fill(1)
  {
    hide Marker, BlockCipher.Process, XorBytes, Zeros, Fill;
    MarkerMarks(block);
    XorZeros(block);
    XorZeros(if block == Zeros(16) then Fill(255) else Fill(1));
  }

  /** Zeros but for one block. */
  function Marked(size: nat, at: int, v: byte): (mem: bytes)
    requires 0 <= at <= size - 16
    ensures |mem| == size
  {
    Store(Zeros(size), at, Fill(v))
  }

  lemma MarkedLoads(size: nat, at: int, v: byte, from: int)
    requires 0 <= at <= size - 16 && 0 <= from <= size - 16 && v > 0
    ensures Load(Marked(size, at, v), from) == Zeros(16) <==> Apart(at, from)
    ensures Load(Zeros(size), from) == Zeros(16)
  {
    if Apart(at, from) {
      LoadStored(Zeros(size), at, Fill(v), from);
      assert Load(Zeros(size), from) == Zeros(16);
    } else {
      var i := if at >= from then at - from else 0;
      assert Load(Marked(size, at, v), from)[i] == v;
    }
  }

  lemma MarkedAgain(size: nat, at: int, v: byte, u: byte)
    requires 0 <= at <= size - 16
    ensures Store(Marked(size, at, v), at, Fill(u)) == Marked(size, at, u)
  {
  }

  lemma StayingNext(w: Walk, n: nat)
    requires Staying(w, n) && n > 0
    ensures Staying(w.Next(), n - 1)
  {
    forall j | 0 <= j < n - 1 && w.Next().Xors()
      ensures Apart(w.outp, w.Next().Skip(j).xorp)
    {
      assert w.Skip(j + 1) == w.Next().Skip(j);
    }
  }

  /** One at a time, a block that meets its output is marked as not zero from the second on. */
  lemma {:induction false} SerialMarks(w: Walk, size: nat, n: nat, v: byte)
    requires Staying(w, n) && w.Fits(size, n) && 0 <= w.outp <= size - 16 && v > 0 && !Apart(w.outp, w.inp)
    ensures SerialRun(Marker(), w, Marked(size, w.outp, v), n) == Marked(size, w.outp, if n == 0 then v else 1)
    decreases n
  {
    hide Marker, Marked, Load, Transformed, Store;
    if n > 0 {
      FitsLess(w, size, n, 1);
      StepMarks(w, size, n, Marked(size, w.outp, v), v);
      StayingNext(w, n);
      SerialMarks(w.Next(), size, n - 1, 1);
    }
  }

  lemma StepMarks(w: Walk, size: nat, n: nat, mem: bytes, v: byte)
    requires Staying(w, n) && n > 0 && w.Fits(size, 1) && v > 0 && !Apart(w.outp, w.inp)
    requires mem == Marked(size, w.outp, v)
    ensures SerialStep(Marker(), w, mem) == Marked(size, w.outp, 1)
  {
    hide Marker, Marked, Load, Transformed, Store;
    MarkedLoads(size, w.outp, v, w.inp);
    if w.Xors() {
      assert w.Skip(0) == w;
      MarkedLoads(size, w.outp, v, w.xorp);
    }
    MarkedTransform(w, Load(mem, w.inp));
    MarkedAgain(size, w.outp, v, 1);
  }

  lemma StepFromZeros(w: Walk, size: nat)
    requires !w.counter && w.Fits(size, 1)
    ensures SerialStep(Marker(), w, Zeros(size)) == Marked(size, w.outp, 255)
  {
    hide Marker, Load, Transformed, Store, Zeros;
    MarkedLoads(size, w.outp, 1, w.inp);
    if w.Xors() {
      MarkedLoads(size, w.outp, 1, w.xorp);
    }
    MarkedTransform(w, Load(Zeros(size), w.inp));
  }

  /** In a batch every block is loaded before anything is stored, and is a block of zeros. */
  lemma BatchMarks(w: Walk, size: nat, n: nat)
    requires Staying(w, n) && n > 0 && w.Fits(size, n)
    ensures BatchStep(Marker(), w, Zeros(size), n) == Marked(size, w.outp, 255)
  {
    hide Marker, Load, LoadXor, Transformed, Store, Marked, Outputs, Zeros;
    forall j | 0 <= j < n
      ensures Outputs(Marker(), w, Zeros(size), n)[j] == Fill(255)
    {
      OutputMarks(w, size, n, j);
    }
    StoresMark(w, size, Outputs(Marker(), w, Zeros(size), n), Zeros(size));
  }

  lemma OutputMarks(w: Walk, size: nat, n: nat, j: nat)
    requires Staying(w, n) && j < n && w.Fits(size, n)
    ensures Outputs(Marker(), w, Zeros(size), n)[j] == Fill(255)
  {
    hide Marker, Load, Transformed, Zeros, Fill;
    FitsAt(w, size, n, j);
    SkipNext(w, j);
    MarkedLoads(size, w.outp, 1, w.Skip(j).inp);
    if w.Xors() {
      MarkedLoads(size, w.outp, 1, w.Skip(j).xorp);
    }
    MarkedTransform(w, Zeros(16));
  }

  lemma {:induction false} StoresMark(w: Walk, size: nat, outs: seq<bytes>, mem: bytes)
    requires w.outStep == 0 && w.Fits(size, |outs|) && |outs| > 0
    requires forall j :: 0 <= j < |outs| ==> |outs[j]| == 16 && outs[j] == Fill(255)
    requires |mem| == size && (mem == Zeros(size) || mem == Marked(size, w.outp, 255))
    ensures Stores(w, mem, outs) == Marked(size, w.outp, 255)
    decreases |outs|
  {
    hide Fill, Zeros, Store;
    MarkedAgain(size, w.outp, 255, 255);
    if |outs| > 1 {
      StoresMark(w.Next(), size, outs[1..], Store(mem, w.outp, outs[0]));
    } else {
      assert outs[1..] == [];
    }
  }

  /**
   * Chaining a block with its own output, as the CBC-MAC of CCM does, is not the same in parallel:
   * it goes wrong for this cipher and a memory of zeros.
   */
  lemma ChainingIsNotParallel(w: Walk, size: nat, n: nat)
    requires Staying(w, n) && n > 1 && w.Fits(size, n) && !Apart(w.outp, w.inp)
    ensures BatchStep(Marker(), w, Zeros(size), n) != SerialRun(Marker(), w, Zeros(size), n)
  {
    hide Marker, SerialStep, BatchStep, Marked, Zeros;
    FitsLess(w, size, n, 1);
    BatchMarks(w, size, n);
    StepFromZeros(w, size);
    StayingNext(w, n);
    SerialMarks(w.Next(), size, n - 1, 255);
    MarksDiffer(size, w.outp);
  }

  lemma MarksDiffer(size: nat, at: int)
    requires 0 <= at <= size - 16
    ensures Marked(size, at, 255) != Marked(size, at, 1)
  {
    assert Marked(size, at, 255)[at] == 255 && Marked(size, at, 1)[at] == 1;
  }

  /** The same for all ciphers on all memory. */
  ghost predicate ParallelIsSerial(w: Walk, size: nat, n: nat)
    requires n > 0 && w.Fits(size, n)
  {
    forall c: BlockCipher, mem: bytes :: c.blockSize == 16 && |mem| == size ==> BatchStep(c, w, mem, n) == SerialRun(c, w, mem, n)
  }

  /**
   * Blocks that stay may be worked on in parallel for all ciphers if and only if there is only one
   * round, or the block that is read does not meet the one that is stored.
   */
  lemma StayingExactly(w: Walk, size: nat, n: nat)
    requires Staying(w, n) && n > 0 && w.Fits(size, n)
    ensures ParallelIsSerial(w, size, n) <==> n == 1 || Apart(w.outp, w.inp)
  {
    hide BatchStep, SerialRun, Marker;
    if n == 1 || Apart(w.outp, w.inp) {
      StayingIsClear(w, n);
      forall c: BlockCipher, mem: bytes | c.blockSize == 16 && |mem| == size
        ensures BatchStep(c, w, mem, n) == SerialRun(c, w, mem, n)
      {
        BatchIsSerial(c, w, mem, n);
      }
    } else {
      ChainingIsNotParallel(w, size, n);
      assert |Zeros(size)| == size && Marker().blockSize == 16;
    }
  }

  lemma {:induction false} StayingIsClear(w: Walk, n: nat)
    requires Staying(w, n) && (n <= 1 || Apart(w.outp, w.inp))
    ensures Clear(w, n)
    decreases n
  {
    if n > 0 {
      StayingNext(w, n);
      StayingIsClear(w.Next(), n - 1);
      forall j | 0 < j < n
        ensures Apart(w.outp, w.Skip(j).inp)
      {
        SkipStays(w, j);
      }
    }
  }

  /** Block pointers that move by whole blocks, and no xor blocks. */
  predicate Moving(w: Walk) {
    (w.outStep == 16 || w.outStep == -16) && w.inStep == w.outStep && !w.counter && !w.Xors()
  }

  /** Nothing is stored where it is read later. */
  predicate NoneMeets(w: Walk, n: nat) {
    forall i, j :: 0 <= i < j < n ==> Apart(w.Skip(i).outp, w.Skip(j).inp)
  }

  lemma {:induction false} MovingSkips(w: Walk, j: nat)
    requires Moving(w)
    ensures Moving(w.Skip(j)) && w.Skip(j).outp == w.outp + j * w.outStep && w.Skip(j).inp == w.inp + j * w.outStep
    decreases j
  {
    if j > 0 {
      MovingSkips(w.Next(), j - 1);
      assert j * w.outStep == (j - 1) * w.outStep + w.outStep;
    }
  }

  lemma {:induction false} NoneMeetsIsClear(w: Walk, n: nat)
    requires Moving(w) && NoneMeets(w, n)
    ensures Clear(w, n)
    decreases n
  {
    if n > 0 {
      forall i, j | 0 <= i < j < n - 1
        ensures Apart(w.Next().Skip(i).outp, w.Next().Skip(j).inp)
      {
        assert Apart(w.Skip(i + 1).outp, w.Skip(j + 1).inp);
      }
      NoneMeetsIsClear(w.Next(), n - 1);
      assert w.Skip(0) == w;
    }
  }

  /** What is nowhere stored to is left alone. */
  lemma {:induction false} RunLeaves(c: BlockCipher, w: Walk, mem: bytes, n: nat, at: int)
    requires c.blockSize == 16 && w.Fits(|mem|, n) && !w.counter && 0 <= at <= |mem| - 16
    requires forall j :: 0 <= j < n ==> Apart(w.Skip(j).outp, at)
    ensures Load(SerialRun(c, w, mem, n), at) == Load(mem, at)
    decreases n
  {
    hide Transformed, Store, Load, LoadXor;
    if n > 0 {
      assert w.Skip(0) == w;
      StepLeaves(c, w, mem, at);
      forall j | 0 <= j < n - 1
        ensures Apart(w.Next().Skip(j).outp, at)
      {
        assert Apart(w.Skip(j + 1).outp, at);
      }
      RunLeaves(c, w.Next(), SerialStep(c, w, mem), n - 1, at);
    }
  }

  lemma StepLeaves(c: BlockCipher, w: Walk, mem: bytes, at: int)
    requires c.blockSize == 16 && w.Fits(|mem|, 1) && !w.counter && 0 <= at <= |mem| - 16 && Apart(w.outp, at)
    ensures Load(SerialStep(c, w, mem), at) == Load(mem, at)
  {
    hide Transformed, Store, Load, LoadXor;
    LoadStored(mem, w.outp, Transformed(c, w, Load(mem, w.inp), LoadXor(w, mem), LoadXor(w, mem)), at);
  }

  /** The k-th block that is stored is still there at the end. */
  lemma StoredStays(c: BlockCipher, w: Walk, mem: bytes, n: nat, k: nat)
    requires c.blockSize == 16 && Moving(w) && w.Fits(|mem|, n) && k < n
    ensures w.Fits(|mem|, k) && w.Skip(k).Fits(|mem|, 1)
    ensures Load(SerialRun(c, w, mem, n), w.Skip(k).outp) == c.Process(Load(SerialRun(c, w, mem, k), w.Skip(k).inp))
  {
    hide Load, Store, SerialRun, BlockCipher.Process;
    SerialSplit(c, w, mem, k, n);
    MovingSkips(w, k);
    FitsLess(w.Skip(k), |mem|, n - k, 1);
    var v, m := w.Skip(k), SerialRun(c, w, mem, k);
    RunUnfolds(c, v, m, n - k);
    StoreThenLoad(m, v.outp, c.Process(Load(m, v.inp)));
    forall j | 0 <= j < n - k - 1
      ensures Apart(v.Next().Skip(j).outp, v.outp)
    {
      MovingSkips(v.Next(), j);
      WholeSteps(v.outStep, j);
    }
    RunLeaves(c, v.Next(), SerialStep(c, v, m), n - k - 1, v.outp);
  }

  lemma WholeSteps(step: int, j: nat)
    requires step == 16 || step == -16
    ensures step + j * step >= 16 || step + j * step <= -16
  {
    if step == 16 {
      assert j * step == 16 * j;
    } else {
      assert j * step == -16 * j;
    }
  }

  lemma RunUnfolds(c: BlockCipher, w: Walk, mem: bytes, n: nat)
    requires c.blockSize == 16 && Moving(w) && w.Fits(|mem|, n) && n > 0
    ensures SerialStep(c, w, mem) == Store(mem, w.outp, c.Process(Load(mem, w.inp)))
    ensures SerialRun(c, w, mem, n) == SerialRun(c, w.Next(), SerialStep(c, w, mem), n - 1)
  {
    hide Load, Store, BlockCipher.Process;
  }

  lemma MovingOutputMarks(w: Walk, size: nat, n: nat, j: nat)
    requires Moving(w) && j < n && w.Fits(size, n)
    ensures Outputs(Marker(), w, Zeros(size), n)[j] == Fill(255)
  {
    hide Marker, Load, Transformed, Zeros, Fill;
    FitsAt(w, size, n, j);
    SkipNext(w, j);
    MarkedLoads(size, w.Skip(j).outp, 1, w.Skip(j).inp);
    MarkedTransform(w, Zeros(16));
  }

  /** A block that meets one stored before is not zero when it is read. */
  lemma MeetingIsMarked(w: Walk, size: nat, i: nat, j: nat)
    requires Moving(w) && i < j && w.Fits(size, j + 1) && !Apart(w.Skip(i).outp, w.Skip(j).inp)
    ensures w.Fits(size, j) && w.Skip(j).Fits(size, 1)
    ensures Load(SerialRun(Marker(), w, Zeros(size), j), w.Skip(j).inp) != Zeros(16)
  {
    hide Marker, SerialRun, Zeros, Fill, BlockCipher.Process, Apart;
    FitsLess(w, size, j + 1, j);
    FitsAt(w, size, j + 1, j);
    FitsAt(w, size, j + 1, i);
    StoredStays(Marker(), w, Zeros(size), j, i);
    MarkerMarks(Load(SerialRun(Marker(), w, Zeros(size), i), w.Skip(i).inp));
    NotZeroWhereMet(SerialRun(Marker(), w, Zeros(size), j), w.Skip(i).outp, w.Skip(j).inp);
  }

  lemma NotZeroWhereMet(mem: bytes, a: int, b: int)
    requires 0 <= a <= |mem| - 16 && 0 <= b <= |mem| - 16 && !Apart(a, b)
    requires Load(mem, a) == Fill(255) || Load(mem, a) == Fill(1)
    ensures Load(mem, b) != Zeros(16)
  {
    var i := if a >= b then a else b;
    assert Load(mem, a)[i - a] == mem[i] == Load(mem, b)[i - b];
  }

  /** Without xor blocks, moving pointers may be worked on in parallel for all ciphers if and only if none meets. */
  lemma MovingExactly(w: Walk, size: nat, n: nat)
    requires Moving(w) && n > 0 && w.Fits(size, n)
    ensures ParallelIsSerial(w, size, n) <==> NoneMeets(w, n)
  {
    hide BatchStep, SerialRun, Marker, Clear;
    if NoneMeets(w, n) {
      NoneMeetsIsClear(w, n);
      forall c: BlockCipher, mem: bytes | c.blockSize == 16 && |mem| == size
        ensures BatchStep(c, w, mem, n) == SerialRun(c, w, mem, n)
      {
        BatchIsSerial(c, w, mem, n);
      }
    } else {
      var i, j :| 0 <= i < j < n && !Apart(w.Skip(i).outp, w.Skip(j).inp);
      MeetingGoesWrong(w, size, n, i, j);
      assert |Zeros(size)| == size && Marker().blockSize == 16;
    }
  }

  lemma MeetingGoesWrong(w: Walk, size: nat, n: nat, i: nat, j: nat)
    requires Moving(w) && w.Fits(size, n) && i < j < n && !Apart(w.Skip(i).outp, w.Skip(j).inp)
    ensures BatchStep(Marker(), w, Zeros(size), n) != SerialRun(Marker(), w, Zeros(size), n)
  {
    hide Marker, SerialRun, Stores, Outputs, Zeros, Fill, BlockCipher.Process, Apart, Load;
    FitsLess(w, size, n, j + 1);
    MeetingIsMarked(w, size, i, j);
    StoredStays(Marker(), w, Zeros(size), n, j);
    MarkerMarks(Load(SerialRun(Marker(), w, Zeros(size), j), w.Skip(j).inp));
    MovingOutputMarks(w, size, n, j);
    StoresStay(w, Zeros(size), Outputs(Marker(), w, Zeros(size), n), j);
    FillsDiffer();
  }

  lemma FillsDiffer()
    ensures Fill(255) != Fill(1)
  {
    assert Fill(255)[0] == 255 && Fill(1)[0] == 1;
  }
}
