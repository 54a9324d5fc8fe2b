/** When the parallel templates of `adv_simd.h`, as a whole, are the serial loop for all ciphers. */
module AdvSimdTemplates {
  import opened Numbers
  import opened Bytes
  import opened Ciphers
  import opened Euclid
  import opened AdvSimd
  import opened AdvSimdBlocks
  import opened AdvSimdExactly

  /** Memory is that of one block at a time, whatever the cipher and the memory. */
  ghost predicate Serial4x1(w: Walk, size: nat, n: nat)
    requires w.Fits(size, n)
  {
    forall c: BlockCipher, mem: bytes :: c.blockSize == 16 && |mem| == size ==> Run4x1(c, w, mem, n) == SerialRun(c, w, mem, n)
  }

  ghost predicate Serial6x2(w: Walk, size: nat, n: nat)
    requires w.Fits(size, n)
  {
    forall c: BlockCipher, mem: bytes :: c.blockSize == 16 && |mem| == size ==> Run6x2(c, w, mem, n) == SerialRun(c, w, mem, n)
  }

  lemma Clear4x1Suffices(w: Walk, size: nat, n: nat)
    requires w.Fits(size, n) && ClearFor4x1(w, n)
    ensures Serial4x1(w, size, n)
  {
    hide Run4x1, SerialRun, ClearFor4x1;
    forall c: BlockCipher, mem: bytes | c.blockSize == 16 && |mem| == size
      ensures Run4x1(c, w, mem, n) == SerialRun(c, w, mem, n)
    {
      Run4x1IsSerial(c, w, mem, n);
    }
  }

  lemma Clear6x2Suffices(w: Walk, size: nat, n: nat)
    requires w.Fits(size, n) && ClearFor6x2(w, n)
    ensures Serial6x2(w, size, n)
  {
    hide Run6x2, SerialRun, ClearFor6x2;
    forall c: BlockCipher, mem: bytes | c.blockSize == 16 && |mem| == size
      ensures Run6x2(c, w, mem, n) == SerialRun(c, w, mem, n)
    {
      Run6x2IsSerial(c, w, mem, n);
    }
  }

  // Pointers that move.

  /** Whether blocks meet depends only on how far they are from each other. */
  lemma MeetsAlike(w: Walk, k: nat, n: nat)
    requires Moving(w) && NoneMeets(w, n)
    ensures Moving(w.Skip(k)) && NoneMeets(w.Skip(k), n)
  {
    MovingSkips(w, k);
    SkipNext(w, k);
    forall i, j | 0 <= i < j < n
      ensures Apart(w.Skip(k).Skip(i).outp, w.Skip(k).Skip(j).inp)
    {
      assert Apart(w.Skip(i).outp, w.Skip(j).inp);
      MovingSkips(w, i);
      MovingSkips(w, j);
      MovingSkips(w.Skip(k), i);
      MovingSkips(w.Skip(k), j);
    }
  }

  lemma {:induction false} MovingIsClear(w: Walk, n: nat, m: nat)
    requires Moving(w) && m > 0 && (n >= m ==> NoneMeets(w, m))
    ensures ClearInBatches(w, n, m)
    decreases n
  {
    hide NoneMeets, Clear;
    if n >= m {
      NoneMeetsIsClear(w, m);
      MeetsAlike(w, m, m);
      MovingIsClear(w.Skip(m), n - m, m);
    }
  }

  /** How far the block that is read lies behind the one that is stored, in the direction of the steps. */
  function Behind(w: Walk): int {
    if w.outStep == 16 then w.outp - w.inp else w.inp - w.outp
  }

  /** Of two blocks or more, some meet exactly when the distance is less than all of them are long. */
  lemma MeetingExactly(w: Walk, m: nat)
    requires Moving(w)
    ensures NoneMeets(w, m) <==> m < 2 || Behind(w) <= 0 || Behind(w) >= 16 * m
  {
    hide Apart;
    var b := Behind(w);
    if m < 2 || b <= 0 || b >= 16 * m {
      forall i, j | 0 <= i < j < m
        ensures Apart(w.Skip(i).outp, w.Skip(j).inp)
      {
        DistanceApart(w, i, j);
      }
    } else {
      var j := if b < 16 then 1 else b / 16;
      DistanceApart(w, 0, j);
      assert !Apart(w.Skip(0).outp, w.Skip(j).inp);
    }
  }

  lemma DistanceApart(w: Walk, i: nat, j: nat)
    requires Moving(w) && i < j
    ensures Apart(w.Skip(i).outp, w.Skip(j).inp) <==> 16 * (j - i) - Behind(w) >= 16 || 16 * (j - i) - Behind(w) <= -16
  {
    MovingSkips(w, i);
    MovingSkips(w, j);
    if w.outStep == 16 {
      assert i * w.outStep == 16 * i && j * w.outStep == 16 * j;
    } else {
      assert i * w.outStep == -16 * i && j * w.outStep == -16 * j;
    }
  }

  lemma MovingApart(w: Walk, i: nat, j: nat)
    requires Moving(w) && i != j
    ensures Apart(w.Skip(i).outp, w.Skip(j).outp)
  {
    MovingSkips(w, i);
    MovingSkips(w, j);
    if w.outStep == 16 {
      assert i * w.outStep == 16 * i && j * w.outStep == 16 * j;
    } else {
      assert i * w.outStep == -16 * i && j * w.outStep == -16 * j;
    }
  }

  lemma BatchLeaves(c: BlockCipher, w: Walk, mem: bytes, m: nat, at: int)
    requires c.blockSize == 16 && Moving(w) && m > 0 && w.Fits(|mem|, m) && 0 <= at <= |mem| - 16
    requires forall j :: 0 <= j < m ==> Apart(w.Skip(j).outp, at)
    ensures Load(BatchStep(c, w, mem, m), at) == Load(mem, at)
  {
    hide Outputs, Stores, Load, Store;
    NoCounter(w, mem, m);
    StoresLeave(w, mem, Outputs(c, w, mem, m), at);
  }

  /** Batches leave alone what is nowhere stored to. */
  lemma {:induction false} BatchedLeaves(c: BlockCipher, w: Walk, mem: bytes, n: nat, m: nat, at: int)
    requires c.blockSize == 16 && Moving(w) && m > 0 && w.Fits(|mem|, n) && 0 <= at <= |mem| - 16
    requires forall j :: 0 <= j < n ==> Apart(w.Skip(j).outp, at)
    ensures Load(BatchedRun(c, w, mem, n, m), at) == Load(mem, at)
    decreases n
  {
    hide BatchStep, Load, Apart;
    if n >= m {
      BatchedStep(c, w, mem, n, m);
      BatchLeaves(c, w, mem, m, at);
      MovingSkips(w, m);
      forall j | 0 <= j < n - m
        ensures Apart(w.Skip(m).Skip(j).outp, at)
      {
        SkipSkip(w, m, j);
        assert Apart(w.Skip(m + j).outp, at);
      }
      BatchedLeaves(c, w.Skip(m), BatchStep(c, w, mem, m), n - m, m, at);
    }
  }

  /** What the first batch stores stays. */
  lemma FirstBatchStays(c: BlockCipher, w: Walk, mem: bytes, n: nat, m: nat, j: nat)
    requires c.blockSize == 16 && Moving(w) && j < m <= n && w.Fits(|mem|, n)
    ensures w.Fits(|mem|, m) && w.Skip(j).Fits(|mem|, 1)
    ensures Load(BatchedRun(c, w, mem, n, m), w.Skip(j).outp) == Load(BatchStep(c, w, mem, m), w.Skip(j).outp)
  {
    hide BatchStep, Load, Apart, BatchedRun, SerialRun;
    BatchedStep(c, w, mem, n, m);
    FitsAt(w, |mem|, n, j);
    MovingSkips(w, m);
    LaterApart(w, m, n - m, j);
    BatchedLeaves(c, w.Skip(m), BatchStep(c, w, mem, m), n - m, m, w.Skip(j).outp);
  }

  lemma LaterApart(w: Walk, k: nat, n: nat, j: nat)
    requires Moving(w) && j < k
    ensures forall i :: 0 <= i < n ==> Apart(w.Skip(k).Skip(i).outp, w.Skip(j).outp)
  {
    hide Apart;
    forall i | 0 <= i < n
      ensures Apart(w.Skip(k).Skip(i).outp, w.Skip(j).outp)
    {
      SkipSkip(w, k, i);
      MovingApart(w, k + i, j);
    }
  }

  /** Until the end, too. */
  lemma StaysInBatches(c: BlockCipher, w: Walk, mem: bytes, n: nat, m: nat, j: nat)
    requires c.blockSize == 16 && Moving(w) && j < m <= n && w.Fits(|mem|, n)
    ensures w.Fits(|mem|, m) && w.Skip(j).Fits(|mem|, 1)
    ensures Load(RunInBatches(c, w, mem, n, m), w.Skip(j).outp) == Load(BatchStep(c, w, mem, m), w.Skip(j).outp)
  {
    hide BatchStep, Load, Apart, BatchedRun, SerialRun, Batched;
    var k := Batched(n, m);
    FirstBatchStays(c, w, mem, n, m, j);
    LaterApart(w, k, n - k, j);
    MovingSkips(w, k);
    FitsSkip(w, |mem|, n, k);
    RunLeaves(c, w.Skip(k), BatchedRun(c, w, mem, n, m), n - k, w.Skip(j).outp);
  }

  /** And in the template of six and two lanes: batches of six, if there are so many blocks, or of two. */
  lemma Stays6(c: BlockCipher, w: Walk, mem: bytes, n: nat, j: nat)
    requires c.blockSize == 16 && Moving(w) && j < 6 <= n && w.Fits(|mem|, n)
    ensures w.Fits(|mem|, 6) && w.Skip(j).Fits(|mem|, 1)
    ensures Load(Run6x2(c, w, mem, n), w.Skip(j).outp) == Load(BatchStep(c, w, mem, 6), w.Skip(j).outp)
  {
    hide BatchStep, Load, Apart, BatchedRun, RunInBatches, Batched;
    var k := Batched(n, 6);
    FirstBatchStays(c, w, mem, n, 6, j);
    LaterApart(w, k, n - k, j);
    MovingSkips(w, k);
    FitsSkip(w, |mem|, n, k);
    InBatchesLeaves(c, w.Skip(k), BatchedRun(c, w, mem, n, 6), n - k, 2, w.Skip(j).outp);
  }

  lemma InBatchesLeaves(c: BlockCipher, w: Walk, mem: bytes, n: nat, m: nat, at: int)
    requires c.blockSize == 16 && Moving(w) && m > 0 && w.Fits(|mem|, n) && 0 <= at <= |mem| - 16
    requires forall j :: 0 <= j < n ==> Apart(w.Skip(j).outp, at)
    ensures Load(RunInBatches(c, w, mem, n, m), at) == Load(mem, at)
  {
    hide Load, Apart, BatchedRun, SerialRun, Batched;
    BatchedLeaves(c, w, mem, n, m, at);
    var k := Batched(n, m);
    FitsSkip(w, |mem|, n, k);
    MovingSkips(w, k);
    forall j | 0 <= j < n - k
      ensures Apart(w.Skip(k).Skip(j).outp, at)
    {
      SkipSkip(w, k, j);
    }
    RunLeaves(c, w.Skip(k), BatchedRun(c, w, mem, n, m), n - k, at);
  }

  lemma Stays2(c: BlockCipher, w: Walk, mem: bytes, n: nat, j: nat)
    requires c.blockSize == 16 && Moving(w) && j < 2 <= n < 6 && w.Fits(|mem|, n)
    ensures w.Fits(|mem|, 2) && w.Skip(j).Fits(|mem|, 1)
    ensures Load(Run6x2(c, w, mem, n), w.Skip(j).outp) == Load(BatchStep(c, w, mem, 2), w.Skip(j).outp)
  {
    hide BatchStep, Load, Apart, BatchedRun, RunInBatches;
    BatchedNothing(c, w, mem, n, 6);
    assert w.Skip(0) == w;
    StaysInBatches(c, w, mem, n, 2, j);
  }

  /** A block that is read where one of its batch is stored tells the batch from the serial loop. */
  lemma MeetingTells(w: Walk, size: nat, n: nat, m: nat, i: nat, j: nat)
    requires Moving(w) && w.Fits(size, n) && i < j < m <= n && !Apart(w.Skip(i).outp, w.Skip(j).inp)
    ensures w.Fits(size, m) && w.Skip(j).Fits(size, 1)
    ensures Load(BatchStep(Marker(), w, Zeros(size), m), w.Skip(j).outp) == Fill(255)
    ensures Load(SerialRun(Marker(), w, Zeros(size), n), w.Skip(j).outp) == Fill(1)
  {
    hide Marker, SerialRun, Stores, Outputs, Zeros, Fill, BlockCipher.Process, Apart, Load;
    FitsLess(w, size, n, m);
    FitsLess(w, size, n, j + 1);
    MeetingIsMarked(w, size, i, j);
    StoredStays(Marker(), w, Zeros(size), n, j);
    MarkerMarks(Load(SerialRun(Marker(), w, Zeros(size), j), w.Skip(j).inp));
    MovingOutputMarks(w, size, m, j);
    NoCounter(w, Zeros(size), m);
    StoresStay(w, Zeros(size), Outputs(Marker(), w, Zeros(size), m), j);
  }

  /**
   * Without xor blocks, the template of four lanes is right for all ciphers if and only if there are
   * fewer than four blocks, or what is read does not lie behind what is stored by less than four blocks.
   */
  lemma Moving4x1Exactly(w: Walk, size: nat, n: nat)
    requires Moving(w) && w.Fits(size, n)
    ensures Serial4x1(w, size, n) <==> n < 4 || Behind(w) <= 0 || Behind(w) >= 64
  {
    hide RunInBatches, SerialRun, BatchStep, Marker, Load, Apart, Zeros, Fill, Behind;
    MeetingExactly(w, 4);
    if n >= 4 && !NoneMeets(w, 4) {
      var i, j :| 0 <= i < j < 4 && !Apart(w.Skip(i).outp, w.Skip(j).inp);
      MeetingTells(w, size, n, 4, i, j);
      StaysInBatches(Marker(), w, Zeros(size), n, 4, j);
      FillsDiffer();
      assert |Zeros(size)| == size && Marker().blockSize == 16;
    } else {
      MovingIsClear(w, n, 4);
      Clear4x1Suffices(w, size, n);
    }
  }

  /** The template of six and two lanes: by less than six blocks, or than two if there are fewer than six. */
  lemma Moving6x2Exactly(w: Walk, size: nat, n: nat)
    requires Moving(w) && w.Fits(size, n)
    ensures Serial6x2(w, size, n) <==> n < 2 || Behind(w) <= 0 || Behind(w) >= (if n >= 6 then 96 else 32)
  {
    hide Run6x2, SerialRun, BatchStep, Marker, Load, Apart, Zeros, Fill, ClearInBatches, Behind;
    MeetingExactly(w, if n >= 6 then 6 else if n >= 2 then 2 else 0);
    var m := if n >= 6 then 6 else if n >= 2 then 2 else 0;
    if NoneMeets(w, m) {
      MovingIsClear(w, n, 6);
      MovingSkips(w, n - n % 6);
      if n >= 2 {
        assert NoneMeets(w, 2);
        MeetsAlike(w, n - n % 6, 2);
      }
      MovingIsClear(w.Skip(n - n % 6), n % 6, 2);
      Clear6x2Suffices(w, size, n);
    } else {
      var i, j :| 0 <= i < j < m && !Apart(w.Skip(i).outp, w.Skip(j).inp);
      MeetingTells(w, size, n, m, i, j);
      if n >= 6 {
        Stays6(Marker(), w, Zeros(size), n, j);
      } else {
        Stays2(Marker(), w, Zeros(size), n, j);
      }
      FillsDiffer();
      assert |Zeros(size)| == size && Marker().blockSize == 16;
    }
  }

  // Pointers that stay.

  /** A cipher that counts, modulo r, in a byte that the block read shares with the block stored. */
  function Cycle(r: nat, k: nat): (c: BlockCipher)
    requires 0 < r <= 256 && k < 16
    ensures c.blockSize == 16
  {
    BlockCipher(16, (b: bytes) => if |b| == 16 then Fill((b[k] + 1) % r) else b)
  }

  lemma CycleCounts(r: nat, k: nat, b: bytes)
    requires 0 < r <= 256 && k < 16 && |b| == 16
    ensures Cycle(r, k).Process(b) == Fill((b[k] + 1) % r)
  {
  }

  /** Where in the block read the block stored is met. */
  function Shared(w: Walk): (k: nat)
    requires !Apart(w.outp, w.inp)
    ensures k < 16
  {
    if w.outp >= w.inp then w.outp - w.inp else 0
  }

  lemma CycledTransform(w: Walk, r: nat, k: nat, block: bytes)
    requires 0 < r <= 256 && k < 16 && |block| == 16
    ensures Transformed(Cycle(r, k), w, block, Zeros(16), Zeros(16)) == Fill((block[k] + 1) % r)
  {
    hide Cycle, BlockCipher.Process, XorBytes, Zeros, Fill;
    CycleCounts(r, k, block);
    XorZeros(block);
    XorZeros(Fill((block[k] + 1) % r));
  }

  lemma LoadsMarked(w: Walk, size: nat, v: byte)
    requires w.Fits(size, 1) && !Apart(w.outp, w.inp)
    ensures Load(Marked(size, w.outp, v), w.inp)[Shared(w)] == v
    ensures w.Xors() && Apart(w.outp, w.xorp) ==> Load(Marked(size, w.outp, v), w.xorp) == Zeros(16)
  {
    if w.Xors() && Apart(w.outp, w.xorp) {
      LoadStored(Zeros(size), w.outp, Fill(v), w.xorp);
      assert Load(Zeros(size), w.xorp) == Zeros(16);
    }
  }

  lemma StepCycles(w: Walk, size: nat, n: nat, r: nat, v: byte)
    requires Staying(w, n) && n > 0 && w.Fits(size, 1) && !Apart(w.outp, w.inp) && 0 < r <= 256
    ensures SerialStep(Cycle(r, Shared(w)), w, Marked(size, w.outp, v)) == Marked(size, w.outp, (v + 1) % r)
  {
    hide Cycle, Marked, Load, Transformed, Store, Shared;
    assert w.Skip(0) == w;
    LoadsMarked(w, size, v);
    CycledTransform(w, r, Shared(w), Load(Marked(size, w.outp, v), w.inp));
    MarkedAgain(size, w.outp, v, (v + 1) % r);
  }

  /** v counted up n times, modulo r. */
  function Turned(v: nat, n: nat, r: nat): (t: nat)
    requires 0 < r
    ensures v < r ==> t < r
    decreases n
  {
    if n == 0 then v else Turned((v + 1) % r, n - 1, r)
  }

  lemma {:induction false} TurnedMore(v: nat, i: nat, j: nat, r: nat)
    requires 0 < r
    ensures Turned(Turned(v, i, r), j, r) == Turned(v, i + j, r)
    decreases i
  {
    if i > 0 {
      TurnedMore((v + 1) % r, i - 1, j, r);
    }
  }

  lemma {:induction false} TurnedIs(v: nat, n: nat, r: nat)
    requires v < r
    ensures Turned(v, n, r) == (v + n) % r
    decreases n
  {
    if n == 0 {
      DivModUnique(v, r, 0, v);
    } else {
      TurnedIs((v + 1) % r, n - 1, r);
      if v + 1 < r {
        DivModUnique(v + 1, r, 0, v + 1);
      } else {
        DivModUnique(v + 1, r, 1, 0);
        AddOnce(n - 1, r);
      }
    }
  }

  lemma AddOnce(n: nat, r: nat)
    requires r > 0
    ensures (n + r) % r == n % r
  {
    var q := n / r;
    assert n + r == (q + 1) * r + n % r;
    DivModUnique(n + r, r, q + 1, n % r);
  }

  /** One at a time, the count goes up with every block. */
  lemma {:induction false} SerialCycles(w: Walk, size: nat, n: nat, r: nat, v: byte)
    requires Staying(w, n) && w.Fits(size, n) && 0 <= w.outp <= size - 16 && !Apart(w.outp, w.inp) && v < r <= 256
    ensures SerialRun(Cycle(r, Shared(w)), w, Marked(size, w.outp, v), n) == Marked(size, w.outp, Turned(v, n, r))
    decreases n
  {
    hide Cycle, Marked, SerialStep, Apart;
    if n > 0 {
      FitsLess(w, size, n, 1);
      StepCycles(w, size, n, r, v);
      StayingNext(w, n);
      SerialCycles(w.Next(), size, n - 1, r, (v + 1) % r);
    }
  }

  lemma StayingSkip(w: Walk, n: nat, k: nat)
    requires Staying(w, n) && k <= n
    ensures Staying(w.Skip(k), n - k) && w.Skip(k).outp == w.outp && w.Skip(k).inp == w.inp && w.Skip(k).Xors() == w.Xors()
    decreases k
  {
    if k > 0 {
      StayingNext(w, n);
      StayingSkip(w.Next(), n - 1, k - 1);
    }
  }

  /** In a batch, it goes up once. */
  lemma BatchCycles(w: Walk, size: nat, m: nat, r: nat, v: byte)
    requires Staying(w, m) && m > 0 && w.Fits(size, m) && !Apart(w.outp, w.inp) && v < r <= 256
    ensures BatchStep(Cycle(r, Shared(w)), w, Marked(size, w.outp, v), m) == Marked(size, w.outp, (v + 1) % r)
  {
    hide Cycle, Marked, Outputs, Stores, Shared, Fill;
    var mem := Marked(size, w.outp, v);
    NoCounter(w, mem, m);
    forall j | 0 <= j < m
      ensures Outputs(Cycle(r, Shared(w)), w, mem, m)[j] == Fill((v + 1) % r)
    {
      OutputCycles(w, size, m, r, v, j);
    }
    StoresCycle(w, size, Outputs(Cycle(r, Shared(w)), w, mem, m), v, (v + 1) % r);
  }

  lemma OutputCycles(w: Walk, size: nat, m: nat, r: nat, v: byte, j: nat)
    requires Staying(w, m) && j < m && w.Fits(size, m) && !Apart(w.outp, w.inp) && v < r <= 256
    ensures Outputs(Cycle(r, Shared(w)), w, Marked(size, w.outp, v), m)[j] == Fill((v + 1) % r)
  {
    hide Cycle, Marked, Load, Transformed, Fill, Zeros, Apart;
    FitsAt(w, size, m, j);
    SkipNext(w, j);
    SkipStays(w, j);
    StayingSkip(w, m, j);
    LoadsMarked(w.Skip(j), size, v);
    CycledTransform(w, r, Shared(w), Load(Marked(size, w.outp, v), w.inp));
    NoCounter(w, Marked(size, w.outp, v), m);
  }

  lemma {:induction false} StoresCycle(w: Walk, size: nat, outs: seq<bytes>, v: byte, u: byte)
    requires w.outStep == 0 && w.Fits(size, |outs|) && |outs| > 0
    requires forall j :: 0 <= j < |outs| ==> |outs[j]| == 16 && outs[j] == Fill(u)
    ensures Stores(w, Marked(size, w.outp, v), outs) == Marked(size, w.outp, u)
    decreases |outs|
  {
    hide Fill, Marked, Store;
    MarkedAgain(size, w.outp, v, u);
    if |outs| > 1 {
      StoresCycle(w.Next(), size, outs[1..], u, u);
    } else {
      assert outs[1..] == [];
    }
  }

  /** How many batches there are. */
  function Batches(n: nat, m: nat): nat
    requires m > 0
  {
    if n < m then 0 else 1 + Batches(n - m, m)
  }

  /** In batches, once for each batch. */
  lemma {:induction false} BatchedCycles(w: Walk, size: nat, n: nat, m: nat, r: nat, v: byte)
    requires Staying(w, n) && m > 0 && w.Fits(size, n) && 0 <= w.outp <= size - 16 && !Apart(w.outp, w.inp) && v < r <= 256
    ensures BatchedRun(Cycle(r, Shared(w)), w, Marked(size, w.outp, v), n, m) == Marked(size, w.outp, Turned(v, Batches(n, m), r))
    decreases n
  {
    hide Cycle, Marked, BatchStep, Apart;
    if n >= m {
      BatchedStep(Cycle(r, Shared(w)), w, Marked(size, w.outp, v), n, m);
      StayingLess(w, n, m);
      BatchCycles(w, size, m, r, v);
      StayingSkip(w, n, m);
      BatchedCycles(w.Skip(m), size, n - m, m, r, (v + 1) % r);
    }
  }

  lemma StayingLess(w: Walk, n: nat, m: nat)
    requires Staying(w, n) && m <= n
    ensures Staying(w, m)
  {
  }

  /** How often the templates count. */
  function Rounds(n: nat, m: nat): (k: nat)
    requires m > 0
    ensures k <= n && (n >= m > 1 ==> k < n)
  {
    if n < m then n else 1 + Rounds(n - m, m)
  }

  lemma {:induction false} RoundsAre(n: nat, m: nat)
    requires m > 0
    ensures Rounds(n, m) == Batches(n, m) + (n - Batched(n, m))
    ensures m > 1 ==> Batches(n, m) <= Batched(n, m) && (n >= m ==> Batches(n, m) < Batched(n, m))
    decreases n
  {
    if n >= m {
      RoundsAre(n - m, m);
    }
  }

  function Rounds6x2(n: nat): (k: nat)
    ensures k <= n && (n >= 2 ==> k < n)
  {
    RoundsAre(n, 6);
    Batches(n, 6) + Rounds(n - Batched(n, 6), 2)
  }

  lemma CyclesInBatches(w: Walk, size: nat, n: nat, m: nat, r: nat, v: byte)
    requires Staying(w, n) && m > 0 && w.Fits(size, n) && 0 <= w.outp <= size - 16 && !Apart(w.outp, w.inp) && v < r <= 256
    ensures RunInBatches(Cycle(r, Shared(w)), w, Marked(size, w.outp, v), n, m) == Marked(size, w.outp, Turned(v, Rounds(n, m), r))
  {
    hide Cycle, Marked, BatchedRun, SerialRun, Apart, Staying, Shared, Batched, Batches, Rounds;
    var k := Batched(n, m);
    BatchedCycles(w, size, n, m, r, v);
    SharedSkip(w, n, k);
    StayingSkip(w, n, k);
    FitsSkip(w, size, n, k);
    SerialCycles(w.Skip(k), size, n - k, r, Turned(v, Batches(n, m), r));
    TurnedMore(v, Batches(n, m), n - k, r);
    RoundsAre(n, m);
  }

  lemma SharedSkip(w: Walk, n: nat, k: nat)
    requires Staying(w, n) && k <= n && !Apart(w.outp, w.inp)
    ensures w.Skip(k).outp == w.outp && w.Skip(k).inp == w.inp && Shared(w.Skip(k)) == Shared(w)
  {
    StayingSkip(w, n, k);
  }

  lemma Cycles6x2(w: Walk, size: nat, n: nat, r: nat)
    requires Staying(w, n) && n > 0 && w.Fits(size, n) && !Apart(w.outp, w.inp) && 0 < r <= 256
    ensures Run6x2(Cycle(r, Shared(w)), w, Marked(size, w.outp, 0), n) == Marked(size, w.outp, Turned(0, Rounds6x2(n), r))
  {
    hide Cycle, Marked, BatchedRun, RunInBatches, Apart, Staying, Shared, Batched, Batches, Rounds;
    var k := Batched(n, 6);
    StayingSkip(w, n, k);
    FitsSkip(w, size, n, k);
    BatchedCycles(w, size, n, 6, r, 0);
    SharedSkip(w, n, k);
    CyclesInBatches(w.Skip(k), size, n - k, 2, r, Turned(0, Batches(n, 6), r));
    TurnedMore(0, Batches(n, 6), Rounds(n - k, 2), r);
  }

  /** Coprime divisors divide together. */
  lemma JoinDivisors(a: int, b: int, u: int, v: int, d: int)
    requires u * a + v * b == 1 && Divides(a, d) && Divides(b, d)
    ensures Divides(a * b, d)
  {
    var i :| d == a * i;
    var j :| d == b * j;
    Combined(a, b, u, v, i, j);
  }

  lemma Combined(a: int, b: int, u: int, v: int, i: int, j: int)
    requires u * a + v * b == 1 && a * i == b * j
    ensures a * i == a * b * (u * j + v * i)
  {
    calc {
      a * i;
      (u * a + v * b) * (a * i);
      u * a * (a * i) + v * b * (a * i);
      u * a * (b * j) + v * b * (a * i);
      a * b * (u * j + v * i);
    }
  }

  lemma TooManyDivisors(d: nat)
    requires 0 < d
    requires Divides(256, d) && Divides(255, d) && Divides(253, d) && Divides(251, d)
    requires Divides(247, d) && Divides(241, d) && Divides(239, d) && Divides(233, d)
    ensures d >= 13741755155627516160
  {
    hide Divides;
    JoinDivisors(256, 255, 1, -1, d);
    JoinDivisors(65280, 253, -42, 10837, d);
    JoinDivisors(16515840, 251, -69, 4540211, d);
    JoinDivisors(4145475840, 247, -1, 16783303, d);
    JoinDivisors(1023932532480, 241, -57, 242174914321, d);
    JoinDivisors(246767740327680, 239, 41, -42332541227761, d);
    JoinDivisors(58977489938315520, 233, 115, -29109061557537703, d);
    if d < 13741755155627516160 {
      NoSmallMultiple(13741755155627516160, d);
    }
  }

  lemma NoSmallMultiple(m: int, d: int)
    requires Divides(m, d) && 0 < d
    ensures d >= m
  {
    var i :| d == m * i;
    if m > 0 {
      if i <= 0 {
        MulLe(i, 0, m);
      }
      MulLe(1, i, m);
    }
  }

  /** Some count of a byte does not come round in d steps, if d is not as large as all of memory. */
  lemma CycleFor(d: nat) returns (r: nat)
    requires 0 < d < LWORD / 16
    ensures 0 < r <= 256 && d % r != 0
  {
    if d % 256 != 0 { return 256; }
    if d % 255 != 0 { return 255; }
    if d % 253 != 0 { return 253; }
    if d % 251 != 0 { return 251; }
    if d % 247 != 0 { return 247; }
    if d % 241 != 0 { return 241; }
    if d % 239 != 0 { return 239; }
    r := 233;
    if d % 233 == 0 {
      ZeroRemainder(d, 256);
      ZeroRemainder(d, 255);
      ZeroRemainder(d, 253);
      ZeroRemainder(d, 251);
      ZeroRemainder(d, 247);
      ZeroRemainder(d, 241);
      ZeroRemainder(d, 239);
      ZeroRemainder(d, 233);
      TooManyDivisors(d);
    }
  }

  lemma ZeroRemainder(d: nat, r: nat)
    requires r > 0 && d % r == 0
    ensures Divides(r, d)
  {
    assert d == r * (d / r);
  }

  /** Counts that differ by d are told apart. */
  lemma TurnsDiffer(i: nat, d: nat, r: nat)
    requires 0 < r && d % r != 0
    ensures Turned(0, i, r) != Turned(0, i + d, r)
  {
    TurnedIs(0, i, r);
    TurnedIs(0, i + d, r);
    if i % r == (i + d) % r {
      SameRemainder(i, d, r);
    }
  }

  lemma SameRemainder(i: nat, d: nat, r: nat)
    requires 0 < r && i % r == (i + d) % r
    ensures d % r == 0
  {
    var a, b := i / r, (i + d) / r;
    assert i == a * r + i % r && i + d == b * r + i % r;
    assert d == (b - a) * r;
    DivModUnique(d, r, b - a, 0);
  }

  lemma MarkedDiffer(size: nat, at: int, v: byte, u: byte)
    requires 0 <= at <= size - 16 && v != u
    ensures Marked(size, at, v) != Marked(size, at, u)
  {
    assert Marked(size, at, v)[at] == v && Marked(size, at, u)[at] == u;
  }

  /**
   * Blocks that stay may be given to the template of four lanes for all ciphers if and only if there
   * are fewer than four, or the block that is read does not meet the one that is stored. (Lengths in
   * bytes are below 2^64.)
   */
  lemma Staying4x1Exactly(w: Walk, size: nat, n: nat)
    requires Staying(w, n) && w.Fits(size, n) && 16 * n < LWORD
    ensures Serial4x1(w, size, n) <==> n < 4 || Apart(w.outp, w.inp)
  {
    hide RunInBatches, SerialRun, Marked, Cycle, Apart, ClearInBatches, Rounds;
    if n < 4 || Apart(w.outp, w.inp) {
      StayingInBatches(w, n, 4);
      Clear4x1Suffices(w, size, n);
    } else {
      var d := n - Rounds(n, 4);
      var r := CycleFor(d);
      var mem := Marked(size, w.outp, 0);
      CyclesInBatches(w, size, n, 4, r, 0);
      SerialCycles(w, size, n, r, 0);
      TurnsDiffer(Rounds(n, 4), d, r);
      MarkedDiffer(size, w.outp, Turned(0, Rounds(n, 4), r), Turned(0, n, r));
      assert |mem| == size && Cycle(r, Shared(w)).blockSize == 16;
    }
  }

  /** The same for the template of six and two lanes, if there are fewer than two blocks. */
  lemma Staying6x2Exactly(w: Walk, size: nat, n: nat)
    requires Staying(w, n) && w.Fits(size, n) && 16 * n < LWORD
    ensures Serial6x2(w, size, n) <==> n < 2 || Apart(w.outp, w.inp)
  {
    hide Run6x2, SerialRun, Marked, Cycle, Apart, ClearInBatches;
    if n < 2 || Apart(w.outp, w.inp) {
      StayingInBatches(w, n, 6);
      StayingSkip(w, n, n - n % 6);
      StayingInBatches(w.Skip(n - n % 6), n % 6, 2);
      Clear6x2Suffices(w, size, n);
    } else {
      var d := n - Rounds6x2(n);
      var r := CycleFor(d);
      var mem := Marked(size, w.outp, 0);
      Cycles6x2(w, size, n, r);
      SerialCycles(w, size, n, r, 0);
      TurnsDiffer(Rounds6x2(n), d, r);
      MarkedDiffer(size, w.outp, Turned(0, Rounds6x2(n), r), Turned(0, n, r));
      assert |mem| == size && Cycle(r, Shared(w)).blockSize == 16;
    }
  }

  lemma StayingInBatches(w: Walk, n: nat, m: nat)
    requires Staying(w, n) && m > 0 && (n < m || Apart(w.outp, w.inp))
    ensures ClearInBatches(w, n, m)
  {
    hide Clear, Apart;
    if n >= m {
      StayingIsClear(w, n);
      ClearIsClearInBatches(w, n, m);
    }
  }

  /** What the prologue sets up without an xor pointer and without a counter. */
  lemma SetupStaysOrMoves(flags: Flags, inBlocks: int, xorBlocks: int, outBlocks: int, length: int, n: nat)
    requires !flags.inBlockIsCounter
    ensures var w := Setup(flags, inBlocks, false, xorBlocks, outBlocks, length);
      if flags.dontIncrementInOutPointers then Staying(w, n) && (Apart(w.outp, w.inp) <==> Apart(outBlocks, inBlocks))
      else Moving(w) && Behind(w) == if flags.reverseDirection then inBlocks - outBlocks else outBlocks - inBlocks
  {
  }
}
