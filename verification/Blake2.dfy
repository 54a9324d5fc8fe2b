/** BLAKE2s and BLAKE2b (`blake2.cpp`): incremental hashing against the one-shot definition. */
module Blake2 {
  import opened Numbers
  import opened Bytes
  import opened Ciphers

  /** The eight words h[0] to h[7]. */
  type ChainValue = seq<nat>

  /**
   * What differs between BLAKE2s and BLAKE2b, and the parts taken as given: the block length, the
   * word modulus 2^32 or 2^64, the chain value a parameter block starts from, the compression
   * function on a block with counter words t[0], t[1] and flag words f[0], f[1], and the bytes of a
   * chain value.
   */
  datatype Variant = Variant(blockSize: nat, wordModulus: nat, digestSize: nat,
                                 initial: nat -> ChainValue, compress: (ChainValue, bytes, Counter, Flags) -> ChainValue, output: ChainValue -> bytes)
  {
    ghost predicate Valid() {
      0 < blockSize < wordModulus && digestSize > 0
    }

    /** The chain value for a key of the given length. */
    function Initial(keyLength: nat): ChainValue { initial(keyLength) }

    function Compress(h: ChainValue, block: bytes, t: Counter, f: Flags): ChainValue
      requires |block| == blockSize
    {
      compress(h, block, t, f)
    }

    /** The first `size` bytes of a digest. */
    function Output(h: ChainValue, size: nat): (r: bytes)
      ensures |r| == size
    {
      var r := output(h);
      if |r| >= size then r[..size] else r + Zeros(size - |r|)
    }

    /** A shorter digest is the front of the whole one. */
    lemma OutputFront(h: ChainValue, size: nat)
      requires size <= digestSize
      ensures Output(h, size) == Output(h, digestSize)[..size]
    {
    }
  }

  /** The words t[0] and t[1]. */
  datatype Counter = Counter(lo: nat, hi: nat)

  /** The words f[0] and f[1]: all ones or zero. */
  datatype Flags = Flags(lastBlock: bool, lastNode: bool)

  const NOT_LAST := Flags(false, false)

  /** n as two words. */
  function CounterOf(n: nat, w: nat): Counter
    requires w > 0
  {
    Counter(n % w, n / w % w)
  }

  /** Below the square of the word modulus the two words are the exact number. */
  lemma CounterIsExact(n: nat, w: nat)
    requires w > 0 && n < w * w
    ensures CounterOf(n, w).hi * w + CounterOf(n, w).lo == n
  {
    assert n == n / w * w + n % w;
    if n / w >= w {
      MulLe(w, n / w, w);
      assert false;
    }
    DivModUnique(n / w, w, 0, n / w);
  }

  /** The words are the two lowest digits to the base w. */
  lemma WordsOf(hi: nat, lo: nat, w: nat)
    requires lo < w
    ensures CounterOf(hi * w + lo, w) == Counter(lo, hi % w)
  {
    DivModUnique(hi * w + lo, w, hi, lo);
  }

  lemma CarryOn(hi: nat, lo: nat, count: nat, w: nat)
    requires lo < w && count < w
    ensures var sum := (lo + count) % w;
      CounterOf(hi * w + lo + count, w) == Counter(sum, (hi % w + (if sum < count then 1 else 0)) % w)
  {
    hide CounterOf;
    if lo + count < w {
      DivModUnique(lo + count, w, 0, lo + count);
      WordsOf(hi, lo + count, w);
      DivModUnique(hi % w, w, 0, hi % w);
    } else {
      DivModUnique(lo + count, w, 1, lo + count - w);
      assert (hi + 1) * w == hi * w + w;
      WordsOf(hi + 1, lo + count - w, w);
      ModPlusOne(hi, w);
    }
  }

  /** Adding to the low word and carrying if it wrapped counts up by `count`. */
  lemma CountUp(n: nat, count: nat, w: nat)
    requires 0 <= count < w
    ensures var c := CounterOf(n, w);
      var lo := (c.lo + count) % w;
      CounterOf(n + count, w) == Counter(lo, (c.hi + (if lo < count then 1 else 0)) % w)
  {
    hide CounterOf;
    var hi, lo := n / w, n % w;
    assert n == hi * w + lo;
    WordsOf(hi, lo, w);
    CarryOn(hi, lo, count, w);
  }

  lemma ModPlusOne(q: nat, w: nat)
    requires w > 0
    ensures (q + 1) % w == (q % w + 1) % w
  {
    var k, r := q / w, q % w;
    assert q == k * w + r;
    if r + 1 < w {
      DivModUnique(q + 1, w, k, r + 1);
      DivModUnique(r + 1, w, 0, r + 1);
    } else {
      assert (k + 1) * w == k * w + w;
      DivModUnique(q + 1, w, k + 1, 0);
      DivModUnique(r + 1, w, 1, 0);
    }
  }

  /** Compressing whole blocks, none of them last, when n bytes were compressed before. */
  function Absorb(v: Variant, h: ChainValue, s: bytes, n: nat): ChainValue
    requires v.blockSize > 0 && v.wordModulus > 0 && Whole(|s|, v.blockSize)
    decreases |s|
  {
    if s == [] then h
    else
      var m := n + v.blockSize;
      Absorb(v, v.Compress(h, s[..v.blockSize], CounterOf(m, v.wordModulus), Flags(false, false)), s[v.blockSize..], m)
  }

  /** Section 3.3 of RFC 7693: the key, and zeros up to a whole block behind it. */
  function KeyBlock(key: bytes, blockSize: nat): (r: bytes)
    requires |key| <= blockSize
    ensures |r| == blockSize && (forall i :: 0 <= i < |key| ==> r[i] == key[i])
    ensures forall i :: |key| <= i < blockSize ==> r[i] == 0
  {
    key + Zeros(blockSize - |key|)
  }

  /** The data to hash: the key block, if there is a key, and the message. */
  function Data(key: bytes, message: bytes, blockSize: nat): bytes
    requires |key| <= blockSize
  {
    if key == [] then message else KeyBlock(key, blockSize) + message
  }

  /** More of the message is more data at the end. */
  lemma DataMore(key: bytes, message: bytes, more: bytes, blockSize: nat)
    requires |key| <= blockSize
    ensures Data(key, message + more, blockSize) == Data(key, message, blockSize) + more
  {
    hide KeyBlock;
    if key != [] {
      assert KeyBlock(key, blockSize) + (message + more) == KeyBlock(key, blockSize) + message + more;
    }
  }

  /**
   * The one-shot definition: all blocks but the last are compressed with the number of bytes so
   * far, the last one padded with zeros, with the total number and the final flag.
   */
  function OneShot(v: Variant, keyLength: nat, data: bytes, lastNode: bool): ChainValue
    requires v.blockSize > 0 && v.wordModulus > 0
  {
    var cut := BeforeLast(|data|, v.blockSize);
    var h := Absorb(v, v.Initial(keyLength), data[..cut], 0);
    var last := data[cut..];
    v.Compress(h, last + Zeros(v.blockSize - |last|), CounterOf(|data|, v.wordModulus), Flags(true, lastNode))
  }

  /** One more block at the end. */
  lemma {:induction false} AbsorbAppend(v: Variant, h: ChainValue, s: bytes, b: bytes, n: nat)
    requires v.blockSize > 0 && v.wordModulus > 0 && Whole(|s|, v.blockSize) && |b| == v.blockSize
    ensures Whole(|s + b|, v.blockSize)
    ensures Absorb(v, h, s + b, n)
         == v.Compress(Absorb(v, h, s, n), b, CounterOf(n + |s| + |b|, v.wordModulus), NOT_LAST)
    decreases |s|
  {
    WholePlus(|s|, |b|, v.blockSize);
    hide Variant.Compress, CounterOf, Whole;
    if s == [] {
      assert s + b == b && b[v.blockSize..] == [] && b[..v.blockSize] == b;
    } else {
      var k := v.blockSize;
      WholeStep(|s|, k);
      var h' := v.Compress(h, s[..k], CounterOf(n + k, v.wordModulus), NOT_LAST);
      assert (s + b)[..k] == s[..k] && (s + b)[k..] == s[k..] + b;
      AbsorbAppend(v, h', s[k..], b, n + k);
    }
  }

  /** The state after `data`: its last `len` bytes are held back, the rest is compressed and counted. */
  ghost predicate Absorbed(v: Variant, keyLength: nat, data: bytes, len: nat, h: ChainValue, t: Counter) {
    && v.Valid() && len <= |data| && len <= v.blockSize
    && Whole(|data| - len, v.blockSize)
    && h == Absorb(v, v.Initial(keyLength), data[..|data| - len], 0)
    && t == CounterOf(|data| - len, v.wordModulus)
  }

  lemma AbsorbedStart(v: Variant, keyLength: nat)
    requires v.Valid()
    ensures Absorbed(v, keyLength, [], 0, v.Initial(keyLength), Counter(0, 0))
  {
    DivModUnique(0, v.wordModulus, 0, 0);
  }

  /** More data is only held back. */
  lemma AbsorbedHold(v: Variant, keyLength: nat, data: bytes, len: nat, h: ChainValue, t: Counter, part: bytes)
    requires Absorbed(v, keyLength, data, len, h, t) && len + |part| <= v.blockSize
    ensures Absorbed(v, keyLength, data + part, len + |part|, h, t)
  {
    assert (data + part)[..|data| - len] == data[..|data| - len];
  }

  /** Completing the held-back bytes to a block and compressing it. */
  lemma CompleteBlock(v: Variant, keyLength: nat, data: bytes, len: nat, h: ChainValue, t: Counter, held: bytes, fill: bytes)
    requires Absorbed(v, keyLength, data, len, h, t) && held == data[|data| - len..] && len + |fill| == v.blockSize
    ensures |data| + |fill| >= v.blockSize
    ensures t == CounterOf(|data| + |fill| - v.blockSize, v.wordModulus)
    ensures var t' := CounterOf(|data| + |fill|, v.wordModulus);
      Absorbed(v, keyLength, data + fill, 0, v.Compress(h, held + fill, t', NOT_LAST), t')
  {
    var cut := |data| - len;
    AbsorbAppend(v, v.Initial(keyLength), data[..cut], held + fill, 0);
    assert data[..cut] + (held + fill) == data + fill == (data + fill)[..|data + fill|];
  }

  /** Copying the tail bytes behind those already held back. */
  lemma HoldBack(done: bytes, buf: bytes, len: nat, rest: bytes)
    requires len <= |done| && len + |rest| <= |buf| && buf[..len] == done[|done| - len..]
    ensures var b := buf[..len] + rest + buf[len + |rest|..];
      var n := len + |rest|;
      |b| == |buf| && b[..n] == (done + rest)[|done + rest| - n..]
  {
  }

  /** `BLAKE2s` and `BLAKE2b` */
  class Blake2 {
    const v: Variant
    const key: bytes
    const treeMode: bool
    var h: ChainValue
    var t: Counter
    var f: Flags
    var buf: bytes
    var len: nat
    /** Everything passed to `Update` since the last restart, the key block included. */
    ghost var data: bytes

    ghost predicate Valid()
      reads this
    {
      && |key| <= v.blockSize == |buf|
      && Absorbed(v, |key|, data, len, h, t)
      && buf[..len] == data[|data| - len..]
      && (data != [] ==> len > 0)
      && f == NOT_LAST
    }

    /** What has been hashed besides the key. */
    ghost predicate Hashing(message: bytes)
      reads this
    {
      |key| <= v.blockSize && data == Data(key, message, v.blockSize)
    }

    constructor (variant: Variant, userKey: bytes, tree: bool)
      requires variant.Valid() && |userKey| <= variant.blockSize
      ensures Valid() && Hashing([]) && v == variant && key == userKey && treeMode == tree
    {
      v, key, treeMode := variant, userKey, tree;
      h, t, f := variant.initial(|userKey|), Counter(0, 0), NOT_LAST;
      buf, len, data := Zeros(variant.blockSize), 0, [];
      new;
      Restart();
    }

    method IncrementCounter(count: nat, ghost n: nat)
      requires v.Valid() && count <= v.blockSize && t == CounterOf(n, v.wordModulus)
      modifies this`t
      ensures t == CounterOf(n + count, v.wordModulus)
    {
      CountUp(n, count, v.wordModulus);
      hide CounterOf;
      var lo := (t.lo + count) % v.wordModulus;
      t := Counter(lo, (t.hi + (if lo < count then 1 else 0)) % v.wordModulus);
    }

    lemma StartIsValid()
      requires v.Valid() && |key| <= v.blockSize == |buf|
      requires h == v.Initial(|key|) && t == Counter(0, 0) && f == NOT_LAST && len == 0 && data == []
      ensures Valid()
    {
      AbsorbedStart(v, |key|);
    }

    lemma KeyIsHashed()
      requires |key| <= v.blockSize && data == if |key| == 0 then [] else [] + KeyBlock(key, v.blockSize)
      ensures Hashing([])
    {
    }

    /** The key block, if any, is the first data; like any other it is held back. */
    method Restart()
      requires v.Valid() && |key| <= v.blockSize == |buf|
      modifies this
      ensures Valid() && Hashing([])
    {
      hide *;
      h, t, f, len := v.Initial(|key|), Counter(0, 0), NOT_LAST, 0;
      data := [];
      StartIsValid();
      if |key| != 0 {
        Update(KeyBlock(key, v.blockSize));
      }
      KeyIsHashed();
    }

    /** No block is compressed until more data is known to follow it. */
    method Update(input: bytes)
      requires Valid()
      modifies this
      ensures Valid() && data == old(data) + input
      ensures forall message: bytes :: old(Hashing(message)) ==> Hashing(message + input)
    {
      hide Absorbed, CounterOf, Zeros, Data;
      forall message: bytes | Hashing(message)
        ensures data + input == Data(key, message + input, v.blockSize)
      {
        DataMore(key, message, input, v.blockSize);
      }
      var rest := input;
      ghost var done := data;
      AbsorbedSize(v, |key|, done, len, h, t);
      if |rest| > v.blockSize - len {
        if len != 0 {
          rest, done := CompleteCurrent(rest);
        }
        rest, done := CompressWhole(rest, done);
      }
      Hold(rest, done);
    }

    /** The first part of `Update`: the held-back bytes become a full block, which is compressed. */
    method CompleteCurrent(input: bytes) returns (rest: bytes, ghost done: bytes)
      requires Valid() && len > 0 && |input| > v.blockSize - len
      modifies this`h, this`t, this`buf, this`len
      ensures Absorbed(v, |key|, done, len, h, t) && len == 0 && |buf| == v.blockSize
      ensures done + rest == data + input && |rest| > 0
    {
      hide Absorbed, CounterOf, Zeros;
      AbsorbedSize(v, |key|, data, len, h, t);
      var fill := input[..v.blockSize - len];
      HandOver(data, input, |fill|);
      CompleteBlock(v, |key|, data, len, h, t, buf[..len], fill);
      buf := buf[..len] + fill;
      IncrementCounter(v.blockSize, |data| + |fill| - v.blockSize);
      h := v.Compress(h, buf, t, f);
      len, done, rest := 0, data + fill, input[|fill|..];
    }

    /** The last part of `Update`: the tail bytes are copied. */
    method Hold(rest: bytes, ghost done: bytes)
      requires Absorbed(v, |key|, done, len, h, t) && len + |rest| <= v.blockSize
      requires |key| <= v.blockSize == |buf| && f == NOT_LAST
      requires buf[..len] == done[|done| - len..]
      requires done + rest != [] ==> len + |rest| > 0
      modifies this`buf, this`len, this`data
      ensures Valid() && data == done + rest
    {
      hide Absorbed, CounterOf, Zeros, Variant.Valid;
      AbsorbedHold(v, |key|, done, len, h, t, rest);
      AbsorbedSize(v, |key|, done, len, h, t);
      HoldBack(done, buf, len, rest);
      data := done + rest;
      if |rest| > 0 {
        buf := buf[..len] + rest + buf[len + |rest|..];
        len := len + |rest|;
      } else {
        assert data == done;
      }
    }

    /** The block loop of `Update`. */
    method CompressWhole(input: bytes, ghost before: bytes) returns (rest: bytes, ghost done: bytes)
      requires Absorbed(v, |key|, before, len, h, t) && len == 0 && f == NOT_LAST
      modifies this`h, this`t
      ensures Absorbed(v, |key|, done, len, h, t) && done + rest == before + input
      ensures len <= |done|
      ensures |rest| <= v.blockSize && (|input| > 0 ==> |rest| > 0)
    {
      hide Absorbed, Variant.Compress, CounterOf, Zeros;
      AbsorbedSize(v, |key|, before, len, h, t);
      rest, done := input, before;
      while |rest| > v.blockSize
        invariant Absorbed(v, |key|, done, len, h, t)
        invariant done + rest == before + input && (|input| > 0 ==> |rest| > 0)
      {
        var block := rest[..v.blockSize];
        HandOver(done, rest, |block|);
        assert done[|done| - 0..] == [] && [] + block == block;
        CompleteBlock(v, |key|, done, 0, h, t, [], block);
        IncrementCounter(v.blockSize, |done| + |block| - v.blockSize);
        h := v.Compress(h, block, t, f);
        done, rest := done + block, rest[v.blockSize..];
      }
    }

    /** The digest is the one-shot digest of the key block and all data, and the object starts over. */
    method TruncatedFinal(size: nat) returns (ok: bool, hash: bytes)
      requires Valid()
      modifies this
      ensures Valid()
      ensures ok <==> size <= v.digestSize
      ensures if ok then Hashing([]) && hash == v.Output(OneShot(v, |key|, old(data), treeMode), v.digestSize)[..size]
              else data == old(data)
    {
      if size > v.digestSize {
        return false, [];
      }
      AbsorbedFinish(v, |key|, data, len, h, t, buf[..len], treeMode);
      hide Absorbed, OneShot, CounterOf, Zeros;
      f := f.(lastBlock := true);
      if treeMode {
        f := f.(lastNode := true);
      }
      IncrementCounter(len, |data| - len);
      buf := buf[..len] + Zeros(v.blockSize - len);
      h := v.Compress(h, buf, t, f);
      v.OutputFront(h, size);
      ok, hash := true, v.Output(h, size);
      Restart();
    }
  }

  /** What `Absorbed` says of the sizes. */
  lemma AbsorbedSize(v: Variant, keyLength: nat, data: bytes, len: nat, h: ChainValue, t: Counter)
    requires Absorbed(v, keyLength, data, len, h, t)
    ensures v.Valid() && v.blockSize > 0 && len <= v.blockSize && len <= |data|
    ensures t == CounterOf(|data| - len, v.wordModulus)
  {
  }

  /** Compressing the padded held-back bytes with the total count and the final flag is the last step. */
  lemma AbsorbedFinish(v: Variant, keyLength: nat, data: bytes, len: nat, h: ChainValue, t: Counter, held: bytes, lastNode: bool)
    requires Absorbed(v, keyLength, data, len, h, t) && held == data[|data| - len..] && (data != [] ==> len > 0)
    ensures v.Valid() && len <= |data| && len <= v.blockSize && t == CounterOf(|data| - len, v.wordModulus)
    ensures OneShot(v, keyLength, data, lastNode)
         == v.Compress(h, held + Zeros(v.blockSize - len), CounterOf(|data|, v.wordModulus), Flags(true, lastNode))
  {
    hide *;
    AbsorbedIs(v, keyLength, data, len, h, t);
    BeforeLastUnique(|data|, v.blockSize, |data| - len);
    OneShotIs(v, keyLength, data, lastNode, |data| - len);
  }

  lemma AbsorbedIs(v: Variant, keyLength: nat, data: bytes, len: nat, h: ChainValue, t: Counter)
    requires Absorbed(v, keyLength, data, len, h, t)
    ensures v.Valid() && 0 < v.blockSize && 0 < v.wordModulus && len <= |data| && len <= v.blockSize
    ensures Whole(|data| - len, v.blockSize) && Whole(|data[..|data| - len]|, v.blockSize)
    ensures h == Absorb(v, v.Initial(keyLength), data[..|data| - len], 0) && t == CounterOf(|data| - len, v.wordModulus)
  {
    hide CounterOf, Absorb, Whole;
  }

  /** The one-shot definition, where the last block begins. */
  lemma OneShotIs(v: Variant, keyLength: nat, data: bytes, lastNode: bool, cut: nat)
    requires v.blockSize > 0 && v.wordModulus > 0 && cut == BeforeLast(|data|, v.blockSize)
    ensures cut <= |data| && |data[cut..]| <= v.blockSize && Whole(|data[..cut]|, v.blockSize)
    ensures OneShot(v, keyLength, data, lastNode)
         == v.Compress(Absorb(v, v.Initial(keyLength), data[..cut], 0), data[cut..] + Zeros(v.blockSize - |data[cut..]|),
                       CounterOf(|data|, v.wordModulus), Flags(true, lastNode))
  {
    hide CounterOf, Absorb, Variant.Compress, BeforeLast, Whole, Zeros;
  }
}
