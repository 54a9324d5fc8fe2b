/** The generator objects of `blumshub.cpp`, and their bit stream. */
module BlumShubGenerator {
  import opened Numbers
  import opened Bytes
  import opened Euclid
  import opened Fermat
  import opened BlumShub

  /** What changes from bit to bit. */
  datatype Point = Point(current: nat, bitsLeft: nat)

  /** As many of the lowest bits of a state are put out: the precision of the modulus' precision, less one. */
  function MaxBits(n: nat): (m: nat)
    requires n >= 2
    ensures m > 0 && Pow2(m) <= BitCount(n) < Pow2(m + 1)
  {
    assert BitCount(n) >= 2 && BitCount(BitCount(n)) >= 2;
    BitCountBounds(BitCount(n));
    BitCount(BitCount(n)) - 1
  }

  /** The state is squared only when another bit is wanted. */
  function Refreshed(n: nat, s: Point): (t: Point)
    requires n >= 2
    ensures t.bitsLeft > 0
  {
    if s.bitsLeft == 0 then Point(Square(s.current, n), MaxBits(n)) else s
  }

  function NextBit(n: nat, s: Point): (bit: nat)
    requires n >= 2
    ensures bit < 2
  {
    Bit(Refreshed(n, s).current, Refreshed(n, s).bitsLeft - 1)
  }

  function Next(n: nat, s: Point): Point
    requires n >= 2
  {
    Refreshed(n, s).(bitsLeft := Refreshed(n, s).bitsLeft - 1)
  }

  function After(n: nat, s: Point, count: nat): Point
    requires n >= 2
  {
    if count == 0 then s else Next(n, After(n, s, count - 1))
  }

  /** A byte from the next count bits, the first most significant. */
  function Gathered(n: nat, s: Point, count: nat): (b: nat)
    requires n >= 2
    ensures b < Pow2(count)
  {
    if count == 0 then 0 else 2 * Gathered(n, s, count - 1) + NextBit(n, After(n, s, count - 1))
  }

  function NextByte(n: nat, s: Point): byte
    requires n >= 2
  {
    Pow2OfEight();
    Gathered(n, s, 8)
  }

  /** The next bytes of the stream. */
  function Generated(n: nat, s: Point, size: nat): (b: bytes)
    requires n >= 2
    ensures |b| == size
  {
    if size == 0 then [] else Generated(n, s, size - 1) + [NextByte(n, After(n, s, 8 * (size - 1)))]
  }

  /** Bit t of the generator's sequence: from the top of the bits of each state, eagerly squared. */
  function BitAt(x0: nat, n: nat, t: nat): (bit: nat)
    requires n >= 2
    ensures bit < 2
  {
    Bit(Squared(x0, n, t / MaxBits(n) + 1), MaxBits(n) - 1 - t % MaxBits(n))
  }

  /** The state is the k-th, with so many bits still to come that the next is bit t. */
  ghost predicate At(x0: nat, n: nat, s: Point, t: nat, k: nat)
    requires n >= 2
  {
    && k > 0 && s.current == Squared(x0, n, k) && s.bitsLeft <= MaxBits(n)
    && t == k * MaxBits(n) - s.bitsLeft
  }

  /** The lazy squaring cannot be observed: the next bit is bit t, and after it comes bit t + 1. */
  lemma NextIsAt(x0: nat, n: nat, s: Point, t: nat, k: nat) returns (l: nat)
    requires n >= 2 && At(x0, n, s, t, k)
    ensures NextBit(n, s) == BitAt(x0, n, t)
    ensures At(x0, n, Next(n, s), t + 1, l)
  {
    hide Bit, MaxBits, Square;
    var m := MaxBits(n);
    var r := Refreshed(n, s);
    l := if s.bitsLeft == 0 then k + 1 else k;
    assert r.current == Squared(x0, n, l);
    assert l * m == (l - 1) * m + m;
    assert s.bitsLeft == 0 ==> l * m == k * m + m;
    assert t == (l - 1) * m + (m - r.bitsLeft);
    DivModUnique(t, m, l - 1, m - r.bitsLeft);
  }

  lemma {:induction false} AfterIsAt(x0: nat, n: nat, s: Point, t: nat, k: nat, count: nat) returns (l: nat)
    requires n >= 2 && At(x0, n, s, t, k)
    ensures At(x0, n, After(n, s, count), t + count, l)
  {
    hide At, Next;
    l := k;
    if count > 0 {
      l := AfterIsAt(x0, n, s, t, k, count - 1);
      l := NextIsAt(x0, n, After(n, s, count - 1), t + (count - 1), l);
    }
  }

  /** States at the same bit give the same bits. */
  lemma {:induction false} SameBits(x0: nat, n: nat, a: Point, b: Point, t: nat, k: nat, l: nat, count: nat)
    requires n >= 2 && At(x0, n, a, t, k) && At(x0, n, b, t, l)
    ensures Gathered(n, a, count) == Gathered(n, b, count)
  {
    hide At, NextBit, BitAt;
    if count > 0 {
      SameBits(x0, n, a, b, t, k, l, count - 1);
      var i := AfterIsAt(x0, n, a, t, k, count - 1);
      var j := AfterIsAt(x0, n, b, t, l, count - 1);
      i := NextIsAt(x0, n, After(n, a, count - 1), t + (count - 1), i);
      j := NextIsAt(x0, n, After(n, b, count - 1), t + (count - 1), j);
    }
  }

  lemma {:induction false} SameBytes(x0: nat, n: nat, a: Point, b: Point, t: nat, k: nat, l: nat, size: nat)
    requires n >= 2 && At(x0, n, a, t, k) && At(x0, n, b, t, l)
    ensures Generated(n, a, size) == Generated(n, b, size)
  {
    hide At, Gathered, After;
    if size > 0 {
      SameBytes(x0, n, a, b, t, k, l, size - 1);
      var i := AfterIsAt(x0, n, a, t, k, 8 * (size - 1));
      var j := AfterIsAt(x0, n, b, t, l, 8 * (size - 1));
      SameBits(x0, n, After(n, a, 8 * (size - 1)), After(n, b, 8 * (size - 1)), t + 8 * (size - 1), i, j, 8);
    }
  }

  lemma {:induction false} AfterAfter(n: nat, s: Point, i: nat, j: nat)
    requires n >= 2
    ensures After(n, After(n, s, i), j) == After(n, s, i + j)
  {
    hide Next;
    if j > 0 {
      AfterAfter(n, s, i, j - 1);
    }
  }

  /** Bytes in two parts. */
  lemma {:induction false} GeneratedConcat(n: nat, s: Point, i: nat, j: nat)
    requires n >= 2
    ensures Generated(n, s, i + j) == Generated(n, s, i) + Generated(n, After(n, s, 8 * i), j)
  {
    hide After, NextByte;
    if j > 0 {
      GeneratedConcat(n, s, i, j - 1);
      AfterAfter(n, s, 8 * i, 8 * (j - 1));
      assert i + j - 1 == i + (j - 1) && 8 * (i + (j - 1)) == 8 * i + 8 * (j - 1);
    }
  }

  /** The state of a fresh generator, and the one that `Seek` computes. */
  function Fresh(n: nat, seed: int): Point
    requires n >= 2
  {
    Point(Square(Square(seed, n), n), MaxBits(n))
  }

  function Sought(p: nat, q: nat, seed: int, index: nat): Point
    requires p >= 2 && q >= 2 && p * q >= 2
  {
    var m := MaxBits(p * q);
    Point(Exponentiate(Square(seed, p * q), SeekExponent(p, q, 8 * index / m + 1), p * q), m - 8 * index % m)
  }

  /** The index of the state that holds the first bit of a byte. */
  function StateIndex(n: nat, index: nat): (k: nat)
    requires n >= 2
    ensures k > 0
  {
    8 * index / MaxBits(n) + 1
  }

  lemma FreshIsAt(n: nat, seed: int)
    requires n >= 2
    ensures At(Square(seed, n), n, Fresh(n, seed), 0, 1)
  {
    assert Squared(Square(seed, n), n, 1) == Square(Squared(Square(seed, n), n, 0), n);
  }

  /** For distinct primes the sought state is the one of that byte exactly when the byte can be sought. */
  lemma SoughtExactly(p: nat, q: nat, seed: int, index: nat)
    requires Prime(p) && Prime(q) && p != q && p * q >= 2
    ensures At(Square(seed, p * q), p * q, Sought(p, q, seed, index), 8 * index, StateIndex(p * q, index))
       <==> Seekable(p, q, seed, StateIndex(p * q, index))
  {
    hide Prime, MaxBits, Seekable, Square, Exponentiate, Squared, SeekExponent;
    var m := MaxBits(p * q);
    var i := 8 * index;
    PrimeSize(p);
    PrimeSize(q);
    SeekExactly(p, q, seed, i / m + 1);
    assert i == m * (i / m) + i % m && 0 <= i % m < m;
    assert (i / m + 1) * m == m * (i / m) + m;
  }

  /**
   * Seeking to a byte and then generating gives what a fresh generator gives after as many bytes:
   * for distinct primes, if the seed is coprime to them or the exponent is not zero.
   */
  lemma SeekIsSkip(p: nat, q: nat, seed: int, index: nat, size: nat)
    requires Prime(p) && Prime(q) && p != q && p * q >= 2
    requires Seekable(p, q, seed, StateIndex(p * q, index))
    ensures Generated(p * q, Sought(p, q, seed, index), size)
         == Generated(p * q, Fresh(p * q, seed), index + size)[index..]
  {
    hide Prime, Seekable, Square, Sought, Fresh, At, Generated;
    var n := p * q;
    var x0 := Square(seed, n);
    PrimeSize(p);
    PrimeSize(q);
    SoughtExactly(p, q, seed, index);
    FreshIsAt(n, seed);
    var k := AfterIsAt(x0, n, Fresh(n, seed), 0, 1, 8 * index);
    SameBytes(x0, n, Sought(p, q, seed, index), After(n, Fresh(n, seed), 8 * index), 8 * index, StateIndex(n, index), k, size);
    GeneratedConcat(n, Fresh(n, seed), index, size);
  }

  /** `BlumBlumShub`, with what it inherits. */
  class BlumBlumShubGenerator {
    const p: nat
    const q: nat
    const x0: nat
    const n: nat
    const maxBits: nat
    var current: nat
    var bitsLeft: nat
    ghost const seed: int

    ghost predicate Valid() {
      p >= 2 && q >= 2 && n == p * q >= 2 && x0 == Square(seed, n) && maxBits == MaxBits(n)
    }

    function Now(): Point
      reads this
    {
      Point(current, bitsLeft)
    }

    constructor (p: nat, q: nat, seed: int)
      requires p >= 2 && q >= 2
      ensures Valid() && this.p == p && this.q == q && this.seed == seed
      ensures p * q >= 2 && Now() == Fresh(p * q, seed)
    {
      MulLe(1, q, p);
      var modulus := p * q;
      this.p, this.q, n, this.seed := p, q, modulus, seed;
      x0 := Square(seed, modulus);
      current := Square(Square(seed, modulus), modulus);
      maxBits := MaxBits(modulus);
      bitsLeft := MaxBits(modulus);
    }

    method GenerateBit() returns (bit: nat)
      requires Valid()
      modifies this`current, this`bitsLeft
      ensures bit == NextBit(n, old(Now())) && Now() == Next(n, old(Now()))
    {
      if bitsLeft == 0 {
        current := Square(current, n);
        bitsLeft := maxBits;
      }
      bitsLeft := bitsLeft - 1;
      bit := Bit(current, bitsLeft);
    }

    method GenerateByte() returns (b: byte)
      requires Valid()
      modifies this`current, this`bitsLeft
      ensures b == NextByte(n, old(Now())) && Now() == After(n, old(Now()), 8)
    {
      hide NextBit, Next, Pow2, Square, MaxBits;
      var v: nat := 0;
      for i := 0 to 8
        invariant Now() == After(n, old(Now()), i) && v == Gathered(n, old(Now()), i)
      {
        var bit := GenerateBit();
        v := 2 * v + bit;
      }
      Pow2OfEight();
      b := v;
    }

    method GenerateBlock(size: nat) returns (output: bytes)
      requires Valid()
      modifies this`current, this`bitsLeft
      ensures output == Generated(n, old(Now()), size) && Now() == After(n, old(Now()), 8 * size)
    {
      hide NextByte, After, Square, MaxBits;
      output := [];
      AfterNothing(n, Now());
      for i := 0 to size
        invariant Now() == After(n, old(Now()), 8 * i) && output == Generated(n, old(Now()), i)
      {
        AfterAfter(n, old(Now()), 8 * i, 8);
        var b := GenerateByte();
        output := output + [b];
      }
    }

    /** The input xored with the stream. */
    method ProcessData(input: bytes) returns (output: bytes)
      requires Valid()
      modifies this`current, this`bitsLeft
      ensures output == XorBytes(input, Generated(n, old(Now()), |input|))
      ensures Now() == After(n, old(Now()), 8 * |input|)
    {
      hide NextByte, After, Square, MaxBits, Xor;
      output := [];
      AfterNothing(n, Now());
      for i := 0 to |input|
        invariant Now() == After(n, old(Now()), 8 * i) && |output| == i
        invariant output == XorBytes(input[..i], Generated(n, old(Now()), i))
      {
        AfterAfter(n, old(Now()), 8 * i, 8);
        var b := GenerateByte();
        output := output + [Xor(input[i], b)];
        assert input[..i + 1] == input[..i] + [input[i]];
      }
      assert input[..|input|] == input;
    }

    /** The state is that of byte `index` of a fresh generator exactly when the byte can be sought. */
    method Seek(index: nat)
      requires Valid()
      modifies this`current, this`bitsLeft
      ensures Now() == Sought(p, q, seed, index)
      ensures Prime(p) && Prime(q) && p != q ==>
        (At(x0, n, Now(), 8 * index, StateIndex(n, index)) <==> Seekable(p, q, seed, StateIndex(n, index)))
    {
      var i := index * 8;
      var e := SeekExponent(p, q, i / maxBits + 1);
      current := Exponentiate(x0, e, n);
      bitsLeft := maxBits - i % maxBits;
      if Prime(p) && Prime(q) && p != q {
        hide At, Seekable, Prime;
        SoughtExactly(p, q, seed, index);
      }
    }
  }

  lemma AfterNothing(n: nat, s: Point)
    requires n >= 2
    ensures After(n, s, 0) == s
  {
  }

  /**
   * Not every seed can be sought: with the primes 3 and 5, each one more than a power of two, and the
   * seed 3, every byte but the first comes out wrong, from its first bit on.
   */
  lemma FifteenCannotSeek(index: nat)
    requires index > 0
    ensures !Seekable(3, 5, 3, StateIndex(15, index))
    ensures NextBit(15, Sought(3, 5, 3, index)) == 0
    ensures NextBit(15, After(15, Fresh(15, 3), 8 * index)) == 1
    ensures Generated(15, Sought(3, 5, 3, index), 1) != Generated(15, Fresh(15, 3), index + 1)[index..]
  {
    var a, b := Sought(3, 5, 3, index), After(15, Fresh(15, 3), 8 * index);
    hide *;
    NoExponent(index);
    SoughtBit(index);
    RunBit(index);
    FirstBit(15, a, 8);
    FirstBit(15, b, 8);
    OneByte(15, a);
    OneByte(15, b);
    GeneratedConcat(15, Fresh(15, 3), index, 1);
  }

  lemma NoExponent(index: nat)
    requires index > 0
    ensures !Seekable(3, 5, 3, StateIndex(15, index)) && SeekExponent(3, 5, StateIndex(15, index)) == 0
  {
    BitsOfFifteen();
    var k := StateIndex(15, index);
    assert k >= 3;
    Pow2Add(k - 3, 3);
    assert Pow2(3) == 8;
    assert 3 == 3 * 1;
    MultipleOfEight(Pow2(k - 3));
    assert Divides(3, 3);
  }

  lemma MultipleOfEight(x: nat)
    ensures x * 8 % 8 == 0
  {
  }

  /** With the exponent zero the state sought is 1, whose bits are 0 and 1. */
  lemma SoughtBit(index: nat)
    requires SeekExponent(3, 5, StateIndex(15, index)) == 0
    ensures NextBit(15, Sought(3, 5, 3, index)) == 0
  {
    hide SeekExponent, MaxBits, Pow2, BitCount, Square, Exponentiate;
    BitsOfFifteen();
    assert 8 * index % 2 == 0;
    PowersOfThree();
    assert Bit(1, 1) == 0;
  }

  lemma BitsOfFifteen()
    ensures MaxBits(15) == 2
  {
    assert BitCount(15) == 4 && BitCount(4) == 3;
  }

  lemma PowersOfThree()
    ensures Square(3, 15) == 9 && Exponentiate(9, 0, 15) == 1
  {
  }

  /** The states of the seed are 9 and then always 6, whose bits are 1 and 0. */
  lemma {:induction false} StatesOfThree(k: nat)
    requires k > 0
    ensures Squared(9, 15, k) == 6
  {
    if k == 1 {
      assert Squared(9, 15, 0) == 9;
    } else {
      StatesOfThree(k - 1);
    }
  }

  lemma RunBit(index: nat)
    ensures NextBit(15, After(15, Fresh(15, 3), 8 * index)) == 1
  {
    hide After, Fresh, NextBit, Squared, MaxBits, Bit, BitAt, Square, At;
    FreshIsAt(15, 3);
    PowersOfThree();
    var k := AfterIsAt(9, 15, Fresh(15, 3), 0, 1, 8 * index);
    k := NextIsAt(9, 15, After(15, Fresh(15, 3), 8 * index), 8 * index, k);
    EvenBitIs(4 * index);
  }

  lemma EvenBitIs(i: nat)
    ensures BitAt(9, 15, 2 * i) == 1
  {
    hide MaxBits, Squared;
    BitsOfFifteen();
    StatesOfThree(i + 1);
    assert 2 * i / 2 == i && 2 * i % 2 == 0;
    assert Bit(6, 1) == 1;
  }

  /** The top bit of what is gathered is the first bit of the stream. */
  lemma {:induction false} FirstBit(n: nat, s: Point, count: nat)
    requires n >= 2 && count > 0
    ensures Shr(Gathered(n, s, count), count - 1) == NextBit(n, s)
  {
    hide NextBit, Next;
    var g := Gathered(n, s, count - 1);
    var b := NextBit(n, After(n, s, count - 1));
    if count > 1 {
      FirstBit(n, s, count - 1);
      assert (2 * g + b) / 2 == g;
    } else {
      assert After(n, s, 0) == s && Gathered(n, s, 0) == 0;
    }
  }

  lemma OneByte(n: nat, s: Point)
    requires n >= 2
    ensures Generated(n, s, 1) == [Gathered(n, s, 8)]
  {
    hide Gathered;
    assert Generated(n, s, 0) == [] && After(n, s, 0) == s;
  }
}
