/** When `Seek` and then reading gives the right bytes (`blumshub.cpp`): also from some wrong states. */
module BlumShubStream {
  import opened Numbers
  import opened Bytes
  import opened Euclid
  import opened Fermat
  import opened BlumShub
  import opened BlumShubGenerator

  /** Whatever is read after `Seek` is what a fresh generator gives once `index` bytes are skipped. */
  ghost predicate ReadsRight(p: nat, q: nat, seed: int, index: nat)
    requires p * q >= 2 && p >= 2 && q >= 2
  {
    forall size: nat :: Generated(p * q, Sought(p, q, seed, index), size)
                     == Generated(p * q, Fresh(p * q, seed), index + size)[index..]
  }

  /** What exponents are reduced by. */
  function Period(p: nat, q: nat): (f: nat)
    requires p >= 2 && q >= 2
    ensures f > 0
  {
    MulLe(1, q - 1, p - 1);
    (p - 1) * (q - 1)
  }

  /** The state at exponents that are reduced to zero: modulo either prime, 0 if it divides the seed, else 1. */
  function Stationary(p: nat, q: nat, seed: int): (x: nat)
    requires p >= 2 && q >= 2 && p * q >= 2
    ensures x < p * q
  {
    Exponentiate(Square(seed, p * q), Period(p, q), p * q)
  }

  /** A multiple of (p - 1)(q - 1) may be added to a positive exponent, whatever the seed. */
  lemma AddMultiple(p: nat, q: nat, x: nat, e: nat, m: nat)
    requires Prime(p) && Prime(q) && p != q && e > 0
    ensures p >= 2 && q >= 2 && p * q > 0 && Period(p, q) * m >= 0
    ensures Exponentiate(x, e + Period(p, q) * m, p * q) == Exponentiate(x, e, p * q)
  {
    hide Prime, Pow, Divides;
    PrimeSize(p);
    PrimeSize(q);
    MulLe(1, q, p);
    Factors(p - 1, q - 1, m);
    var big := e + (p - 1) * (q - 1) * m;
    ReducedModPrime(p, x, e, big, (q - 1) * m);
    ReducedModPrime(q, x, e, big, (p - 1) * m);
    ProductDivides(p, q, Pow(x, big) - Pow(x, e));
    SameResidue(Pow(x, big), Pow(x, e), p * q);
  }

  lemma Factors(a: nat, b: nat, m: nat)
    ensures a * b * m == a * (b * m) == b * (a * m) && a * b * m >= 0
  {
    Reassociate(a, b, m);
    MulLe(0, m, b);
    MulLe(0, b * m, a);
  }

  /** If the exponent is zero, the state is the stationary one. */
  lemma ZeroExponentState(p: nat, q: nat, seed: int, k: nat)
    requires Prime(p) && Prime(q) && p != q && k > 0 && p >= 2 && q >= 2 && p * q >= 2
    requires SeekExponent(p, q, k) == 0
    ensures Squared(Square(seed, p * q), p * q, k) == Stationary(p, q, seed)
  {
    hide Prime, Pow, Pow2, Square, Squared, Exponentiate, Period;
    var x0, f := Square(seed, p * q), Period(p, q);
    ExponentIs(p, q, k);
    var m := MultipleOf(Pow2(k), f);
    AddMultiple(p, q, x0, f, m);
    SquaredIsPower(x0, p * q, k);
  }

  lemma ExponentIs(p: nat, q: nat, k: nat)
    requires p >= 2 && q >= 2
    ensures SeekExponent(p, q, k) == Pow2(k) % Period(p, q)
  {
  }

  lemma MultipleOf(n: nat, d: nat) returns (m: nat)
    requires n > 0 && d > 0 && n % d == 0
    ensures n == d + d * m
  {
    var i := DivideBy(n, d);
    assert i > 0;
    m := i - 1;
  }

  lemma StationarySquare(p: nat, q: nat, seed: int)
    requires Prime(p) && Prime(q) && p != q && p >= 2 && q >= 2 && p * q >= 2
    ensures Square(Stationary(p, q, seed), p * q) == Stationary(p, q, seed)
  {
    hide Prime, Pow, Square, Period;
    var x0, n, f := Square(seed, p * q), p * q, Period(p, q);
    AddMultiple(p, q, x0, f, 1);
    PowAdd(x0, f, f);
    SquareOfResidue(Pow(x0, f), n);
  }

  /** It is 1 exactly when the seed has no prime in common with the modulus. */
  lemma StationaryIsOne(p: nat, q: nat, seed: int)
    requires Prime(p) && Prime(q) && p != q && p >= 2 && q >= 2 && p * q >= 2
    ensures Stationary(p, q, seed) == 1 <==> !Divides(p, seed) && !Divides(q, seed)
  {
    hide Prime, Pow, Square, Period, Divides, Exponentiate;
    var x0, n, f := Square(seed, p * q), p * q, Period(p, q);
    ResidueIsOne(x0, f, n);
    PeriodReduces(p, q, x0);
    PeriodReduces(q, p, x0);
    PeriodFactors(p, q);
    ProductDivides(p, q, Pow(x0, f) - 1);
    FactorsDivide(p, q);
    SquareDivisible(p, seed, n);
    SquareDivisible(q, seed, n);
  }

  lemma ResidueIsOne(x: nat, e: nat, n: nat)
    requires n >= 2
    ensures Exponentiate(x, e, n) == 1 <==> Divides(n, Pow(x, e) - 1)
  {
    hide Divides, Pow;
    SameResidue(Pow(x, e), 1, n);
  }

  lemma PeriodReduces(p: nat, q: nat, x: nat)
    requires Prime(p) && q >= 2 && p >= 2
    ensures Divides(p, Pow(x, Period(p, q)) - 1) <==> !Divides(p, x)
  {
    hide Prime, Pow, Divides;
    NoPower(x);
    ReducedModPrime(p, x, 0, Period(p, q), q - 1);
  }

  lemma PeriodFactors(p: nat, q: nat)
    requires p >= 2 && q >= 2
    ensures Period(p, q) == Period(q, p)
  {
  }

  lemma SquareOfResidue(z: int, n: nat)
    requires n > 0
    ensures Square(z % n, n) == z * z % n
  {
    hide Divides;
    var y := z % n;
    DividesRemainder(z, n);
    DividesProduct(n, z - y, z + y);
    assert (z - y) * (z + y) == z * z - y * y;
    SameResidue(z * z, y * y, n);
  }

  /** From a state that is its own square all states are the same. */
  lemma {:induction false} SquaredStays(c: nat, n: nat, k: nat)
    requires n > 0 && Square(c, n) == c
    ensures Squared(c, n, k) == c
  {
    if k > 0 {
      SquaredStays(c, n, k - 1);
    }
  }

  /** Bit number count from such a state. */
  lemma StationaryBit(n: nat, c: nat, bitsLeft: nat, count: nat)
    requires n >= 2 && Square(c, n) == c && bitsLeft <= MaxBits(n)
    ensures var m := MaxBits(n);
      NextBit(n, After(n, Point(c, bitsLeft), count)) == Bit(c, m - 1 - (m - bitsLeft + count) % m)
  {
    hide Square, MaxBits, Bit, After, NextBit, Next;
    var m := MaxBits(n);
    var s := Point(c, bitsLeft);
    SquaredStays(c, n, 1);
    var t := m - bitsLeft;
    assert At(c, n, s, t, 1);
    var k := AfterIsAt(c, n, s, t, 1, count);
    k := NextIsAt(c, n, After(n, s, count), t + count, k);
    SquaredStays(c, n, (t + count) / m + 1);
  }

  /** The bits below i are those of the low part. */
  lemma {:induction false} LowBits(x: nat, y: nat, i: nat)
    ensures Low(x, i) == Low(y, i) <==> forall j :: 0 <= j < i ==> Bit(x, j) == Bit(y, j)
  {
    if i > 0 {
      LowBits(x / 2, y / 2, i - 1);
      assert Bit(x, 0) == x % 2 && Bit(y, 0) == y % 2;
      assert forall j :: 0 < j < i ==> Bit(x, j) == Bit(x / 2, j - 1) && Bit(y, j) == Bit(y / 2, j - 1);
      assert forall j :: 0 <= j < i - 1 ==> Bit(x / 2, j) == Bit(x, j + 1) && Bit(y / 2, j) == Bit(y, j + 1);
    }
  }

  lemma LastBit(g: nat, h: nat, a: nat, b: nat)
    requires a < 2 && b < 2
    ensures 2 * g + a == 2 * h + b <==> g == h && a == b
  {
  }

  ghost predicate SameFirstBits(n: nat, a: Point, b: Point, count: nat)
    requires n >= 2
  {
    forall i :: 0 <= i < count ==> NextBit(n, After(n, a, i)) == NextBit(n, After(n, b, i))
  }

  /** What is gathered from two points is equal exactly when all bits are. */
  lemma {:induction false} GatheredBits(n: nat, a: Point, b: Point, count: nat)
    requires n >= 2
    ensures Gathered(n, a, count) == Gathered(n, b, count) <==> SameFirstBits(n, a, b, count)
  {
    hide NextBit, After;
    if count > 0 {
      GatheredBits(n, a, b, count - 1);
      LastBit(Gathered(n, a, count - 1), Gathered(n, b, count - 1),
              NextBit(n, After(n, a, count - 1)), NextBit(n, After(n, b, count - 1)));
      assert SameFirstBits(n, a, b, count) ==> SameFirstBits(n, a, b, count - 1);
    }
  }

  /** Two streams are equal exactly when all their bits are. */
  ghost predicate SameStream(n: nat, a: Point, b: Point)
    requires n >= 2
  {
    forall size: nat :: Generated(n, a, size) == Generated(n, b, size)
  }

  ghost predicate SameStreamBits(n: nat, a: Point, b: Point)
    requires n >= 2
  {
    forall i: nat :: NextBit(n, After(n, a, i)) == NextBit(n, After(n, b, i))
  }

  lemma BytesHaveBits(n: nat, a: Point, b: Point, i: nat)
    requires n >= 2 && SameStream(n, a, b)
    ensures NextBit(n, After(n, a, i)) == NextBit(n, After(n, b, i))
  {
    hide NextBit, After, Gathered;
    var j := i / 8;
    assert Generated(n, a, j + 1)[j] == Generated(n, b, j + 1)[j];
    GatheredBits(n, After(n, a, 8 * j), After(n, b, 8 * j), 8);
    AfterAfter(n, a, 8 * j, i % 8);
    AfterAfter(n, b, 8 * j, i % 8);
  }

  lemma {:induction false} BitsMakeBytes(n: nat, a: Point, b: Point, size: nat)
    requires n >= 2 && SameStreamBits(n, a, b)
    ensures Generated(n, a, size) == Generated(n, b, size)
  {
    hide NextBit, After, Gathered;
    if size > 0 {
      BitsMakeBytes(n, a, b, size - 1);
      var j := 8 * (size - 1);
      forall i | 0 <= i < 8
        ensures NextBit(n, After(n, After(n, a, j), i)) == NextBit(n, After(n, After(n, b, j), i))
      {
        AfterAfter(n, a, j, i);
        AfterAfter(n, b, j, i);
      }
      GatheredBits(n, After(n, a, j), After(n, b, j), 8);
    }
  }

  lemma StreamIsBits(n: nat, a: Point, b: Point)
    requires n >= 2
    ensures SameStream(n, a, b) <==> SameStreamBits(n, a, b)
  {
    hide NextBit, After, Generated;
    if SameStream(n, a, b) {
      forall i: nat
        ensures NextBit(n, After(n, a, i)) == NextBit(n, After(n, b, i))
      {
        BytesHaveBits(n, a, b, i);
      }
    }
    if SameStreamBits(n, a, b) {
      forall size: nat
        ensures Generated(n, a, size) == Generated(n, b, size)
      {
        BitsMakeBytes(n, a, b, size);
      }
    }
  }

  /** Two states that are their own squares give the same stream exactly when their low bits agree. */
  lemma StationaryStreams(n: nat, c: nat, d: nat, bitsLeft: nat)
    requires n >= 2 && Square(c, n) == c && Square(d, n) == d && bitsLeft <= MaxBits(n)
    ensures SameStream(n, Point(c, bitsLeft), Point(d, bitsLeft)) <==> Low(c, MaxBits(n)) == Low(d, MaxBits(n))
  {
    hide NextBit, After, Bit, Low, MaxBits, Square, SameStream;
    var a, b, m := Point(c, bitsLeft), Point(d, bitsLeft), MaxBits(n);
    StreamIsBits(n, a, b);
    LowBits(c, d, m);
    if SameStreamBits(n, a, b) {
      forall j | 0 <= j < m
        ensures Bit(c, j) == Bit(d, j)
      {
        var count := bitsLeft + (m - 1 - j);
        StationaryBit(n, c, bitsLeft, count);
        StationaryBit(n, d, bitsLeft, count);
        DivModUnique(m + (m - 1 - j), m, 1, m - 1 - j);
      }
    }
    if Low(c, m) == Low(d, m) {
      forall i: nat
        ensures NextBit(n, After(n, a, i)) == NextBit(n, After(n, b, i))
      {
        StationaryBit(n, c, bitsLeft, i);
        StationaryBit(n, d, bitsLeft, i);
      }
    }
  }

  /** What a fresh generator gives behind the skipped bytes comes from the k-th state. */
  lemma SkippedStream(p: nat, q: nat, seed: int, index: nat)
    requires p >= 2 && q >= 2 && p * q >= 2
    ensures var n := p * q;
      var right := Point(Squared(Square(seed, n), n, StateIndex(n, index)), MaxBits(n) - 8 * index % MaxBits(n));
      ReadsRight(p, q, seed, index) <==> SameStream(n, Sought(p, q, seed, index), right)
  {
    hide Square, Sought, Fresh, Generated, MaxBits, Squared;
    var n := p * q;
    var x0, m, k := Square(seed, n), MaxBits(n), StateIndex(n, index);
    var right := Point(Squared(x0, n, k), m - 8 * index % m);
    assert 8 * index == m * (8 * index / m) + 8 * index % m;
    assert k * m == m * (8 * index / m) + m;
    assert At(x0, n, right, 8 * index, k);
    FreshIsAt(n, seed);
    var l := AfterIsAt(x0, n, Fresh(n, seed), 0, 1, 8 * index);
    forall size: nat
      ensures Generated(n, Fresh(n, seed), index + size)[index..] == Generated(n, right, size)
    {
      SameBytes(x0, n, right, After(n, Fresh(n, seed), 8 * index), 8 * index, k, l, size);
      GeneratedConcat(n, Fresh(n, seed), index, size);
    }
  }

  /** What a caller can check: the exponent is not zero, or the stationary state ends in the bits of 1. */
  ghost predicate Readable(p: nat, q: nat, seed: int, k: nat)
    requires p >= 2 && q >= 2 && p * q >= 2
  {
    SeekExponent(p, q, k) != 0 || Low(Stationary(p, q, seed), MaxBits(p * q)) == 1
  }

  /**
   * For distinct primes `Seek(index)` and then reading, however much, is skipping `index` bytes exactly
   * when the exponent is not zero or the stationary state, which is 1 unless a prime divides the seed,
   * has the low bits of 1.
   */
  lemma SeekIsSkipExactly(p: nat, q: nat, seed: int, index: nat)
    requires Prime(p) && Prime(q) && p != q && p >= 2 && q >= 2 && p * q >= 2
    ensures ReadsRight(p, q, seed, index) <==> Readable(p, q, seed, StateIndex(p * q, index))
  {
    hide Prime, Square, ReadsRight, SameStream, Low, Stationary, Squared, MaxBits, Exponentiate, SeekExponent;
    var n, k := p * q, StateIndex(p * q, index);
    if SeekExponent(p, q, k) != 0 {
      forall size: nat
        ensures Generated(n, Sought(p, q, seed, index), size) == Generated(n, Fresh(n, seed), index + size)[index..]
      {
        SeekIsSkip(p, q, seed, index, size);
      }
      AllRead(p, q, seed, index);
    } else {
      ZeroExponentState(p, q, seed, k);
      StationarySquare(p, q, seed);
      OneIsStationary(n, Square(seed, n));
      SkippedStream(p, q, seed, index);
      StationaryStreams(n, 1, Stationary(p, q, seed), MaxBits(n) - 8 * index % MaxBits(n));
      LowOfOne(MaxBits(n));
    }
  }

  lemma AllRead(p: nat, q: nat, seed: int, index: nat)
    requires p >= 2 && q >= 2 && p * q >= 2
    requires forall size: nat :: Generated(p * q, Sought(p, q, seed, index), size)
                              == Generated(p * q, Fresh(p * q, seed), index + size)[index..]
    ensures ReadsRight(p, q, seed, index)
  {
  }

  lemma OneIsStationary(n: nat, x: nat)
    requires n >= 2
    ensures Exponentiate(x, 0, n) == 1 == Square(1, n)
  {
  }

  lemma {:induction false} LowOfOne(i: nat)
    requires i > 0
    ensures Low(1, i) == 1 && Low(0, i) == 0
  {
    if i > 1 {
      LowOfOne(i - 1);
    } else {
      assert Low(0, 0) == 0;
    }
  }

  /** A wrong state need not be seen: with the primes 2 and 3 and the seed 3 every byte that is read is right. */
  lemma SixReadsRight(index: nat)
    ensures !At(Square(3, 6), 6, Sought(2, 3, 3, index), 8 * index, StateIndex(6, index))
    ensures ReadsRight(2, 3, 3, index)
  {
    hide *;
    SmallPrimes();
    SixStates(index);
    SoughtExactly(2, 3, 3, index);
    SeekIsSkipExactly(2, 3, 3, index);
  }

  lemma SmallPrimes()
    ensures Prime(2) && Prime(3)
  {
  }

  lemma SixStates(index: nat)
    ensures !Seekable(2, 3, 3, StateIndex(6, index)) && Readable(2, 3, 3, StateIndex(6, index))
  {
    assert MaxBits(6) == 1;
    var k := StateIndex(6, index);
    assert Pow2(k) == 2 * Pow2(k - 1);
    assert 3 == 3 * 1;
    assert Divides(3, 3);
    assert Square(3, 6) == 3;
    assert Exponentiate(3, 2, 6) == 3;
    assert Low(3, 1) == 1;
  }
}
