/** Adler-32 (`adler32.cpp`): lazy reduction in 32-bit words against the bytewise definition. */
module Adler {
  import Numbers
  import opened Bytes
  import opened Euclid
  import opened Fermat

  const BASE: nat := 65521

  /** Section 8.2 of RFC 1950: the largest prime below 65536. */
  lemma BaseIsLargestPrime(n: nat)
    requires BASE <= n < 65536
    ensures Prime(n) <==> n == BASE
  {
    hide Prime, Divides;
    if n == BASE {
      NoSmallDivisor();
      SmallPrimeTest(65521);
    } else {
      var d := if n % 2 == 0 then 2 else if n % 3 == 0 then 3 else if n % 5 == 0 then 5 else if n % 7 == 0 then 7
               else if n % 13 == 0 then 13 else 19;
      NotPrime(n, d);
    }
  }

  lemma NotPrime(n: nat, d: nat)
    requires 1 < d < n && n % d == 0
    ensures !Prime(n)
  {
    assert n == d * (n / d);
    assert Divides(d, n);
  }

  /** No number from i on and below m divides n. */
  predicate NoneDivides(n: nat, i: nat, m: nat)
    requires i > 0
    decreases m - i
  {
    i < m ==> n % i != 0 && NoneDivides(n, i + 1, m)
  }

  lemma {:induction false} NoneDividesAt(n: nat, i: nat, m: nat, d: nat)
    requires 0 < i <= d < m && NoneDivides(n, i, m)
    ensures n % d != 0
    decreases d - i
  {
    if i < d {
      NoneDividesAt(n, i + 1, m, d);
    }
  }

  /** A number below 2^16 without divisors below 2^8 is prime. */
  lemma SmallPrimeTest(n: nat)
    requires 1 < n < 65536 && NoneDivides(n, 2, 256)
    ensures Prime(n)
  {
    hide NoneDivides;
    forall d | 1 < d < n
      ensures !Divides(d, n)
    {
      if Divides(d, n) {
        var k :| n == d * k;
        var e := SmallFactor(n, d, k);
        NoneDividesAt(n, 2, 256, e);
      }
    }
  }

  /** One of two factors is small. */
  lemma SmallFactor(n: nat, d: nat, k: int) returns (e: nat)
    requires 1 < d < n < 65536 && n == d * k
    ensures 1 < e < 256 && n % e == 0
  {
    if k <= 1 {
      Numbers.MulLe(k, 1, d);
    }
    Numbers.DivModUnique(n, k, d, 0);
    Numbers.DivModUnique(n, d, k, 0);
    if d < 256 {
      e := d;
    } else {
      if k >= 256 {
        Numbers.MulLe(256, k, d);
      }
      e := k;
    }
  }

  lemma NoDivisorFrom192()
    ensures NoneDivides(65521, 192, 256)
  {
    hide NoneDivides;
    NothingLeft(65521, 256);
    SixteenMore(65521, 240, 256);
    SixteenMore(65521, 224, 256);
    SixteenMore(65521, 208, 256);
    SixteenMore(65521, 192, 256);
  }

  lemma NoDivisorFrom128()
    ensures NoneDivides(65521, 128, 256)
  {
    hide NoneDivides;
    NoDivisorFrom192();
    SixteenMore(65521, 176, 256);
    SixteenMore(65521, 160, 256);
    SixteenMore(65521, 144, 256);
    SixteenMore(65521, 128, 256);
  }

  lemma NoDivisorFrom64()
    ensures NoneDivides(65521, 64, 256)
  {
    hide NoneDivides;
    NoDivisorFrom128();
    SixteenMore(65521, 112, 256);
    SixteenMore(65521, 96, 256);
    SixteenMore(65521, 80, 256);
    SixteenMore(65521, 64, 256);
  }

  lemma NoSmallDivisor()
    ensures NoneDivides(65521, 2, 256)
  {
    hide NoneDivides;
    NoDivisorFrom64();
    SixteenMore(65521, 48, 256);
    SixteenMore(65521, 32, 256);
    SixteenMore(65521, 16, 256);
    EightMore(65521, 8, 256);
    FourMore(65521, 4, 256);
    OneMore(65521, 3, 256);
    OneMore(65521, 2, 256);
  }

  lemma NothingLeft(n: nat, m: nat)
    requires m > 0
    ensures NoneDivides(n, m, m)
  {
  }

  lemma OneMore(n: nat, i: nat, m: nat)
    requires i > 0 && n % i != 0 && NoneDivides(n, i + 1, m)
    ensures NoneDivides(n, i, m)
  {
  }

  lemma FourMore(n: nat, i: nat, m: nat)
    requires i > 0 && n % i != 0 && n % (i + 1) != 0 && n % (i + 2) != 0 && n % (i + 3) != 0 && NoneDivides(n, i + 4, m)
    ensures NoneDivides(n, i, m)
  {
    hide NoneDivides;
    OneMore(n, i + 3, m);
    OneMore(n, i + 2, m);
    OneMore(n, i + 1, m);
    OneMore(n, i, m);
  }

  lemma EightMore(n: nat, i: nat, m: nat)
    requires i > 0 && n % i != 0 && n % (i + 1) != 0 && n % (i + 2) != 0 && n % (i + 3) != 0
    requires n % (i + 4) != 0 && n % (i + 5) != 0 && n % (i + 6) != 0 && n % (i + 7) != 0 && NoneDivides(n, i + 8, m)
    ensures NoneDivides(n, i, m)
  {
    hide NoneDivides;
    FourMore(n, i + 4, m);
    FourMore(n, i, m);
  }

  lemma SixteenMore(n: nat, i: nat, m: nat)
    requires i > 0 && n % i != 0 && n % (i + 1) != 0 && n % (i + 2) != 0 && n % (i + 3) != 0
    requires n % (i + 4) != 0 && n % (i + 5) != 0 && n % (i + 6) != 0 && n % (i + 7) != 0
    requires n % (i + 8) != 0 && n % (i + 9) != 0 && n % (i + 10) != 0 && n % (i + 11) != 0
    requires n % (i + 12) != 0 && n % (i + 13) != 0 && n % (i + 14) != 0 && n % (i + 15) != 0 && NoneDivides(n, i + 16, m)
    ensures NoneDivides(n, i, m)
  {
    hide NoneDivides;
    EightMore(n, i + 8, m);
    EightMore(n, i, m);
  }

  /** `unsigned long` where it is narrowest: every sum below is checked to fit. */
  newtype word = x: int | 0 <= x < 0x1_0000_0000

  /** The two sums, each below the base. */
  datatype Sums = Sums(s1: nat, s2: nat)

  function Residue(n: nat): nat {
    n % BASE
  }

  /** One byte of the definition: both sums reduced at every byte. */
  function Step(s: Sums, b: byte): Sums {
    var s1 := Residue(s.s1 + b);
    Sums(s1, Residue(s.s2 + s1))
  }

  /** The definition over a whole string. */
  function Fold(s: Sums, input: bytes): Sums
    decreases |input|
  {
    if input == [] then s else Step(Fold(s, input[..|input| - 1]), input[|input| - 1])
  }

  /** Chunks can be hashed one after the other. */
  lemma {:induction false} FoldConcat(s: Sums, a: bytes, b: bytes)
    ensures Fold(s, a + b) == Fold(Fold(s, a), b)
    decreases |b|
  {
    if b == [] {
      assert a + b == a;
    } else {
      var n := |b| - 1;
      FoldConcat(s, a, b[..n]);
      assert (a + b)[..|a + b| - 1] == a + b[..n];
    }
  }

  /** Unreduced sums that stand for the reduced ones. */
  ghost predicate StandsFor(s1: int, s2: int, s: Sums) {
    s1 >= 0 && s2 >= 0 && Residue(s1) == s.s1 && Residue(s2) == s.s2
  }

  /** Modulo the base, what matters is the residue. */
  lemma ResidueAdd(a: nat, b: nat)
    ensures Residue(a + b) == Residue(Residue(a) + b)
  {
    var q, r := a / BASE, a % BASE + b;
    Numbers.DivModUnique(a + b, BASE, q + r / BASE, r % BASE);
  }

  lemma StepStandsFor(s1: int, s2: int, s: Sums, b: byte)
    requires StandsFor(s1, s2, s)
    ensures StandsFor(s1 + b, s2 + s1 + b, Step(s, b))
  {
    hide Residue;
    ResidueAdd(s1, b);
    ResidueAdd(s2, s1 + b);
    ResidueAdd(s1 + b, s.s2);
  }

  lemma FoldNext(s: Sums, input: bytes, i: nat)
    requires i < |input|
    ensures Fold(s, input[..i + 1]) == Step(Fold(s, input[..i]), input[i])
  {
    assert input[..i + 1][..i] == input[..i];
  }

  /** The largest s1 between two conditional subtractions, eight bytes apart. */
  const LARGEST_S1: nat := BASE - 1 + 8 * 255

  /** `Adler32` */
  class Adler32 {
    var s1: nat
    var s2: nat
    /** Everything passed to `Update` since the last reset. */
    ghost var message: bytes

    ghost predicate Valid()
      reads this
    {
      s1 < BASE && s2 < BASE && Sums(s1, s2) == Fold(Sums(1, 0), message)
    }

    constructor ()
      ensures Valid() && message == []
    {
      s1, s2, message := 1, 0, [];
    }

    /**
     * The sums are those of the definition, both below the base, for every input and chunking. No
     * intermediate sum leaves 32 bits, and one conditional subtraction is enough for s1.
     */
    method Update(input: bytes)
      requires Valid()
      modifies this
      ensures Valid() && message == old(message) + input
    {
      hide Fold, Bounded, StandsFor;
      ghost var start := Sums(s1, s2);
      var a: word, b: word := s1 as word, s2 as word;
      StartStandsFor(a, b, start);
      a, b := AddAll(start, input, a, b);
      FullyReduced(a, b, Fold(start, input));
      FoldConcat(Sums(1, 0), message, input);
      s1, s2 := a as nat, b as nat;
      message := message + input;
    }

    /** The checksum is the two sums, high bytes first; asking for fewer bytes gives its front. */
    method TruncatedFinal(size: nat) returns (ok: bool, hash: bytes)
      requires Valid()
      modifies this
      ensures Valid()
      ensures ok <==> size <= 4
      ensures if ok then message == [] && hash == Checksum(old(message))[..size] else message == old(message)
    {
      if size > 4 {
        return false, [];
      }
      ok, hash := true, [];
      if size >= 1 { hash := hash + [s2 / 256]; }
      if size >= 2 { hash := hash + [s2 % 256]; }
      if size >= 3 { hash := hash + [s1 / 256]; }
      if size >= 4 { hash := hash + [s1 % 256]; }
      ChecksumBytes(message, s1, s2);
      s1, s2, message := 1, 0, [];
    }
  }

  /** The four bytes of s2 * 65536 + s1 over the whole message. */
  function Checksum(message: bytes): (r: bytes)
    ensures |r| == 4
  {
    var s := Fold(Sums(1, 0), message);
    BigEndian(s.s2 * 65536 + s.s1, 4)
  }

  lemma ChecksumBytes(message: bytes, s1: nat, s2: nat)
    requires Fold(Sums(1, 0), message) == Sums(s1, s2) && s1 < BASE && s2 < BASE
    ensures s1 / 256 < 256 && s2 / 256 < 256
    ensures Checksum(message) == [s2 / 256, s2 % 256, s1 / 256, s1 % 256]
  {
    var n := s2 * 65536 + s1;
    assert n % 256 == s1 % 256 && n / 256 == s2 * 256 + s1 / 256;
    assert n / 256 / 256 == s2;
    assert BigEndian(n, 4) == BigEndian(n / 256, 3) + [n % 256];
    assert BigEndian(n / 256, 3) == BigEndian(s2, 2) + [s1 / 256];
    assert BigEndian(s2, 2) == BigEndian(s2 / 256, 1) + [s2 % 256];
    assert BigEndian(s2 / 256, 1) == [] + [s2 / 256];
  }

  /** Sums k bytes after s1 was last reduced and n bytes after s2 was last reduced. */
  ghost predicate Bounded(a: word, b: word, k: nat, n: nat) {
    k <= 8 && n <= 0x8000 && a as int <= BASE - 1 + k * 255 && b as int <= BASE - 1 + n * LARGEST_S1
  }

  /** `s1 += *input++; s2 += s1;` */
  method AddByte(ghost start: Sums, input: bytes, i: nat, aIn: word, bIn: word, ghost k: nat, ghost n: nat)
    returns (a: word, b: word)
    requires i < |input| && k < 8 && n < 0x8000 && Bounded(aIn, bIn, k, n)
    requires StandsFor(aIn as int, bIn as int, Fold(start, input[..i]))
    ensures Bounded(a, b, k + 1, n + 1) && StandsFor(a as int, b as int, Fold(start, input[..i + 1]))
  {
    StepStandsFor(aIn as int, bIn as int, Fold(start, input[..i]), input[i]);
    FoldNext(start, input, i);
    a := aIn + input[i] as word;
    b := bIn + a;
  }

  lemma FoldNothing(s: Sums, input: bytes)
    ensures Fold(s, input[..0]) == s
  {
  }

  /** The first loop: the bytes beyond a multiple of eight. */
  method OddBytes(ghost start: Sums, input: bytes, aIn: word, bIn: word) returns (i: nat, a: word, b: word)
    requires |input| % 8 != 0 && Bounded(aIn, bIn, 0, 0) && StandsFor(aIn as int, bIn as int, Fold(start, input[..0]))
    ensures i == |input| % 8 && Bounded(a, b, 0, 0) && StandsFor(a as int, b as int, Fold(start, input[..i]))
  {
    hide Fold, Bounded, StandsFor;
    a, b, i := aIn, bIn, 0;
    var length := |input|;
    while length % 8 != 0
      invariant i + length == |input| && i <= |input| % 8 && length % 8 == |input| % 8 - i
      invariant Bounded(a, b, i, i) && StandsFor(a as int, b as int, Fold(start, input[..i]))
      decreases length
    {
      a, b := AddByte(start, input, i, a, b, i, i);
      i, length := i + 1, length - 1;
    }
    ReduceFirst(a, b, i, i, Fold(start, input[..i]));
    if a >= BASE as word {
      a := a - BASE as word;
    }
    ReduceSecond(a, b, i, Fold(start, input[..i]));
    b := b % BASE as word;
  }

  /** The eight additions of the second loop. */
  method EightBytes(ghost start: Sums, input: bytes, i: nat, aIn: word, bIn: word, ghost since: nat) returns (a: word, b: word)
    requires i + 8 <= |input| && since + 8 <= 0x8000
    requires Bounded(aIn, bIn, 0, since) && StandsFor(aIn as int, bIn as int, Fold(start, input[..i]))
    ensures Bounded(a, b, 8, since + 8) && StandsFor(a as int, b as int, Fold(start, input[..i + 8]))
  {
    hide Fold, Bounded, StandsFor;
    a, b := AddByte(start, input, i, aIn, bIn, 0, since);
    a, b := AddByte(start, input, i + 1, a, b, 1, since + 1);
    a, b := AddByte(start, input, i + 2, a, b, 2, since + 2);
    a, b := AddByte(start, input, i + 3, a, b, 3, since + 3);
    a, b := AddByte(start, input, i + 4, a, b, 4, since + 4);
    a, b := AddByte(start, input, i + 5, a, b, 5, since + 5);
    a, b := AddByte(start, input, i + 6, a, b, 6, since + 6);
    a, b := AddByte(start, input, i + 7, a, b, 7, since + 7);
  }

  lemma StartStandsFor(a: word, b: word, s: Sums)
    requires a as int == s.s1 < BASE && b as int == s.s2 < BASE
    ensures Bounded(a, b, 0, 0) && StandsFor(a as int, b as int, s)
  {
  }

  /** One conditional subtraction brings s1 below the base. */
  lemma ReduceFirst(a: word, b: word, k: nat, n: nat, s: Sums)
    requires Bounded(a, b, k, n) && StandsFor(a as int, b as int, s)
    ensures var a' := if a >= BASE as word then a - BASE as word else a;
      Bounded(a', b, 0, n) && StandsFor(a' as int, b as int, s)
  {
  }

  /** Reducing s2 starts its count again. */
  lemma ReduceSecond(a: word, b: word, n: nat, s: Sums)
    requires Bounded(a, b, 0, n) && StandsFor(a as int, b as int, s)
    ensures Bounded(a, b % BASE as word, 0, 0) && StandsFor(a as int, (b % BASE as word) as int, s)
  {
  }

  lemma FullyReduced(a: word, b: word, s: Sums)
    requires Bounded(a, b, 0, 0) && StandsFor(a as int, b as int, s)
    ensures (a as int) < BASE && (b as int) < BASE && s == Sums(a as nat, b as nat)
  {
  }

  /** The bytes since s2 was last reduced fit, with those before it is next reduced, in one period. */
  ghost predicate Room(length: nat, since: nat) {
    length % 0x8000 + since <= 0x8000 && (length % 0x8000 == 0 ==> since == 0)
  }

  lemma NoneSinceReduced(length: nat)
    ensures Room(length, 0)
  {
  }

  lemma InEights(n: nat)
    ensures n % 8 == 0 ==> Eights(n)
    ensures Eights(0)
  {
  }

  predicate Eights(n: nat) {
    n % 8 == 0
  }

  lemma RoomForEight(length: nat, since: nat)
    requires Room(length, since) && length > 0 && Eights(length) && Eights(since)
    ensures length >= 8 && Eights(length - 8) && Eights(since + 8) && Eights(0)
    ensures since + 8 <= 0x8000
    ensures (length - 8) % 0x8000 != 0 ==> Room(length - 8, since + 8)
  {
    var n := length / 8;
    var q, r := n / 0x1000, n % 0x1000;
    assert length == 0x8000 * q + 8 * r;
    Numbers.DivModUnique(length, 0x8000, q, 8 * r);
    if r == 0 {
      Numbers.DivModUnique(length - 8, 0x8000, q - 1, 0x7ff8);
    } else {
      Numbers.DivModUnique(length - 8, 0x8000, q, 8 * r - 8);
    }
  }

  lemma RoomAtEnd(since: nat)
    requires Room(0, since)
    ensures since == 0
  {
  }

  /** The conditional subtraction, and the remainder when it is due. */
  method Reduce(aIn: word, bIn: word, due: bool, ghost since: nat, ghost s: Sums) returns (a: word, b: word)
    requires Bounded(aIn, bIn, 8, since) && StandsFor(aIn as int, bIn as int, s)
    ensures Bounded(a, b, 0, if due then 0 else since) && StandsFor(a as int, b as int, s)
  {
    hide Bounded, StandsFor;
    a, b := aIn, bIn;
    ReduceFirst(a, b, 8, since, s);
    if a >= BASE as word {
      a := a - BASE as word;
    }
    if due {
      ReduceSecond(a, b, since, s);
      b := b % BASE as word;
    }
  }

  /** Both loops, on the sums alone. */
  method AddAll(ghost start: Sums, input: bytes, aIn: word, bIn: word) returns (a: word, b: word)
    requires Bounded(aIn, bIn, 0, 0) && StandsFor(aIn as int, bIn as int, start)
    ensures Bounded(a, b, 0, 0) && StandsFor(a as int, b as int, Fold(start, input))
  {
    hide *;
    var i, length: nat := 0, |input|;
    a, b := aIn, bIn;
    FoldNothing(start, input);
    if length % 8 != 0 {
      i, a, b := OddBytes(start, input, a, b);
      length := length - i;
    }
    ghost var since: nat := 0;
    NoneSinceReduced(length);
    InEights(length);
    while length > 0
      invariant i + length == |input| && Eights(length) && Eights(since)
      invariant Room(length, since)
      invariant Bounded(a, b, 0, since) && StandsFor(a as int, b as int, Fold(start, input[..i]))
      decreases length
    {
      RoomForEight(length, since);
      a, b := EightBytes(start, input, i, a, b, since);
      length, i, since := length - 8, i + 8, since + 8;
      a, b := Reduce(a, b, length % 0x8000 == 0, since, Fold(start, input[..i]));
      if length % 0x8000 == 0 {
        since := 0;
        NoneSinceReduced(length);
      }
    }
    RoomAtEnd(since);
    assert input[..i] == input;
  }
}
