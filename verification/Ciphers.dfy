/** Block ciphers with an abstract round function, and chaining over whole blocks. */
module Ciphers {
  import Numbers
  import opened Bytes

  /** Any function on blocks of a fixed length; results of another length count as zero blocks. */
  datatype BlockCipher = BlockCipher(blockSize: nat, encrypt: bytes -> bytes) {
    function Process(b: bytes): (r: bytes)
      requires |b| == blockSize
      ensures |r| == blockSize
    {
      var r := encrypt(b);
      if |r| == blockSize then r else Zeros(blockSize)
    }
  }

  /** n bytes are whole blocks of b bytes. */
  predicate Whole(n: nat, b: nat)
    requires b > 0
  {
    n == 0 || (n >= b && Whole(n - b, b))
  }

  /** The bytes before the last block, whole or partial, of a message of the given length. */
  function BeforeLast(length: nat, b: nat): (cut: nat)
    requires b > 0
    ensures cut <= length <= cut + b && Whole(cut, b)
    ensures length > 0 ==> cut < length
  {
    if length <= b then 0 else b + BeforeLast(length - b, b)
  }

  lemma WholeStep(n: nat, b: nat)
    requires b > 0 && n > 0 && Whole(n, b)
    ensures n >= b && Whole(n - b, b)
  {
  }

  lemma {:induction false} WholePlus(n: nat, m: nat, b: nat)
    requires b > 0 && Whole(n, b) && Whole(m, b)
    ensures Whole(n + m, b)
  {
    if n != 0 {
      WholePlus(n - b, m, b);
    }
  }

  lemma {:induction false} BeforeLastUnique(length: nat, b: nat, cut: nat)
    requires b > 0 && Whole(cut, b) && cut <= length <= cut + b && (length > 0 ==> cut < length)
    ensures BeforeLast(length, b) == cut
  {
    if length > b {
      BeforeLastUnique(length - b, b, cut - b);
    }
  }

  /** Whole is divisibility. */
  lemma {:induction false} WholeIsMultiple(n: nat, b: nat)
    requires b > 0
    ensures Whole(n, b) <==> n % b == 0
  {
    if n < b {
    } else {
      WholeIsMultiple(n - b, b);
      assert (n - b) % b == n % b by {
        Numbers.DivModUnique(n, b, (n - b) / b + 1, (n - b) % b);
      }
    }
  }

  /** Cipher block chaining from x over the whole blocks of s. */
  function Chain(c: BlockCipher, x: bytes, s: bytes): (r: bytes)
    requires c.blockSize > 0 && |x| == c.blockSize && Whole(|s|, c.blockSize)
    ensures |r| == c.blockSize
    decreases |s|
  {
    if s == [] then x
    else Chain(c, c.Process(XorBytes(x, s[..c.blockSize])), s[c.blockSize..])
  }

  /** Chaining in two parts. */
  lemma {:induction false} ChainConcat(c: BlockCipher, x: bytes, s: bytes, t: bytes)
    requires c.blockSize > 0 && |x| == c.blockSize && Whole(|s|, c.blockSize) && Whole(|t|, c.blockSize)
    ensures Whole(|s + t|, c.blockSize)
    ensures Chain(c, x, s + t) == Chain(c, Chain(c, x, s), t)
    decreases |s|
  {
    hide BlockCipher.Process, XorBytes, Whole;
    WholePlus(|s|, |t|, c.blockSize);
    if s == [] {
      assert s + t == t;
    } else {
      var n := c.blockSize;
      WholeStep(|s|, n);
      WholeStep(|s + t|, n);
      var y := c.Process(XorBytes(x, s[..n]));
      assert (s + t)[..n] == s[..n] && (s + t)[n..] == s[n..] + t;
      assert Chain(c, x, s + t) == Chain(c, y, s[n..] + t) && Chain(c, x, s) == Chain(c, y, s[n..]);
      ChainConcat(c, y, s[n..], t);
    }
  }

  lemma ChainOne(c: BlockCipher, x: bytes, b: bytes)
    requires c.blockSize > 0 && |x| == |b| == c.blockSize
    ensures Whole(|b|, c.blockSize) && Chain(c, x, b) == c.Process(XorBytes(x, b))
  {
    assert b[..c.blockSize] == b && b[c.blockSize..] == [];
  }
}
