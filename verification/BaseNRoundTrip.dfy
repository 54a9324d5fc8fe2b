/** `BaseN_Decoder::InitializeDecodingLookupArray`, and what is promised of the table it makes. */
module BaseNRoundTrip {
  import opened Numbers
  import opened Bytes
  import opened BitStrings
  import opened Grouping
  import BaseN
  import BaseNDecoding

  predicate IsLower(c: byte) { 97 <= c <= 122 }

  predicate IsUpper(c: byte) { 65 <= c <= 90 }

  function ToLower(c: byte): byte { if IsUpper(c) then c + 32 else c }

  function ToUpper(c: byte): byte { if IsLower(c) then c - 32 else c }

  /** c is read as the symbol x. */
  predicate Stands(x: byte, c: byte, caseInsensitive: bool) {
    if caseInsensitive && (IsLower(x) || IsUpper(x)) then c == ToUpper(x) || c == ToLower(x) else c == x
  }

  /** The upper and the lower case of a letter. */
  predicate Cases(x: byte, c: byte, k: nat) {
    var upper, lower := 'A' as int + k, 'a' as int + k;
    k < 26 && ((x == upper && c == lower) || (x == lower && c == upper))
  }

  /** A symbol is read as itself, or, if case is ignored, as the other case of its letter. */
  lemma StandsExactly(x: byte, c: byte, caseInsensitive: bool)
    ensures Stands(x, c, caseInsensitive) <==> x == c || (caseInsensitive && exists k :: Cases(x, c, k))
  {
    if caseInsensitive && IsUpper(x) && c == ToLower(x) {
      assert Cases(x, c, x - 65);
    }
    if caseInsensitive && IsLower(x) && c == ToUpper(x) {
      assert Cases(x, c, x - 97);
    }
  }

  /** Where case matters, a distinct alphabet is one without repeated symbols. */
  lemma DistinctIsInjective(alphabet: bytes)
    ensures Distinct(alphabet, false) <==> forall i, j :: 0 <= i < j < |alphabet| ==> alphabet[i] != alphabet[j]
  {
    if Distinct(alphabet, false) {
      forall i, j | 0 <= i < j < |alphabet|
        ensures alphabet[i] != alphabet[j]
      {
        assert Stands(alphabet[i], alphabet[i], false);
      }
    }
  }

  /** c is read as no symbol. */
  predicate Outside(alphabet: bytes, c: byte, caseInsensitive: bool) {
    forall i :: 0 <= i < |alphabet| ==> !Stands(alphabet[i], c, caseInsensitive)
  }

  /** No character is read as two symbols. */
  predicate Distinct(alphabet: bytes, caseInsensitive: bool) {
    forall i, j, c: byte :: 0 <= i < j < |alphabet| && Stands(alphabet[i], c, caseInsensitive)
      ==> !Stands(alphabet[j], c, caseInsensitive)
  }

  /** The entry of c: the last symbol it is read as, or -1. */
  predicate IsEntry(alphabet: bytes, caseInsensitive: bool, c: byte, entry: int) {
    if entry == -1 then Outside(alphabet, c, caseInsensitive)
    else
      && 0 <= entry < |alphabet| && Stands(alphabet[entry], c, caseInsensitive)
      && forall j :: entry < j < |alphabet| ==> !Stands(alphabet[j], c, caseInsensitive)
  }

  ghost predicate IsLookup(alphabet: bytes, caseInsensitive: bool, lookup: seq<int>) {
    |lookup| == 256 && forall c: byte :: IsEntry(alphabet, caseInsensitive, c, lookup[c])
  }

  method InitializeDecodingLookupArray(lookup: array<int>, alphabet: bytes, base: nat, caseInsensitive: bool)
    requires lookup.Length == 256 && base <= |alphabet|
    modifies lookup
    ensures IsLookup(alphabet[..base], caseInsensitive, lookup[..])
  {
    for c := 0 to 256
      invariant forall d :: 0 <= d < c ==> lookup[d] == -1
    {
      lookup[c] := -1;
    }
    for i := 0 to base
      invariant forall c: byte :: IsEntry(alphabet[..i], caseInsensitive, c, lookup[c])
    {
      ghost var was := lookup[..];
      if caseInsensitive && (IsLower(alphabet[i]) || IsUpper(alphabet[i])) {
        lookup[ToUpper(alphabet[i])] := i;
        lookup[ToLower(alphabet[i])] := i;
      } else {
        lookup[alphabet[i]] := i;
      }
      forall c: byte
        ensures IsEntry(alphabet[..i + 1], caseInsensitive, c, lookup[c])
      {
        assert IsEntry(alphabet[..i], caseInsensitive, c, was[c]);
        assert lookup[c] == if Stands(alphabet[i], c, caseInsensitive) then i else was[c];
        NextEntry(alphabet, i, caseInsensitive, c, was[c]);
      }
    }
  }

  /** One more symbol takes over the characters that stand for it. */
  lemma NextEntry(alphabet: bytes, i: nat, caseInsensitive: bool, c: byte, entry: int)
    requires i < |alphabet| && IsEntry(alphabet[..i], caseInsensitive, c, entry)
    ensures IsEntry(alphabet[..i + 1], caseInsensitive, c, if Stands(alphabet[i], c, caseInsensitive) then i else entry)
  {
    hide Stands;
    var a := alphabet[..i + 1];
    assert forall j :: 0 <= j < i ==> a[j] == alphabet[..i][j];
    assert a[i] == alphabet[i];
  }

  /** A symbol is read as itself or as a later one. */
  lemma SymbolEntry(alphabet: bytes, caseInsensitive: bool, lookup: seq<int>, i: nat)
    requires IsLookup(alphabet, caseInsensitive, lookup) && i < |alphabet|
    ensures i <= lookup[alphabet[i]] < |alphabet|
    ensures forall j :: i < j < |alphabet| && Stands(alphabet[j], alphabet[i], caseInsensitive) ==> j <= lookup[alphabet[i]]
  {
    var c := alphabet[i];
    assert Stands(alphabet[i], c, caseInsensitive);
    assert IsEntry(alphabet, caseInsensitive, c, lookup[c]);
    hide Stands;
    assert !Outside(alphabet, c, caseInsensitive);
  }

  /** In the table of a distinct alphabet, every symbol is its own digit. */
  lemma SymbolsAreDigits(alphabet: bytes, caseInsensitive: bool, lookup: seq<int>, i: nat)
    requires IsLookup(alphabet, caseInsensitive, lookup) && Distinct(alphabet, caseInsensitive) && i < |alphabet|
    ensures lookup[alphabet[i]] == i
  {
    var c := alphabet[i];
    assert Stands(alphabet[i], c, caseInsensitive);
    assert IsEntry(alphabet, caseInsensitive, c, lookup[c]);
    hide Stands;
    SymbolEntry(alphabet, caseInsensitive, lookup, i);
  }

  lemma IsLookupTable(alphabet: bytes, caseInsensitive: bool, lookup: seq<int>, k: nat)
    requires IsLookup(alphabet, caseInsensitive, lookup) && |alphabet| == Pow2(k)
    ensures BaseNDecoding.LookupTable(lookup, k)
  {
    hide Stands, Outside, Pow2;
    forall c | 0 <= c < 256
      ensures lookup[c] < Pow2(k)
    {
      assert IsEntry(alphabet, caseInsensitive, c, lookup[c]);
    }
  }

  /** The digits that the symbols of digits are read as. */
  function Reread(alphabet: bytes, caseInsensitive: bool, lookup: seq<int>, d: seq<nat>): (e: seq<nat>)
    requires IsLookup(alphabet, caseInsensitive, lookup)
    requires forall i :: 0 <= i < |d| ==> d[i] < |alphabet|
    ensures |e| == |d| && forall i :: 0 <= i < |d| ==> e[i] == lookup[alphabet[d[i]]] && e[i] < |alphabet|
  {
    if d == [] then []
    else
      SymbolEntry(alphabet, caseInsensitive, lookup, d[|d| - 1]);
      Reread(alphabet, caseInsensitive, lookup, d[..|d| - 1]) + [lookup[alphabet[d[|d| - 1]]]]
  }

  lemma RereadDistinct(alphabet: bytes, caseInsensitive: bool, lookup: seq<int>, d: seq<nat>)
    requires IsLookup(alphabet, caseInsensitive, lookup) && Distinct(alphabet, caseInsensitive)
    requires forall i :: 0 <= i < |d| ==> d[i] < |alphabet|
    ensures Reread(alphabet, caseInsensitive, lookup, d) == d
  {
    hide IsLookup, Distinct, Reread;
    forall i | 0 <= i < |d|
      ensures Reread(alphabet, caseInsensitive, lookup, d)[i] == d[i]
    {
      SymbolsAreDigits(alphabet, caseInsensitive, lookup, d[i]);
    }
  }

  /** Decoding the symbols of digits gives the bits of what they are read as. */
  lemma {:induction false} AcceptedSymbols(alphabet: bytes, caseInsensitive: bool, lookup: seq<int>, k: nat, d: seq<nat>)
    requires IsLookup(alphabet, caseInsensitive, lookup) && |alphabet| <= 256
    requires forall i :: 0 <= i < |d| ==> d[i] < |alphabet|
    ensures |lookup| == 256
    ensures BaseNDecoding.Accepted(lookup, k, BaseN.Looked(alphabet, d)) == Spread(Reread(alphabet, caseInsensitive, lookup, d), k)
  {
    hide IsLookup, ToBits, Spread, Reread;
    TableSize(alphabet, caseInsensitive, lookup);
    if d == [] {
      SpreadNone(k);
    } else {
      var n := |d| - 1;
      AcceptedSymbols(alphabet, caseInsensitive, lookup, k, d[..n]);
      assert BaseN.Looked(alphabet, d)[..n] == BaseN.Looked(alphabet, d[..n]);
      assert Reread(alphabet, caseInsensitive, lookup, d)[..n] == Reread(alphabet, caseInsensitive, lookup, d[..n]);
      SpreadLast(Reread(alphabet, caseInsensitive, lookup, d), k);
    }
  }

  lemma TableSize(alphabet: bytes, caseInsensitive: bool, lookup: seq<int>)
    requires IsLookup(alphabet, caseInsensitive, lookup)
    ensures |lookup| == 256
  {
  }

  /** Characters outside the alphabet are skipped. */
  lemma {:induction false} OutsideSkipped(alphabet: bytes, caseInsensitive: bool, lookup: seq<int>, k: nat, s: bytes)
    requires IsLookup(alphabet, caseInsensitive, lookup)
    requires forall c <- s :: Outside(alphabet, c, caseInsensitive)
    ensures BaseNDecoding.Accepted(lookup, k, s) == []
  {
    if s != [] {
      hide Stands;
      OutsideSkipped(alphabet, caseInsensitive, lookup, k, s[..|s| - 1]);
      var c := s[|s| - 1];
      assert Outside(alphabet, c, caseInsensitive) && IsEntry(alphabet, caseInsensitive, c, lookup[c]);
    }
  }

  /** Grouping with such a separator does not change what is accepted. */
  lemma {:induction false} GroupedAccepted(lookup: seq<int>, k: nat, separator: bytes, size: nat, s: bytes)
    requires |lookup| == 256 && BaseNDecoding.Accepted(lookup, k, separator) == []
    ensures BaseNDecoding.Accepted(lookup, k, Grouped(separator, size, s)) == BaseNDecoding.Accepted(lookup, k, s)
    decreases |s|
  {
    hide BaseNDecoding.Accepted;
    if size > 0 && |s| > size {
      var rest := s[size..];
      GroupedAccepted(lookup, k, separator, size, rest);
      BaseNDecoding.AcceptedConcat(lookup, k, s[..size] + separator, Grouped(separator, size, rest));
      BaseNDecoding.AcceptedConcat(lookup, k, s[..size], separator);
      BaseNDecoding.AcceptedConcat(lookup, k, s[..size], rest);
      assert s[..size] + rest == s;
    }
  }

  /** Grouping and a terminator are skipped. */
  lemma WholeAccepted(alphabet: bytes, caseInsensitive: bool, lookup: seq<int>, k: nat, separator: bytes, size: nat,
                      terminator: bytes, text: bytes)
    requires IsLookup(alphabet, caseInsensitive, lookup)
    requires forall c <- separator :: Outside(alphabet, c, caseInsensitive)
    requires forall c <- terminator :: Outside(alphabet, c, caseInsensitive)
    ensures |lookup| == 256
    ensures BaseNDecoding.Accepted(lookup, k, Grouped(separator, size, text) + terminator) == BaseNDecoding.Accepted(lookup, k, text)
  {
    hide *;
    TableSize(alphabet, caseInsensitive, lookup);
    OutsideSkipped(alphabet, caseInsensitive, lookup, k, separator);
    OutsideSkipped(alphabet, caseInsensitive, lookup, k, terminator);
    GroupedAccepted(lookup, k, separator, size, text);
    BaseNDecoding.AcceptedConcat(lookup, k, Grouped(separator, size, text), terminator);
  }

  /**
   * Encoding, grouping and decoding give the message back: in any base, with any padding, separator
   * and terminator that are outside the alphabet, or without.
   */
  lemma RoundTrip(alphabet: bytes, caseInsensitive: bool, lookup: seq<int>, k: nat, padding: int,
                  block: nat, separator: bytes, size: nat, terminator: bytes, message: bytes)
    requires 1 <= k < 8 && |alphabet| == Pow2(k) && block > 0
    requires IsLookup(alphabet, caseInsensitive, lookup) && Distinct(alphabet, caseInsensitive)
    requires padding == -1 || (0 <= padding < 256 && Outside(alphabet, padding, caseInsensitive))
    requires forall c <- separator :: Outside(alphabet, c, caseInsensitive)
    requires forall c <- terminator :: Outside(alphabet, c, caseInsensitive)
    ensures BaseNDecoding.LookupTable(lookup, k)
    ensures BaseNDecoding.Decoded(lookup, k,
              Grouped(separator, size, BaseN.Encoded(alphabet, k, padding, block, message)) + terminator) == message
  {
    hide *;
    IsLookupTable(alphabet, caseInsensitive, lookup, k);
    var all := Spread(message, 8);
    var text := BaseN.Encoded(alphabet, k, padding, block, message);
    EncodedAccepted(alphabet, caseInsensitive, lookup, k, padding, block, message);
    WholeAccepted(alphabet, caseInsensitive, lookup, k, separator, size, terminator, text);
    RereadDistinct(alphabet, caseInsensitive, lookup, Digits(all, k));
    var n := |Spread(Digits(all, k), k)| - |all|;
    SpreadDigits(all, k);
    OctetsOfSpread(message, ZeroBits(n));
    DecodedIs(lookup, k, Grouped(separator, size, text) + terminator, all + ZeroBits(n));
  }

  lemma DecodedIs(lookup: seq<int>, k: nat, s: bytes, p: bits)
    requires |lookup| == 256 && BaseNDecoding.Accepted(lookup, k, s) == p
    ensures BaseNDecoding.Decoded(lookup, k, s) == Octets(p)
  {
  }

  /** What is accepted of an encoding: the bits of its digits, each as its symbol is read. */
  lemma EncodedAccepted(alphabet: bytes, caseInsensitive: bool, lookup: seq<int>, k: nat, padding: int,
                        block: nat, message: bytes)
    requires 0 < k < 8 && |alphabet| == Pow2(k) && block > 0
    requires IsLookup(alphabet, caseInsensitive, lookup)
    requires padding == -1 || (0 <= padding < 256 && Outside(alphabet, padding, caseInsensitive))
    ensures |lookup| == 256
    ensures var d := Digits(Spread(message, 8), k);
      && (forall i :: 0 <= i < |d| ==> d[i] < |alphabet|)
      && BaseNDecoding.Accepted(lookup, k, BaseN.Encoded(alphabet, k, padding, block, message))
         == Spread(Reread(alphabet, caseInsensitive, lookup, d), k)
  {
    hide Digits, IsLookup, Outside, Spread, BaseNDecoding.Accepted, Reread;
    TableSize(alphabet, caseInsensitive, lookup);
    var p := Spread(message, 8);
    DigitsBound(p, k);
    Pow2Monotone(k, 8);
    Pow2OfEight();
    AcceptedSymbols(alphabet, caseInsensitive, lookup, k, Digits(p, k));
    if padding != -1 {
      var s := BaseN.Symbols(alphabet, k, p);
      var pads := BaseN.Padding(BaseN.Missing(|s|, block), padding);
      OutsideSkipped(alphabet, caseInsensitive, lookup, k, pads);
      BaseNDecoding.AcceptedConcat(lookup, k, s, pads);
    }
  }

  /** Every message comes back. */
  ghost predicate ReadsBack(alphabet: bytes, lookup: seq<int>, k: nat, padding: int, block: nat, separator: bytes, size: nat,
                            terminator: bytes)
    requires 0 < k && |alphabet| == Pow2(k) && -1 <= padding < 256 && block > 0 && |lookup| == 256
  {
    forall message: bytes ::
      BaseNDecoding.Decoded(lookup, k, Grouped(separator, size, BaseN.Encoded(alphabet, k, padding, block, message)) + terminator)
      == message
  }

  /** Every message comes back if and only if no character is read as two symbols, case ignored or not. */
  lemma RoundTripExactly(alphabet: bytes, caseInsensitive: bool, lookup: seq<int>, k: nat, padding: int,
                         block: nat, separator: bytes, size: nat, terminator: bytes)
    requires 1 <= k < 8 && |alphabet| == Pow2(k) && block > 0
    requires IsLookup(alphabet, caseInsensitive, lookup)
    requires padding == -1 || (0 <= padding < 256 && Outside(alphabet, padding, caseInsensitive))
    requires forall c <- separator :: Outside(alphabet, c, caseInsensitive)
    requires forall c <- terminator :: Outside(alphabet, c, caseInsensitive)
    ensures |lookup| == 256
    ensures ReadsBack(alphabet, lookup, k, padding, block, separator, size, terminator) <==> Distinct(alphabet, caseInsensitive)
  {
    TableSize(alphabet, caseInsensitive, lookup);
    hide Distinct, IsLookup, Outside, BaseNDecoding.Decoded, BaseN.Encoded, Grouped;
    if Distinct(alphabet, caseInsensitive) {
      forall message: bytes
        ensures BaseNDecoding.Decoded(lookup, k,
                  Grouped(separator, size, BaseN.Encoded(alphabet, k, padding, block, message)) + terminator) == message
      {
        RoundTrip(alphabet, caseInsensitive, lookup, k, padding, block, separator, size, terminator, message);
      }
    } else {
      var i := Clash(alphabet, caseInsensitive, lookup);
      ClashLoses(alphabet, caseInsensitive, lookup, k, padding, block, separator, size, terminator, i);
    }
  }

  /** A symbol that is read as a later one. */
  lemma Clash(alphabet: bytes, caseInsensitive: bool, lookup: seq<int>) returns (i: nat)
    requires IsLookup(alphabet, caseInsensitive, lookup) && !Distinct(alphabet, caseInsensitive)
    ensures i < |alphabet| && i < lookup[alphabet[i]] < |alphabet|
  {
    hide IsLookup;
    var x, j, c: byte :| 0 <= x < j < |alphabet| && Stands(alphabet[x], c, caseInsensitive) && Stands(alphabet[j], c, caseInsensitive);
    StandsTogether(alphabet[x], alphabet[j], c, caseInsensitive);
    SymbolEntry(alphabet, caseInsensitive, lookup, x);
    i := x;
  }

  lemma StandsTogether(x: byte, y: byte, c: byte, caseInsensitive: bool)
    requires Stands(x, c, caseInsensitive) && Stands(y, c, caseInsensitive)
    ensures Stands(y, x, caseInsensitive)
  {
  }

  /** The message whose first digit is that symbol's does not come back. */
  lemma ClashLoses(alphabet: bytes, caseInsensitive: bool, lookup: seq<int>, k: nat, padding: int, block: nat,
                   separator: bytes, size: nat, terminator: bytes, i: nat)
    requires 1 <= k < 8 && |alphabet| == Pow2(k) && block > 0
    requires IsLookup(alphabet, caseInsensitive, lookup)
    requires padding == -1 || (0 <= padding < 256 && Outside(alphabet, padding, caseInsensitive))
    requires forall c <- separator :: Outside(alphabet, c, caseInsensitive)
    requires forall c <- terminator :: Outside(alphabet, c, caseInsensitive)
    requires i < |alphabet| && i < lookup[alphabet[i]] < |alphabet|
    ensures |lookup| == 256
    ensures BaseNDecoding.Decoded(lookup, k,
              Grouped(separator, size, BaseN.Encoded(alphabet, k, padding, block, OneByte(i, k))) + terminator) != OneByte(i, k)
  {
    hide *;
    var m := OneByte(i, k);
    var text := BaseN.Encoded(alphabet, k, padding, block, m);
    EncodedAccepted(alphabet, caseInsensitive, lookup, k, padding, block, m);
    WholeAccepted(alphabet, caseInsensitive, lookup, k, separator, size, terminator, text);
    OneByteDigits(i, k);
    var d := Digits(Spread(m, 8), k);
    var e := Reread(alphabet, caseInsensitive, lookup, d);
    SpreadDigits(Spread(m, 8), k);
    OneByteSpread(m);
    SameSpread(d, e, k);
    assert d[0] == i;
    DecodedIs(lookup, k, Grouped(separator, size, text) + terminator, Spread(e, k));
    if Octets(Spread(e, k)) == m {
      FirstDigit(e, k, i);
    }
  }

  lemma OneByteSpread(m: bytes)
    requires |m| == 1
    ensures |Spread(m, 8)| == 8
  {
    assert m[..0] == [];
  }

  /** As many digits take as many bits. */
  lemma SameSpread(d: seq<nat>, e: seq<nat>, k: nat)
    requires |d| == |e| && k > 0
    ensures |Spread(d, k)| == |Spread(e, k)|
  {
    hide Spread;
    AtOrder(|Spread(d, k)|, k, |d|, 0, |Spread(e, k)|, |e|);
  }

  /** The first digit can be told from the first byte. */
  lemma FirstDigit(e: seq<nat>, k: nat, i: nat)
    requires 1 <= k < 8 && i < Pow2(k) && e != [] && e[0] < Pow2(k)
    requires |Spread(e, k)| >= 8 && Octets(Spread(e, k)) == OneByte(i, k)
    ensures e[0] == i
  {
    hide Spread, ToBits, FromBits, Octets, ZeroBits, Pow2, At;
    var p := Spread(e, k);
    OctetsStep(p);
    var q := ToBits(i, k) + ZeroBits(8 - k);
    assert FromBits(p[..8]) == OneByte(i, k)[0] == FromBits(q);
    ToFromBits(p[..8]);
    ToFromBits(q);
    assert p[..8] == q;
    DigitFirst(e, k);
    assert p[..k] == ToBits(i, k) == ToBits(e[0], k);
    FromToBits(i, k);
    FromToBits(e[0], k);
  }

  lemma DigitFirst(e: seq<nat>, k: nat)
    requires e != []
    ensures |Spread(e, k)| >= k && Spread(e, k)[..k] == ToBits(e[0], k)
  {
    hide ToBits, At;
    var one := e[..1];
    assert e == one + e[1..] && one == [e[0]] && one[..0] == [];
    assert Spread(one, k) == Spread([], k) + ToBits(e[0], k);
    SpreadNone(k);
    SpreadConcat(one, e[1..], k);
  }

  /**
   * A distinct alphabet is needed: if a symbol occurs twice, two messages have the same encoding,
   * and no decoder gives back both.
   */
  lemma RepeatedSymbolLoses(alphabet: bytes, k: nat, padding: int, block: nat, i: nat, j: nat)
    returns (m: bytes, n: bytes)
    requires 1 <= k < 8 && |alphabet| == Pow2(k) && block > 0 && -1 <= padding < 256
    requires i < j < |alphabet| && alphabet[i] == alphabet[j]
    ensures m != n && BaseN.Encoded(alphabet, k, padding, block, m) == BaseN.Encoded(alphabet, k, padding, block, n)
  {
    hide *;
    m, n := OneByte(i, k), OneByte(j, k);
    OneByteDigits(i, k);
    OneByteDigits(j, k);
    assert Digits(Spread(m, 8), k)[0] == i && Digits(Spread(n, 8), k)[0] == j;
    DigitsBound(Spread(m, 8), k);
    DigitsBound(Spread(n, 8), k);
    SymbolsEqual(alphabet, k, m, n);
    EncodedEqual(alphabet, k, padding, block, m, n);
  }

  /** A message whose first digit is i, and whose others are zero. */
  function OneByte(i: nat, k: nat): (m: bytes)
    requires k < 8 && i < Pow2(k)
    ensures |m| == 1
  {
    FromBitsBound(ToBits(i, k) + ZeroBits(8 - k));
    Pow2OfEight();
    [FromBits(ToBits(i, k) + ZeroBits(8 - k))]
  }

  lemma OneByteDigits(i: nat, k: nat)
    requires 0 < k < 8 && i < Pow2(k)
    ensures Digits(Spread(OneByte(i, k), 8), k) == [i] + Digits(ZeroBits(8 - k), k)
    ensures FromBits(ToBits(i, k)) == i
  {
    hide Digits, FromBits, ToBits, Spread, ZeroBits, Pow2;
    var p := ToBits(i, k) + ZeroBits(8 - k);
    SpreadOne(p);
    FromToBits(i, k);
    DigitsStep(p, k);
    assert p[..k] == ToBits(i, k) && p[k..] == ZeroBits(8 - k);
  }

  lemma SymbolsEqual(alphabet: bytes, k: nat, m: bytes, n: bytes)
    requires 0 < k && |alphabet| == Pow2(k)
    requires var d, e := Digits(Spread(m, 8), k), Digits(Spread(n, 8), k);
      |d| == |e| && forall x :: 0 <= x < |d| && d[x] < |alphabet| && e[x] < |alphabet| ==> alphabet[d[x]] == alphabet[e[x]]
    ensures BaseN.Symbols(alphabet, k, Spread(m, 8)) == BaseN.Symbols(alphabet, k, Spread(n, 8))
  {
    hide Digits, Spread;
    DigitsBound(Spread(m, 8), k);
    DigitsBound(Spread(n, 8), k);
  }

  lemma EncodedEqual(alphabet: bytes, k: nat, padding: int, block: nat, m: bytes, n: bytes)
    requires 0 < k && |alphabet| == Pow2(k) && -1 <= padding < 256 && block > 0
    requires BaseN.Symbols(alphabet, k, Spread(m, 8)) == BaseN.Symbols(alphabet, k, Spread(n, 8))
    ensures BaseN.Encoded(alphabet, k, padding, block, m) == BaseN.Encoded(alphabet, k, padding, block, n)
  {
    hide BaseN.Symbols, Spread;
  }
}
