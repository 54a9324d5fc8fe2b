/** Elements of BER, and the re-encoder that makes indefinite lengths definite, on octet strings. */
module BerTrees {
  import opened Numbers
  import opened Bytes
  import opened Wrappers
  import opened Ber

  /**
   * An element with its length octets as they are written, `None` for an indefinite length. A
   * primitive element, or one whose contents are not looked into, is a `Prim`.
   */
  datatype Element =
    | Prim(tag: byte, length: bytes, content: bytes)
    | Cons(tag: byte, form: Option<bytes>, children: Elements)

  datatype Elements = End | Then(first: Element, rest: Elements)

  predicate Constructed(tag: byte) {
    tag / CONSTRUCTED % 2 == 1
  }

  /** Bit 6 of the identifier octet tells (section 8.1.2.5 of X.690). */
  lemma ConstructedBit(tag: byte)
    ensures Constructed(tag) <==> tag % 64 >= 32
  {
  }

  /** An element as octets. */
  function Octets(e: Element): (s: bytes)
    ensures |s| >= 1 && s[0] == e.tag
  {
    match e
    case Prim(tag, length, content) => [tag] + length + content
    case Cons(tag, Some(length), children) => [tag] + length + OctetsAll(children)
    case Cons(tag, None, children) => [tag, 0x80] + OctetsAll(children) + [0, 0]
  }

  function OctetsAll(es: Elements): bytes {
    match es
    case End => []
    case Then(first, rest) => Octets(first) + OctetsAll(rest)
  }

  /** The end-of-contents octets. */
  predicate IsEnd(s: bytes) {
    |s| >= 2 && s[0] == 0 && s[1] == 0
  }

  /** These are length octets for n, in any definite form. */
  predicate LengthOf(length: bytes, n: nat) {
    ParseLength(length) == Some((Definite(n), []))
  }

  /**
   * X.690, section 8.1, with tags of one octet: the length is that of the contents, and no child looks
   * like the end of them.
   */
  predicate WellFormed(e: Element) {
    match e
    case Prim(_, length, content) => LengthOf(length, |content|)
    case Cons(tag, Some(length), children) =>
      Constructed(tag) && LengthOf(length, |OctetsAll(children)|) && WellFormedAll(children)
    case Cons(tag, None, children) =>
      Constructed(tag) && WellFormedAll(children) && NoneIsEnd(children)
  }

  predicate WellFormedAll(es: Elements) {
    es.Then? ==> WellFormed(es.first) && WellFormedAll(es.rest)
  }

  predicate NoneIsEnd(es: Elements) {
    es.Then? ==> !IsEnd(Octets(es.first)) && NoneIsEnd(es.rest)
  }

  /** `DERReencode`: the element at the front re-encoded, and what follows it. */
  function Reencode(s: bytes): (r: Option<(bytes, bytes)>)
    ensures r.Some? ==> |r.value.1| < |s|
    decreases |s|, 0
  {
    if s == [] then None
    else match ParseLength(s[1..])
      case None => None
      case Some((Definite(n), rest)) =>
        if n > |rest| then None else Some(([s[0]] + DerLength(n) + rest[..n], rest[n..]))
      case Some((Indefinite, rest)) =>
        if !Constructed(s[0]) then None
        else match ReencodeAll(rest)
          case None => None
          case Some((c, after)) => Some(([s[0]] + DerLength(|c| % LWORD) + c, after[2..]))
  }

  /** Elements up to the end-of-contents octets, which are left. */
  function ReencodeAll(s: bytes): (r: Option<(bytes, bytes)>)
    ensures r.Some? ==> |r.value.1| <= |s| && IsEnd(r.value.1)
    decreases |s|, 1
  {
    if IsEnd(s) then Some(([], s))
    else match Reencode(s)
      case None => None
      case Some((out, rest)) =>
        match ReencodeAll(rest)
        case None => None
        case Some((more, after)) => Some((out + more, after))
  }

  /** What re-encoding makes of an element. */
  function Normalize(e: Element): (n: Element)
    ensures n.tag == e.tag
  {
    match e
    case Prim(tag, _, content) => Prim(tag, DerLength(|content| % LWORD), content)
    case Cons(tag, Some(_), children) => Cons(tag, Some(DerLength(|OctetsAll(children)| % LWORD)), children)
    case Cons(tag, None, children) =>
      var all := NormalizeAll(children);
      Cons(tag, Some(DerLength(|OctetsAll(all)| % LWORD)), all)
  }

  function NormalizeAll(es: Elements): Elements {
    match es
    case End => End
    case Then(first, rest) => Then(Normalize(first), NormalizeAll(rest))
  }

  /** The values of an element, whatever its lengths look like. */
  datatype Tree = Leaf(tag: byte, content: bytes) | Node(tag: byte, children: Forest)

  datatype Forest = Empty | And(first: Tree, rest: Forest)

  function ValueTree(e: Element): Tree {
    match e
    case Prim(tag, _, content) => Leaf(tag, content)
    case Cons(tag, _, children) => Node(tag, ValueForest(children))
  }

  function ValueForest(es: Elements): Forest {
    match es
    case End => Empty
    case Then(first, rest) => And(ValueTree(first), ValueForest(rest))
  }

  lemma {:induction false} NormalizeKeepsValue(e: Element)
    ensures ValueTree(Normalize(e)) == ValueTree(e)
  {
    if e.Cons? && e.form.None? {
      NormalizeKeepsValues(e.children);
    }
  }

  lemma {:induction false} NormalizeKeepsValues(es: Elements)
    ensures ValueForest(NormalizeAll(es)) == ValueForest(es)
  {
    if es.Then? {
      NormalizeKeepsValue(es.first);
      NormalizeKeepsValues(es.rest);
    }
  }

  /** Length octets are read the same whatever follows. */
  lemma LengthPrefix(length: bytes, n: nat, rest: bytes)
    requires LengthOf(length, n)
    ensures n < LWORD && length != [] && length[0] != 0x80
    ensures ParseLength(length + rest) == Some((Definite(n), rest))
  {
    if length[0] > 0x80 {
      hide Value;
      LongLengthExactly(length);
      LongLengthExactly(length + rest);
      var count := length[0] - 0x80;
      assert |length| == 1 + count;
      assert (length + rest)[1..1 + count] == length[1..1 + count];
    }
  }

  /** A well-formed element is consumed, no more and no less, and its normal form comes out. */
  lemma {:induction false} ReencodesElement(e: Element, rest: bytes)
    requires WellFormed(e)
    ensures Reencode(Octets(e) + rest) == Some((Octets(Normalize(e)), rest))
    decreases e
  {
    hide Reencode, ReencodeAll, LengthOf, ParseLength, DerLength;
    match e
    case Prim(tag, length, content) =>
      DefiniteElement(tag, length, content, rest);
    case Cons(tag, Some(length), children) =>
      DefiniteElement(tag, length, OctetsAll(children), rest);
    case Cons(tag, None, children) =>
      ReencodesElements(children, [0, 0] + rest);
      IndefiniteElement(tag, OctetsAll(children), OctetsAll(NormalizeAll(children)), rest);
  }

  lemma DefiniteElement(tag: byte, length: bytes, content: bytes, rest: bytes)
    requires LengthOf(length, |content|)
    ensures |content| < LWORD
    ensures Reencode([tag] + length + content + rest) == Some(([tag] + DerLength(|content|) + content, rest))
  {
    hide ParseLength, LengthOf, DerLength, ReencodeAll;
    LengthPrefix(length, |content|, content + rest);
    var s := [tag] + length + content + rest;
    assert s[1..] == length + (content + rest);
    assert (content + rest)[..|content|] == content && (content + rest)[|content|..] == rest;
  }

  lemma IndefiniteElement(tag: byte, contents: bytes, out: bytes, rest: bytes)
    requires Constructed(tag) && ReencodeAll(contents + ([0, 0] + rest)) == Some((out, [0, 0] + rest))
    ensures Reencode([tag, 0x80] + contents + [0, 0] + rest) == Some(([tag] + DerLength(|out| % LWORD) + out, rest))
  {
    hide DerLength, ReencodeAll;
    var s := [tag, 0x80] + contents + [0, 0] + rest;
    var t := s[1..];
    assert t[0] == 0x80 && t[1..] == contents + ([0, 0] + rest);
    assert ([0, 0] + rest)[2..] == rest;
  }

  lemma {:induction false} ReencodesElements(es: Elements, after: bytes)
    requires WellFormedAll(es) && NoneIsEnd(es) && IsEnd(after)
    ensures ReencodeAll(OctetsAll(es) + after) == Some((OctetsAll(NormalizeAll(es)), after))
    decreases es
  {
    hide Octets, Reencode, IsEnd, WellFormed, Normalize;
    match es
    case End =>
      assert [] + after == after;
    case Then(first, rest) =>
      ReencodesElement(first, OctetsAll(rest) + after);
      ReencodesElements(rest, after);
      NotAtEnd(first, OctetsAll(rest) + after);
      assert OctetsAll(es) + after == Octets(first) + (OctetsAll(rest) + after);
  }

  /** Two octets tell the end of the contents from a child. */
  lemma NotAtEnd(e: Element, after: bytes)
    requires WellFormed(e) && !IsEnd(Octets(e))
    ensures !IsEnd(Octets(e) + after)
  {
    assert |Octets(e)| >= 2 by {
      match e
      case Prim(_, length, content) => LengthPrefix(length, |content|, []);
      case Cons(_, Some(length), children) => LengthPrefix(length, |OctetsAll(children)|, []);
      case Cons(_, None, _) =>
    }
  }

  /** Octets that look like an element of definite length. */
  function Front(s: bytes, n: nat, rest: bytes): (e: Element)
    requires s != [] && |rest| < |s| && n <= |rest|
  {
    Prim(s[0], s[1..|s| - |rest|], rest[..n])
  }

  /** The element at the front of octets that the re-encoder accepts. */
  function Parsed(s: bytes): (e: Element)
    requires Reencode(s).Some?
    decreases |s|, 0
  {
    match ParseLength(s[1..])
    case Some((Definite(n), rest)) => Front(s, n, rest)
    case Some((Indefinite, rest)) => Cons(s[0], None, ParsedAll(rest))
  }

  function ParsedAll(s: bytes): (es: Elements)
    requires ReencodeAll(s).Some?
    decreases |s|, 1
  {
    if IsEnd(s) then End else Then(Parsed(s), ParsedAll(Reencode(s).value.1))
  }

  /**
   * Only well-formed elements are accepted: whatever is consumed is one, and what comes out is its
   * normal form.
   */
  lemma {:induction false} AcceptedIsElement(s: bytes)
    requires Reencode(s).Some?
    ensures WellFormed(Parsed(s)) && s == Octets(Parsed(s)) + Reencode(s).value.1
    ensures Reencode(s).value.0 == Octets(Normalize(Parsed(s)))
    decreases |s|, 0
  {
    hide ParseLength, ReencodeAll, ParsedAll, LengthOf, DerLength, OctetsAll, NormalizeAll, WellFormedAll, NoneIsEnd;
    match ParseLength(s[1..])
    case Some((Definite(n), rest)) =>
      DefiniteAccepted(s, n, rest);
    case Some((Indefinite, rest)) =>
      AcceptedAreElements(rest);
      IndefiniteAccepted(s, rest);
  }

  lemma DefiniteAccepted(s: bytes, n: nat, rest: bytes)
    requires s != [] && ParseLength(s[1..]) == Some((Definite(n), rest)) && n <= |rest|
    ensures LengthOf(s[1..|s| - |rest|], n)
    ensures s == Octets(Front(s, n, rest)) + rest[n..]
  {
    hide ParseLength, LengthOf;
    LengthIsInFront(s[1..]);
    SplitDefinite(s, n, rest);
    LengthAlone(s[1..|s| - |rest|], n, rest);
  }

  /** Tag, length, contents and what follows. */
  lemma SplitDefinite(s: bytes, n: nat, rest: bytes)
    requires s != [] && |rest| < |s| && n <= |rest| && s[1..] == s[1..][..|s[1..]| - |rest|] + rest
    ensures s[1..] == s[1..|s| - |rest|] + rest
    ensures s == [s[0]] + s[1..|s| - |rest|] + rest[..n] + rest[n..]
  {
    var length := s[1..|s| - |rest|];
    assert s[1..][..|s[1..]| - |rest|] == length;
    assert s == [s[0]] + s[1..];
    assert rest == rest[..n] + rest[n..];
    Regroup(length, rest[..n], rest[n..]);
    Regroup([s[0]] + length, rest[..n], rest[n..]);
    Regroup([s[0]], length, rest);
  }

  lemma Regroup(p: bytes, q: bytes, r: bytes)
    ensures p + (q + r) == p + q + r
  {
  }

  lemma LengthIsInFront(s: bytes)
    requires ParseLength(s).Some?
    ensures var rest := ParseLength(s).value.1;
      |rest| < |s| && s == s[..|s| - |rest|] + rest
  {
  }

  /** Nothing but the length octets was read. */
  lemma LengthAlone(length: bytes, n: nat, rest: bytes)
    requires ParseLength(length + rest) == Some((Definite(n), rest))
    ensures LengthOf(length, n)
  {
    var s := length + rest;
    assert s[0] == length[0];
    if s[0] > 0x80 {
      hide Value;
      var count := s[0] - 0x80;
      LongLengthExactly(s);
      assert |length| == 1 + count;
      LongLengthExactly(length);
      assert length[1..1 + count] == s[1..1 + count] && length[1 + count..] == [];
    } else {
      assert |length| == 1;
      assert length[1..] == [];
    }
  }

  lemma IndefiniteAccepted(s: bytes, rest: bytes)
    requires s != [] && ParseLength(s[1..]) == Some((Indefinite, rest)) && Reencode(s).Some?
    requires ReencodeAll(rest).Some? && rest == OctetsAll(ParsedAll(rest)) + ReencodeAll(rest).value.1
    ensures s == Octets(Cons(s[0], None, ParsedAll(rest))) + Reencode(s).value.1
  {
    hide *;
    SecondOctet(s[1..]);
    IndefiniteSteps(s, rest);
    Rejoin(s, rest, OctetsAll(ParsedAll(rest)), ReencodeAll(rest).value.1);
  }

  /** What an indefinite element is as octets, and what follows it. */
  lemma IndefiniteSteps(s: bytes, rest: bytes)
    requires s != [] && ParseLength(s[1..]) == Some((Indefinite, rest)) && Reencode(s).Some?
    ensures ReencodeAll(rest).Some? && IsEnd(ReencodeAll(rest).value.1) && |ReencodeAll(rest).value.1| >= 2
    ensures Reencode(s).value.1 == ReencodeAll(rest).value.1[2..]
    ensures Octets(Cons(s[0], None, ParsedAll(rest))) == [s[0], 0x80] + OctetsAll(ParsedAll(rest)) + [0, 0]
  {
    hide ParseLength, ReencodeAll, ParsedAll, OctetsAll, DerLength;
  }

  lemma Rejoin(s: bytes, rest: bytes, all: bytes, after: bytes)
    requires |s| >= 2 && s[1] == 0x80 && s[1..][1..] == rest && rest == all + after && IsEnd(after)
    ensures s == [s[0], 0x80] + all + [0, 0] + after[2..]
  {
    assert after == [0, 0] + after[2..];
    assert s == [s[0], s[1]] + rest;
  }

  lemma SecondOctet(s: bytes)
    requires ParseLength(s).Some? && ParseLength(s).value.0 == Indefinite
    ensures s != [] && s[0] == 0x80 && ParseLength(s).value.1 == s[1..]
  {
  }

  lemma {:induction false} AcceptedAreElements(s: bytes)
    requires ReencodeAll(s).Some?
    ensures var es := ParsedAll(s);
      WellFormedAll(es) && NoneIsEnd(es) && s == OctetsAll(es) + ReencodeAll(s).value.1
      && ReencodeAll(s).value.0 == OctetsAll(NormalizeAll(es))
    decreases |s|, 1
  {
    hide Reencode, Parsed, Octets, WellFormed, Normalize, IsEnd;
    if !IsEnd(s) {
      AcceptedIsElement(s);
      AcceptedAreElements(Reencode(s).value.1);
      FrontNotEnd(s);
    }
  }

  lemma FrontNotEnd(s: bytes)
    requires Reencode(s).Some? && !IsEnd(s) && s == Octets(Parsed(s)) + Reencode(s).value.1
    ensures !IsEnd(Octets(Parsed(s)))
  {
    hide *;
    PrefixEnd(Octets(Parsed(s)), Reencode(s).value.1);
  }

  lemma PrefixEnd(s: bytes, t: bytes)
    requires !IsEnd(s + t)
    ensures !IsEnd(s)
  {
  }

  /** The normal form fits the 64 bits of a length. */
  predicate Fits(e: Element) {
    |Octets(Normalize(e))| < LWORD
  }

  /** Re-encoding gives a well-formed element, and once more changes nothing. */
  lemma ReencodingIsIdempotent(e: Element, rest: bytes)
    requires WellFormed(e) && Fits(e)
    ensures WellFormed(Normalize(e)) && Normalize(Normalize(e)) == Normalize(e)
    ensures Reencode(Octets(Normalize(e)) + rest) == Some((Octets(Normalize(e)), rest))
  {
    NormalFormIsWellFormed(e);
    ReencodesElement(Normalize(e), rest);
  }

  lemma {:induction false} NormalFormIsWellFormed(e: Element)
    requires WellFormed(e) && Fits(e)
    ensures WellFormed(Normalize(e))
    decreases e
  {
    match e
    case Prim(_, length, content) =>
      DerLengthOf(|content|);
    case Cons(_, Some(length), children) =>
      DerLengthOf(|OctetsAll(children)|);
    case Cons(_, None, children) =>
      DerLengthOf(|OctetsAll(NormalizeAll(children))|);
      NormalFormsAreWellFormed(children);
  }

  lemma {:induction false} NormalFormsAreWellFormed(es: Elements)
    requires WellFormedAll(es) && |OctetsAll(NormalizeAll(es))| < LWORD
    ensures WellFormedAll(NormalizeAll(es))
    decreases es
  {
    if es.Then? {
      NormalFormIsWellFormed(es.first);
      NormalFormsAreWellFormed(es.rest);
    }
  }

  lemma DerLengthOf(n: nat)
    requires n < LWORD
    ensures LengthOf(DerLength(n % LWORD), n)
  {
    assert n % LWORD == n;
    LengthRoundTrip(n, []);
    assert DerLength(n) + [] == DerLength(n);
  }

  /**
   * No length anywhere is indefinite: X.690, section 10.1. Contents of a constructed element that
   * are not looked into are no evidence of that.
   */
  predicate AllDefinite(e: Element) {
    match e
    case Prim(tag, _, _) => !Constructed(tag)
    case Cons(_, form, children) => form.Some? && AllDefiniteIn(children)
  }

  predicate AllDefiniteIn(es: Elements) {
    es.Then? ==> AllDefinite(es.first) && AllDefiniteIn(es.rest)
  }

  /** Every indefinite element is reached from the root through indefinite elements only. */
  predicate OnChains(e: Element) {
    match e
    case Prim(tag, _, _) => !Constructed(tag)
    case Cons(_, Some(_), children) => AllDefiniteIn(children)
    case Cons(_, None, children) => OnChainsIn(children)
  }

  predicate OnChainsIn(es: Elements) {
    es.Then? ==> OnChains(es.first) && OnChainsIn(es.rest)
  }

  /**
   * Re-encoding removes the indefinite lengths on chains of indefinite elements from the root, and
   * no others: inside a definite element they are copied.
   */
  lemma {:induction false} DefiniteExactly(e: Element)
    ensures AllDefinite(Normalize(e)) <==> OnChains(e)
  {
    if e.Cons? && e.form.None? {
      DefiniteExactlyIn(e.children);
    }
  }

  lemma {:induction false} DefiniteExactlyIn(es: Elements)
    ensures AllDefiniteIn(NormalizeAll(es)) <==> OnChainsIn(es)
  {
    if es.Then? {
      DefiniteExactly(es.first);
      DefiniteExactlyIn(es.rest);
    }
  }

  /**
   * Tags are of one octet. A tag whose low five bits are all ones goes on in X.690, section 8.1.2.4,
   * and is cut here: of the element 1f 81 01, 01, ff the octet 81 is taken for a length, and ff is left.
   */
  lemma HighTagIsCut()
    ensures Reencode([0x1f, 0x81, 1, 1, 0xff]) == Some(([0x1f, 1, 1], [0xff]))
  {
    hide Reencode, LengthOf;
    var length: bytes := [0x81, 1];
    OneByteLength(length);
    DefiniteElement(0x1f, length, [1], [0xff]);
    assert [0x1f] + length + [1] + [0xff] == [0x1f, 0x81, 1, 1, 0xff];
    assert [0x1f] + [1] + [1] == [0x1f, 1, 1];
  }

  lemma OneByteLength(length: bytes)
    requires length == [0x81, 1]
    ensures LengthOf(length, 1) && DerLength(1) == [1]
  {
    var one: bytes := [1];
    assert one[..0] == [] && Value(one) == 1;
    assert length[1..2] == one && length[2..] == [];
    LongLengthExactly(length);
  }

  /** Of all tags, just the constructed ones may have an indefinite length. */
  lemma EmptyIndefinite(tag: byte)
    ensures Reencode([tag, 0x80, 0, 0]) == if tag % 64 >= 32 then Some(([tag, 0], [])) else None
  {
    hide Constructed;
    ConstructedBit(tag);
    var s: bytes := [tag, 0x80, 0, 0];
    var rest: bytes := [0x80, 0, 0];
    assert s[1..] == rest && rest[1..] == [0, 0] && [tag] + [0] + [] == [tag, 0];
    assert ReencodeAll([0, 0]) == Some(([], [0, 0]));
  }
}
