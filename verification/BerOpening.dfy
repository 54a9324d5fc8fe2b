/**
 * Octets read all the way down, contents of definite constructed elements included, and what the
 * re-encoder does to the lengths found there.
 */
module BerOpening {
  import opened Numbers
  import opened Bytes
  import opened Wrappers
  import opened Ber
  import opened BerTrees

  /** Every constructed element is looked into. */
  predicate Opened(e: Element) {
    match e
    case Prim(tag, _, _) => !Constructed(tag)
    case Cons(_, _, children) => OpenedAll(children)
  }

  predicate OpenedAll(es: Elements) {
    es.Then? ==> Opened(es.first) && OpenedAll(es.rest)
  }

  /** The element at the front, and what follows it. */
  function Open(s: bytes): (r: Option<(Element, bytes)>)
    ensures r.Some? ==> |r.value.1| < |s|
    decreases |s|, 0
  {
    if s == [] then None
    else match ParseLength(s[1..])
      case None => None
      case Some((Definite(n), rest)) =>
        if n > |rest| then None
        else if !Constructed(s[0]) then Some((Prim(s[0], LengthPart(s, rest), rest[..n]), rest[n..]))
        else (match OpenAll(rest[..n])
          case None => None
          case Some(children) => Some((Cons(s[0], Some(LengthPart(s, rest)), children), rest[n..])))
      case Some((Indefinite, rest)) =>
        if !Constructed(s[0]) then None
        else match OpenToEnd(rest)
          case None => None
          case Some((children, after)) => Some((Cons(s[0], None, children), after[2..]))
  }

  /** The octets between the tag and what follows the length. */
  function LengthPart(s: bytes, rest: bytes): bytes
    requires |rest| < |s|
  {
    s[1..|s| - |rest|]
  }

  /** Elements that make up all of s. */
  function OpenAll(s: bytes): (r: Option<Elements>)
    decreases |s|, 1
  {
    if s == [] then Some(End)
    else match Open(s)
      case None => None
      case Some((first, rest)) =>
        match OpenAll(rest)
        case None => None
        case Some(others) => Some(Then(first, others))
  }

  /** Elements up to the end-of-contents octets, which are left. */
  function OpenToEnd(s: bytes): (r: Option<(Elements, bytes)>)
    ensures r.Some? ==> |r.value.1| <= |s| && IsEnd(r.value.1)
    decreases |s|, 1
  {
    if IsEnd(s) then Some((End, s))
    else match Open(s)
      case None => None
      case Some((first, rest)) =>
        match OpenToEnd(rest)
        case None => None
        case Some((others, after)) => Some((Then(first, others), after))
  }

  /** One step of the reading, for a definite length. */
  lemma OpenDefinite(tag: byte, length: bytes, content: bytes, rest: bytes)
    requires LengthOf(length, |content|)
    ensures Open([tag] + length + content + rest) ==
      if !Constructed(tag) then Some((Prim(tag, length, content), rest))
      else match OpenAll(content)
        case None => None
        case Some(children) => Some((Cons(tag, Some(length), children), rest))
  {
    hide ParseLength, LengthOf, OpenAll, OpenToEnd, Constructed;
    LengthPrefix(length, |content|, content + rest);
    var s := [tag] + length + content + rest;
    var t := content + rest;
    assert s[1..] == length + t;
    assert t[..|content|] == content && t[|content|..] == rest;
    assert LengthPart(s, t) == length;
  }

  /** One step of the reading, for an indefinite length. */
  lemma OpenIndefinite(tag: byte, s: bytes)
    requires Constructed(tag)
    ensures Open([tag, 0x80] + s) == match OpenToEnd(s)
      case None => None
      case Some((children, after)) => Some((Cons(tag, None, children), after[2..]))
  {
    hide OpenAll, OpenToEnd, Constructed;
    var t := [tag, 0x80] + s;
    assert t[1..][0] == 0x80 && t[1..][1..] == s;
  }

  /** Every well-formed opened element is read back from its octets, and nothing behind it is touched. */
  lemma {:induction false} ElementOpens(e: Element, rest: bytes)
    requires WellFormed(e) && Opened(e)
    ensures Open(Octets(e) + rest) == Some((e, rest))
    decreases e, 0
  {
    hide Open, OpenAll, OpenToEnd, LengthOf, Constructed, OctetsAll;
    match e
    case Prim(tag, length, content) =>
      OpenDefinite(tag, length, content, rest);
    case Cons(tag, Some(length), children) =>
      OpenDefinite(tag, length, OctetsAll(children), rest);
      ElementsOpen(children);
    case Cons(tag, None, children) =>
      var after := [0, 0] + rest;
      ElementsOpenToEnd(children, after);
      OpenIndefinite(tag, OctetsAll(children) + after);
      assert Octets(e) + rest == [tag, 0x80] + (OctetsAll(children) + after);
      assert after[2..] == rest;
  }

  lemma {:induction false} ElementsOpen(es: Elements)
    requires WellFormedAll(es) && OpenedAll(es)
    ensures OpenAll(OctetsAll(es)) == Some(es)
    decreases es, 1
  {
    hide Open, WellFormed, Opened, Octets;
    if es.Then? {
      ElementOpens(es.first, OctetsAll(es.rest));
      ElementsOpen(es.rest);
    }
  }

  lemma {:induction false} ElementsOpenToEnd(es: Elements, after: bytes)
    requires WellFormedAll(es) && OpenedAll(es) && NoneIsEnd(es) && IsEnd(after)
    ensures OpenToEnd(OctetsAll(es) + after) == Some((es, after))
    decreases es, 1
  {
    hide Open, WellFormed, Opened, Octets, IsEnd;
    match es
    case End =>
      assert [] + after == after;
    case Then(first, rest) =>
      var s := OctetsAll(rest) + after;
      ElementOpens(first, s);
      ElementsOpenToEnd(rest, after);
      NotAtEnd(first, s);
      assert OctetsAll(es) + after == Octets(first) + s;
  }

  /** Octets determine the opened element at their front. */
  lemma OctetsDetermineElement(e: Element, f: Element, rest: bytes, after: bytes)
    requires WellFormed(e) && Opened(e) && WellFormed(f) && Opened(f)
    requires Octets(e) + rest == Octets(f) + after
    ensures e == f && rest == after
  {
    hide *;
    ElementOpens(e, rest);
    ElementOpens(f, after);
  }

  /** Whatever is read is a well-formed opened element. */
  lemma {:induction false} OpenIsElement(s: bytes)
    requires Open(s).Some?
    ensures var (e, rest) := Open(s).value; WellFormed(e) && Opened(e) && s == Octets(e) + rest
    decreases |s|, 0
  {
    hide ParseLength, LengthOf, OpenAll, OpenToEnd, OctetsAll, WellFormedAll, NoneIsEnd, OpenedAll, Constructed, IsEnd;
    match ParseLength(s[1..])
    case Some((Definite(n), rest)) =>
      DefiniteAccepted(s, n, rest);
      if Constructed(s[0]) {
        OpenAllAreElements(rest[..n]);
      }
    case Some((Indefinite, rest)) =>
      SecondOctet(s[1..]);
      OpenToEndAreElements(rest);
      Rejoin(s, rest, OctetsAll(OpenToEnd(rest).value.0), OpenToEnd(rest).value.1);
  }

  lemma {:induction false} OpenAllAreElements(s: bytes)
    requires OpenAll(s).Some?
    ensures var es := OpenAll(s).value; WellFormedAll(es) && OpenedAll(es) && s == OctetsAll(es)
    decreases |s|, 1
  {
    hide Open, WellFormed, Opened, Octets;
    if s != [] {
      OpenIsElement(s);
      OpenAllAreElements(Open(s).value.1);
    }
  }

  lemma {:induction false} OpenToEndAreElements(s: bytes)
    requires OpenToEnd(s).Some?
    ensures var (es, after) := OpenToEnd(s).value;
      WellFormedAll(es) && NoneIsEnd(es) && OpenedAll(es) && s == OctetsAll(es) + after
    decreases |s|, 1
  {
    hide Open, WellFormed, Opened, Octets, IsEnd;
    if IsEnd(s) {
      assert [] + s == s;
    } else {
      OpenIsElement(s);
      var (first, rest) := Open(s).value;
      OpenToEndAreElements(rest);
      PrefixEnd(Octets(first), rest);
      var (others, after) := OpenToEnd(rest).value;
      assert Octets(first) + (OctetsAll(others) + after) == Octets(first) + OctetsAll(others) + after;
    }
  }

  /** The octets are one element, and all its lengths are definite. */
  predicate DefiniteOctets(s: bytes) {
    Open(s).Some? && Open(s).value.1 == [] && AllDefinite(Open(s).value.0)
  }

  /** The octets begin with an element whose indefinite lengths are all on chains from the root. */
  predicate OnChainsOctets(s: bytes) {
    Open(s).Some? && OnChains(Open(s).value.0)
  }

  /**
   * The lengths that come out are all definite if and only if those that are read are definite, or
   * on chains of indefinite elements from the root. Both sides are decided by the octets alone.
   */
  lemma DefiniteOutputExactly(s: bytes)
    requires Reencode(s).Some? && |Reencode(s).value.0| < LWORD
    ensures DefiniteOctets(Reencode(s).value.0) <==> OnChainsOctets(s)
  {
    hide Reencode, Open, AllDefinite, OnChains;
    if OnChainsOctets(s) {
      ChainsComeOutDefinite(s);
    }
    if DefiniteOctets(Reencode(s).value.0) {
      DefiniteComesOfChains(s);
    }
  }

  lemma ChainsComeOutDefinite(s: bytes)
    requires Reencode(s).Some? && |Reencode(s).value.0| < LWORD && OnChainsOctets(s)
    ensures DefiniteOctets(Reencode(s).value.0)
  {
    hide Reencode, Open, Octets, WellFormed, Opened, AllDefinite, OnChains, Normalize;
    var (e, rest) := Open(s).value;
    OpenIsElement(s);
    ReencodesElement(e, rest);
    NormalFormIsWellFormed(e);
    DefiniteExactly(e);
    DefiniteIsOpened(Normalize(e));
    ElementOpens(Normalize(e), []);
    assert Octets(Normalize(e)) + [] == Octets(Normalize(e));
  }

  lemma {:induction false} DefiniteIsOpened(e: Element)
    requires AllDefinite(e)
    ensures Opened(e)
  {
    if e.Cons? {
      DefiniteAreOpened(e.children);
    }
  }

  lemma {:induction false} DefiniteAreOpened(es: Elements)
    requires AllDefiniteIn(es)
    ensures OpenedAll(es)
  {
    if es.Then? {
      DefiniteIsOpened(es.first);
      DefiniteAreOpened(es.rest);
    }
  }

  /** What comes out is the tag, a shortest length and the contents. */
  function Content(s: bytes): (c: bytes)
    requires Reencode(s).Some?
  {
    match ParseLength(s[1..]).value
    case (Definite(n), rest) => rest[..n]
    case (Indefinite, rest) => ReencodeAll(rest).value.0
  }

  lemma OutputShape(s: bytes)
    requires Reencode(s).Some?
    ensures s != [] && Reencode(s).value.0 == [s[0]] + DerLength(|Content(s)| % LWORD) + Content(s)
  {
    hide ReencodeAll, Constructed, DerLength, ParseLength;
    match ParseLength(s[1..]).value
    case (Definite(n), rest) => SmallRemainder(n);
    case (Indefinite, rest) =>
  }

  lemma SmallRemainder(n: nat)
    requires n < LWORD
    ensures n % LWORD == n
  {
  }

  /** What comes out is read on its own, whatever follows. */
  lemma OutputOpens(s: bytes, more: bytes)
    requires Reencode(s).Some? && |Reencode(s).value.0| < LWORD
    ensures var out, c := Reencode(s).value.0, Content(s);
      && out != [] && |c| < LWORD && s != []
      && Open(out + more) ==
         if !Constructed(s[0]) then Some((Prim(s[0], DerLength(|c|), c), more))
         else match OpenAll(c)
           case None => None
           case Some(children) => Some((Cons(s[0], Some(DerLength(|c|)), children), more))
  {
    hide *;
    OutputShape(s);
    var c := Content(s);
    ShorterThanWhole(s[0], DerLength(|c| % LWORD), c);
    SmallRemainder(|c|);
    DerLengthOf(|c|);
    OpenDefinite(s[0], DerLength(|c|), c, more);
  }

  lemma ShorterThanWhole(tag: byte, length: bytes, c: bytes)
    ensures |c| < |[tag] + length + c|
  {
  }

  /** Reading and re-encoding agree on where the element ends. */
  lemma SameRest(s: bytes)
    requires Open(s).Some? && Reencode(s).Some?
    ensures Open(s).value.1 == Reencode(s).value.1
  {
    hide *;
    OpenIsElement(s);
    ReencodesElement(Open(s).value.0, Open(s).value.1);
  }

  /** The contents are read as they are, or up to their end, in the form of what comes out. */
  lemma OpenByContent(s: bytes)
    requires Reencode(s).Some?
    ensures s != [] && ParseLength(s[1..]).Some?
    ensures match ParseLength(s[1..]).value
      case (Definite(_), _) =>
        if !Constructed(s[0]) then OnChainsOctets(s)
        else OpenAll(Content(s)).Some? && AllDefiniteIn(OpenAll(Content(s)).value) ==> OnChainsOctets(s)
      case (Indefinite, rest) =>
        && Constructed(s[0]) && ReencodeAll(rest).Some? && Content(s) == ReencodeAll(rest).value.0
        && (OpenToEnd(rest).Some? && OnChainsIn(OpenToEnd(rest).value.0) ==> OnChainsOctets(s))
  {
    hide ReencodeAll, OpenAll, OpenToEnd, AllDefiniteIn, OnChainsIn, Constructed, DerLength, ParseLength, LengthPart;
  }

  /** If all lengths that come out are definite, those that were not are on chains. */
  lemma {:induction false} DefiniteComesOfChains(s: bytes)
    requires Reencode(s).Some? && |Reencode(s).value.0| < LWORD && DefiniteOctets(Reencode(s).value.0)
    ensures OnChainsOctets(s)
    decreases |s|, 0
  {
    hide ParseLength, Reencode, ReencodeAll, Open, OpenAll, OpenToEnd, DerLength, Constructed, Content, OnChainsOctets;
    var out := Reencode(s).value.0;
    OutputOpens(s, []);
    assert out + [] == out;
    OpenByContent(s);
    match ParseLength(s[1..]).value
    case (Definite(_), _) =>
    case (Indefinite, rest) => DefiniteComeOfChains(rest);
  }

  lemma {:induction false} DefiniteComeOfChains(s: bytes)
    requires ReencodeAll(s).Some? && |ReencodeAll(s).value.0| < LWORD
    requires OpenAll(ReencodeAll(s).value.0).Some? && AllDefiniteIn(OpenAll(ReencodeAll(s).value.0).value)
    ensures OpenToEnd(s).Some? && OnChainsIn(OpenToEnd(s).value.0)
    decreases |s|, 1
  {
    hide Reencode, Open, IsEnd, AllDefinite, OnChains, DerLength, Content, Constructed;
    if !IsEnd(s) {
      var (out, rest) := Reencode(s).value;
      var more := ReencodeAll(rest).value.0;
      OutputOpens(s, more);
      OutputOpens(s, []);
      assert out + [] == out;
      DefiniteComesOfChains(s);
      SameRest(s);
      DefiniteComeOfChains(rest);
    }
  }

  /** A SEQUENCE of definite length with an indefinite one inside stays as it is, and is not all definite. */
  lemma InnerIndefiniteSurvives()
    ensures var s: bytes := [0x30, 4, 0x30, 0x80, 0, 0];
      Reencode(s) == Some((s, [])) && !OnChainsOctets(s) && !DefiniteOctets(s)
  {
    hide *;
    var end: bytes := [0, 0];
    var inner: bytes := [0x30, 0x80, 0, 0];
    var length: bytes := [4];
    ShortLength();
    IndefiniteInside(end, inner);
    WholeInside(inner, length);
    assert [0x30] + length + inner == [0x30, 4, 0x30, 0x80, 0, 0];
  }

  lemma ShortLength()
    ensures LengthOf([4], 4) && DerLength(4) == [4]
  {
    LengthRoundTrip(4, []);
    assert DerLength(4) + [] == DerLength(4);
  }

  lemma IndefiniteInside(end: bytes, inner: bytes)
    requires end == [0, 0] && inner == [0x30, 0x80, 0, 0]
    ensures OpenAll(inner) == Some(Then(Cons(0x30, None, End), End))
  {
    assert inner == [0x30, 0x80] + end && end[2..] == [];
    OpenIndefinite(0x30, end);
    assert OpenToEnd(end) == Some((End, end));
    assert OpenAll([]) == Some(End);
  }

  lemma WholeInside(inner: bytes, length: bytes)
    requires length == [4] && |inner| == 4 && LengthOf(length, 4) && DerLength(4) == length
    requires OpenAll(inner) == Some(Then(Cons(0x30, None, End), End))
    ensures var s := [0x30] + length + inner;
      Reencode(s) == Some((s, [])) && !OnChainsOctets(s) && !DefiniteOctets(s)
  {
    hide Reencode, Open, OpenAll, LengthOf, DerLength;
    var s := [0x30] + length + inner;
    assert s + [] == s;
    DefiniteElement(0x30, length, inner, []);
    OpenDefinite(0x30, length, inner, []);
  }
}
