/** What a nest of decoders over a queue has to give: `BERGeneralDecoder` in `asn.cpp`. */
module AsnSources {
  import opened Bytes
  import opened Ber

  /** A queue, or a decoder that reads from another source. */
  datatype Source = Queue(data: bytes) | Decoder(definite: bool, length: nat, inner: Source) {
    /** The octets that can be got: no more than any definite length on the way leaves. */
    function Available(): (s: bytes) {
      match this
      case Queue(data) => data
      case Decoder(definite, length, inner) =>
        var s := inner.Available();
        if definite && length < |s| then s[..length] else s
    }

    /** After n octets have been got, every definite length on the way is n less. */
    function After(n: nat): (r: Source)
      requires n <= |Available()|
    {
      match this
      case Queue(data) => Queue(data[n..])
      case Decoder(definite, length, inner) => Decoder(definite, if definite then length - n else length, inner.After(n))
    }

    /** The queue at the bottom. */
    function Bottom(): bytes {
      if Queue? then data else inner.Bottom()
    }

    /** How many decoders are on the way, and the k-th of them. */
    function Depth(): nat {
      if Queue? then 0 else 1 + inner.Depth()
    }

    function Level(k: nat): (d: Source)
      requires k < Depth()
      ensures d.Decoder?
    {
      if k == 0 then this else inner.Level(k - 1)
    }
  }

  /** Nested decoders read like a queue of what they make available. */
  lemma {:induction false} AvailableAfter(src: Source, n: nat)
    requires n <= |src.Available()|
    ensures src.After(n).Available() == src.Available()[n..]
  {
    if src.Decoder? {
      AvailableAfter(src.inner, n);
    }
  }

  lemma {:induction false} AfterAfter(src: Source, n: nat, m: nat)
    requires n + m <= |src.Available()|
    ensures m <= |src.After(n).Available()| && src.After(n).After(m) == src.After(n + m)
  {
    AvailableAfter(src, n);
    if src.Decoder? {
      AfterAfter(src.inner, n, m);
    }
  }

  lemma {:induction false} AfterNothing(src: Source)
    ensures src.After(0) == src
  {
    if src.Decoder? {
      AfterNothing(src.inner);
    }
  }

  /**
   * Whatever is got through nested decoders: no decoder of definite length gives more than its
   * declared octets, each is charged exactly what was got, and the queue loses just those octets.
   */
  lemma {:induction false} LengthsAreKept(src: Source, n: nat, k: nat)
    requires n <= |src.Available()| && k < src.Depth()
    ensures src.After(n).Depth() == src.Depth() && src.After(n).Level(k).definite == src.Level(k).definite
    ensures src.Level(k).definite ==> n <= src.Level(k).length && src.After(n).Level(k).length == src.Level(k).length - n
    ensures n <= |src.Bottom()| && src.After(n).Bottom() == src.Bottom()[n..]
    ensures src.Available()[..n] == src.Bottom()[..n]
  {
    if k > 0 {
      LengthsAreKept(src.inner, n, k - 1);
    } else if src.inner.Decoder? {
      LengthsAreKept(src.inner, n, 0);
    }
  }

  /** What is got of a queue. */
  lemma TakeOfQueue(data: bytes, n: nat)
    ensures Queue(data).Available() == data
    ensures var m := if n < |data| then n else |data|; Queue(data).After(m) == Queue(data[m..])
  {
  }

  /** A request through a decoder is clamped to its length, and what is got of the inner source is charged to it. */
  lemma TakeThrough(definite: bool, length: nat, inner: Source, n: nat)
    ensures var d, all := Decoder(definite, length, inner), inner.Available();
      var m := if definite && n > length then length else n;
      var s := if m < |all| then all[..m] else all;
      && s == (if n < |d.Available()| then d.Available()[..n] else d.Available())
      && d.After(|s|) == Decoder(definite, if definite then length - |s| else length, inner.After(|s|))
  {
  }
}
