/** Breaking a stream into groups: `Grouper` in `basecode.cpp`. */
module Grouping {
  import opened Bytes

  /** A separator after every full group that more data follows. */
  function Grouped(separator: bytes, size: nat, data: bytes): bytes {
    if size == 0 || |data| <= size then data
    else data[..size] + separator + Grouped(separator, size, data[size..])
  }

  /** How much of the last group there is. */
  function LastGroup(n: nat, size: nat): (last: nat)
    requires size > 0
    ensures last <= size && (n > 0 ==> last > 0)
  {
    if n <= size then n else LastGroup(n - size, size)
  }

  /** Data that still fits the last group. */
  lemma {:induction false} GroupMore(separator: bytes, size: nat, data: bytes, piece: bytes)
    requires size > 0 && LastGroup(|data|, size) + |piece| <= size
    ensures Grouped(separator, size, data + piece) == Grouped(separator, size, data) + piece
    ensures LastGroup(|data + piece|, size) == LastGroup(|data|, size) + |piece|
    decreases |data|
  {
    if |data| > size {
      assert (data + piece)[..size] == data[..size] && (data + piece)[size..] == data[size..] + piece;
      GroupMore(separator, size, data[size..], piece);
    }
  }

  /** A first group with data behind it. */
  lemma FirstGroup(separator: bytes, size: nat, group: bytes, rest: bytes)
    requires |group| == size > 0 && rest != []
    ensures Grouped(separator, size, group + rest) == group + separator + Grouped(separator, size, rest)
    ensures LastGroup(|group + rest|, size) == LastGroup(|rest|, size)
  {
    assert (group + rest)[..size] == group && (group + rest)[size..] == rest;
  }

  lemma OneGroup(separator: bytes, size: nat, data: bytes)
    requires |data| <= size
    ensures Grouped(separator, size, data) == data
    ensures size > 0 ==> LastGroup(|data|, size) == |data|
  {
  }

  /** Data behind a full group. */
  lemma {:induction false} GroupNext(separator: bytes, size: nat, data: bytes, piece: bytes)
    requires size > 0 && LastGroup(|data|, size) == size && 0 < |piece| <= size
    ensures Grouped(separator, size, data + piece) == Grouped(separator, size, data) + separator + piece
    ensures LastGroup(|data + piece|, size) == |piece|
    decreases |data|
  {
    hide Grouped, LastGroup;
    if |data| > size {
      var group, rest := data[..size], data[size..];
      assert data == group + rest && data + piece == group + (rest + piece);
      FirstGroup(separator, size, group, rest);
      FirstGroup(separator, size, group, rest + piece);
      GroupNext(separator, size, rest, piece);
    } else {
      OneGroup(separator, size, data);
      OneGroup(separator, size, piece);
      FirstGroup(separator, size, data, piece);
    }
  }

  lemma Ungrouped(separator: bytes, data: bytes)
    ensures Grouped(separator, 0, data) == data
  {
  }

  lemma NothingGrouped(separator: bytes, size: nat)
    ensures Grouped(separator, size, []) == [] && (size > 0 ==> LastGroup(0, size) == 0)
  {
  }

  /** `Grouper`; `out` is what it has passed on. */
  class Grouper {
    const groupSize: nat
    const separator: bytes
    const terminator: bytes
    var counter: nat
    var out: bytes
    /** What had been passed on when the current message began, and the message so far. */
    ghost var before: bytes
    ghost var message: bytes

    ghost predicate Valid()
      reads this
    {
      && out == before + Grouped(separator, groupSize, message)
      && (groupSize > 0 ==> counter == LastGroup(|message|, groupSize))
    }

    constructor (groupSize: nat, separator: bytes, terminator: bytes)
      ensures Valid() && out == before == message == []
      ensures this.groupSize == groupSize && this.separator == separator && this.terminator == terminator
    {
      this.groupSize, this.separator, this.terminator := groupSize, separator, terminator;
      counter, out := 0, [];
      before, message := [], [];
    }

    /** Any piece of the message; with its end, the grouped message and the terminator are out. */
    method Put(begin: bytes, messageEnd: bool)
      requires Valid()
      modifies this
      ensures Valid()
      ensures !messageEnd ==> before == old(before) && message == old(message) + begin
      ensures messageEnd ==>
        && before == out && message == []
        && out == old(before) + Grouped(separator, groupSize, old(message) + begin) + terminator
    {
      hide Grouped, LastGroup;
      if groupSize > 0 {
        var inputPosition := 0;
        while inputPosition < |begin|
          invariant 0 <= inputPosition <= |begin|
          invariant Valid() && before == old(before) && message == old(message) + begin[..inputPosition]
        {
          var full := counter == groupSize;
          if full {
            out := out + separator;
            counter := 0;
          }
          var len := if |begin| - inputPosition < groupSize - counter then |begin| - inputPosition else groupSize - counter;
          var piece := begin[inputPosition..inputPosition + len];
          if full {
            GroupNext(separator, groupSize, message, piece);
          } else {
            GroupMore(separator, groupSize, message, piece);
          }
          out := out + piece;
          inputPosition := inputPosition + len;
          counter := counter + len;
          message := message + piece;
        }
        assert begin[..|begin|] == begin;
      } else {
        Ungrouped(separator, message);
        Ungrouped(separator, message + begin);
        out := out + begin;
        message := message + begin;
      }
      if messageEnd {
        out := out + terminator;
        counter := 0;
        before, message := out, [];
        NothingGrouped(separator, groupSize);
      }
    }
  }
}
