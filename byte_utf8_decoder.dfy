/**
 * `ByteUtf8Decoder` (Vt100/ByteUtf8Decoder.cs): collects the bytes of one
 * UTF-8 sequence in a four-byte buffer, taking the sequence length from its
 * lead byte, then decodes the group and hands every text element of the
 * result to a callback. The .NET UTF-8 decoder (flushed on every call) and
 * the text-element segmentation of Unicode UAX #29 are given as functions.
 */
module Utf8Decoder {
  type byte = bv8

  /**
   * `GetUtf8ByteCount`: the length of the sequence a lead byte starts.
   * Continuation bytes and the bytes above 0xEF all count as four.
   */
  function GetUtf8ByteCount(leadingByte: byte): (n: int)
    ensures leadingByte < 0x80 ==> n == 1
    ensures 0xC0 <= leadingByte <= 0xDF ==> n == 2
    ensures 0xE0 <= leadingByte <= 0xEF ==> n == 3
    ensures 0x80 <= leadingByte <= 0xBF || 0xF0 <= leadingByte ==> n == 4
  {
    if leadingByte < 128 then 1
    else if ((leadingByte ^ 0xC0) >> 5) == 0 then 2
    else if ((leadingByte ^ 0xE0) >> 4) == 0 then 3
    else 4
  }

  /**
   * The length of a UTF-8 sequence by its lead byte in section 3 of
   * RFC 3629, for the bytes that may lead a well-formed sequence.
   */
  function Rfc3629Length(leadingByte: byte): int
    requires leadingByte < 0x80 || 0xC2 <= leadingByte <= 0xF4
  {
    if leadingByte < 0x80 then 1
    else if leadingByte < 0xE0 then 2
    else if leadingByte < 0xF0 then 3
    else 4
  }

  /** On every byte that can lead a well-formed sequence, the count agrees with RFC 3629. */
  lemma ByteCountAgreesWithRfc3629(b: byte)
    requires b < 0x80 || 0xC2 <= b <= 0xF4
    ensures GetUtf8ByteCount(b) == Rfc3629Length(b)
  {
  }

  /** The buffering state between two calls: the group length (0 when idle) and the bytes so far. */
  datatype Buffered = Buffered(count: int, pending: seq<byte>)

  ghost predicate WellBuffered(s: Buffered)
  {
    (s.count == 0 && s.pending == []) || (1 <= |s.pending| < s.count <= 4)
  }

  /** One call of `Feed`: the next state and the text elements handed to the callback. */
  function Step(s: Buffered, b: byte, decode: seq<byte> -> string, segment: string -> seq<string>)
    : (r: (Buffered, seq<string>))
    requires WellBuffered(s)
    ensures WellBuffered(r.0)
    ensures r.0.count == 0 || r.1 == []
  {
    var count := if s.count == 0 then GetUtf8ByteCount(b) else s.count;
    var group := s.pending + [b];
    if |group| == count then (Buffered(0, []), segment(decode(group)))
    else (Buffered(count, group), [])
  }

  /** Feeding a whole byte stream, one `Step` per byte, from state `s`. */
  function FeedAll(s: Buffered, bytes: seq<byte>, decode: seq<byte> -> string, segment: string -> seq<string>)
    : (r: (Buffered, seq<string>))
    requires WellBuffered(s)
    ensures WellBuffered(r.0)
    decreases |bytes|
  {
    if |bytes| == 0 then (s, [])
    else
      var first := Step(s, bytes[0], decode, segment);
      var rest := FeedAll(first.0, bytes[1..], decode, segment);
      (rest.0, first.1 + rest.1)
  }

  /** A complete UTF-8 group: as long as its lead byte says. */
  predicate IsGroup(g: seq<byte>)
  {
    |g| >= 1 && |g| == GetUtf8ByteCount(g[0])
  }

  function Flatten(groups: seq<seq<byte>>): seq<byte>
  {
    if |groups| == 0 then [] else groups[0] + Flatten(groups[1..])
  }

  function DecodeGroups(groups: seq<seq<byte>>, decode: seq<byte> -> string, segment: string -> seq<string>)
    : seq<string>
  {
    if |groups| == 0 then [] else segment(decode(groups[0])) + DecodeGroups(groups[1..], decode, segment)
  }

  /** Feeding one complete group to an idle decoder emits its text elements and leaves it idle again. */
  lemma {:induction false} FeedGroup(g: seq<byte>, tail: seq<byte>, decode: seq<byte> -> string, segment: string -> seq<string>)
    requires IsGroup(g)
    ensures FeedAll(Buffered(0, []), g + tail, decode, segment)
         == (FeedAll(Buffered(0, []), tail, decode, segment).0,
             segment(decode(g)) + FeedAll(Buffered(0, []), tail, decode, segment).1)
  {
    FeedPartial(Buffered(0, []), g, 0, tail, decode, segment);
  }

  /** Feeding the rest of a group from its i-th byte, with bytes `g[..i]` already buffered. */
  lemma {:induction false} FeedPartial(s: Buffered, g: seq<byte>, i: nat, tail: seq<byte>,
                                       decode: seq<byte> -> string, segment: string -> seq<string>)
    requires IsGroup(g) && i < |g|
    requires s.pending == g[..i]
    requires i == 0 ==> s == Buffered(0, [])
    requires i > 0 ==> s.count == |g|
    ensures WellBuffered(s)
    ensures FeedAll(s, g[i..] + tail, decode, segment)
         == (FeedAll(Buffered(0, []), tail, decode, segment).0,
             segment(decode(g)) + FeedAll(Buffered(0, []), tail, decode, segment).1)
    decreases |g| - i
  {
    var bytes := g[i..] + tail;
    assert bytes[0] == g[i];
    assert g[..i] + [g[i]] == g[..i + 1];
    var first := Step(s, bytes[0], decode, segment);
    if i + 1 == |g| {
      assert g[..i + 1] == g;
      assert bytes[1..] == tail;
    } else {
      assert bytes[1..] == g[i + 1..] + tail;
      assert first == (Buffered(|g|, g[..i + 1]), []);
      FeedPartial(first.0, g, i + 1, tail, decode, segment);
      var rest := FeedAll(first.0, bytes[1..], decode, segment);
      assert FeedAll(s, bytes, decode, segment) == (rest.0, first.1 + rest.1);
      assert first.1 + rest.1 == rest.1;
    }
  }

  /** A stream made of complete groups is decoded group by group, and the decoder ends idle. */
  lemma {:induction false} FeedGroups(groups: seq<seq<byte>>, decode: seq<byte> -> string, segment: string -> seq<string>)
    requires forall k :: 0 <= k < |groups| ==> IsGroup(groups[k])
    ensures FeedAll(Buffered(0, []), Flatten(groups), decode, segment)
         == (Buffered(0, []), DecodeGroups(groups, decode, segment))
  {
    if |groups| > 0 {
      FeedGroup(groups[0], Flatten(groups[1..]), decode, segment);
      FeedGroups(groups[1..], decode, segment);
    }
  }

  /**
   * An ASCII byte reaching an idle decoder gives exactly one callback, with
   * that character, given that UTF-8 decodes a byte below 0x80 to the same
   * character and that one character is one text element.
   */
  lemma AsciiByteIsOneElement(b: byte, decode: seq<byte> -> string, segment: string -> seq<string>)
    requires b < 0x80
    requires decode([b]) == [b as char]
    requires segment([b as char]) == [[b as char]]
    ensures Step(Buffered(0, []), b, decode, segment) == (Buffered(0, []), [[b as char]])
  {
    assert [] + [b] == [b];
  }

  class ByteUtf8Decoder {
    const decode: seq<byte> -> string
    const segment: string -> seq<string>
    const utfBytes: array<byte>
    var currentCount: int
    var currentIndex: int

    ghost predicate Valid()
      reads this
    {
      utfBytes.Length == 4
      && ((currentCount == 0 && currentIndex == 0) || (1 <= currentIndex < currentCount <= 4))
    }

    /** The buffering state as a value. */
    ghost function State(): (s: Buffered)
      reads this, utfBytes
      requires Valid()
      ensures WellBuffered(s)
    {
      Buffered(currentCount, utfBytes[..currentIndex])
    }

    constructor(decode: seq<byte> -> string, segment: string -> seq<string>)
      ensures Valid() && fresh(utfBytes)
      ensures this.decode == decode && this.segment == segment
      ensures State() == Buffered(0, [])
    {
      this.decode := decode;
      this.segment := segment;
      utfBytes := new byte[4];
      currentCount := 0;
      currentIndex := 0;
    }

    /** Returns the text elements passed to the callback, in order. */
    method Feed(b: byte) returns (emitted: seq<string>)
      requires Valid()
      modifies this, utfBytes
      ensures Valid()
      ensures (State(), emitted) == Step(old(State()), b, decode, segment)
    {
      ghost var before := State();
      if currentCount == 0 {
        currentCount := GetUtf8ByteCount(b);
      }
      utfBytes[currentIndex] := b;
      currentIndex := currentIndex + 1;
      assert utfBytes[..currentIndex] == before.pending + [b];
      emitted := [];
      if currentIndex == currentCount {
        emitted := segment(decode(utfBytes[..currentCount]));
        currentCount := 0;
        currentIndex := 0;
      }
    }
  }
}
