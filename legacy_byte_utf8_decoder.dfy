/**
 * `ByteUtf8Decoder` of the older `Terminal` namespace (ByteUtf8Decoder.cs):
 * the same lead-byte rule and four-byte buffer, but each completed group is
 * decoded into a one-character array and only that character is passed on.
 * The .NET UTF-8 decoder is called without flushing, so it keeps an
 * incomplete sequence at the end of a group and joins it to the next one.
 * It is given as a function from the bytes it holds followed by a group to
 * the UTF-16 units it produces and the bytes it holds afterwards; `held` is
 * its state.
 */
module LegacyUtf8Decoder {
  type byte = bv8

  function GetUtf8ByteCount(leadingByte: byte): (n: int)
    ensures leadingByte < 0x80 ==> n == 1
    ensures 0xC0 <= leadingByte <= 0xDF ==> n == 2
    ensures 0xE0 <= leadingByte <= 0xEF ==> n == 3
    ensures 0x80 <= leadingByte <= 0xBF || 0xF0 <= leadingByte ==> n == 4
  {
    if leadingByte < 128 then 1
    else if ((leadingByte ^ 0xC0) >> 5) == 0 then 2
    else if ((leadingByte ^ 0xE0) >> 4) == 0 then 3
    else 4
  }

  /** What one call of `Feed` does for the caller. */
  datatype FeedOutcome =
    | Buffering
      /** The callback ran once, with this character. */
    | Emitted(c: char)
      /** `GetChars` threw `ArgumentException`: the group decodes to more than the one-character array holds. */
    | BufferTooSmall

  class ByteUtf8Decoder {
    const decode: seq<byte> -> (string, seq<byte>)
    const utfBytes: array<byte>
    const result: array<char>
    var currentCount: int
    var currentIndex: int
    var held: seq<byte>

    ghost predicate Valid()
      reads this
    {
      utfBytes.Length == 4 && result.Length == 1
      && ((currentCount == 0 && currentIndex == 0) || (1 <= currentIndex < currentCount <= 4))
    }

    constructor(decode: seq<byte> -> (string, seq<byte>))
      ensures Valid() && fresh(utfBytes) && fresh(result)
      ensures this.decode == decode && currentCount == 0 && currentIndex == 0 && held == []
    {
      this.decode := decode;
      utfBytes := new byte[4];
      result := new char[1];
      currentCount := 0;
      currentIndex := 0;
      held := [];
    }

    method Feed(b: byte) returns (outcome: FeedOutcome)
      requires Valid()
      modifies this, utfBytes, result
      ensures outcome != BufferTooSmall ==> Valid()
      ensures var count := if old(currentCount) == 0 then GetUtf8ByteCount(b) else old(currentCount);
              var group := old(utfBytes[..currentIndex]) + [b];
              var (units, rest) := decode(old(held) + group);
              if |group| < count then
                outcome == Buffering && currentCount == count && utfBytes[..currentIndex] == group && held == old(held)
              else if |units| > 1 then
                outcome == BufferTooSmall && currentIndex == currentCount == count && held == old(held)
              else
                outcome == Emitted(if |units| == 1 then units[0] else old(result[0]))
                && currentCount == 0 && currentIndex == 0 && held == rest
    {
      ghost var before := utfBytes[..currentIndex];
      if currentCount == 0 {
        currentCount := GetUtf8ByteCount(b);
      }
      utfBytes[currentIndex] := b;
      currentIndex := currentIndex + 1;
      assert utfBytes[..currentIndex] == before + [b];
      if currentIndex == currentCount {
        var (units, rest) := decode(held + utfBytes[..currentCount]);
        if |units| > 1 {
          return BufferTooSmall;
        }
        held := rest;
        if |units| == 1 {
          result[0] := units[0];
        }
        outcome := Emitted(result[0]);
        currentCount := 0;
        currentIndex := 0;
      } else {
        outcome := Buffering;
      }
    }
  }
}
