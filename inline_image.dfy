/**
 * `InlineImage` (Misc/InlineImage.cs): wraps a Base64 image payload in the
 * iTerm2 inline-image operating system command, `ESC ] 1337 ; File=inline=1
 * : payload BEL`. Encoding the bitmap as JPEG and Base64 is not modelled.
 */
module InlineImage {
  import opened ITermFile
  import opened Strings

  const InlineImageCode: int := 1337

  const ESC: char := '\U{1B}'
  /** The operating system command introducer that follows ESC (ECMA-48 section 8.3.89). */
  const OSC: char := ']'
  const BEL: char := '\U{7}'

  /** The command text the iTerm2 handler parses: `File=inline=1:` and the payload. */
  function CommandText(encodedImage: string): string
  {
    "File=inline=1:" + encodedImage
  }

  /** `GenerateControlSequence`. */
  function GenerateControlSequence(encodedImage: string): (s: string)
    ensures |s| == |encodedImage| + 22
    ensures s[0] == ESC && s[1] == OSC && s[2..7] == "1337;" && s[|s| - 1] == BEL
    ensures s[7..|s| - 1] == CommandText(encodedImage)
    ensures s[21..|s| - 1] == encodedImage
  {
    [ESC, OSC] + Decimal(InlineImageCode) + ";" + CommandText(encodedImage) + [BEL]
  }

  /** The code in the sequence is the decimal form of `InlineImageCode`. */
  lemma CodeIs1337()
    ensures Decimal(InlineImageCode) == "1337"
  {
  }

  /**
   * Round trip with the parser: the text between `1337;` and BEL starts with
   * `File=`, its arguments `inline=1` are accepted, and what follows the
   * first `:` is exactly the payload, so parsing it comes down to decoding
   * the payload.
   */
  lemma {:induction false} ParsesBack<Image>(encodedImage: string, load: string -> ImageLoad<Image>)
    ensures var s := GenerateControlSequence(encodedImage);
            Parse(s[7..|s| - 1], load) == PayloadOutcome(encodedImage, load)
  {
    assert CommandText(encodedImage) == FileCommandHeader + "inline=1" + ":" + encodedImage;
    ArgumentsBeforePayload("inline=1", encodedImage, load, load);
    InlineOneAccepted();
  }
}
