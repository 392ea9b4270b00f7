/**
 * What the VT100 decoder (Vt100/Decoder.cs, Vt100/DecoderCommands.cs) sends
 * to its `IDecoderLogger`. Each message of the source is one constructor,
 * carrying the values the source formats into it; the logger keeps them in
 * order.
 */
module DecoderLogs {
  import opened Wrappers

  datatype LogEntry =
      /** "Unimplemented control character 0x{0:X}." */
    | UnimplementedControl(code: int)
      /** "Escape character within ANSI code." */
    | EscapeWithinAnsiCode
      /** "Broken ANSI code data for command '{c}': '{csiCodeData}'" */
    | BrokenAnsiCodeData(command: char, data: string)
      /** "Unimplemented ANSI code {0}, data {1}." */
    | UnimplementedAnsiCode(command: char, data: string)
      /** "Unimplemented non-CSI code '{0}'." */
    | UnimplementedNonCsiCode(character: char)
      /** "Unimplemented erase display mode." */
    | UnimplementedEraseDisplay
      /** "Unimplemented erase line mode." */
    | UnimplementedEraseLine
      /** "Unsupported device status report with params {0}." */
    | UnsupportedStatusReport(params: seq<Option<int>>)
      /** "Unsupported device attributes query with params {0}." */
    | UnsupportedAttributes(params: seq<Option<int>>)
      /** "Unimplemented mode set with params {0}." */
    | UnimplementedModeSet(params: seq<Option<int>>)
      /** "Unimplemented mode reset with params {0}." */
    | UnimplementedModeReset(params: seq<Option<int>>)
      /** "Unimplemented SGR code {0}." */
    | UnimplementedSgr(value: int)
      /** "Unexpected palette color number." */
    | UnexpectedPaletteColor
      /** "Unimplemented extended color mode." */
    | UnimplementedExtendedColor
}
