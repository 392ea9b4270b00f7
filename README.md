# TermSharp core in Dafny

TermSharp is a terminal widget. A host feeds it bytes from a program. The
widget decodes them as UTF-8, runs the VT100/ANSI escape sequences among them,
and prints the remaining text into a list of rows. The rows are wrapped
into sublines and drawn with colours, a selection and a cursor. Key presses
go the other way and are encoded as VT100 sequences. This project models
that core and proves properties of it:

- the byte decoders: `ByteUtf8Decoder` and the older one in the `Terminal` namespace;
- the VT100 parser state machine, the parsing of its parameters, and the command handlers;
- the `Decoder` class, which drives a `Terminal`;
- the row buffer of `Terminal`: the height map, the screen rows, erasing, and collecting the selection;
- the text rows (`MonospaceTextRow`, the older `MonospaceTextRow` and `TextRow`) and `ImageRow`;
- the cursor, the encoder, graphic renditions and colour ranges;
- the iTerm2 inline-image escape and the small value types: `IntegerPosition`, `ClipboardData`, `SimpleCache`, `LayoutParameters`, `RowCollection`.

Files and modules:

- Each source file is one module. The older classes in the `Terminal` namespace are the `Legacy*` modules.
- `Vt100/Decoder.cs` is split three ways. `Vt100Printing` (print_step.dfy) states on values where `HandleRegularCharacter` puts an element and where it leaves the cursor, refresh included. `Vt100Views` (decoder_views.dfy) states on values what every action of the decoder does to a `View` of the terminal and to a `Trace` of the log, the replies and the bells. `Vt100Decoder` (decoder.dfy) is the `Decoder` class, whose methods are proved against both.
- Values are datatypes. Objects whose fields the source updates are classes with `modifies` clauses.
- Loops are methods proved against a specification function.
- `Wrappers`, `Strings` and `CSharpInt` hold the stock pieces: `Option`, splitting and trimming, C#'s truncating division and 32-bit wrap-around.

## Model

| member | source | states |
|---|---|---|
| Utf8Decoder.GetUtf8ByteCount | Vt100/ByteUtf8Decoder.cs:43-58 | a lead byte below 0x80 gives 1, 0xC0-0xDF give 2, 0xE0-0xEF give 3, and continuation bytes and bytes from 0xF0 give 4 |
| Utf8Decoder.ByteCountAgreesWithRfc3629 | Vt100/ByteUtf8Decoder.cs:43-58 | on every byte that can lead a well-formed sequence, the count is the length in section 3 of RFC 3629 |
| Utf8Decoder.Step | Vt100/ByteUtf8Decoder.cs:22-41 | one `Feed` keeps the buffer consistent with the group length, and emits elements only when it goes back to idle |
| Utf8Decoder.FeedAll | Vt100/ByteUtf8Decoder.cs:22-41 | feeding a byte stream keeps the buffer consistent |
| Utf8Decoder.FeedGroup | Vt100/ByteUtf8Decoder.cs:22-41 | one complete group fed to an idle decoder emits the text elements of its decoding and leaves the decoder idle |
| Utf8Decoder.FeedPartial | Vt100/ByteUtf8Decoder.cs:22-41 | the rest of a group fed after its first bytes were buffered emits the whole group's elements |
| Utf8Decoder.FeedGroups | Vt100/ByteUtf8Decoder.cs:22-41 | a stream made of complete groups is decoded group by group, and the decoder ends idle |
| Utf8Decoder.AsciiByteIsOneElement | Vt100/ByteUtf8Decoder.cs:24-40 | an ASCII byte reaching an idle decoder gives exactly one callback, with that character |
| Utf8Decoder.ByteUtf8Decoder.constructor | Vt100/ByteUtf8Decoder.cs:14-20 | the decoder starts idle with a fresh four-byte buffer |
| Utf8Decoder.ByteUtf8Decoder.Feed | Vt100/ByteUtf8Decoder.cs:22-41 | the new buffering state and the elements passed to the callback are those of `Step` |
| LegacyUtf8Decoder.GetUtf8ByteCount | ByteUtf8Decoder.cs:38-53 | the same lead-byte lengths as the later decoder |
| LegacyUtf8Decoder.ByteUtf8Decoder.constructor | ByteUtf8Decoder.cs:14-20 | the decoder starts idle, with a four-byte buffer, a one-character result and a .NET decoder holding no bytes |
| LegacyUtf8Decoder.ByteUtf8Decoder.Feed | ByteUtf8Decoder.cs:22-36 | a short group is buffered; a complete group is decoded after the bytes the .NET decoder held back from earlier groups, since `GetChars` is called without flushing, and the decoder then holds the new incomplete tail; one character goes to the callback (the decoded one, or the previous result when the decoding is empty, as when the group's bytes are only held) and the buffer resets; a group that decodes to two UTF-16 units overflows the one-character result and throws |
| Clipboard.TrimRow | Misc/ClipboardData.cs:32 | `TrimEnd('\n').TrimEnd('\r')`: a prefix of the row, not ending in CR, with only CR and LF cut, and every LF cut after every CR cut |
| Clipboard.TrimRows | Misc/ClipboardData.cs:32 | every row trimmed, in order |
| Clipboard.ClipboardData.constructor | Misc/ClipboardData.cs:14-17 | no rows |
| Clipboard.ClipboardData.AppendText | Misc/ClipboardData.cs:19-22 | the text becomes the last row |
| Clipboard.ClipboardData.Text | Misc/ClipboardData.cs:24-34 | empty without rows, the trimmed row for one row |
| Clipboard.TextOfAppend | Misc/ClipboardData.cs:24-34 | appending a row adds a newline and the trimmed row to the text |
| Clipboard.TextLength | Misc/ClipboardData.cs:32 | the text is as long as the trimmed rows plus one newline between each two |
| LegacyClipboard.ClipboardData.constructor | ClipboardData.cs:15-18 | no rows |
| LegacyClipboard.ClipboardData.AppendText | ClipboardData.cs:20-23 | the text becomes the last row |
| LegacyClipboard.ClipboardData.Text | ClipboardData.cs:25-35 | empty without rows, the row itself for one row |
| LegacyClipboard.AggregateIsJoin | ClipboardData.cs:33 | the left fold `x + NewLine + y` from the first row is the rows joined with newlines |
| LegacyClipboard.TextIsJoin | ClipboardData.cs:33 | the text of one or more rows is the rows joined with newlines |
| LegacyClipboard.TextLength | ClipboardData.cs:33 | the text is as long as the rows plus one newline between each two |
| TerminalCursor.ClampIntoScreen | Cursor.cs:35-50 | the `Position` setter puts the row into `[0, ScreenRowCount)` and the column at 0 or more, keeping each coordinate that is already inside |
| TerminalCursor.ClampKeepsValid | Cursor.cs:35-50 | a position already on the screen is kept, and clamping twice is clamping once |
| TerminalCursor.StaysOnForNBlinks | Cursor.cs:22-91 | after `StayOnForNBlinks(n)` the cursor stays visible for the next `n` blink ticks |
| TerminalCursor.BlinkWithoutWait | Cursor.cs:80-89 | with no rounds to wait, a tick flips the blink state exactly when the cursor is enabled, and two ticks restore it |
| TerminalCursor.Cursor.constructor | Cursor.cs:14-20 | the cursor starts at the origin, hidden, disabled, with no rounds to wait |
| TerminalCursor.Cursor.StayOnForNBlinks | Cursor.cs:22-27 | the cursor is shown and waits `n` rounds; position and enabled flag are kept |
| TerminalCursor.Cursor.SetPosition | Cursor.cs:35-50 | the stored position is the clamped value; the blink state is kept |
| TerminalCursor.Cursor.SetEnabled | Cursor.cs:65 | only the enabled flag changes |
| TerminalCursor.Cursor.BlinkTick | Cursor.cs:77-90 | one round of the blinking loop: the blink state becomes `Tick` of the old one |
| Positions.IntegerPosition.GetHashCode | Misc/IntegerPosition.cs:52-58 | `23 * X + Y`, wrapped to a 32-bit integer |
| Positions.ShiftedByMovesBoth | Misc/IntegerPosition.cs:17-30 | `ShiftedBy`, `ShiftedByX` and `ShiftedByY` move each coordinate by its delta and keep the other |
| Positions.ShiftedByComposes | Misc/IntegerPosition.cs:17-30 | shifting by both deltas is shifting by each in either order, and shifting back undoes it |
| Positions.WithReplacesOne | Misc/IntegerPosition.cs:32-40 | `WithX` and `WithY` replace one coordinate and keep the other; replacing by the same value changes nothing |
| Positions.EqualityAgrees | Misc/IntegerPosition.cs:47-68 | `==`, `!=` and `Equals` agree with equality of both coordinates; a null or other object is never equal |
| Positions.HashRespectsEquality | Misc/IntegerPosition.cs:52-63 | equal positions have equal hash codes |
| LegacyPositions.ShiftedByMovesBoth | IntegerPosition.cs:17-30 | the shifts move each coordinate by its delta and keep the other |
| LegacyPositions.ShiftedByComposes | IntegerPosition.cs:17-30 | shifting by both deltas is shifting by one and then the other |
| LegacyPositions.WithReplacesOne | IntegerPosition.cs:32-40 | `WithX` and `WithY` replace one coordinate and keep the other |
| Cache.SimpleCache.constructor | Misc/SimpleCache.cs:12-16 | the cache starts at generation -1 with no result |
| Cache.SimpleCache.GetValue | Misc/SimpleCache.cs:18-31 | on a new generation the old result is disposed and the factory called once; on the same generation the cached result is returned without a call; either way the result is the cached one |
| Layout.LayoutParameters.constructor | LayoutParameters.cs:13-18 | the font and both colours as given, width 0, generation 0 |
| Layout.LayoutParameters.UpdateGeneration | LayoutParameters.cs:96-99 | `generation++`, wrapping at the 32-bit bound |
| Layout.LayoutParameters.SetFont | LayoutParameters.cs:20-35 | the font is set; the generation advances exactly when the value changes; the other fields are kept |
| Layout.LayoutParameters.SetWidth | LayoutParameters.cs:37-52 | the width is set; the generation advances exactly when the value changes |
| Layout.LayoutParameters.SetDefaultForeground | LayoutParameters.cs:54-69 | the default foreground is set; the generation advances exactly when the value changes |
| Layout.LayoutParameters.SetSelectionColor | LayoutParameters.cs:71-86 | the selection colour is set; the generation advances exactly when the value changes |
| Layout.IncrementWithoutWrap | LayoutParameters.cs:96-99 | below the 32-bit bound the generation grows by one |
| ImageRows.ImageSublines | Rows/ImageRow.cs:27-31 | the subline count is at least 1; it is the preferred line count when that is 1 or more, and otherwise the number of whole lines that fit in the image height (`r * lineHeight <= height < (r + 1) * lineHeight`) |
| ImageRows.ImageRow.constructor | Rows/ImageRow.cs:15-19 | the row keeps the image height and the preferred height in lines, and has no size until it is prepared |
| ImageRows.ImageRow.PrepareForDrawing | Rows/ImageRow.cs:21-35 | the maximal column comes from the line and character width, the subline count is `ImageSublines`, and the returned height is line height times subline count, never less than one line |
| ImageRows.ImageRow.CurrentMaximalCursorPosition | Rows/ImageRow.cs:69 | the maximal cursor position is the maximal column computed at preparation, never negative |
| ImageRows.ImageRow.Erase | Rows/ImageRow.cs:59-62 | erasing an image row changes none of its measurements |
| ImageRows.ImageRow.ResetSelection | Rows/ImageRow.cs:44-47 | resetting the selection changes none of the row's measurements |
| ImageRows.ImageRow.DrawCursor | Rows/ImageRow.cs:49-52 | drawing the cursor changes none of the row's measurements |
| ImageRows.ImageRow.FillClipboardData | Rows/ImageRow.cs:54-57 | an image row adds nothing to the clipboard data |
| InlineImage.GenerateControlSequence | Misc/InlineImage.cs:36-39 | the sequence is ESC, the OSC introducer, `1337;`, the `File=inline=1:` command with the encoded image, and BEL; it is 22 characters longer than the image text |
| InlineImage.CodeIs1337 | Misc/InlineImage.cs:41 | the decimal text of the inline image code is `1337` |
| InlineImage.ParsesBack | Misc/InlineImage.cs:36-39 | the command inside a generated sequence parses back to exactly the outcome of loading the encoded image, so the only tag written (`inline=1`) is always accepted |
| LegacyRowCollection.RowCollection.constructor | RowCollection.cs:16-19 | a new collection holds no rows |
| LegacyRowCollection.RowCollection.AppendRow | RowCollection.cs:21-25 | the row is added at the end, the count grows by one and `ContentChanged` is raised once |
| LegacyRowCollection.RowCollection.GetAllRows | RowCollection.cs:27-33 | the rows are yielded last first: element `k` is row `Count - 1 - k` |
| LegacyRowCollection.AllRowsAreReversed | RowCollection.cs:27-33 | what `GetAllRows` yields is the reverse of the stored rows |
| LegacyRowCollection.RowCollection.Clear | RowCollection.cs:35-39 | all rows are removed and `ContentChanged` is raised once |
| LegacyRowCollection.RowCollection.Count | RowCollection.cs:41-47 | the count is the number of rows appended since the last clear |
| Encoder.HandleControlModifier | Vt100/Encoder.cs:92-102 | with Control held, a key gives at most one byte and that byte is a C0 control code |
| Encoder.ModifierOnlyEmitsNothing | Vt100/Encoder.cs:66-107 | a key that is only a modifier (Control, Alt, Shift, left or right) sends nothing |
| Encoder.ControlCodes | Vt100/Encoder.cs:72-102 | with Control, `a`..`z` send the same code as `A`..`Z` (`key - 96`), `@`..`_` send `key - 64`, and every other key sends nothing |
| Encoder.PrintablePassesThrough | Vt100/Encoder.cs:77-81 | without Control, a key in the printable range 32..126 sends its own code |
| Encoder.NamedKeysUseTable | Vt100/Encoder.cs:82-89 | any other key sends its table entry byte for byte, or nothing when it has none |
| Encoder.TableSamples | Vt100/Encoder.cs:17-63 | arrows send `ESC [ A`..`D`, Delete `ESC [ 3 ~`, BackSpace DEL, Return and NumPadEnter CR, NumPad digits their digit, F5 `ESC [ [ 1 5 ~`; Alt and Shift do not change them |
| Encoder.MultiByteEntriesAreEscapeSequences | Vt100/Encoder.cs:17-63 | every table entry has 1 to 6 bytes, and every entry longer than one byte starts with ESC and `[` |
| Encoder.ShadowedEntriesAgree | Vt100/Encoder.cs:50-81 | the Caret and Equal entries are never reached, and the printable pass-through sends exactly what they hold |
| Encoder.OutputIsShort | Vt100/Encoder.cs:66-90 | one key press sends at most six bytes |
| LegacyEncoder.PassThrough | Vt100Encoder.cs:36-40 | letters, digits and Space send their own code |
| LegacyEncoder.NamedKeys | Vt100Encoder.cs:22-48 | Return sends CR, BackSpace BS, Tab HT, and the arrows `ESC [ A`..`D` |
| LegacyEncoder.OtherKeysEmitNothing | Vt100Encoder.cs:41-48 | a key that is neither passed through nor in the table sends nothing |
| LegacyEncoder.ModifiersIgnored | Vt100Encoder.cs:34-49 | the modifiers never change what a key sends |
| LegacyEncoder.EmitsIffKnown | Vt100Encoder.cs:34-49 | a key sends something exactly when it is a letter, a directly passed key or a table key |
| ColorRanges.Minimum | Rows/MonospaceTextRow.cs:325-326 | the least element of a non-empty set of keys, the first one `OrderBy` yields |
| ColorRanges.SortedIncreases | Rows/MonospaceTextRow.cs:325-326 | the ordered keys are strictly increasing |
| ColorRanges.SortedCoversSet | Rows/MonospaceTextRow.cs:325-326 | every key of the set appears in the ordered array |
| ColorRanges.SortedWithinSet | Rows/MonospaceTextRow.cs:325-326 | the ordered array holds only keys of the set |
| ColorRanges.RunEnd | Rows/MonospaceTextRow.cs:326 | from a key, the last key of its unbroken run of one colour: every key in between is present and the one after is not |
| ColorRanges.RunStart | Rows/MonospaceTextRow.cs:325 | from a key, the first key of its unbroken run: every key in between is present and the one before is not |
| ColorRanges.BeginsAndEndsPair | Rows/MonospaceTextRow.cs:325-330 | the ordered begins and ordered ends have the same length and the `i`-th end closes the run of the `i`-th begin, which is why the source may pair them by index |
| ColorRanges.RangeIsRun | Rows/MonospaceTextRow.cs:327-330 | every range yielded for a colour is a maximal run: length at least 1, every key inside present, the key before and the key after absent |
| ColorRanges.RangesAreMaximalRuns | Rows/MonospaceTextRow.cs:319-332 | every `(begin, length, color)` yielded has length at least 1, covers only entries of that colour, and cannot be extended on either side |
| ColorRanges.RangesCoverEntries | Rows/MonospaceTextRow.cs:319-332 | every entry of the dictionary lies inside a range yielded for its colour |
| Colors.Brighten | Vt100/DecoderCommands.cs:472-480 | a colour with an entry in the bright table becomes that entry; any other becomes the colour with increased light |
| CSharpInt.Div | Rows/ImageRow.cs:31 | C# integer division: the remainder has the sign of the dividend and is smaller than the divisor, and it agrees with Dafny's division for nonnegative operands |
| CSharpInt.Mod | Vt100/DecoderCommands.cs:437-439 | C# `%`: `a == Div(a, b) * b + r`, with `r` of the sign of `a` |
| CSharpInt.Wrap32 | LayoutParameters.cs:96-99 | an unchecked `int` result: inside the 32-bit range, congruent to the exact value modulo 2^32, and equal to it when it already fits |
| CSharpInt.DivCeil | Rows/MonospaceTextRow.cs:334-338 | `DivisionWithCeiling`: the least `q` with `dividend <= q * divisor`, at least 1 |
| Vt100Printing.CellsPerLine | Vt100/Decoder.cs:134-135 | the number of cells on one screen line, `MaximalColumn + 1`, is at least 1 |
| Vt100Printing.DeferredWrap | Vt100/Decoder.cs:125-143 | printing into the last cell of a line keeps the cursor there and sets the end-of-line flag; the next character goes into the first cell of the following line |
| Vt100Printing.ConsecutiveCells | Vt100/Decoder.cs:125-143 | two consecutive printed elements land in consecutive cells, whatever the line width |
| Vt100Printing.ClampedLine | Cursor.cs:36-44 | the line the cursor setter leaves is on the screen, from 0 to the last screen line, and a line already on the screen is kept |
| Vt100Printing.ClampedTwice | Cursor.cs:36-44 | clamping a line again onto the same screen leaves it where the first clamp put it |
| Vt100Printing.InsertedFromPut | Vt100/Decoder.cs:112-123 | the write into the cursor's row, followed by the refresh taken exactly when the row's subline count changed, gives `Inserted`: the element in the cursor's cell, every other text kept, the cursor kept without a refresh and its line following the first screen row, clamped, with one |
| Vt100Printing.PrintedFromInserted | Vt100/Decoder.cs:125-143 | the deferred step right, the insert and the advance together give `PrintedAt`: the `PrintStep` cell, column and flag, with the cursor's screen line, the first screen row and the screen kept when the row keeps its number of sublines, and the line shifted by as many rows as the first screen row moved, then clamped onto the screen, when the refresh ran |
| Vt100Decoder.InsertAtCursor | Vt100/Decoder.cs:112-123 | as `Inserted` says: the element is put into the cursor's screen row at the cursor column with the effective colours and no other row's text changes; the terminal is refreshed exactly when that row's subline count changed; the cursor column stays; without a refresh the cursor, the first screen row and the screen are kept, and with one the cursor's line moves by as many rows as the first screen row moved, clamped onto the screen |
| Vt100Decoder.RefreshIf | Vt100/Decoder.cs:119-122 | as `Reflowed` says: after a change of sublines the texts and the cursor column are kept and the cursor's line follows the first screen row, clamped onto the screen; without one nothing changes |
| Vt100Decoder.PutAtCursor | Vt100/Decoder.cs:114-119 | `PutCharacterAt` on the cursor's row replaces that row's text by the put text, reports whether its subline count changed, and leaves the cursor, the first screen row and the screen as they were |
| Vt100Decoder.RefreshKeepingTexts | Vt100/Decoder.cs:121 | `terminal.Refresh()` keeps every row's text and the cursor column, and moves the cursor's line by as many rows as the first screen row moved, clamped onto the new screen |
| Vt100Decoder.Advance | Vt100/Decoder.cs:134-142 | the flag is set exactly when the cursor is on the last cell of its line, where it stays; otherwise it moves one cell right, its line clamped onto the screen; the texts, the first screen row and the screen stay |
| Vt100Decoder.StepRightIf | Vt100/Decoder.cs:128-132 | with the end-of-line flag set the cursor first moves one cell right on the same screen row; otherwise it stays |
| Vt100Decoder.PrintElement | Vt100/Decoder.cs:125-143 | as `PrintedAt` says: the element lands in the cell `PrintStep` gives and only that row's text changes; the cursor column and the end-of-line flag become `PrintStep`'s, with the cursor's screen line, the first screen row and the screen kept when the row keeps its number of sublines, and the line shifted by as many rows as the first screen row moved, then clamped onto the screen, when the refresh ran |
| Vt100Views.LineFeedClamp | Vt100/Decoder.cs:54-63 | moving one line down keeps the column; the clamped row stays the same exactly when the cursor was on the last line, so only then is a row appended |
| Vt100Views.ReturnClamp | Vt100/Decoder.cs:64-67 | a carriage return lands in column 1 of the same line after clamping |
| Vt100Decoder.AppendBlankRows | Vt100/Decoder.cs:253-256 | `count` empty rows are added after the existing ones, which are kept, with the colours unchanged |
| Vt100Views.MaximalPositionOf | Vt100/DecoderCommands.cs:89-97 | the terminal cursor's maximal position has nonnegative coordinates |
| Vt100Decoder.EraseOnLine | Vt100/DecoderCommands.cs:114-135 | erasing on one screen row changes that row's state by `ErasedState` and nothing else, and leaves the cursor |
| Vt100Views.OnlyQueriesAnswer | Vt100/DecoderCommands.cs:143-176 | a command sends bytes back exactly when it is a position report (`6n`) or a primary attributes query (`c` with 0); a position report is `ESC [ ... R` and the attributes answer is 8 bytes |
| Vt100Views.AnswerOrLog | Vt100/DecoderCommands.cs:143-176 | a status or attributes query either answers or logs one line, never both; a cursor movement does neither |
| Vt100Views.CaretPrints | Vt100/Decoder.cs:84-90 | a control character between 1 and 31 leaves the parser as it was and prints `^` followed by the character 64 above it |
| Vt100Views.StepFacts | Vt100/Decoder.cs:30-106 | feeding an element keeps the parser state consistent, and a caret action always carries a character between 1 and 31 |
| Vt100Decoder.Decoder.constructor | Vt100/Decoder.cs:17-28 | the decoder starts idle with no parameters, a plain rendition and a plain saved copy, the saved cursor at the origin, one blink round, and nothing answered or logged |
| Vt100Decoder.Decoder.SetVtPosition | Vt100/Decoder.cs:318-348 | corrected: reads the VT100 position through the corrected getter `Vt100Cursor.VtPosition`, which adds the subline before flooring at zero where the source clamps first; the `Position` setter clears the end-of-line flag; a position on the screen moves the cursor so that reading it back gives the clamped position, and rows are only ever appended |
| Vt100Decoder.Decoder.MoveCursor | Vt100/DecoderCommands.cs:20-78 | corrected: reads the VT100 position through the corrected getter `Vt100Cursor.VtPosition`, which adds the subline before flooring at zero where the source clamps first; each cursor command sets the VT100 position to its target (`MoveTarget`), which reads back clamped when it lies on the screen |
| Vt100Decoder.Decoder.CarriageReturn | Vt100/Decoder.cs:64-67 | corrected: reads the VT100 position through the corrected getter `Vt100Cursor.VtPosition`, which adds the subline before flooring at zero where the source clamps first; a carriage return sets the VT100 position to column 0 of the same line, read back clamped to column 1 |
| Vt100Decoder.Decoder.LineFeed | Vt100/Decoder.cs:54-63 | corrected: reads the VT100 position through the corrected getter `Vt100Cursor.VtPosition`, which adds the subline before flooring at zero where the source clamps first; a line feed (`LineFed`) sets the VT100 cursor one line down; when it reads back on the same line, an empty row holding output is appended and the cursor, read again, set one line down once more; `LineFeedAboveLastLine` and `LineFeedOnLastLine` spell out the rows and the cursor in each case |
| Vt100Decoder.Decoder.MoveDown | Vt100/Decoder.cs:56-57 | corrected: reads the VT100 position through the corrected getter `Vt100Cursor.VtPosition`, which adds the subline before flooring at zero where the source clamps first; the old VT100 position is read, one line down is written, and the new one read back is the clamped target |
| Vt100Decoder.Decoder.SetAndRead | Vt100/Decoder.cs:289-348 | corrected: reads the VT100 position through the corrected getter `Vt100Cursor.VtPosition`, which adds the subline before flooring at zero where the source clamps first; writing a VT100 position on the screen and reading it back gives the clamped position |
| Vt100Decoder.Decoder.AppendOutputRow | Vt100/Decoder.cs:60-61 | corrected: reads the VT100 position through the corrected getter `Vt100Cursor.VtPosition`, which adds the subline before flooring at zero where the source clamps first; one empty row holding output is appended after the kept rows (`OutputRowAppended`), then the VT100 cursor, read again, is `Moved` one line down |
| Vt100Decoder.Decoder.HandleRegularCharacter | Vt100/Decoder.cs:125-143 | the element lands in the cell `PrintStep` gives with the rendition's effective colours and the cursor column and the end-of-line flag are updated as `PrintStep` says, with the cursor's screen line, the first screen row and the screen kept when the row keeps its number of sublines, and the line shifted by as many rows as the first screen row moved, then clamped onto the screen, when the refresh ran |
| Vt100Decoder.Decoder.PrintOnView | Vt100/Decoder.cs:125-143 | `HandleRegularCharacter` read on the view: `Printed` from the view before to the view after, so the texts, the cursor, the flag, the first screen row and the screen are all stated, and the pen, colours and look are kept |
| Vt100Decoder.Decoder.SaveCursorPosition | Vt100/DecoderCommands.cs:156-160 | corrected: reads the VT100 position through the corrected getter `Vt100Cursor.VtPosition`, which adds the subline before flooring at zero where the source clamps first; the saved rendition becomes a copy of the current one and the saved position is the current VT100 position |
| Vt100Decoder.Decoder.RestoreCursorPosition | Vt100/DecoderCommands.cs:162-166 | the rendition becomes a copy of the saved one and the VT100 position is set to the saved position |
| Vt100Decoder.Decoder.TerminalReset | Vt100/Decoder.cs:248-258 | the cursor is enabled and put at the origin, the rendition is reset, and one blank row per screen row is appended |
| Vt100Decoder.Decoder.EraseDisplay | Vt100/DecoderCommands.cs:80-105 | mode 0 erases from the cursor to the maximal position, mode 1 from the origin to the cursor, mode 2 everything after homing the cursor, and any other mode only logs |
| Vt100Decoder.Decoder.ErasePartOfDisplay | Vt100/DecoderCommands.cs:87-104 | modes 0 and 1 erase the range `EraseDisplayRange` gives with the rendition background |
| Vt100Decoder.Decoder.EraseScreenRange | Vt100/DecoderCommands.cs:104 | `terminal.EraseScreen` erases from `from` to `to` with the rendition background and leaves the cursor |
| Vt100Decoder.Decoder.EraseWholeDisplay | Vt100/DecoderCommands.cs:95-104 | mode 2 homes the cursor and erases from the origin to the maximal position |
| Vt100Decoder.Decoder.HomeCursor | Vt100/DecoderCommands.cs:98 | the VT100 position is set to (0, 0); when that is on the screen no row is appended |
| Vt100Decoder.Decoder.EraseInLine | Vt100/DecoderCommands.cs:118-141 | modes 0, 1 and 2 erase the cursor's screen line to its end, from its start, or whole, with the rendition background; any other mode only logs |
| Vt100Decoder.Decoder.EraseCharacter | Vt100/DecoderCommands.cs:107-116 | corrected: runs the range of `Vt100Commands.EraseCharacterRange`, `(x, x + n)` where the source passes `(x, x + n - 1)`; erase-character blanks the text of `n` cells from the cursor (0 means 1) and, through the inclusive colour loop, erases the colour overrides of those cells and of the one after them, as `Vt100Commands.EraseCharacterBlanksCount` states; it throws exactly when the range's end is below column 0 |
| Vt100Decoder.Decoder.SelectGraphicRendition | Vt100/DecoderCommands.cs:256 | the rendition state becomes what `HandleSgr` computes from the parameters, its logs are appended, and the effective colours are refreshed when a colour was set |
| Vt100Decoder.Decoder.DeviceStatusReport | Vt100/DecoderCommands.cs:143-154 | corrected: reads the VT100 position through the corrected getter `Vt100Cursor.VtPosition`, which adds the subline before flooring at zero where the source clamps first; parameter 6 answers the VT100 position; any other logs "unsupported" and answers nothing |
| Vt100Decoder.Decoder.ReportPosition | Vt100/DecoderCommands.cs:150-153 | corrected: reads the VT100 position through the corrected getter `Vt100Cursor.VtPosition`, which adds the subline before flooring at zero where the source clamps first; the answer is the cursor position report built from the current VT100 position |
| Vt100Decoder.Decoder.DeviceAttributes | Vt100/DecoderCommands.cs:168-176 | a non-private query with parameter 0 answers `LF ESC [ ? 1 ; 2 c`; any other logs and answers nothing |
| Vt100Decoder.Decoder.ChangeMode | Vt100/DecoderCommands.cs:178-217 | private modes 5 and 25 switch negative rendition and the cursor, 4 and 7 do nothing, and anything else is logged |
| Vt100Decoder.Decoder.RunCommand | Vt100/DecoderCommands.cs:241-267 | running the handler registered for a final character (`CommandRan`): it throws exactly when `Throws` says, appends `CommandLogs` and answers `CommandResponse`, and leaves the rows, cursor, rendition and saved state as `CommandEffect` says for that handler: the `MoveTarget` move, the `ED`, `EL` and `ECH` ranges erased, `SgrApplied`, the mode change, the state saved or restored, or nothing for the queries |
| Vt100Decoder.Decoder.RunMove | Vt100/DecoderCommands.cs:20-78 | corrected: reads the VT100 position through the corrected getter `Vt100Cursor.VtPosition`, which adds the subline before flooring at zero where the source clamps first; a cursor command, as `CommandRan` says: the view `Moved` to its `MoveTarget`, no log and no answer |
| Vt100Decoder.Decoder.RunOtherCommand | Vt100/DecoderCommands.cs:80-217 | every command but the cursor moves, as `CommandRan` says |
| Vt100Decoder.Decoder.RunEffect | Vt100/DecoderCommands.cs:80-217 | the commands that answer nothing (erases, save, restore, `SGR`, modes), as `CommandRan` says |
| Vt100Decoder.Decoder.RunStatusReport | Vt100/DecoderCommands.cs:143-154 | corrected: reads the VT100 position through the corrected getter `Vt100Cursor.VtPosition`, which adds the subline before flooring at zero where the source clamps first; `DSR` leaves the view as it was and logs and answers as `CommandRan` says |
| Vt100Decoder.Decoder.RunAttributes | Vt100/DecoderCommands.cs:168-176 | `DA` leaves the view as it was and logs and answers as `CommandRan` says |
| Vt100Decoder.Decoder.RunSave | Vt100/DecoderCommands.cs:156-160 | corrected: reads the VT100 position through the corrected getter `Vt100Cursor.VtPosition`, which adds the subline before flooring at zero where the source clamps first; `CSI s` puts aside the rendition, its colours and the VT100 cursor (`Saved`) |
| Vt100Decoder.Decoder.RunRestore | Vt100/DecoderCommands.cs:162-166 | `CSI u` makes the saved rendition current and sets the VT100 cursor to the saved position (`Restored`) |
| Vt100Decoder.Decoder.RunSgr | Vt100/DecoderCommands.cs:256 | `SGR` leaves the pen as `SgrApplied` says and logs what `HandleSgr` logs |
| Vt100Decoder.Decoder.RunMode | Vt100/DecoderCommands.cs:178-217 | `SM` and `RM` change the view as `ModeChanged` says and log an unimplemented mode |
| Vt100Decoder.Decoder.RunErase | Vt100/DecoderCommands.cs:80-141 | the three erase commands, as `CommandRan` says; only erase-character can throw |
| Vt100Decoder.Decoder.RunEraseDisplay | Vt100/DecoderCommands.cs:80-105 | `ED` never throws and erases as `DisplayErased` says |
| Vt100Decoder.Decoder.RunEraseInLine | Vt100/DecoderCommands.cs:118-141 | `EL` never throws and erases as `InLineErased` says |
| Vt100Decoder.Decoder.RunEraseCharacter | Vt100/DecoderCommands.cs:107-116 | corrected: with the range of `Vt100Commands.EraseCharacterRange` (text of `n` cells blanked where the source blanks `n - 1`, colours of `n + 1` cells erased where the source erases `n`); `ECH` throws exactly when its range ends below column 0 and erases as `CharactersErased` says |
| Vt100Decoder.Decoder.HandleNonCsiCode | Vt100/Decoder.cs:222-246 | a non-CSI escape code carried out as `ActionRan` says for `NonCsi(k)`: `ESC c` leaves the view `WasReset`, `ESC 7` leaves it `Saved`, `ESC 8` leaves it `Restored`, any other code leaves the view as it was and only an unknown one is logged; `ignoreNextChar` is set exactly for a character set designation |
| Vt100Decoder.Decoder.SavedStateCode | Vt100/Decoder.cs:236-241 | corrected: reads the VT100 position through the corrected getter `Vt100Cursor.VtPosition`, which adds the subline before flooring at zero where the source clamps first; `ESC 7` and `ESC 8`, as `ActionRan` says |
| Vt100Decoder.Decoder.OtherCode | Vt100/Decoder.cs:229-244 | a character set designation or an unknown code, as `ActionRan` says, setting `ignoreNextChar` exactly for the first |
| Vt100Decoder.Decoder.CharacterSetCode | Vt100/Decoder.cs:229-235 | `ESC (`, `)`, `*` or `+` changes no view and sets `ignoreNextChar` |
| Vt100Decoder.Decoder.UnknownCode | Vt100/Decoder.cs:242-244 | another non-CSI code is logged and changes nothing else |
| Vt100Decoder.Decoder.ResetCode | Vt100/Decoder.cs:226-228 | `ESC c` leaves the view `WasReset`: a screenful of empty rows appended, the cursor home and shown, the rendition plain |
| Vt100Decoder.Decoder.SaveCode | Vt100/Decoder.cs:236-238 | corrected: reads the VT100 position through the corrected getter `Vt100Cursor.VtPosition`, which adds the subline before flooring at zero where the source clamps first; `ESC 7` leaves the view `Saved` |
| Vt100Decoder.Decoder.RestoreCode | Vt100/Decoder.cs:239-241 | `ESC 8` leaves the view `Restored` |
| Vt100Decoder.Decoder.PerformCommand | Vt100/Decoder.cs:192-196 | `currentParams` set to the parsed parameters, then the command run; the result is `ActionRan` for the `Dispatch` action, its effect on the view being the command's |
| Vt100Decoder.Decoder.PerformControl | Vt100/Decoder.cs:41-99 | every action but a dispatched command never throws and is carried out as `ActionRan` says, printing included with the cursor's screen line after a refresh; only a character set designation sets `ignoreNextChar` |
| Vt100Decoder.Decoder.PerformOnTerminal | Vt100/Decoder.cs:45-99 | the actions outside an escape code, as `ActionRan` says: printing as `Printed` says (cell, column, flag and the cursor's screen line, kept or following the refresh), the moves, the bell, and nothing but the parser's log for the rest |
| Vt100Decoder.Decoder.PrintFor | Vt100/Decoder.cs:76-98 | a printed element, a tab (a space) or a control in caret notation, printed as `ActionEffect` says: the cells, the cursor column, the flag and the cursor's screen line as `Printed` gives them |
| Vt100Decoder.Decoder.PrintCaret | Vt100/Decoder.cs:86-90 | a control between 1 and 31 prints `^` and then the character 64 above it, each as `Printed` says, including the cursor's screen line after a refresh |
| Vt100Decoder.Decoder.Print | Vt100/Decoder.cs:98 | one element `Printed` on the view (the `PrintStep` cell, column and flag, with the cursor's screen line, the first screen row and the screen kept when the row keeps its number of sublines, and the line shifted by as many rows as the first screen row moved, then clamped onto the screen, when the refresh ran), with the log, the replies, the bells, `currentParams` and the blinking kept |
| Vt100Decoder.Decoder.MoveFor | Vt100/Decoder.cs:45-67 | corrected: reads the VT100 position through the corrected getter `Vt100Cursor.VtPosition`, which adds the subline before flooring at zero where the source clamps first; backspace, line feed and carriage return, as `ActionRan` says |
| Vt100Decoder.Decoder.Backspace | Vt100/Decoder.cs:45-49 | corrected: reads the VT100 position through the corrected getter `Vt100Cursor.VtPosition`, which adds the subline before flooring at zero where the source clamps first; `currentParams` becomes `[1]` and the view `Moved` to the `CursorLeft` target |
| Vt100Decoder.Decoder.RingBell | Vt100/Decoder.cs:68-75 | one bell more and nothing else changed |
| Vt100Decoder.Decoder.Feed | Vt100/Decoder.cs:30-106 | corrected: steps with `Vt100Parser.Next`, which compares whole characters where the source compares the low byte and ends a sequence on the grave accent, and it runs the corrected VT100 position getter `Vt100Cursor.VtPosition`, the corrected `ECH` (whose colour erase covers one cell past the `n` it blanks, see the Left out section) and the corrected 256-colour cube; an element is skipped when a character set designation asked for it; otherwise the cursor is held on for the blink rounds and the parser's action is carried out as `ActionRan` says: its throw, logs, replies, bell and `currentParams`, and its effect on the rows, cursor, rendition and saved state (`ActionEffect`); the parser state advances unless the action throws |
| Vt100Decoder.Decoder.FeedSkipped | Vt100/Decoder.cs:32-36 | the element after a character set designation is consumed as the parser's `Swallowed` step and changes neither the terminal nor the cursor |
| Vt100Decoder.Decoder.FeedHeld | Vt100/Decoder.cs:37-104 | with nothing to skip, the cursor is kept on for `CharReceivedBlinkDisabledRounds` blinks and the element's action is carried out as `ActionRan` says, a print as `Printed` says down to the cursor's screen line |
| Vt100Decoder.Decoder.SkipElement | Vt100/Decoder.cs:32-36 | skipping clears the flag and consumes the element as the parser's `Swallowed` step |
| Vt100Decoder.Decoder.HoldCursorOn | Vt100/Decoder.cs:37 | `StayOnForNBlinks(rounds)` keeps the cursor where it is and visible for `rounds` blinks |
| Vt100Decoder.Decoder.FeedElement | Vt100/Decoder.cs:38-104 | the element's action is carried out as `ActionRan` says, a print as `Printed` says down to the cursor's screen line, and the parser advances unless it throws |
| Vt100Decoder.Decoder.FeedCommand | Vt100/Decoder.cs:167-200 | a dispatched command carried out, the parser fields taking the step's values unless it threw |
| Vt100Decoder.Decoder.FeedControl | Vt100/Decoder.cs:41-99 | any other action carried out as `ActionRan` says, a print as `Printed` says down to the cursor's screen line, the parser fields taking the step's values |
| Vt100Views.LineFeedAboveLastLine | Vt100/Decoder.cs:54-58 | corrected: reads the VT100 position through the corrected getter `Vt100Cursor.VtPosition`, which adds the subline before flooring at zero where the source clamps first; a line feed above the last line keeps every row and the screen and leaves the VT100 cursor at the clamped position one line down |
| Vt100Views.LineFeedOnLastLine | Vt100/Decoder.cs:54-62 | corrected: reads the VT100 position through the corrected getter `Vt100Cursor.VtPosition`, which adds the subline before flooring at zero where the source clamps first; a line feed on the last line keeps the old rows, appends an empty row that becomes the last holding output, adds only empty rows after it, and leaves the VT100 cursor one line below the position read after the append, clamped, when that lands on the screen |
| Vt100Commands.CommandTable | Vt100/DecoderCommands.cs:241-267 | exactly the listed command letters have a handler; `H` and `f` share one, as do `G` and the grave accent; every handler is reachable from some letter |
| Vt100Commands.RelativeMovesInvert | Vt100/DecoderCommands.cs:20-59 | up then down by the same parameter, and left then right, return to the start; left at the end of a line moves one cell less; next and previous line move like down and up and go to column 1 |
| Vt100Commands.CursorPositionFromText | Vt100/DecoderCommands.cs:73-78 | `ESC [ row ; column H` moves the cursor to column `column` of row `row`: the first parameter is the row, the second the column |
| Vt100Commands.CursorPositionTarget | Vt100/DecoderCommands.cs:73-78 | with parameters `[row, column]` the target is `(column, row)` |
| Vt100Commands.CursorPositionDefaults | Vt100/DecoderCommands.cs:73-78 | with no parameters, or two empty ones, the target is `(1, 1)` |
| Vt100Commands.TwoParamsFromText | Vt100/Decoder.cs:172-190 | two decimal numbers separated by `;` parse to those two parameters |
| Vt100Commands.NoParamsFromText | Vt100/Decoder.cs:172-179 | empty data parses to one missing parameter and `;` to two |
| Vt100Commands.LineAroundHoldsCell | Vt100/DecoderCommands.cs:123-124 | the screen line around a cell begins at a multiple of the line width, holds the cell and is one line wide |
| Vt100Commands.EraseInLineRange | Vt100/DecoderCommands.cs:118-141 | a range exists exactly for modes 0, 1 and 2 |
| Vt100Commands.EraseInLineWithinLine | Vt100/DecoderCommands.cs:123-136 | mode 0 erases from the cursor to the end of its screen line, mode 1 from the start to the cursor, mode 2 the whole line; the range always holds the cursor |
| Vt100Commands.EraseDisplayRange | Vt100/DecoderCommands.cs:80-105 | a range exists exactly for modes 0, 1 and 2; it starts at the cursor only in mode 0 (or when the cursor is at the origin) and ends at the cursor only in mode 1 (or when the cursor is at the maximal position) |
| Vt100Commands.EraseCount | Vt100/DecoderCommands.cs:109-113 | the count is the first parameter, 1 when it is missing, and 0 is read as 1 |
| Vt100Commands.EraseCharacterRange | Vt100/DecoderCommands.cs:107-116 | corrected: the range handed to `Erase` is `EraseCount` cells wide, where the source's is one narrower |
| Vt100Commands.EraseCharacterMissesACell | Vt100/DecoderCommands.cs:115 | with the cursor on the second of two cells, the range as written erases nothing, while the corrected range erases that cell |
| Vt100Commands.EraseCharacterBlanksCount | Vt100/DecoderCommands.cs:107-116 | with the corrected range the text of the `n` cells from the cursor is blank and every other cell keeps its text; the colour overrides of cells `x` to `x + n` inclusive (one cell past the blanked ones, `Erase`'s colour loop being inclusive) lose their foreground and take the erasing background, and every other cell keeps its colours |
| Vt100Commands.Ascii | Vt100/DecoderCommands.cs:152 | ASCII encoding keeps the length, keeps each character below 0x80 and turns every other into `?` |
| Vt100Commands.CursorPositionReport | Vt100/DecoderCommands.cs:150-153 | the report starts with ESC `[` and ends with `R` |
| Vt100Commands.CursorPositionReportReadsBack | Vt100/DecoderCommands.cs:150-153 | the report is ESC `[`, the row, `;`, the column and `R`, all ASCII, and its text parses back to `[row, column]` |
| Vt100Commands.ReportTextIsAscii | Vt100/DecoderCommands.cs:152 | the report text has only ASCII characters, so encoding it loses nothing |
| Vt100Commands.UnionMeaning | Vt100/DecoderCommands.cs:175 | `Union` holds exactly the bytes of either argument, each once |
| Vt100Commands.DistinctMeaning | Vt100/DecoderCommands.cs:175 | `Distinct` holds exactly the bytes of its argument, each once |
| Vt100Commands.DeviceAttributesReplyBytes | Vt100/DecoderCommands.cs:175 | the attributes answer is `LF ESC [ ? 1 ; 2 c`: the union drops none of these bytes, since no two are equal |
| Vt100Commands.QueriesAnswered | Vt100/DecoderCommands.cs:143-176 | `ESC [ 6 n` is the only one-digit status query that is answered; `ESC [ c` is answered and `ESC [ ? c` is not |
| Vt100Commands.ModesToggle | Vt100/DecoderCommands.cs:178-217 | without `?` both mode commands only log; with `?`, modes 5 and 25 are switched on by set and off by reset; set knows 5, 7 and 25, reset knows 4, 5 and 25, and every other mode is logged |
| GraphicRenditions.RefreshedShowsIntended | Vt100/DecoderCommands.cs:454-470 | `Refresh` stores a colour as missing exactly when it equals the terminal default, so what is shown is always the intended colour |
| GraphicRenditions.NegativeSwaps | Vt100/DecoderCommands.cs:462-467 | negative rendition swaps the foreground and background of the rendition without it |
| GraphicRenditions.PlainShowsDefaults | Vt100/DecoderCommands.cs:454-470 | a reset rendition stores no colours and shows the terminal defaults |
| GraphicRenditions.PaletteDistinctAndBright | Vt100/DecoderCommands.cs:390-413 | the eight palette colours are distinct and each has a bright form that is none of them |
| GraphicRenditions.ColorTableLevels | Vt100/DecoderCommands.cs:482-489 | the six cube levels rise strictly from 0 to 255 |
| GraphicRenditions.Color231AsWritten | Vt100/DecoderCommands.cs:434-446 | as written, index 231 falls into the grey ramp and gets the channel value -2; the corrected table gives it the white of the cube |
| GraphicRenditions.CubeCoordinates | Vt100/DecoderCommands.cs:434-440 | index `16 + 36r + 6g + b` is the cube colour with levels `r`, `g`, `b` |
| GraphicRenditions.Color256InRange | Vt100/DecoderCommands.cs:422-447 | corrected: with `GraphicRenditions.CubeCoordinates` putting 231 in the cube, where the source's `< 0xE7` gives it channels of -2; every index from 0 to 255 gives channels within 0..255, and indices 0..15 give palette colours |
| GraphicRenditions.Color256Palette | Vt100/DecoderCommands.cs:425-432 | indices 0..7 are the palette and 8..15 its bright forms |
| GraphicRenditions.Color256Grey | Vt100/DecoderCommands.cs:442-446 | index `232 + n` is the grey `8 + 10n` |
| GraphicRenditions.ExtendedOf | Vt100/DecoderCommands.cs:415-452 | an extended colour uses one to four parameters |
| GraphicRenditions.CommandColor | Vt100/DecoderCommands.cs:415-452 | a 38 or 48 code reads its colour from the parameters after it and skips exactly the ones it used |
| GraphicRenditions.SgrFromStep | Vt100/DecoderCommands.cs:294-331 | the SGR walk applies the code at `i` and goes on after the parameters it used |
| GraphicRenditions.ApplyAllConcat | Vt100/DecoderCommands.cs:294-331 | applying two lists of codes one after the other is applying their concatenation |
| GraphicRenditions.NullIsZero | Vt100/DecoderCommands.cs:297-302 | a missing parameter acts exactly as 0 |
| GraphicRenditions.ShiftedCommands | Vt100/DecoderCommands.cs:294-331 | the codes read after a prefix do not depend on it |
| GraphicRenditions.CommandsSplit | Vt100/DecoderCommands.cs:294-331 | when the walk over the first part ends inside it, the codes of a concatenation are the codes of each part |
| GraphicRenditions.SgrSplit | Vt100/DecoderCommands.cs:294-331 | `ESC [ a ; b m` does what `ESC [ a m` then `ESC [ b m` do, when `a`'s codes do not run into `b` |
| GraphicRenditions.ResetForgets | Vt100/DecoderCommands.cs:512 | a sequence starting with 0 ends the same whatever the rendition was before |
| GraphicRenditions.UnknownCodeContinues | Vt100/DecoderCommands.cs:327-330 | an unknown code is logged and the walk goes on with the next parameter |
| GraphicRenditions.TrueColorForeground | Vt100/DecoderCommands.cs:317-321 | `38;2;r;g;b` sets the foreground to that colour and goes on after it |
| GraphicRenditions.IndexedBackground | Vt100/DecoderCommands.cs:322-326 | `48;5;n` sets the background to the 256-colour entry `n` and goes on after it |
| GraphicRenditions.GraphicRendition.constructor | Vt100/DecoderCommands.cs:273-276 | a new rendition is plain and stores no effective colours |
| GraphicRenditions.GraphicRendition.Refresh | Vt100/DecoderCommands.cs:454-470 | the effective colours become `Refreshed` of the state and the defaults |
| GraphicRenditions.GraphicRendition.SetForeground | Vt100/DecoderCommands.cs:340-344 | the foreground is set and the effective colours refreshed |
| GraphicRenditions.GraphicRendition.SetBackground | Vt100/DecoderCommands.cs:353-357 | the background is set and the effective colours refreshed |
| GraphicRenditions.GraphicRendition.SetBright | Vt100/DecoderCommands.cs:366-370 | bright is set and the effective colours refreshed |
| GraphicRenditions.GraphicRendition.SetNegative | Vt100/DecoderCommands.cs:379-383 | negative is set and the effective colours refreshed |
| GraphicRenditions.GraphicRendition.Reset | Vt100/DecoderCommands.cs:278-284 | the rendition becomes plain and the effective colours are refreshed |
| GraphicRenditions.GraphicRendition.Clone | Vt100/DecoderCommands.cs:286-289 | the copy is a new object with the same state and effective colours |
| GraphicRenditions.GraphicRendition.HandleSgrStep | Vt100/DecoderCommands.cs:296-330 | one loop step applies the code at `i`, returns the last parameter index it used and its logs |
| GraphicRenditions.GraphicRendition.HandleSgr | Vt100/DecoderCommands.cs:292-332 | the loop leaves the state, the logs and the effective colours that the SGR walk `SgrFrom` computes |
| HeightMaps.PrefixSums | Terminal.cs:584-593 | the height map has one entry per row |
| HeightMaps.TotalIsSum | Terminal.cs:584-635 | the last entry of the height map (the maximum height) is the sum of all row heights, 0 when there are no rows |
| HeightMaps.PrefixSumsAt | Terminal.cs:584-593 | entry `i` is the sum of the heights of rows `0..i`, where row `i` ends |
| HeightMaps.PrefixSumsAppend | Terminal.cs:605-616 | the height map of one more row is the old map followed by the old total plus the new height |
| HeightMaps.WriteNextEntry | Terminal.cs:587-588 | one loop step adds the next row's height to the running total and writes it at that row's index, leaving the later entries |
| HeightMaps.PositiveHeightsIncrease | Terminal.cs:584-593 | when every row has a positive height the height map rises strictly, as `Array.BinarySearch` needs |
| HeightMaps.AppendKeepsIncreasing | Terminal.cs:605-616 | appending a row of positive height keeps the map strictly rising |
| HeightMaps.FirstAboveSplits | Terminal.cs:639-643 | the first entry above a value splits the map: every entry before it is at most the value, every later one above it |
| HeightMaps.SplitIsFirstAbove | Terminal.cs:639-647 | any index that splits the map this way is that first entry |
| HeightMaps.RowIndexAtGrows | Terminal.cs:637-654 | the row found does not move back when the map grows and the position does not decrease |
| HeightMaps.FirstRowGrows | Terminal.cs:656-660 | appending a row never moves the first screen row back |
| HeightMaps.RowIndexAtContains | Terminal.cs:637-654 | the row found for a position below the total holds it (`start <= position < end`), a position on a boundary belongs to the row that starts there, and a position at or past the end gives the last row |
| HeightMaps.BinarySearch | Terminal.cs:639 | `Array.BinarySearch`: a nonnegative result is an index holding the value; a negative one is the bitwise complement of the insertion point, with smaller entries before it and larger ones from it |
| HeightMaps.FindRowIndexAtPosition | Terminal.cs:637-654 | the result is `RowIndexAt` of the map and position, between -1 and the row count, and `rowStart` is where that row starts |
| HeightMaps.AddToHeightMap | Terminal.cs:605-616 | the map grows by one entry, the old total plus the new height (the value itself when the map was empty) |
| HeightMaps.MaximumScrollbarValue | Terminal.cs:623-635 | the maximum scroll value is at least 0 and at least the maximum height less the page size |
| Vt100Cursor.HiddenSublinesCeiling | Vt100/Decoder.cs:302-304 | the hidden sublines of the first row are `Ceiling(hiddenHeight / lineHeight)` |
| Vt100Cursor.SublineAt | Vt100/Decoder.cs:297 | every screen row has at least one subline |
| Vt100Cursor.SublinesBefore | Vt100/Decoder.cs:294-298 | the sublines above screen row `y` are at least `y` |
| Vt100Cursor.SublinesIncrease | Vt100/Decoder.cs:294-298 | rows further down have at least one more subline above them per row |
| Vt100Cursor.VtPosition | Vt100/Decoder.cs:291-317 | corrected: the getter of the first row of the Findings table, which adds the cell's subline to the sublines above less the hidden ones and only then floors at zero, where the source floors the hidden count first; the VT100 position has a column between 1 and the line width and a row of at least 1 |
| Vt100Cursor.ClampedBounds | Vt100/Decoder.cs:325-328 | the setter clamps the column into `1..chars` and the row into `1..maxY`, keeping a position already inside |
| Vt100Cursor.Descent | Vt100/Decoder.cs:335-344 | the setter's loop only moves down and stops with the remaining sublines at most 0 |
| Vt100Cursor.DescentStops | Vt100/Decoder.cs:334-344 | the loop stops on the first row whose sublines reach the target, and what remains is the distance back from that row's end |
| Vt100Cursor.StoppingRowUnique | Vt100/Decoder.cs:335-344 | only one row can be where the loop stops |
| Vt100Cursor.SetThenGet | Vt100/Decoder.cs:289-348 | corrected: reads the VT100 position through the corrected getter `Vt100Cursor.VtPosition`, which adds the subline before flooring at zero where the source clamps first; setting a VT100 position and reading it back gives the clamped position whenever the target row exists |
| Vt100Cursor.GetThenSet | Vt100/Decoder.cs:289-348 | corrected: reads the VT100 position through the corrected getter `Vt100Cursor.VtPosition`, which adds the subline before flooring at zero where the source clamps first; reading the VT100 position of a visible cell and setting it again returns the cursor to that cell |
| Vt100Cursor.DescentReachesRow | Vt100/Decoder.cs:335-346 | aiming at subline `k` of row `y` stops the loop on row `y` with the remainder that selects subline `k` |
| Vt100Cursor.GetterAsWrittenMisreads | Vt100/Decoder.cs:306-315 | with a first row of five sublines of which two are hidden, setting `(1, 2)` and reading it back as written gives `(1, 4)`; the corrected getter gives `(1, 2)` |
| Vt100Cursor.GettersAgreeBelowHidden | Vt100/Decoder.cs:306-315 | when the rows above the cursor cover the hidden sublines, the getter as written and the corrected one agree |
| Vt100Params.SegmentsParsed | Vt100/Decoder.cs:174-190 | each `;`-separated segment is parsed on its own, in order |
| Vt100Params.ParseParameters | Vt100/Decoder.cs:172-190 | the loop over the segments gives `ParsedParams` of the data: a missing value for an empty segment, the number for a valid one, and nothing at all once a segment does not parse |
| Vt100Params.ExtendParsed | Vt100/Decoder.cs:174-190 | one loop step adds the next segment's value, or breaks off when it does not parse |
| Vt100Params.BrokenStaysBroken | Vt100/Decoder.cs:184-188 | once a segment fails, the whole parameter list fails (`parsed = null; break`) |
| Vt100Params.ParsedSegmentsMeaning | Vt100/Decoder.cs:172-192 | the parameters parse exactly when every segment does, and then there is one parameter per segment, each the segment's value |
| Vt100Params.ParamOfText | Vt100/DecoderCommands.cs:219-226 | `GetParamOrDefault(k, d)` on parsed data is segment `k`'s number when there is such a non-empty segment, and `d` otherwise |
| Vt100Params.ParamsRoundTrip | Vt100/Decoder.cs:172-190 | writing parameters as decimals (or nothing, for a missing one) joined by `;` and parsing them gives them back |
| Vt100Params.ParsedFromEach | Vt100/Decoder.cs:172-190 | when each segment parses to the matching parameter, the list parses to those parameters |
| Vt100Params.ParsedSingle | Vt100/Decoder.cs:172-190 | data without `;` is a single segment |
| Vt100Parser.ValueOf | Vt100/ControlByte.cs:9-21 | every control byte value fits in one byte |
| Vt100Parser.ControlByteOf | Vt100/ControlByte.cs:9-21 | a byte value names at most the control byte whose value it is |
| Vt100Parser.ConvertExact | Vt100/Decoder.cs:45-80 | the corrected comparison recognises a control byte exactly when the character's code equals its value |
| Vt100Parser.ConversionsAgreeOnLatin1 | Vt100/Decoder.cs:45-80 | for characters below U+0100 the comparison as written and the corrected one agree |
| Vt100Parser.LowByteConversion | Vt100/Decoder.cs:45-80 | as written, `(ControlByte)c` keeps only the low byte, so U+010D reads as carriage return and U+011B as escape; the corrected comparison reads neither |
| Vt100Parser.EveryCommandEnds | Vt100/Decoder.cs:167-169 | every command character ends a sequence in the corrected parser; the grave accent has a handler but does not end a sequence as written |
| Vt100Parser.NonCsiOf | Vt100/Decoder.cs:222-246 | a code after ESC is unknown exactly when it is none of `c ( ) * + 7 8` |
| Vt100Parser.LogsOf | Vt100/Decoder.cs:30-246 | an action writes at most one log line |
| Vt100Parser.StepKeepsConsistent | Vt100/Decoder.cs:30-220 | every step keeps the parser state consistent: collected data only inside an escape sequence, and the private-mode flag only with data |
| Vt100Parser.IgnoredElement | Vt100/Decoder.cs:32-36 | when the next element is to be ignored it is swallowed, the flag cleared, and nothing logged |
| Vt100Parser.AfterEscape | Vt100/Decoder.cs:222-246 | a character after ESC other than `[` ends the sequence as a non-CSI code; the character-set codes ask to ignore the next element and every unknown code is logged |
| Vt100Parser.EscapeAborts | Vt100/Decoder.cs:159-166 | ESC inside a control sequence aborts it, back to idle, with one log line |
| Vt100Parser.FinalCharacter | Vt100/Decoder.cs:167-208 | a final character ends the sequence, back to idle, with the action `Finished` gives |
| Vt100Parser.FinishedMeaning | Vt100/Decoder.cs:169-207 | a known command with parsable data is dispatched with the parsed parameters and logs nothing; broken data logs once; an unknown command logs once |
| Vt100Parser.PrintableCharacters | Vt100/Decoder.cs:96-99 | outside a sequence, a character from U+00A0 up is printed and the state kept |
| Vt100Parser.LowByteMisreadsLetters | Vt100/Decoder.cs:45-80 | as written, printing `č` returns the cursor to column one and `ě` starts an escape sequence; the corrected parser prints both |
| Vt100Parser.GraveAccentCollected | Vt100/Decoder.cs:167-219 | as written, after `ESC [ 5` a grave accent (U+0060) is not a letter, so it is collected as data and the sequence goes on |
| Vt100Parser.GraveAccentRuns | Vt100/Decoder.cs:167-200 | in the corrected parser, `ESC [ n` followed by a grave accent (U+0060) runs horizontal absolute with parameter `n` |
| Vt100Parser.Feed | Vt100/Decoder.cs:30-106 | feeding elements gives one action per element |
| Vt100Parser.Elements | Vt100/Decoder.cs:30 | a text of single characters is fed one element per character |
| Vt100Parser.Collects | Vt100/Decoder.cs:209-219 | inside a sequence, data characters are appended in order, `?` is dropped and sets the private-mode flag |
| Vt100Parser.CollectOne | Vt100/Decoder.cs:209-219 | one data character is appended, or sets the private-mode flag when it is `?` |
| Vt100Parser.FeedConcat | Vt100/Decoder.cs:30-106 | feeding two runs of elements is feeding the first, then the second from where the first left off |
| Vt100Parser.ControlSequence | Vt100/Decoder.cs:145-220 | `ESC [ data c` with a command `c` and parsable data returns to idle and dispatches `c` with the parsed parameters, private when the data holds `?` |
| Vt100Parser.Opening | Vt100/Decoder.cs:147-158 | `ESC [ data` leaves the parser inside a sequence with the data collected |
| Vt100Parser.Introducer | Vt100/Decoder.cs:147-157 | `ESC [` opens a control sequence with empty data |
| Vt100Parser.FinalStep | Vt100/Decoder.cs:167-200 | a command character with parsable collected data dispatches that command and returns to idle |
| Strings.Split | Vt100/Decoder.cs:172 | `String.Split(';')`: at least one part, no part holds the separator, and joining the parts with it gives the input back |
| Strings.SplitJoin | Vt100/Decoder.cs:172 | splitting parts joined by a separator they do not hold gives the parts back |
| Strings.SplitAtFirst | Vt100/Vt100ITermFileEscapeCodeHandler.cs:28-81 | `Split(sep, 2)` gives two parts exactly when the separator occurs; the first part does not hold it, and the parts joined by it are the input |
| Strings.TrimEndShape | Misc/ClipboardData.cs:32 | `TrimEnd` keeps a prefix, drops only trimmed characters, and leaves no trimmed character at the end |
| Strings.TrimStartWhere | Vt100/Decoder.cs:180 | the leading white space that `int.TryParse` skips: the result is a suffix of the input, every item dropped satisfies `drop`, and its first item does not |
| Strings.TrimEndAppendDropped | Misc/ClipboardData.cs:32 | trimming after appending only trimmable characters is trimming the original |
| Strings.TryParseInt | Vt100/Decoder.cs:180 | `int.TryParse` accepts only values that fit in 32 bits |
| Strings.ParsedHasDigit | Vt100/Decoder.cs:180 | a string `int.TryParse` accepts holds a digit |
| Strings.Decimal | Vt100/DecoderCommands.cs:152 | the decimal text of a number is made of digits, has no leading zero and has the number's value |
| Strings.DecimalRoundTrip | Vt100/Decoder.cs:180 | parsing the decimal text of a 32-bit number gives it back |
| MonospaceRows.Spaces | Rows/MonospaceTextRow.cs:191-258 | `Append(' ', n)`: `n` spaces |
| MonospaceRows.PadToShape | Rows/MonospaceTextRow.cs:217 | `PadRight(n)` keeps the text as a prefix and fills with spaces up to length `n` |
| MonospaceRows.Lines | Rows/MonospaceTextRow.cs:334-338 | the sublines a row of `length` elements needs: at least one, enough to hold it, and no more than needed |
| MonospaceRows.LineCountHoldsRow | Rows/MonospaceTextRow.cs:44-46 | the line count is at least 1 and at least the minimal subline count, holds every element, and is the minimal count or the least that holds them |
| MonospaceRows.CharsOnLine | Rows/MonospaceTextRow.cs:279 | there is always at least one character per line |
| MonospaceRows.CharsOnLineIsColumns | Rows/MonospaceTextRow.cs:279 | the characters per line computed in `PutCharacterAt` equal `MaximalColumn + 1` from `PrepareForDrawing` |
| MonospaceRows.PutContentPlaces | Rows/MonospaceTextRow.cs:251-275 | the put text has the element at `position`, every other old element where it was, spaces in any gap, and length `max(old length, position + 1)` |
| MonospaceRows.UpdateOverride | Rows/MonospaceTextRow.cs:225-249 | a colour is stored at the position, or the position's entry removed when there is none; every other entry is kept |
| MonospaceRows.PutCharacterGrowsLines | Rows/MonospaceTextRow.cs:276-282 | putting an element never shortens the row; the result says the subline count changed exactly when the row needs more lines, and never when the position was inside the text |
| MonospaceRows.LinesMonotone | Rows/MonospaceTextRow.cs:280-281 | a longer row never needs fewer lines |
| MonospaceRows.ClampFrom | Rows/MonospaceTextRow.cs:183 | `from` is clamped into `0..length` |
| MonospaceRows.ErasedCells | Rows/MonospaceTextRow.cs:185-196 | the corrected erase keeps the length, or grows it to `to` |
| MonospaceRows.ErasedCellsAt | Rows/MonospaceTextRow.cs:185-196 | cells `from..to-1` become spaces and every other cell is kept |
| MonospaceRows.ErasedCellsAgree | Rows/MonospaceTextRow.cs:185-196 | when `from <= to` the builder as written and the corrected one agree |
| MonospaceRows.EraseBackwardsDuplicates | Rows/MonospaceTextRow.cs:185-196 | as written, erasing `abc` from 2 to 1 copies the prefix up to 2 and the suffix from 1, giving `abbc`; the corrected erase leaves `abc` |
| MonospaceRows.EraseBackwardsGrows | Rows/MonospaceTextRow.cs:185-196 | as written, an inverted range lengthens the text by `from - to` |
| MonospaceRows.ErasedContentShape | Rows/MonospaceTextRow.cs:183-217 | the erased text is at least `from` long, blank on the erased cells, keeps every other cell (blank ones may become spaces), and ends in a non-blank unless it was padded to `from` |
| MonospaceRows.ErasedContentEnds | Rows/MonospaceTextRow.cs:217 | after `TrimEnd().PadRight(from)` the text is at least `from` long and ends in a non-blank unless it is exactly the padding |
| MonospaceRows.ErasedRangeBlank | Rows/MonospaceTextRow.cs:189-217 | every cell of the erased range that remains is blank |
| MonospaceRows.ErasedOutsideKept | Rows/MonospaceTextRow.cs:185-217 | every cell outside the range keeps its element, or was blank and is a space |
| MonospaceRows.ErasedContentIdempotent | Rows/MonospaceTextRow.cs:175-219 | erasing the same range twice leaves the same text as erasing it once |
| MonospaceRows.SpanPaintedAt | Rows/MonospaceTextRow.cs:113-117 | the stream loop paints every index from `first` to `last` and leaves the others |
| MonospaceRows.ErasedOverridesInRange | Rows/MonospaceTextRow.cs:198-216 | in the erased range the foreground overrides are removed and the background becomes the given colour (or is removed); outside it both are kept |
| MonospaceRows.ErasedKeysStayNonNegative | Rows/MonospaceTextRow.cs:198-216 | erasing from a nonnegative `from` adds no negative key |
| MonospaceRows.ErasedOverridesIdempotent | Rows/MonospaceTextRow.cs:198-216 | erasing the overrides twice is erasing them once |
| MonospaceRows.WrappedConcat | Rows/MonospaceTextRow.cs:56-69 | wrapping whole lines then the rest is wrapping the whole text |
| MonospaceRows.WrappedLength | Rows/MonospaceTextRow.cs:56-69 | the wrapped text has one `\n` per full line: the row's length plus that length divided by `charsOnLine` |
| MonospaceRows.WrappedAt | Rows/MonospaceTextRow.cs:56-73 | element `k` is at `k + k / charsOnLine` in the wrapped text, the key shift `Draw` applies to the colour maps |
| MonospaceRows.WrappedFirstLine | Rows/MonospaceTextRow.cs:56-69 | the first line is not shifted |
| MonospaceRows.WrappedIndexIncreasing | Rows/MonospaceTextRow.cs:72-73 | the shift keeps the order of the elements |
| MonospaceRows.WrappedBreak | Rows/MonospaceTextRow.cs:63-68 | after every `j` full lines there is a `\n` at `j * (charsOnLine + 1) - 1` |
| MonospaceRows.WrapText | Rows/MonospaceTextRow.cs:53-69 | the loop builds the wrapped text and records where every line starts: `newLinesAt[j] == j * (charsOnLine + 1)`, one entry per full line plus the first |
| MonospaceRows.WrapRest | Rows/MonospaceTextRow.cs:56-69 | a last line that is not full is appended without a `\n` |
| MonospaceRows.WrapLineDone | Rows/MonospaceTextRow.cs:63-68 | a full line gets its `\n` |
| MonospaceRows.NewLineStarts | Rows/MonospaceTextRow.cs:66 | `ElementIndex + newLinesAt.Count + 1` is the start of the next line |
| MonospaceRows.StreamRange | Rows/MonospaceTextRow.cs:95-111 | the stream selection range is ordered and inside the wrapped text |
| MonospaceRows.StreamRangeSymmetric | Rows/MonospaceTextRow.cs:95-107 | the direction does not change the range, and swapping the two corners does not either |
| MonospaceRows.CornerDesignatesElement | Rows/MonospaceTextRow.cs:101-102 | `column + newLinesAt[subrow]` is the wrapped position of the element at that subrow and column |
| MonospaceRows.NewLinesAt | Rows/MonospaceTextRow.cs:53-66 | the line starts are `j * (charsOnLine + 1)`, one per full line plus the first |
| MonospaceRows.SourceIndexInvertsWrapping | Rows/MonospaceTextRow.cs:340-345 | the corrected index recovers element `k` from its wrapped position |
| MonospaceRows.SourceIndexAsWrittenMisses | Rows/MonospaceTextRow.cs:343 | with 2 per line, element 3 sits at wrapped 4; as written `4 - 4 / 2` gives 2, the corrected index gives 3 |
| MonospaceRows.BlockForegroundAsWrittenMisses | Rows/MonospaceTextRow.cs:88 | as written, a block selection looks up the subrow number instead of the cell, so an element with a red override is shown black; the corrected lookup lightens the red |
| MonospaceRows.WrappedKeysAt | Rows/MonospaceTextRow.cs:72-73 | element `k` has a wrapped key exactly when it had an override, with the same colour |
| MonospaceRows.RowPaintedAt | Rows/MonospaceTextRow.cs:86-90 | the inner block loop paints every column of one subrow and leaves the rest |
| MonospaceRows.BlockPaintedAt | Rows/MonospaceTextRow.cs:84-91 | the block loop paints every cell of the rectangle and leaves the rest |
| MonospaceRows.DrawnColorsAt | Rows/MonospaceTextRow.cs:72-120 | a selected cell gets the selection paint and every other cell keeps its override |
| MonospaceRows.BlockDrawnAt | Rows/MonospaceTextRow.cs:82-92 | a block selection paints exactly its cells |
| MonospaceRows.StreamDrawnAt | Rows/MonospaceTextRow.cs:93-119 | a stream selection paints exactly its cells |
| MonospaceRows.StreamColorsAreSpanPainted | Rows/MonospaceTextRow.cs:101-117 | the stream colours are the range from the first to the last index painted |
| MonospaceRows.DrawnColorsOfElement | Rows/MonospaceTextRow.cs:72-120 | a selected element is drawn in its lightened foreground (black without one) on the selection colour; an unselected one keeps its colours |
| MonospaceRows.DrawnForegroundOfElement | Rows/MonospaceTextRow.cs:72-120 | a selected element's foreground is its override lightened, or black; an unselected one keeps its override |
| MonospaceRows.DrawnBackgroundOfElement | Rows/MonospaceTextRow.cs:73-116 | a selected element's background is the selection colour; an unselected one keeps its override |
| MonospaceRows.StreamSelectedText | Rows/MonospaceTextRow.cs:76-118 | a stream selection copies the wrapped text from the first to the last index |
| MonospaceRows.StreamSelectionIsRange | Rows/MonospaceTextRow.cs:110-117 | the cells a stream selection paints are exactly those between the two indices |
| MonospaceRows.StreamKeysAreSpan | Rows/MonospaceTextRow.cs:113-117 | the painted keys are the span from the first to the last index |
| MonospaceRows.BlockSelectionShowsElements | Rows/MonospaceTextRow.cs:84-91 | every element inside the block rectangle is painted, at its own wrapped position |
| MonospaceRows.CursorShowsElement | Rows/MonospaceTextRow.cs:148-160 | `offset + offset / maxColumn` is where the cursor's element sits in the wrapped text |
| MonospaceRows.MonospaceTextRow.constructor | Rows/MonospaceTextRow.cs:20-25 | the row holds the content, has no overrides, no selection and no cursor, and is not measured |
| MonospaceRows.MonospaceTextRow.CurrentMaximalCursorPosition | Rows/MonospaceTextRow.cs:301-307 | `MaximalColumn * lineCount` is never negative and lies inside the cells of the row's lines |
| MonospaceRows.MonospaceTextRow.PrepareForDrawing | Rows/MonospaceTextRow.cs:27-48 | with zero line width the height is 0 and nothing else changes; otherwise the maximal column comes from the metrics, the line count is `LineCountFor` and the height is line height times line count |
| MonospaceRows.MonospaceTextRow.PutCharacterAt | Rows/MonospaceTextRow.cs:221-283 | the overrides at the position are updated, the content becomes `PutContent`, and the result says whether the subline count changed |
| MonospaceRows.MonospaceTextRow.Erase | Rows/MonospaceTextRow.cs:175-219 | corrected: an empty range (`to < from`) changes no content, as `MonospaceRows.ErasedCellsAt` states, where the source duplicates cells; the minimal subline count becomes the current one, the content becomes `ErasedContent`, foreground overrides in the range are removed and backgrounds set or removed |
| MonospaceRows.MonospaceTextRow.Draw | Rows/MonospaceTextRow.cs:50-141 | corrected: the selection colour is looked up at the inverse of the wrapping (`MonospaceRows.SourceIndexInvertsWrapping`) and block selection passes the cell index (`MonospaceRows.DrawnForegroundOfElement`); the selected text and the two colour maps are those `DrawnSelection` and `DrawnColors` give; the row's state is otherwise unchanged |
| MonospaceRows.MonospaceTextRow.ResetSelection | Rows/MonospaceTextRow.cs:143-146 | the selection is cleared and nothing else changes |
| MonospaceRows.MonospaceTextRow.DrawCursor | Rows/MonospaceTextRow.cs:148-165 | a focused cursor marks `offset + offset / maxColumn`; an unfocused one changes nothing |
| MonospaceRows.MonospaceTextRow.FillClipboardData | Rows/MonospaceTextRow.cs:167-173 | the selected text, when there is one, is appended to the clipboard rows |
| MonospaceRows.DrawElements | Rows/MonospaceTextRow.cs:53-124 | the drawing steps give `DrawnSelection` and `DrawnColors` of the content and overrides |
| MonospaceRows.DrawBlock | Rows/MonospaceTextRow.cs:78-92 | a block selection paints the rectangle of clamped subrows and columns |
| MonospaceRows.DrawStream | Rows/MonospaceTextRow.cs:93-118 | a stream selection copies and paints the range from the first to the last index |
| MonospaceRows.StreamIndices | Rows/MonospaceTextRow.cs:95-111 | the two indices are `StreamRange` |
| MonospaceRows.EraseRow | Rows/MonospaceTextRow.cs:181-217 | the content and overrides become the erased ones and keep nonnegative keys |
| MonospaceRows.EraseOverrides | Rows/MonospaceTextRow.cs:198-216 | the erase loop removes the foreground overrides of the range and sets or removes the backgrounds |
| MonospaceRows.PaintStream | Rows/MonospaceTextRow.cs:113-117 | the stream loop paints the range |
| MonospaceRows.PaintBlock | Rows/MonospaceTextRow.cs:84-91 | the block loops paint the rectangle |
| Vt100Decoder.StepRight | Vt100/Decoder.cs:130 | moving the cursor one cell right keeps the terminal ready, changes only `X`, and stays on the same row |
| Vt100Decoder.AtLastCell | Vt100/Decoder.cs:134-135 | the cursor is at the last cell of its line exactly when `X % (MaximalColumn + 1) == MaximalColumn` |
| Vt100Decoder.StepAndInsert | Vt100/Decoder.cs:127-133 | a pending wrap first moves the cursor one cell right, its line clamped; the element is then put into the cursor's row at the cursor's cell as `Inserted` says, so the cursor's line after a refresh follows the first screen row; no row is added |
| Vt100Parser.DispatchLogsNothing | Vt100/Decoder.cs:188-196 | running a known command writes no log line |
| Vt100Parser.BrokenLogsOnce | Vt100/Decoder.cs:184-188 | a parameter text that does not parse writes exactly the broken-data line naming the command and the data |
| Vt100Parser.UnknownLogsOnce | Vt100/Decoder.cs:201-206 | a command without a handler writes exactly the unimplemented-code line naming it and its data |
| Vt100Parser.FeedOne | Vt100/Decoder.cs:30-84 | feeding one element is one step of the parser |
| Terminals.MaximalCursorPositionOf | Terminal.cs:140 | a row's `CurrentMaximalCursorPosition` is never negative |
| Terminals.InBudgetMeans | Terminal.cs:585-593 | the rebuild gets past row `n` exactly when no checkpoint row (`i % 1000 == 1`) before it ran over the time budget |
| Terminals.StartingMap | Terminal.cs:577-585 | the map being filled has one entry per row, reusing an unfinished map of the right length |
| Terminals.PrepareRow | Terminal.cs:587 | preparing a row gives a height of line height times its subline count, at least one line, and keeps its text |
| Terminals.PrepareTwice | Terminal.cs:66-67 | `AppendRow` prepares the row twice; the second call gives the same height and the row is ready |
| Terminals.CursorLimitOfState | Terminal.cs:140 | the maximal cursor position is a function of the row's state, so erasing keeps it |
| Terminals.ErasedKeepsLimit | Terminal.cs:135-144 | erasing any lines of a row keeps its maximal cursor position |
| Terminals.RowErase | Terminal.cs:140 | `row.Erase` erases the row once and keeps its maximal cursor position and its readiness |
| Terminals.FillClipboardData | Terminal.cs:111-114 | a row appends its selection to the clipboard rows |
| Terminals.ErasedByNextLine | Terminal.cs:137-141 | screen line `y` erases row `min(first + y, count - 1)` from `from.X` on the first line (else 0) to `to.X` on the last (else the row's maximal cursor position) and no other row |
| Terminals.NormalizedSelectionCovers | Terminal.cs:714-727 | the normalised rectangle has nonnegative sides and covers the same area; the direction is SE, SW, NE or NW by the signs of width and height; a normalised rectangle normalises to itself |
| Terminals.Terminal.MapIncreasing | Terminal.cs:585-590 | the height map is a strictly increasing sum of positive row heights |
| Terminals.Terminal.constructor | Terminal.cs:20-55 | no rows, an empty height map, gray on black with a light slate gray selection, and a disabled cursor at the origin |
| Terminals.Terminal.ScreenRowsBounds | Terminal.cs:180-188 | there is at least one screen row, and the first screen row and the count lie inside the rows |
| Terminals.Terminal.GetMaximumScrollbarValue | Terminal.cs:623-626 | the value is `MaximumScrollbarValue` of the height map and page size |
| Terminals.Terminal.GetScreenRowIndex | Terminal.cs:656-660 | screen position `p` is row `FirstScreenRow() + p` |
| Terminals.Terminal.ScreenRowCount | Terminal.cs:180-188 | the count is the rows from the first screen row to the end |
| Terminals.Terminal.GetScreenRow | Terminal.cs:117-125 | the row at the screen position, clamped to the last row; `treatRowAsNonDummy` raises `lastNonDummyRow` to that index; nothing else changes |
| Terminals.Terminal.ScreenRow | Terminal.cs:119-124 | the index is `FirstScreenRow() + p` and the row is the one `ScreenRowAt` names |
| Terminals.Terminal.GetFirstScreenRow | Terminal.cs:127-133 | the first screen row, and the hidden height is the maximum scrollbar value minus its start: nonnegative and below its height when the rows overflow the page |
| Terminals.Terminal.AppendRow | Terminal.cs:58-69 | the row is added at the end, its height is added to the height map, a current map stays current, and `lastNonDummyRow` is raised to the row count when asked |
| Terminals.Terminal.PushRow | Terminal.cs:60-65 | the row is added and `lastNonDummyRow` raised when asked; the height map is untouched |
| Terminals.Terminal.ExtendHeightMap | Terminal.cs:605-616 | `AddToHeightMap` appends the running total plus the new height |
| Terminals.Terminal.RebuildHeightMap | Terminal.cs:562-603 | the rebuild completes exactly when asked to, when there are no rows, or when no checkpoint ran over budget; then the map is current and the cursor moves up by the change of the first screen row, clamped; otherwise the old map stays and the partial one is kept |
| Terminals.Terminal.RebuildRows | Terminal.cs:571-602 | the rebuild of a non-empty row list, with the same outcome |
| Terminals.Terminal.TakeHeightMap | Terminal.cs:595-597 | the new map becomes the height map, the unfinished one is dropped and the page size is reset |
| Terminals.Terminal.InstallHeightMap | Terminal.cs:595-601 | after installing the map the cursor is shifted by the change of the first screen row and clamped |
| Terminals.Terminal.PrepareRowAt | Terminal.cs:587-588 | preparing row `i` adds its height to the running total and records it |
| Terminals.Terminal.PrepareRows | Terminal.cs:585-593 | the loop fills the map with prefix sums of the row heights; it stops early exactly at a checkpoint row over budget, unless asked to continue |
| Terminals.Terminal.PrepareAllRows | Terminal.cs:575-593 | the map being filled is kept as the unfinished map, and is complete when the loop is |
| Terminals.Terminal.SetCursorPosition | Cursor.cs:35-50 | the terminal's cursor is set to the value clamped into the screen |
| Terminals.Terminal.Clear | Terminal.cs:71-76 | the cursor goes to the origin, the rows and the height map are emptied |
| Terminals.Terminal.Refresh | Terminal.cs:78-83 | the height map is rebuilt in full, every row keeps its text and the cursor follows the first screen row |
| Terminals.Terminal.CursorMaximalPosition | Terminal.cs:140 | the last row's maximal cursor position on the last screen line |
| Terminals.Terminal.EraseRowAt | Terminal.cs:139-140 | erasing one row changes that row's state only |
| Terminals.Terminal.PutCharacterInRow | Rows/MonospaceTextRow.cs:221-283 | putting an element in one text row changes that row's text only, and says whether its subline count changed |
| Terminals.Terminal.EraseScreenLine | Terminal.cs:137-141 | one loop step erases the row of screen line `y` |
| Terminals.Terminal.EraseScreen | Terminal.cs:135-144 | every screen line from `from.Y` to `to.Y` is erased in its row; the terminal's fields are unchanged |
| Terminals.Terminal.CollectClipboardData | Terminal.cs:107-115 | a fresh clipboard holding every row's selection in row order |
| Terminals.Terminal.AddSelectionOf | Terminal.cs:111-114 | one loop step appends row `i`'s selection |
| Vt100Screens.ScreenOf | Vt100/Decoder.cs:291-315 | the screen the VT100 cursor reads has one subline count per screen row and `MaximalColumn + 1` characters per line |
| Vt100Screens.ScreenSublines | Vt100/Decoder.cs:295-298 | the subline counts of the screen rows, each at least 1 |
| Vt100Screens.HiddenNonNegative | Terminal.cs:127-133 | the first screen row exists and its hidden height is never negative |
| Vt100Screens.SublineOfScreenLine | Vt100/Decoder.cs:297 | screen line `y` is a text row whose subline count is the screen's entry for `y` |
| Vt100Screens.TextRowShape | Vt100/Decoder.cs:312 | every row is a text row with the terminal's line height, at least one line, and `MaximalColumn + 1` characters per line |
| Vt100Screens.ScreenLines | Vt100/Decoder.cs:291-315 | the terminal shows the lines of its screen |
| Vt100Screens.GetPosition | Vt100/Decoder.cs:291-316 | corrected: reads the VT100 position through the corrected getter `Vt100Cursor.VtPosition`, which adds the subline before flooring at zero where the source clamps first; the getter returns `VtPosition` of the screen and the terminal cursor, and changes nothing |
| Vt100Screens.ScreenShape | Vt100/Decoder.cs:301-312 | the hidden sublines and characters per line of the screen |
| Vt100Screens.SumSublines | Vt100/Decoder.cs:294-298 | the loop sums the subline counts of the screen rows above `y` |
| Vt100Screens.AppendEmptyRow | Vt100/Decoder.cs:338-341 | `AppendRow(new MonospaceTextRow(""))` adds one empty text row of one line and keeps the others; the first screen row does not move up |
| Vt100Screens.PushEmptyRow | Vt100/Decoder.cs:340 | the new row is fresh, empty and one line high, added to the rows and the height map |
| Vt100Screens.SetPosition | Vt100/Decoder.cs:318-347 | when the target fits on screen, the terminal is unchanged and the cursor goes to `SetterTarget`; otherwise empty rows are appended and the cursor goes to the clamped column on the last screen row |
| Vt100Screens.Target | Vt100/Decoder.cs:321-346 | the cell the setter computes, appending rows when the target is below the screen |
| Vt100Screens.SetterStart | Vt100/Decoder.cs:321-333 | the value is clamped into the screen and the scan starts from the visible part of the first row |
| Vt100Screens.Scan | Vt100/Decoder.cs:334-345 | the loop stops on the row holding the target, and runs out exactly when the target is below the screen |
| Vt100Screens.LandsOnTarget | Vt100/Decoder.cs:344-346 | the cell computed from where the scan stops is `SetterTarget` and is already on screen |
| Vt100Screens.AppendAndLand | Vt100/Decoder.cs:334-346 | with target lines left below the screen, rows are appended and the cursor lands on the last screen row at the clamped column |
| Vt100Screens.NextLine | Vt100/Decoder.cs:337-343 | one loop step: the next row's subline count, appending an empty row first when the scan is past the last row |
| Vt100Screens.AppendLines | Vt100/Decoder.cs:334-343 | scanning past the screen appends one-line rows until the target line is reached on the last row |
| ITermFile.HandlerError | Vt100/Vt100ITermFileEscapeCodeHandler.cs:53-67 | a tag handler refuses exactly `inline=0`; every other known tag value is accepted |
| ITermFile.TagError | Vt100/Vt100ITermFileEscapeCodeHandler.cs:81-97 | a tag is accepted exactly when it has an `=`, the name before the first `=` is a known tag, and it is not `inline=0` |
| ITermFile.FirstTagError | Vt100/Vt100ITermFileEscapeCodeHandler.cs:78-100 | the tags are accepted exactly when every one of them is |
| ITermFile.Handler.constructor | Vt100/Vt100ITermFileEscapeCodeHandler.cs:17 | a new handler has no error and no image |
| ITermFile.Handler.TryParseArguments | Vt100/Vt100ITermFileEscapeCodeHandler.cs:69-101 | the arguments parse exactly when `ArgumentsError` finds nothing; on failure the error is that message, on success the error is kept; the image is never touched |
| ITermFile.Handler.TryParseImage | Vt100/Vt100ITermFileEscapeCodeHandler.cs:103-131 | the image parses exactly when the payload decodes and loads; then it is stored, otherwise the base-64 or image-format error is |
| ITermFile.TryParse | Vt100/Vt100ITermFileEscapeCodeHandler.cs:15-46 | a fresh handler, which holds the image exactly when `Parse` succeeds and the error otherwise |
| ITermFile.WrongHeaderFails | Vt100/Vt100ITermFileEscapeCodeHandler.cs:19-23 | a command not starting with `File=` fails with the unexpected-type message |
| ITermFile.MissingColonFails | Vt100/Vt100ITermFileEscapeCodeHandler.cs:28-33 | a command without `:` fails with the unexpected-format message |
| ITermFile.ArgumentsBeforePayload | Vt100/Vt100ITermFileEscapeCodeHandler.cs:35-45 | bad arguments fail before the payload is looked at, whatever the image loader does; good arguments leave the outcome to the payload |
| ITermFile.EmptyArgumentsAccepted | Vt100/Vt100ITermFileEscapeCodeHandler.cs:71-75 | empty arguments are accepted |
| ITermFile.ArgumentsAcceptedIff | Vt100/Vt100ITermFileEscapeCodeHandler.cs:77-100 | non-empty arguments are accepted exactly when every `;`-separated tag is |
| ITermFile.SingleTagDecidedByHandler | Vt100/Vt100ITermFileEscapeCodeHandler.cs:88-97 | one known tag is decided by its handler alone |
| ITermFile.InlineZeroRefused | Vt100/Vt100ITermFileEscapeCodeHandler.cs:55-59 | `inline=0` is refused: only inline images are supported |
| ITermFile.InlineOneAccepted | Vt100/Vt100ITermFileEscapeCodeHandler.cs:53-62 | `inline=1` is accepted |
| ITermFile.NoopTagAccepted | Vt100/Vt100ITermFileEscapeCodeHandler.cs:133-141 | `name`, `size`, `width`, `height` and `preserveAspectRatio` accept any value |
| LegacyTextRows.Blanks | TextRow.cs:143 | `n` spaces |
| LegacyTextRows.Blanked | TextRow.cs:139-162 | the erase loop keeps the length, blanks cells `from..last` and keeps every other cell |
| LegacyTextRows.Inserted | TextRow.cs:193-199 | the text grows to `max(length, x + 1)` with spaces in any gap, holds `what` at `x` and keeps every other character |
| LegacyTextRows.Sublines | TextRow.cs:36 | a row takes at least one subline |
| LegacyTextRows.WrappedAppend | TextRow.cs:49-56 | wrapping full lines and then the rest puts one `\n` between them |
| LegacyTextRows.WrappedLength | TextRow.cs:45-58 | the wrapped text has one `\n` fewer than sublines: `length + sublines - 1` characters |
| LegacyTextRows.WrappedHead | TextRow.cs:49 | the first line is copied unchanged |
| LegacyTextRows.WrappedAfterHead | TextRow.cs:50-56 | after the first line and its `\n` comes the wrapping of the rest |
| LegacyTextRows.WrappedShowsCell | TextRow.cs:49-56 | character `q * charsOnLine + r` sits at `q * (charsOnLine + 1) + r` |
| LegacyTextRows.WrappedShows | TextRow.cs:60-61 | character `k` sits at `k + k / charsOnLine`, the key shift of the colour maps |
| LegacyTextRows.WrappedBreak | TextRow.cs:52 | the end of every full line but the last is a `\n` |
| LegacyTextRows.LineStarts | TextRow.cs:43-53 | line `j` starts at `j * (charsOnLine + 1)`, one start per subline |
| LegacyTextRows.LineStartsFollowBreaks | TextRow.cs:52-53 | every recorded line start after the first follows a `\n` |
| LegacyTextRows.WrapText | TextRow.cs:41-58 | the loop builds the wrapped text and the line starts |
| LegacyTextRows.SelectionRange | TextRow.cs:66-86 | the selection indices are ordered and inside the wrapped text |
| LegacyTextRows.SelectionRangeSymmetric | TextRow.cs:71-83 | the direction does not change the selected range |
| LegacyTextRows.RangePaintedAt | TextRow.cs:88-92 | cells `start..end-1` get the selection paint and the others keep their colours; the end index itself is not painted |
| LegacyTextRows.PaintSelection | TextRow.cs:88-92 | the loop paints the half-open range |
| LegacyTextRows.DrawnColorsOfCharacter | TextRow.cs:60-92 | a selected character is drawn in its lightened foreground (black without one) on light slate gray; an unselected one keeps its overrides at its wrapped position |
| LegacyTextRows.CursorCell | TextRow.cs:115-116 | the cursor's cell is `offset % MaxOffset` on row `offset / MaxOffset`, with C#'s truncating division |
| LegacyTextRows.TextRow.constructor | TextRow.cs:18-27 | the row holds the content, has no overrides, no selection and is not measured |
| LegacyTextRows.TextRow.PrepareForDrawing | TextRow.cs:29-37 | `MaxOffset` is characters per line and the height is line height times the ceiling of the text width over the line width |
| LegacyTextRows.TextRow.Erase | TextRow.cs:137-163 | a negative start inside the range throws and changes nothing; otherwise the cells up to `min(to, length - 1)` are blanked, their foregrounds removed and backgrounds set or removed |
| LegacyTextRows.TextRow.InsertCharacterAt | TextRow.cs:165-200 | the overrides at `x` are always updated; a negative `x` then throws and keeps the text, otherwise `what` is put at `x` |
| LegacyTextRows.TextRow.SetContent | TextRow.cs:208-211 | only the content changes |
| LegacyTextRows.TextRow.Draw | TextRow.cs:39-111 | the drawn text is the wrapped content; the selection and colour maps are those `Drawn` gives |
| LegacyTextRows.TextRow.FillClipboardData | TextRow.cs:129-135 | the selected text, when there is one, is appended to the clipboard |
| LegacyTextRows.PreparedLinesAreSublines | TextRow.cs:35-36 | when the line width is a multiple of the character width, the height is line height times `Sublines` |
| LegacyMonospaceRows.ErasedContentThrows | MonospaceTextRow.cs:144-156 | the erase text throws exactly when the row is empty, `from` is negative or past the end, or `to` is negative |
| LegacyMonospaceRows.ErasedForwards | MonospaceTextRow.cs:148-156 | a forward range keeps the length, blanks `from..last-1`, and keeps every other element, the last one included |
| LegacyMonospaceRows.ErasedBackwardsRepeats | MonospaceTextRow.cs:148-156 | an inverted range repeats the elements between `last` and `from`, lengthening the text by `from - last` |
| LegacyMonospaceRows.InsertedAsPut | MonospaceTextRow.cs:216-241 | with a nonnegative `x` the inserted text is the later row's `PutContent`, of length `max(x + 1, length)` |
| LegacyMonospaceRows.InsertedBeforeStart | MonospaceTextRow.cs:218-238 | `x == -1` prepends the element to the whole text, one longer than the recorded length; a smaller `x` throws |
| LegacyMonospaceRows.LastPaintedCellNotKept | MonospaceTextRow.cs:90-98 | the last index of a selection is painted in the selection colour but the selected text stops before it |
| LegacyMonospaceRows.MonospaceTextRow.constructor | MonospaceTextRow.cs:18-29 | the row holds the content and its element count, with no overrides, no selection and no metrics |
| LegacyMonospaceRows.MonospaceTextRow.PrepareForDrawing | MonospaceTextRow.cs:31-40 | the selection colour and `MaxOffset` are taken from the parameters and the height is line height times the ceiling of the text width over the line width |
| LegacyMonospaceRows.MonospaceTextRow.Erase | MonospaceTextRow.cs:142-179 | a throwing substring leaves the row as it was; otherwise the content is `ErasedContent`, foregrounds from `from` to `last` are removed and backgrounds set or removed |
| LegacyMonospaceRows.MonospaceTextRow.InsertCharacterAt | MonospaceTextRow.cs:181-242 | the overrides at `x` are always updated; the content becomes `InsertedContent` and the count `max(x + 1, count)`, or the text is kept when it throws |
| LegacyMonospaceRows.MonospaceTextRow.SetContent | MonospaceTextRow.cs:251-262 | the content and its element count change, nothing else |
| LegacyMonospaceRows.MonospaceTextRow.Draw | MonospaceTextRow.cs:42-116 | the drawn text is the wrapped content; a selection on an empty row throws, otherwise the selection and colour maps are those `Drawn` gives |
| LegacyMonospaceRows.MonospaceTextRow.FillClipboardData | MonospaceTextRow.cs:134-140 | the selected text, when there is one, is appended to the clipboard |
| LegacyMonospaceRows.PreparedHeightHoldsRow | MonospaceTextRow.cs:38-39 | the prepared number of lines holds every element of the row |
| LegacyVt100Decoders.CommandsAreLetters | Vt100DecoderCommands.cs:94-108 | every key of the command table is a letter that the control-byte compare does not catch first |
| LegacyVt100Decoders.SetThenGet | Vt100Decoder.cs:148-163 | reading the position after setting it gives the value back; the setter calls the terminal exactly when the position changes, and touches nothing but the cursor |
| LegacyVt100Decoders.CommandStep | Vt100DecoderCommands.cs:15-92 | a command changes at most the cursor, and a command that does not move it changes nothing |
| LegacyVt100Decoders.RunAppend | Vt100Decoder.cs:64-70 | feeding `a + b` is feeding `a` then `b` when `a` does not throw |
| LegacyVt100Decoders.RunOne | Vt100Decoder.cs:64-70 | feeding a one-character string is feeding the character |
| LegacyVt100Decoders.RunSnoc | Vt100Decoder.cs:66-69 | feeding one more character continues from where the string left off |
| LegacyVt100Decoders.RunStopsAtFault | Vt100Decoder.cs:64-70 | once a character throws, the rest of the string is not fed |
| LegacyVt100Decoders.CollectsData | Vt100Decoder.cs:121-124 | inside a sequence, non-letters other than ESC are appended to the data, each followed by a redraw |
| LegacyVt100Decoders.CommandIgnoresParser | Vt100DecoderCommands.cs:15-92 | a command depends only on the cursor and the parameters |
| LegacyVt100Decoders.LetterEndsSequence | Vt100Decoder.cs:105-115 | a command letter runs its command with the parsed parameters and, unless the command throws, leaves the sequence |
| LegacyVt100Decoders.OpenSequence | Vt100Decoder.cs:34-99 | `ESC [` opens a sequence with empty data |
| LegacyVt100Decoders.SequenceRunsCommand | Vt100Decoder.cs:24-125 | `ESC [ data c` runs the command of `c` with the parameters of `data` and returns to idle unless it throws |
| LegacyVt100Decoders.CursorPositionNeedsTwoParameters | Vt100DecoderCommands.cs:57-62 | as written, `H` or `f` with at most one parameter reads a second one that is not there and throws |
| LegacyVt100Decoders.HomeThrows | Vt100DecoderCommands.cs:59-60 | as written, `ESC [ H` throws |
| LegacyVt100Decoders.EscapeWithoutBracketSticks | Vt100Decoder.cs:92-97 | after ESC anything but `[` throws and the decoder stays inside the escape |
| LegacyVt100Decoders.PrintAdvances | Vt100Decoder.cs:82-88 | a printable character is inserted at the cursor, which moves one cell right, with the blink holds and redraws in order |
| LegacyVt100Decoders.MovesUndo | Vt100DecoderCommands.cs:15-37 | moving down by `n` undoes moving up by `n`, and left undoes right |
| LegacyVt100Decoders.BackspaceMovesLeft | Vt100Decoder.cs:30-33 | a backspace outside a sequence moves the cursor one column left, with no lower bound, tells the terminal, and redraws |
| LegacyVt100Decoders.CarriageReturnGoesToFirstColumn | Vt100Decoder.cs:45-48 | a carriage return outside a sequence puts the cursor in the first column of its line, telling the terminal only when it moved, and redraws |
| LegacyVt100Decoders.UnhandledControlThrows | Vt100Decoder.cs:53-58 | outside a sequence a control character throws exactly when it is none of backspace, escape, line feed, carriage return and bell, and then changes nothing |
| LegacyVt100Decoders.EscapeInSequenceThrows | Vt100Decoder.cs:101-104 | inside a sequence `ESC` throws and leaves the decoder as it was |
| LegacyVt100Decoders.UnknownLetterThrows | Vt100Decoder.cs:105-119 | inside a sequence a letter with no command throws and leaves the decoder, and the sequence, as they were |
| LegacyVt100Decoders.LineFeedStartsNextLine | Vt100Decoder.cs:38-44 | a line feed appends a row and puts the cursor at the start of the next line |
| LegacyVt100Decoders.Vt100Decoder.constructor | Vt100Decoder.cs:15-22 | a new decoder is idle with no parameters and has appended one empty row |
| LegacyVt100Decoders.Vt100Decoder.Position | Vt100Decoder.cs:150-153 | the VT100 position is the terminal cursor shifted by one in both directions |
| LegacyVt100Decoders.Vt100Decoder.SetPosition | Vt100Decoder.cs:154-162 | the setter's state and calls are `PositionSet` |
| LegacyVt100Decoders.Vt100Decoder.Feed | Vt100Decoder.cs:24-62 | feeding one character takes the state, the calls and the fault that `Step` gives |
| LegacyVt100Decoders.Vt100Decoder.FeedText | Vt100Decoder.cs:64-70 | feeding a string takes what `Run` gives, stopping at the first throw |
| LegacyVt100Decoders.Vt100Decoder.FeedNext | Vt100Decoder.cs:66-69 | one loop step extends the fed prefix by one character |
| LegacyVt100Decoders.Vt100Decoder.HandleRegularCharacter | Vt100Decoder.cs:82-88 | a printed character takes what `Printed` gives |
| LegacyVt100Decoders.Vt100Decoder.HandleAnsiCode | Vt100Decoder.cs:90-125 | a character inside a sequence takes what `AnsiStep` gives |
| LegacyVt100Decoders.Vt100Decoder.RunCommand | Vt100DecoderCommands.cs:15-92 | running a command takes what `CommandStep` gives |
| LegacyVt100Decoders.Vt100Decoder.MoveCursor | Vt100DecoderCommands.cs:15-62 | a cursor command sets the position to its target |
| LegacyVt100Decoders.Vt100Decoder.EraseDisplay | Vt100DecoderCommands.cs:69-92 | ED erases the range of its mode, 0 by default, and throws for any other mode |

## Left out

- The widget: the canvas, scrollbar, mouse, focus, autoscroll and painting (`Redraw`, `OnDraw`) are not modelled. Only the page size of the scrollbar is kept, and the canvas is its height. A row's `Draw` computes the text and the colour maps it would paint, and nothing is drawn.
- Fonts and sizes: floating-point measures are integers (`Metrics`), and the font is measured once, so every row is prepared with the same metrics.
- Time: the 30 ms budget of `RebuildHeightMap` is a set of rows at which the stopwatch has run out (`overBudget`). The blinking loop of `Cursor` is one tick at a time (`BlinkTick`), with no clock.
- I/O: the logger is the ghost sequence `log` of entries, not formatted strings. The response callback is the byte sequence `responses`, and `BellReceived` is counted in `bells`. The older decoder's `Console.WriteLine("Bell")` and `Console.WriteLine("SGR")` are `ConsoleLine` calls in its `calls`.
- Images: `Image.FromStream` and base-64 decoding are a parameter of `ITermFile.TryParse` (`load`), and an image is a value of a type parameter.
- The terminal the older decoder (`Vt100Decoder.cs`) was written against is not part of this model. Its calls into it are recorded as `Call` values, as the decoder makes them, including `InsertCharacterAt` with two arguments and `EraseScreen` with two.
- The older `ControlByte.cs` defines no `Backspace`, `CarriageReturn` or `Bell`. The older decoder uses the values of `Vt100/ControlByte.cs`, compared through the same low-byte cast.
- The `#if DEBUG` checks that a row's content has no `'\n'` and that an inserted element is one text element are not modelled. The constructors require them instead.
- Vt100Parser.IsLetter: exact up to U+00FF. Every character above U+00FF is taken to be a letter, where `char.IsLetter('€')` is false. For such characters the source keeps collecting sequence data, while the model ends the sequence.
- Vt100Parser.NextWith: strings are sequences of Unicode scalar values, while the source counts UTF-16 units. A text element outside the Basic Multilingual Plane has `Length == 2` in the source, which the `|element| != 1` test is meant to catch. In the model it is one character, and the test never fires for it.
- MonospaceRows.PadTo: `PadRight` counts UTF-16 units and `PadTo` counts text elements. They agree while every element is one unit.
- MonospaceRows.MonospaceTextRow.Erase: requires `to >= 0`. With a negative `to` the source's `SubstringByTextElements(to)` throws `ArgumentOutOfRangeException` after `minimalSublineCount` has been set. The decoder's `EraseCharacter` reports that case as `thrown` and does not erase.
- Vt100Commands.EraseCharacterBlanksCount: the corrected range `(x, x + n)` fixes the text half only. `Erase` blanks text on `[from, to)` but erases colours on `[from, to]` (Rows/MonospaceTextRow.cs:198), so the corrected erase-character also removes the foreground override of cell `x + n` and gives it the erasing background, where the source's `(x, x + n - 1)` touches the colours of exactly `n` cells. Doing both halves right would need a row erase with two ranges, which the source does not have.
- Vt100Decoder.Decoder.RunEraseCharacter: erases the colours of `n + 1` cells, as the line above says.
- Vt100Cursor.VtPosition: every member that reads the VT100 position uses this corrected getter: the cursor commands, line feed, carriage return, backspace, `ESC 7` and `CSI s`, the status report, and every dispatcher above them up to `Feed`. Where the hidden sublines exceed the sublines above the cursor's row, they can read a smaller row than the source (`Vt100Cursor.GetterAsWrittenMisreads`).
- Vt100Decoder.Decoder.EraseCharacter: erases the colours of `n + 1` cells, as the `Vt100Commands.EraseCharacterBlanksCount` line says. When it throws, the row's `minimalSublineCount` is left as it was, where the source has already set it to the current subline count.
- MonospaceRows.MonospaceTextRow.Draw: requires at least one character per line and no negative override key. A row with zero line width is never drawn by the terminal, and no caller stores a negative key.
- Vt100Screens.SetPosition: requires every row to be at least one subline high. With no character fitting on a line the source's setter loop never ends.
- Positions.IntegerPosition.ShiftedBy: the arithmetic of `IntegerPosition` is unbounded, where the C# wraps around (unchecked) on overflow. Only `GetHashCode` wraps explicitly.
- InlineImage.GenerateControlSequence: the sequence starts with `ESC ]`. `ControlByte.OperatingSystemCommand` is not defined in any `ControlByte.cs` here, and `]` is the value the VT100 standard gives it.
- Vt100Decoder.Decoder.Feed: a control shown in caret notation is printed by two `HandleRegularCharacter` calls, where the source calls `Feed` twice. Both inner calls print, so the rows and the cursor are the same; the two extra blink holds are left out.
- Vt100Decoder.InsertAtCursor: the source throws `InvalidOperationException` for a row that is not text. This cannot happen on a terminal that holds only text rows, which every decoder method requires.
- Colors.Brighten: colours are compared by constructor, where Xwt's `Color` compares by channel. `Rgb(0, 0, 0)`, which `ESC [ 1 ; 38 ; 5 ; 16 m` gives, is therefore not taken for `Black`: bold lightens it instead of giving `DarkGray`. Xwt's colour values are not part of this model.
- GraphicRenditions.RefreshedShowsIntended: a background equal to the default is dropped only when it is the same constructor. A background of `Rgb(0, 0, 0)`, which `ESC [ 48 ; 5 ; 16 m` gives, stays an override, where the source, comparing by channel with the default `Black`, drops it.
- Vt100Views.LineFeedOnLastLine: when the request one line below the position read after the append lies past the last row, so that the setter appends rows, the cursor is stated as the setter leaves it (the requested column of the last screen line, as `Moved` says), not as the position read back. The same holds for a line feed whose first request already lies past the last row, which neither lemma covers beyond `LineFed`.
- LegacyUtf8Decoder.ByteUtf8Decoder.Feed: the .NET decoder's rules (which bytes it replaces by U+FFFD and which it holds back) are the parameter `decode`. When `GetChars` throws for want of room, the bytes it holds are taken to be those it held before.
- LegacyRowCollection.RowCollection.Clear: the `ContentChanged` event is counted in a ghost field. Its subscribers are not modelled.
- LegacyVt100Decoders.CursorPositionNeedsTwoParameters: as written, the older `CursorPosition` reads `currentParams[1]` and throws `IndexOutOfRangeException` with fewer than two parameters. This is modelled as written, with no corrected twin: the file is superseded by `Vt100/DecoderCommands.cs`.
- LegacyMonospaceRows.LastPaintedCellNotKept: as written, the older `Draw` paints one cell more than it copies into the selection. This is also modelled as written.

## Findings

| source | as written | input that shows it | evidently intended | confidence | as-written member | corrected member |
|---|---|---|---|---|---|---|
| Vt100/Decoder.cs:306-315 | the getter clamps the hidden-subline count at 0, then adds the subline within the row | one row of 5 sublines with 2 hidden, 10 per line, cursor at cell 30: the getter reports row 4 where the setter put row 2 | clamp after adding the subline, so that getting what was set gives it back | not executed | Vt100Cursor.GetterAsWrittenMisreads | Vt100Cursor.VtPosition |
| Vt100/Decoder.cs:38-84 | `(ControlByte)c` keeps the low byte, so letters whose low byte is a control code act as one | `č` (U+010D) returns to column one; `ě` (U+011B) starts an escape | compare the whole character | not executed | Vt100Parser.LowByteMisreadsLetters | Vt100Parser.Next |
| Vt100/Decoder.cs:167-219 | only a letter ends a CSI sequence, so the handler registered for the grave accent (U+0060) never runs | `ESC [ 5` followed by a grave accent: the accent is collected as data and the sequence goes on | the grave accent ends the sequence and runs horizontal absolute, as its handler says | not executed | Vt100Parser.GraveAccentCollected | Vt100Parser.GraveAccentRuns |
| Rows/MonospaceTextRow.cs:185-196 | with `to < from` the prefix up to `from` and the suffix from `to` are both copied | `abc` erased from 2 to 1 becomes `abbc` | an empty range changes nothing | not executed | MonospaceRows.EraseBackwardsDuplicates | MonospaceRows.ErasedCellsAt |
| Rows/MonospaceTextRow.cs:340-345 | the selection colour is looked up at `index - index / charsOnLine` in a map keyed by element | 2 per line, element 3 at wrapped position 4: the lookup reads element 2 | `index - index / (charsOnLine + 1)`, the inverse of the wrapping | not executed | MonospaceRows.SourceIndexAsWrittenMisses | MonospaceRows.SourceIndexInvertsWrapping |
| Rows/MonospaceTextRow.cs:88 | block selection passes the subrow number `i` to the colour lookup | an element with a red override in a block selection is drawn black | pass the cell index | not executed | MonospaceRows.BlockForegroundAsWrittenMisses | MonospaceRows.DrawnForegroundOfElement |
| Vt100/DecoderCommands.cs:434-446 | `index < 0xE7` puts 231 on the grey ramp | `38;5;231` gives Rgb(-2, -2, -2) | `index < 0xE8`: 231 is the last cube colour, white | not executed | GraphicRenditions.Color231AsWritten | GraphicRenditions.CubeCoordinates |
| Vt100/DecoderCommands.cs:107-116 | `Erase(x, x + amount - 1)` on a half-open text range blanks the text of `amount - 1` cells | `ESC [ X` at column 1 of `ab` erases nothing | erase `amount` cells; the corrected `Erase(x, x + amount)` blanks `amount` text cells, but `Erase`'s inclusive colour loop then clears the colours of `amount + 1` cells (see the Left out section) | not executed | Vt100Commands.EraseCharacterMissesACell | Vt100Commands.EraseCharacterBlanksCount |
