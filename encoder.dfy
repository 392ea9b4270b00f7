/**
 * `Encoder` (Vt100/Encoder.cs): turns a key press and its modifiers into
 * the bytes a VT100-style terminal sends to the host. Key codes follow the
 * toolkit's `Key` enumeration, whose values are X11 keysyms: printable keys
 * carry their ASCII code, named keys live at 0xFF00 and above.
 */
module Encoder {
  import opened Wrappers

  type byte = b: int | 0 <= b < 256
  type Key = int

  datatype Modifier = Shift | Control | Alt | Command

  // Control bytes (Vt100/ControlByte.cs)
  const ESC: byte := 0x1B
  const CSI_CHAR: byte := 0x5B  // '['
  const CR: byte := 0x0D
  const HT: byte := 0x09
  const DEL: byte := 0x7F

  // Key codes
  const KeySpace: Key := 0x20
  const KeyAt: Key := 0x40
  const KeyCaret: Key := 0x5E
  const KeyEqual: Key := 0x3D
  const KeyLowerA: Key := 0x61
  const KeyLowerZ: Key := 0x7A
  const KeyBackSpace: Key := 0xFF08
  const KeyTab: Key := 0xFF09
  const KeyReturn: Key := 0xFF0D
  const KeyEscape: Key := 0xFF1B
  const KeyHome: Key := 0xFF50
  const KeyLeft: Key := 0xFF51
  const KeyUp: Key := 0xFF52
  const KeyRight: Key := 0xFF53
  const KeyDown: Key := 0xFF54
  const KeyPageUp: Key := 0xFF55
  const KeyPageDown: Key := 0xFF56
  const KeyEnd: Key := 0xFF57
  const KeyInsert: Key := 0xFF63
  const KeyNumPadEnter: Key := 0xFF8D
  const KeyNumPadMultiply: Key := 0xFFAA
  const KeyNumPadAdd: Key := 0xFFAB
  const KeyNumPadSubtract: Key := 0xFFAD
  const KeyNumPadDecimal: Key := 0xFFAE
  const KeyNumPadDivide: Key := 0xFFAF
  const KeyNumPad0: Key := 0xFFB0
  const KeyF1: Key := 0xFFBE
  const KeyShiftLeft: Key := 0xFFE1
  const KeyShiftRight: Key := 0xFFE2
  const KeyControlLeft: Key := 0xFFE3
  const KeyControlRight: Key := 0xFFE4
  const KeyAltLeft: Key := 0xFFE9
  const KeyAltRight: Key := 0xFFEA
  const KeyDelete: Key := 0xFFFF

  // ASCII bytes used in the table
  const TILDE: byte := 0x7E
  const LETTER_O: byte := 0x4F

  /** ASCII digit `d` as a byte. */
  function Digit(d: int): byte
    requires 0 <= d <= 9
  {
    0x30 + d
  }

  /** Arrow keys: `ESC [` and the final letter of CUU/CUD/CUF/CUB. */
  function ArrowKey(key: Key): Option<seq<byte>>
  {
    if key == KeyUp then Some([ESC, CSI_CHAR, 0x41])
    else if key == KeyDown then Some([ESC, CSI_CHAR, 0x42])
    else if key == KeyRight then Some([ESC, CSI_CHAR, 0x43])
    else if key == KeyLeft then Some([ESC, CSI_CHAR, 0x44])
    else None
  }

  /** Home, Insert, Delete, End, PageUp and PageDown: `ESC [ n ~` with n = 1..6. */
  function EditingKey(key: Key): Option<seq<byte>>
  {
    if key == KeyHome then Some([ESC, CSI_CHAR, Digit(1), TILDE])
    else if key == KeyInsert then Some([ESC, CSI_CHAR, Digit(2), TILDE])
    else if key == KeyDelete then Some([ESC, CSI_CHAR, Digit(3), TILDE])
    else if key == KeyEnd then Some([ESC, CSI_CHAR, Digit(4), TILDE])
    else if key == KeyPageUp then Some([ESC, CSI_CHAR, Digit(5), TILDE])
    else if key == KeyPageDown then Some([ESC, CSI_CHAR, Digit(6), TILDE])
    else None
  }

  /** Keypad keys: the digit or operator they are labelled with; Enter sends CR. */
  function NumPadKey(key: Key): Option<seq<byte>>
  {
    if KeyNumPad0 <= key <= KeyNumPad0 + 9 then Some([Digit(key - KeyNumPad0)])
    else if key == KeyNumPadAdd then Some([0x2B])
    else if key == KeyNumPadSubtract then Some([0x2D])
    else if key == KeyNumPadMultiply then Some([0x2A])
    else if key == KeyNumPadDivide then Some([0x2F])
    else if key == KeyNumPadDecimal then Some([0x2E])
    else if key == KeyNumPadEnter then Some([CR])
    else None
  }

  /**
   * F1..F4 send `ESC [ O P`..`ESC [ O S`; F5..F10 send `ESC [ [ 1 5 ~`,
   * `17`, `18`, `19`, `20` and `21`.
   */
  function FunctionKey(key: Key): Option<seq<byte>>
  {
    if KeyF1 <= key <= KeyF1 + 3 then Some([ESC, CSI_CHAR, LETTER_O, 0x50 + key - KeyF1])
    else if key == KeyF1 + 4 then Some([ESC, CSI_CHAR, CSI_CHAR, Digit(1), Digit(5), TILDE])
    else if key == KeyF1 + 5 then Some([ESC, CSI_CHAR, CSI_CHAR, Digit(1), Digit(7), TILDE])
    else if key == KeyF1 + 6 then Some([ESC, CSI_CHAR, CSI_CHAR, Digit(1), Digit(8), TILDE])
    else if key == KeyF1 + 7 then Some([ESC, CSI_CHAR, CSI_CHAR, Digit(1), Digit(9), TILDE])
    else if key == KeyF1 + 8 then Some([ESC, CSI_CHAR, CSI_CHAR, Digit(2), Digit(0), TILDE])
    else if key == KeyF1 + 9 then Some([ESC, CSI_CHAR, CSI_CHAR, Digit(2), Digit(1), TILDE])
    else None
  }

  /** The `keyHandlers` table: the byte sequence of a named key, if it has one. */
  function KeyHandler(key: Key): Option<seq<byte>>
  {
    if key == KeyEscape then Some([ESC])
    else if key == KeyReturn then Some([CR])
    else if key == KeyBackSpace then Some([DEL])
    else if key == KeyTab then Some([HT])
    else if key == KeyCaret then Some([0x5E])
    else if key == KeyEqual then Some([0x3D])
    else if ArrowKey(key).Some? then ArrowKey(key)
    else if EditingKey(key).Some? then EditingKey(key)
    else if NumPadKey(key).Some? then NumPadKey(key)
    else FunctionKey(key)
  }

  /** `IsModifierOnly`: a bare Control, Alt or Shift key. */
  predicate IsModifierOnly(key: Key)
  {
    key == KeyControlLeft || key == KeyControlRight || key == KeyAltLeft
    || key == KeyAltRight || key == KeyShiftLeft || key == KeyShiftRight
  }

  /** `HandleControlModifier`: letters fold to upper case, then `@`..`_` map to 0..31. */
  function HandleControlModifier(key: Key): (bytes: seq<byte>)
    ensures |bytes| <= 1
    ensures forall i :: 0 <= i < |bytes| ==> bytes[i] < 32
  {
    var folded := if KeyLowerA <= key <= KeyLowerZ then key - 32 else key;
    if KeyAt <= folded <= 95 then [folded - KeyAt] else []
  }

  /** `Feed`: the bytes handed to the data callback for one key press. */
  function Feed(key: Key, modifiers: set<Modifier>): (bytes: seq<byte>)
  {
    if IsModifierOnly(key) then []
    else if Control in modifiers then HandleControlModifier(key)
    else if KeySpace <= key <= 126 then [key]
    else if KeyHandler(key).Some? then KeyHandler(key).value
    else []
  }

  /** Bare Control, Alt and Shift keys emit nothing, whatever the modifiers. */
  lemma ModifierOnlyEmitsNothing(key: Key, modifiers: set<Modifier>)
    requires IsModifierOnly(key)
    ensures Feed(key, modifiers) == []
  {
  }

  /**
   * With Control held, a letter of either case emits its control code
   * (A and a give 0x01, ..., Z and z give 0x1A), the other keys in `@`..`_`
   * emit key - 64, and every other key emits nothing: the printable path
   * and the table are never consulted.
   */
  lemma ControlCodes(key: Key, modifiers: set<Modifier>)
    requires Control in modifiers && !IsModifierOnly(key)
    ensures 'a' as int <= key <= 'z' as int ==> Feed(key, modifiers) == [key - 96]
    ensures 'a' as int <= key <= 'z' as int ==> Feed(key, modifiers) == Feed(key - 32, modifiers)
    ensures '@' as int <= key <= '_' as int ==> Feed(key, modifiers) == [key - 64]
    ensures !('a' as int <= key <= 'z' as int) && !('@' as int <= key <= '_' as int) ==> Feed(key, modifiers) == []
  {
    if 'a' as int <= key <= 'z' as int {
      assert !IsModifierOnly(key - 32);
    }
  }

  /** Without Control, every key code from 32 to 126 emits exactly that byte. */
  lemma PrintablePassesThrough(key: Key, modifiers: set<Modifier>)
    requires Control !in modifiers && 32 <= key <= 126
    ensures |Feed(key, modifiers)| == 1 && Feed(key, modifiers)[0] == key
  {
  }

  /**
   * Without Control, keys outside 32..126 emit their table entry in order,
   * or nothing when they have none.
   */
  lemma NamedKeysUseTable(key: Key, modifiers: set<Modifier>)
    requires Control !in modifiers && !IsModifierOnly(key) && !(32 <= key <= 126)
    ensures KeyHandler(key).Some? ==> Feed(key, modifiers) == KeyHandler(key).value
    ensures KeyHandler(key).None? ==> Feed(key, modifiers) == []
  {
  }

  /** Sample entries: cursor keys, Delete, BackSpace, Return, keypad and F5. */
  lemma TableSamples()
    ensures Feed(KeyUp, {}) == [ESC, CSI_CHAR, 'A' as int]
    ensures Feed(KeyLeft, {Shift}) == [ESC, CSI_CHAR, 'D' as int]
    ensures Feed(KeyDelete, {}) == [ESC, CSI_CHAR, '3' as int, '~' as int]
    ensures Feed(KeyBackSpace, {}) == [0x7F]
    ensures Feed(KeyReturn, {Alt}) == [0x0D] && Feed(KeyNumPadEnter, {}) == [0x0D]
    ensures Feed(KeyNumPad0 + 7, {}) == ['7' as int]
    ensures Feed(KeyF1 + 4, {}) == [ESC, CSI_CHAR, CSI_CHAR, '1' as int, '5' as int, '~' as int]
  {
  }

  /**
   * Every entry of the table is non-empty, and every entry longer than one
   * byte is an escape sequence: it starts with `ESC [`.
   */
  lemma MultiByteEntriesAreEscapeSequences(key: Key)
    requires KeyHandler(key).Some?
    ensures 1 <= |KeyHandler(key).value| <= 6
    ensures |KeyHandler(key).value| > 1 ==> KeyHandler(key).value[0] == ESC && KeyHandler(key).value[1] == CSI_CHAR
  {
  }

  /**
   * The table entries for `^` and `=` are shadowed by the printable path,
   * and agree with it.
   */
  lemma ShadowedEntriesAgree(modifiers: set<Modifier>)
    requires Control !in modifiers
    ensures Feed(KeyCaret, modifiers) == KeyHandler(KeyCaret).value
    ensures Feed(KeyEqual, modifiers) == KeyHandler(KeyEqual).value
  {
  }

  /** Every key press emits at most six bytes. */
  lemma OutputIsShort(key: Key, modifiers: set<Modifier>)
    ensures |Feed(key, modifiers)| <= 6
  {
    if !IsModifierOnly(key) && Control !in modifiers && !(KeySpace <= key <= 126) && KeyHandler(key).Some? {
      MultiByteEntriesAreEscapeSequences(key);
    }
  }
}
