/**
 * `Vt100Encoder` (Vt100Encoder.cs), the earlier key encoder: letters,
 * digits and Space pass through as their own code, a few named keys have a
 * fixed byte sequence, and modifiers are ignored. Key codes are the same
 * X11 keysyms as in module Encoder.
 */
module LegacyEncoder {
  import opened Wrappers

  type byte = b: int | 0 <= b < 256
  type Key = int

  datatype Modifier = Shift | Control | Alt | Command

  // Control bytes by their ASCII values
  const ESC: byte := 0x1B
  const CSI_CHAR: byte := 0x5B
  const CR: byte := 0x0D
  const BS: byte := 0x08
  const HT: byte := 0x09

  const KeySpace: Key := 0x20
  const KeyBackSpace: Key := 0xFF08
  const KeyTab: Key := 0xFF09
  const KeyReturn: Key := 0xFF0D
  const KeyLeft: Key := 0xFF51
  const KeyUp: Key := 0xFF52
  const KeyRight: Key := 0xFF53
  const KeyDown: Key := 0xFF54

  /** The `directlyPassedKeys` set: the digit keys K0..K9 and Space. */
  predicate IsDirectlyPassed(key: Key)
  {
    0x30 <= key <= 0x39 || key == KeySpace
  }

  /** Letter keys of either case. */
  predicate IsLetter(key: Key)
  {
    0x41 <= key <= 0x5A || 0x61 <= key <= 0x7A
  }

  /** The `keyHandlers` table. */
  function KeyHandler(key: Key): Option<seq<byte>>
  {
    if key == KeyReturn then Some([CR])
    else if key == KeyBackSpace then Some([BS])
    else if key == KeyTab then Some([HT])
    else if key == KeyUp then Some([ESC, CSI_CHAR, 0x41])
    else if key == KeyDown then Some([ESC, CSI_CHAR, 0x42])
    else if key == KeyRight then Some([ESC, CSI_CHAR, 0x43])
    else if key == KeyLeft then Some([ESC, CSI_CHAR, 0x44])
    else None
  }

  /** `Feed`: the bytes handed to the data callback for one key press. */
  function Feed(key: Key, modifiers: set<Modifier>): seq<byte>
  {
    if IsLetter(key) || IsDirectlyPassed(key) then [key]
    else if KeyHandler(key).Some? then KeyHandler(key).value
    else []
  }

  /** Letters, digits and Space emit one byte equal to the key code. */
  lemma PassThrough(key: Key, modifiers: set<Modifier>)
    requires IsLetter(key) || IsDirectlyPassed(key)
    ensures Feed(key, modifiers) == [key]
  {
  }

  /** The named keys and their sequences; arrows send CUU/CUD/CUF/CUB. */
  lemma NamedKeys(modifiers: set<Modifier>)
    ensures Feed(KeyReturn, modifiers) == [0x0D]
    ensures Feed(KeyBackSpace, modifiers) == [0x08]
    ensures Feed(KeyTab, modifiers) == [0x09]
    ensures Feed(KeyUp, modifiers) == [0x1B, '[' as int, 'A' as int]
    ensures Feed(KeyDown, modifiers) == [0x1B, '[' as int, 'B' as int]
    ensures Feed(KeyRight, modifiers) == [0x1B, '[' as int, 'C' as int]
    ensures Feed(KeyLeft, modifiers) == [0x1B, '[' as int, 'D' as int]
  {
  }

  /** A key that is neither passed through nor in the table emits nothing. */
  lemma OtherKeysEmitNothing(key: Key, modifiers: set<Modifier>)
    requires !IsLetter(key) && !IsDirectlyPassed(key) && KeyHandler(key).None?
    ensures Feed(key, modifiers) == []
  {
  }

  /** Modifiers never change the output. */
  lemma ModifiersIgnored(key: Key, m1: set<Modifier>, m2: set<Modifier>)
    ensures Feed(key, m1) == Feed(key, m2)
  {
  }

  /**
   * Only letters, digits, Space and the seven named keys emit anything,
   * and what they emit is never empty.
   */
  lemma EmitsIffKnown(key: Key, modifiers: set<Modifier>)
    ensures Feed(key, modifiers) != [] <==> IsLetter(key) || IsDirectlyPassed(key) || KeyHandler(key).Some?
  {
  }
}
