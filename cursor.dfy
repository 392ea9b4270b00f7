/**
 * `Cursor` (Cursor.cs): the terminal cursor's screen position, which the
 * setter clamps to the rows on screen, and its blink state. The blink loop
 * runs on a timer; here one round of it is the method `BlinkTick`. The
 * number of screen rows is supplied by the terminal on every assignment.
 */
module TerminalCursor {
  import opened Positions

  /**
   * The `Position` setter's clamping: Y first to at least 0, then to at most
   * `screenRowCount - 1`, and X to at least 0.
   */
  function ClampPosition(value: IntegerPosition, screenRowCount: int): IntegerPosition
  {
    var v1 := if value.Y < 0 then value.WithY(0) else value;
    var v2 := if v1.Y >= screenRowCount then v1.WithY(screenRowCount - 1) else v1;
    if v2.X < 0 then v2.WithX(0) else v2
  }

  /**
   * With at least one row on screen, the clamped Y lies in
   * [0, screenRowCount - 1] and is the nearest such value, X is at least 0
   * and has no upper bound.
   */
  lemma ClampIntoScreen(value: IntegerPosition, screenRowCount: int)
    requires screenRowCount >= 1
    ensures var p := ClampPosition(value, screenRowCount);
            0 <= p.Y < screenRowCount && p.X >= 0
            && (value.Y < 0 ==> p.Y == 0)
            && (value.Y >= screenRowCount ==> p.Y == screenRowCount - 1)
            && (0 <= value.Y < screenRowCount ==> p.Y == value.Y)
            && (value.X >= 0 ==> p.X == value.X)
            && (value.X < 0 ==> p.X == 0)
  {
  }

  /** A position already on screen is stored unchanged, and clamping twice is clamping once. */
  lemma ClampKeepsValid(value: IntegerPosition, screenRowCount: int)
    requires screenRowCount >= 1
    ensures 0 <= value.Y < screenRowCount && value.X >= 0 ==> ClampPosition(value, screenRowCount) == value
    ensures ClampPosition(ClampPosition(value, screenRowCount), screenRowCount) == ClampPosition(value, screenRowCount)
  {
  }

  /** The blink state between two rounds of the blink loop. */
  datatype Blink = Blink(waitRounds: int, on: bool)

  /** One round of the blink loop (lines 80-89). */
  function Tick(b: Blink, enabled: bool): Blink
  {
    if b.waitRounds > 0 then Blink(b.waitRounds - 1, b.on)
    else if enabled then Blink(b.waitRounds, !b.on)
    else b
  }

  /** `k` rounds of the blink loop. */
  function Ticks(b: Blink, enabled: bool, k: nat): Blink
    decreases k
  {
    if k == 0 then b else Ticks(Tick(b, enabled), enabled, k - 1)
  }

  /**
   * After `StayOnForNBlinks(n)` the cursor stays visible for the next `n`
   * rounds, whatever `Enabled` is, and the wait counter runs down to 0.
   */
  lemma {:induction false} StaysOnForNBlinks(n: nat, enabled: bool, k: nat)
    requires k <= n
    ensures Ticks(Blink(n, true), enabled, k) == Blink(n - k, true)
  {
    if k > 0 {
      assert Tick(Blink(n, true), enabled) == Blink(n - 1, true);
      StaysOnForNBlinks(n - 1, enabled, k - 1);
    }
  }

  /** Once the counter is 0, an enabled cursor toggles every round and a disabled one never does. */
  lemma BlinkWithoutWait(on: bool, enabled: bool)
    ensures Tick(Blink(0, on), enabled) == Blink(0, if enabled then !on else on)
    ensures Ticks(Blink(0, on), enabled, 2) == Blink(0, on)
  {
    var once := Tick(Blink(0, on), enabled);
    assert Ticks(Blink(0, on), enabled, 2) == Ticks(once, enabled, 1) == Tick(once, enabled);
  }

  class Cursor {
    var position: IntegerPosition
    var blinkWaitRounds: int
    var blinkState: bool
    var enabled: bool

    constructor ()
      ensures position == Origin && blinkWaitRounds == 0 && !blinkState && !enabled
    {
      position := Origin;
      blinkWaitRounds := 0;
      blinkState := false;
      enabled := false;
    }

    function BlinkOf(): Blink
      reads this
    {
      Blink(blinkWaitRounds, blinkState)
    }

    /** `StayOnForNBlinks`: shows the cursor and holds it on for `n` rounds. */
    method StayOnForNBlinks(n: int)
      modifies this
      ensures BlinkOf() == Blink(n, true)
      ensures position == old(position) && enabled == old(enabled)
    {
      blinkWaitRounds := n;
      blinkState := true;
    }

    /** The `Position` setter. */
    method SetPosition(value: IntegerPosition, screenRowCount: int)
      modifies this
      ensures position == ClampPosition(value, screenRowCount)
      ensures BlinkOf() == old(BlinkOf()) && enabled == old(enabled)
    {
      var v := value;
      if v.Y < 0 {
        v := v.WithY(0);
      }
      if v.Y >= screenRowCount {
        v := v.WithY(screenRowCount - 1);
      }
      if v.X < 0 {
        v := v.WithX(0);
      }
      position := v;
    }

    /** The `Enabled` setter. */
    method SetEnabled(value: bool)
      modifies this
      ensures enabled == value
      ensures BlinkOf() == old(BlinkOf()) && position == old(position)
    {
      enabled := value;
    }

    /** One round of the blink loop, after its delay. */
    method BlinkTick()
      modifies this
      ensures BlinkOf() == Tick(old(BlinkOf()), enabled)
      ensures position == old(position) && enabled == old(enabled)
    {
      if blinkWaitRounds > 0 {
        blinkWaitRounds := blinkWaitRounds - 1;
        return;
      }
      if enabled {
        blinkState := !blinkState;
      }
    }
  }
}
