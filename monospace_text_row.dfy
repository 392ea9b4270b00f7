/**
 * `MonospaceTextRow` (Rows/MonospaceTextRow.cs): one logical line of the
 * terminal, a sequence of text elements wrapped over as many sublines as
 * the line width needs, with sparse foreground and background overrides
 * keyed by element index. Text elements are strings; how a string is cut
 * into elements (Unicode UAX #29) is not modelled, so a row is built from
 * its elements. A dictionary the source has not yet allocated is the empty
 * map here, which behaves the same for every read and removal.
 */
module MonospaceRows {
  import opened Wrappers
  import opened Strings
  import opened Colors
  import opened RowMetrics
  import CSharpInt
  import Clipboard

  type Element = string

  /** An element `string.TrimEnd()` removes: every character is white space. */
  predicate IsBlank(e: Element)
  {
    forall i :: 0 <= i < |e| ==> IsWhiteSpace(e[i])
  }

  function Spaces(n: nat): (r: seq<Element>)
    ensures |r| == n && forall i :: 0 <= i < n ==> r[i] == " "
  {
    seq(n, _ => " ")
  }

  /**
   * `PadRight(n, ' ')` on the row's text. The source pads the string, so it
   * counts UTF-16 units; the model counts text elements, which agrees while
   * every element is one unit.
   */
  function PadTo(s: seq<Element>, n: int): (r: seq<Element>)
    ensures |r| == Max(|s|, n)
  {
    if |s| < n then s + Spaces(n - |s|) else s
  }

  /** The padded sequence starts with `s` and continues with spaces. */
  lemma PadToShape(s: seq<Element>, n: int)
    ensures var r := PadTo(s, n);
            s <= r && forall i :: |s| <= i < |r| ==> r[i] == " "
  {
  }

  function Max(a: int, b: int): int { if a < b then b else a }

  /** A positive multiple of `d` is at least `d`. */
  lemma {:induction false} MultipleAtLeast(x: int, d: int)
    requires x >= 1 && d > 0
    ensures x * d >= d
    decreases x
  {
    if x > 1 {
      MultipleAtLeast(x - 1, d);
      assert x * d == (x - 1) * d + d;
    }
  }

  lemma MultipleMonotone(x: int, y: int, d: nat)
    requires x <= y
    ensures x * d <= y * d
  {
    if x < y && d > 0 {
      assert y * d == x * d + (y - x) * d;
      MultipleAtLeast(y - x, d);
    }
  }

  /** Division with remainder has one answer. */
  lemma DivisionUnique(a: int, d: int, q: int, r: int)
    requires d > 0 && a == q * d + r && 0 <= r < d
    ensures q == a / d && r == a % d
  {
    var q', r' := a / d, a % d;
    assert a == q' * d + r' && 0 <= r' < d;
    if q < q' {
      assert (q' - q) * d == q' * d - q * d;
      MultipleAtLeast(q' - q, d);
    } else if q > q' {
      assert (q - q') * d == q * d - q' * d;
      MultipleAtLeast(q - q', d);
    }
  }

  lemma MulStep(j: int, d: int)
    ensures j * d == (j - 1) * d + d
  {
  }

  lemma MulSucc(j: int, d: int)
    ensures j * (d + 1) == j * d + j
  {
  }

  /** Division by a positive number is monotone. */
  lemma DivMonotone(a: int, b: int, d: int)
    requires a <= b && d > 0
    ensures a / d <= b / d
  {
    var qa, qb := a / d, b / d;
    if qa > qb {
      MultipleMonotone(qb + 1, qa, d);
      MulStep(qb + 1, d);
    }
  }

  // ---------------------------------------------------------------------
  // Subline arithmetic

  /**
   * The sublines a row of `length` elements takes with `charsOnLine`
   * elements per subline; an empty row still takes one.
   */
  function Lines(length: nat, charsOnLine: nat): (n: int)
    requires charsOnLine > 0
    ensures n >= 1 && length <= n * charsOnLine
    ensures length > 0 ==> (n - 1) * charsOnLine < length
  {
    CSharpInt.DivCeil(if length == 0 then 1 else length, charsOnLine)
  }

  /** `lineCount` after `PrepareForDrawing`: the sublines needed, but never fewer than the floor. */
  function LineCountFor(length: nat, minimalSublineCount: int, charsOnLine: nat): int
    requires charsOnLine > 0
  {
    Max(minimalSublineCount, Lines(length, charsOnLine))
  }

  /**
   * The line count is the least number of sublines, not below the floor,
   * that holds the whole row.
   */
  lemma LineCountHoldsRow(length: nat, minimalSublineCount: int, charsOnLine: nat)
    requires charsOnLine > 0
    ensures var n := LineCountFor(length, minimalSublineCount, charsOnLine);
            n >= 1 && n >= minimalSublineCount && length <= n * charsOnLine
            && (n == minimalSublineCount || length == 0 || (n - 1) * charsOnLine < length)
  {
  }

  /**
   * The characters per line `PutCharacterAt` divides by:
   * `Math.Max((int)Math.Floor(lineSize.Width / charWidth), 1)`. Before the
   * first `PrepareForDrawing` the width and the character width are both 0,
   * the quotient is not a number, and the cast and `Math.Max` give 1.
   */
  function CharsOnLine(m: Metrics): (c: nat)
    ensures c >= 1
  {
    if m.charWidth > 0 then Max(m.lineWidth / m.charWidth, 1) else 1
  }

  /** With a measured font this is `MaximalColumn + 1`, the width `PrepareForDrawing` wraps at. */
  lemma CharsOnLineIsColumns(m: Metrics)
    requires m.charWidth > 0
    ensures CharsOnLine(m) == MaximalColumnOf(m) + 1
  {
  }

  // ---------------------------------------------------------------------
  // PutCharacterAt

  /** The content after `PutCharacterAt(position, what)` (lines 251-275). */
  function PutContent(c: seq<Element>, position: nat, what: Element): seq<Element>
  {
    var head := if position > 0 then
                  (if |c| <= position then c + Spaces(position - |c|) + [what]
                   else c[..position] + [what])
                else [what];
    head + (if |c| > position + 1 then c[position + 1..] else [])
  }

  /**
   * `what` lands at `position`; a row that was shorter is padded with
   * spaces up to it; every other element keeps its place.
   */
  lemma PutContentPlaces(c: seq<Element>, position: nat, what: Element)
    ensures var r := PutContent(c, position, what);
            |r| == Max(|c|, position + 1) && r[position] == what
            && (forall i :: 0 <= i < |c| && i != position ==> r[i] == c[i])
            && (forall i :: |c| <= i < position ==> r[i] == " ")
  {
  }

  /**
   * An override map after one cell's update: set to the colour given, or
   * removed when there is none; every other key keeps its entry.
   */
  function UpdateOverride(m: map<int, Color>, key: int, color: Option<Color>): (r: map<int, Color>)
    ensures color.Some? ==> key in r && r[key] == color.value
    ensures color.None? ==> key !in r
    ensures forall k :: k != key ==> (k in r <==> k in m) && (k in m ==> r[k] == m[k])
  {
    match color
    case Some(v) => m[key := v]
    case None => m - {key}
  }

  /** `PutCharacterAt`'s result: whether the number of sublines changed. */
  function SublinesChanged(oldLength: nat, newLength: nat, charsOnLine: nat): bool
    requires charsOnLine > 0
  {
    Lines(oldLength, charsOnLine) != Lines(newLength, charsOnLine)
  }

  /**
   * Putting a character never shortens a row, so a `true` result means the
   * row needs more sublines than before, and replacing an existing element
   * always yields `false`.
   */
  lemma PutCharacterGrowsLines(c: seq<Element>, position: nat, what: Element, charsOnLine: nat)
    requires charsOnLine > 0
    ensures var r := PutContent(c, position, what);
            |r| >= |c|
            && (SublinesChanged(|c|, |r|, charsOnLine) <==> Lines(|r|, charsOnLine) > Lines(|c|, charsOnLine))
            && (position < |c| ==> !SublinesChanged(|c|, |r|, charsOnLine))
  {
    PutContentPlaces(c, position, what);
    var r := PutContent(c, position, what);
    LinesMonotone(|c|, |r|, charsOnLine);
  }

  lemma LinesMonotone(a: nat, b: nat, charsOnLine: nat)
    requires charsOnLine > 0 && a <= b
    ensures Lines(a, charsOnLine) <= Lines(b, charsOnLine)
  {
    var la, lb := Lines(a, charsOnLine), Lines(b, charsOnLine);
    if lb < la {
      MultipleMonotone(lb, la - 1, charsOnLine);
    }
  }

  // ---------------------------------------------------------------------
  // Erase

  /** `Math.Max(0, Math.Min(from, length))`. */
  function ClampFrom(from: int, length: nat): (f: nat)
    ensures f <= length
  {
    if from < 0 then 0 else if from > length then length else from
  }

  /**
   * The elements `Erase` builds before trimming, AS WRITTEN (lines 185-196):
   * the elements before `f`, `to - f` spaces, and the elements from `to` on.
   * When `to < f` the elements between `to` and `f` are kept twice.
   */
  function ErasedCellsAsWritten(c: seq<Element>, f: nat, to: nat): seq<Element>
    requires f <= |c|
  {
    (if f > 0 then c[..f] else [])
    + (if to > f then Spaces(to - f) else [])
    + (if to < |c| then c[to..] else [])
  }

  /**
   * The same with the tail taken from `max(to, f)`, so that an empty range
   * (`to < f`) erases nothing; for `to >= f` it is the code as written.
   */
  function ErasedCells(c: seq<Element>, f: nat, to: nat): (r: seq<Element>)
    requires f <= |c|
    ensures |r| == Max(|c|, to)
  {
    var tail := Max(to, f);
    c[..f] + (if to > f then Spaces(to - f) else []) + (if tail < |c| then c[tail..] else [])
  }

  /** The cells in [f, to) are spaces and every other cell is the old element. */
  lemma ErasedCellsAt(c: seq<Element>, f: nat, to: nat)
    requires f <= |c|
    ensures var r := ErasedCells(c, f, to);
            forall i :: 0 <= i < |r| ==> r[i] == if f <= i < to then " " else c[i]
  {
  }

  /** For a non-empty range the corrected cells are the cells as written. */
  lemma ErasedCellsAgree(c: seq<Element>, f: nat, to: nat)
    requires f <= |c| && f <= to
    ensures ErasedCells(c, f, to) == ErasedCellsAsWritten(c, f, to)
  {
    if f == 0 {
      assert c[..f] == [];
    }
  }

  /**
   * An empty range duplicates elements as written: erasing from 2 to 1 in a
   * row "abc" makes it "abbc", where nothing should change.
   */
  lemma EraseBackwardsDuplicates()
    ensures ErasedCellsAsWritten(["a", "b", "c"], 2, 1) == ["a", "b", "b", "c"]
    ensures ErasedCells(["a", "b", "c"], 2, 1) == ["a", "b", "c"]
  {
    var c: seq<Element> := ["a", "b", "c"];
    assert c[..2] == ["a", "b"] && c[1..] == ["b", "c"] && c[2..] == ["c"];
  }

  /** As written, every range with `to < f` makes the row longer by `f - to` elements. */
  lemma EraseBackwardsGrows(c: seq<Element>, f: nat, to: nat)
    requires to < f <= |c|
    ensures |ErasedCellsAsWritten(c, f, to)| == |c| + f - to
  {
  }

  /** The content `Erase(from, to)` leaves: trimmed at the end, then padded back to `from`. */
  function ErasedContent(c: seq<Element>, from: int, to: nat): seq<Element>
  {
    var f := ClampFrom(from, |c|);
    PadTo(TrimEndWhere(ErasedCells(c, f, to), IsBlank), f)
  }

  /**
   * What `Erase` does to the elements: the row still reaches the clamped
   * `from`; cells in [from, to) are blank; every other cell still inside
   * the row is the old element, or a space where the old element was blank
   * and was trimmed; and the row ends with a non-blank element or at `from`.
   */
  lemma ErasedContentShape(c: seq<Element>, from: int, to: nat)
    ensures var f := ClampFrom(from, |c|);
            var r := ErasedContent(c, from, to);
            |r| >= f
            && (forall i :: f <= i < to && i < |r| ==> IsBlank(r[i]))
            && (forall i :: 0 <= i < |r| && i < |c| && !(f <= i < to) ==>
                  r[i] == c[i] || (IsBlank(c[i]) && r[i] == " "))
            && (|r| == f || !IsBlank(r[|r| - 1]))
  {
    ErasedContentEnds(c, from, to);
    ErasedRangeBlank(c, from, to);
    ErasedOutsideKept(c, from, to);
  }

  lemma ErasedContentEnds(c: seq<Element>, from: int, to: nat)
    ensures var f := ClampFrom(from, |c|);
            var r := ErasedContent(c, from, to);
            |r| >= f && (|r| == f || !IsBlank(r[|r| - 1]))
  {
    var f := ClampFrom(from, |c|);
    var t := TrimEndWhere(ErasedCells(c, f, to), IsBlank);
    TrimEndShape(ErasedCells(c, f, to), IsBlank);
    assert |t| >= f ==> ErasedContent(c, from, to) == t;
  }

  lemma ErasedRangeBlank(c: seq<Element>, from: int, to: nat)
    ensures var f := ClampFrom(from, |c|);
            var r := ErasedContent(c, from, to);
            forall i :: f <= i < to && i < |r| ==> IsBlank(r[i])
  {
    var f := ClampFrom(from, |c|);
    var built := ErasedCells(c, f, to);
    ErasedCellsAt(c, f, to);
    var t := TrimEndWhere(built, IsBlank);
    TrimEndShape(built, IsBlank);
    PadToShape(t, f);
    var r := ErasedContent(c, from, to);
    forall i | f <= i < to && i < |r|
      ensures IsBlank(r[i])
    {
      if i < |t| {
        assert r[i] == t[i] == built[i];
      }
    }
  }

  lemma ErasedOutsideKept(c: seq<Element>, from: int, to: nat)
    ensures var f := ClampFrom(from, |c|);
            var r := ErasedContent(c, from, to);
            forall i :: 0 <= i < |r| && i < |c| && !(f <= i < to) ==>
              r[i] == c[i] || (IsBlank(c[i]) && r[i] == " ")
  {
    var f := ClampFrom(from, |c|);
    var built := ErasedCells(c, f, to);
    ErasedCellsAt(c, f, to);
    var t := TrimEndWhere(built, IsBlank);
    TrimEndShape(built, IsBlank);
    PadToShape(t, f);
    var r := ErasedContent(c, from, to);
    forall i | 0 <= i < |r| && i < |c| && !(f <= i < to)
      ensures r[i] == c[i] || (IsBlank(c[i]) && r[i] == " ")
    {
      if i < |t| {
        assert r[i] == t[i] == built[i];
      } else {
        assert built[i] == c[i];
      }
    }
  }

  /** Erased content reaches the clamped `from`, so clamping `from` again gives the same index. */
  lemma ClampAgain(c: seq<Element>, from: int, to: nat)
    ensures ClampFrom(from, |ErasedContent(c, from, to)|) == ClampFrom(from, |c|)
  {
    var f := ClampFrom(from, |c|);
    var t := TrimEndWhere(ErasedCells(c, f, to), IsBlank);
    TrimEndShape(ErasedCells(c, f, to), IsBlank);
    if from > |c| {
      assert |t| <= |c|;
    }
  }

  /** Erasing again rebuilds the trimmed cells, followed only by blank cells. */
  lemma ReErasedPrefix(c: seq<Element>, f: nat, to: nat)
    requires f <= |c|
    ensures var t := TrimEndWhere(ErasedCells(c, f, to), IsBlank);
            var built1 := ErasedCells(PadTo(t, f), f, to);
            |t| <= |built1| && built1[..|t|] == t
  {
    var built := ErasedCells(c, f, to);
    var t := TrimEndWhere(built, IsBlank);
    var c1 := PadTo(t, f);
    TrimEndShape(built, IsBlank);
    PadToShape(t, f);
    ErasedCellsAt(c, f, to);
    ErasedCellsAt(c1, f, to);
    RebuiltPrefix(t, c1, built, ErasedCells(c1, f, to), f, to);
  }

  /**
   * A prefix `t` of cells that are blank on [f, to), also a prefix of `c1`,
   * is rebuilt by blanking [f, to) of `c1` again.
   */
  lemma RebuiltPrefix(t: seq<Element>, c1: seq<Element>, built: seq<Element>, built1: seq<Element>, f: nat, to: nat)
    requires t <= built && t <= c1 && |c1| <= |built1|
    requires forall i :: 0 <= i < |built| && f <= i < to ==> built[i] == " "
    requires forall i :: 0 <= i < |c1| ==> built1[i] == if f <= i < to then " " else c1[i]
    ensures |t| <= |built1| && built1[..|t|] == t
  {
    forall i | 0 <= i < |t|
      ensures built1[i] == t[i]
    {
      assert t[i] == built[i] && c1[i] == t[i];
    }
  }

  lemma ReErasedRest(c: seq<Element>, f: nat, to: nat)
    requires f <= |c|
    ensures var t := TrimEndWhere(ErasedCells(c, f, to), IsBlank);
            var built1 := ErasedCells(PadTo(t, f), f, to);
            forall i :: |t| <= i < |built1| ==> IsBlank(built1[i])
  {
    var t := TrimEndWhere(ErasedCells(c, f, to), IsBlank);
    var c1 := PadTo(t, f);
    var built1 := ErasedCells(c1, f, to);
    ErasedCellsAt(c1, f, to);
    PadToShape(t, f);
    forall i | |t| <= i < |built1|
      ensures IsBlank(built1[i])
    {
      if !(f <= i < to) {
        assert built1[i] == c1[i] == " ";
      }
    }
  }

  /** Erasing the same range twice leaves the same elements as erasing it once. */
  lemma ErasedContentIdempotent(c: seq<Element>, from: int, to: nat)
    ensures ErasedContent(ErasedContent(c, from, to), from, to) == ErasedContent(c, from, to)
  {
    var f := ClampFrom(from, |c|);
    var t := TrimEndWhere(ErasedCells(c, f, to), IsBlank);
    var c1 := ErasedContent(c, from, to);
    assert c1 == PadTo(t, f);
    ClampAgain(c, from, to);
    var built1 := ErasedCells(c1, f, to);
    assert ErasedContent(c1, from, to) == PadTo(TrimEndWhere(built1, IsBlank), f);
    ReErasedPrefix(c, f, to);
    ReErasedRest(c, f, to);
    TrimEndShape(ErasedCells(c, f, to), IsBlank);
    TrimOfRebuilt(t, built1);
  }

  lemma TrimOfRebuilt(t: seq<Element>, built: seq<Element>)
    requires |t| <= |built| && built[..|t|] == t
    requires |t| == 0 || !IsBlank(t[|t| - 1])
    requires forall i :: |t| <= i < |built| ==> IsBlank(built[i])
    ensures TrimEndWhere(built, IsBlank) == t
  {
    var rest := built[|t|..];
    assert built == t + rest;
    TrimEndAppendDropped(t, rest, IsBlank);
    TrimEndKept(t, IsBlank);
  }

  predicate Between(f: int, to: int, k: int) { f <= k <= to }

  /**
   * The indices from `f` through `to`, both included: the keys `Erase`'s
   * loop visits, and the cells a stream selection paints.
   */
  function Span(f: int, to: int): set<int>
  {
    set k | f <= k <= to && Between(f, to, k)
  }

  /** What a loop writes into every cell it visits: one colour, or the selection foreground of the cell. */
  datatype Paint = Uniform(color: Color) | SelectionForegrounds(fg: map<int, Color>, charsOnLine: Positive)

  type Positive = n: nat | n > 0 witness 1

  function PaintOf(p: Paint, cell: int): Color
  {
    match p
    case Uniform(c) => c
    case SelectionForegrounds(fg, charsOnLine) => SelectionForeground(fg, cell, charsOnLine)
  }

  /** `m` after a loop that paints the cells `f` through `to` in turn. */
  function SpanPainted(m: map<int, Color>, f: int, to: int, p: Paint): map<int, Color>
    decreases to - f
  {
    if to < f then m else SpanPainted(m, f, to - 1, p)[to := PaintOf(p, to)]
  }

  /** Painting a span writes every cell of it and leaves every other entry as it was. */
  lemma {:induction false} SpanPaintedAt(m: map<int, Color>, f: int, to: int, p: Paint, k: int)
    decreases to - f
    ensures var r := SpanPainted(m, f, to, p);
            (k in Span(f, to) ==> k in r && r[k] == PaintOf(p, k))
            && (k !in Span(f, to) ==> (k in r <==> k in m) && (k in m ==> r[k] == m[k]))
  {
    if f <= to {
      SpanPaintedAt(m, f, to - 1, p, k);
      SpanNext(f, to);
    } else {
      SpanEmpty(f, to);
    }
  }

  /** Adding one more index to a span. */
  lemma SpanNext(f: int, to: int)
    requires f <= to
    ensures Span(f, to) == Span(f, to - 1) + {to}
  {
  }

  lemma SpanEmpty(f: int, to: int)
    requires to < f
    ensures Span(f, to) == {}
  {
  }

  /** The background overrides after `Erase`: the range set to `background`, or cleared. */
  function ErasedBackgrounds(bg: map<int, Color>, f: int, to: int, background: Option<Color>): map<int, Color>
  {
    match background
    case Some(v) => SpanPainted(bg, f, to, Uniform(v))
    case None => bg - Span(f, to)
  }

  /**
   * Erasing the overrides touches exactly the keys in the range: the
   * foregrounds there are gone, the backgrounds there are the colour given
   * or gone, and every other entry is kept.
   */
  lemma ErasedOverridesInRange(fg: map<int, Color>, bg: map<int, Color>, f: int, to: int, background: Option<Color>, k: int)
    ensures f <= k <= to ==> k !in fg - Span(f, to)
    ensures f <= k <= to ==>
              (background.Some? ==> k in ErasedBackgrounds(bg, f, to, background)
                                    && ErasedBackgrounds(bg, f, to, background)[k] == background.value)
              && (background.None? ==> k !in ErasedBackgrounds(bg, f, to, background))
    ensures !(f <= k <= to) ==>
              (k in fg - Span(f, to) <==> k in fg)
              && (k in ErasedBackgrounds(bg, f, to, background) <==> k in bg)
              && (k in bg ==> ErasedBackgrounds(bg, f, to, background)[k] == bg[k])
  {
    if background.Some? {
      SpanPaintedAt(bg, f, to, Uniform(background.value), k);
    }
  }

  lemma ErasedKeysStayNonNegative(bg: map<int, Color>, f: nat, to: int, background: Option<Color>)
    requires forall k :: k in bg ==> k >= 0
    ensures forall k :: k in ErasedBackgrounds(bg, f, to, background) ==> k >= 0
  {
    forall k | k in ErasedBackgrounds(bg, f, to, background)
      ensures k >= 0
    {
      ErasedOverridesInRange(map[], bg, f, to, background, k);
    }
  }

  /** Erasing the overrides twice is erasing them once. */
  lemma ErasedOverridesIdempotent(fg: map<int, Color>, bg: map<int, Color>, f: int, to: int, background: Option<Color>)
    ensures (fg - Span(f, to)) - Span(f, to) == fg - Span(f, to)
    ensures ErasedBackgrounds(ErasedBackgrounds(bg, f, to, background), f, to, background)
            == ErasedBackgrounds(bg, f, to, background)
  {
    if background.Some? {
      var once := ErasedBackgrounds(bg, f, to, background);
      var twice := ErasedBackgrounds(once, f, to, background);
      forall k
        ensures (k in twice <==> k in once) && (k in once ==> twice[k] == once[k])
      {
        ErasedOverridesInRange(fg, bg, f, to, background, k);
        ErasedOverridesInRange(fg, once, f, to, background, k);
      }
    }
  }

  // ---------------------------------------------------------------------
  // Wrapping and selection (Draw)

  function Min(a: int, b: int): int { if a < b then a else b }

  /**
   * The text `Draw` lays out: the elements with a `"\n"` after every full
   * subline of `charsOnLine` elements (lines 56-69).
   */
  function Wrapped(c: seq<Element>, charsOnLine: nat): seq<Element>
    requires charsOnLine > 0
    decreases |c|
  {
    if |c| < charsOnLine then c
    else c[..charsOnLine] + ["\n"] + Wrapped(c[charsOnLine..], charsOnLine)
  }

  /** Wrapping a whole number of sublines and then the rest is wrapping both. */
  lemma {:induction false} WrappedConcat(x: seq<Element>, y: seq<Element>, charsOnLine: nat, lines: nat)
    requires charsOnLine > 0 && |x| == lines * charsOnLine
    ensures Wrapped(x + y, charsOnLine) == Wrapped(x, charsOnLine) + Wrapped(y, charsOnLine)
    decreases lines
  {
    if lines == 0 {
      assert x == [] && x + y == y;
    } else {
      assert |x| == (lines - 1) * charsOnLine + charsOnLine;
      assert (x + y)[..charsOnLine] == x[..charsOnLine];
      assert (x + y)[charsOnLine..] == x[charsOnLine..] + y;
      WrappedConcat(x[charsOnLine..], y, charsOnLine, lines - 1);
    }
  }

  /** `(n - d) / d` is one less than `n / d`. */
  lemma DivShift(n: int, d: int)
    requires n >= d > 0
    ensures (n - d) / d == n / d - 1 && (n - d) % d == n % d
  {
    DivisionUnique(n, d, (n - d) / d + 1, (n - d) % d);
  }

  /** The wrapped text has one `"\n"` more per full subline. */
  lemma {:induction false} WrappedLength(c: seq<Element>, charsOnLine: nat)
    requires charsOnLine > 0
    ensures |Wrapped(c, charsOnLine)| == |c| + |c| / charsOnLine
    decreases |c|
  {
    if |c| < charsOnLine {
      DivisionUnique(|c|, charsOnLine, 0, |c|);
    } else {
      WrappedLength(c[charsOnLine..], charsOnLine);
      DivShift(|c|, charsOnLine);
    }
  }

  /** Where element k of a row wrapped at `charsOnLine` is shown. */
  function WrappedIndex(k: int, charsOnLine: nat): int
    requires charsOnLine > 0
  {
    k + k / charsOnLine
  }

  /** Element k sits at index `k + k / charsOnLine` of the wrapped text. */
  lemma WrappedAt(c: seq<Element>, charsOnLine: nat, k: int)
    requires charsOnLine > 0 && 0 <= k < |c|
    ensures WrappedIndex(k, charsOnLine) < |Wrapped(c, charsOnLine)|
    ensures Wrapped(c, charsOnLine)[WrappedIndex(k, charsOnLine)] == c[k]
  {
    var q, r := k / charsOnLine, k % charsOnLine;
    var n := k - r;
    assert n == q * charsOnLine && 0 <= r < charsOnLine && 0 <= n <= k && q >= 0 by {
      DivisionUnique(k, charsOnLine, q, r);
    }
    assert WrappedIndex(k, charsOnLine) == n + q + r;
    var x, y := c[..n], c[n..];
    assert x + y == c && |x| == n && r < |y| && y[r] == c[k];
    WrappedAfterLines(x, y, charsOnLine, q, r);
  }

  /** After `lines` full sublines, column r of what follows is shown `lines` indices further on. */
  lemma WrappedAfterLines(x: seq<Element>, y: seq<Element>, charsOnLine: nat, lines: nat, r: nat)
    requires charsOnLine > 0 && |x| == lines * charsOnLine && r < charsOnLine && r < |y|
    ensures |x| + lines + r < |Wrapped(x + y, charsOnLine)|
    ensures Wrapped(x + y, charsOnLine)[|x| + lines + r] == y[r]
  {
    WrappedConcat(x, y, charsOnLine, lines);
    WrappedLength(x, charsOnLine);
    DivisionUnique(|x|, charsOnLine, lines, 0);
    WrappedFirstLine(y, charsOnLine, r);
    var wx, wy := Wrapped(x, charsOnLine), Wrapped(y, charsOnLine);
    assert |wx| == |x| + lines;
    assert (wx + wy)[|wx| + r] == wy[r];
  }

  /** An element of the first subline is shown at its own index. */
  lemma WrappedFirstLine(c: seq<Element>, charsOnLine: nat, k: int)
    requires charsOnLine > 0 && 0 <= k < |c| && k < charsOnLine
    ensures k < |Wrapped(c, charsOnLine)| && Wrapped(c, charsOnLine)[k] == c[k]
  {
    if charsOnLine <= |c| {
      var head := c[..charsOnLine] + ["\n"];
      assert Wrapped(c, charsOnLine) == head + Wrapped(c[charsOnLine..], charsOnLine);
      assert Wrapped(c, charsOnLine)[k] == head[k];
    }
  }

  /** Later elements are shown at later indices. */
  lemma WrappedIndexIncreasing(k1: int, k2: int, charsOnLine: nat)
    requires charsOnLine > 0 && k1 < k2
    ensures WrappedIndex(k1, charsOnLine) < WrappedIndex(k2, charsOnLine)
  {
    DivMonotone(k1, k2, charsOnLine);
  }

  /** The j-th full subline is followed by a `"\n"`, at index `j * (charsOnLine + 1) - 1`. */
  lemma {:induction false} WrappedBreak(c: seq<Element>, charsOnLine: nat, j: int)
    requires charsOnLine > 0 && 1 <= j && j * charsOnLine <= |c|
    ensures j * (charsOnLine + 1) - 1 < |Wrapped(c, charsOnLine)|
    ensures Wrapped(c, charsOnLine)[j * (charsOnLine + 1) - 1] == "\n"
    decreases j
  {
    var rest := c[charsOnLine..];
    var a := j * (charsOnLine + 1) - 1;
    MulStep(j, charsOnLine);
    MulStep(j, charsOnLine + 1);
    MultipleAtLeast(j, charsOnLine);
    var head := c[..charsOnLine] + ["\n"];
    var w, wr := Wrapped(c, charsOnLine), Wrapped(rest, charsOnLine);
    assert w == head + wr && |head| == charsOnLine + 1;
    if j > 1 {
      var a' := (j - 1) * (charsOnLine + 1) - 1;
      WrappedBreak(rest, charsOnLine, j - 1);
      assert a == a' + |head|;
      assert w[a] == wr[a'];
    } else {
      assert a == charsOnLine;
      assert w[a] == head[charsOnLine];
    }
  }

  /**
   * The wrapping loop of `Draw`: the laid-out text and `newLinesAt`, the
   * index at which each subline starts in it.
   */
  method WrapText(content: seq<Element>, charsOnLine: nat) returns (text: seq<Element>, newLinesAt: seq<int>)
    requires charsOnLine > 0
    ensures text == Wrapped(content, charsOnLine)
    ensures |newLinesAt| == |content| / charsOnLine + 1
    ensures forall j :: 0 <= j < |newLinesAt| ==> newLinesAt[j] == j * (charsOnLine + 1)
  {
    newLinesAt := [0];
    text := [];
    var textElementsThisLine := 0;
    ghost var lineStart := 0;
    var i := 0;
    while i < |content|
      invariant 0 <= i <= |content|
      invariant 0 <= textElementsThisLine < charsOnLine && lineStart == i - textElementsThisLine
      invariant lineStart == (|newLinesAt| - 1) * charsOnLine
      invariant forall j :: 0 <= j < |newLinesAt| ==> newLinesAt[j] == j * (charsOnLine + 1)
      invariant text == Wrapped(content[..lineStart], charsOnLine) + content[lineStart..i]
    {
      textElementsThisLine := textElementsThisLine + 1;
      assert content[lineStart..i + 1] == content[lineStart..i] + [content[i]];
      text := text + [content[i]];
      if textElementsThisLine == charsOnLine {
        text := text + ["\n"];
        WrapLineDone(content, lineStart, i, charsOnLine, |newLinesAt| - 1);
        MulStep(|newLinesAt|, charsOnLine);
        NewLineStarts(newLinesAt, charsOnLine, i);
        newLinesAt := newLinesAt + [i + |newLinesAt| + 1];
        textElementsThisLine := 0;
        lineStart := i + 1;
      }
      i := i + 1;
    }
    WrapRest(content, lineStart, charsOnLine, |newLinesAt| - 1);
    DivisionUnique(|content|, charsOnLine, |newLinesAt| - 1, textElementsThisLine);
  }

  /** After the last full subline, the remaining elements are laid out as they are. */
  lemma WrapRest(content: seq<Element>, lineStart: nat, charsOnLine: nat, lines: nat)
    requires charsOnLine > 0 && lineStart == lines * charsOnLine
    requires lineStart <= |content| < lineStart + charsOnLine
    ensures Wrapped(content[..lineStart], charsOnLine) + content[lineStart..] == Wrapped(content, charsOnLine)
  {
    assert content == content[..lineStart] + content[lineStart..];
    WrappedConcat(content[..lineStart], content[lineStart..], charsOnLine, lines);
  }

  /** Closing a full subline in the wrapping loop appends it and its `"\n"`. */
  lemma WrapLineDone(content: seq<Element>, lineStart: nat, i: nat, charsOnLine: nat, lines: nat)
    requires charsOnLine > 0 && lineStart == lines * charsOnLine
    requires i < |content| && i + 1 - lineStart == charsOnLine
    ensures Wrapped(content[..lineStart], charsOnLine) + content[lineStart..i + 1] + ["\n"]
            == Wrapped(content[..i + 1], charsOnLine)
  {
    assert content[..i + 1] == content[..lineStart] + content[lineStart..i + 1];
    WrappedConcat(content[..lineStart], content[lineStart..i + 1], charsOnLine, lines);
    var line := content[lineStart..i + 1];
    assert Wrapped(line, charsOnLine) == line[..charsOnLine] + ["\n"] + Wrapped(line[charsOnLine..], charsOnLine);
    assert line[..charsOnLine] == line;
  }

  /** The start recorded for the next subline is `|newLinesAt| * (charsOnLine + 1)`. */
  lemma NewLineStarts(newLinesAt: seq<int>, charsOnLine: nat, i: int)
    requires |newLinesAt| >= 1
    requires i + 1 == |newLinesAt| * charsOnLine
    requires forall j :: 0 <= j < |newLinesAt| ==> newLinesAt[j] == j * (charsOnLine + 1)
    ensures var next := newLinesAt + [i + |newLinesAt| + 1];
            forall j :: 0 <= j < |next| ==> next[j] == j * (charsOnLine + 1)
  {
    MulSucc(|newLinesAt|, charsOnLine);
  }

  datatype SelectionDirection = SE | SW | NE | NW
  datatype SelectionMode = Normal | Block

  /**
   * The selected rectangle in cells: `Floor(Y / lineHeight)` and
   * `Floor((Y + Height) / lineHeight)` before they are capped at the last
   * subline, and `Round(X / charWidth)` and `Floor((X + Width) / charWidth)`.
   */
  datatype SelectedCells = SelectedCells(firstSubrow: int, lastSubrow: int, firstColumn: int, lastColumn: int)

  /** `Math.Max(0, Math.Min(length - 1, i))`. */
  function ClampIndex(i: int, length: nat): int
  {
    Max(0, Min(length - 1, i))
  }

  /** The first and last wrapped-text index of a stream selection (lines 78-111). */
  function StreamRange(textLength: nat, newLinesAt: seq<int>, cells: SelectedCells, direction: SelectionDirection): (r: (int, int))
    requires |newLinesAt| >= 1 && textLength >= 1
    requires cells.firstSubrow >= 0 && cells.lastSubrow >= 0
    ensures 0 <= r.0 <= r.1 < textLength
  {
    var lastSubline := |newLinesAt| - 1;
    var fs0, ls0 := Min(lastSubline, cells.firstSubrow), Min(lastSubline, cells.lastSubrow);
    var fs, ls := if direction == NW then ls0 else fs0, if direction == NW then fs0 else ls0;
    var fc, lc := if direction == NW then cells.lastColumn else cells.firstColumn,
                  if direction == NW then cells.firstColumn else cells.lastColumn;
    var a, b := fc + newLinesAt[fs], lc + newLinesAt[ls];
    var fi, li := Min(a, b), Max(a, b);
    (ClampIndex(fi, textLength), ClampIndex(li, textLength))
  }

  /**
   * The range does not depend on the direction, nor on which corner of the
   * rectangle is called first: the `NW` swap is undone by the ordering.
   */
  lemma StreamRangeSymmetric(textLength: nat, newLinesAt: seq<int>, cells: SelectedCells,
                             d1: SelectionDirection, d2: SelectionDirection)
    requires |newLinesAt| >= 1 && textLength >= 1
    requires cells.firstSubrow >= 0 && cells.lastSubrow >= 0
    ensures StreamRange(textLength, newLinesAt, cells, d1) == StreamRange(textLength, newLinesAt, cells, d2)
    ensures var swapped := SelectedCells(cells.lastSubrow, cells.firstSubrow, cells.lastColumn, cells.firstColumn);
            StreamRange(textLength, newLinesAt, swapped, d1) == StreamRange(textLength, newLinesAt, cells, d2)
  {
  }

  /**
   * A corner at subline s and column col of a row wrapped at `charsOnLine`
   * designates element `s * charsOnLine + col`.
   */
  lemma CornerDesignatesElement(c: seq<Element>, charsOnLine: nat, newLinesAt: seq<int>, s: int, col: int)
    requires charsOnLine > 0 && 0 <= s < |newLinesAt| && 0 <= col < charsOnLine
    requires forall j :: 0 <= j < |newLinesAt| ==> newLinesAt[j] == j * (charsOnLine + 1)
    requires s * charsOnLine + col < |c|
    ensures newLinesAt[s] + col < |Wrapped(c, charsOnLine)|
    ensures Wrapped(c, charsOnLine)[newLinesAt[s] + col] == c[s * charsOnLine + col]
  {
    var k := s * charsOnLine + col;
    DivisionUnique(k, charsOnLine, s, col);
    MulSucc(s, charsOnLine);
    assert newLinesAt[s] + col == WrappedIndex(k, charsOnLine);
    WrappedAt(c, charsOnLine, k);
  }

  /** Where `Draw`'s `newLinesAt` says each subline starts: subline j at `j * (charsOnLine + 1)`. */
  function NewLinesAt(length: nat, charsOnLine: nat): (r: seq<int>)
    requires charsOnLine > 0
    ensures |r| == length / charsOnLine + 1
    ensures forall j :: 0 <= j < |r| ==> r[j] == j * (charsOnLine + 1)
  {
    seq(length / charsOnLine + 1, j => j * (charsOnLine + 1))
  }

  /** The text `SubstringByTextElements(first, last - first + 1)` returns. */
  function SelectedText(text: seq<Element>, r: (int, int)): (s: string)
    requires 0 <= r.0 <= r.1 < |text|
  {
    Concat(text[r.0..r.1 + 1])
  }

  /**
   * `selectedContent` after `Draw`: cleared without a selection or on an
   * empty row, left as it was in block mode, otherwise the selected text.
   */
  function DrawnSelection(previous: Option<string>, content: seq<Element>, charsOnLine: nat,
                          selection: Option<SelectedCells>, direction: SelectionDirection,
                          mode: SelectionMode): Option<string>
    requires charsOnLine > 0
    requires selection.Some? ==> selection.value.firstSubrow >= 0 && selection.value.lastSubrow >= 0
  {
    if selection.None? || |content| == 0 then None
    else if mode == Block then previous
    else
      var text := Wrapped(content, charsOnLine);
      WrappedLength(content, charsOnLine);
      Some(SelectedText(text, StreamRange(|text|, NewLinesAt(|content|, charsOnLine), selection.value, direction)))
  }

  // ---------------------------------------------------------------------
  // Selection colours

  /**
   * `GetSelectionForegroundColor`'s index AS WRITTEN (line 343):
   * `index - index / charsOnLine`.
   */
  function SourceIndexAsWritten(index: int, charsOnLine: nat): int
    requires charsOnLine > 0
  {
    index - CSharpInt.Div(index, charsOnLine)
  }

  /**
   * The element a wrapped-text index shows: every subline of `charsOnLine`
   * elements is followed by one `"\n"`, so the index is divided by
   * `charsOnLine + 1`.
   */
  function SourceIndex(index: int, charsOnLine: nat): int
    requires charsOnLine > 0
  {
    index - CSharpInt.Div(index, charsOnLine + 1)
  }

  /** The corrected index inverts the wrapping: element k, shown at `k + k / charsOnLine`, maps back to k. */
  lemma SourceIndexInvertsWrapping(k: nat, charsOnLine: nat)
    requires charsOnLine > 0
    ensures SourceIndex(k + k / charsOnLine, charsOnLine) == k
  {
    var q, r := k / charsOnLine, k % charsOnLine;
    assert k == q * charsOnLine + r;
    MulSucc(q, charsOnLine);
    assert k + q == q * (charsOnLine + 1) + r;
    DivisionUnique(k + q, charsOnLine + 1, q, r);
    assert CSharpInt.Div(k + q, charsOnLine + 1) == q;
  }

  /** As written, element 3 of a row wrapped at 2, shown at index 4, is mapped to element 2. */
  lemma SourceIndexAsWrittenMisses()
    ensures 3 + 3 / 2 == 4
    ensures SourceIndexAsWritten(4, 2) == 2
    ensures SourceIndex(4, 2) == 3
  {
  }

  /** The foreground of a selected wrapped-text index: the element's override lightened, else black. */
  function SelectionForeground(fg: map<int, Color>, index: int, charsOnLine: nat): Color
    requires charsOnLine > 0
  {
    var k := SourceIndex(index, charsOnLine);
    if k in fg then SelectionLightened(fg[k]) else Black
  }

  /**
   * Block mode AS WRITTEN (line 88) passes the subline number `i` rather
   * than the cell's index: a cell in subline 1, column 1 of a row wrapped at
   * 2 (index 4, element 3, overridden red) is drawn black.
   */
  function BlockForegroundAsWritten(fg: map<int, Color>, subrow: int, column: int, charsOnLine: nat): Color
    requires charsOnLine > 0
  {
    var k := SourceIndexAsWritten(subrow, charsOnLine);
    if k in fg then SelectionLightened(fg[k]) else Black
  }

  lemma BlockForegroundAsWrittenMisses()
    ensures BlockForegroundAsWritten(map[3 := Red], 1, 1, 2) == Black
    ensures SelectionForeground(map[3 := Red], (2 + 1) * 1 + 1, 2) == SelectionLightened(Red)
  {
    assert SourceIndex(4, 2) == 3;
  }

  /** The wrapped-text index of every element of `keys`. */
  function WrappedIndices(keys: set<int>, charsOnLine: nat): set<int>
    requires charsOnLine > 0
  {
    set k | k in keys :: WrappedIndex(k, charsOnLine)
  }

  /**
   * The overrides keyed by wrapped-text index (lines 72-73): element k's
   * entry moves to `k + k / charsOnLine`. Each new key is looked up through
   * the element it shows.
   */
  function WrappedKeys(m: map<int, Color>, charsOnLine: nat): map<int, Color>
    requires charsOnLine > 0
    requires forall k :: k in m ==> k >= 0
  {
    assert forall k :: k in m ==> SourceIndex(WrappedIndex(k, charsOnLine), charsOnLine) == k by {
      forall k | k in m
        ensures SourceIndex(WrappedIndex(k, charsOnLine), charsOnLine) == k
      {
        SourceIndexInvertsWrapping(k, charsOnLine);
      }
    }
    map i | i in WrappedIndices(m.Keys, charsOnLine) :: m[SourceIndex(i, charsOnLine)]
  }

  // ---------------------------------------------------------------------
  // The colours Draw lays out

  /** The wrapped-text index of the cell in subline i, column j (line 88). */
  function BlockCell(i: int, j: int, charsOnLine: nat): int
  {
    (charsOnLine + 1) * i + j
  }

  /** The cells of a block selection: sublines fs through ls, columns fc through lc. */
  function BlockKeys(fs: int, ls: int, fc: int, lc: int, charsOnLine: nat): set<int>
  {
    set i, j | fs <= i <= ls && fc <= j <= lc && Between(fs, ls, i) && Between(fc, lc, j) :: BlockCell(i, j, charsOnLine)
  }

  /** Columns fc through lc of subline i. */
  function RowCells(i: int, fc: int, lc: int, charsOnLine: nat): set<int>
  {
    set j | fc <= j <= lc && Between(fc, lc, j) :: BlockCell(i, j, charsOnLine)
  }

  lemma RowCellsNext(i: int, fc: int, lc: int, charsOnLine: nat)
    requires fc <= lc
    ensures RowCells(i, fc, lc, charsOnLine) == RowCells(i, fc, lc - 1, charsOnLine) + {BlockCell(i, lc, charsOnLine)}
  {
  }

  lemma RowCellsEmpty(i: int, fc: int, lc: int, charsOnLine: nat)
    requires lc < fc
    ensures RowCells(i, fc, lc, charsOnLine) == {}
  {
  }

  lemma BlockKeysNext(fs: int, ls: int, fc: int, lc: int, charsOnLine: nat)
    requires fs <= ls
    ensures BlockKeys(fs, ls, fc, lc, charsOnLine) == BlockKeys(fs, ls - 1, fc, lc, charsOnLine) + RowCells(ls, fc, lc, charsOnLine)
  {
  }

  lemma BlockKeysEmpty(fs: int, ls: int, fc: int, lc: int, charsOnLine: nat)
    requires ls < fs
    ensures BlockKeys(fs, ls, fc, lc, charsOnLine) == {}
  {
  }

  /** `m` after the inner loop of block mode: columns fc through lc of subline i painted in turn. */
  function RowPainted(m: map<int, Color>, i: int, fc: int, lc: int, charsOnLine: nat, p: Paint): map<int, Color>
    decreases lc - fc
  {
    if lc < fc then m
    else RowPainted(m, i, fc, lc - 1, charsOnLine, p)[BlockCell(i, lc, charsOnLine) := PaintOf(p, BlockCell(i, lc, charsOnLine))]
  }

  /** `m` after both loops of block mode: sublines fs through ls painted in turn. */
  function BlockPainted(m: map<int, Color>, fs: int, ls: int, fc: int, lc: int, charsOnLine: nat, p: Paint): map<int, Color>
    decreases ls - fs
  {
    if ls < fs then m
    else RowPainted(BlockPainted(m, fs, ls - 1, fc, lc, charsOnLine, p), ls, fc, lc, charsOnLine, p)
  }

  lemma {:induction false} RowPaintedAt(m: map<int, Color>, i: int, fc: int, lc: int, charsOnLine: nat, p: Paint, k: int)
    decreases lc - fc
    ensures var r := RowPainted(m, i, fc, lc, charsOnLine, p);
            (k in RowCells(i, fc, lc, charsOnLine) ==> k in r && r[k] == PaintOf(p, k))
            && (k !in RowCells(i, fc, lc, charsOnLine) ==> (k in r <==> k in m) && (k in m ==> r[k] == m[k]))
  {
    if fc <= lc {
      RowPaintedAt(m, i, fc, lc - 1, charsOnLine, p, k);
      RowCellsNext(i, fc, lc, charsOnLine);
    } else {
      RowCellsEmpty(i, fc, lc, charsOnLine);
    }
  }

  /** Painting a block writes every cell of it and leaves every other entry as it was. */
  lemma {:induction false} BlockPaintedAt(m: map<int, Color>, fs: int, ls: int, fc: int, lc: int, charsOnLine: nat, p: Paint, k: int)
    decreases ls - fs
    ensures var r := BlockPainted(m, fs, ls, fc, lc, charsOnLine, p);
            (k in BlockKeys(fs, ls, fc, lc, charsOnLine) ==> k in r && r[k] == PaintOf(p, k))
            && (k !in BlockKeys(fs, ls, fc, lc, charsOnLine) ==> (k in r <==> k in m) && (k in m ==> r[k] == m[k]))
  {
    if fs <= ls {
      BlockPaintedAt(m, fs, ls - 1, fc, lc, charsOnLine, p, k);
      RowPaintedAt(BlockPainted(m, fs, ls - 1, fc, lc, charsOnLine, p), ls, fc, lc, charsOnLine, p, k);
      BlockKeysNext(fs, ls, fc, lc, charsOnLine);
    } else {
      BlockKeysEmpty(fs, ls, fc, lc, charsOnLine);
    }
  }

  /**
   * The wrapped-text cells `Draw` paints with the selection (lines 74-119):
   * none without a selection or on an empty row; the rectangle of cells in
   * block mode, its sublines capped at the last one; otherwise the stream
   * from one corner to the other.
   */
  function SelectedKeys(length: nat, charsOnLine: nat, selection: Option<SelectedCells>,
                        direction: SelectionDirection, mode: SelectionMode): set<int>
    requires charsOnLine > 0
    requires selection.Some? ==> selection.value.firstSubrow >= 0 && selection.value.lastSubrow >= 0
  {
    if selection.None? || length == 0 then {}
    else
      var cells := selection.value;
      var lastSubline := length / charsOnLine;
      if mode == Block then
        BlockKeys(Min(lastSubline, cells.firstSubrow), Min(lastSubline, cells.lastSubrow),
                  cells.firstColumn, cells.lastColumn, charsOnLine)
      else
        var r := StreamRange(length + length / charsOnLine, NewLinesAt(length, charsOnLine), cells, direction);
        Span(r.0, r.1)
  }

  /** A colour map after `Draw` has painted the selected cells over `base` (lines 82-117). */
  function DrawnColors(base: map<int, Color>, length: nat, charsOnLine: nat, selection: Option<SelectedCells>,
                       direction: SelectionDirection, mode: SelectionMode, p: Paint): map<int, Color>
    requires charsOnLine > 0
    requires selection.Some? ==> selection.value.firstSubrow >= 0 && selection.value.lastSubrow >= 0
  {
    if selection.None? || length == 0 then base
    else
      var cells := selection.value;
      var lastSubline := length / charsOnLine;
      if mode == Block then
        BlockPainted(base, Min(lastSubline, cells.firstSubrow), Min(lastSubline, cells.lastSubrow),
                     cells.firstColumn, cells.lastColumn, charsOnLine, p)
      else
        var r := StreamRange(length + length / charsOnLine, NewLinesAt(length, charsOnLine), cells, direction);
        SpanPainted(base, r.0, r.1, p)
  }

  /** `Draw` paints exactly the selected cells. */
  lemma DrawnColorsAt(base: map<int, Color>, length: nat, charsOnLine: nat, selection: Option<SelectedCells>,
                      direction: SelectionDirection, mode: SelectionMode, p: Paint, k: int)
    requires charsOnLine > 0
    requires selection.Some? ==> selection.value.firstSubrow >= 0 && selection.value.lastSubrow >= 0
    ensures var r := DrawnColors(base, length, charsOnLine, selection, direction, mode, p);
            var keys := SelectedKeys(length, charsOnLine, selection, direction, mode);
            (k in keys ==> k in r && r[k] == PaintOf(p, k))
            && (k !in keys ==> (k in r <==> k in base) && (k in base ==> r[k] == base[k]))
  {
    if selection.Some? && length > 0 {
      if mode == Block {
        BlockDrawnAt(base, length, charsOnLine, selection.value, direction, p, k);
      } else {
        StreamDrawnAt(base, length, charsOnLine, selection.value, direction, p, k);
      }
    }
  }

  lemma BlockDrawnAt(base: map<int, Color>, length: nat, charsOnLine: nat, cells: SelectedCells,
                     direction: SelectionDirection, p: Paint, k: int)
    requires charsOnLine > 0 && length > 0
    requires cells.firstSubrow >= 0 && cells.lastSubrow >= 0
    ensures var r := DrawnColors(base, length, charsOnLine, Some(cells), direction, Block, p);
            var keys := SelectedKeys(length, charsOnLine, Some(cells), direction, Block);
            (k in keys ==> k in r && r[k] == PaintOf(p, k))
            && (k !in keys ==> (k in r <==> k in base) && (k in base ==> r[k] == base[k]))
  {
    var lastSubline := length / charsOnLine;
    var fs, ls := Min(lastSubline, cells.firstSubrow), Min(lastSubline, cells.lastSubrow);
    assert DrawnColors(base, length, charsOnLine, Some(cells), direction, Block, p)
           == BlockPainted(base, fs, ls, cells.firstColumn, cells.lastColumn, charsOnLine, p);
    assert SelectedKeys(length, charsOnLine, Some(cells), direction, Block)
           == BlockKeys(fs, ls, cells.firstColumn, cells.lastColumn, charsOnLine);
    BlockPaintedAt(base, fs, ls, cells.firstColumn, cells.lastColumn, charsOnLine, p, k);
  }

  lemma StreamDrawnAt(base: map<int, Color>, length: nat, charsOnLine: nat, cells: SelectedCells,
                      direction: SelectionDirection, p: Paint, k: int)
    requires charsOnLine > 0 && length > 0
    requires cells.firstSubrow >= 0 && cells.lastSubrow >= 0
    ensures var r := DrawnColors(base, length, charsOnLine, Some(cells), direction, Normal, p);
            var keys := SelectedKeys(length, charsOnLine, Some(cells), direction, Normal);
            (k in keys ==> k in r && r[k] == PaintOf(p, k))
            && (k !in keys ==> (k in r <==> k in base) && (k in base ==> r[k] == base[k]))
  {
    var r := StreamRange(length + length / charsOnLine, NewLinesAt(length, charsOnLine), cells, direction);
    StreamColorsAreSpanPainted(base, length, charsOnLine, cells, direction, p);
    StreamKeysAreSpan(length, charsOnLine, cells, direction);
    SpanPaintedAt(base, r.0, r.1, p, k);
  }

  lemma StreamColorsAreSpanPainted(base: map<int, Color>, length: nat, charsOnLine: nat, cells: SelectedCells,
                                   direction: SelectionDirection, p: Paint)
    requires charsOnLine > 0 && length > 0
    requires cells.firstSubrow >= 0 && cells.lastSubrow >= 0
    ensures var r := StreamRange(length + length / charsOnLine, NewLinesAt(length, charsOnLine), cells, direction);
            DrawnColors(base, length, charsOnLine, Some(cells), direction, Normal, p) == SpanPainted(base, r.0, r.1, p)
  {
  }

  /** Element k's override is found at its wrapped index, and no other element's lands there. */
  lemma WrappedKeysAt(m: map<int, Color>, charsOnLine: nat, k: int)
    requires charsOnLine > 0 && k >= 0
    requires forall k :: k in m ==> k >= 0
    ensures WrappedIndex(k, charsOnLine) in WrappedKeys(m, charsOnLine) <==> k in m
    ensures k in m ==> WrappedKeys(m, charsOnLine)[WrappedIndex(k, charsOnLine)] == m[k]
  {
    SourceIndexInvertsWrapping(k, charsOnLine);
    if WrappedIndex(k, charsOnLine) in WrappedKeys(m, charsOnLine) {
      var k' :| k' in m && WrappedIndex(k', charsOnLine) == WrappedIndex(k, charsOnLine);
      SourceIndexInvertsWrapping(k', charsOnLine);
    }
  }

  /**
   * What `Draw` colours element k with: when its wrapped index is selected,
   * the selection background and its own foreground override lightened
   * (black without one); otherwise its own overrides, moved to the wrapped
   * index.
   */
  lemma DrawnColorsOfElement(fg: map<int, Color>, bg: map<int, Color>, length: nat, charsOnLine: nat,
                             selection: Option<SelectedCells>, direction: SelectionDirection, mode: SelectionMode,
                             selectionColor: Color, k: int)
    requires charsOnLine > 0 && k >= 0
    requires (forall k :: k in fg ==> k >= 0) && (forall k :: k in bg ==> k >= 0)
    requires selection.Some? ==> selection.value.firstSubrow >= 0 && selection.value.lastSubrow >= 0
    ensures var w := WrappedIndex(k, charsOnLine);
            var keys := SelectedKeys(length, charsOnLine, selection, direction, mode);
            var fgDrawn := DrawnColors(WrappedKeys(fg, charsOnLine), length, charsOnLine, selection, direction, mode,
                                       SelectionForegrounds(fg, charsOnLine));
            var bgDrawn := DrawnColors(WrappedKeys(bg, charsOnLine), length, charsOnLine, selection, direction, mode,
                                       Uniform(selectionColor));
            (w in keys ==>
               w in fgDrawn && fgDrawn[w] == (if k in fg then SelectionLightened(fg[k]) else Black)
               && w in bgDrawn && bgDrawn[w] == selectionColor)
            && (w !in keys ==>
                  (w in fgDrawn <==> k in fg) && (k in fg ==> fgDrawn[w] == fg[k])
                  && (w in bgDrawn <==> k in bg) && (k in bg ==> bgDrawn[w] == bg[k]))
  {
    DrawnForegroundOfElement(fg, length, charsOnLine, selection, direction, mode, k);
    DrawnBackgroundOfElement(bg, length, charsOnLine, selection, direction, mode, selectionColor, k);
  }

  lemma DrawnForegroundOfElement(fg: map<int, Color>, length: nat, charsOnLine: nat,
                                 selection: Option<SelectedCells>, direction: SelectionDirection, mode: SelectionMode, k: int)
    requires charsOnLine > 0 && k >= 0 && forall k :: k in fg ==> k >= 0
    requires selection.Some? ==> selection.value.firstSubrow >= 0 && selection.value.lastSubrow >= 0
    ensures var w := WrappedIndex(k, charsOnLine);
            var keys := SelectedKeys(length, charsOnLine, selection, direction, mode);
            var fgDrawn := DrawnColors(WrappedKeys(fg, charsOnLine), length, charsOnLine, selection, direction, mode,
                                       SelectionForegrounds(fg, charsOnLine));
            (w in keys ==> w in fgDrawn && fgDrawn[w] == (if k in fg then SelectionLightened(fg[k]) else Black))
            && (w !in keys ==> (w in fgDrawn <==> k in fg) && (k in fg ==> fgDrawn[w] == fg[k]))
  {
    var w := WrappedIndex(k, charsOnLine);
    WrappedKeysAt(fg, charsOnLine, k);
    SourceIndexInvertsWrapping(k, charsOnLine);
    DrawnColorsAt(WrappedKeys(fg, charsOnLine), length, charsOnLine, selection, direction, mode,
                  SelectionForegrounds(fg, charsOnLine), w);
  }

  lemma DrawnBackgroundOfElement(bg: map<int, Color>, length: nat, charsOnLine: nat,
                                 selection: Option<SelectedCells>, direction: SelectionDirection, mode: SelectionMode,
                                 selectionColor: Color, k: int)
    requires charsOnLine > 0 && k >= 0 && forall k :: k in bg ==> k >= 0
    requires selection.Some? ==> selection.value.firstSubrow >= 0 && selection.value.lastSubrow >= 0
    ensures var w := WrappedIndex(k, charsOnLine);
            var keys := SelectedKeys(length, charsOnLine, selection, direction, mode);
            var bgDrawn := DrawnColors(WrappedKeys(bg, charsOnLine), length, charsOnLine, selection, direction, mode,
                                       Uniform(selectionColor));
            (w in keys ==> w in bgDrawn && bgDrawn[w] == selectionColor)
            && (w !in keys ==> (w in bgDrawn <==> k in bg) && (k in bg ==> bgDrawn[w] == bg[k]))
  {
    var w := WrappedIndex(k, charsOnLine);
    WrappedKeysAt(bg, charsOnLine, k);
    SourceIndexInvertsWrapping(k, charsOnLine);
    DrawnColorsAt(WrappedKeys(bg, charsOnLine), length, charsOnLine, selection, direction, mode,
                  Uniform(selectionColor), w);
  }

  /** In a stream selection `Draw` keeps the text between the two corners. */
  lemma StreamSelectedText(content: seq<Element>, charsOnLine: nat, cells: SelectedCells,
                           direction: SelectionDirection, previous: Option<string>)
    requires charsOnLine > 0 && |content| > 0
    requires cells.firstSubrow >= 0 && cells.lastSubrow >= 0
    ensures |Wrapped(content, charsOnLine)| == |content| + |content| / charsOnLine
    ensures DrawnSelection(previous, content, charsOnLine, Some(cells), direction, Normal)
            == Some(SelectedText(Wrapped(content, charsOnLine),
                                 StreamRange(|content| + |content| / charsOnLine, NewLinesAt(|content|, charsOnLine), cells, direction)))
  {
    WrappedLength(content, charsOnLine);
  }

  /**
   * In a stream selection the selected cells are exactly the wrapped-text
   * indices from the first corner through the last; `StreamSelectedText`
   * says the selected text is the text at those indices.
   */
  lemma StreamSelectionIsRange(length: nat, charsOnLine: nat, cells: SelectedCells, direction: SelectionDirection)
    requires charsOnLine > 0 && length > 0
    requires cells.firstSubrow >= 0 && cells.lastSubrow >= 0
    ensures var r := StreamRange(length + length / charsOnLine, NewLinesAt(length, charsOnLine), cells, direction);
            forall w :: w in SelectedKeys(length, charsOnLine, Some(cells), direction, Normal) <==> r.0 <= w <= r.1
  {
    var r := StreamRange(length + length / charsOnLine, NewLinesAt(length, charsOnLine), cells, direction);
    StreamKeysAreSpan(length, charsOnLine, cells, direction);
    SpanMembers(r.0, r.1);
  }

  lemma StreamKeysAreSpan(length: nat, charsOnLine: nat, cells: SelectedCells, direction: SelectionDirection)
    requires charsOnLine > 0 && length > 0
    requires cells.firstSubrow >= 0 && cells.lastSubrow >= 0
    ensures var r := StreamRange(length + length / charsOnLine, NewLinesAt(length, charsOnLine), cells, direction);
            SelectedKeys(length, charsOnLine, Some(cells), direction, Normal) == Span(r.0, r.1)
  {
  }

  /** The members of a span are the integers between its ends. */
  lemma SpanMembers(f: int, to: int)
    ensures forall w :: w in Span(f, to) <==> f <= w <= to
  {
    forall w
      ensures w in Span(f, to) <==> f <= w <= to
    {
      assert w in Span(f, to) <==> Between(f, to, w);
    }
  }

  /**
   * In block mode, the cell in subline i, column j of the rectangle is
   * selected and shows element `i * charsOnLine + j`, so by
   * `DrawnColorsOfElement` it is drawn with that element's lightened
   * foreground and the selection background.
   */
  lemma BlockSelectionShowsElements(c: seq<Element>, charsOnLine: nat, cells: SelectedCells, i: int, j: int)
    requires charsOnLine > 0 && 0 <= i && 0 <= j < charsOnLine && i * charsOnLine + j < |c|
    requires cells.firstSubrow >= 0 && cells.lastSubrow >= 0
    requires cells.firstSubrow <= i <= cells.lastSubrow && cells.firstColumn <= j <= cells.lastColumn
    ensures var k := i * charsOnLine + j;
            var cell := BlockCell(i, j, charsOnLine);
            cell == WrappedIndex(k, charsOnLine)
            && cell in SelectedKeys(|c|, charsOnLine, Some(cells), SE, Block)
            && cell < |Wrapped(c, charsOnLine)| && Wrapped(c, charsOnLine)[cell] == c[k]
  {
    var k := i * charsOnLine + j;
    DivisionUnique(k, charsOnLine, i, j);
    MulSucc(i, charsOnLine);
    assert BlockCell(i, j, charsOnLine) == WrappedIndex(k, charsOnLine);
    WrappedAt(c, charsOnLine, k);
    var lastSubline := |c| / charsOnLine;
    assert i <= lastSubline by {
      DivMonotone(k, |c|, charsOnLine);
    }
    var fs, ls := Min(lastSubline, cells.firstSubrow), Min(lastSubline, cells.lastSubrow);
    assert BlockCell(i, j, charsOnLine) in BlockKeys(fs, ls, cells.firstColumn, cells.lastColumn, charsOnLine) by {
      assert fs <= i <= ls && Between(fs, ls, i) && Between(cells.firstColumn, cells.lastColumn, j);
    }
  }

  /** The cursor drawn at `offset` sits on element `offset`: one `"\n"` is added per full subline before it. */
  lemma CursorShowsElement(c: seq<Element>, charsOnLine: nat, offset: int)
    requires charsOnLine > 0 && 0 <= offset < |c|
    ensures var i := offset + CSharpInt.Div(offset, charsOnLine);
            i < |Wrapped(c, charsOnLine)| && Wrapped(c, charsOnLine)[i] == c[offset]
  {
    WrappedAt(c, charsOnLine, offset);
  }

  // ---------------------------------------------------------------------
  // The row

  class MonospaceTextRow {
    /** The row's text elements; `lengthInTextElements` is always `|content|`. */
    var content: seq<Element>
    var minimalSublineCount: int
    var lineCount: int
    var maximalColumn: int
    var metrics: Metrics
    var selectionColor: Color
    var specialForegrounds: map<int, Color>
    var specialBackgrounds: map<int, Color>
    var selectedContent: Option<string>
    var cursorInRow: Option<int>

    ghost predicate Valid()
      reads this
    {
      maximalColumn >= 0 && lineCount >= 0 && minimalSublineCount >= 0
      && (forall k :: k in specialForegrounds ==> k >= 0)
      && (forall k :: k in specialBackgrounds ==> k >= 0)
    }

    /** A new row holds no line break; it has no overrides and has not been measured. */
    constructor (content: seq<Element>)
      requires forall i :: 0 <= i < |content| ==> '\n' !in content[i]
      ensures Valid()
      ensures this.content == content && minimalSublineCount == 0 && lineCount == 0 && maximalColumn == 0
      ensures metrics == Unmeasured && specialForegrounds == map[] && specialBackgrounds == map[]
      ensures selectedContent == None && cursorInRow == None
    {
      this.content := content;
      minimalSublineCount := 0;
      lineCount := 0;
      maximalColumn := 0;
      metrics := Unmeasured;
      // default(Color)
      selectionColor := Rgb(0, 0, 0);
      specialForegrounds := map[];
      specialBackgrounds := map[];
      selectedContent := None;
      cursorInRow := None;
    }

    function SublineCount(): int
      reads this
    {
      lineCount
    }

    /**
     * `CurrentMaximalCursorPosition`: `MaximalColumn * lineCount`, a cell
     * index inside the row's sublines.
     */
    function CurrentMaximalCursorPosition(): (r: int)
      reads this
      requires Valid()
      ensures r >= 0
      ensures lineCount >= 1 ==> r < lineCount * (maximalColumn + 1)
    {
      MulSucc(lineCount, maximalColumn);
      maximalColumn * lineCount
    }

    /**
     * `PrepareForDrawing`: forgets the cursor and takes the measurements and
     * the selection colour; with a line width of 0 it stops there and the
     * row is 0 high. Otherwise it fixes the last column and the number of
     * sublines, and returns the row's height.
     */
    method PrepareForDrawing(m: Metrics, selectionColor: Color) returns (height: int)
      requires Valid() && m.charWidth > 0
      modifies this
      ensures Valid()
      ensures cursorInRow == None && metrics == m && this.selectionColor == selectionColor
      ensures m.lineWidth == 0 ==> height == 0 && maximalColumn == old(maximalColumn) && lineCount == old(lineCount)
      ensures m.lineWidth > 0 ==>
                maximalColumn == MaximalColumnOf(m)
                && lineCount == LineCountFor(|content|, minimalSublineCount, maximalColumn + 1)
                && height == m.lineHeight * lineCount
      ensures content == old(content) && minimalSublineCount == old(minimalSublineCount)
      ensures specialForegrounds == old(specialForegrounds) && specialBackgrounds == old(specialBackgrounds)
      ensures selectedContent == old(selectedContent)
    {
      cursorInRow := None;
      this.selectionColor := selectionColor;
      metrics := m;
      if m.lineWidth == 0 {
        return 0;
      }
      maximalColumn := MaximalColumnOf(m);
      var charsOnLine := maximalColumn + 1;
      var atLeastOne := if |content| == 0 then 1 else |content|;
      lineCount := Max(minimalSublineCount, CSharpInt.DivCeil(atLeastOne, charsOnLine));
      height := m.lineHeight * lineCount;
    }

    /**
     * `PutCharacterAt`: sets or clears the cell's two overrides, places the
     * element, and reports whether the number of sublines changed at the
     * current line width.
     */
    method PutCharacterAt(position: nat, what: Element, foreground: Option<Color>, background: Option<Color>)
      returns (result: bool)
      requires Valid()
      modifies this
      ensures Valid()
      ensures specialForegrounds == UpdateOverride(old(specialForegrounds), position, foreground)
      ensures specialBackgrounds == UpdateOverride(old(specialBackgrounds), position, background)
      ensures content == PutContent(old(content), position, what)
      ensures result == SublinesChanged(|old(content)|, |content|, CharsOnLine(metrics))
      ensures minimalSublineCount == old(minimalSublineCount) && lineCount == old(lineCount)
      ensures maximalColumn == old(maximalColumn) && metrics == old(metrics)
      ensures selectedContent == old(selectedContent) && cursorInRow == old(cursorInRow)
    {
      if foreground.Some? {
        specialForegrounds := specialForegrounds[position := foreground.value];
      } else {
        specialForegrounds := specialForegrounds - {position};
      }
      if background.Some? {
        specialBackgrounds := specialBackgrounds[position := background.value];
      } else {
        specialBackgrounds := specialBackgrounds - {position};
      }
      var oldLength := |content|;
      var built: seq<Element>;
      if position > 0 {
        if oldLength <= position {
          built := content + Spaces(position - oldLength) + [what];
        } else {
          built := content[..position] + [what];
        }
      } else {
        built := [what];
      }
      if oldLength > position + 1 {
        built := built + content[position + 1..];
      }
      content := built;
      var charsOnLine := CharsOnLine(metrics);
      result := CSharpInt.DivCeil(if oldLength == 0 then 1 else oldLength, charsOnLine)
                != CSharpInt.DivCeil(if |content| == 0 then 1 else |content|, charsOnLine);
    }

    /**
     * `Erase`: holds the subline count at its current value, clears the
     * overrides from `from` (clamped to the row) through `to`, setting the
     * backgrounds there when a colour is given, and blanks the elements.
     * `to` must not be negative: the source's substring call throws there.
     */
    method Erase(from: int, to: int, background: Option<Color>)
      requires Valid() && to >= 0
      modifies this
      ensures Valid()
      ensures minimalSublineCount == old(lineCount)
      ensures var f := ClampFrom(from, |old(content)|);
              specialForegrounds == old(specialForegrounds) - Span(f, to)
              && specialBackgrounds == ErasedBackgrounds(old(specialBackgrounds), f, to, background)
      ensures content == ErasedContent(old(content), from, to)
      ensures lineCount == old(lineCount) && maximalColumn == old(maximalColumn) && metrics == old(metrics)
      ensures selectedContent == old(selectedContent) && cursorInRow == old(cursorInRow) && selectionColor == old(selectionColor)
    {
      var erased, foregrounds, backgrounds := EraseRow(content, specialForegrounds, specialBackgrounds, from, to, background);
      minimalSublineCount := lineCount;
      specialForegrounds, specialBackgrounds, content := foregrounds, backgrounds, erased;
    }

    /**
     * `Draw`: lays the elements out over sublines of `MaximalColumn + 1`,
     * moves the overrides to their wrapped-text indices, paints the selected
     * cells, and records the selected text for the clipboard. The two
     * colour maps are what `GetColorRanges` then turns into ranges.
     */
    method Draw(selection: Option<SelectedCells>, direction: SelectionDirection, mode: SelectionMode)
      returns (foregroundColors: map<int, Color>, backgroundColors: map<int, Color>)
      requires Valid()
      requires selection.Some? ==> selection.value.firstSubrow >= 0 && selection.value.lastSubrow >= 0
      modifies this
      ensures Valid()
      ensures selectedContent == DrawnSelection(old(selectedContent), content, maximalColumn + 1, selection, direction, mode)
      ensures foregroundColors == DrawnColors(WrappedKeys(specialForegrounds, maximalColumn + 1), |content|, maximalColumn + 1,
                                              selection, direction, mode, SelectionForegrounds(specialForegrounds, maximalColumn + 1))
      ensures backgroundColors == DrawnColors(WrappedKeys(specialBackgrounds, maximalColumn + 1), |content|, maximalColumn + 1,
                                              selection, direction, mode, Uniform(selectionColor))
      ensures content == old(content) && minimalSublineCount == old(minimalSublineCount) && lineCount == old(lineCount)
      ensures maximalColumn == old(maximalColumn) && metrics == old(metrics) && selectionColor == old(selectionColor)
      ensures specialForegrounds == old(specialForegrounds) && specialBackgrounds == old(specialBackgrounds)
      ensures cursorInRow == old(cursorInRow)
    {
      selectedContent, foregroundColors, backgroundColors :=
        DrawElements(content, maximalColumn + 1, specialForegrounds, specialBackgrounds, selectionColor,
                     selectedContent, selection, direction, mode);
    }

    /** `ResetSelection`: nothing is selected in this row any more. */
    method ResetSelection()
      modifies this
      ensures selectedContent == None
      ensures content == old(content) && specialForegrounds == old(specialForegrounds)
      ensures specialBackgrounds == old(specialBackgrounds) && cursorInRow == old(cursorInRow)
      ensures minimalSublineCount == old(minimalSublineCount) && lineCount == old(lineCount)
      ensures maximalColumn == old(maximalColumn) && metrics == old(metrics) && selectionColor == old(selectionColor)
    {
      selectedContent := None;
    }

    /**
     * `DrawCursor`: a focused cursor at `offset` is remembered at the
     * wrapped-text index of that element, which `CursorShowsElement` relates
     * to the element; an unfocused one changes nothing.
     */
    method DrawCursor(offset: int, focused: bool)
      modifies this
      requires Valid()
      ensures Valid()
      ensures cursorInRow == if focused then Some(offset + CSharpInt.Div(offset, maximalColumn + 1)) else old(cursorInRow)
      ensures content == old(content) && specialForegrounds == old(specialForegrounds)
      ensures specialBackgrounds == old(specialBackgrounds) && selectedContent == old(selectedContent)
      ensures minimalSublineCount == old(minimalSublineCount) && lineCount == old(lineCount)
      ensures maximalColumn == old(maximalColumn) && metrics == old(metrics) && selectionColor == old(selectionColor)
    {
      var maxColumn := maximalColumn + 1;
      var row := CSharpInt.Div(offset, maxColumn);
      if focused {
        cursorInRow := Some(offset + row);
      }
    }

    /** `FillClipboardData`: the selected text, if any, becomes one more clipboard row. */
    method FillClipboardData(data: Clipboard.ClipboardData)
      modifies data
      ensures data.rows == old(data.rows) + (if selectedContent.Some? then [selectedContent.value] else [])
    {
      if selectedContent.Some? {
        data.AppendText(selectedContent.value);
      }
    }
  }

  /**
   * The whole of `Draw` on values: the selected text (or `previous` when a
   * block selection leaves it alone) and the two colour maps.
   */
  method DrawElements(content: seq<Element>, charsOnLine: Positive, sf: map<int, Color>, sb: map<int, Color>,
                      selectionColor: Color, previous: Option<string>,
                      selection: Option<SelectedCells>, direction: SelectionDirection, mode: SelectionMode)
    returns (selected: Option<string>, foregroundColors: map<int, Color>, backgroundColors: map<int, Color>)
    requires forall k :: k in sf ==> k >= 0
    requires forall k :: k in sb ==> k >= 0
    requires selection.Some? ==> selection.value.firstSubrow >= 0 && selection.value.lastSubrow >= 0
    ensures selected == DrawnSelection(previous, content, charsOnLine, selection, direction, mode)
    ensures foregroundColors == DrawnColors(WrappedKeys(sf, charsOnLine), |content|, charsOnLine,
                                            selection, direction, mode, SelectionForegrounds(sf, charsOnLine))
    ensures backgroundColors == DrawnColors(WrappedKeys(sb, charsOnLine), |content|, charsOnLine,
                                            selection, direction, mode, Uniform(selectionColor))
  {
    var fg0, bg0 := WrappedKeys(sf, charsOnLine), WrappedKeys(sb, charsOnLine);
    var fgPaint, bgPaint := SelectionForegrounds(sf, charsOnLine), Uniform(selectionColor);
    if selection.None? || |content| == 0 {
      selected := None;
      foregroundColors, backgroundColors := fg0, bg0;
    } else if mode == Block {
      selected := previous;
      foregroundColors, backgroundColors := DrawBlock(content, charsOnLine, fg0, bg0, fgPaint, bgPaint, selection.value);
      assert foregroundColors == DrawnColors(fg0, |content|, charsOnLine, selection, direction, mode, fgPaint);
      assert backgroundColors == DrawnColors(bg0, |content|, charsOnLine, selection, direction, mode, bgPaint);
    } else {
      var text;
      text, foregroundColors, backgroundColors := DrawStream(content, charsOnLine, fg0, bg0, fgPaint, bgPaint, selection.value, direction);
      selected := Some(text);
      StreamSelectedText(content, charsOnLine, selection.value, direction, previous);
      assert foregroundColors == DrawnColors(fg0, |content|, charsOnLine, selection, direction, mode, fgPaint);
      assert backgroundColors == DrawnColors(bg0, |content|, charsOnLine, selection, direction, mode, bgPaint);
    }
  }

  /** `Draw` with a block selection on a non-empty row (lines 78-92). */
  method DrawBlock(content: seq<Element>, charsOnLine: Positive, fg0: map<int, Color>, bg0: map<int, Color>,
                   fgPaint: Paint, bgPaint: Paint, cells: SelectedCells)
    returns (foregroundColors: map<int, Color>, backgroundColors: map<int, Color>)
    requires |content| > 0 && cells.firstSubrow >= 0 && cells.lastSubrow >= 0
    ensures var lastSubline := |content| / charsOnLine;
            var fs, ls := Min(lastSubline, cells.firstSubrow), Min(lastSubline, cells.lastSubrow);
            foregroundColors == BlockPainted(fg0, fs, ls, cells.firstColumn, cells.lastColumn, charsOnLine, fgPaint)
            && backgroundColors == BlockPainted(bg0, fs, ls, cells.firstColumn, cells.lastColumn, charsOnLine, bgPaint)
  {
    var text, newLinesAt := WrapText(content, charsOnLine);
    var firstSubrow := Min(|newLinesAt| - 1, cells.firstSubrow);
    var lastSubrow := Min(|newLinesAt| - 1, cells.lastSubrow);
    foregroundColors, backgroundColors := PaintBlock(fg0, bg0, fgPaint, bgPaint, firstSubrow, lastSubrow,
                                                     cells.firstColumn, cells.lastColumn, charsOnLine);
  }

  /** `Draw` with a stream selection on a non-empty row (lines 78-118). */
  method DrawStream(content: seq<Element>, charsOnLine: Positive, fg0: map<int, Color>, bg0: map<int, Color>,
                    fgPaint: Paint, bgPaint: Paint, cells: SelectedCells, direction: SelectionDirection)
    returns (selected: string, foregroundColors: map<int, Color>, backgroundColors: map<int, Color>)
    requires |content| > 0 && cells.firstSubrow >= 0 && cells.lastSubrow >= 0
    ensures var text := Wrapped(content, charsOnLine);
            var r := StreamRange(|content| + |content| / charsOnLine, NewLinesAt(|content|, charsOnLine), cells, direction);
            |text| == |content| + |content| / charsOnLine
            && selected == SelectedText(text, r)
            && foregroundColors == SpanPainted(fg0, r.0, r.1, fgPaint)
            && backgroundColors == SpanPainted(bg0, r.0, r.1, bgPaint)
  {
    var text, newLinesAt := WrapText(content, charsOnLine);
    assert newLinesAt == NewLinesAt(|content|, charsOnLine);
    WrappedLength(content, charsOnLine);
    var firstIndex, lastIndex := StreamIndices(|text|, newLinesAt, cells, direction);
    foregroundColors, backgroundColors := PaintStream(fg0, bg0, fgPaint, bgPaint, firstIndex, lastIndex);
    selected := Concat(text[firstIndex..lastIndex + 1]);
  }

  /** The corner indices of a stream selection in the wrapped text (lines 95-111). */
  method StreamIndices(textLength: nat, newLinesAt: seq<int>, cells: SelectedCells, direction: SelectionDirection)
    returns (firstIndex: int, lastIndex: int)
    requires |newLinesAt| >= 1 && textLength >= 1
    requires cells.firstSubrow >= 0 && cells.lastSubrow >= 0
    ensures (firstIndex, lastIndex) == StreamRange(textLength, newLinesAt, cells, direction)
  {
    var firstSubrow := Min(|newLinesAt| - 1, cells.firstSubrow);
    var lastSubrow := Min(|newLinesAt| - 1, cells.lastSubrow);
    var firstColumn, lastColumn := cells.firstColumn, cells.lastColumn;
    if direction == NW {
      firstColumn, lastColumn := lastColumn, firstColumn;
      firstSubrow, lastSubrow := lastSubrow, firstSubrow;
    }
    firstIndex := firstColumn + newLinesAt[firstSubrow];
    lastIndex := lastColumn + newLinesAt[lastSubrow];
    if lastIndex < firstIndex {
      firstIndex, lastIndex := lastIndex, firstIndex;
    }
    firstIndex := Max(0, Min(textLength - 1, firstIndex));
    lastIndex := Max(0, Min(textLength - 1, lastIndex));
  }

  /** The whole of `Erase` on values: the new elements and the two override maps. */
  method EraseRow(c: seq<Element>, fg: map<int, Color>, bg: map<int, Color>, from: int, to: nat, background: Option<Color>)
    returns (r: seq<Element>, foregrounds: map<int, Color>, backgrounds: map<int, Color>)
    requires forall k :: k in fg ==> k >= 0
    requires forall k :: k in bg ==> k >= 0
    ensures r == ErasedContent(c, from, to)
    ensures foregrounds == fg - Span(ClampFrom(from, |c|), to)
    ensures backgrounds == ErasedBackgrounds(bg, ClampFrom(from, |c|), to, background)
    ensures forall k :: k in foregrounds ==> k >= 0
    ensures forall k :: k in backgrounds ==> k >= 0
  {
    var f := ClampFrom(from, |c|);
    foregrounds, backgrounds := EraseOverrides(fg, bg, f, to, background);
    ErasedKeysStayNonNegative(bg, f, to, background);
    r := ErasedContent(c, from, to);
  }

  /** `Erase`'s loop (lines 198-216) over the two override maps. */
  method EraseOverrides(fg: map<int, Color>, bg: map<int, Color>, f: int, to: int, background: Option<Color>)
    returns (foregrounds: map<int, Color>, backgrounds: map<int, Color>)
    ensures foregrounds == fg - Span(f, to)
    ensures backgrounds == ErasedBackgrounds(bg, f, to, background)
  {
    foregrounds, backgrounds := fg, bg;
    var i := f;
    SpanEmpty(f, f - 1);
    while i <= to
      invariant f <= i <= Max(f, to + 1)
      invariant foregrounds == fg - Span(f, i - 1)
      invariant backgrounds == ErasedBackgrounds(bg, f, i - 1, background)
    {
      SpanNext(f, i);
      if background.Some? {
        backgrounds := backgrounds[i := background.value];
      } else {
        backgrounds := backgrounds - {i};
      }
      foregrounds := foregrounds - {i};
      i := i + 1;
    }
  }

  /**
   * Stream mode's loop (lines 113-117): every wrapped-text index from
   * `first` through `last` gets its foreground and its background.
   */
  method PaintStream(fgBase: map<int, Color>, bgBase: map<int, Color>, fgPaint: Paint, bgPaint: Paint, first: int, last: int)
    returns (foregroundColors: map<int, Color>, backgroundColors: map<int, Color>)
    ensures foregroundColors == SpanPainted(fgBase, first, last, fgPaint)
    ensures backgroundColors == SpanPainted(bgBase, first, last, bgPaint)
  {
    foregroundColors, backgroundColors := fgBase, bgBase;
    var i := first;
    while i <= last
      invariant first <= i <= Max(first, last + 1)
      invariant foregroundColors == SpanPainted(fgBase, first, i - 1, fgPaint)
      invariant backgroundColors == SpanPainted(bgBase, first, i - 1, bgPaint)
    {
      foregroundColors := foregroundColors[i := PaintOf(fgPaint, i)];
      backgroundColors := backgroundColors[i := PaintOf(bgPaint, i)];
      i := i + 1;
    }
  }

  /**
   * Block mode's loops (lines 84-91): every cell of sublines `fs` through
   * `ls` and columns `fc` through `lc` gets its foreground and its
   * background.
   */
  method PaintBlock(fgBase: map<int, Color>, bgBase: map<int, Color>, fgPaint: Paint, bgPaint: Paint,
                    fs: int, ls: int, fc: int, lc: int, charsOnLine: nat)
    returns (foregroundColors: map<int, Color>, backgroundColors: map<int, Color>)
    ensures foregroundColors == BlockPainted(fgBase, fs, ls, fc, lc, charsOnLine, fgPaint)
    ensures backgroundColors == BlockPainted(bgBase, fs, ls, fc, lc, charsOnLine, bgPaint)
  {
    foregroundColors, backgroundColors := fgBase, bgBase;
    var i := fs;
    while i <= ls
      invariant fs <= i <= Max(fs, ls + 1)
      invariant foregroundColors == BlockPainted(fgBase, fs, i - 1, fc, lc, charsOnLine, fgPaint)
      invariant backgroundColors == BlockPainted(bgBase, fs, i - 1, fc, lc, charsOnLine, bgPaint)
    {
      ghost var fgRows, bgRows := foregroundColors, backgroundColors;
      var j := fc;
      while j <= lc
        invariant fc <= j <= Max(fc, lc + 1)
        invariant foregroundColors == RowPainted(fgRows, i, fc, j - 1, charsOnLine, fgPaint)
        invariant backgroundColors == RowPainted(bgRows, i, fc, j - 1, charsOnLine, bgPaint)
      {
        var cell := BlockCell(i, j, charsOnLine);
        foregroundColors := foregroundColors[cell := PaintOf(fgPaint, cell)];
        backgroundColors := backgroundColors[cell := PaintOf(bgPaint, cell)];
        j := j + 1;
      }
      i := i + 1;
    }
  }
}
