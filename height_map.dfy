/**
 * The height map of `Terminal` (Terminal.cs): entry `i` is where row `i`
 * ends, the sum of the heights of rows `0..i`. A scroll position is turned
 * into a row with `Array.BinarySearch`. Heights are whole pixels here; the
 * source keeps them in doubles.
 */
module HeightMaps {

  function Sum(h: seq<int>): int
  {
    if |h| == 0 then 0 else Sum(h[..|h| - 1]) + h[|h| - 1]
  }

  /** The height map built from the rows' heights: entry `i` is `Sum(h[..i + 1])`. */
  function PrefixSums(h: seq<int>): (s: seq<int>)
    ensures |s| == |h|
  {
    if |h| == 0 then [] else PrefixSums(h[..|h| - 1]) + [Sum(h)]
  }

  /** `GetMaximumHeight`: where the last row ends, 0 without rows. */
  function Total(heightMap: seq<int>): int
  {
    if |heightMap| == 0 then 0 else heightMap[|heightMap| - 1]
  }

  /** `GetPositionOfTheRow`: where row `rowIndex` starts. */
  function StartOf(heightMap: seq<int>, rowIndex: int): int
    requires rowIndex <= |heightMap|
  {
    if rowIndex > 0 then heightMap[rowIndex - 1] else 0
  }

  /** The total of a height map is the sum of all heights. */
  lemma TotalIsSum(h: seq<int>)
    ensures Total(PrefixSums(h)) == Sum(h)
  {
    if |h| > 0 {
      var s := PrefixSums(h[..|h| - 1]) + [Sum(h)];
      assert PrefixSums(h) == s && s[|s| - 1] == Sum(h);
    }
  }

  /**
   * `AddToHeightMap`: appending a row of height `v` appends one entry, the
   * old total plus `v`, and leaves every earlier entry alone.
   */
  lemma PrefixSumsAppend(h: seq<int>, v: int)
    ensures PrefixSums(h + [v]) == PrefixSums(h) + [Total(PrefixSums(h)) + v]
  {
    assert (h + [v])[..|h|] == h;
    TotalIsSum(h);
  }

  /** Entry `i` of the height map is the sum of the heights of rows `0..i`. */
  lemma {:induction false} PrefixSumsAt(h: seq<int>, i: int)
    requires 0 <= i < |h|
    ensures PrefixSums(h)[i] == Sum(h[..i + 1])
  {
    if i < |h| - 1 {
      PrefixSumsAt(h[..|h| - 1], i);
      assert h[..|h| - 1][..i + 1] == h[..i + 1];
    } else {
      assert h[..i + 1] == h;
    }
  }

  /**
   * Writing the entry after a rebuilt prefix `p` of a map whose remaining
   * entries are `rest` extends the prefix by that entry.
   */
  lemma WriteAfterPrefix(p: seq<int>, rest: seq<int>, x: int)
    requires |rest| > 0
    ensures (p + rest)[|p| := x] == (p + [x]) + rest[1..]
  {
    var l, r := (p + rest)[|p| := x], (p + [x]) + rest[1..];
    assert |l| == |r|;
    forall k | 0 <= k < |l|
      ensures l[k] == r[k]
    {
      if k > |p| {
        assert l[k] == rest[k - |p|] == rest[1..][k - |p| - 1];
      }
    }
  }

  /**
   * One step of a rebuild (`RebuildHeightMap`): the map holds the rebuilt
   * entries for the rows `done` followed by what it held before; the next
   * row's end, the running total plus its height, overwrites the next entry.
   */
  method WriteNextEntry(m: seq<int>, i: nat, ghost done: seq<int>, ghost initial: seq<int>, height: int, soFar: int)
    returns (next: seq<int>, nextSoFar: int)
    requires i == |done| < |initial| && m == PrefixSums(done) + initial[i..]
    requires soFar == Total(PrefixSums(done))
    ensures next == PrefixSums(done + [height]) + initial[i + 1..]
    ensures nextSoFar == Total(PrefixSums(done + [height])) && |next| == |m|
  {
    nextSoFar := soFar + height;
    WriteAfterPrefix(PrefixSums(done), initial[i..], nextSoFar);
    PrefixSumsAppend(done, height);
    assert initial[i..][1..] == initial[i + 1..];
    next := m[i := nextSoFar];
  }

  predicate StrictlyIncreasing(a: seq<int>)
  {
    forall i, j :: 0 <= i < j < |a| ==> a[i] < a[j]
  }

  /** A height map of rows that are all at least one pixel high. */
  predicate PositiveIncreasing(a: seq<int>)
  {
    StrictlyIncreasing(a) && (|a| > 0 ==> a[0] > 0)
  }

  /** Rows of positive height give a map that starts above 0 and strictly increases. */
  lemma {:induction false} PositiveHeightsIncrease(h: seq<int>)
    requires forall i :: 0 <= i < |h| ==> h[i] > 0
    ensures PositiveIncreasing(PrefixSums(h))
  {
    if |h| > 0 {
      var init, v := h[..|h| - 1], h[|h| - 1];
      assert init + [v] == h;
      PositiveHeightsIncrease(init);
      PrefixSumsAppend(init, v);
      AppendKeepsIncreasing(PrefixSums(init), v);
      assert PrefixSums(h) == PrefixSums(init) + [Total(PrefixSums(init)) + v];
    }
  }

  /** Appending a row of positive height keeps the map positive and increasing. */
  lemma AppendKeepsIncreasing(a: seq<int>, v: int)
    requires PositiveIncreasing(a) && v > 0
    ensures PositiveIncreasing(a + [Total(a) + v])
  {
    var b := a + [Total(a) + v];
    forall i, j | 0 <= i < j < |b|
      ensures b[i] < b[j]
    {
      if j == |a| && i < |a| - 1 {
        assert a[i] < a[|a| - 1];
      }
    }
  }

  /** The first entry strictly above `v`, or `|a|` when there is none. */
  function FirstAbove(a: seq<int>, v: int): (k: nat)
    ensures k <= |a|
  {
    if |a| == 0 || a[0] > v then 0 else 1 + FirstAbove(a[1..], v)
  }

  /** In an increasing map, the entries before `FirstAbove` are at most `v` and the rest above it. */
  lemma {:induction false} FirstAboveSplits(a: seq<int>, v: int)
    requires StrictlyIncreasing(a)
    ensures var k := FirstAbove(a, v);
            (forall j :: 0 <= j < k ==> a[j] <= v) && (forall j :: k <= j < |a| ==> a[j] > v)
  {
    if |a| > 0 && a[0] <= v {
      FirstAboveSplits(a[1..], v);
    }
  }

  /** Only one index splits an increasing map at `v`. */
  lemma SplitIsFirstAbove(a: seq<int>, v: int, k: int)
    requires StrictlyIncreasing(a) && 0 <= k <= |a|
    requires forall j :: 0 <= j < k ==> a[j] <= v
    requires forall j :: k <= j < |a| ==> a[j] > v
    ensures k == FirstAbove(a, v)
  {
    FirstAboveSplits(a, v);
    var f := FirstAbove(a, v);
    assert k < |a| ==> a[k] > v;
    assert f < |a| ==> a[f] > v;
  }

  /**
   * The row `FindRowIndexAtPosition` picks: the row whose end is the first
   * entry above the position, the last row when the position is at or past
   * the end, and -1 without rows.
   */
  function RowIndexAt(heightMap: seq<int>, position: int): int
  {
    if |heightMap| == 0 then -1
    else
      var k := FirstAbove(heightMap, position);
      if k < |heightMap| then k else |heightMap| - 1
  }

  /**
   * Appending a row never moves the row found back up, as long as the
   * position does not move up either.
   */
  lemma RowIndexAtGrows(a: seq<int>, x: int, v: int, w: int)
    requires StrictlyIncreasing(a + [x]) && |a| > 0 && v <= w
    ensures RowIndexAt(a, v) <= RowIndexAt(a + [x], w)
  {
    var b := a + [x];
    forall i, j | 0 <= i < j < |a|
      ensures a[i] < a[j]
    {
      assert a[i] == b[i] && a[j] == b[j];
    }
    FirstAboveSplits(a, v);
    FirstAboveSplits(b, w);
    var k, k' := FirstAbove(a, v), FirstAbove(b, w);
    if k' < |a| {
      assert b[k'] == a[k'];
    }
  }

  /** Appending a row never moves the first row on screen back up. */
  lemma FirstRowGrows(a: seq<int>, x: int, pageSize: int)
    requires StrictlyIncreasing(a + [x]) && |a| > 0
    ensures RowIndexAt(a, MaximumScrollbarValue(a, pageSize)) <= RowIndexAt(a + [x], MaximumScrollbarValue(a + [x], pageSize))
  {
    assert a[|a| - 1] == (a + [x])[|a| - 1] < (a + [x])[|a|] == x;
    RowIndexAtGrows(a, x, MaximumScrollbarValue(a, pageSize), MaximumScrollbarValue(a + [x], pageSize));
  }

  /**
   * In a map of positive heights, a position inside the rows lies in the row
   * found: that row starts at or before it and ends after it. A position at
   * or past the end gives the last row, and a position exactly where a row
   * ends gives the row after it.
   */
  lemma RowIndexAtContains(heightMap: seq<int>, position: int)
    requires PositiveIncreasing(heightMap) && |heightMap| > 0 && position >= 0
    ensures var k := RowIndexAt(heightMap, position);
            0 <= k < |heightMap|
            && (position < Total(heightMap) ==> StartOf(heightMap, k) <= position < heightMap[k])
            && (position >= Total(heightMap) ==> k == |heightMap| - 1)
            && (forall i :: 0 <= i < |heightMap| - 1 && heightMap[i] == position ==> k == i + 1)
  {
    FirstAboveSplits(heightMap, position);
  }

  /**
   * `Array.BinarySearch`: the index of an entry equal to `value`, or the
   * bitwise complement `-p - 1` of the index `p` of the first entry above
   * it. This is the .NET algorithm: halve `[lo, hi]` until it is empty.
   */
  method BinarySearch(a: seq<int>, value: int) returns (r: int)
    requires StrictlyIncreasing(a)
    ensures 0 <= r ==> r < |a| && a[r] == value
    ensures r < 0 ==> var p := -r - 1;
              p <= |a| && (forall j :: 0 <= j < p ==> a[j] < value) && (forall j :: p <= j < |a| ==> a[j] > value)
  {
    var lo, hi := 0, |a| - 1;
    while lo <= hi
      invariant 0 <= lo <= hi + 1 <= |a|
      invariant forall j :: 0 <= j < lo ==> a[j] < value
      invariant forall j :: hi < j < |a| ==> a[j] > value
    {
      var i := lo + (hi - lo) / 2;
      if a[i] == value {
        return i;
      }
      if a[i] < value {
        lo := i + 1;
      } else {
        hi := i - 1;
      }
    }
    return -lo - 1;
  }

  /**
   * `FindRowIndexAtPosition` (lines 637-654): the search result, moved one
   * row on when the position is exactly a row's end, clamped to the last
   * row; and where that row starts.
   */
  method FindRowIndexAtPosition(heightMap: seq<int>, position: int) returns (result: int, rowStart: int)
    requires StrictlyIncreasing(heightMap)
    ensures result == RowIndexAt(heightMap, position)
    ensures -1 <= result < |heightMap| && rowStart == StartOf(heightMap, result)
  {
    var found := BinarySearch(heightMap, position);
    if found < 0 {
      result := -found - 1;
    } else {
      result := found + 1;
    }
    SplitIsFirstAbove(heightMap, position, result);
    if result == |heightMap| {
      result := result - 1;
    }
    rowStart := StartOf(heightMap, result);
  }

  /**
   * `AddToHeightMap(value)`: the map with one more entry, the old total plus
   * `value` (just `value` for the first row).
   */
  method AddToHeightMap(heightMap: seq<int>, value: int) returns (extended: seq<int>)
    ensures extended == heightMap + [Total(heightMap) + value]
  {
    if |heightMap| == 0 {
      return [value];
    }
    extended := heightMap + [value + heightMap[|heightMap| - 1]];
  }

  /** `GetMaximumScrollbarValue`: the scroll position that shows the last page. */
  function MaximumScrollbarValue(heightMap: seq<int>, pageSize: int): (v: int)
    ensures v >= 0 && v >= Total(heightMap) - pageSize
  {
    if Total(heightMap) - pageSize > 0 then Total(heightMap) - pageSize else 0
  }
}
