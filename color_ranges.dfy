/**
 * `GetColorRanges` (Rows/MonospaceTextRow.cs): groups a sparse map from
 * cell index to colour into runs `(begin, length, colour)`. For each colour
 * the source sorts the run beginnings (cells whose left neighbour has a
 * different colour) and the run ends (cells whose right neighbour has a
 * different colour) separately and pairs them up by position. The lemmas
 * show that this pairing yields exactly the maximal runs of each colour.
 */
module ColorRanges {

  predicate StrictlyIncreasing(s: seq<int>)
  {
    forall i, j :: 0 <= i < j < |s| ==> s[i] < s[j]
  }

  lemma ElementExists(s: set<int>)
    requires s != {}
    ensures exists x :: x in s
  {
    if forall x :: x !in s {
      assert false;
    }
  }

  lemma {:induction false} MinimumExists(s: set<int>)
    requires s != {}
    ensures exists m :: m in s && forall y :: y in s ==> m <= y
    decreases |s|
  {
    ElementExists(s);
    var x :| x in s;
    if s != {x} {
      MinimumExists(s - {x});
      var m :| m in s - {x} && forall y :: y in s - {x} ==> m <= y;
      var least := if x < m then x else m;
      forall y | y in s
        ensures least <= y
      {
        if y != x {
          assert y in s - {x};
        }
      }
    } else {
      assert forall y :: y in s ==> x <= y;
    }
  }

  function Minimum(s: set<int>): (m: int)
    requires s != {}
    ensures m in s && forall y :: y in s ==> m <= y
  {
    MinimumExists(s);
    var m :| m in s && forall y :: y in s ==> m <= y; m
  }

  /** The elements of a finite set in ascending order (`OrderBy(x => x).ToArray()`). */
  function Sorted(s: set<int>): (r: seq<int>)
    ensures |r| == |s|
    decreases |s|
  {
    if s == {} then [] else [Minimum(s)] + Sorted(s - {Minimum(s)})
  }

  /** Every element of `Sorted(s)` is in `s`. */
  lemma {:induction false} SortedWithinSet(s: set<int>)
    ensures forall i :: 0 <= i < |Sorted(s)| ==> Sorted(s)[i] in s
    decreases |s|
  {
    if s != {} {
      var m := Minimum(s);
      SortedWithinSet(s - {m});
      assert Sorted(s) == [m] + Sorted(s - {m});
    }
  }

  /** Every element of `s` is listed by `Sorted(s)`. */
  lemma {:induction false} SortedCoversSet(s: set<int>)
    ensures forall x :: x in s ==> x in Sorted(s)
    decreases |s|
  {
    if s != {} {
      var m := Minimum(s);
      var rest := s - {m};
      SortedCoversSet(rest);
      assert Sorted(s) == [m] + Sorted(rest);
      forall x | x in s
        ensures x in Sorted(s)
      {
        if x != m {
          assert x in rest;
        }
      }
    }
  }

  /** `Sorted(s)` is strictly increasing. */
  lemma {:induction false} SortedIncreases(s: set<int>)
    ensures StrictlyIncreasing(Sorted(s))
    decreases |s|
  {
    if s != {} {
      var m := Minimum(s);
      var rest := Sorted(s - {m});
      SortedIncreases(s - {m});
      SortedWithinSet(s - {m});
      var r := Sorted(s);
      assert r == [m] + rest;
      forall i, j | 0 <= i < j < |r|
        ensures r[i] < r[j]
      {
        if i == 0 {
          assert r[j] == rest[j - 1] && rest[j - 1] in s - {m};
        } else {
          assert r[i] == rest[i - 1] && r[j] == rest[j - 1];
        }
      }
    }
  }

  /** The keys of `entries` mapped to `color` (the `entriesThisColor` set). */
  function KeysOf<C(==)>(entries: map<int, C>, color: C): set<int>
  {
    set k | k in entries && entries[k] == color
  }

  /** A cell of `s` whose left neighbour is not in `s`. */
  predicate IsBegin(s: set<int>, x: int)
  {
    x in s && x - 1 !in s
  }

  /** A cell of `s` whose right neighbour is not in `s`. */
  predicate IsEnd(s: set<int>, x: int)
  {
    x in s && x + 1 !in s
  }

  function Begins(s: set<int>): set<int>
  {
    set x | x in s && IsBegin(s, x)
  }

  function Ends(s: set<int>): set<int>
  {
    set x | x in s && IsEnd(s, x)
  }

  /** The cells of `s` greater than `x`, the measure that walks to a run's end. */
  function Above(s: set<int>, x: int): set<int>
  {
    set y | y in s && y > x
  }

  function Below(s: set<int>, x: int): set<int>
  {
    set y | y in s && y < x
  }

  /** The last cell of the run of `s` that contains `x`. */
  function RunEnd(s: set<int>, x: int): (e: int)
    requires x in s
    ensures x <= e && e in s && e + 1 !in s
    ensures forall y :: x <= y <= e ==> y in s
    decreases |Above(s, x)|
  {
    if x + 1 in s then
      assert Above(s, x) == Above(s, x + 1) + {x + 1};
      RunEnd(s, x + 1)
    else x
  }

  /** The first cell of the run of `s` that contains `x`. */
  function RunStart(s: set<int>, x: int): (b: int)
    requires x in s
    ensures b <= x && b in s && b - 1 !in s
    ensures forall y :: b <= y <= x ==> y in s
    decreases |Below(s, x)|
  {
    if x - 1 in s then
      assert Below(s, x) == Below(s, x - 1) + {x - 1};
      RunStart(s, x - 1)
    else x
  }

  /** A run reaches at least as far as any block of cells of `s` starting at `x`. */
  lemma {:induction false} RunEndReaches(s: set<int>, x: int, y: int)
    requires x <= y && forall z :: x <= z <= y ==> z in s
    ensures RunEnd(s, x) >= y
    decreases y - x
  {
    if x < y {
      RunEndReaches(s, x + 1, y);
    }
  }

  /** Walking from the start of a run ends at that run's end. */
  lemma {:induction false} RunEndOfStart(s: set<int>, e: int)
    requires e in Ends(s)
    ensures RunEnd(s, RunStart(s, e)) == e
  {
    RunEndReaches(s, RunStart(s, e), e);
  }

  /** Runs are ordered: the run of a later beginning ends after the run of an earlier one. */
  lemma RunEndsIncrease(s: set<int>, b1: int, b2: int)
    requires b1 in Begins(s) && b2 in Begins(s) && b1 < b2
    ensures RunEnd(s, b1) < b2 <= RunEnd(s, b2)
  {
  }

  /** The run ends of the beginnings in `a`. */
  function EndsOfRuns(s: set<int>, a: set<int>): set<int>
    requires a <= Begins(s)
  {
    set b | b in a :: RunEnd(s, b)
  }

  /** A sorted set starts with its least element. */
  lemma SortedStartsWithLeast(t: set<int>, m: int)
    requires m in t && forall y :: y in t ==> m <= y
    ensures Sorted(t) == [m] + Sorted(t - {m})
  {
    assert Minimum(t) == m;
  }

  /** Removing the earliest beginning removes exactly its run end. */
  lemma EndsOfRunsWithoutLeast(s: set<int>, a: set<int>, m: int)
    requires a <= Begins(s) && m in a && forall y :: y in a ==> m <= y
    ensures var e := RunEnd(s, m);
            e in EndsOfRuns(s, a)
            && (forall y :: y in EndsOfRuns(s, a) ==> e <= y)
            && EndsOfRuns(s, a) - {e} == EndsOfRuns(s, a - {m})
  {
    var e := RunEnd(s, m);
    forall b | b in a && b != m
      ensures e < RunEnd(s, b)
    {
      RunEndsIncrease(s, m, b);
    }
    assert EndsOfRuns(s, a) == EndsOfRuns(s, a - {m}) + {e};
  }

  /** Pairing two lists by `RunEnd` extends from their tails to the lists with a new head. */
  lemma PairWithHead(s: set<int>, m: int, restBegins: seq<int>, restEnds: seq<int>)
    requires m in s && |restBegins| == |restEnds|
    requires forall i :: 0 <= i < |restBegins| ==>
               restBegins[i] in s && restEnds[i] == RunEnd(s, restBegins[i])
    ensures forall i :: 0 <= i < |restBegins| + 1 ==>
              ([m] + restBegins)[i] in s && ([RunEnd(s, m)] + restEnds)[i] == RunEnd(s, ([m] + restBegins)[i])
  {
    forall i | 0 <= i < |restBegins| + 1
      ensures ([m] + restBegins)[i] in s && ([RunEnd(s, m)] + restEnds)[i] == RunEnd(s, ([m] + restBegins)[i])
    {
      if i > 0 {
        assert ([m] + restBegins)[i] == restBegins[i - 1];
        assert ([RunEnd(s, m)] + restEnds)[i] == restEnds[i - 1];
      }
    }
  }

  /**
   * Sorting the run ends of a set of beginnings gives, position by position,
   * the run ends of the sorted beginnings.
   */
  lemma {:induction false} SortedEndsFollowBegins(s: set<int>, a: set<int>)
    requires a <= Begins(s)
    ensures |Sorted(EndsOfRuns(s, a))| == |Sorted(a)|
    ensures forall i :: 0 <= i < |Sorted(a)| ==>
              Sorted(a)[i] in s && Sorted(EndsOfRuns(s, a))[i] == RunEnd(s, Sorted(a)[i])
    decreases |a|
  {
    if a == {} {
      assert EndsOfRuns(s, a) == {};
    } else {
      var m := Minimum(a);
      var rest := a - {m};
      SortedEndsFollowBegins(s, rest);
      EndsOfRunsWithoutLeast(s, a, m);
      SortedStartsWithLeast(EndsOfRuns(s, a), RunEnd(s, m));
      SortedStartsWithLeast(a, m);
      PairWithHead(s, m, Sorted(rest), Sorted(EndsOfRuns(s, rest)));
    }
  }

  /** Every run end is the end of the run of some beginning. */
  lemma EndsAreRunEnds(s: set<int>)
    ensures Ends(s) == EndsOfRuns(s, Begins(s))
  {
    forall e | e in Ends(s)
      ensures e in EndsOfRuns(s, Begins(s))
    {
      RunEndOfStart(s, e);
      assert RunStart(s, e) in Begins(s);
    }
  }

  /**
   * The pairing the source relies on: the sorted beginnings and the sorted
   * ends have the same length, and the i-th end closes the run of the i-th
   * beginning.
   */
  lemma BeginsAndEndsPair(s: set<int>)
    ensures |Sorted(Begins(s))| == |Sorted(Ends(s))|
    ensures forall i :: 0 <= i < |Sorted(Begins(s))| ==>
              Sorted(Begins(s))[i] in s && Sorted(Ends(s))[i] == RunEnd(s, Sorted(Begins(s))[i])
  {
    EndsAreRunEnds(s);
    SortedEndsFollowBegins(s, Begins(s));
  }

  /** The triples yielded for one colour, `(begins[i], ends[i] - begins[i] + 1, color)`. */
  function RangesOfColor<C>(s: set<int>, color: C): (r: seq<(int, int, C)>)
    ensures |r| == |Sorted(Begins(s))|
  {
    var begins := Sorted(Begins(s));
    var ends := Sorted(Ends(s));
    BeginsAndEndsPair(s);
    seq(|begins|, i requires 0 <= i < |begins| => (begins[i], ends[i] - begins[i] + 1, color))
  }

  /** `GetColorRanges`: the triples of every distinct colour (their order is not modelled). */
  function GetColorRanges<C(==)>(entries: map<int, C>): set<(int, int, C)>
  {
    set color, r | color in entries.Values && r in RangesOfColor(KeysOf(entries, color), color) :: r
  }

  /** The i-th triple of one colour is a maximal run of `s`. */
  lemma RangeIsRun<C>(s: set<int>, color: C, i: int)
    requires 0 <= i < |RangesOfColor(s, color)|
    ensures var r := RangesOfColor(s, color)[i];
            r.1 >= 1 && r.2 == color && r.0 - 1 !in s && r.0 + r.1 !in s
            && forall k :: r.0 <= k < r.0 + r.1 ==> k in s
  {
    BeginsAndEndsPair(s);
    var b := Sorted(Begins(s))[i];
    assert RangesOfColor(s, color)[i] == (b, RunEnd(s, b) - b + 1, color);
    assert b in Begins(s) by { SortedWithinSet(Begins(s)); }
  }

  /** Every cell of `s` lies in one of the triples of its colour. */
  lemma RunHasRange<C>(s: set<int>, color: C, k: int)
    requires k in s
    ensures exists i :: 0 <= i < |RangesOfColor(s, color)| && RangesOfColor(s, color)[i].0 <= k
                        && k < RangesOfColor(s, color)[i].0 + RangesOfColor(s, color)[i].1
  {
    var b := RunStart(s, k);
    assert b in Begins(s);
    RunEndReaches(s, b, k);
    var i := IndexInSorted(Begins(s), b);
    BeginsAndEndsPair(s);
    assert RangesOfColor(s, color)[i] == (b, RunEnd(s, b) - b + 1, color);
  }

  /** The position of an element of `t` in `Sorted(t)`. */
  lemma IndexInSorted(t: set<int>, x: int) returns (i: int)
    requires x in t
    ensures 0 <= i < |Sorted(t)| && Sorted(t)[i] == x
  {
    SortedCoversSet(t);
    i :| 0 <= i < |Sorted(t)| && Sorted(t)[i] == x;
  }

  /**
   * Every triple is a maximal run: it is non-empty, every cell in it has its
   * colour, and the cells just before and just after it do not.
   */
  lemma RangesAreMaximalRuns<C>(entries: map<int, C>, begin: int, length: int, color: C)
    requires (begin, length, color) in GetColorRanges(entries)
    ensures length >= 1
    ensures forall k :: begin <= k < begin + length ==> k in entries && entries[k] == color
    ensures !(begin - 1 in entries && entries[begin - 1] == color)
    ensures !(begin + length in entries && entries[begin + length] == color)
  {
    var c, r :| c in entries.Values && r in RangesOfColor(KeysOf(entries, c), c) && r == (begin, length, color);
    var s := KeysOf(entries, c);
    var i :| 0 <= i < |RangesOfColor(s, c)| && RangesOfColor(s, c)[i] == r;
    RangeIsRun(s, c, i);
    forall k | begin <= k < begin + length
      ensures k in entries && entries[k] == color
    {
      assert k in s;
    }
  }

  /** Every cell of the map lies in a triple of its own colour. */
  lemma RangesCoverEntries<C>(entries: map<int, C>, k: int)
    requires k in entries
    ensures exists begin, length :: (begin, length, entries[k]) in GetColorRanges(entries)
                                    && begin <= k < begin + length
  {
    var c := entries[k];
    var s := KeysOf(entries, c);
    RunHasRange(s, c, k);
    var i :| 0 <= i < |RangesOfColor(s, c)| && RangesOfColor(s, c)[i].0 <= k < RangesOfColor(s, c)[i].0 + RangesOfColor(s, c)[i].1;
    var r := RangesOfColor(s, c)[i];
    RangeIsRun(s, c, i);
    assert c in entries.Values;
    assert r in RangesOfColor(s, c);
    assert r in GetColorRanges(entries);
  }
}
