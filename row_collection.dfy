/**
 * `RowCollection` of the older `Terminal` namespace (RowCollection.cs): a
 * list of rows that raises `ContentChanged` after every change and
 * enumerates its rows newest first. The event is counted in a ghost field.
 */
module LegacyRowCollection {
  /** The rows in the opposite order. */
  function Reversed<R>(s: seq<R>): (r: seq<R>)
    ensures |r| == |s|
  {
    if |s| == 0 then [] else Reversed(s[1..]) + [s[0]]
  }

  lemma {:induction false} ReversedAt<R>(s: seq<R>, k: nat)
    requires k < |s|
    ensures Reversed(s)[k] == s[|s| - 1 - k]
  {
    if k < |s| - 1 {
      ReversedAt(s[1..], k);
    }
  }

  class RowCollection<R> {
    var rows: seq<R>
    /** How many times `ContentChanged` has been raised. */
    ghost var contentChangedRaised: nat
    /** How many rows were appended since the collection was made or last cleared. */
    ghost var appendsSinceClear: nat

    ghost predicate Valid()
      reads this
    {
      |rows| == appendsSinceClear
    }

    constructor()
      ensures Valid() && rows == [] && contentChangedRaised == 0
    {
      rows := [];
      contentChangedRaised := 0;
      appendsSinceClear := 0;
    }

    method AppendRow(row: R)
      requires Valid()
      modifies this
      ensures Valid()
      ensures rows == old(rows) + [row]
      ensures Count() == old(Count()) + 1
      ensures contentChangedRaised == old(contentChangedRaised) + 1
      ensures appendsSinceClear == old(appendsSinceClear) + 1
    {
      rows := rows + [row];
      appendsSinceClear := appendsSinceClear + 1;
      contentChangedRaised := contentChangedRaised + 1;
    }

    method Clear()
      requires Valid()
      modifies this
      ensures Valid()
      ensures rows == [] && appendsSinceClear == 0
      ensures contentChangedRaised == old(contentChangedRaised) + 1
    {
      rows := [];
      appendsSinceClear := 0;
      contentChangedRaised := contentChangedRaised + 1;
    }

    /** The `Count` property: the number of appends since the last `Clear`. */
    function Count(): (n: nat)
      reads this
      requires Valid()
      ensures n == appendsSinceClear
    {
      |rows|
    }

    /** The enumeration of `GetAllRows`: newest row first. */
    method GetAllRows() returns (all: seq<R>)
      ensures |all| == |rows|
      ensures forall k :: 0 <= k < |rows| ==> all[k] == rows[|rows| - 1 - k]
    {
      all := [];
      var i := |rows| - 1;
      while i >= 0
        invariant -1 <= i < |rows|
        invariant |all| == |rows| - 1 - i
        invariant forall k :: 0 <= k < |all| ==> all[k] == rows[|rows| - 1 - k]
      {
        all := all + [rows[i]];
        i := i - 1;
      }
    }
  }

  /** Enumerating newest first is the reverse of the append order. */
  lemma AllRowsAreReversed<R>(rows: seq<R>, all: seq<R>)
    requires |all| == |rows|
    requires forall k :: 0 <= k < |rows| ==> all[k] == rows[|rows| - 1 - k]
    ensures all == Reversed(rows)
  {
    forall k | 0 <= k < |rows| ensures all[k] == Reversed(rows)[k] {
      ReversedAt(rows, k);
    }
  }
}
