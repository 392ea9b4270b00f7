/**
 * The .NET string operations the source relies on, written out over
 * `seq<char>`: `Split`, `Join`, `TrimEnd`, `char.IsWhiteSpace`,
 * `int.TryParse` and the decimal formatting of an `int`.
 */
module Strings {
  import opened Wrappers
  import CSharpInt

  /** `string.Join(sep, parts)`: the parts in order with one `sep` between neighbours. */
  function Join(parts: seq<string>, sep: string): string
  {
    if |parts| == 0 then ""
    else if |parts| == 1 then parts[0]
    else parts[0] + sep + Join(parts[1..], sep)
  }

  /** `s.Split(sep)`: every segment between separators, empty ones included. */
  function Split(s: string, sep: char): (parts: seq<string>)
    ensures |parts| >= 1
    ensures forall i :: 0 <= i < |parts| ==> sep !in parts[i]
    ensures Join(parts, [sep]) == s
  {
    if |s| == 0 then [""]
    else
      var rest := Split(s[1..], sep);
      if s[0] == sep then
        assert Join([""] + rest, [sep]) == [sep] + Join(rest, [sep]) by {
          assert ([""] + rest)[1..] == rest;
        }
        [""] + rest
      else
        var parts := [[s[0]] + rest[0]] + rest[1..];
        assert Join(parts, [sep]) == [s[0]] + Join(rest, [sep]) by {
          assert parts[1..] == rest[1..];
        }
        parts
  }

  /** A text without the separator splits into itself. */
  lemma {:induction false} SplitWithoutSeparator(a: string, sep: char)
    requires sep !in a
    ensures Split(a, sep) == [a]
  {
    if |a| > 0 {
      SplitWithoutSeparator(a[1..], sep);
      assert [a[0]] + a[1..] == a;
    }
  }

  /** A separator after a text without one splits off that text. */
  lemma {:induction false} SplitAfterFirst(a: string, sep: char, b: string)
    requires sep !in a
    ensures Split(a + [sep] + b, sep) == [a] + Split(b, sep)
  {
    var s := a + [sep] + b;
    if |a| == 0 {
      assert s == [sep] + b && s[1..] == b;
    } else {
      assert s[0] == a[0] && s[1..] == a[1..] + [sep] + b;
      SplitAfterFirst(a[1..], sep, b);
      assert [a[0]] + a[1..] == a;
    }
  }

  /** Splitting undoes joining, when no part holds the separator. */
  lemma {:induction false} SplitJoin(parts: seq<string>, sep: char)
    requires |parts| >= 1 && forall k :: 0 <= k < |parts| ==> sep !in parts[k]
    ensures Split(Join(parts, [sep]), sep) == parts
  {
    if |parts| == 1 {
      SplitWithoutSeparator(parts[0], sep);
    } else {
      SplitJoin(parts[1..], sep);
      SplitAfterFirst(parts[0], sep, Join(parts[1..], [sep]));
      assert [parts[0]] + parts[1..] == parts;
    }
  }

  /**
   * `s.Split(new[] { sep }, 2)` read as a pair: `None` when `sep` does not
   * occur (the split has one part), otherwise the text before the first `sep`
   * and everything after it.
   */
  function SplitAtFirst(s: string, sep: char): (r: Option<(string, string)>)
    ensures r.None? <==> sep !in s
    ensures r.Some? ==> r.value.0 + [sep] + r.value.1 == s && sep !in r.value.0
  {
    if |s| == 0 then None
    else if s[0] == sep then Some(("", s[1..]))
    else
      match SplitAtFirst(s[1..], sep)
      case None => None
      case Some(p) => Some(([s[0]] + p.0, p.1))
  }

  lemma {:induction false} SplitAtFirstOfJoin(a: string, sep: char, b: string)
    requires sep !in a
    ensures SplitAtFirst(a + [sep] + b, sep) == Some((a, b))
  {
    if |a| > 0 {
      var s := a + [sep] + b;
      assert s[0] == a[0] && s[0] != sep;
      assert s[1..] == a[1..] + [sep] + b;
      SplitAtFirstOfJoin(a[1..], sep, b);
      assert [a[0]] + a[1..] == a;
    } else {
      assert a + [sep] + b == [sep] + b;
    }
  }

  /** `char.IsWhiteSpace`: the Unicode separators and the whitespace controls. */
  predicate IsWhiteSpace(c: char)
  {
    c == ' ' || '\t' <= c <= '\r' || c == '\U{0085}' || c == '\U{00A0}' || c == '\U{1680}'
    || '\U{2000}' <= c <= '\U{200A}' || c == '\U{2028}' || c == '\U{2029}' || c == '\U{202F}'
    || c == '\U{205F}' || c == '\U{3000}'
  }

  /** The white space `int.TryParse` skips around a number. */
  predicate IsNumberWhite(c: char)
  {
    c == ' ' || '\t' <= c <= '\r'
  }

  /** Drops the longest suffix whose items all satisfy `drop`. */
  function TrimEndWhere<T>(s: seq<T>, drop: T -> bool): (r: seq<T>)
    ensures |r| <= |s|
  {
    if |s| == 0 || !drop(s[|s| - 1]) then s
    else TrimEndWhere(s[..|s| - 1], drop)
  }

  /** The trim is a prefix, every item it drops satisfies `drop`, and its last item does not. */
  lemma {:induction false} TrimEndShape<T>(s: seq<T>, drop: T -> bool)
    ensures var r := TrimEndWhere(s, drop);
            r <= s && (forall i :: |r| <= i < |s| ==> drop(s[i])) && (|r| == 0 || !drop(r[|r| - 1]))
  {
    if |s| > 0 && drop(s[|s| - 1]) {
      TrimEndShape(s[..|s| - 1], drop);
    }
  }

  /** Item `i` of the trim is item `i` of the original. */
  lemma {:induction false} TrimEndIsPrefix<T>(s: seq<T>, drop: T -> bool)
    ensures forall i :: 0 <= i < |TrimEndWhere(s, drop)| ==> TrimEndWhere(s, drop)[i] == s[i]
  {
    if |s| > 0 && drop(s[|s| - 1]) {
      TrimEndIsPrefix(s[..|s| - 1], drop);
    }
  }

  /** Drops the longest prefix whose items all satisfy `drop`. */
  function TrimStartWhere<T>(s: seq<T>, drop: T -> bool): (r: seq<T>)
    ensures |r| <= |s| && r == s[|s| - |r|..]
    ensures forall i :: 0 <= i < |s| - |r| ==> drop(s[i])
    ensures |r| == 0 || !drop(r[0])
  {
    if |s| == 0 || !drop(s[0]) then s
    else TrimStartWhere(s[1..], drop)
  }

  /** A sequence whose last item is kept by `drop` is its own trim. */
  lemma TrimEndKept<T>(s: seq<T>, drop: T -> bool)
    requires |s| == 0 || !drop(s[|s| - 1])
    ensures TrimEndWhere(s, drop) == s
  {
  }

  /** Appending items that are all dropped does not change the trim. */
  lemma {:induction false} TrimEndAppendDropped<T>(s: seq<T>, t: seq<T>, drop: T -> bool)
    requires forall i :: 0 <= i < |t| ==> drop(t[i])
    ensures TrimEndWhere(s + t, drop) == TrimEndWhere(s, drop)
  {
    if |t| > 0 {
      assert (s + t)[..|s + t| - 1] == s + t[..|t| - 1];
      TrimEndAppendDropped(s, t[..|t| - 1], drop);
    } else {
      assert s + t == s;
    }
  }

  predicate IsDigit(c: char) { '0' <= c <= '9' }

  predicate AllDigits(s: string) { forall i :: 0 <= i < |s| ==> IsDigit(s[i]) }

  /** The value of a string of decimal digits, most significant first. */
  function DigitsValue(s: string): nat
    requires AllDigits(s)
  {
    if |s| == 0 then 0
    else DigitsValue(s[..|s| - 1]) * 10 + (s[|s| - 1] as int - '0' as int)
  }

  /**
   * `int.TryParse(s, out v)` with the default `NumberStyles.Integer` and an
   * invariant culture: optional white space around an optional `+` or `-`
   * followed by at least one decimal digit, and the value must fit an `int`.
   */
  function TryParseInt(s: string): (r: Option<int>)
    ensures r.Some? ==> CSharpInt.IsInt32(r.value)
  {
    var t := TrimStartWhere(TrimEndWhere(s, IsNumberWhite), IsNumberWhite);
    if |t| == 0 then None
    else
      var signed := t[0] == '-' || t[0] == '+';
      var digits := if signed then t[1..] else t;
      if |digits| == 0 || !AllDigits(digits) then None
      else
        var magnitude: int := DigitsValue(digits);
        var v := if t[0] == '-' then 0 - magnitude else magnitude;
        if CSharpInt.IsInt32(v) then Some(v) else None
  }

  /** Whatever parses holds at least one digit. */
  lemma ParsedHasDigit(s: string)
    ensures TryParseInt(s).Some? ==> exists i :: 0 <= i < |s| && IsDigit(s[i])
  {
    var u := TrimEndWhere(s, IsNumberWhite);
    var t := TrimStartWhere(u, IsNumberWhite);
    if |t| > 0 {
      var k := if t[0] == '-' || t[0] == '+' then 1 else 0;
      var digits := t[k..];
      if |digits| > 0 && AllDigits(digits) {
        assert IsDigit(digits[0]);
        TrimEndIsPrefix(s, IsNumberWhite);
        var j := |u| - |t| + k;
        assert t[k] == u[j];
        assert u[j] == s[j];
        assert 0 <= j < |s| && IsDigit(s[j]);
      }
    }
  }

  /** The decimal digits of `n` with no sign and no leading zero, as C# formats a non-negative `int`. */
  function Decimal(n: nat): (s: string)
    ensures |s| >= 1 && AllDigits(s)
    ensures DigitsValue(s) == n
    ensures |s| > 1 ==> s[0] != '0'
  {
    if n < 10 then [('0' as int + n) as char]
    else
      var s := Decimal(n / 10) + [('0' as int + n % 10) as char];
      assert s[..|s| - 1] == Decimal(n / 10);
      s
  }

  /** Formatting an `int` and parsing it back gives the same value. */
  lemma DecimalRoundTrip(n: nat)
    requires n <= CSharpInt.Int32Max
    ensures TryParseInt(Decimal(n)) == Some(n)
  {
    var s := Decimal(n);
    assert IsDigit(s[0]) && IsDigit(s[|s| - 1]);
    TrimEndKept(s, IsNumberWhite);
    assert TrimStartWhere(s, IsNumberWhite) == s;
    assert !(s[0] == '-' || s[0] == '+');
  }

  /** The concatenation of a sequence of strings (text elements back to text). */
  function Concat(parts: seq<string>): (r: string)
    ensures |r| >= |parts| - CountEmpty(parts)
  {
    if |parts| == 0 then "" else parts[0] + Concat(parts[1..])
  }

  function CountEmpty(parts: seq<string>): nat
  {
    if |parts| == 0 then 0 else (if |parts[0]| == 0 then 1 else 0) + CountEmpty(parts[1..])
  }
}
