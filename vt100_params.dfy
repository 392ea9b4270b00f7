/**
 * The numeric parameters of a CSI sequence: the text between `ESC [` and
 * the command letter is split on `;`, an empty segment is a parameter left
 * at its default (`null`), any other segment must pass `int.TryParse`
 * (Vt100/Decoder.cs:172-190). `GetParamOrDefault` reads them
 * (Vt100/DecoderCommands.cs:219-226).
 */
module Vt100Params {
  import opened Wrappers
  import opened Strings
  import CSharpInt

  /** `GetParamOrDefault(index, defaultValue)`: the parameter, or the default past the end or for a null one. */
  function ParamOrDefault(params: seq<Option<int>>, index: nat, defaultValue: int): int
  {
    if |params| <= index then defaultValue
    else if params[index].Some? then params[index].value
    else defaultValue
  }

  /** One segment: `Some(None)` when empty, `Some(Some(i))` when it parses, `None` when it is broken. */
  function ParsedSegment(s: string): Option<Option<int>>
  {
    if |s| == 0 then Some(None)
    else
      match TryParseInt(s)
      case Some(i) => Some(Some(i))
      case None => None
  }

  /** Each segment parsed on its own, in order. */
  function SegmentsParsed(segments: seq<string>): (r: seq<Option<Option<int>>>)
    ensures |r| == |segments| && forall k :: 0 <= k < |segments| ==> r[k] == ParsedSegment(segments[k])
  {
    seq(|segments|, k requires 0 <= k < |segments| => ParsedSegment(segments[k]))
  }

  /** Parsed segments collected in order; `None` as soon as one is broken. */
  function Collected(parsed: seq<Option<Option<int>>>): Option<seq<Option<int>>>
  {
    if |parsed| == 0 then Some([])
    else
      match Collected(parsed[..|parsed| - 1])
      case None => None
      case Some(front) =>
        match parsed[|parsed| - 1]
        case None => None
        case Some(p) => Some(front + [p])
  }

  /** The segments parsed in order; `None` as soon as one is broken. */
  function ParsedSegments(segments: seq<string>): Option<seq<Option<int>>>
  {
    Collected(SegmentsParsed(segments))
  }

  /** The parameters of the data of a CSI sequence, `None` when the data is broken. */
  function ParsedParams(data: string): Option<seq<Option<int>>>
  {
    ParsedSegments(Split(data, ';'))
  }

  /** The `foreach` over the split data in `HandleAnsiCode`: it stops at the first broken segment. */
  method ParseParameters(data: string) returns (parsed: Option<seq<Option<int>>>)
    ensures parsed == ParsedParams(data)
  {
    var splitted := Split(data, ';');
    var list: seq<Option<int>> := [];
    var i := 0;
    while i < |splitted|
      invariant 0 <= i <= |splitted|
      invariant ParsedSegments(splitted[..i]) == Some(list)
    {
      var s := splitted[i];
      ExtendParsed(splitted, i, list);
      if |s| == 0 {
        list := list + [None];
      } else {
        var value := TryParseInt(s);
        if value.None? {
          BrokenStaysBroken(splitted, i + 1);
          return None;
        }
        list := list + [Some(value.value)];
      }
      i := i + 1;
    }
    assert splitted[..i] == splitted;
    parsed := Some(list);
  }

  /** The segments parsed on their own, up to `i`, are the first `i` of them all parsed. */
  lemma ParsedPrefix(segments: seq<string>, i: nat)
    requires i <= |segments|
    ensures SegmentsParsed(segments[..i]) == SegmentsParsed(segments)[..i]
  {
  }

  /** One more segment: its parameter appended, or the parse broken. */
  lemma ExtendParsed(segments: seq<string>, i: nat, list: seq<Option<int>>)
    requires i < |segments| && ParsedSegments(segments[..i]) == Some(list)
    ensures ParsedSegments(segments[..i + 1])
            == if ParsedSegment(segments[i]).Some? then Some(list + [ParsedSegment(segments[i]).value]) else None
  {
    var all := SegmentsParsed(segments);
    ParsedPrefix(segments, i);
    ParsedPrefix(segments, i + 1);
    assert all[..i + 1][..i] == all[..i];
  }

  /** Once a prefix is broken, so is the whole. */
  lemma BrokenStaysBroken(segments: seq<string>, n: nat)
    requires n <= |segments| && ParsedSegments(segments[..n]) == None
    ensures ParsedSegments(segments) == None
  {
    var all := SegmentsParsed(segments);
    ParsedPrefix(segments, n);
    CollectedBroken(all, n);
  }

  /** Once a prefix of parsed segments is broken, so is the whole. */
  lemma {:induction false} CollectedBroken(parsed: seq<Option<Option<int>>>, n: nat)
    requires n <= |parsed| && Collected(parsed[..n]) == None
    ensures Collected(parsed) == None
    decreases |parsed| - n
  {
    if n < |parsed| {
      assert parsed[..n + 1][..n] == parsed[..n];
      CollectedBroken(parsed, n + 1);
    } else {
      assert parsed[..n] == parsed;
    }
  }

  /**
   * The parse succeeds exactly when every segment is empty or a number;
   * then there is one parameter per segment, null for an empty one.
   */
  lemma ParsedSegmentsMeaning(segments: seq<string>)
    ensures ParsedSegments(segments).Some? <==> forall k :: 0 <= k < |segments| ==> ParsedSegment(segments[k]).Some?
    ensures ParsedSegments(segments).Some? ==>
              var p := ParsedSegments(segments).value;
              |p| == |segments|
              && forall k :: 0 <= k < |segments| ==> Some(p[k]) == ParsedSegment(segments[k])
  {
    CollectedMeaning(SegmentsParsed(segments));
  }

  /** `ParsedSegmentsMeaning` on the parsed segments themselves. */
  lemma {:induction false} CollectedMeaning(parsed: seq<Option<Option<int>>>)
    ensures Collected(parsed).Some? <==> forall k :: 0 <= k < |parsed| ==> parsed[k].Some?
    ensures Collected(parsed).Some? ==>
              var p := Collected(parsed).value;
              |p| == |parsed| && forall k :: 0 <= k < |parsed| ==> Some(p[k]) == parsed[k]
  {
    if |parsed| > 0 {
      var n := |parsed| - 1;
      var front := parsed[..n];
      CollectedMeaning(front);
      assert forall k :: 0 <= k < n ==> front[k] == parsed[k];
      if Collected(front).Some? && parsed[n].Some? {
        var p := Collected(front).value + [parsed[n].value];
        assert Collected(parsed) == Some(p);
        assert forall k :: 0 <= k < n ==> p[k] == Collected(front).value[k];
      }
    }
  }

  /** Parameter `k` of the data, read with a default, is the number written in segment `k`, or the default. */
  lemma ParamOfText(data: string, k: nat, defaultValue: int)
    requires ParsedParams(data).Some?
    ensures var segments := Split(data, ';');
            ParamOrDefault(ParsedParams(data).value, k, defaultValue)
            == if k < |segments| && |segments[k]| > 0 && TryParseInt(segments[k]).Some? then TryParseInt(segments[k]).value else defaultValue
  {
    ParsedSegmentsMeaning(Split(data, ';'));
  }

  /** How a parameter is written: nothing for a default, its decimal digits otherwise. */
  function ParamText(p: Option<nat>): (s: string)
    ensures ';' !in s
  {
    match p
    case None => ""
    case Some(n) => Decimal(n)
  }

  function ParamTexts(ps: seq<Option<nat>>): (r: seq<string>)
    ensures |r| == |ps| && forall k :: 0 <= k < |ps| ==> r[k] == ParamText(ps[k])
  {
    if |ps| == 0 then [] else ParamTexts(ps[..|ps| - 1]) + [ParamText(ps[|ps| - 1])]
  }

  function AsParams(ps: seq<Option<nat>>): (r: seq<Option<int>>)
    ensures |r| == |ps| && forall k :: 0 <= k < |ps| ==> (r[k].Some? <==> ps[k].Some?) && (ps[k].Some? ==> r[k].value == ps[k].value)
  {
    if |ps| == 0 then [] else AsParams(ps[..|ps| - 1]) + [if ps[|ps| - 1].Some? then Some(ps[|ps| - 1].value) else None]
  }

  /**
   * Parameters written out in decimal (a default as nothing) and joined
   * with `;` parse back to themselves.
   */
  lemma ParamsRoundTrip(ps: seq<Option<nat>>)
    requires |ps| >= 1
    requires forall k :: 0 <= k < |ps| && ps[k].Some? ==> ps[k].value <= CSharpInt.Int32Max
    ensures ParsedParams(Join(ParamTexts(ps), ";")) == Some(AsParams(ps))
  {
    var texts := ParamTexts(ps);
    SplitJoin(texts, ';');
    ParsedSegmentsMeaning(texts);
    forall k | 0 <= k < |ps|
      ensures ParsedSegment(texts[k]) == Some(AsParams(ps)[k])
    {
      if ps[k].Some? {
        DecimalRoundTrip(ps[k].value);
      }
    }
    ParsedFromEach(texts, AsParams(ps));
    assert ParsedParams(Join(texts, ";")) == ParsedSegments(texts);
  }

  /** Segments that each parse to their parameter parse together to all of them. */
  lemma ParsedFromEach(segments: seq<string>, q: seq<Option<int>>)
    requires |q| == |segments| && forall k :: 0 <= k < |segments| ==> ParsedSegment(segments[k]) == Some(q[k])
    ensures ParsedSegments(segments) == Some(q)
  {
    ParsedSegmentsMeaning(segments);
    assert ParsedSegments(segments).Some?;
    var p := ParsedSegments(segments).value;
    assert forall k :: 0 <= k < |p| ==> p[k] == q[k];
    assert p == q;
  }

  /** Data without `;` is one segment: one parameter, or broken. */
  lemma ParsedSingle(t: string)
    requires ';' !in t
    ensures ParsedParams(t) == if ParsedSegment(t).Some? then Some([ParsedSegment(t).value]) else None
  {
    SplitWithoutSeparator(t, ';');
    var parsed := SegmentsParsed([t]);
    assert ParsedParams(t) == Collected(parsed);
    assert parsed == [ParsedSegment(t)];
    assert parsed[..0] == [] && Collected(parsed[..0]) == Some([]);
    if ParsedSegment(t).Some? {
      assert [] + [ParsedSegment(t).value] == [ParsedSegment(t).value];
    }
  }
}
