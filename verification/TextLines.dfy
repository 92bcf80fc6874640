/** Line starts, positions and line separators of a text, and what they have to do with each
    other. */
module TextLines {
  import opened Getline

  datatype Position = Position(line: nat, character: nat)

  /** A line as its first offset and its length without the newline. */
  datatype Sep = Sep(first: int, length: int)

  /** One past each newline at or after i. */
  function StartsFrom(text: string, i: nat): seq<nat>
    requires i <= |text|
    decreases |text| - i
  {
    if i == |text| then []
    else if text[i] == LF then [i + 1] + StartsFrom(text, i + 1)
    else StartsFrom(text, i + 1)
  }

  function LineStarts(text: string): (starts: seq<nat>)
    ensures |starts| > 0
  {
    [0] + StartsFrom(text, 0)
  }

  /** Line ends at or after i, in a line that began at start. */
  function SepsFrom(text: string, i: nat, start: nat): seq<Sep>
    requires start <= i <= |text|
    decreases |text| - i
  {
    if i == |text| then if start < i then [Sep(start, i - start)] else []
    else if text[i] == LF then [Sep(start, i - start)] + SepsFrom(text, i + 1, i + 1)
    else SepsFrom(text, i + 1, start)
  }

  function Seps(text: string): seq<Sep> {
    SepsFrom(text, 0, 0)
  }

  /** The same from lines already split. */
  function SepsOfLines(lines: seq<string>, p: nat): seq<Sep> {
    if lines == [] then [] else [Sep(p, |lines[0]|)] + SepsOfLines(lines[1..], p + |lines[0]| + 1)
  }

  // ----- positions -----

  /** How many of the starts are at most o. */
  function UpperBound(starts: seq<nat>, o: nat): (n: nat)
    ensures n <= |starts| && (forall k :: 0 <= k < n ==> starts[k] <= o) && (n < |starts| ==> starts[n] > o)
  {
    if starts == [] || starts[0] > o then 0 else 1 + UpperBound(starts[1..], o)
  }

  function PositionIn(starts: seq<nat>, size: nat, offset: nat): Position
    requires |starts| > 0 && starts[0] == 0
  {
    var o := if offset > size then size else offset;
    var line := UpperBound(starts, o) - 1;
    Position(line, o - starts[line])
  }

  function LineLength(starts: seq<nat>, size: nat, line: nat): nat
    requires line < |starts|
  {
    var next := if line + 1 < |starts| then starts[line + 1] else size;
    if next >= starts[line] then next - starts[line] else 0
  }

  function OffsetIn(starts: seq<nat>, size: nat, p: Position): nat
    requires |starts| > 0
  {
    var line := if p.line < |starts| - 1 then p.line else |starts| - 1;
    var len := LineLength(starts, size, line);
    starts[line] + if p.character < len then p.character else len
  }

  function PositionAt(text: string, offset: nat): Position {
    PositionIn(LineStarts(text), |text|, offset)
  }

  function OffsetAt(text: string, p: Position): nat {
    OffsetIn(LineStarts(text), |text|, p)
  }

  /** The position reached by walking over the first o characters. */
  function Walk(text: string, o: nat): Position
    requires o <= |text|
  {
    if o == 0 then Position(0, 0)
    else
      var p := Walk(text, o - 1);
      if text[o - 1] == LF then Position(p.line + 1, 0) else Position(p.line, p.character + 1)
  }

  /** A position on a line: before its end, or at the end of the last one. */
  predicate OnLine(text: string, p: Position) {
    var starts := LineStarts(text);
    p.line < |starts| &&
    (p.character < LineLength(starts, |text|, p.line)
     || (p.line == |starts| - 1 && p.character == LineLength(starts, |text|, p.line)))
  }

  predicate Before(p: Position, q: Position) {
    p.line < q.line || (p.line == q.line && p.character < q.character)
  }

  // ----- the shape of the line starts -----

  /** Increasing offsets past i, each one past a newline, and none missing. */
  ghost predicate Shaped(text: string, i: nat, s: seq<nat>) {
    && (forall k :: 0 <= k < |s| ==> i < s[k] <= |text| && text[s[k] - 1] == LF)
    && (forall j, k :: 0 <= j < k < |s| ==> s[j] < s[k])
    && (forall p :: i <= p < |text| && text[p] == LF ==> p + 1 in s)
  }

  lemma {:induction false} StartsFromShape(text: string, i: nat)
    requires i <= |text|
    ensures Shaped(text, i, StartsFrom(text, i))
    decreases |text| - i
  {
    if i < |text| {
      StartsFromShape(text, i + 1);
      if text[i] == LF {
        ShapedCons(text, i, StartsFrom(text, i + 1));
      }
    }
  }

  lemma ShapedCons(text: string, i: nat, rest: seq<nat>)
    requires i < |text| && text[i] == LF && Shaped(text, i + 1, rest)
    ensures Shaped(text, i, [i + 1] + rest)
  {
    var s := [i + 1] + rest;
    assert s[0] == i + 1 && forall k :: 1 <= k < |s| ==> s[k] == rest[k - 1];
    forall p | i <= p < |text| && text[p] == LF ensures p + 1 in s {
      if p > i {
        assert p + 1 in rest;
      }
    }
  }

  lemma LineStartsShape(text: string)
    ensures var s := LineStarts(text);
            && s[0] == 0
            && (forall k :: 0 <= k < |s| ==> s[k] <= |text|)
            && (forall k :: 1 <= k < |s| ==> s[k] > 0 && text[s[k] - 1] == LF)
            && (forall j, k :: 0 <= j < k < |s| ==> s[j] < s[k])
            && (forall p :: 0 <= p < |text| && text[p] == LF ==> p + 1 in s)
  {
    var rest, s := StartsFrom(text, 0), LineStarts(text);
    StartsFromShape(text, 0);
    assert forall k :: 1 <= k < |s| ==> s[k] == rest[k - 1];
    assert forall p :: 0 <= p < |text| && text[p] == LF ==> p + 1 in rest && p + 1 in s;
  }

  /** The line that a search for o finds. */
  lemma PositionFound(text: string, o: nat, k: nat)
    requires var s := LineStarts(text);
             o <= |text| && k < |s| && s[k] <= o && (k + 1 < |s| ==> o < s[k + 1])
    ensures PositionAt(text, o) == Position(k, o - LineStarts(text)[k])
  {
    LineStartsShape(text);
    UpperBoundIs(LineStarts(text), o, k);
  }

  lemma UpperBoundIs(s: seq<nat>, o: nat, k: nat)
    requires forall i, j :: 0 <= i < j < |s| ==> s[i] < s[j]
    requires k < |s| && s[k] <= o && (k + 1 < |s| ==> o < s[k + 1])
    ensures UpperBound(s, o) == k + 1
  {
    assert forall j :: 0 <= j <= k ==> s[j] <= s[k];
    assert forall j :: k < j < |s| ==> s[k + 1] <= s[j];
  }

  lemma LineFound(text: string, o: nat) returns (k: nat)
    requires o <= |text|
    ensures var s := LineStarts(text);
            k < |s| && s[k] <= o && (k + 1 < |s| ==> o < s[k + 1]) && PositionAt(text, o) == Position(k, o - s[k])
  {
    LineStartsShape(text);
    k := UpperBound(LineStarts(text), o) - 1;
    PositionFound(text, o, k);
  }

  // ----- results -----

  lemma {:induction false} PositionIsWalk(text: string, o: nat)
    requires o <= |text|
    ensures PositionAt(text, o) == Walk(text, o)
    decreases o
  {
    if o == 0 {
      LineStartsShape(text);
      PositionFound(text, 0, 0);
    } else {
      PositionIsWalk(text, o - 1);
      var k := LineFound(text, o - 1);
      OneStep(text, o, k);
    }
  }

  lemma OneStep(text: string, o: nat, k: nat)
    requires var s := LineStarts(text);
             0 < o <= |text| && k < |s| && s[k] < o && (k + 1 < |s| ==> o <= s[k + 1])
    ensures PositionAt(text, o)
            == if text[o - 1] == LF then Position(k + 1, 0) else Position(k, o - LineStarts(text)[k])
  {
    var s := LineStarts(text);
    LineStartsShape(text);
    if text[o - 1] == LF {
      assert o - 1 + 1 in s;
      var j :| 0 <= j < |s| && s[j] == o;
      assert j > k && s[k + 1] <= s[j];
      PositionFound(text, o, k + 1);
    } else {
      PositionFound(text, o, k);
    }
  }

  lemma PositionOnLine(text: string, o: nat)
    requires o <= |text|
    ensures OnLine(text, PositionAt(text, o))
  {
    LineStartsShape(text);
    var k := LineFound(text, o);
  }

  lemma OffsetOfPosition(text: string, o: nat)
    ensures OffsetAt(text, PositionAt(text, o)) == if o < |text| then o else |text|
  {
    LineStartsShape(text);
    var k := LineFound(text, if o < |text| then o else |text|);
  }

  /** Exactly the positions on a line survive the way through an offset. */
  lemma PositionOfOffsetExactly(text: string, p: Position)
    ensures PositionAt(text, OffsetAt(text, p)) == p <==> OnLine(text, p)
  {
    LineStartsShape(text);
    PositionOnLine(text, OffsetAt(text, p));
    if OnLine(text, p) {
      PositionFound(text, OffsetAt(text, p), p.line);
    }
  }

  lemma LastLineOf(text: string)
    ensures Walk(text, |text|).line == |LineStarts(text)| - 1
  {
    LineStartsShape(text);
    PositionFound(text, |text|, |LineStarts(text)| - 1);
    PositionIsWalk(text, |text|);
  }

  /** Among increasing starts, offset o of line k against a position in line l. */
  lemma OffsetAgainst(s: seq<nat>, size: nat, p: Position, o: nat, k: nat)
    requires forall i, j :: 0 <= i < j < |s| ==> s[i] < s[j]
    requires forall i :: 0 <= i < |s| ==> s[i] <= size
    requires k < |s| && p.line < |s| && s[k] <= o <= size && (k + 1 < |s| ==> o < s[k + 1])
    ensures OffsetIn(s, size, p) <= size
    ensures o < OffsetIn(s, size, p) ==> Before(Position(k, o - s[k]), p)
    ensures OffsetIn(s, size, p) <= o && o < size ==> !Before(Position(k, o - s[k]), p)
  {
    var l := p.line;
    var end := if l + 1 < |s| then s[l + 1] else size;
    assert s[l] <= OffsetIn(s, size, p) <= end;
    if k < l {
      assert s[k + 1] <= s[l];
    } else if l < k {
      assert s[l + 1] <= s[k];
    }
  }

  /** For any position on one of the lines, even one past the end of its line: the offset is the
      first one that the position does not lie behind, or the size. */
  lemma OffsetIsFirstNotBefore(text: string, p: Position, o: nat)
    requires p.line <= Walk(text, |text|).line && o <= |text|
    ensures OffsetAt(text, p) <= |text|
    ensures o < OffsetAt(text, p) ==> Before(Walk(text, o), p)
    ensures OffsetAt(text, p) <= o && o < |text| ==> !Before(Walk(text, o), p)
  {
    LineStartsShape(text);
    LastLineOf(text);
    PositionIsWalk(text, o);
    var k := LineFound(text, o);
    OffsetAgainst(LineStarts(text), |text|, p, o, k);
  }

  /** A line past the last one counts as the last one. */
  lemma LinesPastTheEnd(text: string, p: Position)
    ensures var last := Walk(text, |text|).line;
            p.line > last ==> OffsetAt(text, p) == OffsetAt(text, Position(last, p.character))
  {
    LastLineOf(text);
  }

  lemma {:induction false} PositionsIncrease(text: string, o1: nat, o2: nat)
    requires o1 < o2 <= |text|
    ensures Before(PositionAt(text, o1), PositionAt(text, o2))
    decreases o2
  {
    PositionIsWalk(text, o1);
    PositionIsWalk(text, o2);
    PositionIsWalk(text, o2 - 1);
    if o1 < o2 - 1 {
      PositionsIncrease(text, o1, o2 - 1);
    }
  }

  /** The separators that given line starts ask for: each line up to the newline before the next
      start, and none for an empty last line. */
  function SepsFor(starts: seq<int>, size: nat): seq<Sep>
    requires |starts| > 0
  {
    if |starts| > 1 then [Sep(starts[0], starts[1] - 1 - starts[0])] + SepsFor(starts[1..], size)
    else if starts[0] == size then [] else [Sep(starts[0], size - starts[0])]
  }

  lemma {:induction false} SepsForLength(starts: seq<int>, size: nat)
    requires |starts| > 0
    ensures |SepsFor(starts, size)| == |starts| - (if starts[|starts| - 1] == size then 1 else 0)
  {
    if |starts| > 1 {
      SepsForLength(starts[1..], size);
    }
  }

  lemma {:induction false} SepsFollowStarts(text: string, i: nat, start: nat)
    requires start <= i <= |text|
    ensures SepsFrom(text, i, start) == SepsFor([start] + StartsFrom(text, i), |text|)
    decreases |text| - i
  {
    if i < |text| {
      if text[i] == LF {
        SepsFollowStarts(text, i + 1, i + 1);
        var rest := [i + 1] + StartsFrom(text, i + 1);
        assert ([start] + rest)[1..] == rest;
      } else {
        SepsFollowStarts(text, i + 1, start);
      }
    }
  }

  /** Every separator is a line start with the distance to the next newline; only an empty
      last line has none. */
  lemma SepsAreLineStarts(text: string)
    ensures Seps(text) == SepsFor(LineStarts(text), |text|)
    ensures |Seps(text)| == |LineStarts(text)| - (if text == [] || text[|text| - 1] == LF then 1 else 0)
  {
    var starts := LineStarts(text);
    SepsFollowStarts(text, 0, 0);
    SepsForLength(starts, |text|);
    LastStart(text);
  }

  lemma LastStart(text: string)
    ensures var starts := LineStarts(text);
            starts[|starts| - 1] == |text| <==> text == [] || text[|text| - 1] == LF
  {
    var starts := LineStarts(text);
    LineStartsShape(text);
    if text != [] && text[|text| - 1] == LF {
      assert |text| - 1 + 1 in starts;
      var j :| 0 <= j < |starts| && starts[j] == |text|;
      assert j == |starts| - 1;
    }
  }

  predicate NoBreak(text: string, a: nat, b: nat)
    requires b <= |text|
  {
    forall p :: a <= p < b ==> text[p] != LF
  }

  lemma {:induction false} SepsFollowLines(text: string, i: nat, start: nat)
    requires start <= i <= |text| && NoBreak(text, start, i)
    ensures SepsFrom(text, i, start) == SepsOfLines(Lines(text[start..]), start)
    decreases |text| - i
  {
    if i == |text| {
      LastLine(text, start);
    } else if text[i] == LF {
      SepsFollowLines(text, i + 1, i + 1);
      SepsPastLineEnd(text, i, start);
    } else {
      SepsFollowLines(text, i + 1, start);
    }
  }

  lemma LastLine(text: string, start: nat)
    requires start <= |text| && NoBreak(text, start, |text|)
    ensures SepsOfLines(Lines(text[start..]), start) == if start < |text| then [Sep(start, |text| - start)] else []
  {
    var rest := text[start..];
    if start < |text| {
      FirstLineOf(rest, []);
      assert rest[..|rest|] == rest;
      assert Lines(rest) == [rest];
    }
  }

  lemma SepsPastLineEnd(text: string, i: nat, start: nat)
    requires start <= i < |text| && text[i] == LF && NoBreak(text, start, i)
    ensures SepsOfLines(Lines(text[start..]), start)
            == [Sep(start, i - start)] + SepsOfLines(Lines(text[i + 1..]), i + 1)
  {
    SplitAt(text, i, start);
    SepsOfLine(text[start..i], text[i + 1..], start);
  }

  lemma SplitAt(text: string, i: nat, start: nat)
    requires start <= i < |text| && text[i] == LF && NoBreak(text, start, i)
    ensures text[start..] == text[start..i] + [LF] + text[i + 1..] && LF !in text[start..i]
  {
  }

  lemma SepsOfLine(line: string, rest: string, p: nat)
    requires LF !in line
    ensures SepsOfLines(Lines(line + [LF] + rest), p) == [Sep(p, |line|)] + SepsOfLines(Lines(rest), p + |line| + 1)
  {
    LinesCons(line, rest);
    assert ([line] + Lines(rest))[1..] == Lines(rest);
  }

  lemma LinesCons(line: string, rest: string)
    requires LF !in line
    ensures Lines(line + [LF] + rest) == [line] + Lines(rest)
  {
    FirstLineOf(line, rest);
    var text := line + [LF] + rest;
    assert text[..|line|] == line && text[|line| + 1..] == rest;
  }

  /** The index of the buffer and the one made while reading the file line by line agree. */
  lemma SepsAgreeWithLines(text: string)
    ensures Seps(text) == SepsOfLines(Lines(text), 0)
  {
    SepsFollowLines(text, 0, 0);
    assert text[0..] == text;
  }

  lemma UnlinesCons(line: string, lines: seq<string>)
    ensures Unlines([line] + lines) == line + [LF] + Unlines(lines)
  {
    assert ([line] + lines)[1..] == lines;
  }

  lemma Recompose(text: string, n: nat)
    requires n < |text| && text[n] == LF
    ensures text == text[..n] + [LF] + text[n + 1..]
    ensures text[n + 1..] != [] ==> text[n + 1..][|text| - n - 2] == text[|text| - 1]
    ensures text[n + 1..] == [] ==> n == |text| - 1
  {
  }

  /** Reading by lines and joining them again adds the newline that a last line may lack. */
  lemma {:induction false} UnlinesOfLines(text: string)
    ensures Unlines(Lines(text)) == if text == [] || text[|text| - 1] == LF then text else text + [LF]
    decreases |text|
  {
    if text != [] {
      var n := FirstLine(text);
      FirstLineEnds(text);
      if n < |text| {
        var line, rest := text[..n], text[n + 1..];
        Recompose(text, n);
        LinesCons(line, rest);
        UnlinesOfLines(rest);
        UnlinesCons(line, Lines(rest));
      } else {
        assert text[..n] == text;
      }
    }
  }

  /** The separators cut the lines out of what was read. */
  lemma {:induction false} SepsCutLines(lines: seq<string>, before: string, k: nat)
    requires k < |lines|
    ensures var seps, text := SepsOfLines(lines, |before|), before + Unlines(lines);
            |seps| == |lines| && 0 <= seps[k].first <= seps[k].first + seps[k].length < |text|
            && text[seps[k].first..seps[k].first + seps[k].length] == lines[k]
    decreases |lines|
  {
    var next := before + lines[0] + [LF];
    assert before + Unlines(lines) == next + Unlines(lines[1..]);
    if |lines| > 1 {
      SepsCutLines(lines[1..], next, if k == 0 then 0 else k - 1);
    }
  }
}
