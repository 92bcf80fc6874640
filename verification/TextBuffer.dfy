/** The text buffer of the language server, and the line index built while reading a file. */
module TextBuffer {
  import opened Getline
  import opened TextLines

  class Buffer {
    var text: string
    var lineStarts: seq<nat>

    /** A default buffer has no line starts at all. */
    predicate Valid()
      reads this
    {
      lineStarts == LineStarts(text) || (text == [] && lineStarts == [])
    }

    constructor ()
      ensures Valid() && text == []
    {
      text, lineStarts := [], [];
    }

    constructor FromText(t: string)
      ensures Valid() && text == t && lineStarts == LineStarts(t)
    {
      text := t;
      new;
      RebuildLineStarts();
    }

    method Reset(t: string)
      modifies this
      ensures Valid() && text == t && lineStarts == LineStarts(t)
    {
      text := t;
      RebuildLineStarts();
    }

    method RebuildLineStarts()
      modifies `lineStarts
      ensures lineStarts == LineStarts(text)
    {
      lineStarts := [0];
      for i := 0 to |text|
        invariant lineStarts + StartsFrom(text, i) == LineStarts(text)
      {
        if text[i] == LF {
          lineStarts := lineStarts + [i + 1];
        }
      }
    }

    method PositionOf(offset: nat) returns (p: Position)
      requires Valid()
      ensures p == PositionAt(text, offset)
      ensures p == Walk(text, if offset < |text| then offset else |text|)
    {
      PositionIsWalk(text, if offset < |text| then offset else |text|);
      if lineStarts == [] {
        return Position(0, 0);
      }
      var o := if offset > |text| then |text| else offset;
      var n := UpperBound(lineStarts, o);
      var line := if n == 0 then 0 else n - 1;
      p := Position(line, o - lineStarts[line]);
    }

    method OffsetOf(p: Position) returns (o: nat)
      requires Valid()
      ensures o == OffsetAt(text, p) && o <= |text|
    {
      LineStartsShape(text);
      if lineStarts == [] {
        return 0;
      }
      var line := if p.line < |lineStarts| - 1 then p.line else |lineStarts| - 1;
      var lineStart := lineStarts[line];
      var nextLineStart := if line + 1 < |lineStarts| then lineStarts[line + 1] else |text|;
      var lineLen := if nextLineStart >= lineStart then nextLineStart - lineStart else 0;
      o := lineStart + if p.character < lineLen then p.character else lineLen;
    }

    method BuildLineSeps() returns (seps: seq<Sep>)
      ensures seps == Seps(text) == SepsOfLines(Lines(text), 0)
    {
      SepsAgreeWithLines(text);
      seps := [];
      var lineStart, lineLen := 0, 0;
      for i := 0 to |text|
        invariant lineStart + lineLen == i
        invariant forall p :: lineStart <= p < i ==> text[p] != LF
        invariant 0 < i && lineLen == 0 ==> text[i - 1] == LF
        invariant seps + SepsFrom(text, i, lineStart) == Seps(text)
      {
        if text[i] == LF {
          seps := seps + [Sep(lineStart, lineLen)];
          lineStart := lineStart + lineLen + 1;
          lineLen := 0;
        } else {
          lineLen := lineLen + 1;
        }
      }
      if text != [] && text[|text| - 1] != LF {
        seps := seps + [Sep(lineStart, lineLen)];
      }
    }
  }

  lemma NextLine(codeText: string, lineSeps: seq<Sep>, lines: seq<string>, p: nat, k: nat)
    requires k < |lines|
    ensures codeText + Unlines(lines[k..]) == codeText + lines[k] + [LF] + Unlines(lines[k + 1..])
    ensures lineSeps + SepsOfLines(lines[k..], p)
            == lineSeps + [Sep(p, |lines[k]|)] + SepsOfLines(lines[k + 1..], p + |lines[k]| + 1)
  {
    assert lines[k..][1..] == lines[k + 1..];
  }

  /** The whole file line by line: its text with every line ended, and where the lines are. */
  method ReadFile(bytes: string) returns (codeText: string, lineSeps: seq<Sep>)
    ensures codeText == Unlines(Lines(bytes))
            == (if bytes == [] || bytes[|bytes| - 1] == LF then bytes else bytes + [LF])
    ensures lineSeps == Seps(bytes)
  {
    codeText, lineSeps := [], [];
    var p: nat := 0;
    var lines := Lines(bytes);
    assert lines[0..] == lines;
    for k := 0 to |lines|
      invariant codeText + Unlines(lines[k..]) == Unlines(lines)
      invariant lineSeps + SepsOfLines(lines[k..], p) == SepsOfLines(lines, 0)
    {
      NextLine(codeText, lineSeps, lines, p, k);
      codeText := codeText + lines[k];
      lineSeps := lineSeps + [Sep(p, |lines[k]|)];
      p := p + |lines[k]|;
      codeText := codeText + [LF];
      p := p + 1;
    }
    SepsAgreeWithLines(bytes);
    UnlinesOfLines(bytes);
  }
}
