/** Reading a text line by line, as std::getline does: a line ends at a newline or at the end of
    the text, and nothing follows a final newline. */
module Getline {

  const LF := '\n'

  /** The length of the first line. */
  function FirstLine(text: string): (n: nat)
    ensures n <= |text|
  {
    if text == [] || text[0] == LF then 0
    else 1 + FirstLine(text[1..])
  }

  function Lines(text: string): seq<string>
    decreases |text|
  {
    if text == [] then []
    else
      var n := FirstLine(text);
      [text[..n]] + if n < |text| then Lines(text[n + 1..]) else []
  }

  /** Every line followed by a newline. */
  function Unlines(lines: seq<string>): string {
    if lines == [] then [] else lines[0] + [LF] + Unlines(lines[1..])
  }

  lemma {:induction false} FirstLineEnds(text: string)
    ensures var n := FirstLine(text); LF !in text[..n] && (n < |text| ==> text[n] == LF)
  {
    if text != [] && text[0] != LF {
      FirstLineEnds(text[1..]);
      var n := FirstLine(text[1..]);
      assert text[..1 + n] == [text[0]] + text[1..][..n];
    }
  }

  lemma {:induction false} FirstLineOf(line: string, rest: string)
    requires LF !in line
    ensures FirstLine(line) == |line| && FirstLine(line + [LF] + rest) == |line|
  {
    if line == [] {
      assert line + [LF] + rest == [LF] + rest;
    } else {
      FirstLineOf(line[1..], rest);
      assert (line + [LF] + rest)[1..] == line[1..] + [LF] + rest;
    }
  }

  lemma {:induction false} LinesOfUnlines(lines: seq<string>)
    requires forall k :: 0 <= k < |lines| ==> LF !in lines[k]
    ensures Lines(Unlines(lines)) == lines
  {
    if lines != [] {
      var rest := Unlines(lines[1..]);
      FirstLineOf(lines[0], rest);
      var text := Unlines(lines);
      assert text[..|lines[0]|] == lines[0] && text[|lines[0]| + 1..] == rest;
      LinesOfUnlines(lines[1..]);
    }
  }
}
