/** What the configuration reader makes of a line, stated on how lines are put together: where a
    comment begins, what a value is, which line is the first with a problem. */
module ConfigRules {
  import opened Wrappers
  import opened Getline
  import opened Config

  // ----- spaces -----

  ghost predicate Blank(s: string) {
    forall i :: 0 <= i < |s| ==> s[i] as int in {9, 10, 11, 12, 13, 32}
  }

  ghost predicate Tight(s: string) {
    s == [] || (s[0] as int !in {9, 10, 11, 12, 13, 32} && s[|s| - 1] as int !in {9, 10, 11, 12, 13, 32})
  }

  lemma {:induction false} TrimLeftBlank(a: string, t: string)
    requires Blank(a)
    ensures TrimLeft(a + t) == TrimLeft(t)
  {
    if a == [] {
      assert a + t == t;
    } else {
      assert (a + t)[0] == a[0] && (a + t)[1..] == a[1..] + t;
      TrimLeftBlank(a[1..], t);
    }
  }

  lemma {:induction false} TrimRightBlank(t: string, b: string)
    requires Blank(b)
    ensures TrimRight(t + b) == TrimRight(t)
    decreases |b|
  {
    if b == [] {
      assert t + b == t;
    } else {
      var m := |b| - 1;
      assert (t + b)[..|t + b| - 1] == t + b[..m];
      TrimRightBlank(t, b[..m]);
    }
  }

  /** Trimming gives what stands between the spaces. */
  lemma TrimExactly(a: string, t: string, b: string)
    requires Blank(a) && Tight(t) && Blank(b)
    ensures Trim(a + t + b) == t
  {
    assert a + t + b == a + (t + b);
    TrimLeftBlank(a, t + b);
    if t == [] {
      assert t + b == b && b + [] == b && [] + b == b;
      TrimLeftBlank(b, []);
    } else {
      assert TrimLeft(t + b) == t + b;
      TrimRightBlank(t, b);
    }
  }

  // ----- comments -----

  /** Inside quotes a backslash takes the next character with it. */
  datatype Inner = Raw(c: char) | Escaped(c: char)

  datatype Piece = Bare(c: char) | Quoted(quote: char, body: seq<Inner>)

  predicate IsQuote(c: char) {
    c == '"' || c == '\''
  }

  ghost predicate InnerFits(body: seq<Inner>, quote: char) {
    forall i :: 0 <= i < |body| && body[i].Raw? ==> body[i].c != quote && body[i].c != '\\'
  }

  ghost predicate Fits(pieces: seq<Piece>) {
    forall i :: 0 <= i < |pieces| ==>
      match pieces[i]
      case Bare(c) => !IsQuote(c) && c != '#'
      case Quoted(q, body) => IsQuote(q) && InnerFits(body, q)
  }

  function InnerText(body: seq<Inner>): string {
    if body == [] then []
    else OneInner(body[0]) + InnerText(body[1..])
  }

  function PieceText(p: Piece): string {
    match p
    case Bare(c) => [c]
    case Quoted(q, body) => [q] + InnerText(body) + [q]
  }

  function Text(pieces: seq<Piece>): string {
    if pieces == [] then [] else PieceText(pieces[0]) + Text(pieces[1..])
  }

  function Within(quote: char): Quoting {
    Quoting(quote == '\'', quote == '"', false)
  }

  function OneInner(i: Inner): string {
    match i case Raw(c) => [c] case Escaped(c) => ['\\', c]
  }

  lemma OneStaysWithin(i: Inner, q: char)
    requires IsQuote(q) && (i.Raw? ==> i.c != q && i.c != '\\')
    ensures Cut(OneInner(i), Within(q)) == OneInner(i) && StateAfter(OneInner(i), Within(q)) == Within(q)
  {
    OneChar(i.c, Within(q));
    if i.Escaped? {
      var after := Next(Within(q), '\\');
      OneChar('\\', Within(q));
      OneChar(i.c, after);
      CutAppend(['\\'], [i.c], Within(q));
      assert ['\\'] + [i.c] == OneInner(i);
    }
  }

  lemma {:induction false} InnerStaysWithin(body: seq<Inner>, q: char)
    requires IsQuote(q) && InnerFits(body, q)
    ensures Cut(InnerText(body), Within(q)) == InnerText(body) && StateAfter(InnerText(body), Within(q)) == Within(q)
  {
    if body != [] {
      OneStaysWithin(body[0], q);
      InnerStaysWithin(body[1..], q);
      CutAppend(OneInner(body[0]), InnerText(body[1..]), Within(q));
    }
  }

  /** An opening quote, what is inside, and a backslash without a character, if there is one. */
  function Unfinished(q: char, body: seq<Inner>, dangling: bool): string {
    [q] + (InnerText(body) + if dangling then "\\" else [])
  }

  lemma UnfinishedIsKept(q: char, body: seq<Inner>, dangling: bool)
    requires IsQuote(q) && InnerFits(body, q)
    ensures Cut(Unfinished(q, body, dangling), OUTSIDE) == Unfinished(q, body, dangling)
  {
    var tail := if dangling then "\\" else [];
    OneChar(q, OUTSIDE);
    OneChar('\\', Within(q));
    InnerStaysWithin(body, q);
    CutAppend(InnerText(body), tail, Within(q));
    CutAppend([q], InnerText(body) + tail, OUTSIDE);
  }

  lemma PieceStaysOutside(p: Piece)
    requires Fits([p])
    ensures Cut(PieceText(p), OUTSIDE) == PieceText(p) && StateAfter(PieceText(p), OUTSIDE) == OUTSIDE
  {
    assert [p][0] == p;
    match p
    case Bare(c) => OneChar(c, OUTSIDE);
    case Quoted(q, body) =>
      InnerStaysWithin(body, q);
      OneChar(q, OUTSIDE);
      OneChar(q, Within(q));
      CutAppend(InnerText(body), [q], Within(q));
      CutAppend([q], InnerText(body) + [q], OUTSIDE);
      assert [q] + (InnerText(body) + [q]) == PieceText(p);
  }

  lemma {:induction false} PiecesStayOutside(pieces: seq<Piece>)
    requires Fits(pieces)
    ensures Cut(Text(pieces), OUTSIDE) == Text(pieces) && StateAfter(Text(pieces), OUTSIDE) == OUTSIDE
  {
    if pieces != [] {
      assert [pieces[0]][0] == pieces[0];
      PieceStaysOutside(pieces[0]);
      PiecesStayOutside(pieces[1..]);
      CutAppend(PieceText(pieces[0]), Text(pieces[1..]), OUTSIDE);
    }
  }

  lemma CommentStarts(rest: string)
    ensures Cut(['#'] + rest, OUTSIDE) == []
  {
  }

  /** A number sign behind closed quotes and bare characters begins a comment, whatever follows. */
  lemma CommentIsCut(pieces: seq<Piece>, rest: string)
    requires Fits(pieces)
    ensures Cut(Text(pieces) + (['#'] + rest), OUTSIDE) == Text(pieces)
  {
    PiecesStayOutside(pieces);
    CommentStarts(rest);
    CutAppend(Text(pieces), ['#'] + rest, OUTSIDE);
    assert Text(pieces) + [] == Text(pieces);
  }

  /** Behind a quote that is never closed nothing is a comment. */
  lemma UnclosedQuoteIsKept(pieces: seq<Piece>, q: char, body: seq<Inner>, dangling: bool)
    requires Fits(pieces) && IsQuote(q) && InnerFits(body, q)
    ensures Cut(Text(pieces) + Unfinished(q, body, dangling), OUTSIDE) == Text(pieces) + Unfinished(q, body, dangling)
  {
    PiecesStayOutside(pieces);
    UnfinishedIsKept(q, body, dangling);
    CutAppend(Text(pieces), Unfinished(q, body, dangling), OUTSIDE);
  }

  // ----- these are all lines -----

  lemma {:induction false} ParseInner(s: string, q: char) returns (body: seq<Inner>, rest: string)
    requires IsQuote(q)
    ensures InnerFits(body, q) && s == InnerText(body) + rest
    ensures rest == [] || rest == "\\" || rest[0] == q
    decreases |s|
  {
    if s == [] || s[0] == q || s == "\\" {
      body, rest := [], s;
    } else {
      var first := if s[0] == '\\' then Escaped(s[1]) else Raw(s[0]);
      var body1;
      body1, rest := ParseInner(s[if s[0] == '\\' then 2 else 1..], q);
      body := [first] + body1;
      assert body[1..] == body1;
      assert forall i :: 0 < i < |body| ==> body[i] == body1[i - 1];
    }
  }

  /** Every line is a row of pieces and then nothing, a comment, or a quote that is not closed. */
  lemma {:induction false} EveryLine(s: string) returns (pieces: seq<Piece>, tail: string)
    ensures Fits(pieces) && s == Text(pieces) + tail
    ensures tail == [] || tail[0] == '#' || (IsQuote(tail[0]) && Unclosed(tail))
    decreases |s|
  {
    if s == [] || s[0] == '#' {
      pieces, tail := [], s;
    } else if !IsQuote(s[0]) {
      var rest;
      rest, tail := EveryLine(s[1..]);
      pieces := [Bare(s[0])] + rest;
      assert pieces[1..] == rest && s == [s[0]] + s[1..];
    } else {
      var body, after := ParseInner(s[1..], s[0]);
      assert s == [s[0]] + s[1..];
      if after == [] || after == "\\" {
        pieces, tail := [], s;
        UnclosedIs(s, body, after);
      } else {
        var rest;
        rest, tail := EveryLine(after[1..]);
        pieces := [Quoted(s[0], body)] + rest;
        QuotedFirst(s, body, after, rest, tail);
      }
    }
  }

  lemma UnclosedIs(s: string, body: seq<Inner>, after: string)
    requires s != [] && IsQuote(s[0]) && InnerFits(body, s[0]) && s == [s[0]] + (InnerText(body) + after)
    requires after == [] || after == "\\"
    ensures Unclosed(s) && s == Text([]) + s
  {
    assert s == Unfinished(s[0], body, after == "\\");
  }

  lemma QuotedFirst(s: string, body: seq<Inner>, after: string, rest: seq<Piece>, tail: string)
    requires s != [] && IsQuote(s[0]) && InnerFits(body, s[0]) && s == [s[0]] + (InnerText(body) + after)
    requires after != [] && after[0] == s[0] && Fits(rest) && after[1..] == Text(rest) + tail
    ensures var pieces := [Quoted(s[0], body)] + rest; Fits(pieces) && s == Text(pieces) + tail
  {
    var pieces := [Quoted(s[0], body)] + rest;
    assert pieces[1..] == rest && forall i :: 0 < i < |pieces| ==> pieces[i] == rest[i - 1];
    assert after == [s[0]] + after[1..];
    Regroup([s[0]], InnerText(body), Text(rest), tail);
  }

  lemma Regroup(q: string, b: string, t: string, tail: string)
    ensures q + (b + (q + (t + tail))) == q + b + q + t + tail
  {
  }

  ghost predicate Unclosed(s: string) {
    s != [] && exists body: seq<Inner>, dangling: bool ::
      InnerFits(body, s[0]) && s == Unfinished(s[0], body, dangling)
  }

  predicate StartsWith(s: string, c: char) {
    s != [] && s[0] == c
  }

  ghost predicate Splits(s: string, pieces: seq<Piece>, tail: string) {
    && Fits(pieces) && s == Text(pieces) + tail
    && (tail == [] || tail[0] == '#' || (IsQuote(tail[0]) && Unclosed(tail)))
  }

  lemma StripOf(s: string, pieces: seq<Piece>, tail: string)
    requires Splits(s, pieces, tail)
    ensures Cut(s, OUTSIDE) == if StartsWith(tail, '#') then Text(pieces) else s
  {
    if tail == [] {
      assert s == Text(pieces);
      PiecesStayOutside(pieces);
    } else if tail[0] == '#' {
      CommentIsCut(pieces, tail[1..]);
      assert tail == ['#'] + tail[1..];
    } else {
      var body: seq<Inner>, dangling: bool
        :| InnerFits(body, tail[0]) && tail == Unfinished(tail[0], body, dangling);
      UnclosedQuoteIsKept(pieces, tail[0], body, dangling);
    }
  }

  /** So stripping cuts off exactly a comment behind a row of pieces, and nothing else. */
  lemma StripExactly(s: string)
    ensures exists pieces, tail ::
              Splits(s, pieces, tail) && Cut(s, OUTSIDE) == (if StartsWith(tail, '#') then Text(pieces) else s)
  {
    var pieces, tail := EveryLine(s);
    StripOf(s, pieces, tail);
  }

  lemma CommentBehind(line: string, rest: string)
    requires Cut(line, OUTSIDE) == line && StateAfter(line, OUTSIDE) == OUTSIDE
    ensures Cut(line + " # " + rest, OUTSIDE) == line + " "
  {
    var comment := ['#'] + ([' '] + rest);
    OneChar(' ', OUTSIDE);
    CommentStarts([' '] + rest);
    CutAppend([' '], comment, OUTSIDE);
    CutAppend(line, [' '] + comment, OUTSIDE);
    SpacedComment(line, rest);
    assert line + ([' '] + []) == line + " ";
  }

  lemma SpacedComment(line: string, rest: string)
    ensures line + " # " + rest == line + ([' '] + (['#'] + ([' '] + rest)))
  {
    assert " # " == [' '] + (['#'] + [' ']);
  }

  /** A written field with a comment behind it reads back as the field. */
  lemma FieldWithComment(key: string, v: string, rest: string)
    requires WellNamed(Field(key, v))
    ensures ReadLine(WriteItem(Field(key, v)) + " # " + rest) == Assignment(key, " " + Quote(v))
  {
    var line := WriteItem(Field(key, v));
    assert line == key + " = " + Quote(v);
    FieldIsKept(key, v);
    FieldReadsBack(key, v);
    CommentBehind(line, rest);
    TrimPadded(line);
  }

  lemma TrimPadded(line: string)
    requires Trim(line) == line
    ensures Trim(line + " ") == line
  {
    TrimFixed(line);
    assert [] + line + " " == line + " ";
    TrimExactly([], line, " ");
  }

  // ----- values -----

  /** What stands between the spaces is a quoted value, a bare one, or one of three mistakes. */
  lemma ScalarExactly(a: string, t: string, b: string)
    requires Blank(a) && Tight(t) && Blank(b)
    ensures t == [] ==> ParseScalar(a + t + b) == Err(EmptyValue)
    ensures |t| == 1 && IsQuote(t[0]) ==> ParseScalar(a + t + b) == Err(MalformedQuote)
    ensures |t| >= 2 && IsQuote(t[0]) && t[|t| - 1] == t[0] ==> ParseScalar(a + t + b) == Ok(t[1..|t| - 1])
    ensures t != [] && !(IsQuote(t[0]) && t[|t| - 1] == t[0]) ==>
              ParseScalar(a + t + b)
              == if exists i :: 0 <= i < |t| && t[i] as int in {9, 10, 11, 12, 13, 32} then Err(BareWhitespace)
                 else Ok(t)
  {
    TrimExactly(a, t, b);
  }

  /** How a reader of the written format undoes the escapes. */
  function Unescape(s: string): string {
    if s == [] then []
    else if s[0] == '\\' && |s| > 1 then
      [match s[1] case 'n' => 10 as char case 'r' => 13 as char case 't' => 9 as char case c => c] + Unescape(s[2..])
    else [s[0]] + Unescape(s[1..])
  }

  lemma {:induction false} UnescapeEscape(s: string)
    ensures Unescape(Escape(s)) == s
  {
    if s != [] {
      var e, rest := EscapeChar(s[0]), Escape(s[1..]);
      UnescapeEscape(s[1..]);
      if |e| == 2 {
        assert (e + rest)[2..] == rest;
      } else {
        assert (e + rest)[1..] == rest;
      }
    }
  }

  // ----- lines -----

  /** What a line says once its comment and the spaces around it are gone. */
  lemma LineExactly(line: string, t: string)
    requires t == Trim(Cut(line, OUTSIDE))
    ensures t == [] ==> ReadLine(line) == Ignored
    ensures StartsWith(t, '[') && t[|t| - 1] != ']' ==> ReadLine(line) == BadHeader
    ensures forall name :: t == "[" + name + "]" ==> ReadLine(line) == Header(Trim(name))
    ensures t != [] && t[0] != '[' && '=' !in t ==> ReadLine(line) == Ignored
    ensures forall k, v :: t == k + "=" + v && '=' !in k && !StartsWith(k, '[') ==>
              ReadLine(line) == Assignment(Trim(k), v)
  {
    forall name | t == "[" + name + "]" ensures ReadLine(line) == Header(Trim(name)) {
      assert t[1..|t| - 1] == name;
    }
    forall k, v | t == k + "=" + v && '=' !in k && !StartsWith(k, '[')
      ensures ReadLine(line) == Assignment(Trim(k), v)
    {
      assert t[|k|] == '=' && forall i :: 0 <= i < |k| ==> t[i] == k[i];
      assert t[..|k|] == k && t[|k| + 1..] == v;
      assert t[0] != '[';
    }
  }

  // ----- the first problem -----

  /** The section that the last header of some lines opens. */
  function SectionOf(lines: seq<string>, section: string): string {
    if lines == [] then section
    else
      match ReadLine(lines[|lines| - 1])
      case Header(name) => name
      case _ => SectionOf(lines[..|lines| - 1], section)
  }

  /** What is wrong with line i, if anything. */
  function Trouble(lines: seq<string>, i: nat, section: string, no: nat, wanted: Wanted): Option<Problem>
    requires i < |lines|
  {
    match ReadLine(lines[i])
    case BadHeader => Some(MalformedHeader(no + i))
    case Assignment(key, raw) =>
      (match ParseScalar(raw)
       case Err(e) => if wanted(SectionOf(lines[..i], section), key) then Some(InvalidValue(no + i, e)) else None
       case Ok(_) => None)
    case _ => None
  }

  ghost predicate FirstTrouble(lines: seq<string>, i: nat, section: string, no: nat, wanted: Wanted, problem: Problem) {
    && i < |lines| && Trouble(lines, i, section, no, wanted) == Some(problem)
    && forall j :: 0 <= j < i ==> Trouble(lines, j, section, no, wanted) == None
  }

  /** What line i sets, if anything. */
  function SettingAt(lines: seq<string>, i: nat, section: string, wanted: Wanted): seq<Setting>
    requires i < |lines|
  {
    var here := SectionOf(lines[..i], section);
    match ReadLine(lines[i])
    case Assignment(key, raw) =>
      (match ParseScalar(raw)
       case Ok(value) => if wanted(here, key) then [Setting(here, key, value)] else []
       case Err(_) => [])
    case _ => []
  }

  function SettingsUpTo(lines: seq<string>, n: nat, section: string, wanted: Wanted): seq<Setting>
    requires n <= |lines|
  {
    if n == 0 then [] else SettingsUpTo(lines, n - 1, section, wanted) + SettingAt(lines, n - 1, section, wanted)
  }

  function NextSection(line: string, section: string): string {
    match ReadLine(line) case Header(name) => name case _ => section
  }

  lemma {:induction false} SectionOfTail(lines: seq<string>, i: nat, section: string)
    requires 0 < i <= |lines|
    ensures SectionOf(lines[..i], section) == SectionOf(lines[1..][..i - 1], NextSection(lines[0], section))
  {
    var pre, tail := lines[..i], lines[1..][..i - 1];
    if i == 1 {
      assert pre[..0] == [] && tail == [];
    } else {
      SectionOfTail(lines, i - 1, section);
      assert pre[..i - 1] == lines[..i - 1] && tail[..i - 2] == lines[1..][..i - 2];
      assert pre[i - 1] == tail[i - 2];
    }
  }

  lemma {:induction false} SettingsOfTail(lines: seq<string>, n: nat, section: string, wanted: Wanted)
    requires 0 < n <= |lines|
    ensures SettingsUpTo(lines, n, section, wanted)
         == SettingAt(lines, 0, section, wanted)
            + SettingsUpTo(lines[1..], n - 1, NextSection(lines[0], section), wanted)
  {
    if n == 1 {
      assert SettingsUpTo(lines, 0, section, wanted) == [];
    } else {
      var next := NextSection(lines[0], section);
      SettingsOfTail(lines, n - 1, section, wanted);
      SettingOfTail(lines, n - 1, section, wanted);
      Associates(SettingAt(lines, 0, section, wanted), SettingsUpTo(lines[1..], n - 2, next, wanted),
                 SettingAt(lines, n - 1, section, wanted));
    }
  }

  lemma SettingOfTail(lines: seq<string>, i: nat, section: string, wanted: Wanted)
    requires 0 < i < |lines|
    ensures SettingAt(lines, i, section, wanted)
         == SettingAt(lines[1..], i - 1, NextSection(lines[0], section), wanted)
  {
    SectionOfTail(lines, i, section);
    assert lines[1..][i - 1] == lines[i];
  }

  lemma Associates<T>(a: seq<T>, b: seq<T>, c: seq<T>)
    ensures a + b + c == a + (b + c)
  {
  }

  lemma TroubleOfTail(lines: seq<string>, i: nat, section: string, no: nat, wanted: Wanted)
    requires 0 < i < |lines|
    ensures Trouble(lines, i, section, no, wanted)
            == Trouble(lines[1..], i - 1, NextSection(lines[0], section), no + 1, wanted)
  {
    SectionOfTail(lines, i, section);
    assert lines[1..][i - 1] == lines[i];
  }

  /** The reader stops with the first line in trouble and says which; without one, it returns
      what the lines set, each under the header before it. */
  lemma {:induction false} ReadsFirstTrouble(lines: seq<string>, section: string, no: nat, wanted: Wanted)
    ensures match ReadLines(lines, section, no, wanted)
            case Ok(settings) =>
              && settings == SettingsUpTo(lines, |lines|, section, wanted)
              && forall i :: 0 <= i < |lines| ==> Trouble(lines, i, section, no, wanted) == None
            case Err(problem) => exists i: nat :: FirstTrouble(lines, i, section, no, wanted, problem)
  {
    if lines != [] {
      var next, first := NextSection(lines[0], section), Trouble(lines, 0, section, no, wanted);
      ReadsFirstTrouble(lines[1..], next, no + 1, wanted);
      OneLine(lines, section, no, wanted);
      forall i | 0 < i < |lines|
        ensures Trouble(lines, i, section, no, wanted) == Trouble(lines[1..], i - 1, next, no + 1, wanted)
      {
        TroubleOfTail(lines, i, section, no, wanted);
      }
      if first.Some? {
        assert FirstTrouble(lines, 0, section, no, wanted, first.value);
      } else if ReadLines(lines[1..], next, no + 1, wanted).Err? {
        var problem := ReadLines(lines[1..], next, no + 1, wanted).error;
        var i: nat :| FirstTrouble(lines[1..], i, next, no + 1, wanted, problem);
        assert FirstTrouble(lines, i + 1, section, no, wanted, problem);
      } else {
        SettingsOfTail(lines, |lines|, section, wanted);
      }
    }
  }

  lemma OneLine(lines: seq<string>, section: string, no: nat, wanted: Wanted)
    requires lines != []
    ensures ReadLines(lines, section, no, wanted)
         == match Trouble(lines, 0, section, no, wanted)
            case Some(problem) => Err(problem)
            case None => Prefixed(SettingAt(lines, 0, section, wanted),
                                  ReadLines(lines[1..], NextSection(lines[0], section), no + 1, wanted))
  {
    assert lines[..0] == [];
    var rest := ReadLines(lines[1..], NextSection(lines[0], section), no + 1, wanted);
    assert rest.Ok? ==> [] + rest.value == rest.value;
  }
}
