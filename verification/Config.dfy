/** The line-based configuration format: a writer that escapes values and a reader that strips
    comments, trims, splits at the first equals sign and unquotes, but does not unescape. */
module Config {
  import opened Wrappers
  import opened Getline

  // ----- trimming -----

  predicate IsSpace(c: char) {
    c == ' ' || '\t' <= c <= '\r'
  }

  function TrimLeft(s: string): string {
    if s != [] && IsSpace(s[0]) then TrimLeft(s[1..]) else s
  }

  function TrimRight(s: string): string {
    if s != [] && IsSpace(s[|s| - 1]) then TrimRight(s[..|s| - 1]) else s
  }

  function Trim(s: string): string {
    TrimRight(TrimLeft(s))
  }

  method TrimCopy(text: string) returns (r: string)
    ensures r == Trim(text)
  {
    var begin := 0;
    while begin < |text| && IsSpace(text[begin])
      invariant begin <= |text|
      invariant TrimLeft(text[begin..]) == TrimLeft(text)
    {
      begin := begin + 1;
    }
    var end := |text|;
    assert text[begin..end] == text[begin..];
    while end > begin && IsSpace(text[end - 1])
      invariant begin <= end <= |text|
      invariant TrimRight(text[begin..end]) == TrimRight(text[begin..])
    {
      assert text[begin..end][..end - begin - 1] == text[begin..end - 1];
      end := end - 1;
    }
    return text[begin..end];
  }

  // ----- comments -----

  /** Where the scan for a comment stands. */
  datatype Quoting = Quoting(inSingle: bool, inDouble: bool, escaped: bool)

  const OUTSIDE := Quoting(false, false, false)
  const INSIDE := Quoting(false, true, false)

  function Next(q: Quoting, c: char): Quoting {
    if q.escaped then q.(escaped := false)
    else if c == '\\' && (q.inSingle || q.inDouble) then q.(escaped := true)
    else if c == '"' && !q.inSingle then q.(inDouble := !q.inDouble)
    else if c == '\'' && !q.inDouble then q.(inSingle := !q.inSingle)
    else q
  }

  predicate StartsComment(q: Quoting, c: char) {
    c == '#' && q == OUTSIDE
  }

  /** What is left of s when the comment found from state q on is cut off. */
  function Cut(s: string, q: Quoting): string {
    if s == [] || StartsComment(q, s[0]) then [] else [s[0]] + Cut(s[1..], Next(q, s[0]))
  }

  function StateAfter(s: string, q: Quoting): Quoting {
    if s == [] then q else StateAfter(s[1..], Next(q, s[0]))
  }

  lemma CutStep(text: string, i: nat, q: Quoting)
    requires i < |text|
    ensures StartsComment(q, text[i]) ==> text[..i] + Cut(text[i..], q) == text[..i]
    ensures !StartsComment(q, text[i]) ==>
            text[..i] + Cut(text[i..], q) == text[..i + 1] + Cut(text[i + 1..], Next(q, text[i]))
  {
    assert text[i..][1..] == text[i + 1..] && text[..i + 1] == text[..i] + [text[i]];
  }

  method StripInlineComment(text: string) returns (r: string)
    ensures r == Cut(text, OUTSIDE)
  {
    var inSingle, inDouble, escaped := false, false, false;
    for i := 0 to |text|
      invariant Cut(text, OUTSIDE) == text[..i] + Cut(text[i..], Quoting(inSingle, inDouble, escaped))
    {
      var ch := text[i];
      ghost var q := Quoting(inSingle, inDouble, escaped);
      CutStep(text, i, q);
      if escaped {
        escaped := false;
      } else if ch == '\\' && (inSingle || inDouble) {
        escaped := true;
      } else if ch == '"' && !inSingle {
        inDouble := !inDouble;
      } else if ch == '\'' && !inDouble {
        inSingle := !inSingle;
      } else if ch == '#' && !inSingle && !inDouble {
        return text[..i];
      }
    }
    return text;
  }

  lemma {:induction false} CutAppend(s: string, t: string, q: Quoting)
    requires Cut(s, q) == s
    ensures Cut(s + t, q) == s + Cut(t, StateAfter(s, q))
    ensures StateAfter(s + t, q) == StateAfter(t, StateAfter(s, q))
  {
    if s == [] {
      assert s + t == t;
    } else {
      assert (s + t)[1..] == s[1..] + t;
      CutAppend(s[1..], t, Next(q, s[0]));
    }
  }

  lemma OneChar(c: char, q: Quoting)
    ensures Cut([c], q) == if StartsComment(q, c) then [] else [c]
    ensures StateAfter([c], q) == Next(q, c)
  {
    assert [c][1..] == [];
  }

  // ----- values -----

  datatype ScalarError = EmptyValue | MalformedQuote | BareWhitespace

  function ParseScalar(raw: string): Result<string, ScalarError> {
    var t := Trim(raw);
    if t == [] then Err(EmptyValue)
    else if t[0] == t[|t| - 1] && (t[0] == '"' || t[0] == '\'') then
      if |t| < 2 then Err(MalformedQuote) else Ok(t[1..|t| - 1])
    else if exists i :: 0 <= i < |t| && IsSpace(t[i]) then Err(BareWhitespace)
    else Ok(t)
  }

  method ParseConfigScalar(raw: string) returns (r: Result<string, ScalarError>)
    ensures r == ParseScalar(raw)
  {
    var trimmed := TrimCopy(raw);
    if trimmed == [] {
      return Err(EmptyValue);
    }
    var front, back := trimmed[0], trimmed[|trimmed| - 1];
    if (front == '"' && back == '"') || (front == '\'' && back == '\'') {
      if |trimmed| < 2 {
        return Err(MalformedQuote);
      }
      return Ok(trimmed[1..|trimmed| - 1]);
    }
    for i := 0 to |trimmed|
      invariant forall k :: 0 <= k < i ==> !IsSpace(trimmed[k])
    {
      if IsSpace(trimmed[i]) {
        return Err(BareWhitespace);
      }
    }
    return Ok(trimmed);
  }

  // ----- escaping -----

  predicate Special(c: char) {
    c == '\\' || c == '"' || c == '\n' || c == '\r' || c == '\t'
  }

  function EscapeChar(c: char): string {
    if c == '\\' then "\\\\"
    else if c == '"' then "\\\""
    else if c == '\n' then "\\n"
    else if c == '\r' then "\\r"
    else if c == '\t' then "\\t"
    else [c]
  }

  function Escape(s: string): string {
    if s == [] then [] else EscapeChar(s[0]) + Escape(s[1..])
  }

  method TomlEscape(s: string) returns (out: string)
    ensures out == Escape(s)
  {
    out := [];
    for i := 0 to |s|
      invariant out + Escape(s[i..]) == Escape(s)
    {
      assert s[i..][1..] == s[i + 1..];
      assert out + EscapeChar(s[i]) + Escape(s[i + 1..]) == out + Escape(s[i..]);
      out := out + EscapeChar(s[i]);
    }
  }

  lemma EscapeCharStaysInside(c: char)
    ensures var e := EscapeChar(c); Cut(e, INSIDE) == e && StateAfter(e, INSIDE) == INSIDE && LF !in e
  {
    var e := EscapeChar(c);
    var q := Next(INSIDE, e[0]);
    assert e[1..] == [] || e[1..] == [e[1]];
    if |e| == 2 {
      assert e[1..][1..] == [];
      assert Cut(e[1..], q) == e[1..] && StateAfter(e[1..], q) == Next(q, e[1]) == INSIDE;
    }
    assert e == [e[0]] + e[1..];
  }

  /** An escaped value is one line, and passed over inside double quotes it leaves the scan
      inside them. */
  lemma {:induction false} EscapeStaysInside(s: string)
    ensures Cut(Escape(s), INSIDE) == Escape(s) && StateAfter(Escape(s), INSIDE) == INSIDE
    ensures LF !in Escape(s)
  {
    if s != [] {
      var e := EscapeChar(s[0]);
      EscapeCharStaysInside(s[0]);
      CutAppend(e, Escape(s[1..]), INSIDE);
      EscapeStaysInside(s[1..]);
    }
  }

  lemma {:induction false} EscapeGrows(s: string)
    ensures |Escape(s)| >= |s|
    ensures |Escape(s)| == |s| <==> forall i :: 0 <= i < |s| ==> !Special(s[i])
    ensures |Escape(s)| == |s| ==> Escape(s) == s
  {
    if s != [] {
      EscapeGrows(s[1..]);
      assert s == [s[0]] + s[1..];
      assert (forall i :: 0 <= i < |s| ==> !Special(s[i])) ==> forall i :: 0 <= i < |s[1..]| ==> !Special(s[1..][i]);
    }
  }

  lemma EscapeIsIdentityExactly(s: string)
    ensures Escape(s) == s <==> forall i :: 0 <= i < |s| ==> !Special(s[i])
  {
    EscapeGrows(s);
  }

  lemma EscapeCharPrefixFree(c: char, d: char, x: string, y: string)
    requires EscapeChar(c) + x == EscapeChar(d) + y
    ensures c == d && x == y
  {
    var e, f := EscapeChar(c), EscapeChar(d);
    assert e[0] == (e + x)[0] == (f + y)[0] == f[0];
    if |e| == 2 && |f| == 2 {
      assert e[1] == (e + x)[1] == (f + y)[1] == f[1];
    }
    assert x == (e + x)[|e|..] && y == (f + y)[|f|..];
  }

  /** Different values are written differently. */
  lemma {:induction false} EscapeInjective(s: string, t: string)
    requires Escape(s) == Escape(t)
    ensures s == t
  {
    EscapeGrows(s);
    EscapeGrows(t);
    if s != [] && t != [] {
      EscapeCharPrefixFree(s[0], t[0], Escape(s[1..]), Escape(t[1..]));
      EscapeInjective(s[1..], t[1..]);
      assert s == [s[0]] + s[1..] && t == [t[0]] + t[1..];
    }
  }

  // ----- the reader -----

  datatype Line = Ignored | Header(name: string) | BadHeader | Assignment(key: string, raw: string)

  /** Where c first stands in s, or |s|. */
  function IndexOf(s: string, c: char): (n: nat)
    ensures n <= |s| && (forall i :: 0 <= i < n ==> s[i] != c) && (n < |s| ==> s[n] == c)
  {
    if s == [] || s[0] == c then 0 else 1 + IndexOf(s[1..], c)
  }

  /** A line with its comment cut off and trimmed; a line without an equals sign says nothing. */
  function ReadLine(line: string): Line {
    var s := Trim(Cut(line, OUTSIDE));
    if s == [] then Ignored
    else if s[0] == '[' then
      if s[|s| - 1] != ']' then BadHeader else Header(Trim(s[1..|s| - 1]))
    else
      var eq := IndexOf(s, '=');
      if eq == |s| then Ignored else Assignment(Trim(s[..eq]), s[eq + 1..])
  }

  datatype Setting = Setting(section: string, key: string, value: string)

  datatype Problem = MalformedHeader(line: nat) | InvalidValue(line: nat, error: ScalarError)

  type Wanted = (string, string) -> bool

  /** Reads on from line number `no` in the given section; a value nobody wants is not even
      parsed. */
  function ReadLines(lines: seq<string>, section: string, no: nat, wanted: Wanted): Result<seq<Setting>, Problem> {
    if lines == [] then Ok([])
    else
      match ReadLine(lines[0])
      case Ignored => ReadLines(lines[1..], section, no + 1, wanted)
      case BadHeader => Err(MalformedHeader(no))
      case Header(name) => ReadLines(lines[1..], name, no + 1, wanted)
      case Assignment(key, raw) =>
        if !wanted(section, key) then ReadLines(lines[1..], section, no + 1, wanted)
        else
          match ParseScalar(raw)
          case Err(e) => Err(InvalidValue(no, e))
          case Ok(value) => Prefixed([Setting(section, key, value)], ReadLines(lines[1..], section, no + 1, wanted))
  }

  function Prefixed(head: seq<Setting>, r: Result<seq<Setting>, Problem>): Result<seq<Setting>, Problem> {
    if r.Ok? then Ok(head + r.value) else r
  }

  method SplitLine(line: string) returns (r: Line)
    ensures r == ReadLine(line)
  {
    var code := StripInlineComment(line);
    var stripped := TrimCopy(code);
    if stripped == [] {
      return Ignored;
    }
    if stripped[0] == '[' {
      if stripped[|stripped| - 1] != ']' {
        return BadHeader;
      }
      var name := TrimCopy(stripped[1..|stripped| - 1]);
      return Header(name);
    }
    var eq := IndexOf(stripped, '=');
    if eq == |stripped| {
      return Ignored;
    }
    var key := TrimCopy(stripped[..eq]);
    return Assignment(key, stripped[eq + 1..]);
  }

  method ReadManifest(text: string, wanted: Wanted) returns (r: Result<seq<Setting>, Problem>)
    ensures r == ReadLines(Lines(text), [], 1, wanted)
  {
    var lines := Lines(text);
    var settings: seq<Setting> := [];
    var section: string := [];
    assert lines[0..] == lines && forall v: seq<Setting> :: [] + v == v;
    for k := 0 to |lines|
      invariant ReadLines(lines, [], 1, wanted) == Prefixed(settings, ReadLines(lines[k..], section, k + 1, wanted))
    {
      assert lines[k..][0] == lines[k] && lines[k..][1..] == lines[k + 1..];
      var line := SplitLine(lines[k]);
      match line
      case Ignored =>
      case BadHeader => return Err(MalformedHeader(k + 1));
      case Header(name) => section := name;
      case Assignment(key, raw) =>
        if wanted(section, key) {
          var value := ParseConfigScalar(raw);
          if value.Err? {
            return Err(InvalidValue(k + 1, value.error));
          }
          PrefixedTwice(settings, [Setting(section, key, value.value)],
                        ReadLines(lines[k + 1..], section, k + 2, wanted));
          settings := settings + [Setting(section, key, value.value)];
        }
    }
    assert settings + [] == settings;
    return Ok(settings);
  }

  lemma PrefixedTwice(a: seq<Setting>, b: seq<Setting>, r: Result<seq<Setting>, Problem>)
    ensures Prefixed(a, Prefixed(b, r)) == Prefixed(a + b, r)
  {
    if r.Ok? {
      assert a + (b + r.value) == a + b + r.value;
    }
  }

  // ----- the writer -----

  datatype Item = Empty | Section(name: string) | Field(key: string, value: string)

  function WriteItem(item: Item): string {
    match item
    case Empty => ""
    case Section(name) => "[" + name + "]"
    case Field(key, value) => key + " = \"" + Escape(value) + "\""
  }

  function WriteItems(items: seq<Item>): seq<string> {
    if items == [] then [] else [WriteItem(items[0])] + WriteItems(items[1..])
  }

  /** Nothing in a name is mistaken for a comment, a quote or a line end. */
  predicate Plain(s: string) {
    forall i :: 0 <= i < |s| ==> s[i] != '#' && s[i] != '"' && s[i] != '\'' && s[i] != LF
  }

  predicate WellNamed(item: Item) {
    match item
    case Empty => true
    case Section(name) => Plain(name) && Trim(name) == name
    case Field(key, _) => key != [] && Plain(key) && key[0] != '[' && '=' !in key && Trim(key) == key
  }

  /** What reading should give: the values in the form they were written in, or the originals. */
  function Expected(items: seq<Item>, section: string, wanted: Wanted, escaped: bool): seq<Setting> {
    if items == [] then []
    else
      match items[0]
      case Empty => Expected(items[1..], section, wanted, escaped)
      case Section(name) => Expected(items[1..], name, wanted, escaped)
      case Field(key, value) =>
        var rest := Expected(items[1..], section, wanted, escaped);
        if wanted(section, key) then [Setting(section, key, if escaped then Escape(value) else value)] + rest else rest
  }

  // ----- reading back what was written -----

  lemma {:induction false} TrimShorter(s: string)
    ensures |TrimLeft(s)| <= |s| && |TrimRight(s)| <= |s|
  {
    if s != [] {
      TrimShorter(s[1..]);
      TrimShorter(s[..|s| - 1]);
    }
  }

  lemma TrimFixed(s: string)
    ensures Trim(s) == s <==> s == [] || (!IsSpace(s[0]) && !IsSpace(s[|s| - 1]))
  {
    TrimShorter(TrimLeft(s));
    if s != [] && IsSpace(s[0]) {
      TrimShorter(s[1..]);
    } else if s != [] && IsSpace(s[|s| - 1]) {
      TrimShorter(s[..|s| - 1]);
    }
  }

  lemma {:induction false} PlainStaysOutside(s: string)
    requires Plain(s)
    ensures Cut(s, OUTSIDE) == s && StateAfter(s, OUTSIDE) == OUTSIDE
  {
    if s != [] {
      assert Next(OUTSIDE, s[0]) == OUTSIDE && Plain(s[1..]);
      PlainStaysOutside(s[1..]);
    }
  }

  function Quote(v: string): string {
    "\"" + Escape(v) + "\""
  }

  lemma QuoteIsKept(v: string)
    ensures Cut(Quote(v), OUTSIDE) == Quote(v) && LF !in Quote(v)
    ensures ParseScalar(" " + Quote(v)) == Ok(Escape(v))
  {
    EscapeStaysInside(v);
    CutAppend(Escape(v), "\"", INSIDE);
    assert Cut("\"", INSIDE) == "\"";
    var q := Quote(v);
    assert q[1..] == Escape(v) + "\"" && q[0] == '"';
    assert Next(OUTSIDE, q[0]) == INSIDE;
    TrimFixed(q);
    assert (" " + q)[1..] == q && TrimLeft(" " + q) == TrimLeft(q) == q;
    assert q[1..|q| - 1] == Escape(v);
  }

  lemma QuoteEndsOutside(v: string)
    ensures StateAfter(Quote(v), OUTSIDE) == OUTSIDE
  {
    var inner := Escape(v) + ['"'];
    EscapeStaysInside(v);
    OneChar('"', INSIDE);
    OneChar('"', OUTSIDE);
    CutAppend(Escape(v), ['"'], INSIDE);
    CutAppend(['"'], inner, OUTSIDE);
    assert Quote(v) == ['"'] + inner;
  }

  lemma SplitsAtFirstEquals(key: string, q: string)
    requires key != [] && '=' !in key && Trim(key) == key
    ensures var s := key + " = " + q;
            var eq := IndexOf(s, '=');
            eq == |key| + 1 && Trim(s[..eq]) == key && s[eq + 1..] == " " + q
  {
    var s := key + " = " + q;
    assert s[|key| + 1] == '=' && forall i :: 0 <= i < |key| + 1 ==> s[i] != '=';
    var padded := key + " ";
    assert s[..|key| + 1] == padded && s[|key| + 2..] == " " + q;
    TrimFixed(key);
    assert padded[0] == key[0] && padded[..|key|] == key && padded[|key|] == ' ';
    assert TrimLeft(padded) == padded && TrimRight(padded) == TrimRight(key);
    assert TrimLeft(key) == key;
  }

  lemma FieldIsKept(key: string, v: string)
    requires WellNamed(Field(key, v))
    ensures var line := key + " = " + Quote(v);
            Cut(line, OUTSIDE) == line && StateAfter(line, OUTSIDE) == OUTSIDE && Trim(line) == line && LF !in line
  {
    var head := key + " = ";
    var line := head + Quote(v);
    PlainStaysOutside(head);
    QuoteIsKept(v);
    QuoteEndsOutside(v);
    CutAppend(head, Quote(v), OUTSIDE);
    TrimFixed(key);
    TrimFixed(line);
    assert line[0] == key[0] && line[|line| - 1] == Quote(v)[|Quote(v)| - 1] == '"';
  }

  lemma FieldReadsBack(key: string, v: string)
    requires WellNamed(Field(key, v))
    ensures ReadLine(WriteItem(Field(key, v))) == Assignment(key, " " + Quote(v))
    ensures LF !in WriteItem(Field(key, v))
  {
    var line := WriteItem(Field(key, v));
    assert line == key + " = " + Quote(v);
    FieldIsKept(key, v);
    SplitsAtFirstEquals(key, Quote(v));
    assert line[0] == key[0];
  }

  lemma SectionReadsBack(name: string)
    requires WellNamed(Section(name))
    ensures ReadLine(WriteItem(Section(name))) == Header(name)
    ensures LF !in WriteItem(Section(name))
  {
    var line := WriteItem(Section(name));
    PlainStaysOutside(line);
    TrimFixed(line);
    assert line[1..|line| - 1] == name;
  }

  lemma ItemReadsBack(item: Item, lines: seq<string>, section: string, no: nat, wanted: Wanted)
    requires WellNamed(item) && lines != [] && lines[0] == WriteItem(item)
    ensures LF !in lines[0]
    ensures item.Empty? ==> ReadLines(lines, section, no, wanted) == ReadLines(lines[1..], section, no + 1, wanted)
    ensures item.Section? ==> ReadLines(lines, section, no, wanted) == ReadLines(lines[1..], item.name, no + 1, wanted)
    ensures item.Field? ==>
              var rest := ReadLines(lines[1..], section, no + 1, wanted);
              ReadLines(lines, section, no, wanted)
              == if wanted(section, item.key) then Prefixed([Setting(section, item.key, Escape(item.value))], rest)
                else rest
  {
    match item
    case Empty =>
    case Section(name) => SectionReadsBack(name);
    case Field(key, v) =>
      FieldReadsBack(key, v);
      QuoteIsKept(v);
  }

  /** Any document of well-named items comes back item by item, its values escaped. */
  lemma {:induction false} LinesReadBack(items: seq<Item>, section: string, no: nat, wanted: Wanted)
    requires forall k :: 0 <= k < |items| ==> WellNamed(items[k])
    ensures ReadLines(WriteItems(items), section, no, wanted) == Ok(Expected(items, section, wanted, true))
    ensures forall line :: line in WriteItems(items) ==> LF !in line
  {
    if items != [] {
      var lines := WriteItems(items);
      assert lines[0] == WriteItem(items[0]) && lines[1..] == WriteItems(items[1..]);
      LinesReadBack(items[1..], if items[0].Section? then items[0].name else section, no + 1, wanted);
      ItemReadsBack(items[0], lines, section, no, wanted);
    }
  }

  /** A field that somebody wants has none of the five escaped characters. */
  predicate CleanWhereWanted(items: seq<Item>, section: string, wanted: Wanted) {
    items == [] ||
    match items[0]
    case Empty => CleanWhereWanted(items[1..], section, wanted)
    case Section(name) => CleanWhereWanted(items[1..], name, wanted)
    case Field(key, v) =>
      (wanted(section, key) ==> forall i :: 0 <= i < |v| ==> !Special(v[i]))
      && CleanWhereWanted(items[1..], section, wanted)
  }

  lemma {:induction false} ReadsOriginalsExactly(items: seq<Item>, section: string, wanted: Wanted)
    ensures |Expected(items, section, wanted, true)| == |Expected(items, section, wanted, false)|
    ensures Expected(items, section, wanted, true) == Expected(items, section, wanted, false)
            <==> CleanWhereWanted(items, section, wanted)
  {
    if items != [] {
      match items[0] {
        case Empty => ReadsOriginalsExactly(items[1..], section, wanted);
        case Section(name) => ReadsOriginalsExactly(items[1..], name, wanted);
        case Field(key, v) =>
          ReadsOriginalsExactly(items[1..], section, wanted);
          EscapeIsIdentityExactly(v);
          if wanted(section, key) {
            var a, b := Expected(items, section, wanted, true), Expected(items, section, wanted, false);
            assert a[1..] == Expected(items[1..], section, wanted, true) && a[0].value == Escape(v);
            assert b[1..] == Expected(items[1..], section, wanted, false) && b[0].value == v;
          }
      }
    }
  }

  /** Writing a document as a file and reading it gives the escaped values, and the original
      ones exactly when no wanted value has a character that the writer escapes. */
  lemma ManifestRoundTrip(items: seq<Item>, wanted: Wanted)
    requires forall k :: 0 <= k < |items| ==> WellNamed(items[k])
    ensures var read := ReadLines(Lines(Unlines(WriteItems(items))), [], 1, wanted);
            && read == Ok(Expected(items, [], wanted, true))
            && (read == Ok(Expected(items, [], wanted, false)) <==> CleanWhereWanted(items, [], wanted))
  {
    LinesReadBack(items, [], 1, wanted);
    LinesOfUnlines(WriteItems(items));
    ReadsOriginalsExactly(items, [], wanted);
  }
}
