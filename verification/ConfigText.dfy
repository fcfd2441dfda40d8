/** Lines of a config file: what they mean, and the methods that cut them up in place. */
module ConfigText {
  import opened Prelude
  import opened CStrings

  /** The ISSPACE class of the string library: no vertical tab, no form feed. */
  predicate IsSpace(c: char) {
    c == ' ' || c == '\t' || c == '\n' || c == '\r'
  }

  predicate IsGraph(c: char) {
    '!' <= c <= '~'
  }

  /** Length of the spaces at the start of `s`. */
  function Spaces(s: string): (n: nat)
    ensures n <= |s| && (forall i :: 0 <= i < n ==> IsSpace(s[i])) && (n < |s| ==> !IsSpace(s[n]))
  {
    if s != [] && IsSpace(s[0]) then 1 + Spaces(s[1..]) else 0
  }

  /** Length of the printable word at the start of `s`. */
  function Word(s: string): (n: nat)
    ensures n <= |s| && (forall i :: 0 <= i < n ==> IsGraph(s[i])) && (n < |s| ==> !IsGraph(s[n]))
  {
    if s != [] && IsGraph(s[0]) then 1 + Word(s[1..]) else 0
  }

  lemma WordIs(s: string, n: nat)
    requires n <= |s| && (forall i :: 0 <= i < n ==> IsGraph(s[i])) && (n < |s| ==> !IsGraph(s[n]))
    ensures Word(s) == n
  {
    if n > 0 { WordIs(s[1..], n - 1); }
  }

  // ---- The meaning of a line ----

  datatype Stripped = Comment(text: string) | Text(text: string)

  /** A comment starts at the first '#', unless a string literal that starts before it ends after it. */
  function Strip(s: string): Stripped {
    var h := Chr(s, '#');
    if h == |s| then Text(s) else
    if h == 0 then Comment(s[1..]) else
    if InLiteral(s, h) then Text(s) else Text(s[..h])
  }

  /** The first '"' comes before `h` and the next one after. */
  predicate InLiteral(s: string, h: nat) {
    var q := Chr(s, '"');
    q < h && q < |s| && h < q + 1 + Chr(s[q + 1..], '"') < |s|
  }

  function Value(s: string): string {
    var t := s[Spaces(s)..];
    if t != [] && t[0] == '"' then t[1..][..Chr(t[1..], '"')] else t[..Word(t)]
  }

  datatype Line = Ignored | Assign(key: string, value: string) | Include(path: string) | Reference(path: string)

  const INCLUDE := "include "
  const REFERENCE := "reference "

  function Directive(c: string): Line {
    if INCLUDE <= c then
      (if Value(c[8..]) == [] then Ignored else Include(Value(c[8..])))
    else if REFERENCE <= c then
      (if |c| == 10 then Ignored else Reference(Value(c[10..])))
    else Ignored
  }

  function Assignment(s: string): Line {
    var t := s[Spaces(s)..];
    var rest := t[Word(t)..];
    var e := rest[Spaces(rest)..];
    if e != [] && e[0] == '=' then Assign(t[..Word(t)], Value(e[1..])) else Ignored
  }

  function ParseLine(s: string): Line {
    match Strip(s)
    case Comment(c) => Directive(c)
    case Text(t) => Assignment(t)
  }

  /** The non-empty stretches between newlines, as strtok_r gives them. */
  function Lines(s: string): seq<string> {
    if s == [] then [] else
    var n := Chr(s, '\n');
    WithLine(s[..n], Lines(s[if n < |s| then n + 1 else n..]))
  }

  /** An empty line is passed over. */
  function WithLine(line: string, rest: seq<string>): seq<string> {
    if line == "" then rest else [line] + rest
  }

  /** The lines of a text are its first line, unless it is empty, and the lines of the rest. */
  lemma LinesFrom(text: string, pos: nat, n: nat)
    requires pos < |text| && n == pos + Chr(text[pos..], '\n')
    ensures n <= |text|
    ensures Lines(text[pos..]) == WithLine(text[pos..n], Lines(text[if n < |text| then n + 1 else n..]))
  {
    LinesUnfold(text[pos..], n - pos);
    hide *;
    assert text[pos..][..n - pos] == text[pos..n];
    var m := if n < |text| then n + 1 else n;
    assert text[pos..][m - pos..] == text[m..];
  }

  lemma LinesUnfold(s: string, n: nat)
    requires s != "" && n == Chr(s, '\n')
    ensures n <= |s| && Lines(s) == WithLine(s[..n], Lines(s[if n < |s| then n + 1 else n..]))
  {
    hide WithLine, Chr;
  }

  // ---- Cutting a line up in place ----

  method SkipSpaces(line: array<char>, from: nat, ghost s: string) returns (p: nat)
    requires Holds(line, from, s)
    ensures p == from + Spaces(s) && Holds(line, p, s[Spaces(s)..])
  {
    p := from;
    ghost var n: nat := 0;
    HoldsTail(line, from, s, 0);
    assert from + |s| < line.Length;
    hide *;
    while IsSpace(line[p])
      invariant n <= |s| && p == from + n && Holds(line, p, s[n..])
      invariant Spaces(s) == n + Spaces(s[n..])
      decreases |s| - n
    {
      HoldsTail(line, from, s, n);
      SpacesFrom(s, n);
      HoldsTail(line, from, s, n + 1);
      p, n := p + 1, n + 1;
    }
    HoldsTail(line, from, s, n);
    SpacesFrom(s, n);
  }

  lemma SpacesFrom(s: string, n: nat)
    requires n <= |s|
    ensures Spaces(s[n..]) == if n < |s| && IsSpace(s[n]) then 1 + Spaces(s[n + 1..]) else 0
    ensures !IsSpace('\0')
  {
    if n < |s| { DropDrop(s, n, 1); }
  }

  /** End of the printable word at `from`. */
  method WordEnd(line: array<char>, from: nat, ghost s: string) returns (p: nat)
    requires Holds(line, from, s)
    ensures p == from + Word(s) && Holds(line, p, s[Word(s)..])
  {
    p := from;
    ghost var n: nat := 0;
    HoldsTail(line, from, s, 0);
    assert from + |s| < line.Length;
    hide *;
    while IsGraph(line[p])
      invariant n <= |s| && p == from + n && Holds(line, p, s[n..])
      invariant Word(s) == n + Word(s[n..])
      decreases |s| - n
    {
      HoldsTail(line, from, s, n);
      WordFrom(s, n);
      HoldsTail(line, from, s, n + 1);
      p, n := p + 1, n + 1;
    }
    HoldsTail(line, from, s, n);
    WordFrom(s, n);
  }

  lemma WordFrom(s: string, n: nat)
    requires n <= |s|
    ensures Word(s[n..]) == if n < |s| && IsGraph(s[n]) then 1 + Word(s[n + 1..]) else 0
    ensures !IsGraph('\0')
  {
    if n < |s| { DropDrop(s, n, 1); }
  }

  method QuotedAt(line: array<char>, h: nat, ghost s: string) returns (yes: bool)
    requires Holds(line, 0, s) && h < |s|
    ensures yes == InLiteral(s, h)
  {
    hide Holds, Chr;
    NoNul(line, 0, s);
    var q := FindChar(line, 0, '"', s);
    HoldsTail(line, 0, s, q);
    if line[q] == '\0' || q >= h {
      return false;
    }
    HoldsTail(line, 0, s, q + 1);
    var e := FindChar(line, q + 1, '"', s[q + 1..]);
    NoNul(line, q + 1, s[q + 1..]);
    HoldsTail(line, q + 1, s[q + 1..], e - (q + 1));
    return line[e] != '\0' && e > h;
  }

  /** config_file_strip_comment: the offset of the comment when the whole line is one. */
  method StripComment(line: array<char>, ghost s: string) returns (comment: Option<nat>)
    requires Holds(line, 0, s)
    modifies line
    ensures match Strip(s)
      case Comment(c) => comment == Some(1) && Holds(line, 1, c)
      case Text(t) => comment == None && Holds(line, 0, t)
  {
    hide Holds, Chr, InLiteral;
    var h := FindChar(line, 0, '#', s);
    HoldsTail(line, 0, s, h);
    NoNul(line, 0, s);
    if line[h] == '\0' {
      return None;
    }
    if h == 0 {
      CutAt(line, 0, 0, s);
      return Some(1);
    }
    var literal := QuotedAt(line, h, s);
    if literal {
      return None;
    }
    CutAt(line, 0, h, s);
    return None;
  }

  /** config_file_extract_value. */
  method ExtractValue(line: array<char>, from: nat, ghost s: string) returns (value: string)
    requires Holds(line, from, s)
    modifies line
    ensures value == Value(s)
  {
    var p := SkipSpaces(line, from, s);
    ghost var t := s[Spaces(s)..];
    HoldsTail(line, p, t, 0);
    if line[p] == '"' {
      HoldsTail(line, p, t, 1);
      p := p + 1;
      if line[p] != '"' {
        var e := FindChar(line, p, '"', t[1..]);
        CutAt(line, p, e - p, t[1..]);
        value := Duplicate(line, p, t[1..][..e - p]);
        return;
      }
      assert Chr(t[1..], '"') == 0;
    } else if line[p] != '\0' {
      var e := WordEnd(line, p, t);
      CutAt(line, p, e - p, t);
      value := Duplicate(line, p, t[..e - p]);
      return;
    }
    value := "";
  }

  /** The text half of config_file_parse_line: everything but opening included files. */
  method ReadLine(line: array<char>, ghost s: string) returns (r: Line)
    requires Holds(line, 0, s)
    modifies line
    ensures r == ParseLine(s)
  {
    hide Holds, Strip, Assignment, Directive;
    var comment := StripComment(line, s);
    if comment.Some? {
      r := ReadDirective(line, comment.value, Strip(s).text);
      return;
    }
    r := ReadAssignment(line, Strip(s).text);
  }

  method ReadAssignment(line: array<char>, ghost s: string) returns (r: Line)
    requires Holds(line, 0, s)
    modifies line
    ensures r == Assignment(s)
  {
    hide Holds, Value, Assignment;
    var key, q;
    ghost var v;
    key, q, v := ReadKey(line, s);
    HoldsTail(line, q, v, 0);
    if line[q] != '=' {
      return Ignored;
    }
    HoldsTail(line, q, v, 1);
    var value := ExtractValue(line, q + 1, v[1..]);
    return Assign(key, value);
  }

  /** The word a line starts with, and what follows it after more spaces. */
  method ReadKey(line: array<char>, ghost s: string) returns (key: string, q: nat, ghost v: string)
    requires Holds(line, 0, s)
    ensures Holds(line, q, v)
    ensures Assignment(s) == if v != [] && v[0] == '=' then Assign(key, Value(v[1..])) else Ignored
  {
    hide Holds, Value, Word, Spaces;
    var p := SkipSpaces(line, 0, s);
    ghost var t := s[Spaces(s)..];
    var e := WordEnd(line, p, t);
    key := CopyWord(line, p, e, t);
    ghost var rest := t[Word(t)..];
    q := SkipSpaces(line, e, rest);
    v := rest[Spaces(rest)..];
  }

  /** The characters from `from` up to `to`, one by one. */
  method CopyWord(line: array<char>, from: nat, to: nat, ghost s: string) returns (word: string)
    requires Holds(line, from, s) && from <= to <= from + |s|
    ensures word == s[..to - from]
  {
    word := "";
    var i := from;
    while i < to
      invariant from <= i <= to && |word| == i - from && word == s[..i - from]
    {
      word := word + [line[i]];
      i := i + 1;
    }
  }

  method ReadDirective(line: array<char>, from: nat, ghost c: string) returns (r: Line)
    requires Holds(line, from, c)
    modifies line
    ensures r == Directive(c)
  {
    var isInclude := StartsWith(line, from, INCLUDE, c);
    var isReference := StartsWith(line, from, REFERENCE, c);
    if !isInclude && !isReference {
      return Ignored;
    }
    if isInclude {
      HoldsTail(line, from, c, 8);
      if line[from + 8] == '\0' {
        assert Value(c[8..]) == [];
        return Ignored;
      }
      var path := ExtractValue(line, from + 8, c[8..]);
      return if path == "" then Ignored else Include(path);
    }
    HoldsTail(line, from, c, 10);
    if line[from + 10] == '\0' {
      return Ignored;
    }
    var path := ExtractValue(line, from + 10, c[10..]);
    return Reference(path);
  }
}
