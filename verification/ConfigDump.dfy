/** One line as config_file_dump prints it, and exactly when the parser reads it back. */
module ConfigDump {
  import opened Prelude
  import opened CStrings
  import opened ConfigText

  const OPENING := " = \""

  function DumpLine(key: string, value: string): string {
    key + OPENING + value + "\""
  }

  predicate Graphic(key: string) {
    key != "" && forall i :: 0 <= i < |key| ==> IsGraph(key[i])
  }

  /** Number of '"' in `s`. */
  function Quotes(s: string): nat {
    if s == "" then 0 else (if s[0] == '"' then 1 else 0) + Quotes(s[1..])
  }

  /** No '#' of a dumped line cuts it: the first one stands inside a literal. */
  predicate Uncut(key: string, value: string) {
    if '#' in key then Quotes(key[..Chr(key, '#')]) == 1 else '#' in value ==> '"' !in key
  }

  /** What a caller can check before it stores an entry that must survive a dump. */
  predicate Faithful(key: string, value: string) {
    Graphic(key) && '"' !in value && Uncut(key, value)
  }

  lemma SpacesIs(s: string, n: nat)
    requires n <= |s| && (forall i :: 0 <= i < n ==> IsSpace(s[i])) && (n < |s| ==> !IsSpace(s[n]))
    ensures Spaces(s) == n
  {
    if n > 0 { SpacesIs(s[1..], n - 1); }
  }

  /** A word, an equal sign and an opening quote: the value runs to the next quote. */
  lemma AssignmentOf(key: string, x: string)
    requires Graphic(key)
    ensures Assignment(key + OPENING + x) == Assign(key, x[..Chr(x, '"')])
  {
    var s := key + OPENING + x;
    hide Spaces, Word, Chr;
    SpacesIs(s, 0);
    assert s[0..] == s;
    WordIs(s, |key|);
    assert s[..|key|] == key;
    var rest := OPENING + x;
    assert s[|key|..] == rest;
    SpacesIs(rest, 1);
    var after := [' ', '"'] + x;
    assert rest[1..][1..] == after;
    SpacesIs(after, 1);
    assert after[1..][1..] == x;
  }

  // ---- What separates a key from its value ----

  predicate AllSpaces(s: string) {
    forall i :: 0 <= i < |s| ==> IsSpace(s[i])
  }

  lemma WithoutComment(line: string)
    requires '#' !in line
    ensures ParseLine(line) == Assignment(line)
  {
    hide Assignment;
    ChrAppend(line, "", '#');
  }

  /** A line cut into word, spaces and the rest. */
  lemma AssignmentParts(line: string, w: nat, sp: nat)
    requires line != "" && IsGraph(line[0]) && w + sp <= |line|
    requires (forall i :: 0 <= i < w ==> IsGraph(line[i])) && (w < |line| ==> !IsGraph(line[w]))
    requires AllSpaces(line[w..w + sp]) && (w + sp < |line| ==> !IsSpace(line[w + sp]))
    ensures Assignment(line) == if w + sp < |line| && line[w + sp] == '=' then Assign(line[..w], Value(line[w + sp + 1..]))
                                else Ignored
  {
    hide Spaces, Word, Value;
    var tail := line[w..];
    SpacesIs(line, 0);
    assert line[0..] == line;
    WordIs(line, w);
    assert forall i :: 0 <= i < sp ==> tail[i] == line[w..w + sp][i];
    SpacesIs(tail, sp);
    assert tail[sp..] == line[w + sp..];
    if w + sp < |line| { assert line[w + sp..][1..] == line[w + sp + 1..]; }
  }

  lemma OneKey(line: string)
    requires line != "" && IsGraph(line[0]) && Assignment(line).Assign?
    ensures Assignment(line).key == line[..Word(line)]
  {
    SpacesIs(line, 0);
    assert line[0..] == line;
  }

  /** Without a comment, a word followed by an equal sign assigns exactly when there is a space between the two. */
  lemma SeparatorNeeded(key: string, sep: string, rest: string)
    requires Graphic(key) && AllSpaces(sep) && '#' !in key && '#' !in rest
    ensures ParseLine(key + sep + "=" + rest) == Assign(key, Value(rest)) <==> sep != ""
  {
    hide *;
    var line := key + sep + "=" + rest;
    LineParts(key, sep, rest, line);
    WithoutComment(line);
    if sep != "" {
      AssignmentParts(line, |key|, |sep|);
    } else {
      LongerWord(line, |key|);
      if Assignment(line).Assign? { OneKey(line); }
    }
  }

  lemma LineParts(key: string, sep: string, rest: string, line: string)
    requires Graphic(key) && AllSpaces(sep) && '#' !in key && '#' !in rest && line == key + sep + "=" + rest
    ensures '#' !in line && line != "" && key != "" && |key| + |sep| < |line| && line[|key| + |sep|] == '='
    ensures forall i :: 0 <= i < |key| ==> IsGraph(line[i])
    ensures IsGraph(line[0]) && IsGraph('=') && !IsSpace('=')
    ensures sep != "" ==> !IsGraph(line[|key|])
    ensures AllSpaces(line[|key|..|key| + |sep|]) && line[..|key|] == key && line[|key| + |sep| + 1..] == rest
  {
    assert forall i :: 0 <= i < |sep| ==> sep[i] != '#';
    assert forall i :: 0 <= i < |key| ==> line[i] == key[i];
    assert sep != "" ==> line[|key|] == sep[0];
    assert line[|key|..|key| + |sep|] == sep;
  }

  lemma LongerWord(s: string, n: nat)
    requires n < |s| && forall i :: 0 <= i <= n ==> IsGraph(s[i])
    ensures Word(s) > n
  {
  }

  /** A word with an equal sign inside assigns nothing: key=value is such a word. */
  lemma GluedAssignsNothing(word: string)
    requires Graphic(word) && '#' !in word
    ensures ParseLine(word) == Ignored
  {
    WithoutComment(word);
    hide ParseLine, Assignment;
    AssignmentParts(word, |word|, 0);
  }

  lemma KeyValueIsGlued(line: string)
    requires line == "key=value"
    ensures ParseLine(line) == Ignored
  {
    GluedAssignsNothing(line);
  }

  /** Whatever a line assigns, the key is a printable word. */
  lemma AssignmentIs(s: string)
    requires Assignment(s).Assign?
    ensures Graphic(Assignment(s).key)
  {
    var t := s[Spaces(s)..];
    var rest := t[Word(t)..];
    assert Word(t) == 0 ==> rest == t;
  }

  lemma ValueHolds(s: string, c: char)
    requires c !in s
    ensures c !in Value(s)
  {
    var t := s[Spaces(s)..];
    forall i | 0 <= i < |Value(s)| ensures Value(s)[i] != c {
      if t[0] == '"' { assert Value(s)[i] == s[Spaces(s) + 1 + i]; } else { assert Value(s)[i] == s[Spaces(s) + i]; }
    }
  }

  /** A value that came from a quoted text stops at the first quote. */
  lemma ValueIsPrefix(x: string, v: string)
    ensures x[..Chr(x, '"')] == v ==> |v| <= |x| && v == x[..|v|] && '"' !in v
  {
  }

  lemma ClosedValue(v: string)
    ensures (v + "\"")[..Chr(v + "\"", '"')] == v <==> '"' !in v
  {
    var x := v + "\"";
    if '"' !in v {
      assert forall i :: 0 <= i < |v| ==> v[i] in v;
      ChrIs(x, '"', |v|);
      assert x[..|v|] == v;
    } else {
      ValueIsPrefix(x, v);
    }
  }

  // ---- The comment rule on a dumped line ----

  /** `n` quotes stand before the place `h`. */
  lemma {:induction false} QuotesSplit(s: string, q: nat)
    requires q == Chr(s, '"')
    ensures Quotes(s) == if q == |s| then 0 else 1 + Quotes(s[q + 1..])
    ensures q == |s| <==> Quotes(s) == 0
  {
    if s != "" && s[0] != '"' {
      QuotesSplit(s[1..], Chr(s[1..], '"'));
      if q < |s| { assert s[1..][q..] == s[q + 1..]; }
    }
  }

  /** A place is inside a literal exactly when one quote comes before it and another after. */
  lemma LiteralIs(a: string, b: string)
    requires |b| > 0 && b[0] != '"'
    ensures InLiteral(a + b, |a|) <==> Quotes(a) == 1 && '"' in b
  {
    hide Quotes;
    ChrAppend(a, b, '"');
    QuotesSplit(a, Chr(a, '"'));
    if Chr(a, '"') < |a| { LiteralAfter(a, b, Chr(a, '"')); }
  }

  lemma LiteralAfter(a: string, b: string, q: nat)
    requires q == Chr(a, '"') == Chr(a + b, '"') < |a| && |b| > 0 && b[0] != '"'
    ensures InLiteral(a + b, |a|) <==> Quotes(a) == 1 && '"' in b
  {
    hide Chr, Quotes;
    QuotesSplit(a, q);
    var rest := a[q + 1..];
    assert (a + b)[q + 1..] == rest + b;
    ChrAppend(rest, b, '"');
    QuotesSplit(rest, Chr(rest, '"'));
    ChrAppend(b, "", '"');
    assert Chr(b, '"') != 0;
  }

  lemma {:induction false} QuotesAppend(a: string, b: string)
    ensures Quotes(a + b) == Quotes(a) + Quotes(b)
    ensures Quotes(a) == 0 <==> '"' !in a
  {
    if a == "" {
      assert a + b == b;
    } else {
      QuotesAppend(a[1..], b);
      assert (a + b)[1..] == a[1..] + b;
      assert a == [a[0]] + a[1..];
    }
  }

  lemma KeyUncut(key: string, value: string)
    requires '#' in key
    ensures Chr(key, '#') < |key|
    ensures Strip(DumpLine(key, value)) ==
      if Chr(key, '#') == 0 then Comment(DumpLine(key, value)[1..])
      else if Uncut(key, value) then Text(DumpLine(key, value)) else Text(key[..Chr(key, '#')])
  {
    var rest := OPENING + value + "\"";
    ConcatAssociates(key, OPENING, value);
    ConcatAssociates(key, OPENING + value, "\"");
    assert rest[3] == '"';
    HashInKey(key, rest);
  }

  lemma HashInKey(key: string, rest: string)
    requires '#' in key && '"' in rest
    ensures Chr(key, '#') < |key|
    ensures Strip(key + rest) ==
      if Chr(key, '#') == 0 then Comment((key + rest)[1..])
      else if Quotes(key[..Chr(key, '#')]) == 1 then Text(key + rest) else Text(key[..Chr(key, '#')])
  {
    hide Chr, Quotes, InLiteral;
    ChrAppend(key, rest, '#');
    var h := Chr(key, '#');
    assert (key + rest)[..h] == key[..h];
    LiteralInKey(key, rest, h);
  }

  lemma LiteralInKey(key: string, rest: string, h: nat)
    requires h < |key| && key[h] == '#' && '"' in rest
    ensures InLiteral(key + rest, h) <==> Quotes(key[..h]) == 1
  {
    hide Quotes, InLiteral;
    var b := key[h..] + rest;
    assert key + rest == key[..h] + b;
    assert '"' in b by { var i :| 0 <= i < |rest| && rest[i] == '"'; assert b[|key| - h + i] == '"'; }
    LiteralIs(key[..h], b);
  }

  lemma ValueUncut(key: string, value: string)
    requires '#' !in key && '"' !in value
    ensures Strip(DumpLine(key, value)) ==
      if Uncut(key, value) then Text(DumpLine(key, value)) else Text(key + OPENING + value[..Chr(value, '#')])
  {
    hide Chr, Quotes, InLiteral;
    var line := DumpLine(key, value);
    var front, back := key + OPENING, value + "\"";
    OpeningQuotes();
    assert line == front + back;
    var p := Chr(value, '#');
    ChrAppend(key, OPENING, '#');
    ChrAppend(front, back, '#');
    ChrAppend(value, "\"", '#');
    if '#' in value {
      var a, b := front + value[..p], value[p..] + "\"";
      assert line == a + b;
      assert b[|b| - 1] == '"' && b[0] == '#';
      LiteralIs(a, b);
      QuotesAppend(front, value[..p]);
      QuotesAppend(key, OPENING);
      QuotesAppend(value[..p], "");
      assert line[..|a|] == a;
    }
  }

  lemma OpeningQuotes()
    ensures Quotes(OPENING) == 1 && Chr(OPENING, '#') == 4 && Chr("\"", '#') == 1
  {
    assert OPENING[1..][1..][1..][1..] == "";
  }

  // ---- The result ----

  /** The parser gives back the key and the value of a dumped line exactly when they are faithful. */
  lemma DumpLineParses(key: string, value: string)
    ensures ParseLine(DumpLine(key, value)) == Assign(key, value) <==> Faithful(key, value)
  {
    if Faithful(key, value) {
      FaithfulParses(key, value);
    } else if ParseLine(DumpLine(key, value)) == Assign(key, value) {
      ParsedIsFaithful(key, value);
    }
  }

  lemma FaithfulParses(key: string, value: string)
    requires Faithful(key, value)
    ensures ParseLine(DumpLine(key, value)) == Assign(key, value)
  {
    hide Assignment, Strip, Chr, Quotes;
    if '#' in key { KeyUncut(key, value); FirstIsQuoted(key); } else { ValueUncut(key, value); }
    assert DumpLine(key, value) == key + OPENING + (value + "\"");
    AssignmentOf(key, value + "\"");
    ClosedValue(value);
  }

  lemma FirstIsQuoted(key: string)
    requires Chr(key, '#') <= |key| && Quotes(key[..Chr(key, '#')]) == 1
    ensures Chr(key, '#') > 0
  {
  }

  lemma ParsedIsFaithful(key: string, value: string)
    requires ParseLine(DumpLine(key, value)) == Assign(key, value)
    ensures Faithful(key, value)
  {
    hide Assignment, Chr, Quotes, Value;
    var line := DumpLine(key, value);
    match Strip(line) {
      case Comment(c) =>
      case Text(t) => AssignmentIs(t);
    }
    AssignmentOf(key, value + "\"");
    assert line == key + OPENING + (value + "\"");
    if '#' in key {
      KeyUncut(key, value);
      if !Uncut(key, value) { ShortKey(key[..Chr(key, '#')], key, value); }
    } else {
      LineWhole(key, value);
    }
    ClosedValue(value);
  }

  lemma ShortKey(t: string, key: string, value: string)
    requires |t| < |key|
    ensures Assignment(t) != Assign(key, value)
  {
  }

  lemma LineWhole(key: string, value: string)
    requires '#' !in key && Graphic(key) && ParseLine(DumpLine(key, value)) == Assign(key, value)
    ensures '"' !in value && Uncut(key, value)
  {
    NoQuoteKept(key, value);
    hide *;
    if '#' in value {
      ValueUncut(key, value);
      if !Uncut(key, value) { NotCut(key, value); }
    } else {
      NoHash(key, value);
    }
  }

  lemma NoHash(key: string, value: string)
    requires '#' !in key && '#' !in value
    ensures Uncut(key, value)
  {
  }

  lemma NotCut(key: string, value: string)
    requires Graphic(key) && '#' in value && '"' !in value && ParseLine(DumpLine(key, value)) == Assign(key, value)
    ensures Strip(DumpLine(key, value)) != Text(key + OPENING + value[..Chr(value, '#')])
  {
    CutValue(key, value);
    hide Assignment, Strip, Chr;
  }

  lemma NoQuoteKept(key: string, value: string)
    requires '#' !in key && Graphic(key) && ParseLine(DumpLine(key, value)) == Assign(key, value)
    ensures '"' !in value
  {
    hide Assignment, Quotes;
    var line := DumpLine(key, value);
    var front, back := key + OPENING, value + "\"";
    assert line == front + back;
    var h := Chr(line, '#');
    var t := Strip(line).text;
    ChrAppend(key, OPENING, '#');
    OpeningQuotes();
    ChrAppend(front, back, '#');
    if t == line {
      AssignmentOf(key, back);
      ClosedValue(value);
    } else {
      assert h >= |front|;
      var x := back[..h - |front|];
      assert t == front + x;
      AssignmentOf(key, x);
      ValueIsPrefix(x, value);
      ChrAppend(value, "\"", '#');
    }
  }

  lemma CutValue(key: string, value: string)
    requires Graphic(key) && '#' in value && '"' !in value
    ensures Assignment(key + OPENING + value[..Chr(value, '#')]) != Assign(key, value)
  {
    var p := Chr(value, '#');
    ChrAppend(value, "", '#');
    AssignmentOf(key, value[..p]);
    ValueIsPrefix(value[..p], value);
  }
}
