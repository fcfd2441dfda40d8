/** What a line of a config file means when a person writes it: words, quotes, spaces and comments, character by
    character. */
module ConfigSyntax {
  import opened Prelude
  import opened CStrings
  import opened ConfigText
  import opened ConfigDump
  import opened ConfigOrder
  import opened ConfigItems
  import opened ConfigRoundTrip
  import opened ConfigRuns
  import opened ConfigStore

  // ---- Classes of characters, spelled out ----

  /** Only blanks, tabs and line ends. */
  predicate Blank(s: string) {
    forall i :: 0 <= i < |s| ==> s[i] == ' ' || s[i] == '\t' || s[i] == '\n' || s[i] == '\r'
  }

  /** A word of the characters from '!' to '~', none of them '#'. */
  predicate Clean(w: string) {
    w != "" && forall i :: 0 <= i < |w| ==> '!' <= w[i] <= '~' && w[i] != '#'
  }

  /** Nothing, or something that does not go on with a printable character. */
  predicate Stops(x: string) {
    x == "" || !('!' <= x[0] <= '~')
  }

  predicate Unprintable(s: string) {
    forall i :: 0 <= i < |s| ==> !('!' <= s[i] <= '~')
  }

  lemma BlankIsSpaces(s: string)
    requires Blank(s)
    ensures AllSpaces(s) && '#' !in s && '"' !in s
  {
  }

  lemma CleanIsGraphic(w: string)
    requires Clean(w)
    ensures Graphic(w) && '#' !in w && !IsSpace(w[0])
  {
  }

  // ---- Values ----

  /** A value without quotes is the printable word. */
  lemma WordValue(b: string, w: string, x: string)
    requires Blank(b) && Clean(w) && w[0] != '"' && Stops(x)
    ensures Value(b + w + x) == w
  {
    hide Word, Spaces;
    var s := b + w + x;
    SpacesIs(s, |b|);
    var t := s[|b|..];
    assert t == w + x;
    WordIs(t, |w|);
    assert t[..|w|] == w;
  }

  /** A quoted value is what stands between the quotes, whatever it is and whatever follows. */
  lemma QuotedValueOf(b: string, v: string, x: string)
    requires Blank(b) && '"' !in v
    ensures Value(b + "\"" + v + "\"" + x) == v
  {
    hide Word, Spaces, Chr;
    var s := b + "\"" + v + "\"" + x;
    SpacesIs(s, |b|);
    var t := s[|b|..];
    assert t == "\"" + v + "\"" + x && t[0] == '"';
    var u := t[1..];
    assert u == v + "\"" + x && forall i :: 0 <= i < |v| ==> u[i] == v[i] && v[i] in v;
    ChrIs(u, '"', |v|);
    assert u[..|v|] == v;
  }

  /** Nothing printable is the empty value. */
  lemma NoValue(r: string)
    requires Unprintable(r)
    ensures Value(r) == ""
  {
    hide Word, Spaces;
    var t := r[Spaces(r)..];
    assert t != "" ==> t[0] == r[Spaces(r)];
    WordIs(t, 0);
  }

  // ---- Comments ----

  /** A comment after something that holds no quote is cut off. */
  lemma CommentCut(line: string, y: string)
    requires '#' !in line && '"' !in line && line != ""
    ensures Strip(line + "#" + y) == Text(line)
  {
    hide Chr;
    var s := line + "#" + y;
    assert forall i :: 0 <= i < |line| ==> s[i] == line[i] && line[i] in line;
    ChrIs(s, '#', |line|);
    assert forall i :: 0 <= i < |line| ==> s[i] != '"';
    assert Chr(s, '"') >= |line|;
    assert s[..|line|] == line;
  }

  /** A comment, or nothing: what may follow a line without changing it. */
  predicate Remark(tail: string, line: string) {
    tail == "" || (tail[0] == '#' && '"' !in line)
  }

  lemma RemarkIgnored(line: string, tail: string)
    requires '#' !in line && line != "" && Remark(tail, line)
    ensures ParseLine(line + tail) == Assignment(line)
  {
    hide Assignment;
    if tail == "" {
      assert line + tail == line;
      WithoutComment(line);
    } else {
      assert line + tail == line + "#" + tail[1..];
      CommentCut(line, tail[1..]);
    }
  }

  // ---- Assignments ----

  /** Blanks in front of a line mean nothing. */
  lemma LeadSkipped(lead: string, line: string)
    requires Blank(lead) && line != "" && IsGraph(line[0])
    ensures Assignment(lead + line) == Assignment(line)
  {
    hide Word, Spaces, Value;
    SpacesIs(lead + line, |lead|);
    SpacesIs(line, 0);
    assert (lead + line)[|lead|..] == line == line[0..];
  }

  /** A key, blanks, an equal sign and the rest: the rest is the value's text. */
  lemma KeyAssigned(lead: string, key: string, a: string, rest: string)
    requires Blank(lead) && Clean(key) && Blank(a) && a != ""
    ensures Assignment(lead + (key + a + "=" + rest)) == Assign(key, Value(rest))
  {
    hide Word, Spaces, Value, Assignment;
    var line := key + a + "=" + rest;
    assert line[0] == key[0] && IsGraph(key[0]);
    LeadSkipped(lead, line);
    KeyParts(key, a, rest, line);
    AssignmentParts(line, |key|, |a|);
  }

  lemma KeyParts(key: string, a: string, rest: string, line: string)
    requires Clean(key) && Blank(a) && a != "" && line == key + a + "=" + rest
    ensures |key| + |a| < |line| && IsGraph(line[0]) && !IsGraph(line[|key|])
    ensures forall i :: 0 <= i < |key| ==> IsGraph(line[i])
    ensures AllSpaces(line[|key|..|key| + |a|]) && !IsSpace(line[|key| + |a|]) && line[|key| + |a|] == '='
    ensures line[..|key|] == key && line[|key| + |a| + 1..] == rest
  {
    assert line[|key|] == a[0];
    assert line[|key|..|key| + |a|] == a;
  }

  /** The whole of a hand-written setting: what stands after the equal sign, and perhaps a remark. */
  lemma SettingParsed(lead: string, key: string, a: string, rest: string, tail: string)
    requires Blank(lead) && Clean(key) && Blank(a) && a != "" && '#' !in rest
    requires Remark(tail, lead + (key + a + "=" + rest))
    ensures ParseLine(lead + (key + a + "=" + rest) + tail) == Assign(key, Value(rest))
  {
    BlankIsSpaces(lead);
    BlankIsSpaces(a);
    CleanIsGraphic(key);
    hide *;
    var line := lead + (key + a + "=" + rest);
    assert line != "" && '#' !in line;
    KeyAssigned(lead, key, a, rest);
    RemarkIgnored(line, tail);
  }

  /** key = word. */
  lemma WordAssigned(lead: string, key: string, a: string, b: string, w: string, x: string, tail: string)
    requires Blank(lead) && Clean(key) && Blank(a) && a != "" && Blank(b) && Clean(w) && w[0] != '"'
    requires Stops(x) && '#' !in x && Remark(tail, lead + (key + a + "=" + (b + w + x)))
    ensures ParseLine(lead + (key + a + "=" + (b + w + x)) + tail) == Assign(key, w)
  {
    WordValue(b, w, x);
    BlankIsSpaces(b);
    CleanIsGraphic(w);
    hide *;
    assert '#' !in b + w + x;
    SettingParsed(lead, key, a, b + w + x, tail);
  }

  /** key = "anything but a quote"; what follows the closing quote is passed over. */
  lemma QuotedAssigned(lead: string, key: string, a: string, b: string, v: string, x: string)
    requires Blank(lead) && Clean(key) && Blank(a) && a != "" && Blank(b)
    requires '"' !in v && '#' !in v && '#' !in x
    ensures ParseLine(lead + (key + a + "=" + (b + "\"" + v + "\"" + x))) == Assign(key, v)
  {
    QuotedValueOf(b, v, x);
    BlankIsSpaces(b);
    var rest := b + "\"" + v + "\"" + x;
    assert '#' !in rest;
    assert lead + (key + a + "=" + rest) + "" == lead + (key + a + "=" + rest);
    hide *;
    SettingParsed(lead, key, a, rest, "");
  }

  /** Where the quotes of a literal stand, and which places are inside it. */
  lemma LiteralAt(front: string, v: string, back: string, h: nat)
    requires '"' !in front && '"' !in v && h < |front + "\"" + v + "\"" + back|
    ensures InLiteral(front + "\"" + v + "\"" + back, h) <==> |front| < h <= |front| + |v|
  {
    hide Chr;
    var s, n := front + "\"" + v + "\"" + back, |front|;
    assert forall i :: 0 <= i < n ==> s[i] == front[i] && front[i] in front;
    ChrIs(s, '"', n);
    var u := s[n + 1..];
    assert forall i :: 0 <= i < |v| ==> u[i] == v[i] && v[i] in v;
    ChrIs(u, '"', |v|);
  }

  /** A '#' between the quotes belongs to the value, and then so does no other one to a comment. */
  lemma QuotedHash(lead: string, key: string, a: string, b: string, v: string, x: string)
    requires Blank(lead) && Clean(key) && '"' !in key && Blank(a) && a != "" && Blank(b) && '"' !in v && '#' in v
    ensures ParseLine(lead + (key + a + "=" + (b + "\"" + v + "\"" + x))) == Assign(key, v)
  {
    var front, rest := lead + (key + a + "=") + b, b + "\"" + v + "\"" + x;
    var line := lead + (key + a + "=" + rest);
    BlankIsSpaces(lead);
    BlankIsSpaces(a);
    BlankIsSpaces(b);
    CleanIsGraphic(key);
    assert '"' !in front && '#' !in front;
    hide *;
    assert line == front + "\"" + v + "\"" + x;
    HashKept(front, v, x);
    QuotedValueOf(b, v, x);
    KeyAssigned(lead, key, a, rest);
  }

  lemma HashKept(front: string, v: string, x: string)
    requires '"' !in front && '#' !in front && '"' !in v && '#' in v
    ensures var line := front + "\"" + v + "\"" + x; ParseLine(line) == Assignment(line)
  {
    hide Chr, Assignment, InLiteral;
    var line := front + "\"" + v + "\"" + x;
    HashAt(front, v, x);
    assert |front| + 1 + Chr(v, '#') < |line|;
    LiteralAt(front, v, x, |front| + 1 + Chr(v, '#'));
  }

  lemma HashAt(front: string, v: string, x: string)
    requires '#' !in front && '#' in v
    ensures Chr(v, '#') < |v| && Chr(front + "\"" + v + "\"" + x, '#') == |front| + 1 + Chr(v, '#')
  {
    hide Chr;
    var s := front + "\"" + v + "\"" + x;
    ChrAppend(v, "", '#');
    assert forall i :: 0 <= i < |front| ==> s[i] == front[i] && front[i] in front;
    assert forall i :: 0 <= i < |v| ==> s[|front| + 1 + i] == v[i];
    assert s[|front|] == '"';
    ChrIs(s, '#', |front| + 1 + Chr(v, '#'));
  }

  /** After the closing quote a '#' starts a comment. */
  lemma QuotedRemark(lead: string, key: string, a: string, b: string, v: string, x: string, y: string)
    requires Blank(lead) && Clean(key) && '"' !in key && Blank(a) && a != "" && Blank(b)
    requires '"' !in v && '#' !in v && '#' !in x
    ensures ParseLine(lead + (key + a + "=" + (b + "\"" + v + "\"" + x)) + "#" + y) == Assign(key, v)
  {
    var front, rest := lead + (key + a + "=") + b, b + "\"" + v + "\"" + x;
    var line := lead + (key + a + "=" + rest);
    BlankIsSpaces(lead);
    BlankIsSpaces(a);
    BlankIsSpaces(b);
    CleanIsGraphic(key);
    assert '"' !in front && '#' !in line;
    assert line + "#" + y == front + "\"" + v + "\"" + (x + "#" + y);
    LiteralAt(front, v, x + "#" + y, |line|);
    FirstHash(line, y);
    QuotedValueOf(b, v, x);
    KeyAssigned(lead, key, a, rest);
    hide Chr, Assignment, Value, InLiteral;
  }

  lemma FirstHash(line: string, y: string)
    requires '#' !in line
    ensures Chr(line + "#" + y, '#') == |line| && (line + "#" + y)[..|line|] == line
  {
    hide Chr;
    var s := line + "#" + y;
    assert forall i :: 0 <= i < |line| ==> s[i] == line[i] && line[i] in line;
    ChrIs(s, '#', |line|);
  }

  /** key = and nothing printable. */
  lemma NothingAssigned(lead: string, key: string, a: string, r: string, tail: string)
    requires Blank(lead) && Clean(key) && Blank(a) && a != "" && Unprintable(r)
    requires Remark(tail, lead + (key + a + "=" + r))
    ensures ParseLine(lead + (key + a + "=" + r) + tail) == Assign(key, "")
  {
    NoValue(r);
    assert '#' !in r;
    hide *;
    SettingParsed(lead, key, a, r, tail);
  }

  /** A line without an equal sign assigns nothing, unless it is an include or a reference. */
  lemma NoEqualSign(line: string)
    requires '=' !in line && '#' !in line
    ensures ParseLine(line) == Ignored
  {
    hide Word, Spaces, Value;
    WithoutComment(line);
    var t := line[Spaces(line)..];
    var rest := t[Word(t)..];
    var e := rest[Spaces(rest)..];
    assert e != "" ==> e[0] == line[Spaces(line) + Word(t) + Spaces(rest)];
  }

  // ---- Directives ----

  lemma WholeComment(c: string)
    ensures ParseLine("#" + c) == Directive(c)
  {
    hide Directive;
    ChrIs("#" + c, '#', 0);
    assert ("#" + c)[1..] == c;
  }

  /** #include word, #include "text", and #include with nothing. */
  lemma IncludeMeans(b: string, w: string, x: string, v: string, r: string)
    requires Blank(b)
    ensures Clean(w) && w[0] != '"' && Stops(x) ==> ParseLine("#" + ("include " + (b + w + x))) == Include(w)
    ensures '"' !in v && v != "" ==> ParseLine("#" + ("include " + (b + "\"" + v + "\"" + x))) == Include(v)
    ensures Unprintable(r) ==> ParseLine("#" + ("include " + r)) == Ignored
  {
    if Clean(w) && w[0] != '"' && Stops(x) { WordValue(b, w, x); }
    if '"' !in v { QuotedValueOf(b, v, x); }
    if Unprintable(r) { NoValue(r); }
    hide Value, Blank, Clean, Stops, Unprintable;
    AfterDirective("include ", b + w + x);
    AfterDirective("include ", b + "\"" + v + "\"" + x);
    AfterDirective("include ", r);
    hide ParseLine;
    WholeComment("include " + (b + w + x));
    WholeComment("include " + (b + "\"" + v + "\"" + x));
    WholeComment("include " + r);
  }

  /** #reference takes the same values, and is ignored only when nothing at all follows. */
  lemma ReferenceMeans(b: string, w: string, x: string, v: string, r: string)
    requires Blank(b)
    ensures Clean(w) && w[0] != '"' && Stops(x) ==> ParseLine("#" + ("reference " + (b + w + x))) == Reference(w)
    ensures '"' !in v ==> ParseLine("#" + ("reference " + (b + "\"" + v + "\"" + x))) == Reference(v)
    ensures Unprintable(r) && r != "" ==> ParseLine("#" + ("reference " + r)) == Reference("")
    ensures ParseLine("#" + "reference ") == Ignored
  {
    if Clean(w) && w[0] != '"' && Stops(x) { WordValue(b, w, x); }
    if '"' !in v { QuotedValueOf(b, v, x); }
    if Unprintable(r) { NoValue(r); }
    hide Value, Blank, Clean, Stops, Unprintable;
    AfterDirective("reference ", b + w + x);
    AfterDirective("reference ", b + "\"" + v + "\"" + x);
    AfterDirective("reference ", r);
    hide ParseLine;
    WholeComment("reference " + (b + w + x));
    WholeComment("reference " + (b + "\"" + v + "\"" + x));
    WholeComment("reference " + r);
    WholeComment("reference ");
  }

  lemma AfterDirective(name: string, rest: string)
    ensures name <= name + rest && (name + rest)[|name|..] == rest && (rest != "" ==> |name + rest| > |name|)
    ensures name == "reference " ==> !("include " <= name + rest) && |name| == 10
    ensures name == "include " ==> |name| == 8
  {
    if name == "reference " { assert (name + rest)[0] == 'r'; }
  }

  /** Every other comment is passed over. */
  lemma OtherComment(c: string)
    requires !("include " <= c) && !("reference " <= c)
    ensures ParseLine("#" + c) == Ignored
  {
    WholeComment(c);
  }

  // ---- What a store then answers ----

  /** The first line that assigns a key gives its value, when no include stands before it. */
  lemma {:induction false} SettingFound(env: Env, before: seq<string>, line: string, after: seq<string>, path: string,
                                        depth: nat, key: string, value: string)
    requires depth <= MAX_INCLUDE_DEPTH && ParseLine(line) == Assign(key, value)
    requires forall i :: 0 <= i < |before| ==> !ParseLine(before[i]).Include?
    requires forall i :: 0 <= i < |before| ==> !(ParseLine(before[i]).Assign? && ParseLine(before[i]).key == key)
    ensures Lookup(Expand(env, before + ([line] + after), path, depth), key) == Some(value)
  {
    hide ParseLine;
    var lines := before + ([line] + after);
    if before == [] {
      assert lines[0] == line;
    } else {
      SettingFound(env, before[1..], line, after, path, depth, key, value);
      assert lines[0] == before[0] && lines[1..] == before[1..] + ([line] + after);
      var head, rest := ExpandLine(env, before[0], path, depth), Expand(env, lines[1..], path, depth);
      assert Place(head, key) == |head|;
      hide Expand, ExpandLine;
      LookupAppend(head, rest, key);
    }
  }

  /** A line that is neither an assignment nor an include changes no answer. */
  lemma SilentLine(env: Env, line: string, after: seq<string>, path: string, depth: nat, key: string)
    requires depth <= MAX_INCLUDE_DEPTH && (ParseLine(line).Ignored? || ParseLine(line).Reference?)
    ensures Lookup(Expand(env, [line] + after, path, depth), key) == Lookup(Expand(env, after, path, depth), key)
  {
    var head, rest := ExpandLine(env, line, path, depth), Expand(env, after, path, depth);
    assert ([line] + after)[0] == line && ([line] + after)[1..] == after;
    assert Place(head, key) == |head|;
    hide ParseLine, Expand, ExpandLine;
    LookupAppend(head, rest, key);
  }

  /** An include answers for every key that its file has, with the file's answer, and for no other; one that names no
      file that can be opened, or comes sixteen includes deep, answers for none. */
  lemma IncludeAnswers(env: Env, line: string, p: string, after: seq<string>, path: string, depth: nat, key: string)
    requires depth <= 16 && ParseLine(line) == Include(p)
    ensures var q, rest := env.resolve(path, p), Lookup(Expand(env, after, path, depth), key);
      Lookup(Expand(env, [line] + after, path, depth), key) ==
      if depth == 16 || q !in env.files then rest else
      var inner := Expand(env, Lines(env.files[q]), q, depth + 1);
      if Place(inner, key) < |inner| then Lookup(inner, key) else rest
  {
    var q, rest := env.resolve(path, p), Expand(env, after, path, depth);
    assert ([line] + after)[0] == line && ([line] + after)[1..] == after;
    assert Expand(env, [line] + after, path, depth) == ExpandLine(env, line, path, depth) + rest;
    if depth < 16 {
      var inner := Included(env, q, depth + 1);
      assert ExpandLine(env, line, path, depth) == inner + [NAMELESS];
      assert q in env.files ==> inner == ReadOnly(Expand(env, Lines(env.files[q]), q, depth + 1));
      hide ParseLine, Expand, ExpandLine, Included, Lines;
      LookupAppend(inner + [NAMELESS], rest, key);
      NamelessAfter(inner, key);
      if q in env.files { ReadOnlyLookup(Expand(env, Lines(env.files[q]), q, depth + 1), key); }
    } else {
      assert [] + rest == rest;
    }
  }

  lemma NamelessAfter(items: seq<Item>, key: string)
    ensures Place(items + [NAMELESS], key) == if Place(items, key) < |items| then Place(items, key) else |items| + 1
    ensures Place(items, key) < |items| ==> Lookup(items + [NAMELESS], key) == Lookup(items, key)
  {
    PlaceAppend(items, [NAMELESS], key);
  }

  lemma ReadOnlyLookup(items: seq<Item>, key: string)
    ensures Place(ReadOnly(items), key) == Place(items, key) && Lookup(ReadOnly(items), key) == Lookup(items, key)
  {
    PlaceReadOnly(items, key);
  }

  /** A store read from a file that begins with such a line answers with its word. */
  method ReadWord(env: Env, file: string, ghost lead: string, key: string, ghost a: string, ghost b: string,
                  ghost w: string, ghost x: string, ghost remark: string, ghost more: string)
    returns (value: Option<string>)
    requires Blank(lead) && Clean(key) && Blank(a) && a != "" && Blank(b) && Clean(w) && w[0] != '"'
    requires Stops(x) && '#' !in x && Remark(remark, lead + (key + a + "=" + (b + w + x)))
    requires var line := lead + (key + a + "=" + (b + w + x)) + remark;
      '\n' !in line && file in env.files && env.files[file] == line + more && (more != "" ==> more[0] == '\n')
    ensures value == Some(w)
  {
    WordAssigned(lead, key, a, b, w, x, remark);
    assert lead + (key + a + "=" + (b + w + x)) + remark != "";
    hide *;
    FirstLineAnswers(env, file, lead + (key + a + "=" + (b + w + x)) + remark, more, key, w);
    value := Session(env, file, [], key);
  }

  lemma FirstLineAnswers(env: Env, file: string, line: string, more: string, key: string, value: string)
    requires file in env.files && env.files[file] == line + more && (more != "" ==> more[0] == '\n')
    requires '\n' !in line && line != "" && ParseLine(line) == Assign(key, value)
    ensures var items := Expand(env, Lines(env.files[file]), file, 0);
      RunAllowed(env, items, []) && Find(MapRun(env, Table(items), []), key) == Some(value)
  {
    var items := Expand(env, Lines(env.files[file]), file, 0);
    assert RunAllowed(env, items, []) && MapRun(env, Table(items), []) == Table(items);
    FileValued(env, file);
    hide *;
    LineFirst(line, more);
    var rest := Lines(if more == "" then "" else more[1..]);
    assert [] + ([line] + rest) == [line] + rest;
    SettingFound(env, [], line, rest, file, 0, key, value);
    TableLookup(items, key);
  }

  lemma LineFirst(line: string, more: string)
    requires '\n' !in line && line != "" && (more != "" ==> more[0] == '\n')
    ensures Lines(line + more) == [line] + Lines(if more == "" then "" else more[1..])
  {
    hide Chr, Lines;
    var s, n := line + more, |line|;
    assert forall i :: 0 <= i < n ==> s[i] == line[i] && line[i] in line;
    ChrIs(s, '\n', n);
    LinesUnfold(s, n);
    assert s[..n] == line;
    if more != "" { assert s[n + 1..] == more[1..]; } else { assert s[n..] == ""; }
  }
}
