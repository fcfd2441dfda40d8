/** Dumping a config and parsing the dump. */
module ConfigRoundTrip {
  import opened Prelude
  import opened ConfigOrder
  import opened CStrings
  import opened ConfigText
  import opened ConfigDump
  import opened ConfigItems

  /** The entries that config_file_dump writes. */
  predicate IsOwn(it: Item) {
    !it.readonly && it.key.Some? && it.value.Some?
  }

  function Own(items: seq<Item>): seq<Item> {
    Filter(items, IsOwn)
  }

  function DumpOne(it: Item): string {
    if IsOwn(it) then DumpLine(it.key.value, it.value.value) + "\n" else ""
  }

  function DumpText(items: seq<Item>): string {
    if items == [] then "" else DumpOne(items[0]) + DumpText(items[1..])
  }

  predicate Kept(it: Item) {
    IsOwn(it) ==> Faithful(it.key.value, it.value.value) && '\n' !in it.value.value
  }

  // ---- Lines ----

  lemma LinesCons(line: string, rest: string)
    requires '\n' !in line && line != ""
    ensures Lines(line + "\n" + rest) == [line] + Lines(rest)
  {
    var s := line + "\n" + rest;
    forall i | 0 <= i < |line| ensures s[i] != '\n' { assert s[i] == line[i] && line[i] in line; }
    ChrIs(s, '\n', |line|);
    assert s[..|line|] == line && s[|line| + 1..] == rest;
  }

  lemma {:induction false} LinesHold(s: string)
    ensures forall l :: l in Lines(s) ==> '\n' !in l && l != ""
    decreases |s|
  {
    if s != "" {
      var n := Chr(s, '\n');
      if n < |s| { LinesHold(s[n + 1..]); }
      assert forall i :: 0 <= i < n ==> s[..n][i] != '\n';
    }
  }

  lemma LineHoldsNoNewline(key: string, value: string)
    requires Graphic(key) && '\n' !in value
    ensures '\n' !in DumpLine(key, value) && DumpLine(key, value) != ""
  {
    assert forall i :: 0 <= i < |key| ==> key[i] != '\n';
  }

  /** The dumped text, cut into lines again, whatever follows it. */
  lemma {:induction false} DumpedLines(items: seq<Item>, rest: string)
    requires forall it :: it in items && IsOwn(it) ==> Graphic(it.key.value) && '\n' !in it.value.value
    ensures Lines(DumpText(items) + rest) == OwnLines(Own(items)) + Lines(rest)
  {
    hide DumpLine, Lines;
    if items == [] {
      assert "" + rest == rest;
    } else {
      DumpedLines(items[1..], rest);
      var it := items[0];
      assert it in items;
      var text := DumpText(items[1..]);
      if IsOwn(it) {
        var line := DumpLine(it.key.value, it.value.value);
        LineHoldsNoNewline(it.key.value, it.value.value);
        ConcatAssociates(line + "\n", text, rest);
        LinesCons(line, text + rest);
        assert Own(items) == [it] + Own(items[1..]);
        ConcatAssociates([line], OwnLines(Own(items[1..])), Lines(rest));
      } else {
        assert DumpText(items) == text && Own(items) == Own(items[1..]);
      }
    }
  }

  lemma WholeDump(items: seq<Item>)
    requires forall it :: it in items && IsOwn(it) ==> Graphic(it.key.value) && '\n' !in it.value.value
    ensures Lines(DumpText(items)) == OwnLines(Own(items))
  {
    assert Lines("") == [];
    hide *;
    DumpedLines(items, "");
    assert DumpText(items) + "" == DumpText(items);
    assert OwnLines(Own(items)) + [] == OwnLines(Own(items));
  }

  function OwnLines(items: seq<Item>): seq<string> {
    if items == [] then [] else
    (if IsOwn(items[0]) then [DumpLine(items[0].key.value, items[0].value.value)] else []) + OwnLines(items[1..])
  }

  // ---- Faithful entries are read back ----

  predicate AllOwn(items: seq<Item>) {
    forall i :: 0 <= i < |items| ==> IsOwn(items[i])
  }

  predicate AllKept(items: seq<Item>) {
    forall i :: 0 <= i < |items| ==> Kept(items[i])
  }

  lemma {:induction false} FaithfulExpands(env: Env, items: seq<Item>, path: string, depth: nat)
    requires depth <= MAX_INCLUDE_DEPTH && AllOwn(items) && AllKept(items)
    ensures Expand(env, OwnLines(items), path, depth) == items
  {
    hide ParseLine, DumpLine, Faithful;
    if items != [] {
      var it := items[0];
      FaithfulParses(it.key.value, it.value.value);
      FaithfulExpands(env, items[1..], path, depth);
      assert OwnLines(items)[0] == DumpLine(it.key.value, it.value.value);
      assert OwnLines(items)[1..] == OwnLines(items[1..]);
      assert it == Item(Some(it.key.value), Some(it.value.value), false);
      assert ExpandLine(env, OwnLines(items)[0], path, depth) == [it];
    }
  }

  // ---- And only they are ----

  predicate Readable(it: Item) {
    it.key.Some? ==> Graphic(it.key.value) && it.value.Some? && '\n' !in it.value.value
  }

  predicate AllReadable(items: seq<Item>) {
    forall i :: 0 <= i < |items| ==> Readable(items[i])
  }

  lemma ReadableValued(items: seq<Item>)
    requires AllReadable(items)
    ensures Valued(items)
  {
  }

  predicate NoNewlines(lines: seq<string>) {
    forall i :: 0 <= i < |lines| ==> '\n' !in lines[i]
  }

  lemma AssignedIsReadable(line: string)
    requires ParseLine(line).Assign? && '\n' !in line
    ensures Graphic(ParseLine(line).key) && '\n' !in ParseLine(line).value
  {
    hide Assignment;
    StripWithin(line, '\n');
    AssignmentIs(Strip(line).text);
    AssignedWithin(Strip(line).text, '\n');
  }

  lemma StripWithin(line: string, c: char)
    requires Strip(line).Text? && c !in line
    ensures c !in Strip(line).text
  {
  }

  lemma AssignedWithin(t: string, c: char)
    requires Assignment(t).Assign? && c !in t
    ensures c !in Assignment(t).value
  {
    hide Value, Word, Spaces;
    var u := t[Spaces(t)..];
    DropWithin(t, Spaces(t), c);
    var rest := u[Word(u)..];
    DropWithin(u, Word(u), c);
    var e := rest[Spaces(rest)..];
    DropWithin(rest, Spaces(rest), c);
    DropWithin(e, 1, c);
    ValueHolds(e[1..], c);
  }

  lemma DropWithin(s: string, n: nat, c: char)
    requires n <= |s| && c !in s
    ensures c !in s[n..]
  {
  }

  /** No run of the parser, at any include depth, gives a key or a value that spans lines. */
  lemma {:induction false} ExpandReadable(env: Env, lines: seq<string>, path: string, depth: nat)
    requires depth <= MAX_INCLUDE_DEPTH && NoNewlines(lines)
    ensures AllReadable(Expand(env, lines, path, depth))
    decreases MAX_INCLUDE_DEPTH - depth, 1, |lines|
  {
    hide ParseLine, Readable, Lines, ExpandLine;
    if lines != [] {
      ExpandReadable(env, lines[1..], path, depth);
      LineReadable(env, lines[0], path, depth);
    }
  }

  lemma {:induction false} LineReadable(env: Env, line: string, path: string, depth: nat)
    requires depth <= MAX_INCLUDE_DEPTH && '\n' !in line
    ensures AllReadable(ExpandLine(env, line, path, depth))
    decreases MAX_INCLUDE_DEPTH - depth, 0, 0
  {
    hide ParseLine, Lines, Expand;
    match ParseLine(line) {
      case Assign(key, value) => AssignedIsReadable(line);
      case Include(p) =>
        if depth < MAX_INCLUDE_DEPTH {
          var q := env.resolve(path, p);
          if q in env.files {
            LinesHold(env.files[q]);
            ExpandReadable(env, Lines(env.files[q]), q, depth + 1);
          }
        }
      case _ =>
    }
  }

  lemma OneAtMost(env: Env, line: string, path: string, depth: nat)
    requires depth <= MAX_INCLUDE_DEPTH && AllOwn(ExpandLine(env, line, path, depth))
    ensures |ExpandLine(env, line, path, depth)| <= 1
    ensures |ExpandLine(env, line, path, depth)| == 1 ==>
      var it := ExpandLine(env, line, path, depth)[0]; ParseLine(line) == Assign(it.key.value, it.value.value)
  {
    hide ParseLine, Included;
    var items := ExpandLine(env, line, path, depth);
    assert |items| > 0 ==> IsOwn(items[|items| - 1]);
  }

  /** As many entries as lines, none nameless: line i is the assignment of entry i. */
  lemma {:induction false} OneEach(env: Env, lines: seq<string>, path: string, depth: nat)
    requires depth <= MAX_INCLUDE_DEPTH && AllOwn(Expand(env, lines, path, depth))
    ensures |Expand(env, lines, path, depth)| <= |lines|
    ensures |Expand(env, lines, path, depth)| == |lines| ==> AssignedBy(lines, Expand(env, lines, path, depth))
  {
    assert AssignedBy([], []);
    hide ParseLine, IsOwn, ExpandLine, AssignedBy;
    if lines != [] {
      var a, b := ExpandLine(env, lines[0], path, depth), Expand(env, lines[1..], path, depth);
      var items := Expand(env, lines, path, depth);
      assert items == a + b;
      assert forall i :: 0 <= i < |a| ==> a[i] == items[i];
      assert forall i :: 0 <= i < |b| ==> b[i] == items[|a| + i];
      OneAtMost(env, lines[0], path, depth);
      OneEach(env, lines[1..], path, depth);
      if |items| == |lines| { AssignedCons(lines, items); }
    }
  }

  predicate AssignedBy(lines: seq<string>, items: seq<Item>) {
    |lines| == |items| && forall i :: 0 <= i < |lines| ==>
      IsOwn(items[i]) && ParseLine(lines[i]) == Assign(items[i].key.value, items[i].value.value)
  }

  lemma AssignedCons(lines: seq<string>, items: seq<Item>)
    requires |lines| > 0 && |items| > 0 && IsOwn(items[0])
    requires ParseLine(lines[0]) == Assign(items[0].key.value, items[0].value.value)
    requires AssignedBy(lines[1..], items[1..])
    ensures AssignedBy(lines, items)
  {
    hide ParseLine;
    forall i | 0 <= i < |lines| ensures IsOwn(items[i])
        && ParseLine(lines[i]) == Assign(items[i].key.value, items[i].value.value) {
      if i > 0 { assert lines[i] == lines[1..][i - 1] && items[i] == items[1..][i - 1]; }
    }
  }

  lemma {:induction false} FilterMembers<T>(s: seq<T>, p: T -> bool)
    ensures forall x :: x in Filter(s, p) <==> x in s && p(x)
  {
    if s != [] { FilterMembers(s[1..], p); }
  }

  lemma {:induction false} OwnLinesAre(items: seq<Item>)
    requires AllOwn(items)
    ensures |OwnLines(items)| == |items|
    ensures forall i :: 0 <= i < |items| ==> OwnLines(items)[i] == DumpLine(items[i].key.value, items[i].value.value)
  {
    hide DumpLine;
    if items != [] { OwnLinesAre(items[1..]); }
  }

  lemma {:induction false} OwnLinesOfOwn(items: seq<Item>)
    ensures AllOwn(Own(items)) && OwnLines(items) == OwnLines(Own(items))
  {
    hide DumpLine;
    if items != [] {
      OwnLinesOfOwn(items[1..]);
      if IsOwn(items[0]) {
        assert Own(items)[1..] == Own(items[1..]);
        assert OwnLines(Own(items)) == OwnLines(items);
        forall i | 0 <= i < |Own(items)| ensures IsOwn(Own(items)[i]) {
          if i > 0 { assert Own(items)[i] == Own(items[1..])[i - 1]; }
        }
      }
    }
  }

  /** The dump, parsed again, gives back exactly the entries it wrote if and only if each can be kept. */
  lemma DumpRoundTrip(env: Env, items: seq<Item>, path: string, depth: nat)
    requires depth <= MAX_INCLUDE_DEPTH
    ensures Expand(env, Lines(DumpText(items)), path, depth) == Own(items) <==> AllKept(items)
  {
    if AllKept(items) {
      KeptComesBack(env, items, path, depth);
    } else if Expand(env, Lines(DumpText(items)), path, depth) == Own(items) {
      OnlyKeptComesBack(env, items, path, depth);
    }
  }

  lemma KeptComesBack(env: Env, items: seq<Item>, path: string, depth: nat)
    requires depth <= MAX_INCLUDE_DEPTH && AllKept(items)
    ensures Expand(env, Lines(DumpText(items)), path, depth) == Own(items)
  {
    hide DumpText, OwnLines, Expand, Lines;
    WholeDump(items);
    OwnLinesOfOwn(items);
    FilterMembers(items, IsOwn);
    assert AllKept(Own(items)) by {
      forall i | 0 <= i < |Own(items)| ensures Kept(Own(items)[i]) { assert Own(items)[i] in Own(items); }
    }
    FaithfulExpands(env, Own(items), path, depth);
  }

  lemma OnlyKeptComesBack(env: Env, items: seq<Item>, path: string, depth: nat)
    requires depth <= MAX_INCLUDE_DEPTH && Expand(env, Lines(DumpText(items)), path, depth) == Own(items)
    ensures AllKept(items)
  {
    var own := Own(items);
    OwnReadable(env, items, path, depth);
    OwnParsed(env, items, path, depth);
    FilterMembers(items, IsOwn);
    hide *;
    AllOwnKept(own);
    EachKept(items, own);
  }

  lemma OwnReadable(env: Env, items: seq<Item>, path: string, depth: nat)
    requires depth <= MAX_INCLUDE_DEPTH && Expand(env, Lines(DumpText(items)), path, depth) == Own(items)
    ensures AllReadable(Own(items))
  {
    LinesHold(DumpText(items));
    hide Lines, DumpText, Expand, Own, Readable;
    ExpandReadable(env, Lines(DumpText(items)), path, depth);
  }

  /** Each line of such a dump parses as the entry it was written for. */
  lemma OwnParsed(env: Env, items: seq<Item>, path: string, depth: nat)
    requires depth <= MAX_INCLUDE_DEPTH && Expand(env, Lines(DumpText(items)), path, depth) == Own(items)
    ensures AssignedBy(OwnLines(Own(items)), Own(items)) && AllOwn(Own(items))
  {
    OwnReadable(env, items, path, depth);
    DumpedOwn(items);
    OwnLinesOfOwn(items);
    OwnLinesAre(Own(items));
    hide *;
    OneEach(env, OwnLines(Own(items)), path, depth);
  }

  lemma DumpedOwn(items: seq<Item>)
    requires AllReadable(Own(items))
    ensures Lines(DumpText(items)) == OwnLines(Own(items))
  {
    FilterMembers(items, IsOwn);
    forall it | it in items && IsOwn(it) ensures Graphic(it.key.value) && '\n' !in it.value.value {
      assert it in Own(items);
    }
    hide *;
    WholeDump(items);
  }

  lemma AllOwnKept(own: seq<Item>)
    requires AllOwn(own) && AllReadable(own) && AssignedBy(OwnLines(own), own)
    ensures AllKept(own)
  {
    OwnLinesAre(own);
    hide OwnLines, DumpLine, ParseLine, Faithful;
    forall i | 0 <= i < |own| ensures Kept(own[i]) {
      DumpLineParses(own[i].key.value, own[i].value.value);
    }
  }

  lemma EachKept(items: seq<Item>, own: seq<Item>)
    requires AllKept(own) && forall x :: x in own <==> x in items && IsOwn(x)
    ensures AllKept(items)
  {
    hide Faithful;
    forall i | 0 <= i < |items| ensures Kept(items[i]) {
      if IsOwn(items[i]) { assert items[i] in own; }
    }
  }
}
