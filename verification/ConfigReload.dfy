/** A dump with its references and includes, read again. */
module ConfigReload {
  import opened Prelude
  import opened CStrings
  import opened ConfigOrder
  import opened ConfigText
  import opened ConfigDump
  import opened ConfigItems
  import opened ConfigRoundTrip

  const REFERENCE_LINE := "#reference \""
  const INCLUDE_LINE := "#include \""

  function DirectiveText(directive: string, paths: seq<string>): string {
    if paths == [] then "" else directive + paths[0] + "\"\n" + DirectiveText(directive, paths[1..])
  }

  /** A path with forward slashes only. */
  function Portable(p: string): (r: string)
    ensures |r| == |p| && forall i :: 0 <= i < |p| ==> r[i] == if p[i] == '\\' then '/' else p[i]
  {
    if p == "" then "" else [if p[0] == '\\' then '/' else p[0]] + Portable(p[1..])
  }

  function Portables(paths: seq<string>): (r: seq<string>)
    ensures |r| == |paths| && forall i :: 0 <= i < |paths| ==> r[i] == Portable(paths[i])
  {
    if paths == [] then [] else [Portable(paths[0])] + Portables(paths[1..])
  }

  /** References first, with forward slashes, then the config's own entries, then its includes. */
  function DumpAll(references: seq<string>, items: seq<Item>, includes: seq<string>): string {
    DirectiveText(REFERENCE_LINE, Portables(references)) + DumpText(items) + DirectiveText(INCLUDE_LINE, includes)
  }

  // ---- One directive ----

  /** A reference is read back exactly when it holds no quote. */
  lemma ReferenceLineParses(p: string)
    ensures ParseLine(REFERENCE_LINE + p + "\"") == Reference(p) <==> '"' !in p
  {
    var line, quoted := REFERENCE_LINE + p + "\"", "\"" + p + "\"";
    ChrIs(line, '#', 0);
    var c := line[1..];
    assert c[0] == 'r' && INCLUDE[0] == 'i';
    assert REFERENCE <= c && c[10..] == quoted;
    QuotedValue(p);
  }

  /** An include also needs a path. */
  lemma IncludeLineParses(p: string)
    ensures ParseLine(INCLUDE_LINE + p + "\"") == Include(p) <==> '"' !in p && p != ""
  {
    var line, quoted := INCLUDE_LINE + p + "\"", "\"" + p + "\"";
    ChrIs(line, '#', 0);
    var c := line[1..];
    assert INCLUDE <= c && c[8..] == quoted;
    QuotedValue(p);
  }

  lemma QuotedValue(p: string)
    ensures Value("\"" + p + "\"") == p <==> '"' !in p
  {
    var quoted := "\"" + p + "\"";
    assert Spaces(quoted) == 0;
    assert quoted[0..] == quoted && quoted[1..] == p + "\"";
    ClosedValue(p);
  }

  // ---- All lines of a dump ----

  predicate Quotable(paths: seq<string>) {
    forall i :: 0 <= i < |paths| ==> '"' !in paths[i] && '\n' !in paths[i]
  }

  function DirectiveLines(directive: string, paths: seq<string>): seq<string> {
    if paths == [] then [] else [directive + paths[0] + "\""] + DirectiveLines(directive, paths[1..])
  }

  lemma {:induction false} LinesOfDirectives(directive: string, paths: seq<string>, rest: string)
    requires Quotable(paths) && '\n' !in directive
    ensures Lines(DirectiveText(directive, paths) + rest) == DirectiveLines(directive, paths) + Lines(rest)
  {
    hide Lines;
    if paths == [] {
      assert "" + rest == rest;
    } else {
      var line, text := directive + paths[0] + "\"", DirectiveText(directive, paths[1..]);
      LinesOfDirectives(directive, paths[1..], rest);
      LinesCons(line, text + rest);
      assert DirectiveText(directive, paths) + rest == line + "\n" + (text + rest);
      ConcatAssociates([line], DirectiveLines(directive, paths[1..]), Lines(rest));
    }
  }

  lemma DumpedAllLines(references: seq<string>, items: seq<Item>, includes: seq<string>)
    requires Quotable(references) && Quotable(includes) && AllKept(items)
    ensures Lines(DumpAll(references, items, includes)) ==
      DirectiveLines(REFERENCE_LINE, Portables(references))
        + (OwnLines(Own(items)) + DirectiveLines(INCLUDE_LINE, includes))
  {
    assert Lines("") == [];
    PortablesQuotable(references);
    assert forall it :: it in items && IsOwn(it) ==> Kept(it) && Graphic(it.key.value) && '\n' !in it.value.value;
    hide Lines, DirectiveText, DumpText, DirectiveLines, OwnLines;
    var last := DirectiveText(INCLUDE_LINE, includes);
    LinesOfDirectives(INCLUDE_LINE, includes, "");
    assert last + "" == last && DirectiveLines(INCLUDE_LINE, includes) + [] == DirectiveLines(INCLUDE_LINE, includes);
    DumpedLines(items, last);
    ConcatAssociates(DirectiveText(REFERENCE_LINE, Portables(references)), DumpText(items), last);
    LinesOfDirectives(REFERENCE_LINE, Portables(references), DumpText(items) + last);
  }

  lemma PortablesQuotable(paths: seq<string>)
    requires Quotable(paths)
    ensures Quotable(Portables(paths))
  {
    forall i | 0 <= i < |paths| ensures '"' !in Portables(paths)[i] && '\n' !in Portables(paths)[i] {
      assert forall j :: 0 <= j < |paths[i]| ==> paths[i][j] in paths[i];
    }
  }

  // ---- What they expand to ----

  lemma {:induction false} ExpandAppend(env: Env, a: seq<string>, b: seq<string>, path: string, depth: nat)
    requires depth <= MAX_INCLUDE_DEPTH
    ensures Expand(env, a + b, path, depth) == Expand(env, a, path, depth) + Expand(env, b, path, depth)
    ensures IncludePaths(a + b, depth) == IncludePaths(a, depth) + IncludePaths(b, depth)
    ensures StoredReferences(env, a + b, path) == StoredReferences(env, a, path) + StoredReferences(env, b, path)
  {
    hide ExpandLine, LineIncludes, LineReferences;
    if a == [] {
      assert a + b == b;
    } else {
      ExpandAppend(env, a[1..], b, path, depth);
      assert (a + b)[0] == a[0] && (a + b)[1..] == a[1..] + b;
      ConcatAssociates(ExpandLine(env, a[0], path, depth), Expand(env, a[1..], path, depth), Expand(env, b, path, depth));
      ConcatAssociates(LineIncludes(a[0], depth), IncludePaths(a[1..], depth), IncludePaths(b, depth));
      ConcatAssociates(LineReferences(env, a[0], path), StoredReferences(env, a[1..], path),
                       StoredReferences(env, b, path));
    }
  }

  function Nameless(n: nat): seq<Item> {
    if n == 0 then [] else [NAMELESS] + Nameless(n - 1)
  }

  /** What the included files contribute, one after the other. */
  function IncludedBy(env: Env, includes: seq<string>, path: string, depth: nat): seq<Item>
    requires depth <= MAX_INCLUDE_DEPTH && (depth == MAX_INCLUDE_DEPTH ==> includes == [])
  {
    if includes == [] then [] else
    Included(env, env.resolve(path, includes[0]), depth + 1) + [NAMELESS] + IncludedBy(env, includes[1..], path, depth)
  }

  /** Paths in the form in which they are stored. */
  function Stored(env: Env, path: string, references: seq<string>): (r: seq<string>)
    ensures |r| == |references| && forall i :: 0 <= i < |r| ==> r[i] == env.store(path, references[i])
  {
    if references == [] then [] else [env.store(path, references[0])] + Stored(env, path, references[1..])
  }

  lemma {:induction false} ReferencesExpand(env: Env, references: seq<string>, path: string, depth: nat)
    requires depth <= MAX_INCLUDE_DEPTH && Quotable(references)
    ensures var lines := DirectiveLines(REFERENCE_LINE, references);
      Expand(env, lines, path, depth) == Nameless(|references|) && IncludePaths(lines, depth) == []
      && StoredReferences(env, lines, path) == Stored(env, path, references)
  {
    hide ParseLine;
    if references != [] {
      var lines := DirectiveLines(REFERENCE_LINE, references);
      ReferenceLineParses(references[0]);
      ReferencesExpand(env, references[1..], path, depth);
      assert ParseLine(lines[0]) == Reference(references[0]);
      assert lines[1..] == DirectiveLines(REFERENCE_LINE, references[1..]);
    }
  }

  lemma {:induction false} IncludesExpand(env: Env, includes: seq<string>, path: string, depth: nat)
    requires depth <= MAX_INCLUDE_DEPTH && (depth == MAX_INCLUDE_DEPTH ==> includes == [])
    requires Quotable(includes) && "" !in includes
    ensures var lines := DirectiveLines(INCLUDE_LINE, includes);
      Expand(env, lines, path, depth) == IncludedBy(env, includes, path, depth) && IncludePaths(lines, depth) == includes
      && StoredReferences(env, lines, path) == []
  {
    hide ParseLine, Included;
    if includes != [] {
      var lines := DirectiveLines(INCLUDE_LINE, includes);
      IncludeLineParses(includes[0]);
      IncludesExpand(env, includes[1..], path, depth);
      assert ParseLine(lines[0]) == Include(includes[0]) && lines[1..] == DirectiveLines(INCLUDE_LINE, includes[1..]);
      assert [includes[0]] + includes[1..] == includes;
    }
  }

  lemma {:induction false} OwnLinesNameNone(env: Env, lines: seq<string>, items: seq<Item>, path: string, depth: nat)
    requires AssignedBy(lines, items)
    ensures IncludePaths(lines, depth) == [] && StoredReferences(env, lines, path) == []
  {
    hide ParseLine;
    if lines != [] {
      assert AssignedBy(lines[1..], items[1..]);
      OwnLinesNameNone(env, lines[1..], items[1..], path, depth);
    }
  }

  lemma OwnLinesExpand(env: Env, items: seq<Item>, path: string, depth: nat)
    requires depth <= MAX_INCLUDE_DEPTH && AllKept(items)
    ensures var lines := OwnLines(Own(items));
      Expand(env, lines, path, depth) == Own(items) && IncludePaths(lines, depth) == []
      && StoredReferences(env, lines, path) == []
  {
    hide OwnLines, Expand, IncludePaths, StoredReferences, AssignedBy;
    var own := Own(items);
    FilterMembers(items, IsOwn);
    OwnLinesOfOwn(items);
    assert AllKept(own) by {
      forall i | 0 <= i < |own| ensures Kept(own[i]) { assert own[i] in own; }
    }
    FaithfulExpands(env, own, path, depth);
    OwnLinesAre(own);
    OneEach(env, OwnLines(own), path, depth);
    OwnLinesNameNone(env, OwnLines(own), own, path, depth);
  }

  /** A dump, read again: one nameless entry a reference, the config's own entries, then the included files. The
      includes are the same; each reference is stored anew, from its form with forward slashes. */
  lemma DumpReloads(env: Env, references: seq<string>, items: seq<Item>, includes: seq<string>, path: string, depth: nat)
    requires depth <= MAX_INCLUDE_DEPTH && (depth == MAX_INCLUDE_DEPTH ==> includes == [])
    requires Quotable(references) && Quotable(includes) && "" !in includes && AllKept(items)
    ensures var lines := Lines(DumpAll(references, items, includes));
      Expand(env, lines, path, depth)
        == Nameless(|references|) + (Own(items) + IncludedBy(env, includes, path, depth))
      && IncludePaths(lines, depth) == includes
      && StoredReferences(env, lines, path) == Stored(env, path, Portables(references))
  {
    hide *;
    DumpedAllLines(references, items, includes);
    var portable := Portables(references);
    var a, b, c := DirectiveLines(REFERENCE_LINE, portable), OwnLines(Own(items)), DirectiveLines(INCLUDE_LINE, includes);
    ExpandAppend(env, a, b + c, path, depth);
    ExpandAppend(env, b, c, path, depth);
    PortablesQuotable(references);
    ReferencesExpand(env, portable, path, depth);
    OwnLinesExpand(env, items, path, depth);
    IncludesExpand(env, includes, path, depth);
    assert [] + ([] + includes) == includes;
    assert Stored(env, path, portable) + ([] + []) == Stored(env, path, portable);
  }

  /** Storing a reference anew leaves it as it was. */
  predicate Settled(env: Env, path: string, reference: string) {
    env.store(path, Portable(reference)) == reference
  }

  /** The references survive a dump exactly when storing each of them anew leaves it alone. */
  lemma ReferencesReload(env: Env, references: seq<string>, items: seq<Item>, includes: seq<string>, path: string,
                         depth: nat)
    requires depth <= MAX_INCLUDE_DEPTH && (depth == MAX_INCLUDE_DEPTH ==> includes == [])
    requires Quotable(references) && Quotable(includes) && "" !in includes && AllKept(items)
    ensures StoredReferences(env, Lines(DumpAll(references, items, includes)), path) == references <==>
      forall i :: 0 <= i < |references| ==> Settled(env, path, references[i])
  {
    hide *;
    DumpReloads(env, references, items, includes, path, depth);
    EachSettled(env, references, path);
  }

  lemma EachSettled(env: Env, references: seq<string>, path: string)
    ensures Stored(env, path, Portables(references)) == references <==>
      forall i :: 0 <= i < |references| ==> Settled(env, path, references[i])
  {
    var again := Stored(env, path, Portables(references));
    assert forall i :: 0 <= i < |references| ==> again[i] == env.store(path, Portable(references[i]));
    if forall i :: 0 <= i < |references| ==> Settled(env, path, references[i]) {
      assert again == references;
    }
  }

  // ---- A file, loaded, dumped and loaded again ----

  predicate Borrowed(it: Item) { it.readonly }

  lemma {:induction false} NamelessHoldNothing(n: nat, k: string)
    ensures Place(Nameless(n), k) == |Nameless(n)|
  {
    if n > 0 { NamelessHoldNothing(n - 1, k); }
  }

  lemma {:induction false} ReadOnlyIsBorrowed(items: seq<Item>)
    ensures Filter(ReadOnly(items), Borrowed) == ReadOnly(items) && Filter(ReadOnly(items), IsOwn) == []
  {
    if items != [] { ReadOnlyIsBorrowed(items[1..]); }
  }

  /** Whatever is read-only after loading came from the includes, in their order. */
  lemma {:induction false} BorrowedAreIncluded(env: Env, lines: seq<string>, path: string, depth: nat)
    requires depth <= MAX_INCLUDE_DEPTH
    ensures depth == MAX_INCLUDE_DEPTH ==> IncludePaths(lines, depth) == []
    ensures Filter(Expand(env, lines, path, depth), Borrowed)
         == Filter(IncludedBy(env, IncludePaths(lines, depth), path, depth), Borrowed)
  {
    hide ParseLine, Included;
    if lines != [] {
      var rest := Expand(env, lines[1..], path, depth);
      var incs := IncludePaths(lines[1..], depth);
      BorrowedAreIncluded(env, lines[1..], path, depth);
      FilterAppend(ExpandLine(env, lines[0], path, depth), rest, Borrowed);
      if LineIncludes(lines[0], depth) == [] {
        assert [] + incs == incs;
        assert Filter(ExpandLine(env, lines[0], path, depth), Borrowed) == [];
        assert [] + Filter(rest, Borrowed) == Filter(rest, Borrowed);
      } else {
        var p := LineIncludes(lines[0], depth)[0];
        assert ([p] + incs)[0] == p && ([p] + incs)[1..] == incs;
        FilterAppend(Included(env, env.resolve(path, p), depth + 1) + [NAMELESS],
                     IncludedBy(env, incs, path, depth), Borrowed);
      }
    }
  }

  lemma {:induction false} IncludedOwnNothing(env: Env, includes: seq<string>, path: string, depth: nat)
    requires depth <= MAX_INCLUDE_DEPTH && (depth == MAX_INCLUDE_DEPTH ==> includes == [])
    ensures Filter(IncludedBy(env, includes, path, depth), IsOwn) == []
  {
    if includes != [] {
      var q := env.resolve(path, includes[0]);
      var first := Included(env, q, depth + 1);
      if q in env.files { ReadOnlyIsBorrowed(Expand(env, Lines(env.files[q]), q, depth + 1)); }
      hide Included;
      IncludedOwnNothing(env, includes[1..], path, depth);
      FilterAppend(first + [NAMELESS], IncludedBy(env, includes[1..], path, depth), IsOwn);
      FilterAppend(first, [NAMELESS], IsOwn);
    }
  }

  /** With nothing of its own under the key, a list gives what its read-only entries give. */
  lemma {:induction false} LookupBorrowed(items: seq<Item>, k: string)
    requires Valued(items) && Place(Own(items), k) == |Own(items)|
    ensures Lookup(items, k) == Lookup(Filter(items, Borrowed), k)
  {
    if items != [] {
      var it, rest := items[0], items[1..];
      assert Valued(rest);
      if IsOwn(it) {
        assert Own(items) == [it] + Own(rest) && ([it] + Own(rest))[1..] == Own(rest);
        assert Place(Own(items), k) == 1 + Place(Own(rest), k);
      }
      LookupBorrowed(rest, k);
      if Borrowed(it) {
        assert Filter(items, Borrowed) == [it] + Filter(rest, Borrowed);
        assert ([it] + Filter(rest, Borrowed))[1..] == Filter(rest, Borrowed);
      }
    }
  }

  lemma {:induction false} IncludesNotEmpty(lines: seq<string>, depth: nat)
    ensures "" !in IncludePaths(lines, depth)
  {
    if lines != [] { IncludesNotEmpty(lines[1..], depth); }
  }

  lemma {:induction false} DirectiveLinesStayLines(directive: string, paths: seq<string>)
    requires Quotable(paths) && '\n' !in directive
    ensures NoNewlines(DirectiveLines(directive, paths))
  {
    if paths != [] { DirectiveLinesStayLines(directive, paths[1..]); }
  }

  /** The first entry under the key came from an include, and the config has one of its own further on. */
  predicate Shadowed(items: seq<Item>, k: string) {
    && Place(items, k) < |items| && items[Place(items, k)].readonly
    && Place(Own(items), k) < |Own(items)|
  }

  lemma {:induction false} FirstIsOwn(items: seq<Item>, k: string)
    requires Valued(items) && Place(items, k) < |items| && !items[Place(items, k)].readonly
    ensures Place(Own(items), k) < |Own(items)| && Lookup(Own(items), k) == Lookup(items, k)
  {
    var it, rest := items[0], items[1..];
    if it.key != Some(k) {
      assert Valued(rest);
      FirstIsOwn(rest, k);
      if IsOwn(it) { assert Own(items)[1..] == Own(rest); }
    }
  }

  /** A text that is loaded, dumped and loaded again keeps every key's value, except that an include no longer wins over
      the config's own entry. */
  lemma LoadDumpLoad(env: Env, text: string, path: string, depth: nat, k: string)
    requires depth <= MAX_INCLUDE_DEPTH && AllKept(Expand(env, Lines(text), path, depth))
    requires Quotable(StoredReferences(env, Lines(text), path)) && Quotable(IncludePaths(Lines(text), depth))
    ensures var items := Expand(env, Lines(text), path, depth);
      var dump := DumpAll(StoredReferences(env, Lines(text), path), items, IncludePaths(Lines(text), depth));
      Lookup(Expand(env, Lines(dump), path, depth), k)
        == if Shadowed(items, k) then Lookup(Own(items), k) else Lookup(items, k)
  {
    var lines := Lines(text);
    var refs, items := StoredReferences(env, lines, path), Expand(env, lines, path, depth);
    var incs := IncludePaths(lines, depth);
    LinesHold(text);
    hide *;
    IncludesNotEmpty(lines, depth);
    BorrowedAreIncluded(env, lines, path, depth);
    DumpReloads(env, refs, items, incs, path, depth);
    LoadedValued(env, lines, path, depth);
    IncludesValued(env, incs, path, depth);
    IncludedOwnNothing(env, incs, path, depth);
    WhichWins(items, IncludedBy(env, incs, path, depth), |refs|, k);
  }

  lemma LoadedValued(env: Env, lines: seq<string>, path: string, depth: nat)
    requires depth <= MAX_INCLUDE_DEPTH && forall l :: l in lines ==> '\n' !in l && l != ""
    ensures Valued(Expand(env, lines, path, depth))
  {
    assert NoNewlines(lines);
    hide *;
    ExpandReadable(env, lines, path, depth);
    ReadableValued(Expand(env, lines, path, depth));
  }

  lemma IncludesValued(env: Env, incs: seq<string>, path: string, depth: nat)
    requires depth <= MAX_INCLUDE_DEPTH && (depth == MAX_INCLUDE_DEPTH ==> incs == [])
    requires Quotable(incs) && "" !in incs
    ensures Valued(IncludedBy(env, incs, path, depth))
  {
    assert '\n' !in INCLUDE_LINE;
    hide *;
    IncludesExpand(env, incs, path, depth);
    DirectiveLinesStayLines(INCLUDE_LINE, incs);
    ExpandReadable(env, DirectiveLines(INCLUDE_LINE, incs), path, depth);
    ReadableValued(IncludedBy(env, incs, path, depth));
  }

  lemma WhichWins(items: seq<Item>, more: seq<Item>, n: nat, k: string)
    requires Valued(items) && Valued(more) && Filter(items, Borrowed) == Filter(more, Borrowed)
    requires Filter(more, IsOwn) == []
    ensures Lookup(Nameless(n) + (Own(items) + more), k)
      == if Shadowed(items, k) then Lookup(Own(items), k) else Lookup(items, k)
  {
    assert Own(more) == [] && Place([], k) == 0;
    hide Place, Lookup, Own;
    NamelessHoldNothing(n, k);
    LookupAppend(Nameless(n), Own(items) + more, k);
    LookupAppend(Own(items), more, k);
    if Place(Own(items), k) == |Own(items)| {
      LookupBorrowed(items, k);
      LookupBorrowed(more, k);
    } else if !Shadowed(items, k) {
      if Place(items, k) < |items| {
        FirstIsOwn(items, k);
      } else {
        OwnIsThere(items, k);
      }
    }
  }

  lemma {:induction false} OwnIsThere(items: seq<Item>, k: string)
    requires Place(Own(items), k) < |Own(items)|
    ensures Place(items, k) < |items|
  {
    if items[0].key != Some(k) {
      if IsOwn(items[0]) { assert Own(items)[1..] == Own(items[1..]); }
      OwnIsThere(items[1..], k);
    }
  }
}
