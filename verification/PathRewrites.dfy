/** How paths may be rewritten without changing what they resolve to, and what a reference without a clean directory
    means. */
module PathRewrites {
  import opened Prelude
  import opened CStrings
  import opened PathSegments
  import opened PathResolve
  import opened PathLaws
  import opened PathRelative

  // ---- A path in two parts ----

  lemma {:induction false} SplitAppend(a: string, b: string)
    ensures Split(a + "/" + b) == Split(a) + Split(b)
    decreases |a|
  {
    var n := Chr(a, '/');
    SplitStep(a, n);
    hide Chr, Split;
    if n == |a| {
      assert forall i :: 0 <= i < |a| ==> a[i] != '/';
      SplitSegment(a, b);
    } else {
      var seg, rest := a[..n], a[n + 1..];
      assert a == seg + "/" + rest && forall i :: 0 <= i < n ==> seg[i] != '/';
      assert a + "/" + b == seg + "/" + (rest + "/" + b);
      SplitSegment(seg, rest);
      SplitSegment(seg, rest + "/" + b);
      SplitAppend(rest, b);
      ConcatAssociates([seg], Split(rest), Split(b));
    }
  }

  /** Where a walk goes on after some segments. */
  function Onwards(st: Option<seq<string>>, segs: seq<string>): Option<string>
    requires |segs| > 0
  {
    if st.None? then None else Walk(st.value, segs)
  }

  lemma {:induction false} WalkAppend(stack: seq<string>, xs: seq<string>, ys: seq<string>)
    requires |ys| > 0
    ensures Walk(stack, xs + ys) == Onwards(Reach(stack, xs), ys)
    decreases |xs|
  {
    hide Step, Text, Plain;
    if xs == [] {
      assert xs + ys == ys;
    } else {
      assert (xs + ys)[0] == xs[0] && (xs + ys)[1..] == xs[1..] + ys;
      if Step(stack, xs[0]).Some? { WalkAppend(Step(stack, xs[0]).value, xs[1..], ys); }
    }
  }

  /** The stack after the first part of a path, which is more than slashes. */
  function Midway(dirs: seq<string>, a: string): Option<seq<string>>
    requires Slashes(a) < |a|
  {
    Reach(if Absolute(a) then Empties(Slashes(a) - 1) else dirs, Split(a[Slashes(a)..]))
  }

  lemma ResolveParts(dirs: seq<string>, a: string, b: string)
    requires Slashes(a) < |a|
    ensures Resolve(dirs, a + "/" + b) == Onwards(Midway(dirs, a), Split(b))
  {
    var n, path := Slashes(a), a + "/" + b;
    assert a[n] != '/' && path[n] == a[n];
    SlashesIs(path, n);
    assert path[n..] == a[n..] + "/" + b;
    assert Absolute(path) <==> Absolute(a);
    assert n == 0 ==> path[n..] == path;
    hide Split, Walk, Reach, Slashes;
    SplitAppend(a[n..], b);
    WalkAppend(if Absolute(a) then Empties(n - 1) else dirs, Split(a[n..]), Split(b));
  }

  // ---- Rewriting ----

  lemma Here(b: string)
    ensures Split("./" + b) == ["."] + Split(b) && Split("/" + b) == [""] + Split(b)
    ensures Split("../" + b) == [".."] + Split(b)
  {
    assert "./" + b == "." + "/" + b && "/" + b == "" + "/" + b && "../" + b == ".." + "/" + b;
    hide Split;
    SplitSegment(".", b);
    SplitSegment("", b);
    SplitSegment("..", b);
  }

  lemma IdleStep(st: seq<string>, seg: string, segs: seq<string>)
    requires (seg == "." || seg == "") && |segs| > 0
    ensures Walk(st, [seg] + segs) == Walk(st, segs)
  {
    hide Text;
    assert ([seg] + segs)[1..] == segs;
  }

  /** "." stays where it is, in the middle of a path and at its start. */
  lemma DotIsNothing(dirs: seq<string>, a: string, b: string)
    ensures Slashes(a) < |a| ==> Resolve(dirs, a + "/" + ("./" + b)) == Resolve(dirs, a + "/" + b)
    ensures !Absolute(b) ==> Resolve(dirs, "./" + b) == Resolve(dirs, b)
  {
    Here(b);
    hide Split, Walk, Reach, Midway;
    if Slashes(a) < |a| {
      ResolveParts(dirs, a, "./" + b);
      ResolveParts(dirs, a, b);
      if Midway(dirs, a).Some? { IdleStep(Midway(dirs, a).value, ".", Split(b)); }
    }
    IdleStep(dirs, ".", Split(b));
  }

  /** Two slashes inside a path are one. */
  lemma SlashesMerge(dirs: seq<string>, a: string, b: string)
    requires Slashes(a) < |a|
    ensures Resolve(dirs, a + "/" + ("/" + b)) == Resolve(dirs, a + "/" + b)
  {
    Here(b);
    hide Split, Walk, Reach, Midway;
    ResolveParts(dirs, a, "/" + b);
    ResolveParts(dirs, a, b);
    if Midway(dirs, a).Some? { IdleStep(Midway(dirs, a).value, "", Split(b)); }
  }

  /** ".." takes back the name before it. */
  lemma UpTakesBack(dirs: seq<string>, a: string, name: string, b: string)
    requires Slashes(a) < |a| && Plain(name) && '/' !in name && Resolve(dirs, a + "/" + (name + "/")).Some?
    ensures Resolve(dirs, a + "/" + (name + "/" + ("../" + b))) == Resolve(dirs, a + "/" + b)
  {
    Here(b);
    assert name + "/" == name + "/" + "";
    hide Split, Reach, Midway, Plain, Slashes;
    SplitSegment(name, "");
    SplitSegment(name, "../" + b);
    ResolveParts(dirs, a, name + "/");
    ResolveParts(dirs, a, name + "/" + ("../" + b));
    ResolveParts(dirs, a, b);
    if Midway(dirs, a).Some? { UpAgain(Midway(dirs, a).value, name, Split(""), Split(b)); }
  }

  lemma UpAgain(st: seq<string>, name: string, more: seq<string>, segs: seq<string>)
    requires Plain(name) && |more| > 0 && |segs| > 0 && Walk(st, [name] + more).Some?
    ensures Walk(st, [name] + ([".."] + segs)) == Walk(st, segs)
  {
    hide Text;
    assert ([name] + ([".."] + segs))[1..] == [".."] + segs && ([".."] + segs)[1..] == segs;
    assert (st + [name])[..|st|] == st;
  }

  /** A relative path stands behind the working directory. */
  lemma UnderWorkingDirectory(dirs: seq<string>, path: string)
    requires Proper(dirs) && |Text(dirs)| <= PATH_MAX_LENGTH - 1 && !Absolute(path)
    ensures dirs != [] || path != "" ==> Resolve(dirs, path) == Resolve([], Text(dirs) + path)
    ensures |Text(dirs)| > 0 && Text(dirs)[0] == '/' && Text(dirs)[|Text(dirs)| - 1] == '/'
  {
    TextLast(dirs);
    if dirs != [] || path != "" {
      var joined := Text(dirs) + path;
      assert joined[1..] == Join(dirs) + path;
      if dirs == [] {
        assert joined[1..] == path;
      } else {
        FirstIsName(dirs, "");
        assert Join(dirs) + "" == Join(dirs) && joined[1] == Join(dirs)[0];
      }
      SlashesIs(joined, 1);
      hide Split, Walk, Join, Text, Slashes;
      assert [] + dirs == dirs && Empties(0) == [];
      WalkJoin([], dirs, path);
    }
  }

  /** Names below the working directory, spelled out. */
  lemma NamesBelow(dirs: seq<string>, names: seq<string>, last: string)
    requires Proper(dirs) && Names(names) && Plain(last) && '/' !in last
    requires |Text(dirs + names)| + |last| + 1 <= PATH_MAX_LENGTH - 1
    ensures Resolve(dirs, Join(names) + last) == Some(Text(dirs + names) + last)
  {
    FirstIsName(names, last);
    assert !Absolute(Join(names) + last);
    SplitSegment(last, "");
    hide Split, Join, Slashes, Text;
    WalkJoin(dirs, names, last);
  }

  // ---- What a reference contributes ----

  predicate NoSeparator(s: string) {
    forall i :: 0 <= i < |s| ==> s[i] != '/' && s[i] != '\\'
  }

  /** The directory of a path: itself when it is at most one character; "./" when it has no separator; else everything up
      to the last slash or backslash. */
  lemma DirectoryOf(s: string, dir: string, file: string)
    ensures |s| <= 1 ==> BaseDir(s) == s
    ensures |s| >= 2 && NoSeparator(s) ==> BaseDir(s) == "./"
    ensures |s| >= 2 && NoSeparator(file) && (s == dir + "/" + file || s == dir + "\\" + file) ==>
      BaseDir(s) == s[..|dir| + 1]
  {
    if NoSeparator(s) { ThroughLastIs(s, 0); }
    if NoSeparator(file) && (s == dir + "/" + file || s == dir + "\\" + file) {
      assert forall i :: |dir| < i < |s| ==> s[i] == file[i - |dir| - 1];
      ThroughLastIs(s, |dir| + 1);
    }
  }

  /** A relative path against a reference that has no directory is resolved as it is. */
  lemma BareReference(dirs: seq<string>, ref: string, path: string, len: nat)
    requires |ref| >= 2 && NoSeparator(ref) && !Absolute(path) && |ref| < len && |path| + 2 < len
    ensures Resolve(dirs, path).None? ==> ResolveRelative(dirs, ref, path, len) == "./" + path
    ensures Resolve(dirs, path).Some? ==>
      ResolveRelative(dirs, ref, path, len) == Truncate(Resolve(dirs, path).value, len)
  {
    DirectoryOf(ref, "", "");
    hide BaseDir, NoSeparator, Resolve;
    DotIsNothing(dirs, "", path);
  }

  /** A relative path against a reference in a directory is resolved behind that directory; a backslash ends one too, but
      stays an ordinary character of the path. */
  lemma ReferenceInDirectory(dirs: seq<string>, dir: string, sep: string, file: string, path: string, len: nat)
    requires (sep == "/" || sep == "\\") && NoSeparator(file) && |dir + sep + file| >= 2 && !Absolute(path)
    requires |dir + sep + file| < len && |dir + sep + path| < len
    ensures var joined, out := dir + sep + path, ResolveRelative(dirs, dir + sep + file, path, len);
      out == if Resolve(dirs, joined).None? then joined else Truncate(Resolve(dirs, joined).value, len)
  {
    var ref := dir + sep + file;
    DirectoryOf(ref, dir, file);
    assert ref[..|dir| + 1] == dir + sep;
    hide BaseDir, NoSeparator, Resolve;
  }

  /** A reference of one character, or none, is put straight in front of the path. */
  lemma ShortReference(dirs: seq<string>, ref: string, path: string, len: nat)
    requires |ref| <= 1 && !Absolute(path) && |ref + path| < len && 1 < len
    ensures var out := ResolveRelative(dirs, ref, path, len);
      out == if Resolve(dirs, ref + path).None? then ref + path else Truncate(Resolve(dirs, ref + path).value, len)
  {
    DirectoryOf(ref, "", "");
    hide BaseDir, Resolve;
  }

  /** fill_pathname_resolve_relative for a file beside a reference without a directory: it lies in the working
      directory. */
  method FillBeside(s: array<char>, refpath: CString, name: CString, len: nat, cwd: string, ghost dirs: seq<string>)
    requires 0 < len <= s.Length && len <= PATH_MAX_LENGTH
    requires Proper(dirs) && cwd == Cwd(dirs) && |cwd| <= PATH_MAX_LENGTH - 2
    requires |refpath| >= 2 && NoSeparator(refpath) && |refpath| < len
    requires Plain(name) && '/' !in name && |Text(dirs)| + |name| + 1 < len
    modifies s
    ensures Holds(s, 0, Text(dirs) + name)
  {
    assert Join([]) + name == name && dirs + [] == dirs && !Absolute(name) && |Text(dirs)| > 0;
    BareReference(dirs, refpath, name, len);
    NamesBelow(dirs, [], name);
    hide *;
    var _ := FillResolveRelative(s, refpath, name, len, cwd, dirs);
    NotCut(Text(dirs) + name, len);
  }
}
