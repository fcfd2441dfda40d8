/** path_basedir, path_relative_to and fill_pathname_resolve_relative, and how the last undoes the second. */
module PathRelative {
  import opened Prelude
  import opened CStrings
  import opened PathSegments
  import opened PathResolve
  import opened PathLaws

  // ---- What they compute ----

  predicate Separator(c: char) {
    c == '/' || c == '\\'
  }

  /** Length up to and including the last slash or backslash; 0 when there is none. */
  function ThroughLast(s: string): (n: nat)
    ensures n <= |s| && (n > 0 ==> Separator(s[n - 1])) && forall i :: n <= i < |s| ==> !Separator(s[i])
  {
    if s == "" then 0 else if Separator(s[|s| - 1]) then |s| else ThroughLast(s[..|s| - 1])
  }

  function BaseDir(s: string): string {
    if |s| < 2 then s else if ThroughLast(s) == 0 then "./" else s[..ThroughLast(s)]
  }

  /** Length of the common beginning. */
  function Common(a: string, b: string): (n: nat)
    ensures n <= |a| && n <= |b| && a[..n] == b[..n] && (n < |a| && n < |b| ==> a[n] != b[n])
  {
    if a != "" && b != "" && a[0] == b[0] then 1 + Common(a[1..], b[1..]) else 0
  }

  /** Length up to and including the last slash. */
  function ThroughSlash(s: string): (n: nat)
    ensures n <= |s| && (n > 0 ==> s[n - 1] == '/') && forall i :: n <= i < |s| ==> s[i] != '/'
  {
    if s == "" then 0 else if s[|s| - 1] == '/' then |s| else ThroughSlash(s[..|s| - 1])
  }

  function CountSlashes(s: string): nat {
    if s == "" then 0 else (if s[0] == '/' then 1 else 0) + CountSlashes(s[1..])
  }

  function Ups(n: nat): string {
    if n == 0 then "" else "../" + Ups(n - 1)
  }

  /** Up once for each directory of the base below the last common one, then down the path. */
  function RelativeTo(path: string, base: string): string {
    var i := Common(path, base);
    Ups(CountSlashes(base[i..])) + path[ThroughSlash(path[..i])..]
  }

  /** fill_pathname_resolve_relative: a join that cannot be resolved is left as it is. */
  function ResolveRelative(dirs: seq<string>, refpath: string, inPath: string, len: nat): string
    requires len > 0
  {
    if Absolute(inPath) then Truncate(inPath, len) else
    match Resolve(dirs, Joined(refpath, inPath, len))
    case None => Joined(refpath, inPath, len)
    case Some(out) => Truncate(out, len)
  }

  /** The path after the directory of the reference, cut at each step. */
  function Joined(refpath: string, inPath: string, len: nat): string
    requires len > 0
  {
    Truncate(BaseDir(Truncate(refpath, len)) + inPath, len)
  }

  // ---- The byte loops ----

  method LastChar(s: array<char>, c: char, ghost path: string) returns (found: bool, at: nat)
    requires Holds(s, 0, path) && c != '\0'
    ensures found ==> at < |path| && path[at] == c && forall i :: at < i < |path| ==> path[i] != c
    ensures !found ==> c !in path
  {
    found, at := false, 0;
    var i := 0;
    HoldsTail(s, 0, path, 0);
    while s[i] != '\0'
      invariant i <= |path| && (!found ==> forall k :: 0 <= k < i ==> path[k] != c)
      invariant found ==> at < i && path[at] == c && forall k :: at < k < i ==> path[k] != c
      decreases |path| - i
    {
      HoldsTail(s, 0, path, i);
      if s[i] == c {
        found, at := true, i;
      }
      i := i + 1;
    }
    HoldsTail(s, 0, path, i);
    NoNul(s, 0, path);
  }

  /** path_basedir. */
  method PathBaseDir(s: array<char>, ghost path: string) returns (n: nat)
    requires Holds(s, 0, path)
    modifies s
    ensures Holds(s, 0, BaseDir(path)) && n == |BaseDir(path)|
  {
    HoldsTail(s, 0, path, 0);
    NoNul(s, 0, path);
    if s[0] == '\0' {
      return 0;
    }
    HoldsTail(s, 0, path, 1);
    if s[1] == '\0' {
      return 1;
    }
    var hasSlash, slash := LastChar(s, '/', path);
    var hasBack, back := LastChar(s, '\\', path);
    if hasSlash || hasBack {
      var last := if !hasSlash || (hasBack && back > slash) then back else slash;
      ThroughLastIs(path, last + 1);
      CutAt(s, 0, last + 1, path);
      return last + 1;
    }
    ThroughLastIs(path, 0);
    s[0], s[1], s[2] := '.', '/', '\0';
    return 2;
  }

  lemma {:induction false} ThroughLastIs(s: string, n: nat)
    requires n <= |s| && (n > 0 ==> Separator(s[n - 1])) && forall i :: n <= i < |s| ==> !Separator(s[i])
    ensures ThroughLast(s) == n
  {
    if n < |s| { ThroughLastIs(s[..|s| - 1], n); }
  }

  lemma {:induction false} ThroughSlashIs(s: string, n: nat)
    requires n <= |s| && (n > 0 ==> s[n - 1] == '/') && forall i :: n <= i < |s| ==> s[i] != '/'
    ensures ThroughSlash(s) == n
  {
    if n < |s| { ThroughSlashIs(s[..|s| - 1], n); }
  }

  /** strlcat. */
  method Concat(s: array<char>, len: nat, source: string, ghost cur: string)
    requires Holds(s, 0, cur) && |cur| < len <= s.Length && '\0' !in source
    modifies s
    ensures Holds(s, 0, Truncate(cur + source, len))
  {
    ghost var all := cur + source;
    var n := StrLen(s, cur);
    var i := 0;
    while i < |source| && n + i < len - 1
      invariant i <= |source| && n + i <= len - 1
      invariant forall k :: 0 <= k < n + i ==> s[k] == all[k]
    {
      s[n + i] := source[i];
      i := i + 1;
    }
    s[n + i] := '\0';
    assert Truncate(all, len) == all[..n + i];
  }

  lemma TruncateTwice(a: string, b: string, len: nat)
    requires len > 0
    ensures Truncate(Truncate(a, len) + b, len) == Truncate(a + b, len)
  {
    if |a| >= len { assert (a[..len - 1] + b)[..len - 1] == a[..len - 1] == (a + b)[..len - 1]; }
  }

  lemma {:induction false} CommonIs(a: string, b: string, n: nat)
    requires n <= |a| && n <= |b| && a[..n] == b[..n] && (n < |a| && n < |b| ==> a[n] != b[n])
    ensures Common(a, b) == n
  {
    if n > 0 {
      assert a[..n][0] == b[..n][0];
      assert a[1..][..n - 1] == a[..n][1..] == b[..n][1..] == b[1..][..n - 1];
      CommonIs(a[1..], b[1..], n - 1);
    }
  }

  /** path_relative_to. */
  method PathRelativeTo(s: array<char>, path: CString, base: CString, len: nat)
    requires 0 < len <= s.Length
    modifies s
    ensures Holds(s, 0, Truncate(RelativeTo(path, base), len))
  {
    var i, j := 0, 0;
    while i < |path| && i < |base| && path[i] == base[i]
      invariant i <= |path| && i <= |base| && path[..i] == base[..i]
      invariant j <= i && (j > 0 ==> path[j - 1] == '/') && forall k :: j <= k < i ==> path[k] != '/'
    {
      if path[i] == '/' {
        j := i + 1;
      }
      i := i + 1;
    }
    CommonIs(path, base, i);
    ThroughSlashIs(path[..i], j);
    WriteUps(s, base, i, len);
    var trimmed := path[j..];
    ghost var ups := CountSlashes(base[i..]);
    Concat(s, len, trimmed, Truncate(Ups(ups), len));
    TruncateTwice(Ups(ups), trimmed, len);
  }

  /** "../" for every slash of the base from a place on. */
  method WriteUps(s: array<char>, base: string, from: nat, len: nat)
    requires 0 < len <= s.Length && from <= |base|
    modifies s
    ensures Holds(s, 0, Truncate(Ups(CountSlashes(base[from..])), len))
  {
    s[0] := '\0';
    var k := from;
    ghost var ups: nat := 0;
    while k < |base|
      invariant from <= k <= |base| && CountSlashes(base[from..]) == ups + CountSlashes(base[k..])
      invariant Holds(s, 0, Truncate(Ups(ups), len))
    {
      assert base[k..][1..] == base[k + 1..];
      if base[k] == '/' {
        Concat(s, len, "../", Truncate(Ups(ups), len));
        TruncateTwice(Ups(ups), "../", len);
        UpsSnoc(ups);
        ups := ups + 1;
      }
      k := k + 1;
    }
  }

  lemma {:induction false} UpsSnoc(n: nat)
    ensures Ups(n) + "../" == Ups(n + 1)
  {
    if n > 0 {
      UpsSnoc(n - 1);
      ConcatAssociates("../", Ups(n - 1), "../");
    }
  }

  /** fill_pathname_resolve_relative. Only a buffer above the path limit can hold a join that overruns the resolver's. */
  method FillResolveRelative(s: array<char>, refpath: CString, inPath: CString, len: nat, cwd: string,
                             ghost dirs: seq<string>)
    returns (inside: bool)
    requires 0 < len <= s.Length
    requires Proper(dirs) && cwd == Cwd(dirs) && |cwd| <= PATH_MAX_LENGTH - 2
    modifies s
    ensures inside <==> Absolute(inPath) || !Overruns(Joined(refpath, inPath, len))
    ensures inside ==> Holds(s, 0, ResolveRelative(dirs, refpath, inPath, len))
    ensures len <= PATH_MAX_LENGTH ==> inside
  {
    s[0] := '\0';
    if inPath != "" && inPath[0] == '/' {
      Concat(s, len, inPath, "");
      assert "" + inPath == inPath;
      return true;
    }
    Concat(s, len, refpath, "");
    assert "" + refpath == refpath;
    ghost var dir := Truncate(refpath, len);
    var n := PathBaseDir(s, dir);
    ghost var joined := Joined(refpath, inPath, len);
    Concat(s, len, inPath, BaseDir(dir));
    hide Overruns;
    ShortStaysInside(joined);
    var o := ResolveRealpath(s, len, cwd, joined, dirs);
    inside := o != Overrun;
  }

  lemma ShortStaysInside(path: string)
    ensures |path| < PATH_MAX_LENGTH ==> !Overruns(path)
  {
  }

  // ---- Resolving undoes it ----

  lemma {:induction false} CountAppend(a: string, b: string)
    ensures CountSlashes(a + b) == CountSlashes(a) + CountSlashes(b)
  {
    if a == "" {
      assert a + b == b;
    } else {
      CountAppend(a[1..], b);
      assert (a + b)[1..] == a[1..] + b;
    }
  }

  lemma {:induction false} CountNone(a: string)
    requires '/' !in a
    ensures CountSlashes(a) == 0
  {
    if a != "" {
      assert forall c :: c in a[1..] ==> c in a;
      CountNone(a[1..]);
    }
  }

  lemma {:induction false} CountJoin(names: seq<string>)
    requires Slashless(names)
    ensures CountSlashes(Join(names)) == |names|
  {
    if names != [] {
      CountNone(names[0]);
      CountAppend(names[0] + "/", Join(names[1..]));
      CountAppend(names[0], "/");
      CountJoin(names[1..]);
      assert CountSlashes("/") == 1 by { assert "/"[1..] == ""; }
    }
  }

  lemma SlashBefore(a: string, b: string, j: nat)
    requires 0 < j <= |a + b| && (a + b)[j - 1] == '/' && '/' !in b
    ensures j <= |a|
  {
    assert forall i :: |a| <= i < |a + b| ==> (a + b)[i] == b[i - |a|] && b[i - |a|] in b;
  }

  /** A slash in the text of a stack ends one of its segments. */
  lemma {:induction false} CutText(names: seq<string>, j: nat) returns (n: nat)
    requires Slashless(names) && 0 < j <= |Text(names)| && Text(names)[j - 1] == '/'
    ensures n <= |names| && Text(names)[..j] == Text(names[..n]) && Text(names)[j..] == Join(names[n..])
    decreases |names|
  {
    if j == |Text(names)| {
      n := |names|;
      assert names[..n] == names && names[n..] == [];
    } else {
      var init, top := names[..|names| - 1], names[|names| - 1];
      TextPop(names);
      var front := Text(init);
      assert (front + top)[j - 1] == Text(names)[j - 1];
      SlashBefore(front, top, j);
      assert front[j - 1] == Text(names)[j - 1];
      n := CutText(init, j);
      assert init[..n] == names[..n] && names[n..] == init[n..] + [top];
      JoinSnoc(init[n..], top);
      assert Text(names)[j..] == front[j..] + top + "/";
      assert Text(names)[..j] == front[..j];
    }
  }

  /** Each "../" takes one name off the stack. */
  lemma {:induction false} WalkUps(stack: seq<string>, u: nat, tail: string)
    requires u <= |stack| && (forall i :: 0 <= i < |stack| ==> stack[i] != "")
    ensures Walk(stack, Split(Ups(u) + tail)) == Walk(stack[..|stack| - u], Split(tail))
    decreases u
  {
    NoUps(stack, tail);
    hide *;
    if u > 0 {
      var less := stack[..|stack| - 1];
      OneUp(stack, u, tail);
      WalkUps(less, u - 1, tail);
      assert less[..|less| - (u - 1)] == stack[..|stack| - u];
    }
  }

  lemma NoUps(stack: seq<string>, tail: string)
    ensures Ups(0) + tail == tail && stack[..|stack| - 0] == stack
  {
  }

  lemma OneUp(stack: seq<string>, u: nat, tail: string)
    requires u > 0 && stack != [] && stack[|stack| - 1] != ""
    ensures Walk(stack, Split(Ups(u) + tail)) == Walk(stack[..|stack| - 1], Split(Ups(u - 1) + tail))
  {
    var up, rest := "..", Ups(u - 1) + tail;
    assert Ups(u) == "../" + Ups(u - 1) && "../" == up + "/" && '/' !in up;
    hide *;
    ConcatAssociates(up + "/", Ups(u - 1), tail);
    SplitSegment(up, rest);
    OneLess(stack, Split(rest));
  }

  lemma OneLess(stack: seq<string>, segs: seq<string>)
    requires stack != [] && stack[|stack| - 1] != "" && |segs| > 0
    ensures Walk(stack, [".."] + segs) == Walk(stack[..|stack| - 1], segs)
  {
    assert ([".."] + segs)[1..] == segs;
  }

  /** The directories of an absolute base that ends in a slash, and of a path. */
  predicate Names(names: seq<string>) {
    forall i :: 0 <= i < |names| ==> Plain(names[i]) && '/' !in names[i]
  }

  /** Where path and base part: the base's directories above that, and the rest of the path. */
  lemma Parting(path: string, base: string, st: seq<string>, last: string, names: seq<string>)
    returns (n: nat, m: nat, j: nat)
    requires Names(st) && Tail(st, last) && path == Text(st) + last && Names(names) && base == Text(names)
    ensures n <= |names| && m <= |st| && 0 < j <= |path| && Text(names[..n]) + path[j..] == path
    ensures path[j..] == Join(st[m..]) + last
    ensures RelativeTo(path, base) == Ups(|names| - n) + path[j..]
  {
    assert RelativeTo(path, base) == Ups(CountSlashes(base[Common(path, base)..])) + path[ThroughSlash(path[..Common(path, base)])..];
    assert Slashless(names) && Slashless(st) && '/' !in last;
    assert Text(st) + last != "" && (Text(st) + last)[0] == '/' && Text(names) != "" && Text(names)[0] == '/';
    hide *;
    var i: nat;
    i, j := LastShared(path, base);
    n := CutText(names, j);
    SlashBefore(Text(st), last, j);
    CutBefore(Text(st), last, j);
    m := CutText(st, j);
    UpsNeeded(names, base, n, i, j);
  }

  /** Up to and with the last slash of their common beginning, two absolute paths agree. */
  lemma LastShared(path: string, base: string) returns (i: nat, j: nat)
    requires path != "" && base != "" && path[0] == base[0] == '/'
    ensures i == Common(path, base) <= |base| && i <= |path| && j == ThroughSlash(path[..i]) && 0 < j <= i
    ensures path[..j] == base[..j] && path[j - 1] == base[j - 1] == '/'
    ensures path == path[..j] + path[j..] && forall k :: j <= k < i ==> base[k] != '/'
  {
    i := Common(path, base);
    j := ThroughSlash(path[..i]);
    assert j > 0 by { assert path[..i][0] == '/'; }
    assert path[..i][j - 1] == base[..i][j - 1] == '/';
    assert path[..j] == path[..i][..j] == base[..i][..j] == base[..j];
    forall k | j <= k < i ensures base[k] != '/' { assert path[..i][k] == base[..i][k]; }
  }

  lemma CutBefore(a: string, b: string, j: nat)
    requires 0 < j <= |a|
    ensures (a + b)[j..] == a[j..] + b && (a + b)[j - 1] == a[j - 1] && (a + b)[..j] == a[..j]
  {
  }

  lemma UpsNeeded(names: seq<string>, base: string, n: nat, i: nat, j: nat)
    requires Names(names) && base == Text(names) && n <= |names| && j <= i <= |base| && base[j..] == Join(names[n..])
    requires forall k :: j <= k < i ==> base[k] != '/'
    ensures CountSlashes(base[i..]) == |names| - n
  {
    hide Join;
    var between := base[j..i];
    assert base[j..] == between + base[i..];
    CountAppend(between, base[i..]);
    CountNone(between);
    CountJoin(names[n..]);
  }

  /** For any path and base in normal form, resolving the relative path against the base gives the path. */
  lemma RelativeRoundTrip(path: string, base: string, st: seq<string>, last: string, names: seq<string>,
                          dirs: seq<string>, len: nat)
    requires Names(st) && Tail(st, last) && path == Text(st) + last
    requires Names(names) && base == Text(names) && |base| <= PATH_MAX_LENGTH - 1
    requires |base| + |RelativeTo(path, base)| < len && |path| < len
    ensures ResolveRelative(dirs, base, RelativeTo(path, base), len) == path
  {
    hide *;
    var n, m, j := Parting(path, base, st, last, names);
    var u, tail := |names| - n, path[j..];
    NotAbsolute(u, st, m, last, tail);
    JoinedIs(base, names, Ups(u) + tail, len);
    JoinedStart(names, u, tail, st, m, last);
    PathWalks(path, st, last);
    BackTo(names, n, tail, path);
    ResolvesBack(dirs, base, Ups(u) + tail, len, base + (Ups(u) + tail), path);
  }

  lemma JoinedIs(base: string, names: seq<string>, rel: string, len: nat)
    requires base == Text(names) && |base| + |rel| < len
    ensures Joined(base, rel, len) == base + rel && Absolute(base + rel)
  {
    TextLast(names);
    assert BaseDir(base) == base;
  }

  /** Up from the base's directories to a shared one, and down again. */
  lemma BackTo(names: seq<string>, n: nat, tail: string, path: string)
    requires Names(names) && |Text(names)| <= PATH_MAX_LENGTH - 1 && n <= |names|
    requires path == Text(names[..n]) + tail && Walk([], Split(path[1..])) == Some(path)
    ensures Walk([], Split((Text(names) + (Ups(|names| - n) + tail))[1..])) == Some(path)
  {
    hide *;
    FrontNames(names, n);
    Down(names, Ups(|names| - n) + tail);
    UpTo(names, n, tail);
    Down(names[..n], tail);
  }

  lemma UpTo(names: seq<string>, n: nat, tail: string)
    requires Names(names) && n <= |names|
    ensures Walk(names, Split(Ups(|names| - n) + tail)) == Walk(names[..n], Split(tail))
  {
    assert forall i :: 0 <= i < |names| ==> names[i] != "";
    hide *;
    WalkUps(names, |names| - n, tail);
  }

  lemma FrontNames(names: seq<string>, n: nat)
    requires Names(names) && n <= |names|
    ensures Names(names[..n]) && |Text(names[..n])| <= |Text(names)|
  {
    TextGrows(names[..n], names[n..]);
    hide Text;
    assert names[..n] + names[n..] == names;
  }

  /** The names of an absolute path go on the stack. */
  lemma Down(names: seq<string>, tail: string)
    requires Names(names) && |Text(names)| <= PATH_MAX_LENGTH - 1
    ensures Walk([], Split((Text(names) + tail)[1..])) == Walk(names, Split(tail))
  {
    assert (Text(names) + tail)[1..] == Join(names) + tail;
    hide Join, Split, Walk, Text;
    assert [] + names == names;
    WalkJoin([], names, tail);
  }

  lemma ResolvesBack(dirs: seq<string>, base: string, rel: string, len: nat, joined: string, path: string)
    requires len > 0 && !Absolute(rel) && Joined(base, rel, len) == joined && Absolute(joined) && Slashes(joined) == 1
    requires Walk([], Split(joined[1..])) == Some(path) && |path| < len
    ensures ResolveRelative(dirs, base, rel, len) == path
  {
    assert Empties(0) == [];
    hide Walk, Split, Joined, Slashes;
  }

  lemma PathWalks(path: string, st: seq<string>, last: string)
    requires Names(st) && Tail(st, last) && path == Text(st) + last
    ensures Walk([], Split(path[1..])) == Some(path)
  {
    Rewalk(st, 0, last, []);
    LayeredText(st, 0, last);
    assert Empties(0) == [];
  }

  lemma NotAbsolute(u: nat, st: seq<string>, m: nat, last: string, tail: string)
    requires Names(st) && Tail(st, last) && m <= |st| && tail == Join(st[m..]) + last
    ensures !Absolute(Ups(u) + tail)
  {
    FirstIsName(st[m..], last);
    if u == 0 { assert Ups(0) + tail == tail; }
  }

  lemma JoinedStart(names: seq<string>, u: nat, tail: string, st: seq<string>, m: nat, last: string)
    requires Names(names) && Names(st) && Tail(st, last) && m <= |st| && tail == Join(st[m..]) + last && u <= |names|
    ensures Slashes(Text(names) + (Ups(u) + tail)) == 1
  {
    hide Ups;
    var joined := Text(names) + (Ups(u) + tail);
    if names == [] {
      assert joined[1..] == Ups(u) + tail;
      NotAbsolute(u, st, m, last, tail);
    } else {
      FirstIsName(names, "");
      assert Join(names) + "" == Join(names);
      assert joined[1] == Join(names)[0];
    }
    SlashesIs(joined, 1);
  }
}
