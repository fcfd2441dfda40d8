/** What path_resolve_realpath should compute: a walk over segments with a stack. */
module PathSegments {
  import opened Prelude
  import opened CStrings

  const PATH_MAX_LENGTH: nat := 2048

  /** The stretches between slashes; a trailing slash gives a last, empty one. */
  function Split(s: string): (r: seq<string>)
    ensures |r| >= 1
  {
    var n := Chr(s, '/');
    if n == |s| then [s] else [s[..n]] + Split(s[n + 1..])
  }

  /** Each segment with the slash that follows it. */
  function Join(stack: seq<string>): string {
    if stack == [] then "" else stack[0] + "/" + Join(stack[1..])
  }

  function Text(stack: seq<string>): string {
    "/" + Join(stack)
  }

  predicate Plain(seg: string) {
    seg != "" && seg != "." && seg != ".."
  }

  /** One segment: ".." climbs, "." and "" stay, and a name goes one down if the output still fits. */
  function Step(stack: seq<string>, seg: string): Option<seq<string>> {
    if seg == ".." then
      if stack == [] || stack[|stack| - 1] == "" then None else Some(stack[..|stack| - 1])
    else if !Plain(seg) then Some(stack)
    else if |Text(stack)| + |seg| + 1 > PATH_MAX_LENGTH - 1 then None
    else Some(stack + [seg])
  }

  /** A name at the very end is not followed by a slash. */
  function Walk(stack: seq<string>, segs: seq<string>): Option<string>
    requires |segs| > 0
    decreases |segs|
  {
    match Step(stack, segs[0])
    case None => None
    case Some(st) =>
      if |segs| > 1 then Walk(st, segs[1..]) else Some(if Plain(segs[0]) then Text(stack) + segs[0] else Text(st))
  }

  function Slashes(s: string): (n: nat)
    ensures n <= |s| && (forall i :: 0 <= i < n ==> s[i] == '/') && (n < |s| ==> s[n] != '/')
  {
    if s != "" && s[0] == '/' then 1 + Slashes(s[1..]) else 0
  }

  function Empties(n: nat): (r: seq<string>)
    ensures |r| == n && forall i :: 0 <= i < n ==> r[i] == ""
  {
    if n == 0 then [] else Empties(n - 1) + [""]
  }

  predicate Absolute(s: string) {
    s != "" && s[0] == '/'
  }

  /** Leading slashes are kept: each one after the first stands before an empty segment. */
  function Resolve(dirs: seq<string>, path: string): Option<string> {
    if Absolute(path) then Walk(Empties(Slashes(path) - 1), Split(path[Slashes(path)..])) else Walk(dirs, Split(path))
  }

  // ---- The working directory ----

  predicate Proper(stack: seq<string>) {
    forall i :: 0 <= i < |stack| ==> Plain(stack[i]) && '/' !in stack[i] && '\0' !in stack[i]
  }

  /** The string getcwd gives for these directories. */
  function Cwd(dirs: seq<string>): string {
    if dirs == [] then "/" else Text(dirs)[..|Text(dirs)| - 1]
  }

  // ---- Join ----

  lemma {:induction false} JoinSnoc(stack: seq<string>, seg: string)
    ensures Join(stack + [seg]) == Join(stack) + seg + "/"
    ensures Text(stack + [seg]) == Text(stack) + seg + "/"
  {
    if stack == [] {
      assert [seg][1..] == [] && stack + [seg] == [seg];
      assert "" + seg + "/" == seg + "/" + "";
    } else {
      JoinSnoc(stack[1..], seg);
      assert (stack + [seg])[1..] == stack[1..] + [seg];
      JoinStep(stack[0] + "/", Join(stack[1..]), seg);
    }
    JoinStep("/", Join(stack), seg);
  }

  lemma JoinStep(a: string, b: string, c: string)
    ensures a + (b + c + "/") == (a + b) + c + "/"
  {
  }

  lemma TextLast(stack: seq<string>)
    ensures Text(stack)[|Text(stack)| - 1] == '/'
  {
    if stack != [] {
      assert stack == stack[..|stack| - 1] + [stack[|stack| - 1]];
      JoinSnoc(stack[..|stack| - 1], stack[|stack| - 1]);
    }
  }

  lemma TextPop(stack: seq<string>)
    requires stack != []
    ensures Text(stack) == Text(stack[..|stack| - 1]) + stack[|stack| - 1] + "/"
  {
    assert stack == stack[..|stack| - 1] + [stack[|stack| - 1]];
    JoinSnoc(stack[..|stack| - 1], stack[|stack| - 1]);
  }

  lemma {:induction false} EmptiesText(n: nat)
    ensures |Text(Empties(n))| == n + 1 && forall i :: 0 <= i <= n ==> Text(Empties(n))[i] == '/'
  {
    if n > 0 {
      EmptiesText(n - 1);
      JoinSnoc(Empties(n - 1), "");
    }
  }

  // ---- Split ----

  lemma SplitStep(s: string, n: nat)
    requires n == Chr(s, '/')
    ensures Split(s)[0] == s[..n] && (|Split(s)| > 1 <==> n < |s|)
    ensures n < |s| ==> Split(s)[1..] == Split(s[n + 1..])
  {
    if n == |s| {
      assert s[..n] == s;
    } else {
      var rest := Split(s[n + 1..]);
      assert Split(s) == [s[..n]] + rest;
      hide Split;
      assert Split(s)[1..] == rest;
    }
  }

  lemma SplitSegment(seg: string, rest: string)
    requires '/' !in seg
    ensures Split(seg + "/" + rest) == [seg] + Split(rest)
    ensures Split(seg) == [seg]
  {
    var s := seg + "/" + rest;
    ChrIs(s, '/', |seg|);
    assert s[..|seg|] == seg && s[|seg| + 1..] == rest;
    ChrIs(seg, '/', |seg|);
  }
}
