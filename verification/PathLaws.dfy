/** What the normaliser promises: when it fails, what its output looks like, and that it changes nothing twice. */
module PathLaws {
  import opened Prelude
  import opened CStrings
  import opened PathSegments

  // ---- When it fails ----

  /** The stack after all of `segs`, if no step fails. */
  function Reach(stack: seq<string>, segs: seq<string>): Option<seq<string>>
    decreases |segs|
  {
    if segs == [] then Some(stack) else
    match Step(stack, segs[0])
    case None => None
    case Some(st) => Reach(st, segs[1..])
  }

  /** Names count one down, ".." one up. */
  function Balance(segs: seq<string>): int {
    if segs == [] then 0 else
    Balance(segs[..|segs| - 1]) +
      (if segs[|segs| - 1] == ".." then -1 else if Plain(segs[|segs| - 1]) then 1 else 0)
  }

  /** Some prefix has more ".." than there are directories to leave. */
  ghost predicate Climbs(depth: nat, segs: seq<string>) {
    exists k :: 0 <= k <= |segs| && depth + Balance(segs[..k]) < 0
  }

  /** Some name is reached that does not fit behind the output so far. */
  ghost predicate TooLong(stack: seq<string>, segs: seq<string>) {
    exists k :: 0 <= k < |segs| && Reach(stack, segs[..k]).Some? && Plain(segs[k])
      && |Text(Reach(stack, segs[..k]).value)| + |segs[k]| + 1 > PATH_MAX_LENGTH - 1
  }

  /** The `e` empty segments of extra leading slashes are the floor; no segment above them is empty. */
  predicate Floor(stack: seq<string>, e: nat) {
    e <= |stack| && forall i :: 0 <= i < |stack| ==> (stack[i] == "" <==> i < e)
  }

  lemma {:induction false} WalkReaches(stack: seq<string>, segs: seq<string>)
    requires |segs| > 0
    ensures Walk(stack, segs).Some? <==> Reach(stack, segs).Some?
    decreases |segs|
  {
    hide Text;
    if Step(stack, segs[0]).Some? {
      if |segs| > 1 {
        WalkReaches(Step(stack, segs[0]).value, segs[1..]);
      } else {
        assert segs[1..] == [];
      }
    }
  }

  lemma {:induction false} ReachSnoc(stack: seq<string>, segs: seq<string>, seg: string)
    ensures Reach(stack, segs + [seg]) ==
      match Reach(stack, segs) case None => None case Some(st) => Step(st, seg)
    decreases |segs|
  {
    hide Step;
    if segs == [] {
      assert (segs + [seg])[1..] == [];
    } else if Step(stack, segs[0]).Some? {
      assert (segs + [seg])[1..] == segs[1..] + [seg];
      ReachSnoc(Step(stack, segs[0]).value, segs[1..], seg);
    }
  }

  /** The stack is as deep as the balance says. */
  lemma {:induction false} ReachDepth(stack: seq<string>, segs: seq<string>, e: nat)
    requires Floor(stack, e)
    ensures Reach(stack, segs).Some? ==>
      Floor(Reach(stack, segs).value, e) && |Reach(stack, segs).value| == |stack| + Balance(segs)
    ensures Reach(stack, segs).Some? ==> !Climbs(|stack| - e, segs) && !TooLong(stack, segs)
    ensures Reach(stack, segs).None? ==> Climbs(|stack| - e, segs) || TooLong(stack, segs)
    decreases |segs|
  {
    hide Text, Reach;
    if segs == [] {
      assert forall k :: 0 <= k <= 0 ==> segs[..k] == [];
      ReachNothing(stack);
    } else {
      var init, seg := segs[..|segs| - 1], segs[|segs| - 1];
      assert segs == init + [seg];
      ReachSnoc(stack, init, seg);
      ReachDepth(stack, init, e);
      ClimbsSnoc(|stack| - e, init, seg);
      TooLongSnoc(stack, init, seg);
    }
  }

  lemma ReachNothing(stack: seq<string>)
    ensures Reach(stack, []) == Some(stack) && Balance([]) == 0
  {
  }

  lemma ClimbsSnoc(depth: nat, segs: seq<string>, seg: string)
    ensures Climbs(depth, segs + [seg]) <==> Climbs(depth, segs) || depth + Balance(segs + [seg]) < 0
  {
    hide Balance;
    assert forall k :: 0 <= k <= |segs| ==> (segs + [seg])[..k] == segs[..k];
    assert (segs + [seg])[..|segs| + 1] == segs + [seg];
    if Climbs(depth, segs) {
      var k :| 0 <= k <= |segs| && depth + Balance(segs[..k]) < 0;
      assert depth + Balance((segs + [seg])[..k]) < 0;
    }
  }

  lemma TooLongSnoc(stack: seq<string>, segs: seq<string>, seg: string)
    ensures TooLong(stack, segs + [seg]) <==> (TooLong(stack, segs) ||
      (Reach(stack, segs).Some? && Plain(seg) && |Text(Reach(stack, segs).value)| + |seg| + 1 > PATH_MAX_LENGTH - 1))
  {
    hide Reach, Text, Plain;
    var all := segs + [seg];
    assert forall k :: 0 <= k <= |segs| ==> all[..k] == segs[..k];
    assert segs[..|segs|] == segs && all[|segs|] == seg;
    if TooLong(stack, segs) {
      var k :| 0 <= k < |segs| && Reach(stack, segs[..k]).Some? && Plain(segs[k])
        && |Text(Reach(stack, segs[..k]).value)| + |segs[k]| + 1 > PATH_MAX_LENGTH - 1;
      assert all[k] == segs[k];
      assert Reach(stack, all[..k]).Some?;
    }
    if Reach(stack, segs).Some? && Plain(seg) && |Text(Reach(stack, segs).value)| + |seg| + 1 > PATH_MAX_LENGTH - 1 {
      assert Reach(stack, all[..|segs|]).Some?;
    }
  }

  /** It fails exactly when a ".." climbs above the root, or above extra leading slashes, or a name does not fit. */
  lemma ResolveFails(dirs: seq<string>, path: string)
    requires Proper(dirs)
    ensures Resolve(dirs, path).None? <==>
      if Absolute(path) then
        (var segs := Split(path[Slashes(path)..]); Climbs(0, segs) || TooLong(Empties(Slashes(path) - 1), segs))
      else Climbs(|dirs|, Split(path)) || TooLong(dirs, Split(path))
  {
    hide Split, Walk, Climbs, TooLong, Reach;
    if Absolute(path) {
      var e := Slashes(path) - 1;
      WalkReaches(Empties(e), Split(path[Slashes(path)..]));
      ReachDepth(Empties(e), Split(path[Slashes(path)..]), e);
    } else {
      WalkReaches(dirs, Split(path));
      ReachDepth(dirs, Split(path), 0);
    }
  }

  // ---- What comes out ----

  /** Some empty segments from leading slashes, then names. */
  predicate Layered(stack: seq<string>, e: nat) {
    && e <= |stack| && (forall i :: 0 <= i < e ==> stack[i] == "")
    && (forall i :: e <= i < |stack| ==> Plain(stack[i]) && '/' !in stack[i])
  }

  /** The last segment of an output, and its fit. */
  predicate Tail(stack: seq<string>, last: string) {
    && |Text(stack)| <= PATH_MAX_LENGTH - 1
    && (last == "" || (Plain(last) && '/' !in last && |Text(stack)| + |last| + 1 <= PATH_MAX_LENGTH - 1))
  }

  predicate Slashless(segs: seq<string>) {
    forall i :: 0 <= i < |segs| ==> '/' !in segs[i]
  }

  lemma StepLayered(stack: seq<string>, seg: string, e: nat)
    requires Layered(stack, e) && '/' !in seg && |Text(stack)| <= PATH_MAX_LENGTH - 1
    ensures Step(stack, seg).Some? ==>
      Layered(Step(stack, seg).value, e) && |Text(Step(stack, seg).value)| <= PATH_MAX_LENGTH - 1
  {
    hide Text;
    if seg == ".." && stack != [] { TextPop(stack); }
    if Plain(seg) { JoinSnoc(stack, seg); }
  }

  lemma {:induction false} WalkShape(stack: seq<string>, segs: seq<string>, e: nat) returns (st: seq<string>, last: string)
    requires |segs| > 0 && Layered(stack, e) && Slashless(segs) && |Text(stack)| <= PATH_MAX_LENGTH - 1
    requires Walk(stack, segs).Some?
    ensures Layered(st, e) && Tail(st, last) && Walk(stack, segs) == Some(Text(st) + last)
    decreases |segs|
  {
    hide Text, Layered;
    StepLayered(stack, segs[0], e);
    if |segs| > 1 {
      st, last := WalkShape(Step(stack, segs[0]).value, segs[1..], e);
    } else if Plain(segs[0]) {
      st, last := stack, segs[0];
    } else {
      st, last := Step(stack, segs[0]).value, "";
      assert Text(st) + "" == Text(st);
    }
  }

  /** Walking over names that are already normal only stacks them up. */
  lemma {:induction false} WalkJoin(stack: seq<string>, names: seq<string>, tail: string)
    requires (forall i :: 0 <= i < |names| ==> Plain(names[i]) && '/' !in names[i])
    requires |Text(stack + names)| <= PATH_MAX_LENGTH - 1
    ensures Walk(stack, Split(Join(names) + tail)) == Walk(stack + names, Split(tail))
    decreases |names|
  {
    if names == [] {
      assert Join(names) + tail == tail && stack + names == stack;
    } else {
      var seg, rest := names[0], Join(names[1..]) + tail;
      ConcatAssociates(seg + "/", Join(names[1..]), tail);
      SplitSegment(seg, rest);
      assert stack + names == (stack + [seg]) + names[1..];
      JoinSnoc(stack, seg);
      TextGrows(stack + [seg], names[1..]);
      WalkJoin(stack + [seg], names[1..], tail);
      OneMore(stack, seg, Split(rest));
    }
  }

  lemma OneMore(stack: seq<string>, seg: string, segs: seq<string>)
    requires Plain(seg) && |Text(stack)| + |seg| + 1 <= PATH_MAX_LENGTH - 1 && |segs| > 0
    ensures Walk(stack, [seg] + segs) == Walk(stack + [seg], segs)
  {
    assert ([seg] + segs)[1..] == segs;
  }

  lemma {:induction false} TextGrows(stack: seq<string>, names: seq<string>)
    ensures |Text(stack)| <= |Text(stack + names)|
    decreases |names|
  {
    if names == [] {
      assert stack + names == stack;
    } else {
      var init := names[..|names| - 1];
      assert stack + names == (stack + init) + [names[|names| - 1]];
      TextGrows(stack, init);
      JoinSnoc(stack + init, names[|names| - 1]);
    }
  }

  /** The text of a layered stack is its slashes, then its names. */
  lemma {:induction false} LayeredText(st: seq<string>, e: nat, last: string)
    requires Layered(st, e) && (last == "" || (Plain(last) && '/' !in last))
    ensures Slashes(Text(st) + last) == e + 1 && (Text(st) + last)[e + 1..] == Join(st[e..]) + last
    ensures st == Empties(e) + st[e..]
  {
    var out := Text(st) + last;
    assert st == Empties(e) + st[e..];
    TextSplit(Empties(e), st[e..]);
    EmptiesText(e);
    ConcatAssociates(Text(Empties(e)), Join(st[e..]), last);
    var rest := Join(st[e..]) + last;
    assert out == Text(Empties(e)) + rest;
    assert out[e + 1..] == rest;
    FirstIsName(st[e..], last);
    SlashesIs(out, e + 1);
  }

  lemma SlashesIs(s: string, n: nat)
    requires n <= |s| && (forall i :: 0 <= i < n ==> s[i] == '/') && (n < |s| ==> s[n] != '/')
    ensures Slashes(s) == n
  {
    if n > 0 { SlashesIs(s[1..], n - 1); }
  }

  lemma FirstIsName(names: seq<string>, last: string)
    requires forall i :: 0 <= i < |names| ==> Plain(names[i]) && '/' !in names[i]
    requires last == "" || (Plain(last) && '/' !in last)
    ensures Join(names) + last == "" || (Join(names) + last)[0] != '/'
  {
    if names != [] {
      assert names[0][0] in names[0];
      assert (Join(names) + last)[0] == names[0][0];
    } else if last != "" {
      assert last[0] in last;
    }
  }

  lemma {:induction false} TextSplit(a: seq<string>, b: seq<string>)
    ensures Text(a + b) == Text(a) + Join(b)
    decreases |b|
  {
    if b == [] {
      assert a + b == a && Text(a) + "" == Text(a);
    } else {
      var init, x := b[..|b| - 1], b[|b| - 1];
      assert b == init + [x] && a + b == (a + init) + [x];
      TextSplit(a, init);
      JoinSnoc(a + init, x);
      JoinSnoc(init, x);
      JoinStep(Text(a), Join(init), x);
    }
  }

  /** An output walks back to itself. */
  lemma Rewalk(st: seq<string>, e: nat, last: string, dirs: seq<string>)
    requires Layered(st, e) && Tail(st, last)
    ensures Resolve(dirs, Text(st) + last) == Some(Text(st) + last)
  {
    var out := Text(st) + last;
    LayeredText(st, e, last);
    WalkJoin(Empties(e), st[e..], last);
    SplitOne(last);
    hide Split, Join;
    LastStep(st, last);
  }

  lemma SplitOne(last: string)
    requires '/' !in last
    ensures Split(last) == [last]
  {
    SplitSegment(last, "");
  }

  lemma LastStep(st: seq<string>, last: string)
    requires Tail(st, last)
    ensures Walk(st, [last]) == Some(Text(st) + last)
  {
    assert Text(st) + "" == Text(st);
  }

  lemma {:induction false} SplitSlashless(s: string)
    ensures Slashless(Split(s))
    decreases |s|
  {
    var n := Chr(s, '/');
    if n < |s| { SplitSlashless(s[n + 1..]); }
  }

  // ---- The results ----

  /** Every segment of an output but the last is a name, and the last is a name or nothing. */
  predicate Clean(out: string) {
    var segs := Split(out[Slashes(out)..]);
    Absolute(out) && (forall i :: 0 <= i < |segs| - 1 ==> Plain(segs[i]))
    && (Plain(segs[|segs| - 1]) || segs[|segs| - 1] == "")
  }

  lemma ResolveShape(dirs: seq<string>, path: string) returns (st: seq<string>, e: nat, last: string)
    requires Proper(dirs) && |Text(dirs)| <= PATH_MAX_LENGTH - 1 && Slashes(path) <= PATH_MAX_LENGTH - 1
    requires Resolve(dirs, path).Some?
    ensures Layered(st, e) && Tail(st, last) && Resolve(dirs, path) == Some(Text(st) + last)
    ensures e == if Absolute(path) then Slashes(path) - 1 else 0
  {
    hide Split, Text;
    if Absolute(path) {
      e := Slashes(path) - 1;
      EmptiesText(e);
      SplitSlashless(path[Slashes(path)..]);
      st, last := WalkShape(Empties(e), Split(path[Slashes(path)..]), e);
    } else {
      e := 0;
      SplitSlashless(path);
      st, last := WalkShape(dirs, Split(path), 0);
    }
  }

  /** Resolving an output again, from any directory, changes nothing. */
  lemma Idempotent(dirs: seq<string>, path: string, dirs': seq<string>)
    requires Proper(dirs) && |Text(dirs)| <= PATH_MAX_LENGTH - 1 && Slashes(path) <= PATH_MAX_LENGTH - 1
    requires Resolve(dirs, path).Some?
    ensures Resolve(dirs', Resolve(dirs, path).value) == Resolve(dirs, path)
  {
    var st, e, last := ResolveShape(dirs, path);
    Rewalk(st, e, last, dirs');
  }

  lemma {:induction false} SplitJoin(names: seq<string>, last: string)
    requires (forall i :: 0 <= i < |names| ==> '/' !in names[i]) && '/' !in last
    ensures Split(Join(names) + last) == names + [last]
  {
    if names == [] {
      assert Join(names) + last == last && names + [last] == [last];
      SplitOne(last);
    } else {
      SplitJoin(names[1..], last);
      ConcatAssociates(names[0] + "/", Join(names[1..]), last);
      SplitSegment(names[0], Join(names[1..]) + last);
      assert names + [last] == [names[0]] + (names[1..] + [last]);
    }
  }

  /** An output has no ".", no ".." and no empty segment inside, keeps its leading slashes, and fits the buffer. */
  lemma OutputIsClean(dirs: seq<string>, path: string)
    requires Proper(dirs) && |Text(dirs)| <= PATH_MAX_LENGTH - 1 && Slashes(path) <= PATH_MAX_LENGTH - 1
    requires Resolve(dirs, path).Some?
    ensures Clean(Resolve(dirs, path).value) && |Resolve(dirs, path).value| <= PATH_MAX_LENGTH - 1
    ensures Slashes(Resolve(dirs, path).value) == if Absolute(path) then Slashes(path) else 1
  {
    hide Resolve, Clean, Layered, Tail, Text;
    var st, e, last := ResolveShape(dirs, path);
    ShapeIsClean(st, e, last);
  }

  lemma ShapeIsClean(st: seq<string>, e: nat, last: string)
    requires Layered(st, e) && Tail(st, last)
    ensures Clean(Text(st) + last) && |Text(st) + last| <= PATH_MAX_LENGTH - 1 && Slashes(Text(st) + last) == e + 1
  {
    var out, names := Text(st) + last, st[e..];
    LayeredText(st, e, last);
    SplitJoin(names, last);
    assert Absolute(out);
    assert forall i :: 0 <= i < |names| ==> Plain(names[i]);
    hide Split, Join, Text;
    assert Split(out[Slashes(out)..]) == names + [last];
  }
}
