/** path_resolve_realpath: the byte-index normaliser, without symbolic links. */
module PathResolve {
  import opened Prelude
  import opened CStrings
  import opened PathSegments

  /** NULL, the path, or a byte written past the end of the buffer of PATH_MAX_LENGTH bytes. */
  datatype Outcome = Resolved | Failed | Overrun

  /** The output so far, up to the index `t`, spells the stack; it may fill the whole buffer. */
  ghost predicate Spells(tmp: array<char>, t: nat, stack: seq<string>)
    reads tmp
  {
    && tmp.Length == PATH_MAX_LENGTH && t == |Text(stack)| <= PATH_MAX_LENGTH
    && (forall i :: 0 <= i < t ==> tmp[i] == Text(stack)[i])
    && Named(stack)
  }

  predicate Named(stack: seq<string>) {
    forall i :: 0 <= i < |stack| ==> '/' !in stack[i] && '\0' !in stack[i]
  }

  /** What strlcpy leaves of a string in a buffer of `len` bytes. */
  function Truncate(s: string, len: nat): string
    requires len > 0
  {
    if |s| < len then s else s[..len - 1]
  }

  lemma NotCut(s: string, len: nat)
    requires |s| < len
    ensures Truncate(s, len) == s
  {
  }

  /** Leading slashes are copied without a check of the room. */
  method LeadingSlashes(s: array<char>, tmp: array<char>, ghost path: string) returns (inside: bool, t: nat)
    requires Holds(s, 0, path) && Absolute(path)
    requires tmp.Length == PATH_MAX_LENGTH && tmp != s
    modifies tmp
    ensures inside <==> Slashes(path) <= PATH_MAX_LENGTH
    ensures inside ==> t == Slashes(path) && Spells(tmp, t, Empties(t - 1)) && Holds(s, t, path[t..])
  {
    t := 0;
    HoldsTail(s, 0, path, 0);
    while s[t] == '/'
      invariant t <= Slashes(path) && t <= tmp.Length && forall i :: 0 <= i < t ==> tmp[i] == '/'
      decreases Slashes(path) - t
    {
      HoldsTail(s, 0, path, t);
      if t == tmp.Length {
        return false, t;
      }
      tmp[t] := '/';
      t := t + 1;
    }
    HoldsTail(s, 0, path, t);
    EmptiesText(t - 1);
    inside := true;
  }

  /** getcwd, and a slash after it unless it is the root. */
  method Rebase(tmp: array<char>, cwd: string, ghost dirs: seq<string>) returns (t: nat)
    requires tmp.Length == PATH_MAX_LENGTH && Proper(dirs) && cwd == Cwd(dirs) && |cwd| <= PATH_MAX_LENGTH - 2
    modifies tmp
    ensures t <= PATH_MAX_LENGTH - 1 && Spells(tmp, t, dirs)
  {
    t := 0;
    while t < |cwd|
      invariant t <= |cwd| && forall i :: 0 <= i < t ==> tmp[i] == cwd[i]
    {
      tmp[t] := cwd[t];
      t := t + 1;
    }
    CwdEnds(dirs);
    if tmp[t - 1] != '/' {
      tmp[t] := '/';
      t := t + 1;
    }
  }

  lemma CwdEnds(dirs: seq<string>)
    requires Proper(dirs)
    ensures |Cwd(dirs)| > 0
    ensures Cwd(dirs)[|Cwd(dirs)| - 1] == '/' <==> dirs == []
    ensures dirs == [] ==> Text(dirs) == Cwd(dirs)
    ensures dirs != [] ==> Text(dirs) == Cwd(dirs) + "/"
  {
    if dirs != [] {
      var top := dirs[|dirs| - 1];
      TextPop(dirs);
      assert top != "" && top[|top| - 1] in top;
    }
  }

  /** ".." on the output: refused at the root and after an empty segment, else the last segment goes. */
  method Climb(tmp: array<char>, t: nat, ghost stack: seq<string>) returns (ok: bool, t': nat)
    requires Spells(tmp, t, stack)
    ensures ok == Step(stack, "..").Some?
    ensures ok ==> t' <= t && Spells(tmp, t', Step(stack, "..").value)
  {
    t' := t;
    if t == 1 {
      return false, t;
    }
    assert stack != [];
    ghost var rest, top := stack[..|stack| - 1], stack[|stack| - 1];
    TextPop(stack);
    TextLast(rest);
    ghost var n := |Text(rest)|;
    assert t == n + |top| + 1;
    assert forall i :: n <= i < n + |top| ==> tmp[i] == top[i - n];
    assert forall i :: 0 <= i < n ==> tmp[i] == Text(rest)[i];
    assert forall i :: 0 <= i < |top| ==> top[i] in top;
    assert forall i :: n <= i < n + |top| ==> tmp[i] != '/';
    assert tmp[n - 1] == '/';
    if tmp[t - 2] == '/' {
      return false, t;
    }
    t' := t - 2;
    while tmp[t'] != '/'
      invariant n - 1 <= t' <= t - 2
      decreases t'
    {
      t' := t' - 1;
    }
    t' := t' + 1;
    return true, t';
  }

  /** A name is copied with the byte after it, a slash or the final NUL, unless that would not fit. */
  method Copy(s: array<char>, tmp: array<char>, p: nat, next: nat, t: nat, ghost seg: string, ghost stack: seq<string>)
    returns (ok: bool, t': nat)
    requires p <= next < s.Length && next - p == |seg| && tmp != s
    requires forall i :: 0 <= i < |seg| ==> s[p + i] == seg[i]
    requires Spells(tmp, t, stack) && Plain(seg)
    modifies tmp
    ensures ok == Step(stack, seg).Some?
    ensures ok ==> t' == t + |seg| + 1 <= PATH_MAX_LENGTH - 1 && tmp[t' - 1] == s[next]
    ensures ok ==> forall i :: 0 <= i < t ==> tmp[i] == Text(stack)[i]
    ensures ok ==> forall i :: t <= i < t + |seg| ==> tmp[i] == seg[i - t]
  {
    t' := t;
    if t + next - p + 1 > PATH_MAX_LENGTH - 1 {
      return false, t;
    }
    var q := p;
    while q <= next
      invariant p <= q <= next + 1 && t' == t + (q - p)
      invariant forall i :: 0 <= i < t ==> tmp[i] == Text(stack)[i]
      invariant forall i :: t <= i < t' ==> tmp[i] == s[p + (i - t)]
    {
      tmp[t'] := s[q];
      t' := t' + 1;
      q := q + 1;
    }
    return true, t';
  }

  /** The output holds `v`, once the byte at `t` is made NUL. */
  ghost predicate Ended(tmp: array<char>, t: nat, v: string)
    reads tmp
  {
    && tmp.Length == PATH_MAX_LENGTH && t <= PATH_MAX_LENGTH && '\0' !in v
    && (|v| == t || (|v| + 1 == t <= PATH_MAX_LENGTH - 1 && tmp[|v|] == '\0'))
    && forall i :: 0 <= i < |v| ==> tmp[i] == v[i]
  }

  lemma {:induction false} TextHasNoNul(stack: seq<string>)
    requires Named(stack)
    ensures '\0' !in Text(stack)
    decreases |stack|
  {
    if stack != [] {
      TextPop(stack);
      TextHasNoNul(stack[..|stack| - 1]);
    }
  }

  /** What the branches of the loop do to one segment. */
  method OneSegment(s: array<char>, tmp: array<char>, p: nat, next: nat, t: nat, ghost seg: string,
                    ghost stack: seq<string>)
    returns (ok: bool, p': nat, t': nat)
    requires p <= next < s.Length && next - p == |seg| && tmp != s && '/' !in seg && '\0' !in seg
    requires forall i :: 0 <= i < |seg| ==> s[p + i] == seg[i]
    requires Spells(tmp, t, stack) && (s[next] == '/' || s[next] == '\0')
    modifies tmp
    ensures ok == Step(stack, seg).Some? && (ok ==> p' == next + 1)
    ensures ok && s[next] == '/' ==> Spells(tmp, t', Step(stack, seg).value)
    ensures ok ==> t' <= t || t' <= PATH_MAX_LENGTH - 1
    ensures ok && s[next] == '\0' ==>
      Ended(tmp, t', EndText(stack, seg, Step(stack, seg).value))
  {
    hide Text;
    TextHasNoNul(stack);
    assert |seg| >= 1 ==> s[p + 0] == seg[0];
    assert |seg| >= 2 ==> s[p + 1] == seg[1];
    p', t' := p, t;
    if next - p == 2 && s[p] == '.' && s[p + 1] == '.' {
      assert seg == "..";
      p' := p + 3;
      ok, t' := Climb(tmp, t, stack);
      if ok { TextHasNoNul(Step(stack, "..").value); }
    } else if next - p == 1 && s[p] == '.' {
      assert seg == ".";
      ok, p' := true, p + 2;
    } else if next - p == 0 {
      assert seg == "";
      ok, p' := true, p + 1;
    } else {
      assert Plain(seg);
      ok, t' := Copy(s, tmp, p, next, t, seg, stack);
      p' := next + 1;
      if ok {
        JoinSnoc(stack, seg);
        assert forall i :: 0 <= i < t ==> (Text(stack) + seg + "/")[i] == Text(stack)[i];
        assert forall i :: t <= i < t + |seg| ==> (Text(stack) + seg + "/")[i] == seg[i - t];
      }
    }
  }

  /** The do-while loop: as the walk over segments, byte for byte. */
  method WalkBytes(s: array<char>, tmp: array<char>, from: nat, bufEnd: nat, length: nat, ghost rest: string,
                   ghost stack: seq<string>)
    returns (ok: bool, t: nat)
    requires Holds(s, from, rest) && bufEnd == from + |rest| && Spells(tmp, length, stack) && tmp != s
    modifies tmp
    ensures ok == Walk(stack, Split(rest)).Some?
    ensures ok ==> Ended(tmp, t, Walk(stack, Split(rest)).value)
    ensures ok && length <= PATH_MAX_LENGTH - 1 ==> t <= PATH_MAX_LENGTH - 1
  {
    hide *;
    var p: nat := from;
    t := length;
    ghost var cur, st := rest, stack;
    while true
      invariant Holds(s, p, cur) && p + |cur| == bufEnd && Spells(tmp, t, st)
      invariant Walk(st, Split(cur)) == Walk(stack, Split(rest))
      invariant length <= PATH_MAX_LENGTH - 1 ==> t <= PATH_MAX_LENGTH - 1
      decreases |cur|
    {
      var next := FindChar(s, p, '/', cur);
      ghost var n := Chr(cur, '/');
      SegmentAt(s, p, cur, n);
      WalkOne(st, cur, n);
      ghost var after := Step(st, cur[..n]);
      ok, p, t := OneSegment(s, tmp, p, next, t, cur[..n], st);
      if !ok || next >= bufEnd {
        return;
      }
      cur, st := cur[n + 1..], after.value;
    }
  }

  /** What the output says after the last segment: a name there is not followed by a slash. */
  function EndText(stack: seq<string>, seg: string, after: seq<string>): string {
    if Plain(seg) then Text(stack) + seg else Text(after)
  }

  /** The walk over a string, one segment on. */
  lemma WalkOne(stack: seq<string>, cur: string, n: nat)
    requires n == Chr(cur, '/')
    ensures n <= |cur|
    ensures Step(stack, cur[..n]).None? ==> Walk(stack, Split(cur)) == None
    ensures Step(stack, cur[..n]).Some? && n < |cur| ==>
      Walk(stack, Split(cur)) == Walk(Step(stack, cur[..n]).value, Split(cur[n + 1..]))
    ensures Step(stack, cur[..n]).Some? && n == |cur| ==>
      Walk(stack, Split(cur)) == Some(EndText(stack, cur[..n], Step(stack, cur[..n]).value))
  {
    SplitStep(cur, n);
    hide Split, Step, Text, Plain, Chr;
  }

  lemma SegmentAt(s: array<char>, p: nat, cur: string, n: nat)
    requires Holds(s, p, cur) && n == Chr(cur, '/')
    ensures p + n < s.Length && '/' !in cur[..n] && '\0' !in cur[..n]
    ensures forall i :: 0 <= i < n ==> s[p + i] == cur[..n][i]
    ensures s[p + n] == if n < |cur| then '/' else '\0'
    ensures n < |cur| ==> Holds(s, p + n + 1, cur[n + 1..])
  {
    BeforeSlash(cur, n);
    HoldsTail(s, p, cur, n);
    if n < |cur| { HoldsTail(s, p, cur, n + 1); }
    SegmentBytes(s, p, cur, n);
    hide *;
  }

  lemma BeforeSlash(cur: string, n: nat)
    requires '\0' !in cur && n == Chr(cur, '/')
    ensures n <= |cur| && '/' !in cur[..n] && '\0' !in cur[..n]
    ensures n < |cur| ==> cur[n] == '/'
  {
    assert forall i :: 0 <= i < n ==> cur[..n][i] == cur[i];
    assert forall i :: 0 <= i < n ==> cur[i] in cur;
  }

  lemma SegmentBytes(s: array<char>, p: nat, cur: string, n: nat)
    requires Holds(s, p, cur) && n <= |cur|
    ensures forall i :: 0 <= i < n ==> s[p + i] == cur[..n][i]
  {
  }

  /** strlcpy from the output buffer. */
  method CopyBack(s: array<char>, tmp: array<char>, len: nat, ghost v: string)
    requires 0 < len <= s.Length && s != tmp && Holds(tmp, 0, v)
    modifies s
    ensures Holds(s, 0, Truncate(v, len))
  {
    var i := 0;
    HoldsTail(tmp, 0, v, 0);
    while i < len - 1 && tmp[i] != '\0'
      invariant i <= |v| && i <= len - 1 && forall j :: 0 <= j < i ==> s[j] == v[j]
      decreases |v| - i
    {
      HoldsTail(tmp, 0, v, i);
      s[i] := tmp[i];
      i := i + 1;
    }
    HoldsTail(tmp, 0, v, i);
    s[i] := '\0';
  }

  // ---- When the buffer is too small for the slashes ----

  /** Segments that change nothing. */
  predicate Idle(segs: seq<string>) {
    forall i :: 0 <= i < |segs| ==> segs[i] == "" || segs[i] == "."
  }

  /** The path has more leading slashes than the buffer has bytes; or as many, and then nothing that stops the walk before
      the final NUL is written. */
  predicate Overruns(path: string) {
    Absolute(path) &&
    (Slashes(path) > PATH_MAX_LENGTH || (Slashes(path) == PATH_MAX_LENGTH && Idle(Split(path[Slashes(path)..]))))
  }

  /** On a full buffer of slashes, only a walk that does nothing goes through. */
  lemma {:induction false} FullWalk(stack: seq<string>, segs: seq<string>)
    requires stack != [] && stack[|stack| - 1] == "" && |Text(stack)| == PATH_MAX_LENGTH && |segs| > 0
    ensures Walk(stack, segs) == if Idle(segs) then Some(Text(stack)) else None
    decreases |segs|
  {
    hide Text;
    if |segs| > 1 && (segs[0] == "" || segs[0] == ".") {
      FullWalk(stack, segs[1..]);
      assert Idle(segs) <==> Idle(segs[1..]) by {
        assert forall i :: 0 <= i < |segs| - 1 ==> segs[1..][i] == segs[i + 1];
      }
    }
  }

  lemma FullResolve(dirs: seq<string>, path: string)
    requires Absolute(path) && Slashes(path) == PATH_MAX_LENGTH
    ensures Overruns(path) <==> Resolve(dirs, path).Some?
    ensures Overruns(path) ==> |Resolve(dirs, path).value| == PATH_MAX_LENGTH
  {
    var n := Slashes(path);
    var stack := Empties(n - 1);
    hide Split, Slashes, Idle;
    EmptiesText(n - 1);
    FullWalk(stack, Split(path[n..]));
  }

  /** Nothing but slashes: inside exactly while they are fewer than the buffer's bytes. */
  lemma OnlySlashes(path: string)
    requires path != "" && forall i :: 0 <= i < |path| ==> path[i] == '/'
    ensures Overruns(path) <==> |path| >= PATH_MAX_LENGTH
  {
    var n := Slashes(path);
    assert n == |path|;
    assert path[n..] == "";
    SplitSegment("", "");
  }

  /** With a name after as many slashes as the buffer has bytes, the walk is refused before anything is overrun. */
  lemma RefusedInTime(dirs: seq<string>, slashes: string, name: string)
    requires |slashes| == PATH_MAX_LENGTH && forall i :: 0 <= i < |slashes| ==> slashes[i] == '/'
    requires Plain(name) && '/' !in name
    ensures !Overruns(slashes + name) && Resolve(dirs, slashes + name) == None
  {
    var path, n := slashes + name, Slashes(slashes + name);
    assert name[0] in name && path[|slashes|] == name[0];
    assert path[n..] == name;
    SplitSegment(name, "");
    assert !Idle(Split(name)) by { assert Split(name)[0] == name; }
    hide Overruns, Resolve;
    Unfolded(path);
    FullResolve(dirs, path);
  }

  lemma Unfolded(path: string)
    requires Absolute(path) && Slashes(path) == PATH_MAX_LENGTH && !Idle(Split(path[Slashes(path)..]))
    ensures !Overruns(path)
  {
  }

  lemma WhereItStarts(dirs: seq<string>, path: string)
    ensures Absolute(path) ==> Resolve(dirs, path) == Walk(Empties(Slashes(path) - 1), Split(path[Slashes(path)..]))
    ensures !Absolute(path) ==> Resolve(dirs, path) == Walk(dirs, Split(path)) && !Overruns(path)
    ensures Absolute(path) ==> Slashes(path) > 0
    ensures Absolute(path) && Slashes(path) < PATH_MAX_LENGTH ==> !Overruns(path)
    ensures Absolute(path) && Slashes(path) > PATH_MAX_LENGTH ==> Overruns(path)
    ensures Absolute(path) && Slashes(path) == PATH_MAX_LENGTH ==> (Overruns(path) <==> Resolve(dirs, path).Some?)
    ensures Absolute(path) && Slashes(path) == PATH_MAX_LENGTH && Overruns(path) ==>
      |Resolve(dirs, path).value| == PATH_MAX_LENGTH
  {
    hide Split, Walk, Idle;
    if Absolute(path) && Slashes(path) == PATH_MAX_LENGTH {
      FullResolve(dirs, path);
    }
  }

  lemma EndsWhere(tmp: array<char>, t: nat, v: string)
    requires Ended(tmp, t, v)
    ensures t <= PATH_MAX_LENGTH == tmp.Length && (|v| == PATH_MAX_LENGTH ==> t == PATH_MAX_LENGTH)
  {
  }

  /** The final NUL makes the buffer hold the output. */
  method Terminate(tmp: array<char>, t: nat, ghost v: string)
    requires Ended(tmp, t, v) && t < PATH_MAX_LENGTH
    modifies tmp
    ensures Holds(tmp, 0, v)
  {
    tmp[t] := '\0';
  }

  /** path_resolve_realpath with resolve_symlinks off, for every path: NULL leaves the path as it was. */
  method ResolveRealpath(s: array<char>, len: nat, cwd: string, ghost path: string, ghost dirs: seq<string>)
    returns (o: Outcome)
    requires Holds(s, 0, path) && 0 < len <= s.Length
    requires Proper(dirs) && cwd == Cwd(dirs) && |cwd| <= PATH_MAX_LENGTH - 2
    modifies s
    ensures o == Overrun <==> Overruns(path)
    ensures o == Resolved <==> !Overruns(path) && Resolve(dirs, path).Some?
    ensures o == Resolved ==> Holds(s, 0, Truncate(Resolve(dirs, path).value, len))
    ensures o != Resolved ==> Holds(s, 0, path)
  {
    var tmp := new char[PATH_MAX_LENGTH];
    var bufEnd := StrLen(s, path);
    var t, p := 0, 0;
    ghost var rest, stack := path, dirs;
    WhereItStarts(dirs, path);
    assert s[0] == '/' <==> Absolute(path) by { HoldsTail(s, 0, path, 0); }
    hide *;
    if s[0] != '/' {
      t := Rebase(tmp, cwd, dirs);
    } else {
      var inside;
      inside, t := LeadingSlashes(s, tmp, path);
      if !inside {
        return Overrun;
      }
      p := t;
      rest, stack := path[t..], Empties(t - 1);
    }
    var ok;
    ok, t := WalkBytes(s, tmp, p, bufEnd, t, rest, stack);
    if !ok {
      return Failed;
    }
    ghost var v := Resolve(dirs, path).value;
    EndsWhere(tmp, t, v);
    if t == PATH_MAX_LENGTH {
      return Overrun;
    }
    Terminate(tmp, t, v);
    CopyBack(s, tmp, len, v);
    o := Resolved;
  }
}
