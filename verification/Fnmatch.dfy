/** compat_fnmatch.c: a backtracking glob matcher against a division of the string into pieces. */
module Fnmatch {
  import opened Prelude
  import opened CStrings

  // ---- Patterns ----

  datatype Token = Star | Any | OneOf(chars: string) | Exactly(c: char)

  /** The first token of a pattern and the length of its text. */
  datatype Head = Malformed | Head(token: Token, length: nat)

  /** Malformed: a bracket that is not closed, or an escape of nothing. */
  function FirstToken(p: string): (r: Head)
    requires p != ""
    ensures r.Head? ==> 0 < r.length <= |p|
  {
    if p[0] == '*' then Head(Star, 1) else
    if p[0] == '?' then Head(Any, 1) else
    if p[0] == '[' then
      var n := Chr(p[1..], ']');
      if n == |p[1..]| then Malformed else Head(OneOf(p[1..][..n]), n + 2)
    else if p[0] == '\\' then (if |p| == 1 then Malformed else Head(Exactly(p[1]), 2))
    else Head(Exactly(p[0]), 1)
  }

  function Parse(p: string): Option<seq<Token>> {
    if p == "" then Some([]) else
    var first := FirstToken(p);
    if first.Malformed? || Parse(p[first.length..]).None? then None else
    Some([first.token] + Parse(p[first.length..]).value)
  }

  // ---- What a pattern means ----

  predicate Fits(t: Token, piece: string) {
    match t
    case Star => true
    case Any => |piece| == 1
    case OneOf(chars) => |piece| == 1 && piece[0] in chars
    case Exactly(c) => piece == [c]
  }

  function Flatten(pieces: seq<string>): string {
    if pieces == [] then "" else pieces[0] + Flatten(pieces[1..])
  }

  /** The string is one piece for each token, in order, and each piece fits its token. */
  predicate Division(tokens: seq<Token>, pieces: seq<string>, s: string) {
    && |pieces| == |tokens| && Flatten(pieces) == s
    && forall i :: 0 <= i < |tokens| ==> Fits(tokens[i], pieces[i])
  }

  /** The pattern is well formed and some division of the string exists. */
  ghost predicate Accepts(p: string, s: string) {
    Parse(p).Some? && exists pieces :: Division(Parse(p).value, pieces, s)
  }

  // ---- The same, token by token ----

  ghost predicate Matches(tokens: seq<Token>, s: string)
    decreases |tokens|
  {
    if tokens == [] then s == "" else
    exists k :: 0 <= k <= |s| && Fits(tokens[0], s[..k]) && Matches(tokens[1..], s[k..])
  }

  lemma {:induction false} DivisionMatches(tokens: seq<Token>, pieces: seq<string>, s: string)
    requires Division(tokens, pieces, s)
    ensures Matches(tokens, s)
    decreases |tokens|
  {
    if tokens != [] {
      var k := |pieces[0]|;
      assert s[..k] == pieces[0] && s[k..] == Flatten(pieces[1..]);
      DivisionMatches(tokens[1..], pieces[1..], s[k..]);
    }
  }

  lemma {:induction false} MatchesDivision(tokens: seq<Token>, s: string) returns (pieces: seq<string>)
    requires Matches(tokens, s)
    ensures Division(tokens, pieces, s)
    decreases |tokens|
  {
    if tokens == [] {
      pieces := [];
    } else {
      var k :| 0 <= k <= |s| && Fits(tokens[0], s[..k]) && Matches(tokens[1..], s[k..]);
      var rest := MatchesDivision(tokens[1..], s[k..]);
      pieces := [s[..k]] + rest;
      assert pieces[1..] == rest && s == s[..k] + s[k..];
    }
  }

  lemma AcceptsMatches(p: string, s: string)
    ensures Accepts(p, s) <==> Parse(p).Some? && Matches(Parse(p).value, s)
  {
    if Parse(p).Some? {
      if Accepts(p, s) {
        var pieces :| Division(Parse(p).value, pieces, s);
        DivisionMatches(Parse(p).value, pieces, s);
      } else if Matches(Parse(p).value, s) {
        var pieces := MatchesDivision(Parse(p).value, s);
      }
    }
  }

  // ---- How acceptance unfolds ----

  lemma AcceptsNothing(s: string)
    ensures Accepts("", s) <==> s == ""
  {
    AcceptsMatches("", s);
  }

  lemma ParseUnfold(p: string)
    requires p != ""
    ensures Parse(p).Some? <==> FirstToken(p).Head? && Parse(p[FirstToken(p).length..]).Some?
    ensures Parse(p).Some? ==> Parse(p).value == [FirstToken(p).token] + Parse(p[FirstToken(p).length..]).value
  {
  }

  /** A token other than a star takes exactly one character. */
  lemma AcceptsOne(p: string, s: string)
    requires p != "" && p[0] != '*'
    ensures s == "" || FirstToken(p).Malformed? ==> !Accepts(p, s)
    ensures s != "" && FirstToken(p).Head? ==>
      (Accepts(p, s) <==> Fits(FirstToken(p).token, s[..1]) && Accepts(p[FirstToken(p).length..], s[1..]))
  {
    hide Accepts;
    ParseUnfold(p);
    AcceptsMatches(p, s);
    if FirstToken(p).Head? {
      var t, n := FirstToken(p).token, FirstToken(p).length;
      hide Parse;
      if s != "" { AcceptsMatches(p[n..], s[1..]); }
      if Parse(p).Some? {
        var rest := Parse(p[n..]).value;
        assert Parse(p).value[0] == t && Parse(p).value[1..] == rest;
        MatchesOne(t, rest, Parse(p).value, s);
      }
    }
  }

  lemma MatchesOne(t: Token, rest: seq<Token>, tokens: seq<Token>, s: string)
    requires !t.Star? && tokens != [] && tokens[0] == t && tokens[1..] == rest
    ensures s == "" ==> !Matches(tokens, s)
    ensures s != "" ==> (Matches(tokens, s) <==> Fits(t, s[..1]) && Matches(rest, s[1..]))
  {
  }

  /** A star takes any number of characters. */
  lemma AcceptsStar(p: string, s: string)
    requires p != "" && p[0] == '*'
    ensures Accepts(p, s) <==> exists k :: 0 <= k <= |s| && Accepts(p[1..], s[k..])
  {
    hide Accepts;
    ParseUnfold(p);
    AcceptsMatches(p, s);
    forall k | 0 <= k <= |s|
      ensures Accepts(p[1..], s[k..]) <==> Parse(p[1..]).Some? && Matches(Parse(p[1..]).value, s[k..]) {
      AcceptsMatches(p[1..], s[k..]);
    }
    hide Parse;
    if Parse(p[1..]).Some? {
      var rest := Parse(p[1..]).value;
      assert Parse(p).value[0] == Star && Parse(p).value[1..] == rest;
      MatchesStar(rest, Parse(p).value, s);
    }
  }

  lemma MatchesStar(rest: seq<Token>, tokens: seq<Token>, s: string)
    requires tokens != [] && tokens[0] == Star && tokens[1..] == rest
    ensures Matches(tokens, s) <==> exists k :: 0 <= k <= |s| && Matches(rest, s[k..])
  {
  }

  lemma AcceptsStars(p: string, s: string)
    requires |p| >= 2 && p[0] == '*' && p[1] == '*'
    ensures Accepts(p, s) <==> Accepts(p[1..], s)
  {
    hide Accepts;
    AcceptsStar(p, s);
    AcceptsStar(p[1..], s);
    assert s[0..] == s;
    forall k | 0 <= k <= |s| ensures Accepts(p[1..], s[k..]) ==> Accepts(p[1..], s) {
      AcceptsStar(p[1..], s[k..]);
      if Accepts(p[1..], s[k..]) {
        var m :| 0 <= m <= |s[k..]| && Accepts(p[1..][1..], s[k..][m..]);
        assert s[k..][m..] == s[k + m..];
      }
    }
  }

  lemma StarAlone(s: string)
    ensures Accepts("*", s)
  {
    hide Accepts;
    AcceptsStar("*", s);
    AcceptsNothing(s[|s|..]);
    assert "*"[1..] == "";
    assert Accepts("*"[1..], s[|s|..]);
  }

  // ---- rl_fnmatch ----

  /** What one token other than a star says about the rest of the pattern and of the text. */
  lemma OneToken(pattern: string, text: string, c: nat, i: nat)
    requires c < |pattern| && pattern[c] != '*' && i < |text|
    ensures FirstToken(pattern[c..]).Malformed? ==> !Accepts(pattern[c..], text[i..])
    ensures FirstToken(pattern[c..]).Head? && !Fits(FirstToken(pattern[c..]).token, [text[i]]) ==>
      !Accepts(pattern[c..], text[i..])
    ensures FirstToken(pattern[c..]).Head? && Fits(FirstToken(pattern[c..]).token, [text[i]]) ==>
      (Accepts(pattern[c..], text[i..]) <==> Accepts(pattern[c + FirstToken(pattern[c..]).length..], text[i + 1..]))
  {
    var p, s := pattern[c..], text[i..];
    AcceptsOne(p, s);
    assert s[..1] == [text[i]] && s[1..] == text[i + 1..];
    if FirstToken(p).Head? { DropDrop(pattern, c, FirstToken(p).length); }
    hide *;
  }

  /** True for the C result 0. */
  method RlFnmatch(pattern: string, text: string) returns (matched: bool)
    ensures matched <==> Accepts(pattern, text)
    decreases |pattern|, 1
  {
    hide *;
    var c, i := 0, 0;
    assert pattern[0..] == pattern && text[0..] == text;
    while c < |pattern|
      invariant c <= |pattern| && i <= |text|
      invariant Accepts(pattern, text) <==> Accepts(pattern[c..], text[i..])
    {
      if pattern[c] == '*' {
        matched := MatchStar(pattern, text, c, i);
        return;
      }
      if i == |text| {
        AcceptsOne(pattern[c..], text[i..]);
        return false;
      }
      matched, c := MatchOne(pattern, text, c, i);
      if !matched {
        return;
      }
      i := i + 1;
    }
    AcceptsNothing(text[i..]);
    assert pattern[c..] == "";
    return i == |text|;
  }

  /** The cases of one character, and the place after the token. */
  method MatchOne(pattern: string, text: string, c: nat, i: nat) returns (matched: bool, next: nat)
    requires c < |pattern| && pattern[c] != '*' && i < |text|
    ensures c <= next <= |pattern|
    ensures !matched ==> !Accepts(pattern[c..], text[i..])
    ensures matched ==> c < next && (Accepts(pattern[c..], text[i..]) <==> Accepts(pattern[next..], text[i + 1..]))
  {
    hide Accepts, Chr;
    OneToken(pattern, text, c, i);
    next := c;
    if pattern[c] == '[' {
      var end;
      assert pattern[c..][1..] == pattern[c + 1..];
      matched, end := InList(pattern, c + 1, text[i]);
      if matched {
        next := end + 1;
      }
      return;
    }
    if pattern[c] != '?' {
      if pattern[c] == '\\' {
        next := c + 1;
        if next == |pattern| {
          return false, next;
        }
      }
      if pattern[next] != text[i] {
        return false, next;
      }
    }
    return true, next + 1;
  }

  /** The list after '[': whether the character is in it, and where it ends; no match when it does not end. */
  method InList(pattern: string, from: nat, ch: char) returns (charmatch: bool, end: nat)
    requires from <= |pattern|
    ensures var n := Chr(pattern[from..], ']');
      charmatch <==> n < |pattern| - from && ch in pattern[from..][..n]
    ensures charmatch ==> end == from + Chr(pattern[from..], ']')
  {
    charmatch, end := false, from;
    while end < |pattern| && pattern[end] != ']'
      invariant from <= end <= |pattern| && forall k :: from <= k < end ==> pattern[k] != ']'
      invariant charmatch <==> ch in pattern[from..end]
    {
      if !charmatch && pattern[end] == ch {
        charmatch := true;
      }
      assert pattern[from..end + 1] == pattern[from..end] + [pattern[end]];
      end := end + 1;
    }
    ChrIs(pattern[from..], ']', end - from);
    assert pattern[from..][..end - from] == pattern[from..end];
    if end == |pattern| {
      charmatch := false;
    }
  }

  /** The case of a star: skip the stars, then try the rest of the pattern at every place. */
  method MatchStar(pattern: string, text: string, at: nat, from: nat) returns (matched: bool)
    requires at < |pattern| && pattern[at] == '*' && from <= |text|
    ensures matched <==> Accepts(pattern[at..], text[from..])
    decreases |pattern|, 0
  {
    hide Accepts;
    var c := at + 1;
    ghost var s := text[from..];
    while c < |pattern| && pattern[c] == '*'
      invariant at < c <= |pattern| && pattern[c - 1] == '*'
      invariant Accepts(pattern[at..], s) <==> Accepts(pattern[c - 1..], s)
    {
      AcceptsStars(pattern[c - 1..], s);
      assert pattern[c - 1..][1..] == pattern[c..];
      c := c + 1;
    }
    if c == |pattern| {
      assert pattern[c - 1..] == "*";
      StarAlone(s);
      return true;
    }
    AcceptsStar(pattern[c - 1..], s);
    assert pattern[c - 1..][1..] == pattern[c..];
    matched := TryEach(pattern[c..], text, from);
    assert forall k :: 0 <= k <= |s| ==> s[k..] == text[from + k..];
    if matched {
      ghost var j: nat :| from <= j <= |text| && Accepts(pattern[c..], text[j..]);
      assert s[j - from..] == text[j..];
    }
  }

  method TryEach(rest: string, text: string, from: nat) returns (matched: bool)
    requires rest != "" && rest[0] != '*' && from <= |text|
    ensures matched <==> exists j :: from <= j <= |text| && Accepts(rest, text[j..])
    decreases |rest|, 2
  {
    hide Accepts;
    var i := from;
    matched := false;
    while !matched
      invariant from <= i <= |text| + 1 && (i == |text| + 1 ==> matched)
      invariant matched ==> exists j :: from <= j <= |text| && Accepts(rest, text[j..])
      invariant !matched ==> forall j :: from <= j < i ==> !Accepts(rest, text[j..])
      decreases |text| + 1 - i
    {
      if i == |text| {
        AcceptsOne(rest, text[i..]);
        return false;
      }
      matched := RlFnmatch(rest, text[i..]);
      i := i + 1;
    }
  }
}
