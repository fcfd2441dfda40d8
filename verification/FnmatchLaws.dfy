/** What patterns match, on the strings themselves: escaped text, sets, any character, stars, and malformed patterns. */
module FnmatchLaws {
  import opened Prelude
  import opened CStrings
  import opened Fnmatch

  /** Each character behind a backslash. */
  function Escaped(s: string): (p: string)
    ensures |p| == 2 * |s|
  {
    if s == "" then "" else "\\" + [s[0]] + Escaped(s[1..])
  }

  /** A pattern that is one token in front of another pattern, and takes one character. */
  lemma OneInFront(head: string, rest: string, s: string, t: Token)
    requires head != "" && head[0] != '*' && FirstToken(head + rest) == Head(t, |head|)
    ensures Accepts(head + rest, s) <==> s != "" && Fits(t, s[..1]) && Accepts(rest, s[1..])
  {
    hide Accepts, FirstToken, Fits;
    AcceptsOne(head + rest, s);
    assert (head + rest)[|head|..] == rest;
  }

  lemma EscapeHead(c: char, rest: string)
    ensures FirstToken("\\" + [c] + rest) == Head(Exactly(c), 2)
  {
  }

  /** An escaped text, followed by any pattern, stands for itself. */
  lemma {:induction false} EscapedPrefix(a: string, rest: string, s: string)
    ensures Accepts(Escaped(a) + rest, s) <==> |a| <= |s| && s[..|a|] == a && Accepts(rest, s[|a|..])
    decreases |a|
  {
    hide Accepts, FirstToken;
    if a == "" {
      assert Escaped(a) + rest == rest && s[..0] == "" && s[0..] == s;
    } else {
      var head, more := "\\" + [a[0]], Escaped(a[1..]) + rest;
      assert Escaped(a) + rest == head + more;
      EscapeHead(a[0], more);
      OneInFront(head, more, s, Exactly(a[0]));
      if s != "" {
        EscapedPrefix(a[1..], rest, s[1..]);
        FirstAndMore(a, s);
      }
    }
  }

  lemma FirstAndMore(a: string, s: string)
    requires a != "" && s != ""
    ensures |a| <= |s| && s[..|a|] == a <==> s[..1] == [a[0]] && |a[1..]| <= |s[1..]| && s[1..][..|a[1..]|] == a[1..]
    ensures |a| <= |s| ==> s[1..][|a[1..]|..] == s[|a|..]
  {
    if |a| <= |s| {
      assert s[..|a|] == s[..1] + s[1..][..|a| - 1];
      assert a == [a[0]] + a[1..];
      if s[..|a|] == a { assert s[0] == a[0]; }
    }
  }

  /** An escaped text matches itself and nothing else. */
  lemma EscapedMatchesItself(a: string, s: string)
    ensures Accepts(Escaped(a), s) <==> s == a
  {
    hide Accepts;
    EscapedPrefix(a, "", s);
    assert Escaped(a) + "" == Escaped(a);
    if |a| <= |s| {
      AcceptsNothing(s[|a|..]);
      assert s == s[..|a|] + s[|a|..];
    }
  }

  predicate Ordinary(a: string) {
    forall i :: 0 <= i < |a| ==> a[i] != '*' && a[i] != '?' && a[i] != '[' && a[i] != '\\'
  }

  /** So does a text without any of the four signs, as it is. */
  lemma {:induction false} OrdinaryPrefix(a: string, rest: string, s: string)
    requires Ordinary(a)
    ensures Accepts(a + rest, s) <==> |a| <= |s| && s[..|a|] == a && Accepts(rest, s[|a|..])
    decreases |a|
  {
    hide Accepts;
    if a == "" {
      assert a + rest == rest && s[..0] == "" && s[0..] == s;
    } else {
      var more := a[1..] + rest;
      assert a + rest == [a[0]] + more;
      OneInFront([a[0]], more, s, Exactly(a[0]));
      if s != "" {
        OrdinaryPrefix(a[1..], rest, s[1..]);
        FirstAndMore(a, s);
      }
    }
  }

  /** '?' takes any one character. */
  lemma AnyOne(rest: string, s: string)
    ensures Accepts("?" + rest, s) <==> s != "" && Accepts(rest, s[1..])
  {
    OneInFront("?", rest, s, Any);
    hide Accepts;
  }

  /** A set takes one of its characters; what stands in it has no other meaning. */
  lemma OneOfSet(chars: string, rest: string, s: string)
    requires ']' !in chars
    ensures Accepts("[" + chars + "]" + rest, s) <==> s != "" && s[0] in chars && Accepts(rest, s[1..])
  {
    hide Accepts, Chr;
    var head := "[" + chars + "]";
    var p := head + rest;
    assert forall i :: 0 <= i < |chars| ==> chars[i] in chars;
    ChrIs(p[1..], ']', |chars|);
    assert p[1..][..|chars|] == chars;
    OneInFront(head, rest, s, OneOf(chars));
  }

  /** A star between two ordinary texts: the string starts with the one and ends with the other. */
  lemma StarBetween(a: string, b: string, s: string)
    requires Ordinary(a) && Ordinary(b)
    ensures Accepts(a + ("*" + b), s) <==> |a| + |b| <= |s| && s[..|a|] == a && s[|s| - |b|..] == b
  {
    hide Accepts, Ordinary;
    OrdinaryPrefix(a, "*" + b, s);
    if |a| <= |s| {
      EndsWith(b, s[|a|..]);
      if |a| + |b| <= |s| { assert s[|a|..][|s[|a|..]| - |b|..] == s[|s| - |b|..]; }
    }
  }

  /** "*" and a text: the string ends with it. */
  lemma EndsWith(b: string, s: string)
    requires Ordinary(b)
    ensures Accepts("*" + b, s) <==> |b| <= |s| && s[|s| - |b|..] == b
  {
    hide Accepts, Ordinary;
    AcceptsStar("*" + b, s);
    assert ("*" + b)[1..] == b;
    forall k | 0 <= k <= |s| ensures Accepts(b, s[k..]) <==> s[k..] == b {
      OrdinaryPrefix(b, "", s[k..]);
      assert b + "" == b;
      if |b| <= |s[k..]| {
        AcceptsNothing(s[k..][|b|..]);
        assert s[k..] == s[k..][..|b|] + s[k..][|b|..];
      }
    }
    if Accepts("*" + b, s) {
      var k :| 0 <= k <= |s| && Accepts(b, s[k..]);
      assert k == |s| - |b|;
    }
    if |b| <= |s| && s[|s| - |b|..] == b { assert Accepts(b, s[|s| - |b|..]); }
  }

  /** A bracket that is not closed, and a backslash at the end, match nothing at all. */
  lemma MalformedMatchesNothing(a: string, chars: string, s: string)
    requires Ordinary(a) && ']' !in chars
    ensures !Accepts(a + ("[" + chars), s) && !Accepts(a + "\\", s)
  {
    hide Accepts, Chr, Ordinary;
    OrdinaryPrefix(a, "[" + chars, s);
    OrdinaryPrefix(a, "\\", s);
    var p := "[" + chars;
    assert p[1..] == chars;
    ChrAppend(chars, "", ']');
    assert FirstToken(p).Malformed? && FirstToken("\\").Malformed?;
    if |a| <= |s| {
      AcceptsOne(p, s[|a|..]);
      AcceptsOne("\\", s[|a|..]);
    }
  }
}
