/** NUL-terminated strings in character buffers, and the string.h functions the sources call. */
module CStrings {
  /** A C string holds no NUL before its end. */
  type CString = s: string | '\0' !in s witness ""

  /** Where `c` first occurs in `s`; the length of `s` when it does not. */
  function Chr(s: string, c: char): (n: nat)
    ensures n <= |s| && (forall i :: 0 <= i < n ==> s[i] != c) && (n < |s| ==> s[n] == c)
  {
    if s != [] && s[0] != c then 1 + Chr(s[1..], c) else 0
  }

  lemma ChrIs(s: string, c: char, n: nat)
    requires n <= |s| && (forall i :: 0 <= i < n ==> s[i] != c) && (n < |s| ==> s[n] == c)
    ensures Chr(s, c) == n
  {
    if n > 0 { ChrIs(s[1..], c, n - 1); }
  }

  lemma ChrAppend(a: string, b: string, c: char)
    ensures Chr(a + b, c) == if Chr(a, c) < |a| then Chr(a, c) else |a| + Chr(b, c)
    ensures Chr(a, c) < |a| <==> c in a
  {
    ChrIs(a + b, c, if Chr(a, c) < |a| then Chr(a, c) else |a| + Chr(b, c));
    if c in a { var i :| 0 <= i < |a| && a[i] == c; }
  }

  /** The string that starts at `from` is `s`, and the byte after it is NUL. */
  ghost predicate Holds(buf: array<char>, from: nat, s: string)
    reads buf
  {
    && from + |s| < buf.Length && buf[from + |s|] == '\0' && '\0' !in s
    && forall i :: 0 <= i < |s| ==> buf[from + i] == s[i]
  }

  lemma HoldsTail(buf: array<char>, from: nat, s: string, n: nat)
    requires Holds(buf, from, s) && n <= |s|
    ensures Holds(buf, from + n, s[n..])
    ensures buf[from + n] == if n < |s| then s[n] else '\0'
  {
    forall i | 0 <= i < |s[n..]| ensures buf[from + n + i] == s[n..][i] {
      assert buf[from + (n + i)] == s[n + i];
    }
  }

  lemma NoNul(buf: array<char>, from: nat, s: string)
    requires Holds(buf, from, s)
    ensures forall i :: 0 <= i < |s| ==> s[i] != '\0'
  {
    forall i | 0 <= i < |s| ensures s[i] != '\0' { assert s[i] in s; }
  }

  lemma DropDrop(s: string, a: nat, b: nat)
    requires a + b <= |s|
    ensures s[a..][b..] == s[a + b..]
  {
  }

  /** strchr: where `c` is, or the place of the final NUL. */
  method FindChar(line: array<char>, from: nat, c: char, ghost s: string) returns (p: nat)
    requires Holds(line, from, s) && c != '\0'
    ensures p == from + Chr(s, c) && Holds(line, p, s[Chr(s, c)..])
  {
    p := from;
    ghost var n: nat := 0;
    HoldsTail(line, from, s, 0);
    assert from + |s| < line.Length;
    hide Holds;
    while line[p] != '\0' && line[p] != c
      invariant n <= |s| && p == from + n && Holds(line, p, s[n..])
      invariant Chr(s, c) == n + Chr(s[n..], c)
      decreases |s| - n
    {
      HoldsTail(line, from, s, n);
      DropDrop(s, n, 1);
      HoldsTail(line, from, s, n + 1);
      p, n := p + 1, n + 1;
    }
    HoldsTail(line, from, s, n);
  }

  method StrLen(line: array<char>, ghost s: string) returns (n: nat)
    requires Holds(line, 0, s)
    ensures n == |s|
  {
    n := 0;
    NoNul(line, 0, s);
    while line[n] != '\0'
      invariant n <= |s|
      decreases |s| - n
    {
      HoldsTail(line, 0, s, n);
      n := n + 1;
    }
    HoldsTail(line, 0, s, n);
  }

  /** Ends the string that starts at `from` after its first `n` characters. */
  method CutAt(line: array<char>, from: nat, n: nat, ghost s: string)
    requires Holds(line, from, s) && n <= |s|
    modifies line
    ensures Holds(line, from, s[..n])
    ensures n < |s| ==> Holds(line, from + n + 1, s[n + 1..])
  {
    if n < |s| { HoldsTail(line, from, s, n + 1); }
    line[from + n] := '\0';
  }

  /** strdup. */
  method Duplicate(line: array<char>, from: nat, ghost s: string) returns (copy: string)
    requires Holds(line, from, s)
    ensures copy == s
  {
    copy := "";
    var p := from;
    HoldsTail(line, from, s, 0);
    while line[p] != '\0'
      invariant |copy| <= |s| && p == from + |copy| && copy == s[..|copy|]
      decreases |s| - |copy|
    {
      HoldsTail(line, from, s, |copy|);
      copy := copy + [line[p]];
      p := p + 1;
    }
    HoldsTail(line, from, s, |copy|);
  }

  /** strncmp against a fixed prefix. */
  method StartsWith(line: array<char>, from: nat, prefix: string, ghost s: string) returns (yes: bool)
    requires Holds(line, from, s) && '\0' !in prefix
    ensures yes == (prefix <= s)
  {
    var i := 0;
    while i < |prefix|
      invariant 0 <= i <= |prefix| && i <= |s| && prefix[..i] == s[..i]
    {
      HoldsTail(line, from, s, i);
      if line[from + i] != prefix[i] {
        assert i < |s| ==> s[i] != prefix[i];
        return false;
      }
      assert prefix[i] in prefix;
      i := i + 1;
    }
    return true;
  }
}
