/** What every module shares. */
module Prelude {
  datatype Option<+T> = None | Some(value: T)

  function Abs(x: int): nat { if x < 0 then -x else x }

  lemma ConcatAssociates<T>(a: seq<T>, b: seq<T>, c: seq<T>)
    ensures (a + b) + c == a + (b + c)
  {
  }

  lemma SliceSlice<T>(s: seq<T>, pos: nat, n: nat, from: nat, m: nat)
    requires pos + n <= |s| && from + m <= n
    ensures s[pos..pos + n][from..from + m] == s[pos + from..pos + from + m]
  {
    var t, r := s[pos..pos + n][from..from + m], s[pos + from..pos + from + m];
    assert |t| == |r| == m;
    assert forall i :: 0 <= i < m ==> t[i] == s[pos + (from + i)] && r[i] == s[pos + from + i];
    assert t == r;
  }
}
