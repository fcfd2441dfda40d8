/** config_file_sort_compare_func and, on values, the merge sort it drives. */
module ConfigOrder {
  import opened Prelude

  /** A key, or None for an entry without one. */
  type Key = Option<string>

  function Lower(c: char): char {
    if 'A' <= c <= 'Z' then c + 32 as char else c
  }

  /** strcasecmp, as its sign. */
  function StrCaseCmp(a: string, b: string): int {
    if a == [] then (if b == [] then 0 else -1) else
    if b == [] then 1 else
    if Lower(a[0]) < Lower(b[0]) then -1 else
    if Lower(a[0]) > Lower(b[0]) then 1 else
    StrCaseCmp(a[1..], b[1..])
  }

  /** config_file_sort_compare_func: entries without a key come first. */
  function Compare(a: Key, b: Key): int {
    match a
    case Some(x) => (match b case Some(y) => StrCaseCmp(x, y) case None => 1)
    case None => (match b case Some(_) => -1 case None => 0)
  }

  // ---- Compare is a total preorder ----

  lemma {:induction false} StrCaseCmpAntisymmetric(a: string, b: string)
    ensures StrCaseCmp(b, a) == -StrCaseCmp(a, b)
  {
    if a != [] && b != [] && Lower(a[0]) == Lower(b[0]) {
      StrCaseCmpAntisymmetric(a[1..], b[1..]);
    }
  }

  lemma {:induction false} StrCaseCmpTransitive(a: string, b: string, c: string)
    requires StrCaseCmp(a, b) <= 0 && StrCaseCmp(b, c) <= 0
    ensures StrCaseCmp(a, c) <= 0
    ensures StrCaseCmp(a, c) == 0 ==> StrCaseCmp(a, b) == 0 && StrCaseCmp(b, c) == 0
  {
    if a != [] && b != [] && c != [] && Lower(a[0]) == Lower(b[0]) && Lower(b[0]) == Lower(c[0]) {
      StrCaseCmpTransitive(a[1..], b[1..], c[1..]);
    }
  }

  lemma CompareAntisymmetric(a: Key, b: Key)
    ensures Compare(b, a) == -Compare(a, b)
  {
    if a.Some? && b.Some? { StrCaseCmpAntisymmetric(a.value, b.value); }
  }

  lemma CompareTransitive(a: Key, b: Key, c: Key)
    requires Compare(a, b) <= 0 && Compare(b, c) <= 0
    ensures Compare(a, c) <= 0
    ensures Compare(a, c) == 0 ==> Compare(a, b) == 0 && Compare(b, c) == 0
  {
    if a.Some? && b.Some? && c.Some? { StrCaseCmpTransitive(a.value, b.value, c.value); }
  }

  // ---- What it means ----

  const CAPITALS := "ABCDEFGHIJKLMNOPQRSTUVWXYZ"
  const SMALLS := "abcdefghijklmnopqrstuvwxyz"

  /** Folding turns each capital into its small letter and leaves everything else alone. */
  lemma LowerMeans(c: char)
    ensures forall i :: 0 <= i < 26 ==> Lower(CAPITALS[i]) == SMALLS[i]
    ensures c !in CAPITALS ==> Lower(c) == c
  {
    if 'A' <= c <= 'Z' { assert CAPITALS[c as int - 65] == c; }
  }

  /** The first `n` characters are the same letters. */
  predicate SameLetters(x: string, y: string, n: nat) {
    n <= |x| && n <= |y| && forall i :: 0 <= i < n ==> Lower(x[i]) == Lower(y[i])
  }

  /** One string begins the other, or has the smaller character where they first differ, small letters and capitals being
      the same. */
  predicate Alphabetical(x: string, y: string) {
    exists n :: 0 <= n <= |x| && SameLetters(x, y, n) && (n == |x| || (n < |y| && Lower(x[n]) < Lower(y[n])))
  }

  /** Without a key comes before any key. */
  predicate InOrder(a: Key, b: Key) {
    a.None? || (b.Some? && Alphabetical(a.value, b.value))
  }

  lemma {:induction false} StrCaseCmpMeans(x: string, y: string)
    ensures StrCaseCmp(x, y) <= 0 <==> Alphabetical(x, y)
    ensures StrCaseCmp(x, y) == 0 <==> |x| == |y| && SameLetters(x, y, |x|)
  {
    if x == "" {
      assert SameLetters(x, y, 0);
    } else if y != "" {
      StrCaseCmpMeans(x[1..], y[1..]);
      if Lower(x[0]) == Lower(y[0]) {
        SameFirst(x, y);
      } else if Lower(x[0]) < Lower(y[0]) {
        assert SameLetters(x, y, 0);
      }
    }
  }

  /** After the same letter the rest decides. */
  lemma SameFirst(x: string, y: string)
    requires x != "" && y != "" && Lower(x[0]) == Lower(y[0])
    ensures Alphabetical(x, y) <==> Alphabetical(x[1..], y[1..])
    ensures |x| == |y| && SameLetters(x, y, |x|) <==>
      |x[1..]| == |y[1..]| && SameLetters(x[1..], y[1..], |x[1..]|)
  {
    hide Lower;
    forall n | 0 < n <= |x| ensures SameLetters(x, y, n) <==> SameLetters(x[1..], y[1..], n - 1) {
      if SameLetters(x[1..], y[1..], n - 1) {
        forall i | 0 <= i < n ensures Lower(x[i]) == Lower(y[i]) {
          if i > 0 { assert x[i] == x[1..][i - 1] && y[i] == y[1..][i - 1]; }
        }
      }
    }
    hide SameLetters;
    if Alphabetical(x, y) {
      var n :| 0 <= n <= |x| && SameLetters(x, y, n) && (n == |x| || (n < |y| && Lower(x[n]) < Lower(y[n])));
      assert SameLetters(x[1..], y[1..], n - 1);
    }
    if Alphabetical(x[1..], y[1..]) {
      var n :| 0 <= n <= |x[1..]| && SameLetters(x[1..], y[1..], n)
        && (n == |x[1..]| || (n < |y[1..]| && Lower(x[1..][n]) < Lower(y[1..][n])));
      assert SameLetters(x, y, n + 1);
    }
  }

  /** At most means in alphabetical order, and a tie the same letters or no key on both sides. */
  lemma CompareMeans(a: Key, b: Key)
    ensures Compare(a, b) <= 0 <==> InOrder(a, b)
    ensures Compare(a, b) == 0 <==>
      (a.None? && b.None?) ||
      (a.Some? && b.Some? && |a.value| == |b.value| && SameLetters(a.value, b.value, |a.value|))
  {
    if a.Some? && b.Some? { StrCaseCmpMeans(a.value, b.value); }
  }

  // ---- The sort on sequences ----

  /** Items of any kind, ordered by the keys in `k`. */
  predicate Keyed<T>(s: seq<T>, k: map<T, Key>) {
    forall x :: x in s ==> x in k
  }

  /** The merge loop: the right half wins ties. */
  function Merge<T>(l: seq<T>, r: seq<T>, k: map<T, Key>): seq<T>
    requires Keyed(l, k) && Keyed(r, k)
    decreases |l| + |r|
  {
    if |r| == 0 then l else
    if |l| == 0 then r else
    assert l[0] in l && r[0] in r;
    if Compare(k[l[0]], k[r[0]]) < 0 then [l[0]] + Merge(l[1..], r, k) else [r[0]] + Merge(l, r[1..], k)
  }

  lemma {:induction false} MergeKeeps<T>(l: seq<T>, r: seq<T>, k: map<T, Key>)
    requires Keyed(l, k) && Keyed(r, k)
    ensures multiset(Merge(l, r, k)) == multiset(l) + multiset(r)
    decreases |l| + |r|
  {
    hide Compare;
    if |r| == 0 || |l| == 0 {
    } else if Compare(k[l[0]], k[r[0]]) < 0 {
      MergeKeeps(l[1..], r, k);
      HeadCounts(l);
      ConsCounts(l[0], Merge(l[1..], r, k));
    } else {
      MergeKeeps(l, r[1..], k);
      HeadCounts(r);
      ConsCounts(r[0], Merge(l, r[1..], k));
    }
  }

  lemma HeadCounts<T>(s: seq<T>)
    requires |s| > 0
    ensures multiset(s) == multiset{s[0]} + multiset(s[1..])
  {
    assert s == [s[0]] + s[1..];
  }

  lemma ConsCounts<T>(x: T, s: seq<T>)
    ensures multiset([x] + s) == multiset{x} + multiset(s)
  {
  }

  function MergeSort<T>(s: seq<T>, k: map<T, Key>): (r: seq<T>)
    requires Keyed(s, k)
    ensures multiset(r) == multiset(s)
    ensures Keyed(r, k)
    decreases |s|
  {
    if |s| < 2 then s else
    var h := |s| / 2;
    assert s == s[..h] + s[h..];
    var l, r := MergeSort(s[..h], k), MergeSort(s[h..], k);
    MergedIsPermutation(l, r, s, h, k);
    Merge(l, r, k)
  }

  lemma MergedIsPermutation<T>(l: seq<T>, r: seq<T>, s: seq<T>, h: nat, k: map<T, Key>)
    requires Keyed(l, k) && Keyed(r, k) && Keyed(s, k) && h <= |s|
    requires multiset(l) == multiset(s[..h]) && multiset(r) == multiset(s[h..])
    ensures multiset(Merge(l, r, k)) == multiset(s) && Keyed(Merge(l, r, k), k)
  {
    hide Merge, Compare;
    assert s == s[..h] + s[h..];
    MergeKeeps(l, r, k);
    var m := Merge(l, r, k);
    assert multiset(m) == multiset(s);
    forall x | x in m ensures x in k {
      assert x in multiset(m);
      assert x in multiset(s);
      assert x in s;
    }
  }

  lemma SameItems<T>(a: seq<T>, b: seq<T>)
    requires multiset(a) == multiset(b)
    ensures forall x :: x in a <==> x in b
  {
    forall x ensures x in a <==> x in b {
      assert x in multiset(a) <==> x in multiset(b);
    }
  }

  // ---- Sorted ----

  predicate Sorted<T>(s: seq<T>, k: map<T, Key>)
    requires Keyed(s, k)
  {
    forall i, j :: 0 <= i < j < |s| ==> Compare(k[s[i]], k[s[j]]) <= 0
  }

  lemma {:induction false} MergeSorted<T>(l: seq<T>, r: seq<T>, k: map<T, Key>)
    requires Keyed(l, k) && Keyed(r, k) && Sorted(l, k) && Sorted(r, k)
    ensures Keyed(Merge(l, r, k), k) && Sorted(Merge(l, r, k), k)
    decreases |l| + |r|
  {
    hide Compare, Sorted;
    MergeMembers(l, r, k);
    if |l| > 0 && |r| > 0 {
      CompareAntisymmetric(k[l[0]], k[r[0]]);
      if Compare(k[l[0]], k[r[0]]) < 0 {
        MergeSortedStep(l, r, k);
      } else {
        MergeSortedStep(r, l, k);
      }
      if Compare(k[l[0]], k[r[0]]) < 0 {
        MergeSorted(l[1..], r, k);
        MergeMembers(l[1..], r, k);
        ConsSorted(l[0], Merge(l[1..], r, k), k);
      } else {
        MergeSorted(l, r[1..], k);
        MergeMembers(l, r[1..], k);
        ConsSorted(r[0], Merge(l, r[1..], k), k);
      }
    }
  }

  lemma ConsSorted<T>(x: T, m: seq<T>, k: map<T, Key>)
    requires x in k && Keyed(m, k) && Sorted(m, k) && forall y :: y in m ==> Compare(k[x], k[y]) <= 0
    ensures Keyed([x] + m, k) && Sorted([x] + m, k)
  {
    hide Compare;
  }

  /** The smaller head is at most everything else, and its own tail stays sorted. */
  lemma MergeSortedStep<T>(a: seq<T>, b: seq<T>, k: map<T, Key>)
    requires Keyed(a, k) && Keyed(b, k) && Sorted(a, k) && Sorted(b, k) && |a| > 0 && |b| > 0
    requires Compare(k[a[0]], k[b[0]]) <= 0
    ensures Sorted(a[1..], k)
    ensures forall y :: y in a[1..] ==> Compare(k[a[0]], k[y]) <= 0
    ensures forall y :: y in b ==> Compare(k[a[0]], k[y]) <= 0
  {
    hide Compare;
    assert a == [a[0]] + a[1..];
    HeadIsLeast(a[0], a[1..], b, b[0], k);
  }

  lemma MergeMembers<T>(l: seq<T>, r: seq<T>, k: map<T, Key>)
    requires Keyed(l, k) && Keyed(r, k)
    ensures forall x :: x in Merge(l, r, k) <==> x in l || x in r
  {
    hide Merge;
    MergeKeeps(l, r, k);
    forall x ensures x in Merge(l, r, k) <==> x in l || x in r {
      assert x in multiset(Merge(l, r, k)) <==> x in multiset(l) || x in multiset(r);
    }
  }

  /** An item at most the rest of its own list and the head of the other is at most everything left. */
  lemma HeadIsLeast<T>(x: T, rest: seq<T>, other: seq<T>, head: T, k: map<T, Key>)
    requires x in k && Keyed(rest, k) && Keyed(other, k) && |other| > 0 && head == other[0]
    requires Sorted([x] + rest, k) && Sorted(other, k) && Compare(k[x], k[head]) <= 0
    ensures forall y :: y in rest ==> Compare(k[x], k[y]) <= 0
    ensures forall y :: y in other ==> Compare(k[x], k[y]) <= 0
  {
    hide Compare;
    forall y | y in rest ensures Compare(k[x], k[y]) <= 0 {
      var j :| 0 <= j < |rest| && rest[j] == y;
      assert ([x] + rest)[0] == x && ([x] + rest)[j + 1] == y;
    }
    forall y | y in other ensures Compare(k[x], k[y]) <= 0 {
      var j :| 0 <= j < |other| && other[j] == y;
      if j > 0 { CompareTransitive(k[x], k[other[0]], k[other[j]]); }
    }
  }

  lemma {:induction false} MergeSortSorted<T>(s: seq<T>, k: map<T, Key>)
    requires Keyed(s, k)
    ensures Sorted(MergeSort(s, k), k)
    decreases |s|
  {
    if |s| >= 2 {
      var h := |s| / 2;
      MergeSortSorted(s[..h], k);
      MergeSortSorted(s[h..], k);
      MergeSorted(MergeSort(s[..h], k), MergeSort(s[h..], k), k);
    }
  }

  /** Entries without a key stand first, the others in alphabetical order. */
  predicate Ordered<T>(s: seq<T>, k: map<T, Key>)
    requires Keyed(s, k)
  {
    forall i, j :: 0 <= i < j < |s| ==> InOrder(k[s[i]], k[s[j]])
  }

  lemma SortedAlphabetically<T>(s: seq<T>, k: map<T, Key>)
    requires Keyed(s, k)
    ensures Ordered(MergeSort(s, k), k)
  {
    var r := MergeSort(s, k);
    MergeSortSorted(s, k);
    hide Compare, MergeSort, InOrder;
    forall i, j | 0 <= i < j < |r| ensures InOrder(k[r[i]], k[r[j]]) {
      CompareMeans(k[r[i]], k[r[j]]);
    }
  }

  // ---- Ties come out reversed ----

  function Filter<T>(s: seq<T>, p: T -> bool): seq<T> {
    if |s| == 0 then [] else if p(s[0]) then [s[0]] + Filter(s[1..], p) else Filter(s[1..], p)
  }

  function Reverse<T>(s: seq<T>): seq<T> {
    if |s| == 0 then [] else Reverse(s[1..]) + [s[0]]
  }

  lemma {:induction false} FilterAppend<T>(a: seq<T>, b: seq<T>, p: T -> bool)
    ensures Filter(a + b, p) == Filter(a, p) + Filter(b, p)
  {
    if |a| == 0 {
      assert a + b == b;
    } else {
      FilterAppend(a[1..], b, p);
      assert (a + b)[1..] == a[1..] + b;
      ConcatAssociates([a[0]], Filter(a[1..], p), Filter(b, p));
    }
  }

  lemma {:induction false} ReverseAppend<T>(a: seq<T>, b: seq<T>)
    ensures Reverse(a + b) == Reverse(b) + Reverse(a)
  {
    if |a| == 0 {
      assert a + b == b;
    } else {
      ReverseAppend(a[1..], b);
      assert (a + b)[1..] == a[1..] + b;
      ConcatAssociates(Reverse(b), Reverse(a[1..]), [a[0]]);
    }
  }

  lemma {:induction false} FilterReverse<T>(s: seq<T>, p: T -> bool)
    ensures Filter(Reverse(s), p) == Reverse(Filter(s, p))
  {
    if |s| > 0 {
      FilterReverse(s[1..], p);
      FilterAppend(Reverse(s[1..]), [s[0]], p);
      assert [s[0]][1..] == [];
      assert Reverse([s[0]] + Filter(s[1..], p)) == Reverse(Filter(s[1..], p)) + [s[0]];
    }
  }

  lemma {:induction false} FilterNone<T>(s: seq<T>, p: T -> bool)
    requires forall x :: x in s ==> !p(x)
    ensures Filter(s, p) == []
  {
    if |s| > 0 { FilterNone(s[1..], p); }
  }

  /** Items whose key compares equal to `c`. */
  function Ties<T>(k: map<T, Key>, c: Key): T -> bool {
    x => x in k && Compare(k[x], c) == 0
  }

  lemma {:induction false} MergeTies<T>(l: seq<T>, r: seq<T>, k: map<T, Key>, c: Key)
    requires Keyed(l, k) && Keyed(r, k) && Sorted(l, k) && Sorted(r, k)
    ensures Filter(Merge(l, r, k), Ties(k, c)) == Filter(r, Ties(k, c)) + Filter(l, Ties(k, c))
    decreases |l| + |r|
  {
    hide Compare;
    if |l| > 0 && |r| > 0 {
      if Compare(k[l[0]], k[r[0]]) < 0 {
        MergeTies(l[1..], r, k, c);
        if Compare(k[l[0]], c) == 0 {
          NoTiesRight(l[0], r, k, c);
        }
      } else {
        MergeTies(l, r[1..], k, c);
      }
    }
  }

  /** Everything in the right list is above an item that is strictly below its head. */
  lemma NoTiesRight<T>(x: T, r: seq<T>, k: map<T, Key>, c: Key)
    requires x in k && Keyed(r, k) && Sorted(r, k) && |r| > 0
    requires Compare(k[x], k[r[0]]) < 0 && Compare(k[x], c) == 0
    ensures Filter(r, Ties(k, c)) == []
  {
    hide Compare;
    forall y | y in r ensures !Ties(k, c)(y) {
      var j :| 0 <= j < |r| && r[j] == y;
      if Compare(k[y], c) == 0 {
        CompareAntisymmetric(k[x], c);
        CompareTransitive(k[y], c, k[x]);
        if j > 0 { CompareTransitive(k[r[0]], k[y], k[x]); }
        CompareAntisymmetric(k[x], k[r[0]]);
      }
    }
    FilterNone(r, Ties(k, c));
  }

  /** Keys that compare equal come out in the opposite of their original order. */
  lemma {:induction false} MergeSortReversesTies<T>(s: seq<T>, k: map<T, Key>, c: Key)
    requires Keyed(s, k)
    ensures Filter(MergeSort(s, k), Ties(k, c)) == Reverse(Filter(s, Ties(k, c)))
    decreases |s|
  {
    hide Compare, Ties;
    if |s| >= 2 {
      var h := |s| / 2;
      var a, b := s[..h], s[h..];
      assert s == a + b;
      MergeSortReversesTies(a, k, c);
      MergeSortReversesTies(b, k, c);
      MergeSortSorted(a, k);
      MergeSortSorted(b, k);
      MergeTies(MergeSort(a, k), MergeSort(b, k), k, c);
      FilterAppend(a, b, Ties(k, c));
      ReverseAppend(Filter(a, Ties(k, c)), Filter(b, Ties(k, c)));
    } else if |s| == 1 {
      assert s[1..] == [];
    }
  }
}
