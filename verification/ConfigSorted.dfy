/** What sorting does to a config that is dumped sorted. */
module ConfigSorted {
  import opened Prelude
  import opened ConfigOrder
  import opened CStrings
  import opened ConfigText
  import opened ConfigDump
  import opened ConfigItems
  import opened ConfigRoundTrip

  function KeyMap(items: seq<Item>): map<Item, Key> {
    map it: Item | it in items :: it.key
  }

  /** The merge sort, on what the entries hold. */
  function SortItems(items: seq<Item>): (r: seq<Item>)
    ensures multiset(r) == multiset(items)
  {
    MergeSort(items, KeyMap(items))
  }

  /** Entries without a key first, the others in alphabetical order. */
  predicate InKeyOrder(items: seq<Item>) {
    forall i, j :: 0 <= i < j < |items| ==> InOrder(items[i].key, items[j].key)
  }

  lemma SortedInKeyOrder(items: seq<Item>)
    ensures InKeyOrder(SortItems(items))
  {
    var m := KeyMap(items);
    SortedAlphabetically(items, m);
    SameItems(SortItems(items), items);
    hide MergeSort, InOrder;
  }

  lemma {:induction false} FilteredInKeyOrder(items: seq<Item>, p: Item -> bool)
    requires InKeyOrder(items)
    ensures InKeyOrder(Filter(items, p))
  {
    hide InOrder;
    if items != [] {
      var rest := Filter(items[1..], p);
      FilteredInKeyOrder(items[1..], p);
      FilterMembers(items[1..], p);
      forall j | 0 <= j < |rest| ensures InOrder(items[0].key, rest[j].key) {
        assert rest[j] in items[1..];
      }
    }
  }

  /** One line for each entry: the key, an equal sign between two blanks, and the value in quotes. */
  function Printed(own: seq<Item>): string
    requires AllOwn(own)
  {
    if own == [] then "" else own[0].key.value + " = \"" + own[0].value.value + "\"\n" + Printed(own[1..])
  }

  lemma {:induction false} DumpIsPrinted(items: seq<Item>)
    ensures AllOwn(Own(items)) && DumpText(items) == Printed(Own(items))
  {
    OwnLinesOfOwn(items);
    if items != [] {
      DumpIsPrinted(items[1..]);
      if IsOwn(items[0]) {
        assert Own(items) == [items[0]] + Own(items[1..]);
        assert Own(items)[0] == items[0] && Own(items)[1..] == Own(items[1..]);
      } else {
        assert "" + DumpText(items[1..]) == DumpText(items[1..]);
      }
    }
  }

  /** A sorted dump prints exactly the entries with key and value that are not read-only, in alphabetical order. */
  lemma SortedDump(items: seq<Item>)
    ensures var own := Own(SortItems(items));
      AllOwn(own) && DumpText(SortItems(items)) == Printed(own) && InKeyOrder(own)
    ensures forall it :: it in Own(SortItems(items)) <==>
      it in items && !it.readonly && it.key.Some? && it.value.Some?
  {
    SortedInKeyOrder(items);
    SameItems(SortItems(items), items);
    FilterMembers(SortItems(items), IsOwn);
    hide MergeSort, InKeyOrder, Filter, Printed, DumpText;
    FilteredInKeyOrder(SortItems(items), IsOwn);
    DumpIsPrinted(SortItems(items));
  }

  function Named(k: string): Item -> bool {
    (it: Item) => it.key == Some(k)
  }

  /** All assignments to a key, in order. */
  function Assignments(items: seq<Item>, k: string): seq<Item> {
    Filter(items, Named(k))
  }

  /** Lookup gives the first assignment. */
  lemma {:induction false} LookupIsFirst(items: seq<Item>, k: string)
    ensures Assignments(items, k) == [] <==> Place(items, k) == |items|
    ensures Lookup(items, k) == if Assignments(items, k) == [] then None else Assignments(items, k)[0].value
  {
    if items != [] && items[0].key != Some(k) { LookupIsFirst(items[1..], k); }
  }

  lemma {:induction false} FilterWithin<T>(s: seq<T>, p: T -> bool, q: T -> bool)
    requires forall x :: x in s && p(x) ==> q(x)
    ensures Filter(Filter(s, q), p) == Filter(s, p)
  {
    if s != [] {
      FilterWithin(s[1..], p, q);
      assert s[0] in s;
      if q(s[0]) { assert Filter(s, q)[1..] == Filter(s[1..], q); }
    }
  }

  lemma {:induction false} FilterCommutes<T>(s: seq<T>, p: T -> bool, q: T -> bool)
    ensures Filter(Filter(s, p), q) == Filter(Filter(s, q), p)
  {
    if s != [] {
      FilterCommutes(s[1..], p, q);
      if p(s[0]) { assert Filter(s, p)[1..] == Filter(s[1..], p); }
      if q(s[0]) { assert Filter(s, q)[1..] == Filter(s[1..], q); }
    }
  }

  lemma SameKeyTies(k: string)
    ensures StrCaseCmp(k, k) == 0
  {
    StrCaseCmpAntisymmetric(k, k);
  }

  /** Sorting reverses the assignments to each key. */
  lemma SortReversesAssignments(items: seq<Item>, k: string)
    ensures Assignments(SortItems(items), k) == Reverse(Assignments(items, k))
  {
    hide StrCaseCmp, MergeSort, Filter, Reverse;
    var m := KeyMap(items);
    var sorted := SortItems(items);
    var tie := Ties(m, Some(k));
    SameKeyTies(k);
    SameItems(sorted, items);
    forall it | it in items && Named(k)(it) ensures tie(it) { }
    FilterWithin(sorted, Named(k), tie);
    FilterWithin(items, Named(k), tie);
    MergeSortReversesTies(items, m, Some(k));
    FilterReverse(Filter(items, tie), Named(k));
  }

  lemma {:induction false} ReverseEnds<T>(s: seq<T>)
    ensures |Reverse(s)| == |s|
    ensures |s| > 0 ==> Reverse(s)[0] == s[|s| - 1]
  {
    if |s| > 0 { ReverseEnds(s[1..]); }
  }

  function LookupLast(items: seq<Item>, k: string): Option<string> {
    var a := Assignments(items, k);
    if a == [] then None else a[|a| - 1].value
  }

  /** After a sort the last assignment to a key comes first. */
  lemma SortedLookup(items: seq<Item>, k: string)
    ensures Lookup(SortItems(items), k) == LookupLast(items, k)
  {
    hide Filter, MergeSort, Reverse;
    SortReversesAssignments(items, k);
    LookupIsFirst(SortItems(items), k);
    ReverseEnds(Assignments(items, k));
  }

  // ---- The dump as a whole ----

  /** A dump that is parsed again gives each own key its first value, or its last when the dump was sorted. */
  lemma DumpedLookup(env: Env, items: seq<Item>, sort: bool, path: string, depth: nat, k: string)
    requires depth <= MAX_INCLUDE_DEPTH && AllKept(items)
    ensures Lookup(Expand(env, Lines(DumpText(if sort then SortItems(items) else items)), path, depth), k)
         == if sort then LookupLast(Own(items), k) else Lookup(Own(items), k)
  {
    hide Filter, MergeSort, Reverse, DumpText, Expand, Lines, Place, Lookup;
    if sort {
      var sorted := SortItems(items);
      SameItems(sorted, items);
      assert AllKept(sorted) by {
        forall i | 0 <= i < |sorted| ensures Kept(sorted[i]) { assert sorted[i] in items; }
      }
      KeptComesBack(env, sorted, path, depth);
      SortReversesAssignments(items, k);
      FilterCommutes(sorted, IsOwn, Named(k));
      FilterCommutes(items, IsOwn, Named(k));
      FilterReverse(Assignments(items, k), IsOwn);
      ReverseEnds(Filter(Assignments(items, k), IsOwn));
      LookupIsFirst(Own(sorted), k);
    } else {
      KeptComesBack(env, items, path, depth);
    }
  }

  /** Without read-only entries, and with distinct keys, a dump loses no lookup, sorted or not. */
  lemma DistinctDumpedLookup(env: Env, items: seq<Item>, sort: bool, path: string, depth: nat, k: string)
    requires depth <= MAX_INCLUDE_DEPTH && AllKept(items) && Valued(items)
    requires forall i :: 0 <= i < |items| ==> !items[i].readonly
    requires DistinctKeys(items)
    ensures Lookup(Expand(env, Lines(DumpText(if sort then SortItems(items) else items)), path, depth), k)
         == Lookup(items, k)
  {
    hide Filter, MergeSort, DumpText, Expand, Lines, Place, Lookup;
    DumpedLookup(env, items, sort, path, depth, k);
    LookupIsFirst(items, k);
    LookupIsFirst(Own(items), k);
    FilterCommutes(items, IsOwn, Named(k));
    forall it | it in items && Named(k)(it) ensures IsOwn(it) { var i :| 0 <= i < |items| && items[i] == it; }
    FilterWithin(items, Named(k), IsOwn);
    assert Occurrences(items, k) <= 1;
    CountAssignments(items, k);
  }

  lemma {:induction false} CountAssignments(items: seq<Item>, k: string)
    ensures |Assignments(items, k)| == Occurrences(items, k)
  {
    if items != [] { CountAssignments(items[1..], k); }
  }

  /** The sort on entries and the sort on what they hold give the same list. */
  function Held<T>(s: seq<T>, f: map<T, Item>): (r: seq<Item>)
    requires forall x :: x in s ==> x in f
    ensures |r| == |s| && forall i :: 0 <= i < |s| ==> r[i] == f[s[i]]
  {
    if s == [] then [] else [f[s[0]]] + Held(s[1..], f)
  }

  /** `f` says what each entry holds, `k` only its key. */
  predicate Agree<T>(s: seq<T>, k: map<T, Key>, f: map<T, Item>, m: map<Item, Key>) {
    forall x :: x in s ==> x in k && x in f && f[x] in m && m[f[x]] == k[x]
  }

  lemma {:induction false} MergeHeld<T>(l: seq<T>, r: seq<T>, k: map<T, Key>, f: map<T, Item>, m: map<Item, Key>)
    requires Agree(l, k, f, m) && Agree(r, k, f, m)
    ensures Keyed(Held(l, f), m) && Keyed(Held(r, f), m) && Agree(Merge(l, r, k), k, f, m)
    ensures Held(Merge(l, r, k), f) == Merge(Held(l, f), Held(r, f), m)
    decreases |l| + |r|
  {
    hide Compare;
    if |l| > 0 && |r| > 0 {
      assert Held(l, f)[1..] == Held(l[1..], f);
      assert Held(r, f)[1..] == Held(r[1..], f);
      if Compare(k[l[0]], k[r[0]]) < 0 {
        MergeHeld(l[1..], r, k, f, m);
      } else {
        MergeHeld(l, r[1..], k, f, m);
      }
    }
  }

  lemma HalvesHeld<T>(s: seq<T>, h: nat, f: map<T, Item>, held: seq<Item>)
    requires (forall x :: x in s ==> x in f) && h <= |s| && held == Held(s, f)
    ensures held[..h] == Held(s[..h], f) && held[h..] == Held(s[h..], f)
  {
  }

  lemma {:induction false} SortHeld<T>(s: seq<T>, k: map<T, Key>, f: map<T, Item>, m: map<Item, Key>)
    requires Agree(s, k, f, m)
    ensures Keyed(Held(s, f), m) && Agree(MergeSort(s, k), k, f, m)
    ensures Held(MergeSort(s, k), f) == MergeSort(Held(s, f), m)
    decreases |s|
  {
    hide Merge, Compare;
    SameItems(s, MergeSort(s, k));
    if |s| >= 2 {
      var h := |s| / 2;
      assert Agree(s[..h], k, f, m) && Agree(s[h..], k, f, m);
      SortHeld(s[..h], k, f, m);
      SortHeld(s[h..], k, f, m);
      HalvesHeld(s, h, f, Held(s, f));
      MergeHeld(MergeSort(s[..h], k), MergeSort(s[h..], k), k, f, m);
    }
  }
}
