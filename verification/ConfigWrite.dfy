/** config_file_dump, sorted or not, and what sorting does to the map. */
module ConfigWrite {
  import opened Prelude
  import opened ConfigOrder
  import opened ConfigList
  import opened ConfigDump
  import opened ConfigItems
  import opened ConfigRoundTrip
  import opened ConfigSorted
  import opened ConfigReload
  import opened ConfigStore

  method WriteDirectives(directive: string, paths: seq<string>) returns (text: string)
    ensures text == DirectiveText(directive, paths)
  {
    text := "";
    var i := 0;
    assert paths[0..] == paths;
    while i < |paths|
      invariant 0 <= i <= |paths| && text + DirectiveText(directive, paths[i..]) == DirectiveText(directive, paths)
    {
      var line := directive + paths[i] + "\"\n";
      ConcatAssociates(text, line, DirectiveText(directive, paths[i + 1..]));
      text := text + line;
      i := i + 1;
    }
  }

  /** The entries, from the head of the list to its end. */
  method WriteEntries(head: Entry?, ghost nodes: seq<Entry>, ghost items: seq<Item>, ghost own: set<Entry>)
    returns (text: string)
    requires Listing(head, nodes, items, own)
    ensures text == DumpText(items)
  {
    text := "";
    var list := head;
    ghost var i: nat := 0;
    WholeList(head, nodes, items, own);
    hide *;
    while list != null
      invariant i <= |nodes| && list == First(nodes[i..])
      invariant text + DumpText(items[i..]) == DumpText(items)
      decreases |nodes| - i
    {
      NextNode(head, nodes, items, own, i);
      NextDumped(list, items, i, text);
      if !list.readonly && list.key.Some? && list.value.Some? {
        text := text + (DumpLine(list.key.value, list.value.value) + "\n");
      }
      list := list.next;
      i := i + 1;
    }
    NothingLeft(nodes, items, i, text);
  }

  lemma WholeList(head: Entry?, nodes: seq<Entry>, items: seq<Item>, own: set<Entry>)
    requires Listing(head, nodes, items, own)
    ensures |nodes| == |items| && head == First(nodes[0..]) && "" + DumpText(items[0..]) == DumpText(items)
  {
    assert nodes[0..] == nodes && items[0..] == items;
  }

  /** The text of the next entry, as its fields give it. */
  lemma NextDumped(e: Entry, items: seq<Item>, i: nat, text: string)
    requires i < |items| && Holding(e, items[i])
    ensures !e.readonly && e.key.Some? && e.value.Some? ==>
      text + (DumpLine(e.key.value, e.value.value) + "\n") + DumpText(items[i + 1..]) == text + DumpText(items[i..])
    ensures e.readonly || e.key.None? || e.value.None? ==>
      text + DumpText(items[i + 1..]) == text + DumpText(items[i..])
  {
    assert items[i..][1..] == items[i + 1..];
    assert DumpText(items[i..]) == DumpOne(items[i]) + DumpText(items[i + 1..]);
    hide DumpLine, DumpText;
    ConcatAssociates(text, DumpOne(items[i]), DumpText(items[i + 1..]));
  }

  lemma NothingLeft(nodes: seq<Entry>, items: seq<Item>, i: nat, text: string)
    requires i <= |nodes| == |items| && First(nodes[i..]) == null
    ensures text + DumpText(items[i..]) == text
  {
  }

  /** What the entries hold, by entry. */
  ghost function HeldBy(nodes: seq<Entry>): map<Entry, Item>
    reads nodes
  {
    map e | e in nodes :: Item(e.key, e.value, e.readonly)
  }

  ghost function KeysBy(nodes: seq<Entry>): map<Entry, Key>
    reads nodes
  {
    map e | e in nodes :: e.key
  }

  /** The list after the in-place sort holds the sorted items. */
  method SortList(head: Entry?, ghost nodes: seq<Entry>, ghost items: seq<Item>, ghost own: set<Entry>)
    returns (result: Entry?, ghost sorted: seq<Entry>, ghost k: map<Entry, Key>)
    requires Listing(head, nodes, items, own)
    modifies own`next
    ensures Listing(result, sorted, SortItems(items), own)
    ensures Keyed(nodes, k) && sorted == MergeSort(nodes, k)
    ensures KeysMatch(nodes, items, k) && KeysMatch(sorted, SortItems(items), k)
  {
    ghost var f := HeldBy(nodes);
    k := KeysBy(nodes);
    BeforeSort(head, nodes, items, own, f, k);
    hide *;
    result, sorted := MergeSortList(head, nodes, k);
    SortedListing(result, nodes, sorted, items, own, f, k);
  }

  /** Every entry still holds what `f` and `k` remember. */
  ghost predicate Remembered(nodes: seq<Entry>, f: map<Entry, Item>, k: map<Entry, Key>)
    reads nodes`key, nodes`value, nodes`readonly
  {
    forall e :: e in nodes ==> e in f && Holding(e, f[e]) && e in k && k[e] == e.key
  }

  lemma BeforeSort(head: Entry?, nodes: seq<Entry>, items: seq<Item>, own: set<Entry>, f: map<Entry, Item>,
                   k: map<Entry, Key>)
    requires Listing(head, nodes, items, own) && f == HeldBy(nodes) && k == KeysBy(nodes)
    ensures Linked(head, nodes) && KeysAre(nodes, k) && Members(nodes) == own && Valued(items)
    ensures Remembered(nodes, f, k) && Keyed(nodes, k) && KeysMatch(nodes, items, k)
    ensures (forall e :: e in MergeSort(nodes, k) ==> e in f) && Held(MergeSort(nodes, k), f) == SortItems(items)
  {
    HeldAre(nodes, items, f, k);
    SortHeld(nodes, k, f, KeyMap(items));
    SameItems(MergeSort(nodes, k), nodes);
  }

  lemma HeldAre(nodes: seq<Entry>, items: seq<Item>, f: map<Entry, Item>, k: map<Entry, Key>)
    requires |nodes| == |items| && (forall i :: 0 <= i < |nodes| ==> Holding(nodes[i], items[i]))
    requires f == HeldBy(nodes) && k == KeysBy(nodes)
    ensures (forall e :: e in nodes ==> e in f) && Held(nodes, f) == items
    ensures Agree(nodes, k, f, KeyMap(items)) && KeysAre(nodes, k)
  {
    assert forall i :: 0 <= i < |nodes| ==> Holding(nodes[i], items[i]) && f[nodes[i]] == items[i];
    forall e | e in nodes ensures f[e] in KeyMap(items) && KeyMap(items)[f[e]] == k[e] {
      var i :| 0 <= i < |nodes| && nodes[i] == e;
      assert items[i] in items;
    }
  }

  lemma SortedListing(result: Entry?, nodes: seq<Entry>, sorted: seq<Entry>, items: seq<Item>, own: set<Entry>,
                      f: map<Entry, Item>, k: map<Entry, Key>)
    requires Linked(result, sorted) && multiset(sorted) == multiset(nodes) && Members(nodes) == own
    requires Remembered(nodes, f, k) && Valued(items)
    requires (forall e :: e in sorted ==> e in f) && Held(sorted, f) == SortItems(items)
    ensures Listing(result, sorted, SortItems(items), own) && KeysMatch(sorted, SortItems(items), k)
  {
    hide Linked, SortItems, Held;
    SameItems(sorted, nodes);
    SameItems(SortItems(items), items);
    assert forall i :: 0 <= i < |sorted| ==> sorted[i] in nodes && SortItems(items)[i] == f[sorted[i]];
    assert Members(sorted) == own;
    assert Valued(SortItems(items)) by {
      forall i | 0 <= i < |SortItems(items)| && SortItems(items)[i].key.Some? ensures SortItems(items)[i].value.Some? {
        assert SortItems(items)[i] in items;
      }
    }
  }

  lemma NodesDistinct(head: Entry?, nodes: seq<Entry>, items: seq<Item>, own: set<Entry>)
    requires Listing(head, nodes, items, own)
    ensures Distinct(nodes)
  {
  }

  /** pathname_make_slashes_portable, for every reference. */
  method MakePortable(paths: seq<string>) returns (portable: seq<string>)
    ensures portable == Portables(paths)
  {
    portable := [];
    for i := 0 to |paths|
      invariant |portable| == i && forall k :: 0 <= k < i ==> portable[k] == Portable(paths[k])
    {
      var p := paths[i];
      var j := 0;
      while j < |p|
        invariant 0 <= j <= |p| == |paths[i]|
        invariant forall k :: 0 <= k < |p| ==> p[k] == if k < j && paths[i][k] == '\\' then '/' else paths[i][k]
      {
        if p[j] == '/' || p[j] == '\\' {
          p := p[j := '/'];
        }
        j := j + 1;
      }
      assert p == Portable(paths[i]);
      portable := portable + [p];
    }
  }

  /** config_file_dump. The sort leaves the map alone; the references keep their forward slashes. */
  method Dump(conf: Config, sort: bool) returns (text: string)
    requires conf.Valid()
    modifies conf`entries, conf`nodes, conf`items, conf`references, conf.own`next
    ensures conf.references == Portables(old(conf.references))
    ensures Listing(conf.entries, conf.nodes, conf.items, conf.own)
    ensures conf.items == if sort then SortItems(old(conf.items)) else old(conf.items)
    ensures sort ==> InKeyOrder(conf.items)
    ensures text == DumpAll(old(conf.references), conf.items, conf.includes)
    ensures conf.Valid() <==> !sort || DistinctKeys(old(conf.items))
  {
    hide Listing, Indexed, SortItems, DumpText, DistinctKeys, MergeSort, InKeyOrder;
    SortedInKeyOrder(conf.items);
    conf.references := MakePortable(conf.references);
    var references := WriteDirectives(REFERENCE_LINE, conf.references);
    if sort {
      ghost var nodes, items := conf.nodes, conf.items;
      NodesDistinct(conf.entries, nodes, items, conf.own);
      ghost var sorted, k;
      var head;
      head, sorted, k := SortList(conf.entries, nodes, items, conf.own);
      SortedIndex(conf.entriesMap, nodes, items, sorted, SortItems(items), k);
      conf.entries, conf.nodes, conf.items := head, sorted, SortItems(items);
    }
    var entries := WriteEntries(conf.entries, conf.nodes, conf.items, conf.own);
    var includes := WriteDirectives(INCLUDE_LINE, conf.includes);
    return references + entries + includes;
  }

  // ---- The map after a sort ----

  predicate KeysMatch(nodes: seq<Entry>, items: seq<Item>, k: map<Entry, Key>) {
    |nodes| == |items| && forall i :: 0 <= i < |nodes| ==> nodes[i] in k && k[nodes[i]] == items[i].key
  }

  /** The nodes under one key, in order. */
  function Having(k: map<Entry, Key>, q: string): Entry -> bool {
    e => e in k && k[e] == Some(q)
  }

  lemma {:induction false} HavingFirst(nodes: seq<Entry>, items: seq<Item>, k: map<Entry, Key>, q: string)
    requires KeysMatch(nodes, items, k)
    ensures |Filter(nodes, Having(k, q))| == Occurrences(items, q)
    ensures Occurrences(items, q) == 0 <==> Place(items, q) == |items|
    ensures Occurrences(items, q) > 0 ==> Filter(nodes, Having(k, q))[0] == nodes[Place(items, q)]
  {
    if nodes != [] { HavingFirst(nodes[1..], items[1..], k, q); }
  }

  lemma {:induction false} FilterDistinct(nodes: seq<Entry>, p: Entry -> bool)
    requires Distinct(nodes)
    ensures Distinct(Filter(nodes, p))
  {
    if nodes != [] {
      FilterDistinct(nodes[1..], p);
      FilterMembers(nodes[1..], p);
      assert nodes[0] !in nodes[1..];
    }
  }

  lemma SortReversesNodes(nodes: seq<Entry>, k: map<Entry, Key>, q: string)
    requires Keyed(nodes, k)
    ensures Filter(MergeSort(nodes, k), Having(k, q)) == Reverse(Filter(nodes, Having(k, q)))
  {
    hide StrCaseCmp, MergeSort, Filter, Reverse;
    var sorted, tie := MergeSort(nodes, k), Ties(k, Some(q));
    SameKeyTies(q);
    forall e | Having(k, q)(e) ensures tie(e) { }
    FilterWithin(sorted, Having(k, q), tie);
    FilterWithin(nodes, Having(k, q), tie);
    MergeSortReversesTies(nodes, k, Some(q));
    FilterReverse(Filter(nodes, tie), Having(k, q));
  }

  /** The first entry under a key stays the first exactly when it is the only one. */
  lemma SortedFirst(nodes: seq<Entry>, items: seq<Item>, sorted: seq<Entry>, sortedItems: seq<Item>,
                    k: map<Entry, Key>, q: string)
    requires KeysMatch(nodes, items, k) && KeysMatch(sorted, sortedItems, k) && Distinct(nodes)
    requires Keyed(nodes, k) && sorted == MergeSort(nodes, k)
    ensures Occurrences(sortedItems, q) == Occurrences(items, q)
    ensures Occurrences(items, q) > 0 ==> Place(items, q) < |items| && Place(sortedItems, q) < |sortedItems|
    ensures Occurrences(items, q) > 0 ==>
      (sorted[Place(sortedItems, q)] == nodes[Place(items, q)] <==> Occurrences(items, q) == 1)
  {
    hide MergeSort, Filter, Reverse, Place, Occurrences;
    HavingFirst(nodes, items, k, q);
    HavingFirst(sorted, sortedItems, k, q);
    SortReversesNodes(nodes, k, q);
    ReverseEnds(Filter(nodes, Having(k, q)));
    FilterDistinct(nodes, Having(k, q));
  }

  lemma SortedIndex(index: map<string, Entry>, nodes: seq<Entry>, items: seq<Item>, sorted: seq<Entry>,
                    sortedItems: seq<Item>, k: map<Entry, Key>)
    requires Indexed(index, nodes, items) && KeysMatch(nodes, items, k) && KeysMatch(sorted, sortedItems, k)
    requires Distinct(nodes) && Keyed(nodes, k) && sorted == MergeSort(nodes, k)
    ensures Indexed(index, sorted, sortedItems) <==> DistinctKeys(items)
  {
    hide Indexed, Occurrences, MergeSort, KeysMatch, Keyed;
    if Indexed(index, sorted, sortedItems) {
      forall q ensures Occurrences(items, q) <= 1 {
        StillFirst(index, nodes, items, sorted, sortedItems, k, q);
      }
    } else if DistinctKeys(items) {
      AloneStaysFirst(index, nodes, items, sorted, sortedItems, k);
    }
  }

  lemma StillFirst(index: map<string, Entry>, nodes: seq<Entry>, items: seq<Item>, sorted: seq<Entry>,
                   sortedItems: seq<Item>, k: map<Entry, Key>, q: string)
    requires Indexed(index, nodes, items) && KeysMatch(nodes, items, k) && KeysMatch(sorted, sortedItems, k)
    requires Distinct(nodes) && Keyed(nodes, k) && sorted == MergeSort(nodes, k)
    requires Indexed(index, sorted, sortedItems)
    ensures Occurrences(items, q) <= 1
  {
    hide MergeSort, Place, Occurrences, Distinct, Keyed, KeysMatch;
    SortedPlaces(nodes, items, sorted, sortedItems, k, q);
    if Occurrences(items, q) > 0 { assert q in index; }
  }

  lemma AloneStaysFirst(index: map<string, Entry>, nodes: seq<Entry>, items: seq<Item>, sorted: seq<Entry>,
                        sortedItems: seq<Item>, k: map<Entry, Key>)
    requires Indexed(index, nodes, items) && KeysMatch(nodes, items, k) && KeysMatch(sorted, sortedItems, k)
    requires Distinct(nodes) && Keyed(nodes, k) && sorted == MergeSort(nodes, k)
    requires DistinctKeys(items)
    ensures Indexed(index, sorted, sortedItems)
  {
    assert |sorted| == |sortedItems|;
    hide MergeSort, Place, Occurrences, Distinct, Keyed, KeysMatch;
    forall q ensures q in index <==> Place(sortedItems, q) < |sortedItems| {
      SortedPlaces(nodes, items, sorted, sortedItems, k, q);
    }
    forall q | q in index ensures index[q] == sorted[Place(sortedItems, q)] {
      assert Occurrences(items, q) <= 1;
      SortedPlaces(nodes, items, sorted, sortedItems, k, q);
    }
  }

  lemma SortedPlaces(nodes: seq<Entry>, items: seq<Item>, sorted: seq<Entry>, sortedItems: seq<Item>,
                     k: map<Entry, Key>, q: string)
    requires KeysMatch(nodes, items, k) && KeysMatch(sorted, sortedItems, k) && Distinct(nodes)
    requires Keyed(nodes, k) && sorted == MergeSort(nodes, k)
    ensures |nodes| == |items| && |sorted| == |sortedItems|
    ensures Place(items, q) < |items| <==> Occurrences(items, q) > 0
    ensures Place(sortedItems, q) < |sortedItems| <==> Occurrences(items, q) > 0
    ensures Occurrences(items, q) > 0 ==>
      (sorted[Place(sortedItems, q)] == nodes[Place(items, q)] <==> Occurrences(items, q) == 1)
  {
    hide MergeSort, Place, Occurrences, Distinct, Keyed;
    SortedFirst(nodes, items, sorted, sortedItems, k, q);
    HavingFirst(nodes, items, k, q);
    HavingFirst(sorted, sortedItems, k, q);
  }
}
