/** The entry list of config_file.c and its in-place merge sort. */
module ConfigList {
  import opened Prelude
  import opened ConfigOrder

  /** struct config_entry_list. */
  class Entry {
    var key: Key
    var value: Option<string>
    var next: Entry?
    var readonly: bool

    constructor (key: Key, value: Option<string>)
      ensures this.key == key && this.value == value && next == null && !readonly
    {
      this.key, this.value := key, value;
      next, readonly := null, false;
    }
  }

  function Members(nodes: seq<Entry>): set<Entry> {
    set e | e in nodes
  }

  /** `nodes` are the entries reached from `head`, in order: no node twice, and the list ends. */
  ghost predicate Linked(head: Entry?, nodes: seq<Entry>)
    reads Members(nodes)`next
  {
    && Distinct(nodes)
    && head == First(nodes)
    && forall i :: 0 <= i < |nodes| ==> nodes[i].next == First(nodes[i + 1..])
  }

  function First(nodes: seq<Entry>): Entry? {
    if |nodes| == 0 then null else nodes[0]
  }

  ghost predicate Distinct(nodes: seq<Entry>) {
    forall i, j :: 0 <= i < j < |nodes| ==> nodes[i] != nodes[j]
  }

  ghost predicate Disjoint(a: seq<Entry>, b: seq<Entry>) {
    forall i, j :: 0 <= i < |a| && 0 <= j < |b| ==> a[i] != b[j]
  }

  /** The map agrees with the keys in the entries. */
  ghost predicate KeysAre(nodes: seq<Entry>, k: map<Entry, Key>)
    reads Members(nodes)`key
  {
    forall e :: e in nodes ==> e in k && k[e] == e.key
  }

  lemma LinkedTail(nodes: seq<Entry>)
    requires |nodes| > 0 && Linked(nodes[0], nodes)
    ensures Linked(nodes[0].next, nodes[1..])
  {
    forall i | 0 <= i < |nodes[1..]| ensures nodes[1..][i].next == First(nodes[1..][i + 1..]) {
      assert nodes[1..][i + 1..] == nodes[i + 2..];
    }
  }

  /** A list that is merged so far: its nodes are chained, and `tail` is the last. */
  ghost predicate Chained(result: Entry?, tail: Entry?, m: seq<Entry>)
    reads Members(m)`next
  {
    && Distinct(m) && result == First(m)
    && (m == [] ==> tail == null) && (m != [] ==> tail == m[|m| - 1])
    && forall i :: 0 <= i < |m| - 1 ==> m[i].next == m[i + 1]
  }

  /** One node taken off list `from`, appended to the merged list. */
  method Take(from: Entry, ghost nodes: seq<Entry>, result: Entry?, tail: Entry?, ghost m: seq<Entry>,
              ghost other: seq<Entry>)
    returns (rest: Entry?, result': Entry)
    requires |nodes| > 0 && Linked(from, nodes) && Chained(result, tail, m)
    requires Disjoint(nodes, m) && Disjoint(other, m)
    modifies if m == [] then {} else {m[|m| - 1]}`next
    ensures Linked(rest, nodes[1..]) && rest == from.next
    ensures Chained(result', from, m + [from])
    ensures m != [] ==> tail.next == from
  {
    LinkedTail(nodes);
    rest := from.next;
    if result == null {
      result' := from;
    } else {
      tail.next := from;
      result' := result;
    }
  }

  lemma MergeUnfold(l: seq<Entry>, r: seq<Entry>, k: map<Entry, Key>, left: bool)
    requires Keyed(l, k) && Keyed(r, k) && (left ==> |l| > 0) && (!left ==> |r| > 0)
    requires left == (|r| == 0 || (|l| > 0 && Compare(k[l[0]], k[r[0]]) < 0))
    ensures Merge(l, r, k) == if left then [l[0]] + Merge(l[1..], r, k) else [r[0]] + Merge(l, r[1..], k)
  {
    if |r| == 0 {
      assert l == [l[0]] + l[1..];
    } else if |l| == 0 {
      assert r == [r[0]] + r[1..];
    }
  }

  /** Three separate lists: what is left of both halves, and what has been merged. */
  ghost predicate Merging(a: Entry?, b: Entry?, la: seq<Entry>, rb: seq<Entry>,
                          result: Entry?, tail: Entry?, m: seq<Entry>)
    reads Members(la)`next, Members(rb)`next, Members(m)`next
  {
    && Linked(a, la) && Linked(b, rb) && Chained(result, tail, m)
    && Disjoint(la, rb) && Disjoint(la, m) && Disjoint(rb, m)
    && (m != [] ==> m[|m| - 1].next == a || m[|m| - 1].next == b)
  }

  /** One turn of the merge loop. */
  method MergeStep(a: Entry?, b: Entry?, result: Entry?, tail: Entry?, ghost la: seq<Entry>, ghost rb: seq<Entry>,
                   ghost m: seq<Entry>, ghost k: map<Entry, Key>)
    returns (a': Entry?, b': Entry?, result': Entry?, tail': Entry?, ghost left: bool)
    requires a != null || b != null
    requires Merging(a, b, la, rb, result, tail, m) && KeysAre(la, k) && KeysAre(rb, k)
    modifies if m == [] then {} else {m[|m| - 1]}`next
    ensures left ==> |la| > 0 && Merging(a', b', la[1..], rb, result', tail', m + [la[0]])
    ensures !left ==> |rb| > 0 && Merging(a', b', la, rb[1..], result', tail', m + [rb[0]])
    ensures left == (|rb| == 0 || (|la| > 0 && Compare(k[la[0]], k[rb[0]]) < 0))
    ensures KeysAre(la, k) && KeysAre(rb, k)
  {
    hide Compare;
    a', b' := a, b;
    if b == null {
      left := true;
    } else if a == null {
      left := false;
    } else {
      left := Compare(a.key, b.key) < 0;
    }
    if b == null || (a != null && Compare(a.key, b.key) < 0) {
      tail' := a;
      a', result' := Take(a, la, result, tail, m, rb);
    } else {
      tail' := b;
      b', result' := Take(b, rb, result, tail, m, la);
    }
  }

  /** The merge loop: nodes are relinked, never copied. */
  method MergeLists(list: Entry?, right: Entry?, ghost l: seq<Entry>, ghost r: seq<Entry>, ghost k: map<Entry, Key>)
    returns (result: Entry?, ghost m: seq<Entry>)
    requires Linked(list, l) && Linked(right, r) && Disjoint(l, r) && KeysAre(l, k) && KeysAre(r, k)
    modifies Members(l)`next, Members(r)`next
    ensures m == Merge(l, r, k) && Linked(result, m)
  {
    var a, b := list, right;
    ghost var la, rb := l, r;
    var tail: Entry? := null;
    result, m := null, [];
    StartMerging(a, b, l, r, k);
    hide Compare, Merge, Merging, Remaining, Linked, Disjoint, KeysAre, Members;
    while a != null || b != null
      invariant Merging(a, b, la, rb, result, tail, m) && KeysAre(la, k) && KeysAre(rb, k)
      invariant Remaining(l, r, la, rb, m, k)
      decreases |la| + |rb|
    {
      LastIsOurs(l, r, la, rb, m, k);
      ghost var left;
      a, b, result, tail, left := MergeStep(a, b, result, tail, la, rb, m, k);
      RemainingStep(l, r, la, rb, m, k, left);
      if left {
        m, la := m + [la[0]], la[1..];
      } else {
        m, rb := m + [rb[0]], rb[1..];
      }
    }
    MergeEnds(a, b, la, rb, result, tail, m, l, r, k);
  }

  /** What is merged and what remains still come to the merge of both halves, from their nodes only. */
  ghost predicate Remaining(l: seq<Entry>, r: seq<Entry>, la: seq<Entry>, rb: seq<Entry>, m: seq<Entry>,
                            k: map<Entry, Key>) {
    && Keyed(la, k) && Keyed(rb, k) && Keyed(l, k) && Keyed(r, k)
    && m + Merge(la, rb, k) == Merge(l, r, k)
    && (forall e :: e in la ==> e in l) && (forall e :: e in rb ==> e in r)
    && (forall e :: e in m ==> e in l || e in r)
  }

  lemma StartMerging(a: Entry?, b: Entry?, l: seq<Entry>, r: seq<Entry>, k: map<Entry, Key>)
    requires Linked(a, l) && Linked(b, r) && Disjoint(l, r) && KeysAre(l, k) && KeysAre(r, k)
    ensures Merging(a, b, l, r, null, null, []) && Remaining(l, r, l, r, [], k)
  {
    assert [] + Merge(l, r, k) == Merge(l, r, k);
  }

  lemma LastIsOurs(l: seq<Entry>, r: seq<Entry>, la: seq<Entry>, rb: seq<Entry>, m: seq<Entry>, k: map<Entry, Key>)
    requires Remaining(l, r, la, rb, m, k)
    ensures m != [] ==> m[|m| - 1] in Members(l) || m[|m| - 1] in Members(r)
  {
    assert m != [] ==> m[|m| - 1] in m;
  }

  lemma RemainingStep(l: seq<Entry>, r: seq<Entry>, la: seq<Entry>, rb: seq<Entry>, m: seq<Entry>,
                      k: map<Entry, Key>, left: bool)
    requires Remaining(l, r, la, rb, m, k) && KeysAre(la, k) && KeysAre(rb, k)
    requires (left ==> |la| > 0) && (!left ==> |rb| > 0)
    requires left == (|rb| == 0 || (|la| > 0 && Compare(k[la[0]], k[rb[0]]) < 0))
    ensures left ==> Remaining(l, r, la[1..], rb, m + [la[0]], k) && KeysAre(la[1..], k)
    ensures !left ==> Remaining(l, r, la, rb[1..], m + [rb[0]], k) && KeysAre(rb[1..], k)
  {
    hide Compare, Merge;
    MergeUnfold(la, rb, k, left);
    if left {
      ConcatAssociates(m, [la[0]], Merge(la[1..], rb, k));
    } else {
      ConcatAssociates(m, [rb[0]], Merge(la, rb[1..], k));
    }
  }

  lemma MergeEnds(a: Entry?, b: Entry?, la: seq<Entry>, rb: seq<Entry>, result: Entry?, tail: Entry?, m: seq<Entry>,
                  l: seq<Entry>, r: seq<Entry>, k: map<Entry, Key>)
    requires Merging(a, b, la, rb, result, tail, m) && Remaining(l, r, la, rb, m, k) && a == null && b == null
    ensures Keyed(l, k) && Keyed(r, k) && m == Merge(l, r, k) && Linked(result, m)
  {
    hide Merge;
    assert la == [] && rb == [];
    NothingToMerge(la, rb, k);
    assert m + [] == m;
  }

  lemma NothingToMerge(la: seq<Entry>, rb: seq<Entry>, k: map<Entry, Key>)
    requires la == [] && rb == []
    ensures Merge(la, rb, k) == []
  {
  }

  // ---- config_file_merge_sort_linked_list ----

  /** Two pointers, one at twice the speed, find the middle; the list is cut before it. */
  method Halve(list: Entry, ghost nodes: seq<Entry>) returns (right: Entry)
    requires Linked(list, nodes) && |nodes| >= 2
    modifies Members(nodes)`next
    ensures var h := |nodes| / 2; Linked(list, nodes[..h]) && Linked(right, nodes[h..])
  {
    var slow: Entry? := list;
    var temp: Entry? := list;
    var last := list;
    ghost var i: nat := 0;
    while temp != null && temp.next != null
      invariant 2 * i <= |nodes| && i < |nodes| && slow == nodes[i]
      invariant temp == First(nodes[2 * i..])
      invariant i > 0 ==> last == nodes[i - 1]
      decreases |nodes| - i
    {
      assert First(nodes[2 * i..]) == nodes[2 * i];
      assert nodes[2 * i].next == First(nodes[2 * i + 1..]) && nodes[2 * i + 1].next == First(nodes[2 * i + 2..]);
      assert nodes[i].next == First(nodes[i + 1..]);
      last := slow;
      slow := slow.next;
      temp := temp.next.next;
      i := i + 1;
    }
    assert i == |nodes| / 2;
    right := slow;
    Cut(last, nodes, i);
  }

  /** Ends the list after its first `i` nodes. */
  method Cut(last: Entry, ghost nodes: seq<Entry>, ghost i: nat)
    requires 0 < i < |nodes| && Linked(nodes[0], nodes) && last == nodes[i - 1]
    modifies last`next
    ensures Linked(nodes[0], nodes[..i]) && Linked(nodes[i], nodes[i..])
  {
    last.next := null;
    forall j | 0 <= j < |nodes[i..]| ensures nodes[i..][j].next == First(nodes[i..][j + 1..]) {
      assert nodes[i..][j + 1..] == nodes[i + j + 1..];
    }
    forall j | 0 <= j < |nodes[..i]| ensures nodes[..i][j].next == First(nodes[..i][j + 1..]) {
    }
  }

  lemma ShortList(list: Entry?, nodes: seq<Entry>, k: map<Entry, Key>)
    requires Linked(list, nodes) && KeysAre(nodes, k)
    ensures Keyed(nodes, k) && (list == null || list.next == null <==> |nodes| < 2)
    ensures |nodes| < 2 ==> MergeSort(nodes, k) == nodes
  {
    if |nodes| >= 1 { assert nodes[0].next == First(nodes[1..]); }
  }

  lemma HalvesApart(nodes: seq<Entry>, h: nat, k: map<Entry, Key>)
    requires Distinct(nodes) && KeysAre(nodes, k) && h <= |nodes|
    ensures KeysAre(nodes[..h], k) && KeysAre(nodes[h..], k)
    ensures Members(nodes[..h]) !! Members(nodes[h..])
    ensures Members(nodes[..h]) + Members(nodes[h..]) == Members(nodes)
  {
    assert nodes == nodes[..h] + nodes[h..];
  }

  /** Sorting the halves keeps them apart, with the same nodes. */
  lemma SameMembers(a: seq<Entry>, b: seq<Entry>)
    requires multiset(a) == multiset(b)
    ensures Members(a) == Members(b)
  {
    SameItems(a, b);
  }

  lemma MembersApart(l: seq<Entry>, r: seq<Entry>)
    requires Members(l) !! Members(r)
    ensures Disjoint(l, r)
  {
    forall i, j | 0 <= i < |l| && 0 <= j < |r| ensures l[i] != r[j] {
      assert l[i] in Members(l) && r[j] in Members(r);
    }
  }

  lemma KeysOf(a: seq<Entry>, b: seq<Entry>, k: map<Entry, Key>)
    requires Members(a) == Members(b) && KeysAre(b, k)
    ensures KeysAre(a, k)
  {
    forall e | e in a ensures e in k && k[e] == e.key { assert e in Members(b); }
  }

  lemma SortUnfold(nodes: seq<Entry>, k: map<Entry, Key>)
    requires Keyed(nodes, k) && |nodes| >= 2
    ensures var h := |nodes| / 2;
      Keyed(nodes[..h], k) && Keyed(nodes[h..], k)
      && MergeSort(nodes, k) == Merge(MergeSort(nodes[..h], k), MergeSort(nodes[h..], k), k)
  {
    hide Merge;
  }

  /** Sorts the nodes in place: the same nodes, relinked in the order of the sort on sequences. */
  method MergeSortList(list: Entry?, ghost nodes: seq<Entry>, ghost k: map<Entry, Key>)
    returns (result: Entry?, ghost sorted: seq<Entry>)
    requires Linked(list, nodes) && KeysAre(nodes, k)
    modifies Members(nodes)`next
    ensures Keyed(nodes, k) && sorted == MergeSort(nodes, k) && Linked(result, sorted)
    ensures multiset(sorted) == multiset(nodes)
    ensures Keyed(sorted, k) && Ordered(sorted, k)
    decreases |nodes|
  {
    ShortList(list, nodes, k);
    SortedAlphabetically(nodes, k);
    if list == null || list.next == null {
      return list, nodes;
    }
    ghost var h := |nodes| / 2;
    HalvesApart(nodes, h, k);
    SortUnfold(nodes, k);
    hide Merge, MergeSort, Distinct, Disjoint, Members, KeysAre, Ordered;
    var right := Halve(list, nodes);
    hide Linked;
    ghost var l, r;
    var a, b;
    a, l := MergeSortList(list, nodes[..h], k);
    SameMembers(l, nodes[..h]);
    b, r := MergeSortList(right, nodes[h..], k);
    SameMembers(r, nodes[h..]);
    MembersApart(l, r);
    KeysOf(l, nodes[..h], k);
    KeysOf(r, nodes[h..], k);
    result, sorted := MergeLists(a, b, l, r, k);
  }
}
