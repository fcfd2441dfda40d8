/** config_file.c: the linked list of entries, the map that indexes it, and the operations on both. */
module ConfigStore {
  import opened Prelude
  import opened ConfigOrder
  import opened ConfigList
  import opened CStrings
  import opened ConfigText
  import opened ConfigDump
  import opened ConfigItems
  import opened ConfigRoundTrip
  import opened ConfigSorted

  /** A linked list: its nodes in order, what they hold, and the set of them. */
  ghost predicate Listing(head: Entry?, nodes: seq<Entry>, items: seq<Item>, own: set<Entry>)
    reads own
  {
    && Members(nodes) == own
    && Linked(head, nodes)
    && |nodes| == |items| && Valued(items)
    && forall i :: 0 <= i < |nodes| ==> Holding(nodes[i], items[i])
  }

  predicate Holding(e: Entry, it: Item)
    reads e`key, e`value, e`readonly
  {
    e.key == it.key && e.value == it.value && e.readonly == it.readonly
  }

  /** The index sends each key to the first entry of the list that has it, and knows no other key. */
  ghost predicate Indexed(index: map<string, Entry>, nodes: seq<Entry>, items: seq<Item>) {
    && |nodes| == |items|
    && (forall k :: k in index <==> Place(items, k) < |items|)
    && (forall k :: k in index ==> index[k] == nodes[Place(items, k)])
  }

  function Last(nodes: seq<Entry>): Entry? {
    if nodes == [] then null else nodes[|nodes| - 1]
  }

  // ---- Lists ----

  /** One list after another: the last entry of the first is made to point at the second. */
  method Link(head: Entry?, last: Entry?, e: Entry?, ghost nodes: seq<Entry>, ghost items: seq<Item>,
              ghost own: set<Entry>, ghost more: seq<Entry>, ghost moreItems: seq<Item>, ghost others: set<Entry>)
    returns (head': Entry?)
    requires Listing(head, nodes, items, own) && Listing(e, more, moreItems, others)
    requires last == Last(nodes) && own !! others
    modifies own`next
    ensures Listing(head', nodes + more, items + moreItems, own + others)
  {
    if head == null {
      assert nodes + more == more && items + moreItems == moreItems && own + others == others;
      return e;
    }
    assert last != null && last in own;
    Parts(e, more, moreItems, others, last);
    assert Distinct(nodes) && head == First(nodes) && Members(nodes) == own && |nodes| == |items| && Valued(items);
    assert forall i :: 0 <= i < |nodes| - 1 ==> nodes[i] != last && nodes[i].next == First(nodes[i + 1..]);
    assert forall i :: 0 <= i < |nodes| ==> Holding(nodes[i], items[i]);
    hide Listing, Linked, Holding, Distinct, First, Last, Valued, Members;
    last.next := e;
    LinkedAfter(head, last, e, nodes, more);
    Joined(head, nodes, items, own, more, moreItems, others);
    return head;
  }

  lemma Parts(head: Entry?, nodes: seq<Entry>, items: seq<Item>, own: set<Entry>, other: Entry)
    requires Listing(head, nodes, items, own) && other !in own
    ensures Linked(head, nodes) && Members(nodes) == own && |nodes| == |items| && Valued(items)
    ensures forall i :: 0 <= i < |nodes| ==> nodes[i] != other && Holding(nodes[i], items[i])
  {
    forall i | 0 <= i < |nodes| ensures nodes[i] != other { assert nodes[i] in Members(nodes); }
  }

  lemma Joined(head: Entry?, nodes: seq<Entry>, items: seq<Item>, own: set<Entry>,
               more: seq<Entry>, moreItems: seq<Item>, others: set<Entry>)
    requires Linked(head, nodes + more) && Members(nodes) == own && Members(more) == others
    requires |nodes| == |items| && |more| == |moreItems| && Valued(items) && Valued(moreItems)
    requires forall i :: 0 <= i < |nodes| ==> Holding(nodes[i], items[i])
    requires forall i :: 0 <= i < |more| ==> Holding(more[i], moreItems[i])
    ensures Listing(head, nodes + more, items + moreItems, own + others)
  {
    hide Linked, Holding;
    assert Members(nodes + more) == own + others;
  }

  lemma LinkedAfter(head: Entry?, last: Entry, e: Entry?, nodes: seq<Entry>, more: seq<Entry>)
    requires |nodes| > 0 && last == Last(nodes) && Distinct(nodes) && head == First(nodes)
    requires forall i :: 0 <= i < |nodes| - 1 ==> nodes[i].next == First(nodes[i + 1..])
    requires last.next == e && Linked(e, more) && Members(nodes) !! Members(more)
    ensures Linked(head, nodes + more)
  {
    MembersApart(nodes, more);
    forall i | 0 <= i < |nodes + more| ensures (nodes + more)[i].next == First((nodes + more)[i + 1..]) {
      if i < |nodes| - 1 {
        assert First(nodes[i + 1..]) == nodes[i + 1];
      } else if i >= |nodes| {
        assert (nodes + more)[i + 1..] == more[i - |nodes| + 1..];
      }
    }
  }

  lemma Single(e: Entry)
    requires e.next == null && (e.key.Some? ==> e.value.Some?)
    ensures Listing(e, [e], [Item(e.key, e.value, e.readonly)], {e})
  {
  }

  method FindLast(head: Entry?, ghost nodes: seq<Entry>, ghost items: seq<Item>, ghost own: set<Entry>)
    returns (last: Entry?)
    requires Listing(head, nodes, items, own)
    ensures last == Last(nodes)
    ensures last == null <==> head == null
  {
    last := head;
    if last == null { return; }
    ghost var i: nat := 0;
    while last.next != null
      invariant i < |nodes| && last == nodes[i]
      decreases |nodes| - i
    {
      assert nodes[i].next == First(nodes[i + 1..]);
      last := last.next;
      i := i + 1;
    }
    assert nodes[i].next == First(nodes[i + 1..]);
  }

  method MarkReadOnly(head: Entry?, ghost nodes: seq<Entry>, ghost items: seq<Item>, ghost own: set<Entry>)
    requires Listing(head, nodes, items, own)
    modifies own`readonly
    ensures Listing(head, nodes, ReadOnly(items), own)
  {
    var e := head;
    ghost var i: nat := 0;
    FirstNode(head, nodes, items, own);
    hide *;
    while e != null
      invariant i <= |nodes| == |items| && e == First(nodes[i..]) && Listing(head, nodes, Marked(items, i), own)
      decreases |nodes| - i
    {
      NextNode(head, nodes, Marked(items, i), own, i);
      MarkOne(head, e, nodes, Marked(items, i), own, i);
      NextMarked(items, i);
      e := e.next;
      i := i + 1;
    }
    AllMarked(nodes, items, i);
  }

  method MarkOne(head: Entry?, e: Entry, ghost nodes: seq<Entry>, ghost items: seq<Item>, ghost own: set<Entry>,
                 ghost n: nat)
    requires Listing(head, nodes, items, own) && n < |nodes| && nodes[n] == e && e in own
    modifies e`readonly
    ensures |items| == |nodes| && Listing(head, nodes, items[n := items[n].(readonly := true)], own)
  {
    assert forall j :: 0 <= j < |nodes| && j != n ==> nodes[j] != nodes[n];
    assert forall j :: 0 <= j < |nodes| ==> Holding(nodes[j], items[j]);
    e.readonly := true;
  }

  /** The first `i` items are read-only already. */
  function Marked(items: seq<Item>, i: nat): (r: seq<Item>)
    requires i <= |items|
    ensures |r| == |items|
  {
    ReadOnly(items[..i]) + items[i..]
  }

  lemma NextMarked(items: seq<Item>, i: nat)
    requires i < |items|
    ensures Marked(items, i)[i := Marked(items, i)[i].(readonly := true)] == Marked(items, i + 1)
  {
  }

  lemma AllMarked(nodes: seq<Entry>, items: seq<Item>, i: nat)
    requires i <= |nodes| == |items| && First(nodes[i..]) == null
    ensures i == |nodes| && Marked(items, i) == ReadOnly(items)
  {
    assert items[..|items|] == items;
  }

  lemma FirstNode(head: Entry?, nodes: seq<Entry>, items: seq<Item>, own: set<Entry>)
    requires Listing(head, nodes, items, own)
    ensures |nodes| == |items| && head == First(nodes[0..]) && Listing(head, nodes, Marked(items, 0), own)
  {
    assert nodes[0..] == nodes && Marked(items, 0) == items;
  }

  lemma NextNode(head: Entry?, nodes: seq<Entry>, items: seq<Item>, own: set<Entry>, i: nat)
    requires Listing(head, nodes, items, own) && i <= |nodes| && First(nodes[i..]) != null
    ensures i < |nodes| == |items| && nodes[i] == First(nodes[i..]) && nodes[i] in own && Holding(nodes[i], items[i])
    ensures nodes[i].next == First(nodes[i + 1..])
  {
  }

  // ---- Maps ----

  /** Entries of `child` under keys that `parent` lacks are added to `parent`; the map's order plays no part. */
  method MergeMaps(parent: map<string, Entry>, child: map<string, Entry>) returns (merged: map<string, Entry>)
    ensures merged == child + parent
  {
    merged := parent;
    var keys := child.Keys;
    while keys != {}
      invariant keys <= child.Keys
      invariant merged.Keys == parent.Keys + (child.Keys - keys)
      invariant forall k :: k in merged ==> merged[k] == if k in parent then parent[k] else child[k]
    {
      var k :| k in keys;
      keys := keys - {k};
      if k !in merged {
        merged := merged[k := child[k]];
      }
    }
  }

  /** config_append_file's loop: every entry of `newer` takes the place of what `older` has. */
  method OverrideMap(older: map<string, Entry>, newer: map<string, Entry>) returns (merged: map<string, Entry>)
    ensures merged == older + newer
  {
    merged := older;
    var keys := newer.Keys;
    while keys != {}
      invariant keys <= newer.Keys
      invariant merged.Keys == older.Keys + (newer.Keys - keys)
      invariant forall k :: k in merged ==> merged[k] == if k in newer && k !in keys then newer[k] else older[k]
    {
      var k :| k in keys;
      keys := keys - {k};
      merged := merged[k := newer[k]];
    }
  }

  /** A new last entry is indexed only under a key that is new. */
  lemma IndexAppend(index: map<string, Entry>, nodes: seq<Entry>, items: seq<Item>, e: Entry, it: Item)
    requires Indexed(index, nodes, items)
    ensures it.key.Some? && it.key.value !in index ==> Indexed(index[it.key.value := e], nodes + [e], items + [it])
    ensures it.key.None? || it.key.value in index ==> Indexed(index, nodes + [e], items + [it])
  {
    hide Place;
    forall k ensures Place(items + [it], k) ==
        if Place(items, k) < |items| then Place(items, k) else if it.key == Some(k) then |items| else |items| + 1 {
      PlaceAppend(items, [it], k);
      PlaceIs([it], k, if it.key == Some(k) then 0 else 1);
    }
  }

  /** Two indexed lists, one after the other: the first list's entries win. */
  lemma IndexConcat(a: map<string, Entry>, an: seq<Entry>, ai: seq<Item>, b: map<string, Entry>, bn: seq<Entry>,
                    bi: seq<Item>)
    requires Indexed(a, an, ai) && Indexed(b, bn, bi)
    ensures Indexed(b + a, an + bn, ai + bi)
  {
    hide Place;
    forall k
      ensures k in b + a <==> Place(ai + bi, k) < |ai + bi|
      ensures k in b + a ==> (b + a)[k] == (an + bn)[Place(ai + bi, k)] {
      PlaceAppend(ai, bi, k);
    }
  }

  lemma {:induction false} PlaceReadOnly(items: seq<Item>, k: string)
    ensures Place(ReadOnly(items), k) == Place(items, k)
  {
    if items != [] { PlaceReadOnly(items[1..], k); }
  }

  lemma IndexReadOnly(index: map<string, Entry>, nodes: seq<Entry>, items: seq<Item>)
    requires Indexed(index, nodes, items)
    ensures Indexed(index, nodes, ReadOnly(items))
  {
    hide Place, ReadOnly;
    forall k ensures Place(ReadOnly(items), k) == Place(items, k) { PlaceReadOnly(items, k); }
  }

  // ---- config_file_t ----

  class Config {
    var path: string
    var entriesMap: map<string, Entry>
    var entries: Entry?
    var tail: Entry?
    var last: Entry?
    var includes: seq<string>
    var references: seq<string>
    var includeDepth: nat
    var modified: bool
    ghost var nodes: seq<Entry>
    ghost var items: seq<Item>
    ghost var own: set<Entry>

    /** The list holds `items`, and the map agrees with the list. */
    ghost predicate Valid()
      reads this, own
    {
      Listing(entries, nodes, items, own) && Indexed(entriesMap, nodes, items)
    }

    /** While text is being read, the tail is known as well. */
    ghost predicate Parsing()
      reads this, own
    {
      Valid() && tail == Last(nodes) && includeDepth <= MAX_INCLUDE_DEPTH
    }

    constructor ()
      ensures Parsing() && nodes == [] && items == [] && path == "" && includeDepth == 0 && !modified
      ensures includes == [] && references == [] && own == {}
    {
      path, entriesMap, entries, tail, last := "", map[], null, null, null;
      includes, references, includeDepth, modified := [], [], 0, false;
      nodes, items, own := [], [], {};
    }

    /** The list and its index as they have just become. */
    method Become(head: Entry?, last: Entry?, index: map<string, Entry>,
                  ghost nodes': seq<Entry>, ghost items': seq<Item>, ghost own': set<Entry>)
      requires Listing(head, nodes', items', own') && Indexed(index, nodes', items')
      requires last == Last(nodes') && includeDepth <= MAX_INCLUDE_DEPTH
      modifies this`entries, this`tail, this`entriesMap, this`nodes, this`items, this`own
      ensures Parsing() && nodes == nodes' && items == items' && own == own'
      ensures entries == head && entriesMap == index
    {
      hide Listing, Indexed, Last;
      entries, tail, entriesMap, nodes, items, own := head, last, index, nodes', items', own';
    }

    method Relist(head: Entry?, index: map<string, Entry>,
                  ghost nodes': seq<Entry>, ghost items': seq<Item>, ghost own': set<Entry>)
      requires Listing(head, nodes', items', own') && Indexed(index, nodes', items')
      modifies this`entries, this`entriesMap, this`nodes, this`items, this`own
      ensures Valid() && nodes == nodes' && items == items' && own == own'
      ensures entries == head && entriesMap == index
    {
      hide Listing, Indexed;
      entries, entriesMap, nodes, items, own := head, index, nodes', items', own';
    }

    /** The end of both reading loops: a parsed entry joins the list, and the map if its key is new. */
    method Append(e: Entry)
      requires Parsing() && e !in own && e.next == null && (e.key.Some? ==> e.value.Some?)
      modifies this`entries, this`tail, this`entriesMap, this`nodes, this`items, this`own, own`next
      ensures Parsing() && own == old(own) + {e}
      ensures nodes == old(nodes) + [e] && items == old(items) + [Item(e.key, e.value, e.readonly)]
    {
      ghost var it := Item(e.key, e.value, e.readonly);
      Single(e);
      IndexAppend(entriesMap, nodes, items, e, it);
      assert Last(nodes + [e]) == e;
      hide Indexed, Listing, Last;
      var head := Link(entries, tail, e, nodes, items, own, [e], [it], {e});
      var index := entriesMap;
      if e.key.Some? && e.key.value !in index {
        index := index[e.key.value := e];
      }
      Become(head, e, index, nodes + [e], items + [it], own + {e});
    }

    /** config_file_add_child_list. */
    method AddChildList(child: Config)
      requires Parsing() && child.Parsing() && child != this && own !! child.own
      modifies this`entries, this`tail, this`entriesMap, this`nodes, this`items, this`own, child
      modifies own`next, child.own`readonly
      ensures Parsing() && own == old(own) + old(child.own)
      ensures nodes == old(nodes) + old(child.nodes) && items == old(items) + ReadOnly(old(child.items))
    {
      ghost var more, moreItems, others := child.nodes, child.items, child.own;
      ghost var nodes', items', own' := nodes + more, items + ReadOnly(moreItems), own + others;
      var childEntries, childMap := child.entries, child.entriesMap;
      assert entries == null <==> nodes == [];
      hide Indexed, ReadOnly, Listing, Last;
      var index := MergeIndex(entries == null, entriesMap, childMap, nodes, items, more, moreItems);
      child.entries := null;
      var head := AppendReadOnly(entries, childEntries, nodes, items, own, more, moreItems, others);
      var last := FindLast(head, nodes', items', own');
      Become(head, last, index, nodes', items', own');
    }

    // ---- Reading text ----

    /** The include half of config_file_parse_line: a file that cannot be opened adds nothing. */
    method AddSubConf(env: Env, p: string)
      requires Parsing() && includeDepth < MAX_INCLUDE_DEPTH
      modifies this, own`next
      ensures Parsing() && path == old(path) && includeDepth == old(includeDepth)
      ensures own >= old(own) && fresh(own - old(own))
      ensures items == old(items) + Included(env, env.resolve(path, p), includeDepth + 1)
      ensures includes == old(includes) + [p] && references == old(references)
      decreases MAX_INCLUDE_DEPTH - includeDepth, 0
    {
      hide Indexed, Listing, Last, Expand, Lines;
      includes := includes + [p];
      var realPath := env.resolve(path, p);
      var sub := new Config();
      var failed := sub.Load(env, realPath, includeDepth + 1);
      if !failed {
        AddChildList(sub);
      }
    }

    /** config_file_parse_line: what the line makes of the entry, and of the list before it. */
    method ParseLine(env: Env, list: Entry, line: array<char>, ghost s: string) returns (ok: bool)
      requires Parsing() && Holds(line, 0, s)
      requires list !in own && list.next == null && Holding(list, NAMELESS)
      modifies this, own`next, list`key, list`value, line
      ensures Parsing() && path == old(path) && includeDepth == old(includeDepth)
      ensures own >= old(own) && fresh(own - old(own))
      ensures list.next == null && !list.readonly && (list.key.Some? ==> list.value.Some?)
      ensures ok ==> items + [Item(list.key, list.value, false)] == old(items) + ExpandLine(env, s, path, includeDepth)
      ensures !ok ==> items == old(items) && ExpandLine(env, s, path, includeDepth) == []
      ensures includes == old(includes) + LineIncludes(s, includeDepth)
      ensures references == old(references) + LineReferences(env, s, path)
      decreases MAX_INCLUDE_DEPTH - includeDepth, 1
    {
      hide Indexed, Listing, Last, ConfigText.ParseLine, Included, Holds;
      var parsed := ReadLine(line, s);
      match parsed {
        case Ignored =>
          return false;
        case Assign(key, value) =>
          list.key, list.value := Some(key), Some(value);
          return true;
        case Include(p) =>
          if includeDepth >= MAX_INCLUDE_DEPTH {
            return false;
          }
          AddSubConf(env, p);
          return true;
        case Reference(p) =>
          references := references + [env.store(path, p)];
          return true;
      }
    }

    /** One turn of the reading loops. */
    method ReadOneLine(env: Env, line: CString)
      requires Parsing()
      modifies this, own`next
      ensures Parsing() && path == old(path) && includeDepth == old(includeDepth)
      ensures own >= old(own) && fresh(own - old(own))
      ensures items == old(items) + ExpandLine(env, line, path, includeDepth)
      ensures includes == old(includes) + LineIncludes(line, includeDepth)
      ensures references == old(references) + LineReferences(env, line, path)
      decreases MAX_INCLUDE_DEPTH - includeDepth, 2
    {
      hide Indexed, Listing, Last, ExpandLine, LineIncludes, LineReferences;
      var list := new Entry(None, None);
      var buffer := NewBuffer(line);
      var ok := ParseLine(env, list, buffer, line);
      if ok {
        Append(list);
      }
    }

    /** The loop of config_file_load_internal and of config_file_from_string_internal. */
    method ReadText(env: Env, text: CString)
      requires Parsing() && own == {} && items == [] && includes == [] && references == []
      modifies this
      ensures Parsing() && path == old(path) && includeDepth == old(includeDepth) && fresh(own)
      ensures items == Expand(env, Lines(text), path, includeDepth)
      ensures includes == IncludePaths(Lines(text), includeDepth) && references == StoredReferences(env, Lines(text), path)
      decreases MAX_INCLUDE_DEPTH - includeDepth, 3
    {
      hide Indexed, Listing, Last, ExpandLine, Lines, Expand, LineIncludes, LineReferences, IncludePaths, StoredReferences;
      var pos := 0;
      assert text[0..] == text;
      while pos < |text|
        invariant pos <= |text| && Parsing() && fresh(own)
        invariant path == old(path) && includeDepth == old(includeDepth)
        invariant items + Expand(env, Lines(text[pos..]), path, includeDepth)
               == Expand(env, Lines(text), path, includeDepth)
        invariant includes + IncludePaths(Lines(text[pos..]), includeDepth) == IncludePaths(Lines(text), includeDepth)
        invariant references + StoredReferences(env, Lines(text[pos..]), path)
               == StoredReferences(env, Lines(text), path)
      {
        var n := LineEnd(text, pos);
        ghost var pos' := if n < |text| then n + 1 else n;
        ghost var before, rest := items, Expand(env, Lines(text[pos'..]), path, includeDepth);
        ghost var incs, refs := includes, references;
        StepOverLine(env, text, pos, n, path, includeDepth);
        if n > pos {
          ReadOneLine(env, text[pos..n]);
          ConcatAssociates(before, ExpandLine(env, text[pos..n], path, includeDepth), rest);
          ConcatAssociates(incs, LineIncludes(text[pos..n], includeDepth),
                           IncludePaths(Lines(text[pos'..]), includeDepth));
          ConcatAssociates(refs, LineReferences(env, text[pos..n], path),
                           StoredReferences(env, Lines(text[pos'..]), path));
        }
        pos := if n < |text| then n + 1 else n;
      }
      assert text[pos..] == "";
      NoLines(env, path, includeDepth);
    }

    /** config_file_load_internal: 1 when the file cannot be opened. */
    method Load(env: Env, file: string, depth: nat) returns (failed: bool)
      requires Parsing() && own == {} && items == [] && includes == [] && references == []
      requires depth <= MAX_INCLUDE_DEPTH
      modifies this
      ensures failed <==> file !in env.files
      ensures !failed ==> Parsing() && fresh(own) && path == file && includeDepth == depth
      ensures !failed ==> items == Expand(env, Lines(env.files[file]), file, depth)
      ensures !failed ==> includes == IncludePaths(Lines(env.files[file]), depth)
      ensures !failed ==> references == StoredReferences(env, Lines(env.files[file]), file)
      decreases MAX_INCLUDE_DEPTH - depth, 4
    {
      path, includeDepth := file, depth;
      if file !in env.files {
        return true;
      }
      ReadText(env, env.files[file]);
      return false;
    }

    // ---- Reading and changing entries ----

    /** config_get_string: the map finds what the list says. */
    method Get(key: string) returns (value: Option<string>)
      requires Valid()
      ensures value == Lookup(items, key)
    {
      if key in entriesMap {
        assert Holding(nodes[Place(items, key)], items[Place(items, key)]);
        return entriesMap[key].value;
      }
      return None;
    }

    /** config_set_string: in place if the map knows the key, else a new entry at the end. */
    method SetString(key: string, val: string)
      requires Valid()
      modifies this`entries, this`last, this`entriesMap, this`modified, this`nodes, this`items, this`own, own
      ensures Valid() && items == Set(old(items), key, val)
      ensures modified == (old(modified) || items != old(items))
      ensures own >= old(own) && fresh(own - old(own))
    {
      SetListed(entriesMap, entries, nodes, items, own, key, val);
      hide *;
      if key in entriesMap {
        SetEntry(key, val);
      } else {
        AddEntry(key, val);
      }
    }

    /** config_set_string for a key the map knows. */
    method SetEntry(key: string, val: string)
      requires Valid() && key in entriesMap
      modifies this`modified, this`items, own
      ensures Valid() && items == Set(old(items), key, val)
      ensures modified == (old(modified) || items != old(items))
    {
      SetListed(entriesMap, entries, nodes, items, own, key, val);
      hide *;
      var entry := entriesMap[key];
      ghost var n, items' := Place(items, key), Set(items, key, val);
      if entry.value.Some? {
        if entry.value.value == val {
          return;
        }
      }
      Overwrite(entries, entry, Some(key), Some(val), nodes, items, own, n);
      modified := true;
      items := items';
    }

    /** config_set_string for a key the map does not know. */
    method AddEntry(key: string, val: string)
      requires Valid() && key !in entriesMap
      modifies this`entries, this`last, this`entriesMap, this`modified, this`nodes, this`items, this`own, own`next
      ensures Valid() && items == old(items) + [Item(Some(key), Some(val), false)] && modified
      ensures own >= old(own) && fresh(own - old(own))
    {
      ghost var it := Item(Some(key), Some(val), false);
      hide Indexed, Listing, Place;
      var head, entry := AddLast(entries, key, val, nodes, items, own);
      IndexAppend(entriesMap, nodes, items, entry, it);
      last, modified := entry, true;
      Relist(head, entriesMap[key := entry], nodes + [entry], items + [it], own + {entry});
    }

    /** config_unset: the map and the list still agree exactly when the key occurred at most once. */
    method Unset(key: string)
      requires Valid()
      modifies this`entriesMap, this`modified, this`items, own
      ensures Listing(entries, nodes, items, own) && items == ConfigItems.Unset(old(items), key)
      ensures entriesMap == old(entriesMap) - {key}
      ensures Valid() <==> Occurrences(old(items), key) <= 1
      ensures modified == (old(modified) || key in old(entriesMap))
    {
      UnsetIndexed(entriesMap, nodes, items, key);
      UnsetListed(entriesMap, entries, nodes, items, own, key);
      hide *;
      if key !in entriesMap {
        return;
      }
      var entry := entriesMap[key];
      ghost var n, items' := Place(items, key), ConfigItems.Unset(items, key);
      Blank(entries, entry, nodes, items, own, n);
      Reindex(entriesMap - {key}, items');
    }

    method Reindex(index: map<string, Entry>, ghost items': seq<Item>)
      requires Listing(entries, nodes, items', own)
      modifies this`entriesMap, this`modified, this`items
      ensures Listing(entries, nodes, items, own) && items == items' && entriesMap == index && modified
      ensures Valid() <==> Indexed(index, nodes, items')
    {
      hide Listing, Indexed;
      entriesMap, modified, items := index, true, items';
    }

    /** config_append_file: the file's entries go in front. */
    method AppendFile(env: Env, file: string) returns (ok: bool)
      requires Valid()
      modifies this`entries, this`entriesMap, this`nodes, this`items, this`own
      ensures ok <==> file in env.files
      ensures Valid() && own >= old(own) && fresh(own - old(own))
      ensures items == (if ok then Expand(env, Lines(env.files[file]), file, 0) else []) + old(items)
    {
      hide Indexed, Listing, Expand, Lines;
      var newConf := NewFromPath(env, file);
      if newConf == null {
        return false;
      }
      ghost var more, moreItems, others := newConf.nodes, newConf.items, newConf.own;
      IndexConcat(newConf.entriesMap, more, moreItems, entriesMap, nodes, items);
      var index := OverrideMap(entriesMap, newConf.entriesMap);
      var head := entries;
      if newConf.tail != null {
        head := Link(newConf.entries, newConf.tail, entries, more, moreItems, others, nodes, items, own);
      } else {
        NothingListed(newConf.entries, more, moreItems, others);
        assert more + nodes == nodes && moreItems + items == items && others + own == own;
      }
      Relist(head, index, more + nodes, moreItems + items, others + own);
      return true;
    }
  }

  /** config_file_new_from_path_to_string. */
  method NewFromPath(env: Env, file: string) returns (conf: Config?)
    ensures conf == null <==> file !in env.files
    ensures conf != null ==> fresh(conf) && conf.Parsing() && fresh(conf.own)
    ensures conf != null ==> conf.items == Expand(env, Lines(env.files[file]), file, 0)
    ensures conf != null ==> conf.includes == IncludePaths(Lines(env.files[file]), 0)
    ensures conf != null ==> conf.references == StoredReferences(env, Lines(env.files[file]), file)
  {
    if file !in env.files {
      return null;
    }
    conf := new Config();
    conf.path := file;
    conf.ReadText(env, env.files[file]);
  }

  lemma NothingListed(head: Entry?, nodes: seq<Entry>, items: seq<Item>, own: set<Entry>)
    requires Listing(head, nodes, items, own) && Last(nodes) == null
    ensures nodes == [] && items == [] && own == {}
  {
  }

  /** The list half of config_set_string for a new key. */
  method AddLast(head: Entry?, key: string, val: string, ghost nodes: seq<Entry>, ghost items: seq<Item>,
                 ghost own: set<Entry>)
    returns (head': Entry?, entry: Entry)
    requires Listing(head, nodes, items, own)
    modifies own`next
    ensures fresh(entry)
    ensures Listing(head', nodes + [entry], items + [Item(Some(key), Some(val), false)], own + {entry})
  {
    entry := new Entry(Some(key), Some(val));
    Single(entry);
    hide Listing;
    var previous := FindLast(head, nodes, items, own);
    head' := Link(head, previous, entry, nodes, items, own, [entry], [Item(Some(key), Some(val), false)], {entry});
  }

  /** The value of entry `n` is replaced. */
  method Overwrite(head: Entry?, entry: Entry, ghost key: Key, value: Option<string>, ghost nodes: seq<Entry>,
                   ghost items: seq<Item>, ghost own: set<Entry>, ghost n: nat)
    requires Listing(head, nodes, items, own) && n < |nodes| && nodes[n] == entry && items[n].key == key && value.Some?
    modifies entry`value, entry`readonly
    ensures Listing(head, nodes, items[n := Item(key, value, false)], own)
  {
    assert forall j :: 0 <= j < |nodes| && j != n ==> nodes[j] != nodes[n];
    assert forall j :: 0 <= j < |nodes| ==> Holding(nodes[j], items[j]);
    entry.value := value;
    entry.readonly := false;
  }

  /** Entry `n` loses its key and its value, and stays. */
  method Blank(head: Entry?, entry: Entry, ghost nodes: seq<Entry>, ghost items: seq<Item>, ghost own: set<Entry>,
               ghost n: nat)
    requires Listing(head, nodes, items, own) && n < |nodes| && nodes[n] == entry
    modifies entry`key, entry`value
    ensures |items| == |nodes| && Listing(head, nodes, items[n := Item(None, None, items[n].readonly)], own)
  {
    assert forall j :: 0 <= j < |nodes| && j != n ==> nodes[j] != nodes[n];
    assert forall j :: 0 <= j < |nodes| ==> Holding(nodes[j], items[j]);
    entry.key := None;
    entry.value := None;
  }

  lemma IndexUpdate(index: map<string, Entry>, nodes: seq<Entry>, items: seq<Item>, n: nat, it: Item)
    requires Indexed(index, nodes, items) && n < |items| && items[n].key == it.key
    ensures Indexed(index, nodes, items[n := it])
  {
    hide Place;
    forall k ensures Place(items[n := it], k) == Place(items, k) { PlaceIs(items[n := it], k, Place(items, k)); }
  }

  lemma UnsetIndexed(index: map<string, Entry>, nodes: seq<Entry>, items: seq<Item>, key: string)
    requires Indexed(index, nodes, items)
    ensures Indexed(index - {key}, nodes, ConfigItems.Unset(items, key)) <==> Occurrences(items, key) <= 1
  {
    hide Place, Occurrences;
    var after := ConfigItems.Unset(items, key);
    UnsetGone(items, key);
    forall k | k != key ensures Place(after, k) == Place(items, k) {
      if Place(items, key) < |items| { PlaceIs(after, k, Place(items, k)); }
    }
  }

  lemma SetListed(index: map<string, Entry>, head: Entry?, nodes: seq<Entry>, items: seq<Item>, own: set<Entry>,
                  key: string, val: string)
    requires Listing(head, nodes, items, own) && Indexed(index, nodes, items)
    ensures key !in index ==> Set(items, key, val) == items + [Item(Some(key), Some(val), false)]
    ensures key in index ==> Place(items, key) < |nodes| == |items| && items[Place(items, key)].key == Some(key)
    ensures key in index ==> nodes[Place(items, key)] == index[key] && index[key] in own
    ensures key in index && index[key].value == Some(val) ==> Set(items, key, val) == items
    ensures key in index && index[key].value != Some(val) ==>
      Set(items, key, val) == items[Place(items, key) := Item(Some(key), Some(val), false)] != items
    ensures key in index ==> Indexed(index, nodes, Set(items, key, val))
  {
    hide Linked, Place;
    if key in index {
      IndexUpdate(index, nodes, items, Place(items, key), Item(Some(key), Some(val), false));
    }
  }

  lemma UnsetListed(index: map<string, Entry>, head: Entry?, nodes: seq<Entry>, items: seq<Item>, own: set<Entry>,
                    key: string)
    requires Listing(head, nodes, items, own) && Indexed(index, nodes, items)
    ensures key !in index ==>
      index - {key} == index && ConfigItems.Unset(items, key) == items && Occurrences(items, key) == 0
    ensures key in index ==> Place(items, key) < |nodes| == |items|
    ensures key in index ==> nodes[Place(items, key)] == index[key] && index[key] in own
    ensures key in index ==>
      ConfigItems.Unset(items, key) == items[Place(items, key) := Item(None, None, items[Place(items, key)].readonly)]
  {
    OccurrencesPlace(items, key);
    hide Occurrences, Place, Linked;
  }

  method NewBuffer(line: CString) returns (buffer: array<char>)
    ensures fresh(buffer) && Holds(buffer, 0, line)
  {
    buffer := new char[|line| + 1];
    for i := 0 to |line|
      invariant forall j :: 0 <= j < i ==> buffer[j] == line[j]
    {
      buffer[i] := line[i];
    }
    buffer[|line|] := '\0';
  }

  method LineEnd(text: CString, from: nat) returns (n: nat)
    requires from <= |text|
    ensures n == from + Chr(text[from..], '\n')
  {
    n := from;
    while n < |text| && text[n] != '\n'
      invariant from <= n <= |text| && forall i :: from <= i < n ==> text[i] != '\n'
    {
      n := n + 1;
    }
    ChrIs(text[from..], '\n', n - from);
  }

  lemma FirstLine(env: Env, line: string, rest: seq<string>, path: string, depth: nat)
    requires depth <= MAX_INCLUDE_DEPTH
    ensures Expand(env, [line] + rest, path, depth) == ExpandLine(env, line, path, depth) + Expand(env, rest, path, depth)
    ensures IncludePaths([line] + rest, depth) == LineIncludes(line, depth) + IncludePaths(rest, depth)
    ensures StoredReferences(env, [line] + rest, path) == LineReferences(env, line, path) + StoredReferences(env, rest, path)
  {
    hide ExpandLine, LineIncludes, LineReferences;
    assert ([line] + rest)[0] == line && ([line] + rest)[1..] == rest;
  }

  lemma StepOverLine(env: Env, text: string, pos: nat, n: nat, path: string, depth: nat)
    requires depth <= MAX_INCLUDE_DEPTH && pos < |text| && n == pos + Chr(text[pos..], '\n')
    ensures var lines, rest := Lines(text[pos..]), Lines(text[if n < |text| then n + 1 else n..]);
      if n == pos then lines == rest else
      && Expand(env, lines, path, depth) == ExpandLine(env, text[pos..n], path, depth) + Expand(env, rest, path, depth)
      && IncludePaths(lines, depth) == LineIncludes(text[pos..n], depth) + IncludePaths(rest, depth)
      && StoredReferences(env, lines, path)
         == LineReferences(env, text[pos..n], path) + StoredReferences(env, rest, path)
  {
    LinesFrom(text, pos, n);
    hide Lines, Chr, Expand, ExpandLine, IncludePaths, LineIncludes, StoredReferences, LineReferences;
    if n > pos {
      FirstLine(env, text[pos..n], Lines(text[if n < |text| then n + 1 else n..]), path, depth);
    }
  }

  lemma NoLines(env: Env, path: string, depth: nat)
    requires depth <= MAX_INCLUDE_DEPTH
    ensures Expand(env, Lines(""), path, depth) == []
    ensures IncludePaths(Lines(""), depth) == [] && StoredReferences(env, Lines(""), path) == []
  {
  }

  /** The map half of config_file_add_child_list. */
  method MergeIndex(empty: bool, index: map<string, Entry>, child: map<string, Entry>, ghost nodes: seq<Entry>,
                    ghost items: seq<Item>, ghost more: seq<Entry>, ghost moreItems: seq<Item>)
    returns (merged: map<string, Entry>)
    requires Indexed(index, nodes, items) && Indexed(child, more, moreItems) && (empty <==> nodes == [])
    ensures Indexed(merged, nodes + more, items + ReadOnly(moreItems))
  {
    IndexReadOnly(child, more, moreItems);
    IndexConcat(index, nodes, items, child, more, ReadOnly(moreItems));
    IndexEmpty(index, nodes, items);
    if empty {
      assert child + map[] == child;
      return child;
    }
    merged := MergeMaps(index, child);
  }

  /** The list half of config_file_add_child_list. */
  method AppendReadOnly(head: Entry?, child: Entry?, ghost nodes: seq<Entry>, ghost items: seq<Item>,
                        ghost own: set<Entry>, ghost more: seq<Entry>, ghost moreItems: seq<Item>, ghost others: set<Entry>)
    returns (head': Entry?)
    requires Listing(head, nodes, items, own) && Listing(child, more, moreItems, others) && own !! others
    modifies own`next, others`readonly
    ensures Listing(head', nodes + more, items + ReadOnly(moreItems), own + others)
  {
    hide Listing, ReadOnly, Last;
    MarkReadOnly(child, more, moreItems, others);
    var last := FindLast(head, nodes, items, own);
    head' := Link(head, last, child, nodes, items, own, more, ReadOnly(moreItems), others);
  }

  lemma IndexEmpty(index: map<string, Entry>, nodes: seq<Entry>, items: seq<Item>)
    requires Indexed(index, nodes, items)
    ensures nodes == [] ==> index == map[]
  {
    if nodes == [] {
      forall k ensures k !in index { }
    }
  }
}
