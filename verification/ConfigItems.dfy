/** The entries a config stands for, as plain values: expansion of includes, lookup, dump and sort. */
module ConfigItems {
  import opened Prelude
  import opened ConfigOrder
  import opened CStrings
  import opened ConfigText
  import opened ConfigDump

  /** What an entry of the list holds. */
  datatype Item = Item(key: Key, value: Option<string>, readonly: bool)

  const NAMELESS := Item(None, None, false)

  const MAX_INCLUDE_DEPTH: nat := 16

  /** The files that can be opened, how a path in an include resolves against the including file, and in what form a
      reference found in a file is stored. */
  datatype Env = Env(files: map<string, CString>, resolve: (string, string) -> string,
                     store: (string, string) -> string)

  function ReadOnly(items: seq<Item>): (r: seq<Item>)
    ensures |r| == |items| && forall i :: 0 <= i < |items| ==> r[i] == items[i].(readonly := true)
  {
    if items == [] then [] else [items[0].(readonly := true)] + ReadOnly(items[1..])
  }

  // ---- The text with its includes expanded ----

  function Expand(env: Env, lines: seq<string>, path: string, depth: nat): seq<Item>
    requires depth <= MAX_INCLUDE_DEPTH
    decreases MAX_INCLUDE_DEPTH - depth, 1, |lines|
  {
    if lines == [] then [] else ExpandLine(env, lines[0], path, depth) + Expand(env, lines[1..], path, depth)
  }

  function ExpandLine(env: Env, line: string, path: string, depth: nat): seq<Item>
    requires depth <= MAX_INCLUDE_DEPTH
    decreases MAX_INCLUDE_DEPTH - depth, 0, 0
  {
    match ParseLine(line)
    case Ignored => []
    case Assign(key, value) => [Item(Some(key), Some(value), false)]
    case Reference(_) => [NAMELESS]
    case Include(p) =>
      if depth == MAX_INCLUDE_DEPTH then [] else Included(env, env.resolve(path, p), depth + 1) + [NAMELESS]
  }

  /** What an included file contributes: nothing when it cannot be opened. */
  function Included(env: Env, path: string, depth: nat): seq<Item>
    requires depth <= MAX_INCLUDE_DEPTH
    decreases MAX_INCLUDE_DEPTH - depth, 2, 0
  {
    if path in env.files then ReadOnly(Expand(env, Lines(env.files[path]), path, depth)) else []
  }

  /** The paths a line adds to the config's own list of includes; at the last depth an include is ignored. */
  function LineIncludes(line: string, depth: nat): seq<string> {
    match ParseLine(line)
    case Include(p) => if depth == MAX_INCLUDE_DEPTH then [] else [p]
    case _ => []
  }

  /** The form in which a line's reference is stored. */
  function LineReferences(env: Env, line: string, path: string): seq<string> {
    match ParseLine(line)
    case Reference(p) => [env.store(path, p)]
    case _ => []
  }

  /** The includes a text names itself, not those of the files it includes. */
  function IncludePaths(lines: seq<string>, depth: nat): seq<string> {
    if lines == [] then [] else LineIncludes(lines[0], depth) + IncludePaths(lines[1..], depth)
  }

  function StoredReferences(env: Env, lines: seq<string>, path: string): seq<string> {
    if lines == [] then [] else LineReferences(env, lines[0], path) + StoredReferences(env, lines[1..], path)
  }

  // ---- Lookup ----

  /** Where `k` first occurs as a key; the length of the list when it does not. */
  function Place(items: seq<Item>, k: string): (n: nat)
    ensures n <= |items| && (forall i :: 0 <= i < n ==> items[i].key != Some(k))
    ensures n < |items| ==> items[n].key == Some(k)
  {
    if items != [] && items[0].key != Some(k) then 1 + Place(items[1..], k) else 0
  }

  /** The value of the first entry with that key. */
  function Lookup(items: seq<Item>, k: string): Option<string> {
    if Place(items, k) < |items| then items[Place(items, k)].value else None
  }

  lemma PlaceIs(items: seq<Item>, k: string, n: nat)
    requires n <= |items| && (forall i :: 0 <= i < n ==> items[i].key != Some(k))
    requires n < |items| ==> items[n].key == Some(k)
    ensures Place(items, k) == n
  {
    if n > 0 { PlaceIs(items[1..], k, n - 1); }
  }

  lemma PlaceAppend(a: seq<Item>, b: seq<Item>, k: string)
    ensures Place(a + b, k) == if Place(a, k) < |a| then Place(a, k) else |a| + Place(b, k)
  {
    PlaceIs(a + b, k, if Place(a, k) < |a| then Place(a, k) else |a| + Place(b, k));
  }

  /** Earlier assignments win. */
  lemma LookupAppend(a: seq<Item>, b: seq<Item>, k: string)
    ensures Lookup(a + b, k) == if Place(a, k) < |a| then Lookup(a, k) else Lookup(b, k)
  {
    hide Place;
    PlaceAppend(a, b, k);
  }

  /** An entry with a key has a value. */
  predicate Valued(items: seq<Item>) {
    forall i :: 0 <= i < |items| && items[i].key.Some? ==> items[i].value.Some?
  }

  // ---- What set, append and unset mean ----

  ghost predicate DistinctKeys(items: seq<Item>) {
    forall k :: Occurrences(items, k) <= 1
  }

  function Occurrences(items: seq<Item>, k: string): nat {
    if items == [] then 0 else (if items[0].key == Some(k) then 1 else 0) + Occurrences(items[1..], k)
  }

  lemma {:induction false} OccurrencesPlace(items: seq<Item>, k: string)
    ensures Occurrences(items, k) ==
      if Place(items, k) == |items| then 0 else 1 + Occurrences(items[Place(items, k) + 1..], k)
  {
    if items != [] && items[0].key != Some(k) {
      OccurrencesPlace(items[1..], k);
      if Place(items, k) < |items| {
        assert items[1..][Place(items, k)..] == items[Place(items, k) + 1..];
      }
    }
  }

  /** config_set_string. */
  function Set(items: seq<Item>, k: string, v: string): seq<Item> {
    var n := Place(items, k);
    if n == |items| then items + [Item(Some(k), Some(v), false)] else
    if items[n].value == Some(v) then items else items[n := Item(Some(k), Some(v), false)]
  }

  /** config_unset: the entry stays in the list, with no key and no value. */
  function Unset(items: seq<Item>, k: string): seq<Item> {
    var n := Place(items, k);
    if n == |items| then items else items[n := Item(None, None, items[n].readonly)]
  }

  lemma SetLookup(items: seq<Item>, k: string, v: string, q: string)
    ensures Lookup(Set(items, k, v), q) == if q == k then Some(v) else Lookup(items, q)
  {
    var n := Place(items, k);
    if n == |items| {
      LookupAppend(items, [Item(Some(k), Some(v), false)], q);
    } else {
      PlaceIs(Set(items, k, v), q, Place(items, q));
    }
  }

  lemma UnsetOthers(items: seq<Item>, k: string, q: string)
    requires q != k
    ensures Lookup(Unset(items, k), q) == Lookup(items, q)
  {
    if Place(items, k) < |items| { PlaceIs(Unset(items, k), q, Place(items, q)); }
  }

  /** After unset the key is gone from the list exactly when it occurred at most once. */
  lemma UnsetGone(items: seq<Item>, k: string)
    ensures Place(Unset(items, k), k) == |Unset(items, k)| <==> Occurrences(items, k) <= 1
  {
    OccurrencesPlace(items, k);
    UnsetParts(items, k);
    hide *;
    var n := Place(items, k);
    if n < |items| {
      var a, b := items[..n] + [Item(None, None, items[n].readonly)], items[n + 1..];
      PlaceAppend(a, b, k);
      OccurrencesPlace(b, k);
    }
  }

  lemma UnsetParts(items: seq<Item>, k: string)
    ensures Place(items, k) <= |items|
    ensures Place(items, k) == |items| ==> Unset(items, k) == items
    ensures Place(items, k) < |items| ==>
      var a := items[..Place(items, k)] + [Item(None, None, items[Place(items, k)].readonly)];
      Unset(items, k) == a + items[Place(items, k) + 1..] && Place(a, k) == |a|
  {
    var n := Place(items, k);
    if n < |items| { PlaceIs(items[..n] + [Item(None, None, items[n].readonly)], k, n + 1); }
  }

  // ---- Includes end even when files include each other ----

  /** A file that includes only itself contributes one nameless entry a level, down to the limit. */
  lemma {:induction false} SelfInclude(env: Env, path: string, line: string, depth: nat)
    requires depth <= MAX_INCLUDE_DEPTH && path in env.files && Lines(env.files[path]) == [line]
    requires ParseLine(line).Include? && env.resolve(path, ParseLine(line).path) == path
    ensures |Expand(env, Lines(env.files[path]), path, depth)| == MAX_INCLUDE_DEPTH - depth
    decreases MAX_INCLUDE_DEPTH - depth
  {
    hide ParseLine, Lines;
    var lines := Lines(env.files[path]);
    assert lines[1..] == [];
    assert Expand(env, lines[1..], path, depth) == [];
    assert Expand(env, lines, path, depth) == ExpandLine(env, line, path, depth) + [];
    if depth < MAX_INCLUDE_DEPTH {
      SelfInclude(env, path, line, depth + 1);
      assert ExpandLine(env, line, path, depth) == Included(env, path, depth + 1) + [NAMELESS];
    }
  }
}
