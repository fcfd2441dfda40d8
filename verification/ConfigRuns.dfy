/** Over any run of set, unset and append, a config behaves as a plain map from keys to values. */
module ConfigRuns {
  import opened Prelude
  import opened ConfigOrder
  import opened CStrings
  import opened ConfigText
  import opened ConfigDump
  import opened ConfigItems
  import opened ConfigRoundTrip
  import opened ConfigStore

  datatype Op = SetOp(key: string, val: string) | UnsetOp(key: string) | AppendOp(file: string)

  /** What an operation does to the list of entries. */
  function Step(env: Env, items: seq<Item>, op: Op): seq<Item> {
    match op
    case SetOp(k, v) => Set(items, k, v)
    case UnsetOp(k) => Unset(items, k)
    case AppendOp(f) => (if f in env.files then Expand(env, Lines(env.files[f]), f, 0) else []) + items
  }

  /** Only unset asks something of its caller: that the key occurs at most once. */
  predicate Allowed(items: seq<Item>, op: Op) {
    op.UnsetOp? ==> Occurrences(items, op.key) <= 1
  }

  function Run(env: Env, items: seq<Item>, ops: seq<Op>): seq<Item>
    decreases |ops|
  {
    if ops == [] then items else Run(env, Step(env, items, ops[0]), ops[1..])
  }

  predicate RunAllowed(env: Env, items: seq<Item>, ops: seq<Op>)
    decreases |ops|
  {
    ops == [] || (Allowed(items, ops[0]) && RunAllowed(env, Step(env, items, ops[0]), ops[1..]))
  }

  // ---- The reference: a map ----

  /** The first value of each key. */
  function Table(items: seq<Item>): map<string, string> {
    if items == [] then map[] else
    if items[0].key.Some? && items[0].value.Some?
    then Table(items[1..])[items[0].key.value := items[0].value.value]
    else Table(items[1..])
  }

  function Find(m: map<string, string>, k: string): Option<string> {
    if k in m then Some(m[k]) else None
  }

  function MapStep(env: Env, m: map<string, string>, op: Op): map<string, string> {
    match op
    case SetOp(k, v) => m[k := v]
    case UnsetOp(k) => m - {k}
    case AppendOp(f) => m + (if f in env.files then Table(Expand(env, Lines(env.files[f]), f, 0)) else map[])
  }

  function MapRun(env: Env, m: map<string, string>, ops: seq<Op>): map<string, string>
    decreases |ops|
  {
    if ops == [] then m else MapRun(env, MapStep(env, m, ops[0]), ops[1..])
  }

  lemma {:induction false} TableLookup(items: seq<Item>, k: string)
    requires Valued(items)
    ensures Find(Table(items), k) == Lookup(items, k)
  {
    if items != [] { TableLookup(items[1..], k); }
  }

  lemma TablesEqual(a: map<string, string>, b: map<string, string>)
    requires forall k :: Find(a, k) == Find(b, k)
    ensures a == b
  {
    forall k ensures (k in a <==> k in b) && (k in a ==> a[k] == b[k]) { assert Find(a, k) == Find(b, k); }
  }

  lemma PlacedHasValue(items: seq<Item>, k: string)
    requires Valued(items)
    ensures Lookup(items, k).None? <==> Place(items, k) == |items|
  {
  }

  lemma AppendTable(a: seq<Item>, b: seq<Item>)
    requires Valued(a) && Valued(b)
    ensures Valued(a + b) && Table(a + b) == Table(b) + Table(a)
  {
    hide Table, Lookup, Place;
    forall k ensures Find(Table(a + b), k) == Find(Table(b) + Table(a), k) {
      LookupAppend(a, b, k);
      TableLookup(a + b, k);
      TableLookup(a, k);
      TableLookup(b, k);
      PlacedHasValue(a, k);
    }
    TablesEqual(Table(a + b), Table(b) + Table(a));
  }

  lemma SetTable(items: seq<Item>, key: string, v: string)
    requires Valued(items)
    ensures Valued(Set(items, key, v)) && Table(Set(items, key, v)) == Table(items)[key := v]
  {
    hide Table, Lookup;
    forall k ensures Find(Table(Set(items, key, v)), k) == Find(Table(items)[key := v], k) {
      SetLookup(items, key, v, k);
      TableLookup(items, k);
      TableLookup(Set(items, key, v), k);
    }
    TablesEqual(Table(Set(items, key, v)), Table(items)[key := v]);
  }

  /** Unset removes the key from the table exactly when it occurred at most once. */
  lemma UnsetTable(items: seq<Item>, key: string)
    requires Valued(items)
    ensures Valued(Unset(items, key))
    ensures Table(Unset(items, key)) == Table(items) - {key} <==> Occurrences(items, key) <= 1
  {
    hide Table, Lookup, Occurrences, Place;
    var after := Unset(items, key);
    UnsetGone(items, key);
    forall k | k != key ensures Find(Table(after), k) == Find(Table(items) - {key}, k) {
      UnsetOthers(items, key, k);
      TableLookup(items, k);
      TableLookup(after, k);
    }
    TableLookup(after, key);
    PlacedHasValue(after, key);
    if Occurrences(items, key) <= 1 {
      TablesEqual(Table(after), Table(items) - {key});
    }
  }

  lemma FileValued(env: Env, f: string)
    requires f in env.files
    ensures Valued(Expand(env, Lines(env.files[f]), f, 0))
  {
    hide Expand, Lines;
    LinesHold(env.files[f]);
    ExpandReadable(env, Lines(env.files[f]), f, 0);
    ReadableValued(Expand(env, Lines(env.files[f]), f, 0));
  }

  lemma StepTable(env: Env, items: seq<Item>, op: Op)
    requires Valued(items)
    ensures Valued(Step(env, items, op))
    ensures Table(Step(env, items, op)) == MapStep(env, Table(items), op) <==> Allowed(items, op)
  {
    hide Table, Expand, Lines, Set, Unset, Occurrences;
    match op {
      case SetOp(k, v) => SetTable(items, k, v);
      case UnsetOp(k) => UnsetTable(items, k);
      case AppendOp(f) =>
        if f in env.files {
          FileValued(env, f);
          AppendTable(Expand(env, Lines(env.files[f]), f, 0), items);
        } else {
          assert [] + items == items;
          assert Table(items) + map[] == Table(items);
        }
    }
  }

  /** The list, looked up first entry first, is the map, after any run. */
  lemma {:induction false} RunTable(env: Env, items: seq<Item>, ops: seq<Op>)
    requires Valued(items) && RunAllowed(env, items, ops)
    ensures Valued(Run(env, items, ops)) && Table(Run(env, items, ops)) == MapRun(env, Table(items), ops)
    decreases |ops|
  {
    hide Table, Step, MapStep, Allowed;
    if ops != [] {
      StepTable(env, items, ops[0]);
      RunTable(env, Step(env, items, ops[0]), ops[1..]);
    }
  }

  // ---- The same run on the linked list and its index ----

  method Apply(conf: Config, env: Env, op: Op)
    requires conf.Valid() && Allowed(conf.items, op)
    modifies conf, conf.own
    ensures conf.Valid() && conf.items == Step(env, old(conf.items), op)
    ensures conf.own >= old(conf.own) && fresh(conf.own - old(conf.own))
  {
    hide Listing, Indexed, Set, Unset, Expand, Lines, Occurrences;
    match op {
      case SetOp(k, v) => conf.SetString(k, v);
      case UnsetOp(k) => conf.Unset(k);
      case AppendOp(f) => var _ := conf.AppendFile(env, f);
    }
  }

  /** After any run every key is found through the map with the value the reference gives. */
  method ApplyAll(conf: Config, env: Env, ops: seq<Op>)
    requires conf.Valid() && RunAllowed(env, conf.items, ops)
    modifies conf, conf.own
    ensures conf.Valid() && conf.items == Run(env, old(conf.items), ops)
    ensures forall k :: Lookup(conf.items, k) == Find(MapRun(env, Table(old(conf.items)), ops), k)
  {
    ghost var start := conf.items;
    assert Valued(start);
    hide Listing, Indexed, Step, MapStep, Allowed, Table, Lookup;
    var i := 0;
    assert ops[0..] == ops;
    while i < |ops|
      invariant 0 <= i <= |ops| && conf.Valid()
      invariant conf.own >= old(conf.own) && fresh(conf.own - old(conf.own))
      invariant RunAllowed(env, conf.items, ops[i..]) && Run(env, conf.items, ops[i..]) == Run(env, start, ops)
    {
      assert ops[i..][0] == ops[i] && ops[i..][1..] == ops[i + 1..];
      Apply(conf, env, ops[i]);
      i := i + 1;
    }
    RunTable(env, start, ops);
    forall k ensures Lookup(conf.items, k) == Find(MapRun(env, Table(start), ops), k) {
      TableLookup(conf.items, k);
    }
  }

  /** A whole life of a store: read from a file with its includes, changed by any run, and asked for a key. */
  method Session(env: Env, file: string, ops: seq<Op>, key: string) returns (value: Option<string>)
    requires file in env.files && RunAllowed(env, Expand(env, Lines(env.files[file]), file, 0), ops)
    ensures value == Find(MapRun(env, Table(Expand(env, Lines(env.files[file]), file, 0)), ops), key)
  {
    hide *;
    var conf := NewFromPath(env, file);
    ParsedIsValid(conf);
    ApplyAll(conf, env, ops);
    value := conf.Get(key);
  }

  lemma ParsedIsValid(conf: Config)
    requires conf.Parsing()
    ensures conf.Valid()
  {
  }
}
