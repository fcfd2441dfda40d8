/** The token choice of stbi_zlib_compress as a function of the data: hash chains and lazy matching. */
module LazyMatching {
  import opened Bytes
  import opened DeflateTokens

  const ZHASH: nat := 16384

  /** stbiw__zhash(p) & (stbiw__ZHASH - 1), on 32-bit words. */
  function Hash(data: seq<byte>, i: nat): (h: nat)
    requires i + 2 < |data|
    ensures h < ZHASH
  {
    (Scramble(Word(data, i) as bv32) as int) % ZHASH
  }

  /** Three bytes as a number, the first one lowest. */
  function Word(data: seq<byte>, i: nat): (w: nat)
    requires i + 2 < |data|
    ensures w < 0x100_0000
  {
    var a: nat, b: nat, c: nat := data[i], data[i + 1], data[i + 2];
    a + 256 * b + 65536 * c
  }

  function Scramble(h0: bv32): bv32 {
    var h1 := h0 ^ (h0 << 3);
    var h2 := h1 + (h1 >> 5);
    var h3 := h2 ^ (h2 << 4);
    var h4 := h3 + (h3 >> 17);
    var h5 := h4 ^ (h4 << 25);
    h5 + (h5 >> 6)
  }

  /** Three words and what the steps make of them, the low fourteen bits of which are the hash. */
  lemma HashExamples(data: seq<byte>)
    requires data == [97, 98, 99, 255, 255, 255]
    ensures Word(data, 0) == 0x636261 && Word(data, 1) == 0xff6362 && Word(data, 3) == 0xffffff
    ensures Scramble(1) == 0x32c8009b && Scramble(0x636261) == 0x4eaf783 && Scramble(0xffffff) == 0xd6031bbe
  {
  }

  // ---- Runs ----

  /** Whether `n` bytes at `loc` and at `i` are the same. */
  predicate SameRun(data: seq<byte>, loc: nat, i: nat, n: nat) {
    loc <= i && i + n <= |data| && forall k :: loc <= k < loc + n ==> data[k] == data[k + i - loc]
  }

  /** A usable back reference from `i`: at least 3 bytes, inside the window, and the bytes agree. */
  predicate GoodMatch(data: seq<byte>, i: nat, loc: nat, n: nat) {
    loc < i && i - loc <= 32767 && 3 <= n <= 258 && SameRun(data, loc, i, n)
  }

  /** Position `loc` is in the window of `i` and agrees with it for more than `best` bytes. */
  predicate Longer(data: seq<byte>, loc: nat, i: nat, best: nat) {
    i - loc <= 32767 && best < 258 && SameRun(data, loc, i, best + 1)
  }

  /** No entry agrees for more than `n` bytes. */
  ghost predicate NoneLonger(data: seq<byte>, i: nat, chain: seq<nat>, n: nat) {
    forall p :: p in chain ==> !Longer(data, p, i, n)
  }

  /** Entry `j` is the newest of those with the longest run, which has `n` bytes, at least 3. */
  ghost predicate NewestLongest(data: seq<byte>, i: nat, chain: seq<nat>, j: nat, n: nat) {
    && n >= 3 && j < |chain| && Longer(data, chain[j], i, n - 1)
    && NoneLonger(data, i, chain, n) && NoneLonger(data, i, chain[j + 1..], n - 1)
  }

  /**
   The choice of lazy matching: a reference to the newest of the longest runs of the chain, unless the
   next position has a longer one; a literal when the chain has no run of 3 or the next position does
   better.
   */
  ghost predicate Chosen(t: Token, data: seq<byte>, i: nat, chain: seq<nat>, next: seq<nat>)
    requires i < |data|
  {
    match t
    case Match(n, d) =>
      NoneLonger(data, i + 1, next, n) &&
      exists j: nat :: j < |chain| && d == i - chain[j] && NewestLongest(data, i, chain, j, n)
    case Literal(b) =>
      b == data[i] &&
      (NoneLonger(data, i, chain, 2) ||
       exists j, n :: NewestLongest(data, i, chain, j, n) && !NoneLonger(data, i + 1, next, n))
  }

  lemma Shorter(data: seq<byte>, loc: nat, i: nat, n: nat, m: nat)
    requires Longer(data, loc, i, n) && m <= n
    ensures Longer(data, loc, i, m)
  {
  }

  lemma LongestIsUnique(data: seq<byte>, i: nat, chain: seq<nat>, j: nat, n: nat, j': nat, n': nat)
    requires NewestLongest(data, i, chain, j, n) && NewestLongest(data, i, chain, j', n')
    ensures j == j' && n == n'
  {
    if n < n' {
      Shorter(data, chain[j'], i, n' - 1, n);
    } else if n' < n {
      Shorter(data, chain[j], i, n - 1, n');
    } else if j < j' {
      NoneAfter(data, i, chain, j, n - 1, j');
    } else if j' < j {
      NoneAfter(data, i, chain, j', n - 1, j);
    }
  }

  lemma NoneAfter(data: seq<byte>, i: nat, chain: seq<nat>, j: nat, n: nat, k: nat)
    requires j < k < |chain| && NoneLonger(data, i, chain[j + 1..], n)
    ensures !Longer(data, chain[k], i, n)
  {
    assert chain[j + 1..][k - j - 1] == chain[k];
  }

  /** A longest run of at least 3 bytes is a run of more than 2. */
  lemma LongestIsARun(data: seq<byte>, i: nat, chain: seq<nat>, j: nat, n: nat)
    requires NewestLongest(data, i, chain, j, n)
    ensures !NoneLonger(data, i, chain, 2)
  {
    assert chain[j] in chain && Longer(data, chain[j], i, 2);
  }

  lemma ChoiceIsUnique(t: Token, u: Token, data: seq<byte>, i: nat, chain: seq<nat>, next: seq<nat>)
    requires i < |data| && Chosen(t, data, i, chain, next) && Chosen(u, data, i, chain, next)
    ensures t == u
  {
    hide NewestLongest, NoneLonger;
    forall j, n, j', n' | NewestLongest(data, i, chain, j, n) && NewestLongest(data, i, chain, j', n')
      ensures j == j' && n == n'
    {
      LongestIsUnique(data, i, chain, j, n, j', n');
    }
    forall j, n | NewestLongest(data, i, chain, j, n) ensures !NoneLonger(data, i, chain, 2) {
      LongestIsARun(data, i, chain, j, n);
    }
  }

  // ---- Chains ----

  predicate HasHash(data: seq<byte>, p: nat, h: nat) {
    p + 2 < |data| && Hash(data, p) == h
  }

  /** The chain of hash `h` after the positions `ps` were added: a full chain first loses its older half. */
  ghost function ChainOf(data: seq<byte>, ps: seq<nat>, h: nat, quality: nat): (chain: seq<nat>)
    requires quality > 0
    ensures |chain| <= 2 * quality
    decreases |ps|
  {
    if |ps| == 0 then [] else
      hide HasHash;
      var chain := ChainOf(data, ps[..|ps| - 1], h, quality);
      var p := ps[|ps| - 1];
      if HasHash(data, p, h) then
        (if |chain| == 2 * quality then chain[quality..] else chain) + [p]
      else chain
  }

  /** All positions with that hash, oldest first. */
  ghost function WithHash(data: seq<byte>, ps: seq<nat>, h: nat): (all: seq<nat>)
    ensures |all| <= |ps|
    decreases |ps|
  {
    if |ps| == 0 then [] else
      hide HasHash;
      var before := WithHash(data, ps[..|ps| - 1], h);
      var p := ps[|ps| - 1];
      if HasHash(data, p, h) then before + [p] else before
  }

  /** How many of `m` positions a chain still holds. */
  ghost function Held(m: nat, quality: nat): (n: nat)
    requires quality > 0
    ensures n <= m && n <= 2 * quality && (m > quality ==> n > quality)
  {
    if m <= 2 * quality then m else quality + 1 + (m - 1) % quality
  }

  lemma HeldNext(m: nat, quality: nat)
    requires quality > 0
    ensures Held(m + 1, quality) == (if Held(m, quality) == 2 * quality then quality else Held(m, quality)) + 1
  {
    if m == 2 * quality {
      Remainder(m, quality, 2, 0);
    } else if m > 2 * quality {
      var r, k := (m - 1) % quality, (m - 1) / quality;
      assert m - 1 == quality * k + r;
      if r == quality - 1 {
        Remainder(m, quality, k + 1, 0);
      } else {
        Remainder(m, quality, k, r + 1);
      }
    }
  }

  lemma Product(q: nat, d: int)
    requires q > 0
    ensures d >= 1 ==> q * d >= q
    ensures d <= -1 ==> q * d + q <= 0
  {
  }

  lemma Remainder(m: nat, q: nat, k: nat, r: nat)
    requires q > 0 && m == q * k + r && r < q
    ensures m % q == r
  {
    assert m == q * (m / q) + m % q;
    Product(q, m / q - k);
  }

  ghost predicate Recent(chain: seq<nat>, all: seq<nat>, quality: nat)
    requires quality > 0
  {
    chain == all[|all| - Held(|all|, quality)..]
  }

  lemma NextRecent(chain: seq<nat>, all: seq<nat>, p: nat, quality: nat)
    requires quality > 0 && Recent(chain, all, quality)
    ensures Recent((if |chain| == 2 * quality then chain[quality..] else chain) + [p], all + [p], quality)
  {
    hide Held;
    HeldNext(|all|, quality);
  }

  /** A chain is the most recent positions of its hash: up to twice the quality all of them, then more than the quality. */
  lemma {:induction false} ChainIsRecent(data: seq<byte>, ps: seq<nat>, h: nat, quality: nat)
    requires quality > 0
    ensures Recent(ChainOf(data, ps, h, quality), WithHash(data, ps, h), quality)
    decreases |ps|
  {
    hide *;
    if |ps| == 0 {
      assert ps == [];
      NothingYet(data, h, quality);
    } else {
      var front, p := ps[..|ps| - 1], ps[|ps| - 1];
      ChainIsRecent(data, front, h, quality);
      StaysRecent(data, front, p, h, quality);
      assert ps == front + [p];
    }
  }

  lemma StaysRecent(data: seq<byte>, ps: seq<nat>, p: nat, h: nat, quality: nat)
    requires quality > 0 && Recent(ChainOf(data, ps, h, quality), WithHash(data, ps, h), quality)
    ensures Recent(ChainOf(data, ps + [p], h, quality), WithHash(data, ps + [p], h), quality)
  {
    hide *;
    OneMoreInChain(data, ps, p, h, quality);
    OneMoreWithHash(data, ps, p, h);
    NextRecent(ChainOf(data, ps, h, quality), WithHash(data, ps, h), p, quality);
  }

  lemma NothingYet(data: seq<byte>, h: nat, quality: nat)
    requires quality > 0
    ensures ChainOf(data, [], h, quality) == [] && WithHash(data, [], h) == [] && Recent([], [], quality)
  {
  }

  lemma OneMoreWithHash(data: seq<byte>, ps: seq<nat>, p: nat, h: nat)
    ensures WithHash(data, ps + [p], h) == if HasHash(data, p, h) then WithHash(data, ps, h) + [p] else WithHash(data, ps, h)
  {
    hide HasHash;
    assert (ps + [p])[..|ps|] == ps;
  }

  // ---- The search over the whole data ----

  function TokenLength(t: Token): nat {
    match t
    case Literal(_) => 1
    case Match(n, _) => n
  }

  /** How many bytes the tokens stand for. */
  function Covered(ts: seq<Token>): nat
    decreases |ts|
  {
    if |ts| == 0 then 0 else Covered(ts[..|ts| - 1]) + TokenLength(ts[|ts| - 1])
  }

  /** The positions at which the tokens start. */
  function Starts(ts: seq<Token>): (ps: seq<nat>)
    ensures |ps| == |ts|
    decreases |ts|
  {
    if |ts| == 0 then [] else Starts(ts[..|ts| - 1]) + [Covered(ts[..|ts| - 1])]
  }

  /** The last token is the choice at its position: only the starts so far, its own included, are in the chains. */
  ghost predicate LastChosen(ts: seq<Token>, data: seq<byte>, quality: nat)
    requires |ts| > 0 && quality > 0
  {
    var front := ts[..|ts| - 1];
    var i := Covered(front);
    && i + 3 < |data|
    && Chosen(ts[|ts| - 1], data, i, ChainOf(data, Starts(front), Hash(data, i), quality),
              ChainOf(data, Starts(front) + [i], Hash(data, i + 1), quality))
  }

  /** Every token is the choice at its position. */
  ghost predicate Lazily(ts: seq<Token>, data: seq<byte>, quality: nat)
    requires quality > 0
    decreases |ts|
  {
    |ts| > 0 ==> LastChosen(ts, data, quality) && Lazily(ts[..|ts| - 1], data, quality)
  }

  function Literals(data: seq<byte>): seq<Token> {
    seq(|data|, i requires 0 <= i < |data| => Literal(data[i]))
  }

  /** The quality is raised to 5. */
  function Effective(quality: int): nat {
    if quality < 5 then 5 else quality
  }

  /** The first `k` tokens are the choices of lazy matching; the at most 3 bytes left over are literals. */
  ghost predicate PlannedUpTo(ts: seq<Token>, k: nat, data: seq<byte>, quality: int) {
    && k <= |ts| && Lazily(ts[..k], data, Effective(quality))
    && Covered(ts[..k]) <= |data| <= Covered(ts[..k]) + 3
    && ts[k..] == Literals(data[Covered(ts[..k])..])
  }

  ghost predicate Planned(ts: seq<Token>, data: seq<byte>, quality: int) {
    exists k: nat :: PlannedUpTo(ts, k, data, quality)
  }

  lemma {:induction false} LazilyPrefix(ts: seq<Token>, k: nat, data: seq<byte>, quality: nat)
    requires quality > 0 && Lazily(ts, data, quality) && k <= |ts|
    ensures Lazily(ts[..k], data, quality)
    decreases |ts|
  {
    hide LastChosen, Hash, Covered, Chosen, ChainOf, Starts;
    if k == |ts| {
      assert ts[..k] == ts;
    } else {
      LazilyPrefix(ts[..|ts| - 1], k, data, quality);
      assert ts[..|ts| - 1][..k] == ts[..k];
    }
  }

  lemma {:induction false} LazilyIsUnique(ts: seq<Token>, us: seq<Token>, data: seq<byte>, quality: nat)
    requires quality > 0 && Lazily(ts, data, quality) && Lazily(us, data, quality) && |ts| == |us|
    ensures ts == us
    decreases |ts|
  {
    hide Chosen, ChainOf, Hash, Starts, Covered;
    if |ts| > 0 {
      var n := |ts| - 1;
      LazilyIsUnique(ts[..n], us[..n], data, quality);
      var front := ts[..n];
      var i := Covered(front);
      ChoiceIsUnique(ts[n], us[n], data, i, ChainOf(data, Starts(front), Hash(data, i), quality),
                     ChainOf(data, Starts(front) + [i], Hash(data, i + 1), quality));
      assert ts == front + [ts[n]] && us == us[..n] + [us[n]];
    }
  }

  /** Wherever another token is chosen, more than 3 bytes are left. */
  lemma GoesOn(ts: seq<Token>, k: nat, data: seq<byte>, quality: nat)
    requires quality > 0 && Lazily(ts, data, quality) && k < |ts|
    ensures Lazily(ts[..k], data, quality) && Covered(ts[..k]) + 3 < |data|
  {
    hide Chosen, ChainOf, Hash, Covered, Starts;
    LazilyPrefix(ts, k, data, quality);
    LazilyPrefix(ts, k + 1, data, quality);
    assert ts[..k + 1][..k] == ts[..k];
    assert LastChosen(ts[..k + 1], data, quality);
  }

  /** The search cannot have stopped earlier in one plan than in the other. */
  lemma NotShorter(ts: seq<Token>, k: nat, us: seq<Token>, m: nat, data: seq<byte>, quality: int)
    requires PlannedUpTo(ts, k, data, quality) && PlannedUpTo(us, m, data, quality)
    ensures k >= m
  {
    hide Chosen, ChainOf, Hash, Covered, Literals, Starts, LastChosen;
    if k < m {
      GoesOn(us[..m], k, data, Effective(quality));
      assert us[..m][..k] == us[..k];
      LazilyIsUnique(ts[..k], us[..k], data, Effective(quality));
    }
  }

  /** Data and quality determine the tokens. */
  lemma PlanIsUnique(ts: seq<Token>, us: seq<Token>, data: seq<byte>, quality: int)
    requires Planned(ts, data, quality) && Planned(us, data, quality)
    ensures ts == us
  {
    hide PlannedUpTo;
    var k: nat :| PlannedUpTo(ts, k, data, quality);
    var m: nat :| PlannedUpTo(us, m, data, quality);
    NotShorter(ts, k, us, m, data, quality);
    NotShorter(us, m, ts, k, data, quality);
    SamePlan(ts, us, k, data, quality);
  }

  lemma SamePlan(ts: seq<Token>, us: seq<Token>, k: nat, data: seq<byte>, quality: int)
    requires PlannedUpTo(ts, k, data, quality) && PlannedUpTo(us, k, data, quality)
    ensures ts == us
  {
    hide Lazily, Covered, Literals;
    LazilyIsUnique(ts[..k], us[..k], data, Effective(quality));
    assert ts == ts[..k] + ts[k..] && us == us[..k] + us[k..];
  }

  /** What one more choice adds. */
  lemma OneMoreChoice(ts: seq<Token>, t: Token, data: seq<byte>, quality: nat)
    requires quality > 0 && Lazily(ts, data, quality)
    requires Covered(ts) + 3 < |data|
    requires Chosen(t, data, Covered(ts), ChainOf(data, Starts(ts), Hash(data, Covered(ts)), quality),
                    ChainOf(data, Starts(ts) + [Covered(ts)], Hash(data, Covered(ts) + 1), quality))
    ensures Lazily(ts + [t], data, quality) && Covered(ts + [t]) == Covered(ts) + TokenLength(t)
    ensures Starts(ts + [t]) == Starts(ts) + [Covered(ts)]
  {
    hide Chosen, ChainOf, Hash;
    assert (ts + [t])[..|ts|] == ts;
  }

  lemma OneMoreInChain(data: seq<byte>, ps: seq<nat>, p: nat, h: nat, quality: nat)
    requires quality > 0
    ensures var chain := ChainOf(data, ps, h, quality);
      ChainOf(data, ps + [p], h, quality)
      == (if HasHash(data, p, h) then (if |chain| == 2 * quality then chain[quality..] else chain) + [p] else chain)
  {
    hide HasHash;
    assert (ps + [p])[..|ps|] == ps;
  }
}
