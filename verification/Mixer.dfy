/** audio_mixer.c: WAV voices, over the reals. */
module Mixer {
  import opened Prelude

  datatype Reason = Finished | Stopped | Repeated

  const MAX_VOICES: nat := 8

  // ---- What a voice contributes ----

  /** The part of a voice that decides its samples. */
  datatype State = State(active: bool, position: nat, repeat: bool, pcm: seq<real>)

  predicate Sound(s: State) {
    s.active ==> s.position <= |s.pcm| && (s.repeat ==> |s.pcm| > 0)
  }

  /** Sample `k` from now: round and round, or to the end and then silence. */
  function Sample(s: State, k: nat): real
    requires Sound(s)
  {
    if !s.active then 0.0
    else if s.repeat then s.pcm[(s.position + k) % |s.pcm|]
    else if s.position + k < |s.pcm| then s.pcm[s.position + k] else 0.0
  }

  /** The voice after `n` samples. A position at the very end stays there until more samples are asked for. */
  function Advance(s: State, n: nat): (r: State)
    requires Sound(s)
    ensures Sound(r)
  {
    if !s.active || n == 0 then s
    else if s.repeat then s.(position := (s.position + n - 1) % |s.pcm| + 1)
    else if |s.pcm| - s.position < n then s.(active := false, position := 0)
    else s.(position := s.position + n)
  }

  /** How often a repeating voice starts again. */
  function Wraps(s: State, n: nat): nat
    requires Sound(s) && s.active && s.repeat
  {
    if n == 0 then 0 else (s.position + n - 1) / |s.pcm|
  }

  function Times(n: nat, r: Reason): seq<Reason> {
    if n == 0 then [] else Times(n - 1, r) + [r]
  }

  /** The callbacks of one mix call. */
  function Calls(s: State, n: nat): seq<Reason>
    requires Sound(s)
  {
    if !s.active then [] else
    if s.repeat then Times(Wraps(s, n), Repeated) else
    if |s.pcm| - s.position < n then [Finished] else []
  }

  // ---- Remainders ----

  lemma ModIs(a: nat, m: nat, q: nat, r: nat)
    requires m > 0 && a == q * m + r && r < m
    ensures a % m == r && a / m == q
  {
    if a / m < q {
      MulStep(a / m, q, m);
    } else if a / m > q {
      MulStep(q, a / m, m);
    }
  }

  lemma MulStep(x: nat, y: nat, m: nat)
    requires x < y
    ensures x * m + m <= y * m
  {
    assert (x + 1) * m <= y * m by { Ordered(x + 1, y, m); }
  }

  lemma Ordered(x: nat, y: nat, m: nat)
    requires x <= y
    ensures x * m <= y * m
  {
  }

  lemma {:induction false} ModAdd(a: nat, b: nat, m: nat)
    requires m > 0
    ensures (a % m + b) % m == (a + b) % m
  {
    var c := a % m + b;
    var q, p := a / m, c / m;
    QuotientAnd(a, m);
    QuotientAnd(c, m);
    Distribute(q, p, m);
    ModIs(a + b, m, q + p, c % m);
  }

  lemma QuotientAnd(a: nat, m: nat)
    requires m > 0
    ensures a == a / m * m + a % m
  {
  }

  lemma Distribute(x: nat, y: nat, m: nat)
    ensures (x + y) * m == x * m + y * m
  {
  }

  // ---- However the output is split ----

  /** Mixing later is mixing from a later state. */
  lemma SampleAdvance(s: State, n: nat, k: nat)
    requires Sound(s)
    ensures Sample(Advance(s, n), k) == Sample(s, n + k)
  {
    if s.active && s.repeat && n > 0 {
      ModAdd(s.position + n - 1, k + 1, |s.pcm|);
    }
  }

  function Total(sizes: seq<nat>): nat {
    if sizes == [] then 0 else sizes[0] + Total(sizes[1..])
  }

  /** The samples of several calls in a row. */
  function Samples(s: State, n: nat): (r: seq<real>)
    requires Sound(s)
    ensures |r| == n && forall k :: 0 <= k < n ==> r[k] == Sample(s, k)
  {
    if n == 0 then [] else Samples(s, n - 1) + [Sample(s, n - 1)]
  }

  function Run(s: State, sizes: seq<nat>): seq<real>
    requires Sound(s)
    decreases |sizes|
  {
    if sizes == [] then [] else Samples(s, sizes[0]) + Run(Advance(s, sizes[0]), sizes[1..])
  }

  function RunCalls(s: State, sizes: seq<nat>): seq<Reason>
    requires Sound(s)
    decreases |sizes|
  {
    if sizes == [] then [] else Calls(s, sizes[0]) + RunCalls(Advance(s, sizes[0]), sizes[1..])
  }

  lemma SamplesSplit(s: State, n: nat, m: nat)
    requires Sound(s)
    ensures Samples(s, n) + Samples(Advance(s, n), m) == Samples(s, n + m)
  {
    var first, second, all := Samples(s, n), Samples(Advance(s, n), m), Samples(s, n + m);
    hide Sample, Advance, Samples, Sound;
    forall k | n <= k < n + m ensures all[k] == second[k - n] { SampleAdvance(s, n, k - n); }
    assert first + second == all;
  }

  /** A voice plays the same samples however its output is split into calls. */
  lemma {:induction false} RunIsSamples(s: State, sizes: seq<nat>)
    requires Sound(s)
    ensures Run(s, sizes) == Samples(s, Total(sizes))
    decreases |sizes|
  {
    if sizes != [] {
      var n, rest := sizes[0], sizes[1..];
      RunIsSamples(Advance(s, n), rest);
      SamplesSplit(s, n, Total(rest));
    }
  }

  /** A voice that does not repeat finishes once, in the first call that asks for more than it has. */
  lemma {:induction false} FinishesOnce(s: State, sizes: seq<nat>)
    requires Sound(s) && !s.repeat
    ensures RunCalls(s, sizes) == if s.active && Total(sizes) > |s.pcm| - s.position then [Finished] else []
    decreases |sizes|
  {
    if sizes != [] {
      FinishesOnce(Advance(s, sizes[0]), sizes[1..]);
      assert [Finished] + [] == [Finished];
    }
  }

  lemma {:induction false} TimesAdd(a: nat, b: nat, r: Reason)
    ensures Times(a, r) + Times(b, r) == Times(a + b, r)
  {
    if b > 0 { TimesAdd(a, b - 1, r); }
  }

  lemma WrapsAdd(s: State, n: nat, m: nat)
    requires Sound(s) && s.active && s.repeat
    ensures Wraps(s, n) + Wraps(Advance(s, n), m) == Wraps(s, n + m)
  {
    if n > 0 && m > 0 {
      var len, p := |s.pcm|, s.position + n - 1;
      var r := p % len + m;
      QuotientAnd(p, len);
      QuotientAnd(r, len);
      Distribute(p / len, r / len, len);
      ModIs(p + m, len, p / len + r / len, r % len);
    }
  }

  /** A repeating voice reports each new start, however the output is split. */
  lemma {:induction false} RepeatsReported(s: State, sizes: seq<nat>)
    requires Sound(s) && s.active && s.repeat
    ensures RunCalls(s, sizes) == Times(Wraps(s, Total(sizes)), Repeated)
    decreases |sizes|
  {
    if sizes != [] {
      var n, rest := sizes[0], sizes[1..];
      RepeatsReported(Advance(s, n), rest);
      WrapsAdd(s, n, Total(rest));
      TimesAdd(Wraps(s, n), Wraps(Advance(s, n), Total(rest)), Repeated);
    }
  }

  // ---- Stopping ----

  /** The voice after several calls. */
  function After(s: State, sizes: seq<nat>): (r: State)
    requires Sound(s)
    ensures Sound(r)
    decreases |sizes|
  {
    if sizes == [] then s else After(Advance(s, sizes[0]), sizes[1..])
  }

  /** How many of the calls say that the sound is over. */
  function Endings(calls: seq<Reason>): nat {
    if calls == [] then 0 else (if calls[0] == Repeated then 0 else 1) + Endings(calls[1..])
  }

  lemma {:induction false} EndingsAppend(a: seq<Reason>, b: seq<Reason>)
    ensures Endings(a + b) == Endings(a) + Endings(b)
  {
    if a == [] {
      assert a + b == b;
    } else {
      EndingsAppend(a[1..], b);
      assert (a + b)[1..] == a[1..] + b;
    }
  }

  lemma {:induction false} NoEndings(n: nat)
    ensures Endings(Times(n, Repeated)) == 0
  {
    if n > 0 {
      NoEndings(n - 1);
      EndingsAppend(Times(n - 1, Repeated), [Repeated]);
    }
  }

  /** A voice is over after a run exactly when its end has been reported in it. */
  lemma {:induction false} EndingsOf(s: State, sizes: seq<nat>)
    requires Sound(s)
    ensures Endings(RunCalls(s, sizes)) == if s.active && !After(s, sizes).active then 1 else 0
    ensures !s.active ==> !After(s, sizes).active
    decreases |sizes|
  {
    if sizes != [] {
      var n := sizes[0];
      EndingsOf(Advance(s, n), sizes[1..]);
      EndingsAppend(Calls(s, n), RunCalls(Advance(s, n), sizes[1..]));
      if s.active && s.repeat { NoEndings(Wraps(s, n)); }
      assert Endings([Finished]) == 1 by { assert [Finished][1..] == []; }
    }
  }

  /** A sound that is mixed and then stopped is reported to be over exactly once if it was still playing when it was
      stopped; otherwise twice. */
  lemma StopReportsOnce(s: State, sizes: seq<nat>)
    requires Sound(s) && s.active
    ensures Endings(RunCalls(s, sizes) + [Stopped]) == 1 <==> After(s, sizes).active
    ensures After(s, sizes).active <==> s.repeat || Total(sizes) <= |s.pcm| - s.position
  {
    EndingsOf(s, sizes);
    EndingsAppend(RunCalls(s, sizes), [Stopped]);
    assert Endings([Stopped]) == 1 by { assert [Stopped][1..] == []; }
    StillPlaying(s, sizes);
  }

  lemma {:induction false} StillPlaying(s: State, sizes: seq<nat>)
    requires Sound(s) && s.active
    ensures After(s, sizes).active <==> s.repeat || Total(sizes) <= |s.pcm| - s.position
    decreases |sizes|
  {
    if sizes != [] {
      var next := Advance(s, sizes[0]);
      if next.active { StillPlaying(next, sizes[1..]); } else { EndingsOf(next, sizes[1..]); }
    }
  }

  // ---- Voices ----

  class Voice {
    var active: bool
    var position: nat
    var repeat: bool
    var volume: real
    var pcm: seq<real>
    var hasCallback: bool
    /** The calls made to the stop callback, in order. */
    var calls: seq<Reason>

    function Now(): State
      reads this
    {
      State(active, position, repeat, pcm)
    }

    constructor ()
      ensures !active && calls == [] && Sound(Now())
    {
      active, position, repeat, volume, pcm, hasCallback, calls := false, 0, false, 0.0, [], false, [];
    }

    method Callback(r: Reason)
      modifies this`calls
      ensures calls == old(calls) + if hasCallback then [r] else []
    {
      if hasCallback {
        calls := calls + [r];
      }
    }

    /** audio_mixer_release. */
    method Release()
      modifies this`active, this`position
      ensures !active && position == 0
    {
      position := 0;
      active := false;
    }

    /** audio_mixer_stop: also for a voice that has finished already. */
    method Stop()
      modifies this`active, this`position, this`calls
      ensures !active && calls == old(calls) + if hasCallback then [Stopped] else []
    {
      Release();
      Callback(Stopped);
    }

    /** audio_mixer_mix_wav. */
    method MixWav(buffer: array<real>, numFrames: nat, volume: real)
      requires active && Sound(Now()) && 2 * numFrames <= buffer.Length
      modifies this`active, this`position, this`calls, buffer
      ensures Now() == Advance(old(Now()), 2 * numFrames)
      ensures calls == old(calls) + if hasCallback then Calls(old(Now()), 2 * numFrames) else []
      ensures Mixed(old(buffer[..]), buffer[..], old(Now()), 2 * numFrames, volume)
    {
      ghost var s0, before := Now(), buffer[..];
      var bufFree: nat, pcmAvailable: nat, at: nat, out: nat := 2 * numFrames, |pcm| - position, position, 0;
      ghost var wraps: nat := 0;
      assert calls + [] == calls && s0.(position := at) == s0;
      assert Reached(s0, 0, at, 0) && Mixed(before, buffer[..], s0, 0, volume);
      hide Sample, Advance, Calls, Reached, Mixed, Added;
      while pcmAvailable < bufFree
        invariant Now() == s0.(position := at) && pcmAvailable == |pcm| - at && at <= |pcm| && out + bufFree == 2 * numFrames
        invariant Reached(s0, out, at, wraps) && (wraps > 0 ==> bufFree > 0)
        invariant calls == old(calls) + if hasCallback then Times(wraps, Repeated) else []
        invariant Mixed(before, buffer[..], s0, out, volume)
        decreases bufFree, |pcm| - pcmAvailable
      {
        MixSamples(buffer, out, at, pcmAvailable, volume, before, s0, wraps);
        ghost var was := out;
        out := out + pcmAvailable;
        if repeat {
          Callback(Repeated);
          ReachedAgain(s0, was, at, wraps);
          ConcatAssociates(old(calls), Times(wraps, Repeated), [Repeated]);
          wraps := wraps + 1;
          bufFree := bufFree - pcmAvailable;
          pcmAvailable := |pcm|;
          at := 0;
          position := 0;
        } else {
          ReachedEnd(s0, was, at, wraps, 2 * numFrames);
          MixedSilence(before, buffer[..], s0, out, 2 * numFrames, volume);
          Callback(Finished);
          Release();
          return;
        }
      }
      MixSamples(buffer, out, at, bufFree, volume, before, s0, wraps);
      position := position + bufFree;
      ReachedDone(s0, out, at, wraps, bufFree);
    }

    /** The switch of audio_mixer_mix: a voice without a sound adds nothing. */
    method MixAny(buffer: array<real>, numFrames: nat, volume: real)
      requires Sound(Now()) && 2 * numFrames <= buffer.Length
      modifies this`active, this`position, this`calls, buffer
      ensures Now() == Advance(old(Now()), 2 * numFrames)
      ensures calls == old(calls) + if hasCallback then Calls(old(Now()), 2 * numFrames) else []
      ensures old(active) ==> Mixed(old(buffer[..]), buffer[..], old(Now()), 2 * numFrames, volume)
      ensures !old(active) ==> buffer[..] == old(buffer[..])
    {
      if active {
        MixWav(buffer, numFrames, volume);
      }
    }

    /** The next `n` samples of the voice, wherever it stands. */
    method MixSamples(buffer: array<real>, out: nat, at: nat, n: nat, volume: real,
                      ghost before: seq<real>, ghost s: State, ghost wraps: nat)
      requires Reached(s, out, at, wraps) && pcm == s.pcm && at + n <= |pcm| && out + n <= buffer.Length
      requires Mixed(before, buffer[..], s, out, volume)
      modifies buffer
      ensures Mixed(before, buffer[..], s, out + n, volume)
    {
      ghost var mid := buffer[..];
      AddSamples(buffer, out, pcm, at, n, volume);
      ReachedSamples(s, out, at, wraps, n);
      MixedMore(before, mid, buffer[..], s, out, at, n, volume);
    }
  }

  /** The first `n` samples of the voice are in the buffer, on top of what was there. */
  predicate Mixed(before: seq<real>, now: seq<real>, s: State, n: nat, volume: real) {
    && Sound(s) && |now| == |before| && n <= |now|
    && (forall j :: 0 <= j < n ==> now[j] == before[j] + Sample(s, j) * volume)
    && (forall j :: n <= j < |now| ==> now[j] == before[j])
  }

  /** What the inner loops do. */
  predicate Added(before: seq<real>, now: seq<real>, out: nat, pcm: seq<real>, at: nat, n: nat, volume: real) {
    && |now| == |before| && out + n <= |now| && at + n <= |pcm|
    && (forall j :: out <= j < out + n ==> now[j] == before[j] + pcm[at + (j - out)] * volume)
    && (forall j :: 0 <= j < |now| && !(out <= j < out + n) ==> now[j] == before[j])
  }

  lemma MixedMore(before: seq<real>, mid: seq<real>, now: seq<real>, s: State, out: nat, at: nat, n: nat, volume: real)
    requires Mixed(before, mid, s, out, volume) && Added(mid, now, out, s.pcm, at, n, volume)
    requires forall j :: out <= j < out + n ==> Sample(s, j) == s.pcm[at + (j - out)]
    ensures Mixed(before, now, s, out + n, volume)
  {
    hide Sample;
    forall j | out <= j < out + n ensures now[j] == before[j] + Sample(s, j) * volume {
      assert mid[j] == before[j];
    }
  }

  lemma MixedSilence(before: seq<real>, now: seq<real>, s: State, n: nat, m: nat, volume: real)
    requires Mixed(before, now, s, n, volume) && n <= m <= |now|
    requires forall j :: n <= j ==> Sample(s, j) == 0.0
    ensures Mixed(before, now, s, m, volume)
  {
    hide Sample;
    forall j | n <= j < m ensures now[j] == before[j] + Sample(s, j) * volume {
      assert Sample(s, j) == 0.0;
      assert 0.0 * volume == 0.0;
    }
  }

  /** `out` samples on, the voice stands at `at`, having started again `wraps` times. */
  predicate Reached(s: State, out: nat, at: nat, wraps: nat) {
    && Sound(s) && s.active && at <= |s.pcm|
    && (s.repeat ==> s.position + out == wraps * |s.pcm| + at)
    && (!s.repeat ==> wraps == 0 && s.position + out == at)
  }

  lemma ReachedSamples(s: State, out: nat, at: nat, wraps: nat, n: nat)
    requires Reached(s, out, at, wraps) && at + n <= |s.pcm|
    ensures forall j :: out <= j < out + n ==> Sample(s, j) == s.pcm[at + (j - out)]
  {
    forall j | out <= j < out + n ensures Sample(s, j) == s.pcm[at + (j - out)] {
      if s.repeat { ModIs(s.position + j, |s.pcm|, wraps, at + (j - out)); }
    }
  }

  lemma ReachedAgain(s: State, out: nat, at: nat, wraps: nat)
    requires Reached(s, out, at, wraps) && s.repeat
    ensures Reached(s, out + |s.pcm| - at, 0, wraps + 1)
  {
  }

  /** A voice that does not repeat runs out: silence from there on. */
  lemma ReachedEnd(s: State, out: nat, at: nat, wraps: nat, n: nat)
    requires Reached(s, out, at, wraps) && !s.repeat && |s.pcm| - at < n - out
    ensures Advance(s, n) == s.(active := false, position := 0) && Calls(s, n) == [Finished] && wraps == 0
    ensures forall j :: out + |s.pcm| - at <= j ==> Sample(s, j) == 0.0
  {
  }

  /** The samples that were left are enough. */
  lemma ReachedDone(s: State, out: nat, at: nat, wraps: nat, bufFree: nat)
    requires Reached(s, out, at, wraps) && at + bufFree <= |s.pcm| && (wraps > 0 ==> bufFree > 0)
    ensures Advance(s, out + bufFree) == s.(position := at + bufFree)
    ensures Calls(s, out + bufFree) == Times(wraps, Repeated)
  {
    var n := out + bufFree;
    if s.repeat && n > 0 {
      if at + bufFree > 0 {
        ModIs(s.position + n - 1, |s.pcm|, wraps, at + bufFree - 1);
      }
    }
  }

  /** The pcm pointer and the buffer pointer move together. */
  method AddSamples(buffer: array<real>, out: nat, pcm: seq<real>, at: nat, n: nat, volume: real)
    requires out + n <= buffer.Length && at + n <= |pcm|
    modifies buffer
    ensures Added(old(buffer[..]), buffer[..], out, pcm, at, n, volume)
  {
    var i := n;
    while i != 0
      invariant 0 <= i <= n
      invariant forall j :: out <= j < out + n - i ==> buffer[j] == old(buffer[j]) + pcm[at + (j - out)] * volume
      invariant forall j :: 0 <= j < buffer.Length && !(out <= j < out + n - i) ==> buffer[j] == old(buffer[j])
    {
      buffer[out + n - i] := buffer[out + n - i] + pcm[at + n - i] * volume;
      i := i - 1;
    }
  }

  // ---- The mixer ----

  function Clip(x: real): (r: real)
    ensures -1.0 <= r <= 1.0
  {
    if x < -1.0 then -1.0 else if x > 1.0 then 1.0 else x
  }

  /** No sample that can be played is nearer. */
  lemma ClipIsNearest(x: real, y: real)
    requires -1.0 <= y <= 1.0
    ensures Gap(x, Clip(x)) <= Gap(x, y) && (Gap(x, Clip(x)) == Gap(x, y) ==> y == Clip(x))
  {
  }

  function Gap(x: real, y: real): real {
    if x < y then y - x else x - y
  }

  /** All voices at sample `j`, each at its own volume. */
  function Sum(states: seq<State>, volumes: seq<real>, j: nat): real
    requires |states| == |volumes| && forall i :: 0 <= i < |states| ==> Sound(states[i])
  {
    if states == [] then 0.0 else
    Sum(states[..|states| - 1], volumes[..|volumes| - 1], j)
      + Sample(states[|states| - 1], j) * volumes[|volumes| - 1]
  }

  /** The first free voice takes a new state, and no other changes. */
  predicate Claims(before: seq<State>, after: seq<State>, i: int, s: State) {
    0 <= i < |before| && !before[i].active && (forall k :: 0 <= k < i ==> before[k].active) && after == before[i := s]
  }

  /** Every sample is what was there and the first `n` voices on top, not clipped yet. */
  ghost predicate Summed(before: seq<real>, now: seq<real>, states: seq<State>, volumes: seq<real>, samples: nat) {
    && |states| == |volumes| && (forall i :: 0 <= i < |states| ==> Sound(states[i]))
    && |now| == |before| && samples <= |now|
    && (forall j :: 0 <= j < samples ==> now[j] == before[j] + Sum(states, volumes, j))
    && (forall j :: samples <= j < |now| ==> now[j] == before[j])
  }

  /** Every sample is what was there and all voices on top, cut to between -1 and 1. */
  ghost predicate Clipped(before: seq<real>, now: seq<real>, states: seq<State>, volumes: seq<real>, samples: nat) {
    && |states| == |volumes| && (forall i :: 0 <= i < |states| ==> Sound(states[i]))
    && |now| == |before| && samples <= |now|
    && (forall j :: 0 <= j < samples ==> now[j] == Clip(before[j] + Sum(states, volumes, j)))
    && (forall j :: samples <= j < |now| ==> now[j] == before[j])
  }

  lemma SummedMore(before: seq<real>, mid: seq<real>, now: seq<real>, states: seq<State>, volumes: seq<real>,
                   s: State, volume: real, samples: nat)
    requires Summed(before, mid, states, volumes, samples) && Sound(s)
    requires s.active ==> Mixed(mid, now, s, samples, volume)
    requires !s.active ==> now == mid
    ensures Summed(before, now, states + [s], volumes + [volume], samples)
  {
    var all, vols := states + [s], volumes + [volume];
    assert all[..|all| - 1] == states && vols[..|vols| - 1] == volumes;
    forall j | 0 <= j < samples ensures now[j] == before[j] + Sum(all, vols, j) {
      assert Sum(all, vols, j) == Sum(states, volumes, j) + Sample(s, j) * volume;
      if !s.active { assert 0.0 * volume == 0.0; }
    }
  }

  class AudioMixer {
    const voices: seq<Voice>

    ghost predicate Valid()
      reads this, voices
    {
      && |voices| == MAX_VOICES
      && (forall i, j :: 0 <= i < j < |voices| ==> voices[i] != voices[j])
      && forall i :: 0 <= i < |voices| ==> Sound(voices[i].Now())
    }

    function States(): (r: seq<State>)
      reads this, voices
      ensures |r| == |voices| && forall i :: 0 <= i < |voices| ==> r[i] == voices[i].Now()
    {
      seq(|voices|, i requires 0 <= i < |voices| reads voices => voices[i].Now())
    }

    /** audio_mixer_play for a WAV sound: the first free voice, from its start. */
    method Play(pcm: seq<real>, repeat: bool, volume: real, hasCallback: bool) returns (voice: Voice?)
      requires Valid() && (repeat ==> |pcm| > 0)
      modifies voices
      ensures Valid()
      ensures |voices| == 8 && (voice == null <==> forall i :: 0 <= i < 8 ==> old(voices[i].active))
      ensures voice == null ==> States() == old(States())
      ensures voice != null ==> exists i :: Claims(old(States()), States(), i, State(true, 0, repeat, pcm)) && voice == voices[i]
      ensures voice != null ==> voice.volume == volume && voice.hasCallback == hasCallback && voice.calls == old(voice.calls)
    {
      for i := 0 to |voices|
        invariant States() == old(States()) && Valid()
        invariant forall k :: 0 <= k < i ==> old(voices[k].active)
        invariant forall k :: 0 <= k < |voices| ==> voices[k].calls == old(voices[k].calls)
      {
        var v := voices[i];
        if !v.active {
          v.active, v.position := true, 0;
          v.repeat, v.volume, v.pcm, v.hasCallback := repeat, volume, pcm, hasCallback;
          assert Claims(old(States()), States(), i, State(true, 0, repeat, pcm));
          return v;
        }
      }
      return null;
    }

    /** audio_mixer_mix: every voice in turn, then clipping. */
    method Mix(buffer: array<real>, numFrames: nat, override: Option<real>)
      requires Valid() && 2 * numFrames <= buffer.Length
      modifies voices, buffer
      ensures Valid()
      ensures forall i :: 0 <= i < |voices| ==> voices[i].Now() == Advance(old(voices[i].Now()), 2 * numFrames)
      ensures Clipped(old(buffer[..]), buffer[..], old(States()), old(Volumes(override)), 2 * numFrames)
      ensures forall j :: 0 <= j < 2 * numFrames ==> -1.0 <= buffer[j] <= 1.0
    {
      ghost var states, volumes, before := States(), Volumes(override), buffer[..];
      MixVoices(buffer, numFrames, override, states, volumes);
      hide Sample, Advance, Clipped, Summed;
      ClipAll(buffer, 2 * numFrames, before, states, volumes);
    }

    /** The loop over the voices. */
    method MixVoices(buffer: array<real>, numFrames: nat, override: Option<real>, ghost states: seq<State>,
                     ghost volumes: seq<real>)
      requires Valid() && 2 * numFrames <= buffer.Length && |states| == |voices| == |volumes|
      requires forall k :: 0 <= k < |voices| ==> voices[k].Now() == states[k] && Sound(states[k])
      requires forall k :: 0 <= k < |voices| ==> volumes[k] == if override.Some? then override.value else voices[k].volume
      modifies voices, buffer
      ensures forall k :: 0 <= k < |voices| ==> voices[k].Now() == Advance(states[k], 2 * numFrames)
      ensures Summed(old(buffer[..]), buffer[..], states, volumes, 2 * numFrames)
    {
      ghost var before, samples := buffer[..], 2 * numFrames;
      assert states[..0] == [] && volumes[..0] == [];
      assert Summed(before, buffer[..], [], [], samples);
      hide Sample, Advance, Mixed, Summed, Sum, Calls;
      for i := 0 to |voices|
        invariant forall k :: 0 <= k < |voices| ==> voices[k].volume == old(voices[k].volume)
        invariant forall k :: 0 <= k < i ==> voices[k].Now() == Advance(states[k], samples)
        invariant forall k :: i <= k < |voices| ==> voices[k].Now() == states[k]
        invariant Summed(before, buffer[..], states[..i], volumes[..i], samples)
      {
        var v := voices[i];
        var volume := if override.Some? then override.value else v.volume;
        MixTurn(v, buffer, numFrames, volume, before, states[..i], volumes[..i]);
        assert forall k :: 0 <= k < |voices| && k != i ==> voices[k] != v;
        assert states[..i + 1] == states[..i] + [states[i]] && volumes[..i + 1] == volumes[..i] + [volume];
      }
      assert states[..|voices|] == states && volumes[..|voices|] == volumes;
    }

    /** One voice joins the sum. */
    static method MixTurn(v: Voice, buffer: array<real>, numFrames: nat, volume: real, ghost before: seq<real>,
                          ghost states: seq<State>, ghost volumes: seq<real>)
      requires Sound(v.Now()) && 2 * numFrames <= buffer.Length
      requires Summed(before, buffer[..], states, volumes, 2 * numFrames)
      modifies v`active, v`position, v`calls, buffer
      ensures v.Now() == Advance(old(v.Now()), 2 * numFrames)
      ensures Summed(before, buffer[..], states + [old(v.Now())], volumes + [volume], 2 * numFrames)
    {
      hide Sample, Advance, Mixed, Summed, Sum, Calls;
      ghost var mid, s := buffer[..], v.Now();
      v.MixAny(buffer, numFrames, volume);
      SummedMore(before, mid, buffer[..], states, volumes, s, volume, 2 * numFrames);
    }

    function Volumes(override: Option<real>): (r: seq<real>)
      reads this, voices
      ensures |r| == |voices|
    {
      seq(|voices|, i requires 0 <= i < |voices| reads voices =>
        if override.Some? then override.value else voices[i].volume)
    }
  }

  method ClipAll(buffer: array<real>, samples: nat, ghost before: seq<real>, ghost states: seq<State>,
                 ghost volumes: seq<real>)
    requires Summed(before, buffer[..], states, volumes, samples)
    modifies buffer
    ensures Clipped(before, buffer[..], states, volumes, samples)
    ensures forall j :: 0 <= j < samples ==> -1.0 <= buffer[j] <= 1.0
  {
    hide Sum;
    for j := 0 to samples
      invariant forall k :: 0 <= k < j ==> buffer[k] == Clip(old(buffer[k]))
      invariant forall k :: j <= k < buffer.Length ==> buffer[k] == old(buffer[k])
    {
      if buffer[j] < -1.0 {
        buffer[j] := -1.0;
      } else if buffer[j] > 1.0 {
        buffer[j] := 1.0;
      }
    }
  }
}
