/** cdrom.c: minute-second-frame addresses, the multi-frame read and its one-frame cache. */
module Cdrom {
  import opened Prelude
  import opened Bytes

  const FRAME: nat := 2352
  const MAX_RETRIES: nat := 10
  /** One more than the last block that a minute byte can address. */
  const MSF_LIMIT: nat := 256 * 60 * 75

  // ---- Addresses ----

  datatype Msf = Msf(min: byte, sec: byte, frame: byte)

  function MsfToLba(t: Msf): nat {
    (t.min * 60 + t.sec) * 75 + t.frame
  }

  /** The minute is cut to a byte. */
  function LbaToMsf(lba: nat): Msf {
    Msf(lba / 75 / 60 % 256, lba / 75 % 60, lba % 75)
  }

  /** increment_msf, with its wrap-around of the minute byte. */
  function Next(t: Msf): Msf {
    Msf(if t.frame == 74 then (if t.sec < 59 then t.min else (t.min + 1) % 256) else t.min,
        if t.frame == 74 then (if t.sec < 59 then t.sec + 1 else 0) else t.sec,
        if t.frame < 74 then t.frame + 1 else 0)
  }

  predicate ValidTime(t: Msf) {
    t.sec < 60 && t.frame < 75
  }

  /** An address survives the round trip exactly when its minute fits a byte. */
  lemma LbaRoundTrip(lba: nat)
    ensures MsfToLba(LbaToMsf(lba)) == lba <==> lba < MSF_LIMIT
    ensures ValidTime(LbaToMsf(lba))
  {
  }

  /** And so does a time, exactly when it is valid. */
  lemma MsfRoundTrip(t: Msf)
    ensures LbaToMsf(MsfToLba(t)) == t <==> ValidTime(t)
  {
    if ValidTime(t) {
      assert MsfToLba(t) / 75 == t.min * 60 + t.sec;
    }
  }

  /** The increment is the next block exactly when the frame is no more than 74, no second past 59 has to carry,
      and the minute does not wrap. */
  lemma NextIsNextBlock(t: Msf)
    ensures MsfToLba(Next(t)) == MsfToLba(t) + 1 <==>
      t.frame < 74 || (t.frame == 74 && (t.sec < 59 || (t.sec == 59 && t.min < 255)))
    ensures ValidTime(t) ==> ValidTime(Next(t))
    ensures ValidTime(t) && MsfToLba(t) + 1 < MSF_LIMIT ==> MsfToLba(Next(t)) == MsfToLba(t) + 1
  {
  }

  // ---- The drive ----

  type Frame = f: seq<byte> | |f| == FRAME witness seq(FRAME, _ => 0)

  /** What the drive answers to one command: a transfer, or a refusal with a sense key. */
  datatype Answer = Done | Refused(key: nat)

  /** A fixed disc, and the answers to the commands in the order in which they are sent. */
  datatype Drive = Drive(disc: nat -> Frame, answer: nat -> Answer)

  /** The bytes of the disc from an address on. */
  function DiscBytes(disc: nat -> Frame, from: nat, n: nat): (r: seq<byte>)
    ensures |r| == n
  {
    seq(n, i requires 0 <= i < n => disc((from + i) / FRAME)[(from + i) % FRAME])
  }

  /** The sense keys for which a command is sent again. */
  predicate Retried(key: nat) {
    key == 0 || key == 2 || key == 3 || key == 4 || key == 6
  }

  /** One command with its retries: whether it is carried out, how many commands were sent, how many retries remain. */
  function Attempt(answer: nat -> Answer, sent: nat, retries: nat): (bool, nat, nat)
    decreases retries
  {
    match answer(sent)
    case Done => (true, sent + 1, retries)
    case Refused(key) =>
      if Retried(key) && retries > 0 then Attempt(answer, sent + 1, retries - 1) else (false, sent + 1, retries)
  }

  /** Which of the next `n` frames arrive. A cached frame sends nothing and empties the cache; the retries are shared. */
  function Outcomes(answer: nat -> Answer, sent: nat, retries: nat, cache: Option<nat>, lba: nat, n: nat): (r: seq<bool>)
    ensures |r| == n
    decreases n
  {
    if n == 0 then [] else
    if cache == Some(lba) then [true] + Outcomes(answer, sent, retries, None, lba + 1, n - 1) else
    var (ok, sent', left) := Attempt(answer, sent, retries);
    [ok] + Outcomes(answer, sent', left, if ok then Some(lba) else cache, lba + 1, n - 1)
  }

  /** Number of frames that hold `n` bytes. */
  function Frames(n: nat): nat {
    (n + FRAME - 1) / FRAME
  }

  /** Frames of 2352 bytes hold the bytes, and one frame less does not. */
  lemma FramesHold(n: nat)
    ensures n <= Frames(n) * 2352 && (n > 0 ==> (Frames(n) - 1) * 2352 < n)
  {
  }

  predicate AllTrue(got: seq<bool>) {
    forall i :: 0 <= i < |got| ==> got[i]
  }

  // ---- What a read puts into the caller's buffer ----

  /** Only the first frame is cut at its start. */
  function SkipOf(i: nat, skip: nat): nat {
    if i == 0 then skip else 0
  }

  /** The last frame is asked for everything that is still missing. */
  function WantedOf(i: nat, frames: nat, copied: nat, len: nat, skip: nat): nat {
    if i + 1 == frames then (if copied <= len then len - copied else 0)
    else if SkipOf(i, skip) <= FRAME then FRAME - SkipOf(i, skip) else 0
  }

  /** `m` bytes of a frame from `from` on; past its end lie the zeros of the transfer buffer. */
  function Piece(f: Frame, from: nat, m: nat): (r: seq<byte>)
    ensures |r| == m
  {
    seq(m, k requires 0 <= k < m => if from + k < FRAME then f[from + k] else 0)
  }

  /** The bytes delivered from frame `i` on: frames that do not arrive leave no gap. */
  function Delivered(disc: nat -> Frame, got: seq<bool>, lba: nat, i: nat, copied: nat, len: nat, skip: nat): seq<byte>
    requires i <= |got|
    decreases |got| - i
  {
    if i == |got| then [] else
    if !got[i] then Delivered(disc, got, lba, i + 1, copied, len, skip) else
    var m := WantedOf(i, |got|, copied, len, skip);
    Piece(disc(lba + i), SkipOf(i, skip), m) + Delivered(disc, got, lba, i + 1, copied + m, len, skip)
  }

  /** The bytes of a read command that say which blocks: from one time up to, not including, another. */
  datatype Command = Command(from: Msf, to: Msf)

  /** The command before frame `i`: the end is `i` blocks on, the start one less. */
  predicate Stands(cmd: Command, i: nat, start: nat) {
    && ValidTime(cmd.from) && MsfToLba(cmd.from) == start + (if i == 0 then 0 else i - 1)
    && ValidTime(cmd.to) && MsfToLba(cmd.to) == start + i
  }

  class Stream {
    var lastFrameValid: bool
    var lastFrameLba: nat
    var lastFrame: Frame
    /** Commands sent to the drive so far. */
    var sent: nat

    /** The cached frame, when valid, is the frame of the disc at its recorded address. */
    ghost predicate CacheOk(disc: nat -> Frame)
      reads this
    {
      lastFrameValid ==> lastFrame == disc(lastFrameLba)
    }

    constructor ()
      ensures !lastFrameValid && sent == 0
    {
      lastFrame := seq(FRAME, _ => 0);
      lastFrameValid, lastFrameLba, sent := false, 0, 0;
    }

    function Cache(): Option<nat>
      reads this
    {
      if lastFrameValid then Some(lastFrameLba) else None
    }

    /** One command with its retries. */
    method Send(answer: nat -> Answer, retries: nat) returns (ok: bool, left: nat)
      modifies this`sent
      ensures (ok, sent, left) == Attempt(answer, old(sent), retries)
    {
      left := retries;
      while true
        invariant Attempt(answer, sent, left) == Attempt(answer, old(sent), retries)
        decreases left
      {
        var a := answer(sent);
        sent := sent + 1;
        match a {
          case Done =>
            return true, left;
          case Refused(key) =>
            if !Retried(key) || left == 0 {
              return false, left;
            }
            left := left - 1;
        }
      }
    }

    /** cdrom_send_command for anything but a read: data that arrives empties the cache. */
    method SendOther(answer: nat -> Answer, retry: bool, reply: seq<byte>, s: array?<byte>, len: nat)
      returns (failed: bool)
      requires s != null ==> len <= s.Length && |reply| == len
      modifies this`sent, this`lastFrameValid, s
      ensures failed == !Attempt(answer, old(sent), if retry then MAX_RETRIES else 0).0
      ensures !retry ==> sent == old(sent) + 1 && failed == answer(old(sent)).Refused?
      ensures lastFrameValid ==> old(lastFrameValid)
      ensures s != null && !failed ==> !lastFrameValid && s[..len] == reply
      ensures forall disc: nat -> Frame :: old(CacheOk(disc)) ==> CacheOk(disc)
    {
      var ok, _ := Send(answer, if retry then MAX_RETRIES else 0);
      if ok && s != null {
        CopyTo(s, 0, reply);
        lastFrameValid := false;
      }
      failed := !ok;
    }

    /** One frame of a read: from the cache or the drive into the transfer buffer. */
    method OneFrame(drive: Drive, xfer: seq<byte>, cmd: Command, pos: nat, retries: nat, ghost n: nat)
      returns (ok: bool, left: nat, xfer': seq<byte>)
      requires CacheOk(drive.disc) && n > 0 && pos + FRAME <= |xfer| && ZeroFrom(xfer, pos)
      requires MsfToLba(cmd.to) == MsfToLba(cmd.from) + 1
      modifies this
      ensures CacheOk(drive.disc) && |xfer'| == |xfer|
      ensures Outcomes(drive.answer, old(sent), retries, old(Cache()), MsfToLba(cmd.from), n)
           == [ok] + Outcomes(drive.answer, sent, left, Cache(), MsfToLba(cmd.from) + 1, n - 1)
      ensures ok ==> xfer'[pos..pos + FRAME] == drive.disc(MsfToLba(cmd.from)) && ZeroFrom(xfer', pos + FRAME)
      ensures !ok ==> xfer' == xfer
    {
      var lba := MsfToLba(cmd.from);
      ghost var a, cache' := OutcomesStep(drive.answer, sent, retries, Cache(), lba, n);
      FrameThenZeros(xfer, pos, drive.disc(lba));
      hide Outcomes, MsfToLba, ZeroFrom;
      var cached := lastFrameValid && lba == lastFrameLba;
      ok, left, xfer' := true, retries, xfer;
      if cached {
        xfer' := xfer[..pos] + lastFrame + xfer[pos + FRAME..];
        lastFrameValid := false;
      } else {
        ok, left := Send(drive.answer, retries);
        if ok {
          xfer' := xfer[..pos] + drive.disc(lba) + xfer[pos + FRAME..];
          lastFrame := xfer'[pos..pos + FRAME];
          lastFrameValid, lastFrameLba := true, MsfToLba(cmd.to) - 1;
        }
      }
    }

    /** One turn of the frame loop: the command moves one block on, a frame is fetched and its bytes copied out. */
    method ReadNext(drive: Drive, s: array<byte>, len: nat, xfer: seq<byte>, cmd: Command, skip: nat,
                    i: nat, frames: nat, pos: nat, copied: nat, retries: nat, ghost lba: nat)
      returns (ok: bool, left: nat, xfer': seq<byte>, cmd': Command, pos': nat, copied': nat)
      requires CacheOk(drive.disc) && i < frames && lba + frames < MSF_LIMIT && Stands(cmd, i, lba)
      requires Progress(i, frames, pos, copied, len, skip) && len <= s.Length && |xfer| == FRAME * frames
      requires ZeroFrom(xfer, pos)
      modifies this, s
      ensures CacheOk(drive.disc) && Stands(cmd', i + 1, lba) && |xfer'| == |xfer| && ZeroFrom(xfer', pos')
      ensures Outcomes(drive.answer, old(sent), retries, old(Cache()), lba + i, frames - i)
           == [ok] + Outcomes(drive.answer, sent, left, Cache(), lba + i + 1, frames - i - 1)
      ensures Progress(i + 1, frames, pos', copied', len, skip)
      ensures copied' == copied + if ok then WantedOf(i, frames, copied, len, skip) else 0
      ensures copied' <= len && forall k :: copied' <= k < s.Length ==> s[k] == old(s[k])
      ensures s[..copied'] == old(s[..copied])
        + if ok then Piece(drive.disc(lba + i), SkipOf(i, skip), WantedOf(i, frames, copied, len, skip)) else []
    {
      hide *;
      cmd' := Advance(cmd, i, lba);
      var skipNow, copyLen := Amounts(i, frames, pos, copied, len, skip);
      ok, left, xfer' := OneFrame(drive, xfer, cmd', pos, retries, frames - i);
      pos', copied' := pos, copied;
      if ok {
        FromTransfer(xfer', pos, drive.disc(lba + i), skipNow, copyLen);
        CopyPiece(s, copied, xfer'[pos + skipNow..pos + skipNow + copyLen]);
        pos', copied' := pos + FRAME, copied + copyLen;
      } else {
        assert old(s[..copied]) + [] == old(s[..copied]);
      }
    }

    /** cdrom_send_command for a read by time: the result tells of the last frame only. Whatever arrives, the buffer
        begins with the delivered bytes and is otherwise as it was. */
    method SendRead(drive: Drive, s: array<byte>, len: nat, from: Msf, skip: nat) returns (failed: bool)
      requires CacheOk(drive.disc) && ValidTime(from)
      requires len <= s.Length && skip < FRAME && MsfToLba(from) + Frames(len + skip) < MSF_LIMIT
      modifies this, s
      ensures CacheOk(drive.disc)
      ensures failed <==> !Succeeds(old(Arrivals(drive, from, len + skip)))
      ensures Holds(s, old(s[..]), drive.disc, old(Arrivals(drive, from, len + skip)), MsfToLba(from), len, skip)
    {
      var cmd := Command(from, from);
      var frames := Frames(len + skip);
      ghost var got := Arrivals(drive, from, len + skip);
      assert got == Outcomes(drive.answer, sent, MAX_RETRIES, Cache(), MsfToLba(from), frames);
      assert Stands(cmd, 0, MsfToLba(from)) && Progress(0, frames, 0, 0, len, skip);
      assert Succeeds(got) <==> got == [] || got[|got| - 1];
      hide *;
      failed := ReadFrames(drive, s, len, cmd, skip, frames, MAX_RETRIES, MsfToLba(from), got);
    }

    /** Which frames of a read of `n` bytes arrive, some of them after retries, one perhaps from the cache. */
    ghost function Arrivals(drive: Drive, t: Msf, n: nat): seq<bool>
      reads this
    {
      Outcomes(drive.answer, sent, MAX_RETRIES, Cache(), MsfToLba(t), Frames(n))
    }

    /** cdrom_read. The status says whether the last frame arrived; a success means the wanted bytes if all frames
        arrived, and so always when there is at most one. */
    method CdromRead(drive: Drive, t: Msf, s: array<byte>, len: nat, skip: nat) returns (failed: bool)
      requires CacheOk(drive.disc) && ValidTime(t)
      requires len <= s.Length && skip < FRAME && MsfToLba(t) + Frames(len + skip) < MSF_LIMIT
      modifies this, s
      ensures CacheOk(drive.disc) && (failed ==> !lastFrameValid)
      ensures failed <==> !Succeeds(old(Arrivals(drive, t, len + skip)))
      ensures Holds(s, old(s[..]), drive.disc, old(Arrivals(drive, t, len + skip)), MsfToLba(t), len, skip)
      ensures AllTrue(old(Arrivals(drive, t, len + skip))) ==>
        !failed && s[..len] == DiscBytes(drive.disc, MsfToLba(t) * FRAME + skip, len)
      ensures NeverRefuses(drive.answer, old(sent)) ==> AllTrue(old(Arrivals(drive, t, len + skip)))
      ensures Forgiving(drive.answer, old(sent), Frames(len + skip)) ==>
        !failed && s[..len] == DiscBytes(drive.disc, MsfToLba(t) * 2352 + skip, len)
      ensures !failed && Frames(len + skip) <= 1 ==>
        s[..len] == DiscBytes(drive.disc, MsfToLba(t) * FRAME + skip, len)
    {
      ghost var got, before, cache, start := Arrivals(drive, t, len + skip), sent, Cache(), s[..];
      assert |got| == Frames(len + skip);
      assert AllTrue(got) ==> Succeeds(got);
      assert |got| <= 1 && Succeeds(got) ==> AllTrue(got);
      if NeverRefuses(drive.answer, before) {
        AllArrive(drive.answer, before, MAX_RETRIES, cache, MsfToLba(t), Frames(len + skip));
      }
      if Forgiving(drive.answer, before, Frames(len + skip)) {
        var m: nat :| Obliging(drive.answer, before, m, Frames(len + skip), 10);
        AllRescued(drive.answer, before, MAX_RETRIES, cache, MsfToLba(t), Frames(len + skip), m);
      }
      hide Succeeds, AllTrue, Frames, Outcomes, Holds, Delivered, DiscBytes, NeverRefuses, MsfToLba, Forgiving;
      failed := SendRead(drive, s, len, t, skip);
      if AllTrue(got) {
        AllDelivered(drive.disc, got, MsfToLba(t), len, skip);
        HeldBytes(s, start, drive.disc, got, MsfToLba(t), len, skip);
      }
      if failed {
        lastFrameValid := false;
      }
    }

    /** The frame loop, and what the buffer then holds. */
    method ReadFrames(drive: Drive, s: array<byte>, len: nat, start: Command, skip: nat, frames: nat, allowed: nat,
                      ghost lba: nat, ghost got: seq<bool>)
      returns (failed: bool)
      requires CacheOk(drive.disc) && Stands(start, 0, lba) && lba + frames < MSF_LIMIT && len <= s.Length
      requires Progress(0, frames, 0, 0, len, skip)
      requires got == Outcomes(drive.answer, sent, allowed, Cache(), lba, frames)
      modifies this, s
      ensures CacheOk(drive.disc)
      ensures failed <==> got != [] && !got[|got| - 1]
      ensures Holds(s, old(s[..]), drive.disc, got, lba, len, skip)
    {
      hide *;
      var copied;
      failed, copied := FrameLoop(drive, s, len, start, skip, frames, allowed, lba, got);
      TailOf(s, old(s[..]), copied);
      HoldsAtEnd(s, old(s[..]), drive.disc, got, lba, len, skip, copied);
    }

    method FrameLoop(drive: Drive, s: array<byte>, len: nat, start: Command, skip: nat, frames: nat, allowed: nat,
                     ghost lba: nat, ghost got: seq<bool>)
      returns (failed: bool, copied: nat)
      requires CacheOk(drive.disc) && Stands(start, 0, lba) && lba + frames < MSF_LIMIT && len <= s.Length
      requires Progress(0, frames, 0, 0, len, skip)
      requires got == Outcomes(drive.answer, sent, allowed, Cache(), lba, frames)
      modifies this, s
      ensures CacheOk(drive.disc) && copied <= len
      ensures failed <==> got != [] && !got[|got| - 1]
      ensures s[..copied] == Delivered(drive.disc, got, lba, 0, 0, len, skip)
      ensures forall k :: copied <= k < s.Length ==> s[k] == old(s[k])
    {
      hide *;
      var xfer, cmd := Zeros(FRAME * frames), start;
      var i, pos: nat, retries := 0, 0, allowed;
      failed, copied := false, 0;
      ghost var all := Delivered(drive.disc, got, lba, 0, 0, len, skip);
      AllZero(FRAME * frames);
      assert got[0..] == got && s[..0] + all == all;
      while i < frames
        invariant i <= frames && CacheOk(drive.disc) && Stands(cmd, i, lba) && |xfer| == FRAME * frames
        invariant Progress(i, frames, pos, copied, len, skip) && copied <= len && ZeroFrom(xfer, pos)
        invariant got[i..] == Outcomes(drive.answer, sent, retries, Cache(), lba + i, frames - i)
        invariant failed <==> i > 0 && !got[i - 1]
        invariant s[..copied] + Delivered(drive.disc, got, lba, i, copied, len, skip) == all
        invariant forall k :: copied <= k < s.Length ==> s[k] == old(s[k])
      {
        var ok;
        ghost var done, c := s[..copied], copied;
        ok, retries, xfer, cmd, pos, copied :=
          ReadNext(drive, s, len, xfer, cmd, skip, i, frames, pos, copied, retries, lba);
        NextTurn(drive.disc, got, lba, i, ok, Outcomes(drive.answer, sent, retries, Cache(), lba + i + 1, frames - i - 1),
                 c, len, skip, done, s[..copied], all);
        failed := !ok;
        i := i + 1;
      }
      NoneLeft(drive.disc, got, lba, i, copied, len, skip, s[..copied]);
    }
  }

  function Zeros(n: nat): (r: seq<byte>)
    ensures |r| == n
  {
    seq(n, _ => 0)
  }

  /** Nothing has been transferred from `pos` on. */
  predicate ZeroFrom(xfer: seq<byte>, pos: nat) {
    forall k :: pos <= k < |xfer| ==> xfer[k] == 0
  }

  lemma AllZero(n: nat)
    ensures ZeroFrom(Zeros(n), 0)
  {
  }

  lemma FrameThenZeros(xfer: seq<byte>, pos: nat, f: Frame)
    requires pos + FRAME <= |xfer| && ZeroFrom(xfer, pos)
    ensures ZeroFrom(xfer[..pos] + f + xfer[pos + FRAME..], pos + FRAME)
  {
  }

  lemma FromTransfer(xfer: seq<byte>, pos: nat, f: Frame, from: nat, m: nat)
    requires pos + FRAME <= |xfer| && xfer[pos..pos + FRAME] == f && ZeroFrom(xfer, pos + FRAME)
    requires pos + from + m <= |xfer|
    ensures xfer[pos + from..pos + from + m] == Piece(f, from, m)
  {
    forall k | 0 <= k < m ensures xfer[pos + from + k] == Piece(f, from, m)[k] {
      if from + k < FRAME { assert xfer[pos..pos + FRAME][from + k] == xfer[pos + (from + k)]; }
    }
  }

  /** The buffer holds the delivered bytes, and after them what it held before; after a success they are all there. */
  ghost predicate Holds(s: array<byte>, before: seq<byte>, disc: nat -> Frame, got: seq<bool>, lba: nat, len: nat,
                        skip: nat)
    reads s
  {
    var d := Delivered(disc, got, lba, 0, 0, len, skip);
    |d| <= len <= |before| && s[..] == d + before[|d|..] && (got != [] && got[|got| - 1] ==> |d| == len)
  }

  lemma HoldsAtEnd(s: array<byte>, before: seq<byte>, disc: nat -> Frame, got: seq<bool>, lba: nat, len: nat, skip: nat,
                   copied: nat)
    requires copied <= len <= s.Length == |before| && s[..copied] == Delivered(disc, got, lba, 0, 0, len, skip)
    requires s[copied..] == before[copied..]
    ensures Holds(s, before, disc, got, lba, len, skip)
  {
    assert s[..] == s[..copied] + s[copied..];
    if got != [] && got[|got| - 1] { LastFills(disc, got, lba, 0, 0, len, skip); }
  }

  lemma HeldBytes(s: array<byte>, before: seq<byte>, disc: nat -> Frame, got: seq<bool>, lba: nat, len: nat, skip: nat)
    requires Holds(s, before, disc, got, lba, len, skip)
    requires Delivered(disc, got, lba, 0, 0, len, skip) == DiscBytes(disc, lba * FRAME + skip, len)
    ensures len <= s.Length && s[..len] == DiscBytes(disc, lba * FRAME + skip, len)
  {
  }

  /** The last frame, when it arrives, brings the total to `len`, unless there is already more. */
  lemma {:induction false} LastFills(disc: nat -> Frame, got: seq<bool>, lba: nat, i: nat, copied: nat, len: nat,
                                     skip: nat)
    requires i < |got| && got[|got| - 1]
    ensures copied + |Delivered(disc, got, lba, i, copied, len, skip)| >= len
    decreases |got| - i
  {
    var m := WantedOf(i, |got|, copied, len, skip);
    if i + 1 < |got| {
      if got[i] {
        LastFills(disc, got, lba, i + 1, copied + m, len, skip);
      } else {
        LastFills(disc, got, lba, i + 1, copied, len, skip);
      }
    }
  }

  /** One more frame is accounted for. */
  lemma NextTurn(disc: nat -> Frame, got: seq<bool>, lba: nat, i: nat, ok: bool, rest: seq<bool>, copied: nat, len: nat,
                 skip: nat, done: seq<byte>, done': seq<byte>, all: seq<byte>)
    requires i < |got| && got[i..] == [ok] + rest && done + Delivered(disc, got, lba, i, copied, len, skip) == all
    requires done' == done + if ok then Piece(disc(lba + i), SkipOf(i, skip), WantedOf(i, |got|, copied, len, skip)) else []
    ensures ok == got[i] && rest == got[i + 1..]
    ensures var copied' := copied + if ok then WantedOf(i, |got|, copied, len, skip) else 0;
      done' + Delivered(disc, got, lba, i + 1, copied', len, skip) == all
  {
    assert got[i..][0] == ok && got[i..][1..] == rest;
    var m := WantedOf(i, |got|, copied, len, skip);
    if ok {
      ConcatAssociates(done, Piece(disc(lba + i), SkipOf(i, skip), m),
                       Delivered(disc, got, lba, i + 1, copied + m, len, skip));
    }
  }

  lemma NoneLeft(disc: nat -> Frame, got: seq<bool>, lba: nat, i: nat, copied: nat, len: nat, skip: nat, done: seq<byte>)
    requires i == |got|
    ensures done + Delivered(disc, got, lba, i, copied, len, skip) == done
  {
  }

  lemma TailOf(s: array<byte>, before: seq<byte>, from: nat)
    requires from <= s.Length == |before| && forall k :: from <= k < s.Length ==> s[k] == before[k]
    ensures s[from..] == before[from..]
  {
  }

  ghost predicate NeverRefuses(answer: nat -> Answer, from: nat) {
    forall t :: t >= from ==> answer(t).Done?
  }

  /** A drive that refuses nothing delivers every frame. */
  lemma {:induction false} AllArrive(answer: nat -> Answer, sent: nat, retries: nat, cache: Option<nat>, lba: nat, n: nat)
    requires NeverRefuses(answer, sent)
    ensures AllTrue(Outcomes(answer, sent, retries, cache, lba, n))
    decreases n
  {
    if n > 0 {
      var a, cache' := OutcomesStep(answer, sent, retries, cache, lba, n);
      AllArrive(answer, a.1, a.2, cache', lba + 1, n - 1);
    }
  }

  // ---- Which refusals are sent again ----

  /** The answer is a refusal that a second try may get past: no sense, not ready, medium error, hardware error, unit
      attention. */
  predicate Passing(a: Answer) {
    a.Refused? && (a.key == 0 || a.key == 2 || a.key == 3 || a.key == 4 || a.key == 6)
  }

  /** The command sent at time `sent` is carried out after `d` refusals, each of which is worth a second try. */
  predicate DoneAfter(answer: nat -> Answer, sent: nat, d: nat) {
    answer(sent + d).Done? && forall t :: sent <= t < sent + d ==> Passing(answer(t))
  }

  /** A command is carried out exactly when one of its tries is, no more of them being made than there are retries, and
      all before it were refused in passing. It costs as many retries as refusals. */
  lemma {:induction false} TriedAgain(answer: nat -> Answer, sent: nat, retries: nat)
    ensures Attempt(answer, sent, retries).2 <= retries
    ensures Attempt(answer, sent, retries).1 == sent + (retries - Attempt(answer, sent, retries).2) + 1
    ensures Attempt(answer, sent, retries).0 <==> exists d: nat :: d <= retries && DoneAfter(answer, sent, d)
    ensures Attempt(answer, sent, retries).0 ==>
      DoneAfter(answer, sent, retries - Attempt(answer, sent, retries).2)
    ensures !Attempt(answer, sent, retries).0 ==>
      var last := answer(Attempt(answer, sent, retries).1 - 1);
      last.Refused? && (Attempt(answer, sent, retries).2 == 0 || !Passing(last))
    decreases retries
  {
    if answer(sent).Done? {
      assert DoneAfter(answer, sent, 0);
    } else if Passing(answer(sent)) && retries > 0 {
      TriedAgain(answer, sent + 1, retries - 1);
      if Attempt(answer, sent, retries).0 {
        OneRefusalMore(answer, sent, retries - 1 - Attempt(answer, sent + 1, retries - 1).2);
      }
      if d: nat :| d <= retries && DoneAfter(answer, sent, d) {
        OneRefusalMore(answer, sent, d - 1);
      }
    } else {
      forall d: nat | d <= retries ensures !DoneAfter(answer, sent, d) { }
    }
  }

  lemma OneRefusalMore(answer: nat -> Answer, sent: nat, d: nat)
    requires Passing(answer(sent))
    ensures DoneAfter(answer, sent, d + 1) <==> DoneAfter(answer, sent + 1, d)
  {
    assert sent + (d + 1) == sent + 1 + d;
  }

  /** A frame that is not in the cache and whose first answer is a refusal for good does not arrive, and costs exactly one
      command and no retry. */
  lemma LostAtOnce(answer: nat -> Answer, sent: nat, retries: nat, cache: Option<nat>, lba: nat, n: nat)
    requires n > 0 && cache != Some(lba) && answer(sent).Refused?
    requires answer(sent).key != 0 && answer(sent).key != 2 && answer(sent).key != 3
    requires answer(sent).key != 4 && answer(sent).key != 6
    ensures Outcomes(answer, sent, retries, cache, lba, n)
         == [false] + Outcomes(answer, sent + 1, retries, cache, lba + 1, n - 1)
  {
  }

  /** Eleven refusals in passing are one too many. */
  lemma LostInTheEnd(answer: nat -> Answer, sent: nat, cache: Option<nat>, lba: nat, n: nat)
    requires n > 0 && cache != Some(lba) && forall t :: sent <= t <= sent + 10 ==> Passing(answer(t))
    ensures Outcomes(answer, sent, MAX_RETRIES, cache, lba, n)
         == [false] + Outcomes(answer, sent + 11, 0, cache, lba + 1, n - 1)
  {
    TriedAgain(answer, sent, MAX_RETRIES);
    assert Passing(answer(Attempt(answer, sent, MAX_RETRIES).1 - 1));
  }

  /** How many of the next `m` commands are carried out. */
  function Carried(answer: nat -> Answer, from: nat, m: nat): (r: nat)
    ensures r <= m
    decreases m
  {
    if m == 0 then 0 else (if answer(from).Done? then 1 else 0) + Carried(answer, from + 1, m - 1)
  }

  /** Of the next `m` commands at least `n` are carried out, and at most so many are refused, all of them in passing. */
  predicate Obliging(answer: nat -> Answer, from: nat, m: nat, n: nat, refusals: nat) {
    && n <= Carried(answer, from, m) && m <= Carried(answer, from, m) + refusals
    && forall t :: from <= t < from + m ==> answer(t).Done? || Passing(answer(t))
  }

  /** Until `n` commands are carried out, at most ten are refused, all of them in passing. */
  ghost predicate Forgiving(answer: nat -> Answer, from: nat, n: nat) {
    exists m: nat :: Obliging(answer, from, m, n, 10)
  }

  /** Then a retry rescues every frame that a refusal endangers. */
  lemma {:induction false} AllRescued(answer: nat -> Answer, sent: nat, retries: nat, cache: Option<nat>, lba: nat,
                                      n: nat, m: nat)
    requires Obliging(answer, sent, m, n, retries)
    ensures AllTrue(Outcomes(answer, sent, retries, cache, lba, n))
    decreases n
  {
    if n > 0 {
      if cache == Some(lba) {
        AllRescued(answer, sent, retries, None, lba + 1, n - 1, m);
      } else {
        var d := FirstCarried(answer, sent, m, n, retries);
        AttemptIs(answer, sent, retries, d);
        AllRescued(answer, sent + d + 1, retries - d, Some(lba), lba + 1, n - 1, m - d - 1);
      }
    }
  }

  lemma AttemptIs(answer: nat -> Answer, sent: nat, retries: nat, d: nat)
    requires d <= retries && DoneAfter(answer, sent, d)
    ensures Attempt(answer, sent, retries) == (true, sent + d + 1, retries - d)
  {
    hide Attempt;
    TriedAgain(answer, sent, retries);
    var a := Attempt(answer, sent, retries);
    var e := retries - a.2;
    assert e == d;
    assert a == (a.0, a.1, a.2);
  }

  /** The first command that is carried out, and what is left to come after it. */
  lemma {:induction false} FirstCarried(answer: nat -> Answer, from: nat, m: nat, n: nat, refusals: nat) returns (d: nat)
    requires n > 0 && Obliging(answer, from, m, n, refusals)
    ensures d <= refusals && d < m && DoneAfter(answer, from, d)
    ensures Obliging(answer, from + d + 1, m - d - 1, n - 1, refusals - d)
    decreases m
  {
    if answer(from).Done? {
      d := 0;
    } else {
      assert Carried(answer, from, m) == Carried(answer, from + 1, m - 1);
      var e := FirstCarried(answer, from + 1, m - 1, n, refusals - 1);
      OneRefusalMore(answer, from, e);
      d := e + 1;
    }
  }

  /** A drive that is not ready at first and obeys from then on. */
  function LateDrive(): nat -> Answer {
    t => if t == 0 then Refused(2) else Done
  }

  lemma LateIsForgiven(n: nat)
    ensures Forgiving(LateDrive(), 0, n)
  {
    AllCarried(LateDrive(), 1, n);
    assert Obliging(LateDrive(), 0, n + 1, n, 10);
  }

  lemma {:induction false} AllCarried(answer: nat -> Answer, from: nat, m: nat)
    requires NeverRefuses(answer, from)
    ensures Carried(answer, from, m) == m
    decreases m
  {
    if m > 0 { AllCarried(answer, from + 1, m - 1); }
  }

  /** What the status of a read says, and what it should say. */
  predicate Succeeds(got: seq<bool>) {
    got == [] || got[|got| - 1]
  }

  /** A drive whose first answer is a refusal that is not retried, and that obeys from then on. */
  function RefusesFirst(): nat -> Answer {
    t => if t == 0 then Refused(5) else Done
  }

  /** When all frames arrive, the delivered bytes are those of the disc. */
  lemma AllDelivered(disc: nat -> Frame, got: seq<bool>, lba: nat, len: nat, skip: nat)
    requires AllTrue(got) && |got| == Frames(len + skip) && skip < FRAME
    ensures Delivered(disc, got, lba, 0, 0, len, skip) == DiscBytes(disc, lba * FRAME + skip, len)
  {
    hide Delivered, DiscBytes;
    DeliveredFrom(disc, got, lba, 0, 0, len, skip);
    DiscSplit(disc, lba * FRAME + skip, 0, len);
  }

  lemma {:induction false} DeliveredFrom(disc: nat -> Frame, got: seq<bool>, lba: nat, i: nat, copied: nat, len: nat,
                                         skip: nat)
    requires AllTrue(got) && |got| == Frames(len + skip) && skip < FRAME && i <= |got|
    requires copied <= len && (if i == 0 then copied == 0 else if i == |got| then copied == len else copied + skip == i * FRAME)
    ensures Delivered(disc, got, lba, i, copied, len, skip)
         == DiscBytes(disc, lba * FRAME + skip + copied, len - copied)
    decreases |got| - i
  {
    hide DiscBytes, Piece;
    var start := lba * FRAME + skip + copied;
    if i < |got| {
      var sk, m := SkipOf(i, skip), WantedOf(i, |got|, copied, len, skip);
      LastFrameFits(i, |got|, copied, len, skip);
      DeliveredFrom(disc, got, lba, i + 1, copied + m, len, skip);
      Address(lba, i, skip, copied, sk);
      PieceOfDisc(disc, start, lba + i, sk, m);
      DiscSplit(disc, start, m, len - copied);
    } else {
      NoBytes(disc, start);
    }
  }

  lemma LastFrameFits(i: nat, frames: nat, copied: nat, len: nat, skip: nat)
    requires frames == Frames(len + skip) && skip < FRAME && i < frames && copied <= len
    requires if i == 0 then copied == 0 else copied + skip == i * FRAME
    ensures skip + copied == i * FRAME + SkipOf(i, skip)
    ensures SkipOf(i, skip) + WantedOf(i, frames, copied, len, skip) <= FRAME
    ensures copied + WantedOf(i, frames, copied, len, skip) <= len
    ensures if i + 1 == frames then copied + WantedOf(i, frames, copied, len, skip) == len
            else copied + WantedOf(i, frames, copied, len, skip) + skip == (i + 1) * FRAME
  {
  }

  lemma NoBytes(disc: nat -> Frame, from: nat)
    ensures DiscBytes(disc, from, 0) == []
  {
  }

  lemma PieceOfDisc(disc: nat -> Frame, from: nat, lba: nat, skip: nat, m: nat)
    requires from == lba * FRAME + skip && skip + m <= FRAME
    ensures Piece(disc(lba), skip, m) == DiscBytes(disc, from, m)
  {
    forall k | 0 <= k < m ensures DiscBytes(disc, from, m)[k] == Piece(disc(lba), skip, m)[k] {
      QuotientOf(from + k, lba, skip + k);
    }
  }

  lemma DiscSplit(disc: nat -> Frame, from: nat, m: nat, n: nat)
    requires m <= n
    ensures DiscBytes(disc, from, n) == DiscBytes(disc, from, m) + DiscBytes(disc, from + m, n - m)
  {
    var all, a, b := DiscBytes(disc, from, n), DiscBytes(disc, from, m), DiscBytes(disc, from + m, n - m);
    forall k | 0 <= k < n ensures all[k] == (a + b)[k] { }
  }

  // ---- When a success can be trusted ----

  /** If this read reports success, the wanted bytes are there. */
  ghost predicate Honest(disc: nat -> Frame, answer: nat -> Answer, sent: nat, cache: Option<nat>, lba: nat, len: nat,
                         skip: nat)
  {
    var got := Outcomes(answer, sent, MAX_RETRIES, cache, lba, Frames(len + skip));
    Succeeds(got) ==> Delivered(disc, got, lba, 0, 0, len, skip) == DiscBytes(disc, lba * FRAME + skip, len)
  }

  /** A success can be trusted, whatever the disc and the drive, exactly when the read needs at most one frame. */
  lemma TrustedWhenShort(len: nat, skip: nat)
    requires skip < FRAME
    ensures (forall disc: nat -> Frame, answer: nat -> Answer, sent: nat, cache: Option<nat>, lba: nat ::
               Honest(disc, answer, sent, cache, lba, len, skip))
            <==> Frames(len + skip) <= 1
  {
    if Frames(len + skip) <= 1 {
      forall disc: nat -> Frame, answer: nat -> Answer, sent: nat, cache: Option<nat>, lba: nat
        ensures Honest(disc, answer, sent, cache, lba, len, skip) {
        ShortIsHonest(disc, answer, sent, cache, lba, len, skip);
      }
    } else {
      MaskedFailure(0, len, skip);
      assert !Honest(Striped(), RefusesFirst(), 0, None, 0, len, skip);
    }
  }

  lemma ShortIsHonest(disc: nat -> Frame, answer: nat -> Answer, sent: nat, cache: Option<nat>, lba: nat, len: nat,
                      skip: nat)
    requires skip < FRAME && Frames(len + skip) <= 1
    ensures Honest(disc, answer, sent, cache, lba, len, skip)
  {
    var got := Outcomes(answer, sent, MAX_RETRIES, cache, lba, Frames(len + skip));
    assert |got| == Frames(len + skip);
    hide Outcomes, Delivered, DiscBytes, Frames;
    if Succeeds(got) {
      AllDelivered(disc, got, lba, len, skip);
    }
  }

  /** A disc whose odd frames are all ones and whose even frames are all zeros. */
  function Striped(): nat -> Frame {
    (l: nat) => seq(FRAME, _ => l % 2)
  }

  /** With the first frame refused and the others delivered, a read of two frames or more reports success, and already
      its first byte is wrong. */
  lemma MaskedFailure(lba: nat, len: nat, skip: nat)
    requires skip < FRAME && Frames(len + skip) >= 2
    ensures var got := Outcomes(RefusesFirst(), 0, MAX_RETRIES, None, lba, Frames(len + skip));
      Succeeds(got) && !AllTrue(got) &&
      Delivered(Striped(), got, lba, 0, 0, len, skip) != DiscBytes(Striped(), lba * FRAME + skip, len)
  {
    hide Delivered, DiscBytes, AllTrue, Frames, Outcomes;
    var n := Frames(len + skip);
    var got := Outcomes(RefusesFirst(), 0, MAX_RETRIES, None, lba, n);
    FirstRefused(lba, n);
    EnoughBytes(len, skip);
    FirstByteWrong(got, lba, len, skip);
  }

  lemma EnoughBytes(len: nat, skip: nat)
    requires skip < FRAME && Frames(len + skip) >= 2
    ensures len > 0
  {
  }

  lemma FirstRefused(lba: nat, n: nat)
    requires n >= 2
    ensures var got := Outcomes(RefusesFirst(), 0, MAX_RETRIES, None, lba, n);
      |got| == n && !got[0] && got[1] && Succeeds(got) && !AllTrue(got)
  {
    var answer := RefusesFirst();
    var k: nat :| k == MAX_RETRIES;
    assert Attempt(answer, 0, k) == (false, 1, k);
    var a, cache := OutcomesStep(answer, 0, k, None, lba, n);
    AllArrive(answer, 1, k, cache, lba + 1, n - 1);
    var got, rest := Outcomes(answer, 0, k, None, lba, n), Outcomes(answer, 1, k, cache, lba + 1, n - 1);
    assert got == [false] + rest;
    assert !got[0] && got[1] == rest[0] && got[|got| - 1] == rest[|rest| - 1];
  }

  lemma FirstByteWrong(got: seq<bool>, lba: nat, len: nat, skip: nat)
    requires |got| >= 2 && !got[0] && got[1] && len > 0 && skip < FRAME
    ensures Delivered(Striped(), got, lba, 0, 0, len, skip) != DiscBytes(Striped(), lba * FRAME + skip, len)
  {
    var m := WantedOf(1, |got|, 0, len, skip);
    assert m > 0;
    assert Delivered(Striped(), got, lba, 0, 0, len, skip) == Delivered(Striped(), got, lba, 1, 0, len, skip);
    var d := Delivered(Striped(), got, lba, 1, 0, len, skip);
    assert d[0] == Piece(Striped()(lba + 1), 0, m)[0] == (lba + 1) % 2;
    QuotientOf(lba * FRAME + skip, lba, skip);
    assert DiscBytes(Striped(), lba * FRAME + skip, len)[0] == lba % 2;
  }

  /** The same on a stream: the status is success and the bytes are wrong. */
  method MaskedRead(t: Msf, len: nat, skip: nat) returns (failed: bool, s: array<byte>)
    requires ValidTime(t) && skip < FRAME && Frames(len + skip) >= 2 && MsfToLba(t) + Frames(len + skip) < MSF_LIMIT
    ensures fresh(s) && s.Length == len
    ensures !failed && s[..] != DiscBytes(Striped(), MsfToLba(t) * FRAME + skip, len)
  {
    s := new byte[len];
    var stream := new Stream();
    ghost var before, lba := s[..], MsfToLba(t);
    ghost var got := Outcomes(RefusesFirst(), 0, MAX_RETRIES, None, lba, Frames(len + skip));
    var drive := Drive(Striped(), RefusesFirst());
    assert got == stream.Arrivals(drive, t, len + skip);
    assert |got| == Frames(len + skip);
    MaskedFailure(lba, len, skip);
    hide Outcomes, Delivered, DiscBytes, Frames, MsfToLba, Striped, RefusesFirst, AllTrue;
    failed := stream.CdromRead(drive, t, s, len, skip);
    assert s[..] == Delivered(Striped(), got, lba, 0, 0, len, skip) + before[len..];
    assert before[len..] == [];
  }

  // ---- Any history of commands ----

  datatype Request = Read(time: Msf, len: nat, skip: nat) | Other(retry: bool, reply: seq<byte>, wanted: bool)

  predicate Legal(r: Request) {
    r.Read? ==> ValidTime(r.time) && r.skip < FRAME && MsfToLba(r.time) + Frames(r.len + r.skip) < MSF_LIMIT
  }

  /** Whatever was read, refused, retried or asked before, a valid cache holds the disc's frame. */
  method Serve(stream: Stream, drive: Drive, requests: seq<Request>)
    requires stream.CacheOk(drive.disc) && forall i :: 0 <= i < |requests| ==> Legal(requests[i])
    modifies stream
    ensures stream.CacheOk(drive.disc)
  {
    for i := 0 to |requests|
      invariant stream.CacheOk(drive.disc)
    {
      match requests[i] {
        case Read(time, len, skip) =>
          var buffer := new byte[len];
          var _ := stream.CdromRead(drive, time, buffer, len, skip);
        case Other(retry, reply, wanted) =>
          var buffer: array?<byte> := null;
          if wanted {
            buffer := new byte[|reply|];
          }
          var _ := stream.SendOther(drive.answer, retry, reply, buffer, |reply|);
      }
    }
  }

  /** The end of the range goes one block up; so does its start, but not before the first frame. */
  method Advance(cmd: Command, i: nat, ghost start: nat) returns (cmd': Command)
    requires Stands(cmd, i, start) && start + i + 1 < MSF_LIMIT
    ensures Stands(cmd', i + 1, start) && MsfToLba(cmd'.from) == start + i && MsfToLba(cmd'.to) == start + i + 1
  {
    NextIsNextBlock(cmd.to);
    NextIsNextBlock(cmd.from);
    hide MsfToLba, Next, ValidTime;
    cmd' := cmd.(to := Next(cmd.to));
    if i > 0 {
      cmd' := cmd'.(from := Next(cmd.from));
    }
  }

  /** Bytes join those copied so far; nothing after them is touched. */
  method CopyPiece(s: array<byte>, copied: nat, piece: seq<byte>)
    requires copied + |piece| <= s.Length
    modifies s
    ensures s[..copied + |piece|] == old(s[..copied]) + piece
    ensures s[copied + |piece|..] == old(s[copied + |piece|..])
  {
    ghost var before := s[..];
    CopyTo(s, copied, piece);
    Unmoved(before, s[..], copied, copied + |piece|);
    assert s[..copied + |piece|] == s[..copied] + s[copied..copied + |piece|];
  }

  /** memcpy into a buffer. */
  method CopyTo(buf: array<byte>, pos: nat, f: seq<byte>)
    requires pos + |f| <= buf.Length
    modifies buf
    ensures buf[pos..pos + |f|] == f
    ensures forall k :: 0 <= k < buf.Length && !(pos <= k < pos + |f|) ==> buf[k] == old(buf[k])
  {
    var i := 0;
    while i < |f|
      invariant i <= |f| && forall k :: pos <= k < pos + i ==> buf[k] == f[k - pos]
      invariant forall k :: 0 <= k < buf.Length && !(pos <= k < pos + i) ==> buf[k] == old(buf[k])
    {
      buf[pos + i] := f[i];
      i := i + 1;
    }
  }

  lemma Unmoved(before: seq<byte>, after: seq<byte>, from: nat, to: nat)
    requires from <= to <= |before| == |after|
    requires forall k :: 0 <= k < |after| && !(from <= k < to) ==> after[k] == before[k]
    ensures after[..from] == before[..from] && after[to..] == before[to..]
  {
  }

  /** Where a read stands after `i` frames: all have arrived exactly when the position is `i` frames on. The bytes to
      skip have been skipped, unless frame 0 did not arrive. */
  predicate Progress(i: nat, frames: nat, pos: nat, copied: nat, len: nat, skip: nat) {
    && len + skip <= frames * FRAME && (frames > 0 ==> (frames - 1) * FRAME < len + skip) && skip < FRAME
    && i <= frames && pos <= i * FRAME && copied <= len
    && (i < frames ==>
          (copied + skip == pos && pos >= FRAME) || (copied == pos && (i > 0 ==> pos + FRAME <= i * FRAME)))
    && (i == frames && pos == i * FRAME ==> copied == len)
  }

  /** How many bytes of frame `i` to skip and to copy. Nothing is read or written outside the buffers, even after frames
      that never arrived; inside the frame itself only while none is missing. */
  method Amounts(i: nat, frames: nat, pos: nat, copied: nat, len: nat, skip: nat) returns (skipNow: nat, copyLen: nat)
    requires Progress(i, frames, pos, copied, len, skip) && i < frames
    ensures skipNow == SkipOf(i, skip) && copyLen == WantedOf(i, frames, copied, len, skip) && copied + copyLen <= len
    ensures pos + FRAME <= FRAME * frames && pos + skipNow + copyLen <= FRAME * frames
    ensures pos == i * FRAME ==> skipNow + copyLen <= FRAME && skip + copied == i * FRAME + skipNow
    ensures Progress(i + 1, frames, pos + FRAME, copied + copyLen, len, skip)
    ensures Progress(i + 1, frames, pos, copied, len, skip)
  {
    skipNow, copyLen := skip, FRAME;
    if i > 0 {
      skipNow := 0;
    } else if skip > 0 {
      copyLen := copyLen - skip;
    }
    if i == frames - 1 {
      copyLen := len - copied;
    }
  }

  lemma OutcomesStep(answer: nat -> Answer, sent: nat, retries: nat, cache: Option<nat>, lba: nat, n: nat)
    returns (a: (bool, nat, nat), cache': Option<nat>)
    requires n > 0
    ensures a == if cache == Some(lba) then (true, sent, retries) else Attempt(answer, sent, retries)
    ensures cache' == if cache == Some(lba) then None else if a.0 then Some(lba) else cache
    ensures Outcomes(answer, sent, retries, cache, lba, n) == [a.0] + Outcomes(answer, a.1, a.2, cache', lba + 1, n - 1)
  {
    a := if cache == Some(lba) then (true, sent, retries) else Attempt(answer, sent, retries);
    cache' := if cache == Some(lba) then None else if a.0 then Some(lba) else cache;
  }

  lemma Address(lba: nat, i: nat, skip: nat, copied: nat, skipNow: nat)
    requires skip + copied == i * FRAME + skipNow
    ensures lba * FRAME + skip + copied == (lba + i) * FRAME + skipNow
  {
  }

  lemma QuotientOf(a: nat, q: nat, r: nat)
    requires a == q * FRAME + r && r < FRAME
    ensures a / FRAME == q && a % FRAME == r
  {
  }
}
