/**
 Reassembly of fixed-size frames from a pipe that delivers its bytes in arbitrary
 portions. A `Tick` is one turn of the read loop: whether the runner is still
 running, and how the kernel answers the read.
 */
module FrameReader {
  import opened Prelude

  const LORES_WIDTH := 320
  const LORES_HEIGHT := 240
  const FRAME_BYTES: nat := LORES_WIDTH * LORES_HEIGHT

  datatype Answer = OsError | Ready(available: nat)
  datatype Tick = Tick(running: bool, answer: Answer)

  function Flatten(frames: seq<seq<Byte>>): seq<Byte> {
    if |frames| == 0 then [] else Flatten(frames[..|frames| - 1]) + frames[|frames| - 1]
  }

  predicate WholeFrames(frames: seq<seq<Byte>>) {
    forall i :: 0 <= i < |frames| ==> |frames[i]| == FRAME_BYTES
  }

  /** The consecutive blocks of a stream, by position. */
  function Block(s: seq<Byte>, i: nat): seq<Byte>
    requires i < |s| / FRAME_BYTES
  {
    s[i * FRAME_BYTES..(i + 1) * FRAME_BYTES]
  }

  /** The bytes one answered read delivers, when `taken` of `total` have been read. */
  function Portion(available: nat, total: nat, taken: nat): (n: nat)
    requires taken <= total
    ensures n <= total - taken && n <= FRAME_BYTES
  {
    Min(available, Min(FRAME_BYTES - taken % FRAME_BYTES, total - taken))
  }

  /** `frames` are all whole blocks of `s`, in order, and `rest` is what remains. */
  ghost predicate AreBlocks(s: seq<Byte>, frames: seq<seq<Byte>>, rest: seq<Byte>) {
    && |frames| == |s| / FRAME_BYTES && |rest| == |s| % FRAME_BYTES
    && rest == s[|frames| * FRAME_BYTES..]
    && forall i :: 0 <= i < |frames| ==> frames[i] == Block(s, i)
  }

  /** How far into a stream of `total` bytes the loop gets from tick `i` on, having read `taken`. */
  function TakenBy(ticks: seq<Tick>, i: nat, total: nat, taken: nat): (t: nat)
    requires taken <= total && i <= |ticks|
    ensures taken <= t <= total
    decreases |ticks| - i
  {
    if i == |ticks| || !ticks[i].running || ticks[i].answer.OsError? then taken
    else
      var n := Portion(ticks[i].answer.available, total, taken);
      if n == 0 then taken else TakenBy(ticks, i + 1, total, taken + n)
  }

  /** A tick that leaves the loop running. */
  predicate Delivers(tick: Tick) {
    tick.running && tick.answer.Ready? && tick.answer.available > 0
  }

  /** While every tick delivers something, the loop takes at least a byte a tick until nothing is left. */
  lemma {:induction false} DeliveryIsTaken(ticks: seq<Tick>, i: nat, total: nat, taken: nat)
    requires i <= |ticks| && taken <= total && forall j :: i <= j < |ticks| ==> Delivers(ticks[j])
    ensures TakenBy(ticks, i, total, taken) >= Min(total, taken + |ticks| - i)
    decreases |ticks| - i
  {
    if i < |ticks| && taken < total {
      assert Delivers(ticks[i]);
      var n := Portion(ticks[i].answer.available, total, taken);
      DeliveryIsTaken(ticks, i + 1, total, taken + n);
    }
  }

  /** When the loop leaves something unread although ticks remain, some tick did not deliver. */
  lemma {:induction false} UnreadMeansStopped(ticks: seq<Tick>, total: nat)
    ensures TakenBy(ticks, 0, total, 0) == total || |ticks| < total || exists j :: 0 <= j < |ticks| && !Delivers(ticks[j])
  {
    if forall j :: 0 <= j < |ticks| ==> Delivers(ticks[j]) {
      DeliveryIsTaken(ticks, 0, total, 0);
    }
  }

  lemma {:induction false} FlattenLength(frames: seq<seq<Byte>>)
    requires WholeFrames(frames)
    ensures |Flatten(frames)| == |frames| * FRAME_BYTES
  {
    if |frames| > 0 {
      FlattenLength(frames[..|frames| - 1]);
    }
  }

  /** Frame `i` of a flattened stream starts at its i-th multiple of the frame size. */
  lemma {:induction false} FrameAt(frames: seq<seq<Byte>>, rest: seq<Byte>, i: nat)
    requires WholeFrames(frames) && i < |frames|
    ensures |Flatten(frames)| == |frames| * FRAME_BYTES
    ensures (Flatten(frames) + rest)[i * FRAME_BYTES..(i + 1) * FRAME_BYTES] == frames[i]
    decreases |frames|
  {
    FlattenLength(frames);
    var init, last := frames[..|frames| - 1], frames[|frames| - 1];
    FlattenLength(init);
    assert Flatten(frames) + rest == Flatten(init) + (last + rest);
    if i < |init| {
      FrameAt(init, last + rest, i);
    }
  }

  /** Whole frames followed by a shorter rest can be cut out of a stream in one way only. */
  lemma FramesAreBlocks(s: seq<Byte>, frames: seq<seq<Byte>>, rest: seq<Byte>)
    requires s == Flatten(frames) + rest && WholeFrames(frames) && |rest| < FRAME_BYTES
    ensures AreBlocks(s, frames, rest)
  {
    FlattenLength(frames);
    forall i | 0 <= i < |frames|
      ensures frames[i] == Block(s, i)
    {
      FrameAt(frames, rest, i);
    }
  }

  /** The inner loop: cut whole frames off the front of the buffer. */
  method CutFrames(done: seq<seq<Byte>>, pending: seq<Byte>) returns (frames: seq<seq<Byte>>, buf: seq<Byte>)
    requires WholeFrames(done)
    ensures WholeFrames(frames) && Flatten(frames) + buf == Flatten(done) + pending && |buf| < FRAME_BYTES
  {
    frames, buf := done, pending;
    while |buf| >= FRAME_BYTES
      invariant WholeFrames(frames) && Flatten(frames) + buf == Flatten(done) + pending
      decreases |buf|
    {
      var frame := buf[..FRAME_BYTES];
      assert (frames + [frame])[..|frames|] == frames;
      assert Flatten(frames) + buf == Flatten(frames) + frame + buf[FRAME_BYTES..];
      frames := frames + [frame];
      buf := buf[FRAME_BYTES..];
    }
  }

  lemma LeftoverLength(s: seq<Byte>, frames: seq<seq<Byte>>, rest: seq<Byte>)
    requires s == Flatten(frames) + rest && WholeFrames(frames) && |rest| < FRAME_BYTES
    ensures |rest| == |s| % FRAME_BYTES
  {
    FlattenLength(frames);
  }

  /** The generator's loop; `requests` lists the sizes it asked the kernel for. */
  method ReadFrames(data: seq<Byte>, ticks: seq<Tick>)
    returns (frames: seq<seq<Byte>>, buf: seq<Byte>, taken: nat, requests: seq<int>)
    ensures taken == TakenBy(ticks, 0, |data|, 0) <= |data|
    ensures Flatten(frames) + buf == data[..taken] && WholeFrames(frames) && |buf| < FRAME_BYTES
    ensures AreBlocks(data[..taken], frames, buf)
    ensures forall r :: r in requests ==> 0 < r <= FRAME_BYTES
  {
    frames, buf, taken, requests := [], [], 0, [];
    var i := 0;
    while i < |ticks| && ticks[i].running
      invariant i <= |ticks| && taken <= |data|
      invariant |buf| < FRAME_BYTES && WholeFrames(frames) && Flatten(frames) + buf == data[..taken]
      invariant TakenBy(ticks, 0, |data|, 0) == TakenBy(ticks, i, |data|, taken)
      invariant forall r :: r in requests ==> 0 < r <= FRAME_BYTES
    {
      LeftoverLength(data[..taken], frames, buf);
      var request := FRAME_BYTES - |buf|;
      if request == 0 { request := FRAME_BYTES; }
      requests := requests + [request];
      if ticks[i].answer.OsError? { break; }
      var n := Min(ticks[i].answer.available, Min(request, |data| - taken));
      assert n == Portion(ticks[i].answer.available, |data|, taken);
      if n == 0 { break; }
      assert data[..taken] + data[taken..taken + n] == data[..taken + n];
      frames, buf := CutFrames(frames, buf + data[taken..taken + n]);
      taken := taken + n;
      i := i + 1;
    }
    FramesAreBlocks(data[..taken], frames, buf);
  }
}
