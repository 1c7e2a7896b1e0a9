/** The capture path of the audio HAL (common/hardware/audio/audio_hw.c: get_next_buffer,
    release_buffer, read_frames, process_frames), without a resampler.

    A frame is one opaque value of type T. The driver's capture is the function `pcm` from
    positions to frames; the n-th pcm_read returns `statusOf(n)`, which is 0 on success (then it
    delivers the next period) and negative on failure. */
module CapturePath {
  /** A preprocessing effect. Given the number of earlier calls, the frames on offer and the room
      in the output, it says how many frames it consumes and which frames it produces. */
  type Effect<!T> = (nat, seq<T>, nat) -> (nat, seq<T>)

  ghost predicate WellBehaved<T(!new)>(effect: Effect<T>) {
    forall n: nat, offered: seq<T>, room: nat ::
      effect(n, offered, room).0 <= |offered| && |effect(n, offered, room).1| <= room
  }

  const ENODEV := 19

  /** `count` captured frames from position `start` on. */
  function Slice<T>(pcm: nat -> T, start: nat, count: nat): (s: seq<T>)
    ensures |s| == count
  {
    seq(count, i requires 0 <= i < count => pcm(start + i))
  }

  /** Appending freshly read frames to what was captured keeps both ways of accounting for it. */
  lemma CaptureExtends<T>(pcm: nat -> T, consumed: seq<T>, kept: seq<T>, start: nat, count: nat)
    ensures (consumed + kept) + Slice(pcm, start, count) == consumed + (kept + Slice(pcm, start, count))
    ensures consumed + kept == Slice(pcm, 0, start) ==>
              (consumed + kept) + Slice(pcm, start, count) == Slice(pcm, 0, start + count)
  {
  }

  lemma {:induction false} FramesIsProduct(periods: nat, size: nat)
    ensures Frames(periods, size) == periods * size
  {
    if periods == 0 {
    } else {
      FramesIsProduct(periods - 1, size);
      assert (periods - 1) * size + size == periods * size;
    }
  }

  /** What the n-th driver call returns. */
  function Status(statusOf: nat -> int, n: nat): int {
    statusOf(n)
  }

  /** pcm_read returns 0 or a negative error. */
  ghost predicate NeverPositive(statusOf: nat -> int) {
    forall n: nat :: Status(statusOf, n) <= 0
  }

  /** The driver calls with numbers from `start` up to but not including `end` succeed. */
  ghost predicate Succeed(statusOf: nat -> int, start: nat, end: nat) {
    forall n: nat :: start <= n < end ==> Status(statusOf, n) == 0
  }

  lemma SliceHead<T>(pcm: nat -> T, start: nat, count: nat, k: nat)
    requires k <= count
    ensures Slice(pcm, start, count)[..k] == Slice(pcm, start, k)
  {
  }

  lemma SliceTail<T>(pcm: nat -> T, start: nat, count: nat, k: nat)
    requires k <= count
    ensures Slice(pcm, start, count)[k..] == Slice(pcm, start + k, count - k)
  {
  }

  lemma SlicesJoin<T>(pcm: nat -> T, start: nat, count: nat, more: nat)
    ensures Slice(pcm, start, count) + Slice(pcm, start + count, more) == Slice(pcm, start, count + more)
  {
  }

  lemma RestOf<T>(a: array<T>, taken: nat, n: nat)
    requires taken <= n <= a.Length
    ensures a[taken..n] == a[..n][taken..]
  {
  }

  lemma SameFront<T>(a: seq<T>, b: seq<T>, c: seq<T>)
    requires a + c == b + c
    ensures a == b
  {
    assert |a| == |b|;
    assert a == (a + c)[..|a|] && b == (b + c)[..|b|];
  }

  lemma PrefixOf<T>(a: array<T>, n: nat)
    requires n <= a.Length
    ensures a[..][..n] == a[..n]
  {
  }

  /** An effect that from its process() call number `call` on fills the room it is given, whenever it is
      offered at least as many frames. */
  ghost predicate FillsRoom<T(!new)>(effect: Effect<T>, call: nat) {
    forall n: nat, offered: seq<T>, room: nat ::
      n >= call && |offered| >= room ==> |effect(n, offered, room).1| == room
  }

  function Map<T>(f: T -> T, s: seq<T>): (r: seq<T>)
    ensures |r| == |s|
  {
    seq(|s|, i requires 0 <= i < |s| => f(s[i]))
  }

  /** An effect that turns each frame it consumes into one frame, by f. */
  ghost predicate FrameWise<T(!new)>(effect: Effect<T>, f: T -> T) {
    forall n: nat, offered: seq<T>, room: nat ::
      var (taken, made) := effect(n, offered, room);
      taken <= |offered| && made == Map(f, offered[..taken])
  }

  lemma Spliced<T>(before: seq<T>, after: seq<T>, at: nat, part: seq<T>)
    requires |after| == |before| && at + |part| <= |before|
    requires forall j :: 0 <= j < |after| ==>
               after[j] == if at <= j < at + |part| then part[j - at] else before[j]
    ensures after == before[..at] + part + before[at + |part|..]
  {
  }

  lemma TakeFront<T>(earlier: seq<T>, s: seq<T>, taken: nat)
    requires taken <= |s|
    ensures earlier + s == (earlier + s[..taken]) + s[taken..]
  {
    assert s == s[..taken] + s[taken..];
  }

  /** The number of frames in so many periods: periods * size. */
  function Frames(periods: nat, size: nat): nat {
    if periods == 0 then 0 else Frames(periods - 1, size) + size
  }

  /** An effect that, offered at least `frames` frames and some room, produces something. */
  ghost predicate Productive<T(!new)>(effect: Effect<T>, frames: nat) {
    forall n: nat, offered: seq<T>, room: nat ::
      |offered| >= frames && room > 0 ==> |effect(n, offered, room).1| > 0
  }

  function Sum(counts: seq<nat>): nat {
    if counts == [] then 0 else counts[0] + Sum(counts[1..])
  }

  /** What successive requests deliver when the first starts at `start`. */
  function Deliveries<T>(pcm: nat -> T, start: nat, requests: seq<nat>): seq<T>
    decreases requests
  {
    if requests == [] then []
    else Slice(pcm, start, requests[0]) + Deliveries(pcm, start + requests[0], requests[1..])
  }

  /** How the requests split the capture does not matter. */
  lemma {:induction false} SplitDoesNotMatter<T>(pcm: nat -> T, start: nat, requests: seq<nat>)
    ensures Deliveries(pcm, start, requests) == Slice(pcm, start, Sum(requests))
    decreases requests
  {
    if requests == [] {
    } else {
      SplitDoesNotMatter(pcm, start + requests[0], requests[1..]);
    }
  }

  // ---------------------------------------------------------------- process_frames, on sequences

  /** process() calls made, frames kept for the next one, position of the next frame of the capture,
      and frames written by the current process_frames call. */
  datatype Stage<T> = Stage(calls: nat, kept: seq<T>, next: nat, written: seq<T>)

  function Missing<T>(kept: seq<T>, frames: nat): nat {
    if |kept| >= frames then 0 else frames - |kept|
  }

  /** What the effect is offered: the frames kept, made up to `frames` from the capture. */
  function Offered<T>(pcm: nat -> T, frames: nat, kept: seq<T>, next: nat): seq<T> {
    kept + Slice(pcm, next, Missing(kept, frames))
  }

  /** One pass, if reading does not fail. */
  function Pass<T(!new)>(effect: Effect<T>, pcm: nat -> T, frames: nat, s: Stage<T>): (r: Stage<T>)
    requires WellBehaved(effect) && |s.written| <= frames
    ensures |s.written| <= |r.written| <= frames
  {
    var offered := Offered(pcm, frames, s.kept, s.next);
    var (taken, made) := effect(s.calls, offered, frames - |s.written|);
    Stage(s.calls + 1, offered[taken..], s.next + Missing(s.kept, frames), s.written + made)
  }

  /** Up to n passes: none is made once all frames are written. */
  function Passes<T(!new)>(effect: Effect<T>, pcm: nat -> T, frames: nat, s: Stage<T>, n: nat): (r: Stage<T>)
    requires WellBehaved(effect) && |s.written| <= frames
    ensures |r.written| <= frames
  {
    if n == 0 then s
    else
      var t := Passes(effect, pcm, frames, s, n - 1);
      if |t.written| < frames then Pass(effect, pcm, frames, t) else t
  }

  /** After process() call number `call`, an effect that fills its room needs one call at most. */
  lemma {:induction false} FillingStops<T(!new)>(effect: Effect<T>, pcm: nat -> T, frames: nat, s: Stage<T>, n: nat, call: nat)
    requires WellBehaved(effect) && FillsRoom(effect, call) && |s.written| <= frames
    ensures var t := Passes(effect, pcm, frames, s, n);
      var last := if s.calls < call then call else s.calls;
      t.calls <= last + 1 && (t.calls > last ==> |t.written| == frames)
  {
    if n == 0 {
    } else {
      FillingStops(effect, pcm, frames, s, n - 1, call);
      var t := Passes(effect, pcm, frames, s, n - 1);
      assert |Offered(pcm, frames, t.kept, t.next)| >= frames;
    }
  }

  lemma FillingOnce<T(!new)>(effect: Effect<T>, pcm: nat -> T, frames: nat, s: Stage<T>, n: nat)
    requires WellBehaved(effect) && FillsRoom(effect, s.calls) && s.written == [] && 0 < frames && n > 0
    requires Passes(effect, pcm, frames, s, n).calls == s.calls + n
    ensures n == 1
    ensures Passes(effect, pcm, frames, s, n).written == effect(s.calls, Offered(pcm, frames, s.kept, s.next), frames).1
    ensures |Passes(effect, pcm, frames, s, n).written| == frames
  {
    FillingStops(effect, pcm, frames, s, n, s.calls);
    assert Passes(effect, pcm, frames, s, 0) == s;
    assert |Offered(pcm, frames, s.kept, s.next)| >= frames;
  }

  lemma MapConcat<T>(f: T -> T, a: seq<T>, b: seq<T>)
    ensures Map(f, a + b) == Map(f, a) + Map(f, b)
  {
  }

  /** What comes in, in order, is what was consumed followed by what is kept; and with an effect that
      works frame by frame, what was written is what was consumed, mapped. */
  ghost predicate MappedSoFar<T(!new)>(f: T -> T, pcm: nat -> T, s: Stage<T>, t: Stage<T>, used: seq<T>) {
    && s.next <= t.next
    && s.kept + Slice(pcm, s.next, t.next - s.next) == used + t.kept
    && t.written == s.written + Map(f, used)
  }

  lemma PassMaps<T(!new)>(effect: Effect<T>, f: T -> T, pcm: nat -> T, frames: nat, s: Stage<T>, t: Stage<T>, used: seq<T>)
    returns (more: seq<T>)
    requires WellBehaved(effect) && FrameWise(effect, f) && |t.written| <= frames && MappedSoFar(f, pcm, s, t, used)
    ensures MappedSoFar(f, pcm, s, Pass(effect, pcm, frames, t), more)
  {
    var offered := Offered(pcm, frames, t.kept, t.next);
    var (taken, made) := effect(t.calls, offered, frames - |t.written|);
    more := used + offered[..taken];
    SlicesJoin(pcm, s.next, t.next - s.next, Missing(t.kept, frames));
    TakeFront(used, offered, taken);
    assert (used + t.kept) + Slice(pcm, t.next, Missing(t.kept, frames)) == used + offered;
    assert (s.kept + Slice(pcm, s.next, t.next - s.next)) + Slice(pcm, t.next, Missing(t.kept, frames))
           == s.kept + (Slice(pcm, s.next, t.next - s.next) + Slice(pcm, t.next, Missing(t.kept, frames)));
    MapConcat(f, used, offered[..taken]);
  }

  lemma {:induction false} PassesMap<T(!new)>(effect: Effect<T>, f: T -> T, pcm: nat -> T, frames: nat, s: Stage<T>, n: nat)
    returns (used: seq<T>)
    requires WellBehaved(effect) && FrameWise(effect, f) && |s.written| <= frames
    ensures MappedSoFar(f, pcm, s, Passes(effect, pcm, frames, s, n), used)
  {
    if n == 0 {
      used := [];
    } else {
      used := PassesMap(effect, f, pcm, frames, s, n - 1);
      var t := Passes(effect, pcm, frames, s, n - 1);
      if |t.written| < frames {
        used := PassMaps(effect, f, pcm, frames, s, t, used);
      }
    }
  }

  /** Such effects exist: one that passes on as many frames as there is room for. */
  function PassOn<T>(): Effect<T> {
    (n: nat, offered: seq<T>, room: nat) =>
      var count := if |offered| <= room then |offered| else room;
      (count, offered[..count])
  }

  lemma PassOnWorks<T(!new)>(frames: nat, f: T -> T)
    requires forall x :: f(x) == x
    ensures WellBehaved(PassOn<T>()) && FillsRoom(PassOn<T>(), 0) && FrameWise(PassOn<T>(), f)
    ensures frames > 0 ==> Productive(PassOn<T>(), frames)
  {
  }

  predicate IsPass(k: int) {
    k >= 0
  }

  /** stages[k] is the stage reached from s by up to k passes. */
  ghost predicate Stages<T(!new)>(effect: Effect<T>, pcm: nat -> T, frames: nat, s: Stage<T>, stages: seq<Stage<T>>) {
    && WellBehaved(effect) && |s.written| <= frames
    && forall k {:trigger IsPass(k)} :: IsPass(k) && k < |stages| ==> stages[k] == Passes(effect, pcm, frames, s, k)
  }

  lemma StageOn<T(!new)>(effect: Effect<T>, pcm: nat -> T, frames: nat, s: Stage<T>, stages: seq<Stage<T>>, n: nat)
    requires Stages(effect, pcm, frames, s, stages) && n + 1 < |stages| && |stages[n].written| < frames
    ensures stages[n + 1] == Pass(effect, pcm, frames, stages[n])
  {
    assert IsPass(n) && IsPass(n + 1);
  }

  /** With a productive effect each of them writes something. */
  lemma {:induction false} PassesProduce<T(!new)>(effect: Effect<T>, pcm: nat -> T, frames: nat, s: Stage<T>, n: nat)
    requires WellBehaved(effect) && Productive(effect, frames) && |s.written| <= frames
    ensures |Passes(effect, pcm, frames, s, n).written| >= if |s.written| + n < frames then |s.written| + n else frames
  {
    if n == 0 {
    } else {
      PassesProduce(effect, pcm, frames, s, n - 1);
      var t := Passes(effect, pcm, frames, s, n - 1);
      assert |Offered(pcm, frames, t.kept, t.next)| >= frames;
    }
  }

  /** The state in which a process_frames call begins. */
  datatype Start<T> = Start(stage: Stage<T>, captured: seq<T>, consumed: seq<T>, produced: seq<T>, driverCalls: nat, gapless: bool)

  class CaptureStream<T(0,!new)> {
    const pcm: nat -> T
    const statusOf: nat -> int
    const periodSize: nat      // config.period_size
    const isOpen: bool         // pcm != NULL
    const buffer: array<T>
    var pcmPos: nat            // frames the driver has delivered
    var pcmReads: nat          // pcm_read calls so far
    var framesIn: nat
    var readStatus: int

    var procBuf: array<T>      // its Length is proc_buf_size
    var procFramesIn: nat
    var processCalls: nat
    ghost var captured: seq<T>   // frames read_frames has put into procBuf, in order
    ghost var consumed: seq<T>   // frames the effect has consumed, in order
    ghost var produced: seq<T>   // frames the effect has produced, in order
    ghost var gapless: bool      // no frames were lost by a failed read so far

    /** The state of the period buffer. */
    ghost predicate PeriodValid()
      reads this, buffer
    {
      && 0 < periodSize == buffer.Length
      && framesIn <= periodSize && framesIn <= pcmPos
      && (isOpen && framesIn > 0 ==> readStatus == 0)
      && NeverPositive(statusOf)
      && buffer[periodSize - framesIn..] == Slice(pcm, pcmPos - framesIn, framesIn)
    }

    /** Position in the capture of the next frame to hand out. */
    ghost function Next(): nat
      reads this
      requires framesIn <= pcmPos
    {
      pcmPos - framesIn
    }

    /** The frames in the preprocessing buffer. */
    ghost function Kept(): seq<T>
      reads this, procBuf
      requires procFramesIn <= procBuf.Length
    {
      procBuf[..procFramesIn]
    }

    /** Where an error r comes from: the last driver call made since number `since`, all those
        before it having succeeded, or the stream not being open. */
    ghost predicate Failure(since: nat, r: int)
      reads this
    {
      if isOpen then
        since < pcmReads && Succeed(statusOf, since, pcmReads - 1) && r == Status(statusOf, pcmReads - 1) < 0
      else r == -ENODEV
    }

    /** A failed read, before which the next frame was that at `start`, loses the frames from there on;
        the capture stays gapless exactly if there are none. */
    ghost predicate Lost(gaplessBefore: bool, start: nat)
      reads this
    {
      framesIn <= pcmPos && start <= Next() && (gapless <==> gaplessBefore && Next() == start)
    }

    /** The preprocessing buffer as a stage of process_frames. */
    ghost function Now(written: seq<T>): Stage<T>
      reads this, procBuf
      requires framesIn <= pcmPos && procFramesIn <= procBuf.Length
    {
      Stage(processCalls, procBuf[..procFramesIn], Next(), written)
    }

    /** The state of the preprocessing buffer: nothing is lost, duplicated or reordered, and until a
        failed read loses frames what was captured is the beginning of the driver's capture. */
    ghost predicate Valid()
      reads this, buffer, procBuf
    {
      && PeriodValid()
      && procBuf != buffer
      && procFramesIn <= procBuf.Length
      && captured == consumed + procBuf[..procFramesIn]
      && (gapless ==> captured == Slice(pcm, 0, Next()))
    }

    constructor (pcm: nat -> T, statusOf: nat -> int, periodSize: nat, isOpen: bool)
      requires periodSize > 0 && NeverPositive(statusOf)
      ensures Valid() && Next() == 0 && captured == [] && produced == [] && gapless && fresh(buffer) && fresh(procBuf)
      ensures this.pcm == pcm && this.statusOf == statusOf && this.periodSize == periodSize && this.isOpen == isOpen
    {
      this.pcm, this.statusOf, this.periodSize, this.isOpen := pcm, statusOf, periodSize, isOpen;
      buffer, procBuf := new T[periodSize], new T[0];
      pcmPos, pcmReads, framesIn, readStatus := 0, 0, 0, 0;
      procFramesIn, processCalls := 0, 0;
      captured, consumed, produced, gapless := [], [], [], true;
    }

    /** The driver call: on success it fills the period buffer with the next period. */
    method PcmRead() returns (status: int)
      requires buffer.Length == periodSize
      modifies this`pcmPos, this`pcmReads, buffer
      ensures status == Status(statusOf, old(pcmReads)) && pcmReads == old(pcmReads) + 1
      ensures status == 0 ==> pcmPos == old(pcmPos) + periodSize && buffer[..] == Slice(pcm, old(pcmPos), periodSize)
      ensures status != 0 ==> pcmPos == old(pcmPos)
    {
      status := Status(statusOf, pcmReads);
      pcmReads := pcmReads + 1;
      if status == 0 {
        var period := Slice(pcm, pcmPos, periodSize);
        forall i | 0 <= i < periodSize { buffer[i] := period[i]; }
        pcmPos := pcmPos + periodSize;
      }
    }

    /** get_next_buffer: `raw` is the offset in the period buffer, -1 standing for a null pointer.
        The driver is read only when the previous period is used up. */
    method GetNextBuffer(wanted: nat) returns (status: int, raw: int, count: nat)
      requires PeriodValid()
      modifies this`pcmPos, this`pcmReads, this`framesIn, this`readStatus, buffer
      ensures PeriodValid() && Next() == old(Next())
      ensures status == readStatus
              == if !isOpen then -ENODEV else if old(framesIn) == 0 then Status(statusOf, old(pcmReads)) else 0
      ensures pcmReads == if isOpen && old(framesIn) == 0 then old(pcmReads) + 1 else old(pcmReads)
      ensures raw >= 0 ==> count == (if wanted > framesIn then framesIn else wanted) && raw + count <= periodSize
                           && framesIn > 0 && buffer[raw..raw + count] == Slice(pcm, Next(), count)
      ensures raw < 0 <==> status != 0
      ensures raw < 0 ==> count == 0
      ensures framesIn == if old(framesIn) == 0 && raw >= 0 then periodSize else old(framesIn)
    {
      if !isOpen {
        readStatus := -ENODEV;
        return -ENODEV, -1, 0;
      }
      if framesIn == 0 {
        readStatus := PcmRead();
        if readStatus != 0 {
          return readStatus, -1, 0;
        }
        framesIn := periodSize;
        assert buffer[periodSize - framesIn..] == buffer[..];
      }
      count := if wanted > framesIn then framesIn else wanted;
      raw := periodSize - framesIn;
      SliceHead(pcm, Next(), framesIn, count);
      assert buffer[raw..raw + count] == buffer[raw..][..count];
      status := readStatus;
    }

    /** release_buffer */
    method ReleaseBuffer(count: nat)
      requires PeriodValid() && count <= framesIn
      modifies this`framesIn
      ensures PeriodValid() && framesIn == old(framesIn) - count && Next() == old(Next()) + count
    {
      ghost var left := buffer[periodSize - framesIn..];
      SliceTail(pcm, pcmPos - framesIn, framesIn, count);
      framesIn := framesIn - count;
      assert buffer[periodSize - framesIn..] == left[count..] == Slice(pcm, pcmPos - framesIn, framesIn);
    }

    /** The memcpy out of the period buffer. */
    method CopyOut(out: array<T>, at: nat, raw: nat, count: nat)
      requires out != buffer && at + count <= out.Length && raw + count <= buffer.Length
      modifies out
      ensures out[..] == old(out[..])[..at] + buffer[raw..raw + count] + old(out[..])[at + count..]
    {
      ghost var before, part := out[..], buffer[raw..raw + count];
      forall j | at <= j < at + count { out[j] := buffer[raw + j - at]; }
      assert buffer[raw..raw + count] == part;
      Spliced(before, out[..], at, part);
    }

    /** The output array `out`, which was `before`, after `written` frames of the capture from
        position `start` on were copied to `at`. */
    ghost predicate Written(out: seq<T>, before: seq<T>, at: nat, start: nat, written: nat) {
      && at + written <= |before|
      && out == before[..at] + Slice(pcm, start, written) + before[at + written..]
    }

    lemma NothingWritten(before: seq<T>, at: nat, start: nat)
      requires at <= |before|
      ensures Written(before, before, at, start, 0)
    {
    }

    lemma WrittenFront(out: seq<T>, before: seq<T>, at: nat, start: nat, written: nat)
      requires Written(out, before, at, start, written)
      ensures |out| == |before| && out[..at] == before[..at]
      ensures out[..at + written] == before[..at] + Slice(pcm, start, written)
    {
    }

    lemma ChunkAppends(before: seq<T>, sofar: seq<T>, at: nat, start: nat, written: nat, count: nat)
      requires Written(sofar, before, at, start, written) && at + written + count <= |before|
      ensures |sofar| == |before|
      ensures Written(sofar[..at + written] + Slice(pcm, start + written, count) + sofar[at + written + count..],
                      before, at, start, written + count)
    {
      assert sofar[..at + written] == before[..at] + Slice(pcm, start, written);
      assert sofar[at + written + count..] == before[at + written + count..];
      SlicesJoin(pcm, start, written, count);
    }

    /** One pass of the loop in read_frames, `written` of the frames having been copied before. */
    method ReadChunk(out: array<T>, at: nat, written: nat, wanted: nat, ghost start: nat, ghost before: seq<T>)
      returns (count: nat)
      requires PeriodValid() && out != buffer && 0 < wanted && at + written + wanted <= out.Length
      requires Written(out[..], before, at, start, written) && Next() == start + written
      modifies this`pcmPos, this`pcmReads, this`framesIn, this`readStatus, buffer, out
      ensures PeriodValid() && Next() == start + written + count && count <= wanted && old(pcmReads) <= pcmReads
      ensures Written(out[..], before, at, start, written + count)
      ensures readStatus == 0 ==> count > 0 && Succeed(statusOf, old(pcmReads), pcmReads)
      ensures readStatus == 0 ==> isOpen && pcmReads <= old(pcmReads) + 1 && (pcmReads > old(pcmReads) ==> old(framesIn) == 0)
                                  && count + framesIn == old(framesIn) + if pcmReads > old(pcmReads) then periodSize else 0
      ensures readStatus != 0 ==> count == 0 && FailedCall(old(pcmReads)) && framesIn == old(framesIn)
                                  && (isOpen ==> framesIn == 0)
    {
      var status, raw;
      status, raw, count := GetNextBuffer(wanted);
      if raw >= 0 {
        ChunkAppends(before, out[..], at, start, written, count);
        CopyOut(out, at + written, raw, count);
      }
      ReleaseBuffer(count);
    }

    /** The read just made failed: it was driver call number `n`, or the stream is not open. */
    ghost predicate FailedCall(n: nat)
      reads this
    {
      readStatus == (if isOpen then Status(statusOf, n) else -ENODEV) < 0 && (isOpen ==> pcmReads == n + 1)
    }

    /** In read_frames, which began at position `start` with `left` frames in the period buffer and
        driver call number `since` next: `written` frames have been handed out. */
    ghost predicate Reading(start: nat, since: nat, left: nat, written: nat)
      reads this, buffer
    {
      && PeriodValid() && since <= pcmReads && Next() == start + written && Succeed(statusOf, since, pcmReads)
      && written + framesIn == left + Frames(pcmReads - since, periodSize)
      && (pcmReads > since ==> framesIn < periodSize) && (!isOpen ==> written == 0)
    }

    /** One pass, with that account. */
    method ReadNext(out: array<T>, at: nat, written: nat, wanted: nat,
                    ghost start: nat, ghost since: nat, ghost left: nat, ghost before: seq<T>)
      returns (count: nat)
      requires out != buffer && 0 < wanted && at + written + wanted <= out.Length
      requires Reading(start, since, left, written) && Written(out[..], before, at, start, written)
      modifies this`pcmPos, this`pcmReads, this`framesIn, this`readStatus, buffer, out
      ensures PeriodValid() && Written(out[..], before, at, start, written + count) && count <= wanted
      ensures readStatus == 0 ==> count > 0 && Reading(start, since, left, written + count)
      ensures readStatus != 0 ==> count == 0 && Failure(since, readStatus) && since <= pcmReads && Next() == start + written
      ensures readStatus != 0 ==> if isOpen then framesIn == 0 && written == left + Frames(pcmReads - 1 - since, periodSize)
                                  else written == 0
    {
      count := ReadChunk(out, at, written, wanted, start, before);
    }

    /** read_frames: it fails exactly if the stream is not open or a driver call it makes fails.
        On success exactly the next `frames` frames of the capture end up at `at`, and no period was
        read that was not needed. On failure the frames left over and those of all the periods that
        were read have been copied, too, but the caller learns only the driver's status; so those
        are lost. */
    method ReadFrames(out: array<T>, at: nat, frames: nat) returns (r: int)
      requires PeriodValid() && out != buffer && at + frames <= out.Length
      modifies this`pcmPos, this`pcmReads, this`framesIn, this`readStatus, buffer, out
      ensures PeriodValid() && old(pcmReads) <= pcmReads
      ensures r >= 0 ==> r == frames && Succeed(statusOf, old(pcmReads), pcmReads)
      ensures r < 0 ==> r == readStatus && Failure(old(pcmReads), r)
      ensures !isOpen && frames > 0 ==> r == -ENODEV && Next() == old(Next())
      ensures r >= 0 ==> Next() == old(Next()) + frames
      ensures r >= 0 ==> frames + framesIn == old(framesIn) + Frames(pcmReads - old(pcmReads), periodSize)
      ensures r >= 0 && pcmReads > old(pcmReads) ==> framesIn < periodSize
      ensures r < 0 ==> old(Next()) <= Next() < old(Next()) + frames && (isOpen ==> framesIn == 0)
      ensures r < 0 && isOpen ==>
                Next() - old(Next()) == old(framesIn) + Frames(pcmReads - 1 - old(pcmReads), periodSize)
      ensures Written(out[..], old(out[..]), at, old(Next()), Next() - old(Next()))
    {
      ghost var before, start, since, left := out[..], Next(), pcmReads, framesIn;
      NothingWritten(before, at, start);
      r := ReadLoop(out, at, frames, start, since, left, before);
      assert Written(out[..], before, at, start, Next() - start);
    }

    /** The loop of read_frames. */
    method ReadLoop(out: array<T>, at: nat, frames: nat,
                    ghost start: nat, ghost since: nat, ghost left: nat, ghost before: seq<T>)
      returns (r: int)
      requires out != buffer && at + frames <= out.Length
      requires Reading(start, since, left, 0) && Written(out[..], before, at, start, 0)
      modifies this`pcmPos, this`pcmReads, this`framesIn, this`readStatus, buffer, out
      ensures PeriodValid() && since <= pcmReads && start <= Next() && Written(out[..], before, at, start, Next() - start)
      ensures r >= 0 ==> r == frames && Reading(start, since, left, frames)
      ensures r < 0 ==> r == readStatus && Failure(since, r) && Next() < start + frames
      ensures r < 0 ==> if isOpen then framesIn == 0 && Next() == start + left + Frames(pcmReads - 1 - since, periodSize)
                        else Next() == start
    {
      var written := 0;
      while written < frames
        invariant 0 <= written <= frames && Reading(start, since, left, written)
        invariant Written(out[..], before, at, start, written)
      {
        var count := ReadNext(out, at, written, frames - written, start, since, left, before);
        if readStatus != 0 {
          return readStatus;
        }
        written := written + count;
      }
      r := written;
    }

    /** One more read_frames request of a client that has `done` frames from position `start` on. */
    method ReadMore(out: array<T>, done: nat, frames: nat, ghost start: nat, ghost since: nat) returns (r: int)
      requires PeriodValid() && out != buffer && done + frames <= out.Length && out[..done] == Slice(pcm, start, done)
      requires Next() == start + done && since <= pcmReads && Succeed(statusOf, since, pcmReads)
      modifies this`pcmPos, this`pcmReads, this`framesIn, this`readStatus, buffer, out
      ensures PeriodValid() && since <= pcmReads
      ensures r >= 0 ==> r == frames && Next() == start + done + r && Succeed(statusOf, since, pcmReads)
                         && out[..done + r] == Slice(pcm, start, done + r)
      ensures r < 0 ==> Failure(since, r)
    {
      ghost var before := out[..];
      PrefixOf(out, done);
      r := ReadFrames(out, done, frames);
      if r >= 0 {
        WrittenFront(out[..], before, done, start + done, r);
        PrefixOf(out, done + r);
        SlicesJoin(pcm, start, done, r);
      }
    }

    /** A client that issues one read_frames request after the other and stops at the first error:
        however the requests split it, it gets the next frames of the capture, without gap or
        overlap, and it gets all of them unless the driver fails. */
    method ReadRequests(out: array<T>, requests: seq<nat>) returns (r: int)
      requires PeriodValid() && out != buffer && Sum(requests) <= out.Length
      modifies this`pcmPos, this`pcmReads, this`framesIn, this`readStatus, buffer, out
      ensures PeriodValid() && old(pcmReads) <= pcmReads
      ensures r >= 0 ==> r == Sum(requests) && Succeed(statusOf, old(pcmReads), pcmReads)
      ensures r >= 0 ==> out[..r] == Deliveries(pcm, old(Next()), requests) == Slice(pcm, old(Next()), r)
      ensures r < 0 ==> Failure(old(pcmReads), r)
    {
      r := 0;
      ghost var start, since := Next(), pcmReads;
      var k := 0;
      assert requests[0..] == requests;
      while k < |requests|
        invariant PeriodValid() && 0 <= k <= |requests| && since <= pcmReads
        invariant 0 <= r && r + Sum(requests[k..]) == Sum(requests) && Next() == start + r
        invariant Succeed(statusOf, since, pcmReads) && out[..r] == Slice(pcm, start, r)
      {
        assert requests[k..][1..] == requests[k + 1..];
        var got := ReadMore(out, r, requests[k], start, since);
        if got < 0 {
          return got;
        }
        r := r + got;
        k := k + 1;
      }
      SplitDoesNotMatter(pcm, start, requests);
    }

    /** realloc of proc_buf to `frames` frames, keeping its contents. */
    method GrowProcBuf(frames: nat)
      requires Valid() && procBuf.Length < frames
      modifies this`procBuf
      ensures Valid() && procBuf.Length == frames && fresh(procBuf)
      ensures procBuf[..procFramesIn] == old(procBuf[..procFramesIn])
    {
      var bigger := new T[frames];
      forall i | 0 <= i < procBuf.Length { bigger[i] := procBuf[i]; }
      assert bigger[..procFramesIn] == procBuf[..procFramesIn];
      procBuf := bigger;
    }

    /** The reload step of process_frames: read_frames appends behind the frames already there. */
    method Reload(frames: nat) returns (r: int)
      requires Valid()
      modifies this`pcmPos, this`pcmReads, this`framesIn, this`readStatus, this`procFramesIn
      modifies this`procBuf, this`captured, this`gapless, buffer, procBuf
      ensures Valid() && (procBuf == old(procBuf) || fresh(procBuf)) && old(pcmReads) <= pcmReads
      ensures r >= 0 ==> procBuf[..procFramesIn] == Offered(pcm, frames, old(procBuf[..procFramesIn]), old(Next()))
                         && Next() == old(Next()) + Missing(old(procBuf[..procFramesIn]), frames)
      ensures r >= 0 ==> gapless == old(gapless) && Succeed(statusOf, old(pcmReads), pcmReads)
      ensures r < 0 ==> Failure(old(pcmReads), r) && procBuf[..procFramesIn] == old(procBuf[..procFramesIn])
                        && old(procFramesIn) < frames && Lost(old(gapless), old(Next()))
      ensures old(captured) <= captured
    {
      if procFramesIn >= frames {
        return 0;
      }
      if procBuf.Length < frames {
        GrowProcBuf(frames);
      }
      r := Append(frames);
    }

    /** The read_frames call in process_frames. */
    method ReadBehind(frames: nat) returns (r: int)
      requires PeriodValid() && procBuf != buffer && procFramesIn < frames <= procBuf.Length
      modifies this`pcmPos, this`pcmReads, this`framesIn, this`readStatus, buffer, procBuf
      ensures PeriodValid() && old(pcmReads) <= pcmReads
      ensures procBuf[..procFramesIn] == old(procBuf[..procFramesIn])
      ensures r >= 0 ==> r == frames - procFramesIn && Next() == old(Next()) + r
                         && procBuf[..frames] == old(procBuf[..procFramesIn]) + Slice(pcm, old(Next()), r)
                         && Succeed(statusOf, old(pcmReads), pcmReads)
      ensures r < 0 ==> Failure(old(pcmReads), r) && old(Next()) <= Next()
    {
      ghost var before, start := procBuf[..], Next();
      PrefixOf(procBuf, procFramesIn);
      r := ReadFrames(procBuf, procFramesIn, frames - procFramesIn);
      WrittenFront(procBuf[..], before, procFramesIn, start, Next() - start);
      PrefixOf(procBuf, procFramesIn);
      PrefixOf(procBuf, frames);
    }

    method Append(frames: nat) returns (r: int)
      requires Valid() && procFramesIn < frames <= procBuf.Length
      modifies this`pcmPos, this`pcmReads, this`framesIn, this`readStatus, this`procFramesIn
      modifies this`captured, this`gapless, buffer, procBuf
      ensures Valid() && old(pcmReads) <= pcmReads
      ensures r >= 0 ==> r == frames - old(procFramesIn) && procFramesIn == frames && Next() == old(Next()) + r
                         && procBuf[..frames] == old(procBuf[..procFramesIn]) + Slice(pcm, old(Next()), r)
      ensures r >= 0 ==> gapless == old(gapless) && Succeed(statusOf, old(pcmReads), pcmReads)
      ensures r < 0 ==> Failure(old(pcmReads), r) && procBuf[..procFramesIn] == old(procBuf[..procFramesIn])
                        && procFramesIn == old(procFramesIn) && Lost(old(gapless), old(Next()))
      ensures old(captured) <= captured
    {
      ghost var kept, start := procBuf[..procFramesIn], Next();
      r := ReadBehind(frames);
      if r < 0 {
        gapless := gapless && Next() == start;
      } else {
        CaptureExtends(pcm, consumed, kept, start, r);
        procFramesIn := procFramesIn + r;
        captured := captured + Slice(pcm, start, r);
      }
    }

    /** The call into the effect: it reads the preprocessing buffer and fills the output. */
    method Process(out: array<T>, at: nat, room: nat, effect: Effect<T>) returns (taken: nat, count: nat)
      requires Valid() && WellBehaved(effect) && out != buffer && out != procBuf && at + room <= out.Length
      modifies this`processCalls, out
      ensures Valid() && processCalls == old(processCalls) + 1 && count <= room && taken <= procFramesIn
      ensures var (t, made) := effect(old(processCalls), procBuf[..procFramesIn], room);
        taken == t && count == |made| && out[..at + count] == old(out[..at]) + made
    {
      var offered := procBuf[..procFramesIn];
      var (t, made) := effect(processCalls, offered, room);
      processCalls := processCalls + 1;
      taken, count := t, |made|;
      forall i | 0 <= i < count { out[at + i] := made[i]; }
      assert out[..at + count] == old(out[..at]) + made && procBuf[..procFramesIn] == offered;
    }

    /** One process() call and the move of the frames left over to the front of proc_buf. */
    method ProcessOnce(out: array<T>, at: nat, room: nat, effect: Effect<T>) returns (count: nat)
      requires Valid() && WellBehaved(effect) && out != buffer && out != procBuf && at + room <= out.Length
      modifies this`procFramesIn, this`consumed, this`produced, this`processCalls, procBuf, out
      ensures Valid() && processCalls == old(processCalls) + 1 && count <= room
      ensures var (taken, made) := effect(old(processCalls), old(procBuf[..procFramesIn]), room);
        && count == |made| && procBuf[..procFramesIn] == old(procBuf[..procFramesIn])[taken..]
        && produced == old(produced) + made && out[..at + count] == old(out[..at]) + made
        && consumed == old(consumed) + old(procBuf[..procFramesIn])[..taken]
    {
      var taken;
      taken, count := Process(out, at, room, effect);
      produced := produced + out[at..at + count];
      assert procBuf[taken..procFramesIn] == procBuf[..procFramesIn][taken..];
      DropFront(taken);
    }

    /** The memcpy that moves the remaining frames to the front; the two ranges may overlap, and
        the intended effect is that of a move. */
    method DropFront(taken: nat)
      requires Valid() && taken <= procFramesIn
      modifies this`procFramesIn, this`consumed, procBuf
      ensures Valid() && procFramesIn == old(procFramesIn) - taken
      ensures procBuf[..procFramesIn] == old(procBuf[taken..procFramesIn])
      ensures consumed == old(consumed) + old(procBuf[..procFramesIn])[..taken]
    {
      ghost var offered := procBuf[..procFramesIn];
      RestOf(procBuf, taken, procFramesIn);
      TakeFront(consumed, offered, taken);
      MoveToFront(taken);
      consumed := consumed + offered[..taken];
    }

    method MoveToFront(taken: nat)
      requires PeriodValid() && procBuf != buffer && taken <= procFramesIn <= procBuf.Length
      modifies this`procFramesIn, procBuf
      ensures PeriodValid() && procFramesIn == old(procFramesIn) - taken
      ensures procBuf[..procFramesIn] == old(procBuf[taken..procFramesIn])
    {
      procFramesIn := procFramesIn - taken;
      forall i | 0 <= i < procFramesIn { procBuf[i] := procBuf[i + taken]; }
    }

    ghost function Here(): Start<T>
      reads this, procBuf
      requires framesIn <= pcmPos && procFramesIn <= procBuf.Length
    {
      Start(Now([]), captured, consumed, produced, pcmReads, gapless)
    }

    /** The process_frames call that began in state `s` has reached stage `t`, no read having failed. */
    ghost predicate Passed(frames: nat, s: Start<T>, t: Stage<T>, out: array<T>)
      reads this, procBuf, out
    {
      && framesIn <= pcmPos && procFramesIn <= procBuf.Length && |t.written| <= frames <= out.Length
      && Now(out[..|t.written|]) == t && produced == s.produced + t.written
      && s.captured <= captured && s.consumed <= consumed
      && s.driverCalls <= pcmReads && Succeed(statusOf, s.driverCalls, pcmReads) && gapless == s.gapless
    }

    /** It has been ended in stage `t` by the error r of a read it needed; the frames kept and those
        written are as they were. */
    ghost predicate FailedIn(frames: nat, s: Start<T>, t: Stage<T>, out: array<T>, r: int)
      reads this, procBuf, out
    {
      && procFramesIn <= procBuf.Length && |t.written| < frames <= out.Length && |t.kept| < frames
      && processCalls == t.calls && procBuf[..procFramesIn] == t.kept && out[..|t.written|] == t.written
      && s.captured <= captured && s.consumed <= consumed && produced == s.produced + t.written
      && Failure(s.driverCalls, r) && Lost(s.gapless, t.next)
    }

    lemma NonePassed(frames: nat, out: array<T>)
      requires Valid() && frames <= out.Length
      ensures Passed(frames, Here(), Now([]), out)
    {
    }

    /** In the middle of a pass that began in stage `t`: what the effect will be offered is buffered. */
    ghost predicate Loaded(frames: nat, s: Start<T>, t: Stage<T>, out: array<T>)
      reads this, procBuf, out
    {
      && framesIn <= pcmPos && procFramesIn <= procBuf.Length && |t.written| <= frames <= out.Length
      && procBuf[..procFramesIn] == Offered(pcm, frames, t.kept, t.next) && Next() == t.next + Missing(t.kept, frames)
      && processCalls == t.calls && out[..|t.written|] == t.written && produced == s.produced + t.written
      && s.captured <= captured && s.consumed <= consumed
      && s.driverCalls <= pcmReads && Succeed(statusOf, s.driverCalls, pcmReads) && gapless == s.gapless
    }

    /** The first half of a pass. */
    method LoadPass(ghost out: array<T>, frames: nat, ghost s: Start<T>, ghost t: Stage<T>) returns (got: int)
      requires Valid() && out != buffer && out != procBuf && |t.written| < frames && Passed(frames, s, t, out)
      modifies this`pcmPos, this`pcmReads, this`framesIn, this`readStatus, this`procFramesIn
      modifies this`procBuf, this`captured, this`gapless, buffer, procBuf
      ensures Valid() && (procBuf == old(procBuf) || fresh(procBuf))
      ensures if got >= 0 then Loaded(frames, s, t, out) else FailedIn(frames, s, t, out, got)
    {
      got := Reload(frames);
    }

    /** The second half. */
    method ProcessLoaded(out: array<T>, at: nat, frames: nat, effect: Effect<T>, ghost s: Start<T>, ghost t: Stage<T>)
      returns (count: nat)
      requires Valid() && WellBehaved(effect) && out != buffer && out != procBuf
      requires at == |t.written| < frames && Loaded(frames, s, t, out)
      modifies this`procFramesIn, this`consumed, this`produced, this`processCalls, procBuf, out
      ensures Valid() && at + count == |Pass(effect, pcm, frames, t).written|
      ensures Passed(frames, s, Pass(effect, pcm, frames, t), out)
    {
      count := ProcessOnce(out, at, frames - at, effect);
    }

    /** One more pass. */
    method OnePass(out: array<T>, at: nat, frames: nat, effect: Effect<T>, ghost s: Start<T>, ghost t: Stage<T>)
      returns (got: int, count: nat)
      requires Valid() && out != buffer && out != procBuf && WellBehaved(effect)
      requires at == |t.written| < frames && Passed(frames, s, t, out)
      modifies this, buffer, procBuf, out
      ensures Valid() && (procBuf == old(procBuf) || fresh(procBuf))
      ensures got >= 0 ==> at + count == |Pass(effect, pcm, frames, t).written|
                           && Passed(frames, s, Pass(effect, pcm, frames, t), out)
      ensures got < 0 ==> FailedIn(frames, s, t, out, got)
    {
      count := 0;
      got := LoadPass(out, frames, s, t);
      if got >= 0 {
        count := ProcessLoaded(out, at, frames, effect, s, t);
      }
    }

    /** The loop of process_frames, on given stages. */
    method ProcessLoop(out: array<T>, frames: nat, effect: Effect<T>, limit: nat,
                       ghost s: Start<T>, ghost stages: seq<Stage<T>>)
      returns (done: bool, r: int, ghost n: nat)
      requires Valid() && WellBehaved(effect) && out != buffer && out != procBuf && |stages| == limit + 1
      requires Stages(effect, pcm, frames, s.stage, stages) && stages[0].written == []
      requires stages[0].calls == s.stage.calls && Passed(frames, s, stages[0], out)
      modifies this, buffer, procBuf, out
      ensures Valid() && (procBuf == old(procBuf) || fresh(procBuf)) && n <= limit && stages[n].calls == s.stage.calls + n
      ensures if done then r == frames || r < 0 else 0 <= r < frames && n == limit
      ensures if r >= 0 then |stages[n].written| == r && Passed(frames, s, stages[n], out)
              else FailedIn(frames, s, stages[n], out, r)
    {
      var written, calls := 0, 0;
      n := 0;
      while written < frames
        invariant Valid() && (procBuf == old(procBuf) || fresh(procBuf)) && out != procBuf
        invariant n == calls <= limit && stages[n].calls == s.stage.calls + n && 0 <= written == |stages[n].written| <= frames
        invariant Passed(frames, s, stages[n], out)
        decreases limit - calls
      {
        if calls == limit {
          return false, written, n;
        }
        StageOn(effect, pcm, frames, s.stage, stages, n);
        var got, count := OnePass(out, written, frames, effect, s, stages[n]);
        if got < 0 {
          return true, got, n;
        }
        calls, n := calls + 1, n + 1;
        written := written + count;
      }
      return true, written, n;
    }

    /** process_frames, followed for up to `limit` process() calls; `n` of them have been made, and
        they are the passes on sequences above. `done` says whether it has returned by then: with
        exactly the requested number of frames as soon as they are complete, or with the error of a
        read that was needed and failed. */
    method ProcessFrames(out: array<T>, frames: nat, effect: Effect<T>, limit: nat)
      returns (done: bool, r: int, ghost n: nat)
      requires Valid() && WellBehaved(effect) && out != buffer && out != procBuf && frames <= out.Length
      modifies this, buffer, procBuf, out
      ensures Valid() && (procBuf == old(procBuf) || fresh(procBuf)) && n <= limit
      ensures if done then r == frames || r < 0 else 0 <= r < frames && n == limit
      ensures
        var t := Passes(effect, pcm, frames, old(Now([])), n);
        && t.calls == old(processCalls) + n
        && if r >= 0 then |t.written| == r && Passed(frames, old(Here()), t, out) else FailedIn(frames, old(Here()), t, out, r)
      // once the effect fills the room it is given, one more call is enough
      ensures forall call: nat :: FillsRoom(effect, call) ==>
                processCalls <= (if old(processCalls) < call then call else old(processCalls)) + 1
      // if it does so from the start, its only call is given room for all frames and makes them all
      ensures frames > 0 && limit > 0 && FillsRoom(effect, old(processCalls)) && r >= 0 ==>
                && r == frames && processCalls == old(processCalls) + 1
                && out[..frames] == effect(old(processCalls), old(Kept()) + Slice(pcm, old(Next()), Missing(old(Kept()), frames)), frames).1
    {
      ghost var s := Now([]);
      ghost var stages := seq(limit + 1, k requires 0 <= k <= limit => Passes(effect, pcm, frames, s, k));
      NonePassed(frames, out);
      done, r, n := ProcessLoop(out, frames, effect, limit, Here(), stages);
      assert IsPass(n);
      forall call: nat | FillsRoom(effect, call) ensures processCalls <= (if s.calls < call then call else s.calls) + 1 {
        FillingStops(effect, pcm, frames, s, n, call);
      }
      if frames > 0 && limit > 0 && FillsRoom(effect, s.calls) && r >= 0 {
        FillingOnce(effect, pcm, frames, s, n);
      }
    }

    /** With `kept` in the preprocessing buffer and the capture at `next`, these frames have been written
        since: the next ones of what was kept and captured since, mapped; and the rest is kept. */
    ghost predicate Mapped(f: T -> T, kept: seq<T>, next: nat, written: seq<T>)
      reads this, procBuf
    {
      && framesIn <= pcmPos && next <= Next() && procFramesIn <= procBuf.Length
      && var stream := kept + Slice(pcm, next, Next() - next);
         |written| <= |stream| && written == Map(f, stream[..|written|]) && Kept() == stream[|written|..]
    }

    /** The same for a gapless capture, of which `before` has been consumed. */
    ghost predicate MappedCapture(f: T -> T, before: seq<T>, written: seq<T>)
      reads this
    {
      written == Map(f, Slice(pcm, |before|, |written|)) && consumed == before + Slice(pcm, |before|, |written|)
    }

    /** process_frames with an effect that works frame by frame: the frames written are the next ones of
        what was kept before and captured since, mapped, however many the effect takes at a time;
        the rest is kept. Unless frames were lost, they are the next ones of the capture. */
    method ProcessFrameWise(out: array<T>, frames: nat, effect: Effect<T>, limit: nat, ghost f: T -> T)
      returns (done: bool, r: int)
      requires Valid() && WellBehaved(effect) && out != buffer && out != procBuf && frames <= out.Length
      requires FrameWise(effect, f)
      modifies this, buffer, procBuf, out
      ensures Valid() && r <= frames && (done && r >= 0 ==> r == frames)
      ensures r >= 0 ==> Mapped(f, old(Kept()), old(Next()), out[..r]) && gapless == old(gapless)
      ensures r >= 0 && gapless ==> MappedCapture(f, old(consumed), out[..r])
    {
      ghost var s, before := Now([]), consumed;
      ghost var n;
      CapturedSoFar();
      done, r, n := ProcessFrames(out, frames, effect, limit);
      if r >= 0 {
        ghost var t := Passes(effect, pcm, frames, s, n);
        ghost var used := PassesMap(effect, f, pcm, frames, s, n);
        assert Now(out[..r]) == t;
        UsedIsMapped(f, s, t, used);
        if gapless { UsedIsCaptured(f, before, s, t, used); }
      }
    }

    lemma CapturedSoFar()
      requires Valid()
      ensures gapless ==> consumed + Kept() == Slice(pcm, 0, Next())
    {
    }

    lemma UsedIsMapped(f: T -> T, s: Stage<T>, t: Stage<T>, used: seq<T>)
      requires Valid() && s.written == [] && MappedSoFar(f, pcm, s, t, used) && Now(t.written) == t
      ensures Mapped(f, s.kept, s.next, t.written)
    {
      var stream := s.kept + Slice(pcm, s.next, t.next - s.next);
      assert stream[..|used|] == used && stream[|used|..] == t.kept;
      assert t.written == Map(f, used);
    }

    lemma UsedIsCaptured(f: T -> T, before: seq<T>, s: Stage<T>, t: Stage<T>, used: seq<T>)
      requires Valid() && gapless && s.written == [] && MappedSoFar(f, pcm, s, t, used) && Now(t.written) == t
      requires before + s.kept == Slice(pcm, 0, s.next)
      ensures MappedCapture(f, before, t.written)
    {
      var stream := s.kept + Slice(pcm, s.next, t.next - s.next);
      assert t.written == Map(f, used);
      SlicesJoin(pcm, 0, s.next, t.next - s.next);
      assert before + stream == Slice(pcm, 0, t.next);
      assert before + stream == (before + used) + t.kept;
      assert consumed + t.kept == Slice(pcm, 0, t.next);
      SameFront(consumed, before + used, t.kept);
      SliceTail(pcm, 0, t.next, |before|);
      SliceHead(pcm, |before|, t.next - |before|, |used|);
      assert used == Slice(pcm, 0, t.next)[|before|..][..|used|];
    }

    /** With a productive effect `frames` process() calls are enough for process_frames to return, and
        with all the frames asked for unless a read fails. */
    method ProcessProductive(out: array<T>, frames: nat, effect: Effect<T>, limit: nat) returns (r: int, ghost n: nat)
      requires Valid() && WellBehaved(effect) && out != buffer && out != procBuf && frames <= out.Length
      requires Productive(effect, frames) && limit >= frames
      modifies this, buffer, procBuf, out
      ensures Valid() && n <= limit
      ensures if r >= 0 then r == frames && out[..frames] == Passes(effect, pcm, frames, old(Now([])), n).written
              else Failure(old(pcmReads), r)
      ensures isOpen && (forall n: nat :: Status(statusOf, n) == 0) ==> r == frames
    {
      ghost var s := Now([]);
      var done;
      done, r, n := ProcessFrames(out, frames, effect, limit);
      PassesProduce(effect, pcm, frames, s, n);
    }
  }
}
