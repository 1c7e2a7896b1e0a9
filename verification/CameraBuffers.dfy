/** Ownership of the camera's frame buffers within one streaming session
    (common/hardware/camera/V4L2CameraDevice.cpp: inWorkerThread, previewThread,
    releasePreviewFrame, getPreviewFrame, v4l2QueryBuf).

    The worker thread, the preview thread and the kernel driver interleave freely; each
    constructor of `Event` is one atomic step of one of them. The kernel side follows the
    memory mapped streaming discipline of the V4L2 API, section 3.2: VIDIOC_DQBUF hands out a
    filled buffer the driver holds, VIDIOC_QBUF is accepted for a buffer the driver does not
    hold, and the driver may write only buffers it holds. */
module CameraBuffers {
  import OsalQueue

  const NB_BUFFER := 5

  /** V4L2BUF_t: what the worker records about a captured frame. */
  datatype Meta = Meta(index: nat, serial: nat, format: int, width: int, height: int)

  /** Where the worker stands in inWorkerThread. */
  datatype Worker =
    | Waiting
    | Dequeued(index: nat, serial: nat)  // after getPreviewFrame
    | Recorded(index: nat)               // after the memcpy into mV4l2buf
    | QueueFull(index: nat)              // OSAL_Queue failed, about to release

  /** Where the preview thread stands in previewThread. */
  datatype Preview =
    | Idle
    | Holding(slot: nat)    // pbuf == &mV4l2buf[slot], nothing looked at yet
    | Releasing(slot: nat)  // about to call releasePreviewFrame(pbuf->index)

  datatype Device = Device(
    bufferCnt: nat,
    kernel: set<nat>,     // indices the driver holds
    worker: Worker,
    queue: seq<nat>,      // mQueueBuffer: slots of mV4l2buf, oldest first
    preview: Preview,
    picture: set<nat>,    // frames left to the picture thread by the mTakingPicture branch
    dropped: set<nat>,    // frames abandoned by the mMapMem.mem[...] == NULL branch
    meta: seq<Meta>,      // mV4l2buf
    pixels: seq<nat>,     // serial number of the frame whose pixels each buffer holds
    nextSerial: nat,
    shown: seq<nat>)      // serials passed to onNextFrameCB, in order

  datatype Event =
    | KernelWrite(index: nat, noise: nat)             // the driver scribbles into a buffer it holds
    | WorkerDequeueFails                              // getPreviewFrame returns an error
    | WorkerDequeue(index: nat)                       // getPreviewFrame returns this buffer
    | WorkerRecord(format: int, width: int, height: int)
    | WorkerSubmit(takingPicture: bool)               // OSAL_Queue, or leave to the picture thread
    | WorkerRelease                                   // releasePreviewFrame after "queue full"
    | PreviewDequeue                                  // OSAL_Dequeue
    | PreviewShow(format: int, width: int, height: int)  // checks against mVideoFormat, mFrameWidth, mFrameHeight
    | PreviewRelease                                  // releasePreviewFrame

  function Indices(bufferCnt: nat): (r: set<nat>)
    ensures forall i: nat :: i in r <==> i < bufferCnt
    ensures |r| == bufferCnt
  {
    if bufferCnt == 0 then {} else Indices(bufferCnt - 1) + {bufferCnt - 1}
  }

  const NO_META := Meta(0, 0, 0, 0, 0)

  /** v4l2QueryBuf queues every requested buffer to the driver. */
  function Start(bufferCnt: nat): Device
    requires bufferCnt <= NB_BUFFER
  {
    Device(bufferCnt, Indices(bufferCnt), Waiting, [], Idle, {}, {},
           seq(NB_BUFFER, _ => NO_META), seq(NB_BUFFER, _ => 0), 1, [])
  }

  predicate Enabled(d: Device, e: Event) {
    match e
    case KernelWrite(i, _) => i in d.kernel && i < |d.pixels|
    case WorkerDequeueFails => d.worker.Waiting?
    case WorkerDequeue(i) => d.worker.Waiting? && i in d.kernel && i < |d.pixels|
    case WorkerRecord(_, _, _) => d.worker.Dequeued? && d.worker.index < |d.meta|
    case WorkerSubmit(_) => d.worker.Recorded?
    case WorkerRelease => d.worker.QueueFull?
    case PreviewDequeue => d.preview.Idle?
    case PreviewShow(_, _, _) => d.preview.Holding? && d.preview.slot < |d.meta|
    case PreviewRelease => d.preview.Releasing? && d.preview.slot < |d.meta|
  }

  /** releasePreviewFrame: the driver takes the buffer, and refuses one it already holds or
      never had; the caller ignores the refusal. */
  function Qbuf(d: Device, index: nat): set<nat> {
    if QbufAccepted(d, index) then d.kernel + {index} else d.kernel
  }

  predicate QbufAccepted(d: Device, index: nat) {
    index < d.bufferCnt && index !in d.kernel
  }

  predicate QueueHasRoom(d: Device) {
    |d.queue| < OsalQueue.Capacity(NB_BUFFER)
  }

  function Apply(d: Device, e: Event): Device
    requires Enabled(d, e)
  {
    match e
    case KernelWrite(i, noise) => d.(pixels := d.pixels[i := noise])
    case WorkerDequeueFails => d
    case WorkerDequeue(i) =>
      d.(kernel := d.kernel - {i}, worker := Dequeued(i, d.nextSerial),
         pixels := d.pixels[i := d.nextSerial], nextSerial := d.nextSerial + 1)
    case WorkerRecord(format, width, height) =>
      var i := d.worker.index;
      d.(meta := d.meta[i := Meta(i, d.worker.serial, format, width, height)], worker := Recorded(i))
    case WorkerSubmit(takingPicture) =>
      var i := d.worker.index;
      if takingPicture then d.(picture := d.picture + {i}, worker := Waiting)
      else
        d.(queue := OsalQueue.Push(d.queue, OsalQueue.Capacity(NB_BUFFER), i),
           worker := if QueueHasRoom(d) then Waiting else QueueFull(i))
    case WorkerRelease => d.(kernel := Qbuf(d, d.worker.index), worker := Waiting)
    case PreviewDequeue =>
      d.(queue := OsalQueue.Take(d.queue), preview := if d.queue == [] then Idle else Holding(d.queue[0]))
    case PreviewShow(format, width, height) =>
      var m := d.meta[d.preview.slot];
      if m.index >= d.bufferCnt then d.(dropped := d.dropped + {d.preview.slot}, preview := Idle)
      else if format != m.format then d.(preview := Releasing(d.preview.slot))
      else if m.width != width || m.height != height then d.(preview := Releasing(d.preview.slot))
      else d.(shown := d.shown + [m.serial], preview := Releasing(d.preview.slot))
    case PreviewRelease => d.(kernel := Qbuf(d, d.meta[d.preview.slot].index), preview := Idle)
  }

  // ---------------------------------------------------------------- ownership

  function WorkerBag(w: Worker): multiset<nat> {
    if w.Waiting? then multiset{} else multiset{w.index}
  }

  function PreviewBag(p: Preview): multiset<nat> {
    if p.Idle? then multiset{} else multiset{p.slot}
  }

  /** Every buffer, once for each owner it has. */
  function Owners(d: Device): multiset<nat> {
    multiset(d.kernel) + WorkerBag(d.worker) + multiset(d.queue) + PreviewBag(d.preview)
    + multiset(d.picture) + multiset(d.dropped)
  }

  /** Slots whose mV4l2buf entry somebody may still read. */
  predicate InUse(d: Device, i: nat) {
    || i in d.queue
    || (!d.preview.Idle? && d.preview.slot == i)
  }

  /** Each requested buffer has exactly one owner, and nobody owns anything else. */
  ghost predicate Partitioned(d: Device) {
    && d.bufferCnt <= NB_BUFFER
    && Owners(d) == multiset(Indices(d.bufferCnt))
    && d.dropped == {}
    && |d.queue| <= OsalQueue.Capacity(NB_BUFFER)
  }

  /** A recorded slot describes its own buffer, whose pixels are those of the recorded frame. */
  predicate Genuine(d: Device, i: nat) {
    i < |d.meta| && i < |d.pixels| && d.meta[i].index == i && d.pixels[i] == d.meta[i].serial
  }

  ghost predicate Intact(d: Device) {
    && |d.meta| == |d.pixels| == NB_BUFFER
    && (forall i :: InUse(d, i) ==> Genuine(d, i))
    && (d.worker.Dequeued? ==> d.worker.index < NB_BUFFER && d.pixels[d.worker.index] == d.worker.serial)
    && (d.worker.Recorded? || d.worker.QueueFull? ==> Genuine(d, d.worker.index))
  }

  ghost predicate Ascending(s: seq<nat>) {
    forall i, j :: 0 <= i < j < |s| ==> s[i] < s[j]
  }

  function SerialAt(meta: seq<Meta>, slot: nat): nat {
    if slot < |meta| then meta[slot].serial else 0
  }

  function Serials(meta: seq<Meta>, slots: seq<nat>): seq<nat> {
    seq(|slots|, k requires 0 <= k < |slots| => SerialAt(meta, slots[k]))
  }

  /** Serials of the frames behind the one the preview thread holds, oldest first. */
  function Upstream(d: Device): seq<nat> {
    Serials(d.meta, d.queue)
    + (match d.worker
       case Waiting => []
       case Dequeued(_, serial) => [serial]
       case Recorded(i) => [SerialAt(d.meta, i)]
       case QueueFull(_) => [])
  }

  /** Serials of the frames already shown and of those that may still be, oldest first. */
  function Pipeline(d: Device): seq<nat> {
    d.shown + (if d.preview.Holding? then [SerialAt(d.meta, d.preview.slot)] else []) + Upstream(d)
  }

  ghost predicate Ordered(d: Device) {
    && Ascending(Pipeline(d))
    && forall n :: n in Pipeline(d) ==> n < d.nextSerial
  }

  ghost predicate Inv(d: Device) {
    Partitioned(d) && Intact(d) && Ordered(d)
  }

  // ---------------------------------------------------------------- each step keeps the invariant

  lemma StartInv(bufferCnt: nat)
    requires bufferCnt <= NB_BUFFER
    ensures Inv(Start(bufferCnt))
  {
  }

  /** What unique ownership means for the parties: their holdings are disjoint. */
  lemma OneOwner(d: Device, i: nat)
    requires Partitioned(d)
    ensures Owners(d)[i] == if i < d.bufferCnt then 1 else 0
    ensures i in d.kernel || i in d.picture ==> !InUse(d, i)
    ensures !d.worker.Waiting? && d.worker.index == i ==> !InUse(d, i) && i !in d.kernel && i !in d.picture
    ensures !d.preview.Idle? && d.preview.slot == i ==> i !in d.queue && i !in d.kernel
  {
    assert Owners(d)[i] == multiset(Indices(d.bufferCnt))[i];
  }

  /** The pointers waiting in the queue are pairwise distinct. */
  lemma QueueDistinct(d: Device)
    requires Partitioned(d)
    ensures OsalQueue.NoDuplicates(d.queue)
  {
    forall j, k | 0 <= j < k < |d.queue| ensures d.queue[j] != d.queue[k] {
      var x := d.queue[j];
      OneOwner(d, x);
      assert multiset(d.queue)[x] <= Owners(d)[x];
      assert d.queue == d.queue[..k] + d.queue[k..];
      assert d.queue[j] in d.queue[..k] && d.queue[k] in d.queue[k..];
    }
  }

  lemma WorkerDequeuePartitioned(d: Device, i: nat)
    requires Partitioned(d) && Enabled(d, WorkerDequeue(i))
    ensures Partitioned(Apply(d, WorkerDequeue(i)))
  {
    assert multiset(d.kernel) == multiset(d.kernel - {i}) + multiset{i};
    assert Owners(Apply(d, WorkerDequeue(i))) == Owners(d);
  }

  lemma WorkerQueuesPartitioned(d: Device)
    requires Partitioned(d) && Enabled(d, WorkerSubmit(false))
    ensures Partitioned(Apply(d, WorkerSubmit(false)))
  {
    var i := d.worker.index;
    if QueueHasRoom(d) {
      assert multiset(d.queue + [i]) == multiset(d.queue) + multiset{i};
    }
    assert Owners(Apply(d, WorkerSubmit(false))) == Owners(d);
  }

  lemma WorkerSubmitPartitioned(d: Device, takingPicture: bool)
    requires Partitioned(d) && Enabled(d, WorkerSubmit(takingPicture))
    ensures Partitioned(Apply(d, WorkerSubmit(takingPicture)))
  {
    if takingPicture {
      var i := d.worker.index;
      OneOwner(d, i);
      assert multiset(d.picture + {i}) == multiset(d.picture) + multiset{i};
      assert Owners(Apply(d, WorkerSubmit(true))) == Owners(d);
    } else {
      WorkerQueuesPartitioned(d);
    }
  }

  lemma WorkerReleasePartitioned(d: Device)
    requires Partitioned(d) && Enabled(d, WorkerRelease)
    ensures QbufAccepted(d, d.worker.index)
    ensures Partitioned(Apply(d, WorkerRelease))
  {
    var i := d.worker.index;
    OneOwner(d, i);
    assert Owners(d)[i] > 0;
    assert multiset(d.kernel + {i}) == multiset(d.kernel) + multiset{i};
    assert Owners(Apply(d, WorkerRelease)) == Owners(d);
  }

  lemma PreviewDequeuePartitioned(d: Device)
    requires Partitioned(d) && Enabled(d, PreviewDequeue)
    ensures Partitioned(Apply(d, PreviewDequeue))
  {
    if d.queue != [] {
      TakeBag(d.queue);
      assert Owners(Apply(d, PreviewDequeue)) == Owners(d);
    }
  }

  lemma PreviewReleasePartitioned(d: Device)
    requires Partitioned(d) && Intact(d) && Enabled(d, PreviewRelease)
    ensures QbufAccepted(d, d.meta[d.preview.slot].index)
    ensures Partitioned(Apply(d, PreviewRelease))
  {
    var i := d.preview.slot;
    PreviewSlotMapped(d);
    OneOwner(d, i);
    assert multiset(d.kernel + {i}) == multiset(d.kernel) + multiset{i};
    assert Owners(Apply(d, PreviewRelease)) == Owners(d);
  }

  /** The index the preview thread reads from its slot is that slot, a mapped buffer. */
  lemma PreviewSlotMapped(d: Device)
    requires Partitioned(d) && Intact(d) && !d.preview.Idle?
    ensures d.preview.slot < NB_BUFFER
    ensures d.meta[d.preview.slot].index == d.preview.slot < d.bufferCnt
  {
    var i := d.preview.slot;
    assert InUse(d, i);
    assert Owners(d)[i] > 0;
    OneOwner(d, i);
  }

  /** In particular the branch that abandons an unmapped buffer is never taken. */
  lemma PreviewShowPartitioned(d: Device, format: int, width: int, height: int)
    requires Partitioned(d) && Intact(d) && Enabled(d, PreviewShow(format, width, height))
    ensures Partitioned(Apply(d, PreviewShow(format, width, height)))
  {
    PreviewSlotMapped(d);
    var after := Apply(d, PreviewShow(format, width, height));
    assert after.preview == Releasing(d.preview.slot);
    assert PreviewBag(after.preview) == PreviewBag(d.preview);
  }

  lemma TakeBag(s: seq<nat>)
    requires s != []
    ensures multiset(s) == multiset{s[0]} + multiset(OsalQueue.Take(s))
  {
    assert s == [s[0]] + s[1..];
  }

  lemma StepPartitioned(d: Device, e: Event)
    requires Partitioned(d) && Intact(d) && Enabled(d, e)
    ensures Partitioned(Apply(d, e))
  {
    match e
    case WorkerDequeue(i) => WorkerDequeuePartitioned(d, i);
    case WorkerSubmit(takingPicture) => WorkerSubmitPartitioned(d, takingPicture);
    case WorkerRelease => WorkerReleasePartitioned(d);
    case PreviewDequeue => PreviewDequeuePartitioned(d);
    case PreviewShow(format, width, height) => PreviewShowPartitioned(d, format, width, height);
    case PreviewRelease => PreviewReleasePartitioned(d);
    case _ => assert Owners(Apply(d, e)) == Owners(d);
  }

  /** No step touches a slot, or the pixels behind it, while it is queued or being previewed. */
  lemma StepLeavesInUseAlone(d: Device, e: Event, i: nat)
    requires Partitioned(d) && Intact(d) && Enabled(d, e)
    requires InUse(d, i)
    ensures Apply(d, e).meta[i] == d.meta[i] && Apply(d, e).pixels[i] == d.pixels[i]
  {
    assert Genuine(d, i);
    OneOwner(d, i);
    if e.WorkerRecord? { OneOwner(d, d.worker.index); }
  }

  /** Only the worker puts slots in use, and only the one it has just recorded. */
  lemma InUseComesFrom(d: Device, e: Event, i: nat)
    requires Enabled(d, e) && InUse(Apply(d, e), i) && !InUse(d, i)
    ensures e.WorkerSubmit? && d.worker.index == i
  {
  }

  lemma StepIntact(d: Device, e: Event)
    requires Partitioned(d) && Intact(d) && Enabled(d, e)
    ensures Intact(Apply(d, e))
  {
    forall i | InUse(Apply(d, e), i) ensures Genuine(Apply(d, e), i) {
      SlotStaysGenuine(d, e, i);
    }
    if !d.worker.Waiting? { OneOwner(d, d.worker.index); }
  }

  lemma SlotStaysGenuine(d: Device, e: Event, i: nat)
    requires Partitioned(d) && Intact(d) && Enabled(d, e) && InUse(Apply(d, e), i)
    ensures Genuine(Apply(d, e), i)
  {
    if InUse(d, i) {
      StepLeavesInUseAlone(d, e, i);
      assert Genuine(d, i);
    } else {
      InUseComesFrom(d, e, i);
    }
  }

  // ---------------------------------------------------------------- frame order

  lemma AscendingWithout(a: seq<nat>, x: seq<nat>, b: seq<nat>)
    requires Ascending(a + x + b)
    ensures Ascending(a + b)
    ensures forall n :: n in a + b ==> n in a + x + b
  {
    var whole := a + x + b;
    forall i, j | 0 <= i < j < |a + b| ensures (a + b)[i] < (a + b)[j] {
      var i' := if i < |a| then i else i + |x|;
      var j' := if j < |a| then j else j + |x|;
      assert whole[i'] == (a + b)[i] && whole[j'] == (a + b)[j];
    }
  }

  lemma AscendingWith(a: seq<nat>, x: nat)
    requires Ascending(a) && forall n :: n in a ==> n < x
    ensures Ascending(a + [x]) && forall n :: n in a + [x] ==> n < x + 1
  {
    forall i | 0 <= i < |a| ensures (a + [x])[i] < x {
      assert a[i] in a;
    }
  }

  /** Waiting frames, after the preview thread and before the worker. */
  function Downstream(d: Device): seq<nat> {
    d.shown + (if d.preview.Holding? then [SerialAt(d.meta, d.preview.slot)] else []) + Serials(d.meta, d.queue)
  }

  lemma RecordKeepsPipeline(d: Device, e: Event)
    requires Partitioned(d) && Intact(d) && Enabled(d, e) && e.WorkerRecord?
    ensures Pipeline(Apply(d, e)) == Pipeline(d)
  {
    OneOwner(d, d.worker.index);
    assert Serials(Apply(d, e).meta, d.queue) == Serials(d.meta, d.queue);
  }

  lemma SubmitOrdered(d: Device, e: Event)
    requires Intact(d) && Ordered(d) && Enabled(d, e) && e.WorkerSubmit?
    ensures Ordered(Apply(d, e))
  {
    var after := Apply(d, e);
    var i := d.worker.index;
    assert Pipeline(d) == Downstream(d) + [SerialAt(d.meta, i)] + [];
    if !e.takingPicture && QueueHasRoom(d) {
      assert Serials(d.meta, d.queue + [i]) == Serials(d.meta, d.queue) + [SerialAt(d.meta, i)];
      assert Pipeline(after) == Pipeline(d);
    } else {
      AscendingWithout(Downstream(d), [SerialAt(d.meta, i)], []);
      assert Pipeline(after) == Downstream(d) + [];
    }
  }

  lemma PreviewDequeueKeepsPipeline(d: Device)
    requires Enabled(d, PreviewDequeue)
    ensures Pipeline(Apply(d, PreviewDequeue)) == Pipeline(d)
  {
    if d.queue != [] {
      assert d.queue == [d.queue[0]] + d.queue[1..];
      assert Serials(d.meta, d.queue) == [SerialAt(d.meta, d.queue[0])] + Serials(d.meta, d.queue[1..]);
    }
  }

  lemma PreviewShowOrdered(d: Device, e: Event)
    requires Ordered(d) && e.PreviewShow? && Enabled(d, e)
    ensures Ordered(Apply(d, e))
  {
    var after := Apply(d, e);
    var x := SerialAt(d.meta, d.preview.slot);
    assert Upstream(after) == Upstream(d);
    if after.shown == d.shown {
      AscendingWithout(d.shown, [x], Upstream(d));
      assert Pipeline(after) == d.shown + Upstream(d);
    } else {
      assert Pipeline(after) == Pipeline(d);
    }
  }

  lemma StepOrdered(d: Device, e: Event)
    requires Inv(d) && Enabled(d, e)
    ensures Ordered(Apply(d, e))
  {
    match e
    case WorkerRecord(_, _, _) => RecordKeepsPipeline(d, e);
    case WorkerDequeue(i) =>
      AscendingWith(Pipeline(d), d.nextSerial);
      assert Pipeline(Apply(d, e)) == Pipeline(d) + [d.nextSerial];
    case WorkerSubmit(_) => SubmitOrdered(d, e);
    case PreviewDequeue => PreviewDequeueKeepsPipeline(d);
    case PreviewShow(_, _, _) => PreviewShowOrdered(d, e);
    case _ => assert Pipeline(Apply(d, e)) == Pipeline(d);
  }

  lemma StepInv(d: Device, e: Event)
    requires Inv(d) && Enabled(d, e)
    ensures Inv(Apply(d, e)) && Apply(d, e).bufferCnt == d.bufferCnt
  {
    StepPartitioned(d, e);
    StepIntact(d, e);
    StepOrdered(d, e);
  }

  // ---------------------------------------------------------------- every run

  datatype Outcome = Impossible | Reached(device: Device)

  /** The state after a list of steps, or Impossible when some step was not enabled. */
  function Execute(bufferCnt: nat, events: seq<Event>): Outcome
    requires bufferCnt <= NB_BUFFER
  {
    if events == [] then Reached(Start(bufferCnt))
    else
      match Execute(bufferCnt, events[..|events| - 1])
      case Impossible => Impossible
      case Reached(d) =>
        var e := events[|events| - 1];
        if Enabled(d, e) then Reached(Apply(d, e)) else Impossible
  }

  /** The invariant holds in every state that any interleaving can reach. */
  lemma {:induction false} ReachableInv(bufferCnt: nat, events: seq<Event>)
    requires bufferCnt <= NB_BUFFER
    ensures Execute(bufferCnt, events).Reached? ==>
              Inv(Execute(bufferCnt, events).device) && Execute(bufferCnt, events).device.bufferCnt == bufferCnt
  {
    if events == [] {
      StartInv(bufferCnt);
    } else {
      ReachableInv(bufferCnt, events[..|events| - 1]);
      var before := Execute(bufferCnt, events[..|events| - 1]);
      var e := events[|events| - 1];
      if before.Reached? && Enabled(before.device, e) {
        StepInv(before.device, e);
      }
    }
  }

  /** Exactly one owner: in every reachable state each buffer index is in exactly one place. */
  lemma ExactlyOneOwner(bufferCnt: nat, events: seq<Event>, i: nat)
    requires bufferCnt <= NB_BUFFER && Execute(bufferCnt, events).Reached?
    ensures Owners(Execute(bufferCnt, events).device)[i] == if i < bufferCnt then 1 else 0
    ensures Execute(bufferCnt, events).device.dropped == {}
    ensures OsalQueue.NoDuplicates(Execute(bufferCnt, events).device.queue)
  {
    ReachableInv(bufferCnt, events);
    OneOwner(Execute(bufferCnt, events).device, i);
    QueueDistinct(Execute(bufferCnt, events).device);
  }

  /** Every VIDIOC_QBUF is accepted: no buffer is ever given back twice. */
  lemma EveryReleaseAccepted(bufferCnt: nat, events: seq<Event>)
    requires bufferCnt <= NB_BUFFER && Execute(bufferCnt, events).Reached?
    ensures var d := Execute(bufferCnt, events).device;
      && (d.worker.QueueFull? ==> QbufAccepted(d, d.worker.index))
      && (d.preview.Releasing? && d.preview.slot < |d.meta| ==> QbufAccepted(d, d.meta[d.preview.slot].index))
  {
    ReachableInv(bufferCnt, events);
    var d := Execute(bufferCnt, events).device;
    if d.worker.QueueFull? { WorkerReleasePartitioned(d); }
    if d.preview.Releasing? && d.preview.slot < |d.meta| { PreviewReleasePartitioned(d); }
  }

  /** The frames shown are in capture order, each at most once, and the slot the preview thread
      shows describes the very pixels the buffer holds at that moment. */
  lemma FramesShownInOrder(bufferCnt: nat, events: seq<Event>)
    requires bufferCnt <= NB_BUFFER && Execute(bufferCnt, events).Reached?
    ensures var d := Execute(bufferCnt, events).device;
      && Ascending(d.shown)
      && (d.preview.Holding? ==> Genuine(d, d.preview.slot))
  {
    ReachableInv(bufferCnt, events);
    var d := Execute(bufferCnt, events).device;
    assert forall k :: 0 <= k < |d.shown| ==> d.shown[k] == Pipeline(d)[k];
    if d.preview.Holding? { assert InUse(d, d.preview.slot); }
  }

  /** OSAL_Queue fails only if neither the driver, nor the preview thread, nor the picture
      thread owns a buffer, and only if all five buffers were granted. */
  lemma QueueFullMeansAllWaiting(bufferCnt: nat, events: seq<Event>)
    requires bufferCnt <= NB_BUFFER && Execute(bufferCnt, events).Reached?
    ensures var d := Execute(bufferCnt, events).device;
      d.worker.Recorded? && !QueueHasRoom(d) ==>
        bufferCnt == NB_BUFFER && d.kernel == {} && d.preview.Idle? && d.picture == {}
  {
    ReachableInv(bufferCnt, events);
    var d := Execute(bufferCnt, events).device;
    if d.worker.Recorded? && !QueueHasRoom(d) {
      assert |Owners(d)| == |d.kernel| + 1 + |d.queue| + |PreviewBag(d.preview)| + |d.picture| + |d.dropped|;
      assert |multiset(Indices(bufferCnt))| == bufferCnt;
    }
  }
}
