/** What becomes of each captured frame (common/hardware/camera/V4L2CameraDevice.cpp: inWorkerThread,
    previewThread), over whole runs of the camera's threads: it is shown or on its way, unless a
    picture is taken of it, the queue has no room for it, or it is discarded because the format or
    size has changed since it was recorded. */
module CameraFates {
  import opened Options
  import opened CameraBuffers

  // ---------------------------------------------------------------- what a run has recorded

  /** What the worker put on record about the frame in a slot. */
  datatype Record = Record(serial: nat, format: int, width: int, height: int)

  /** The latest record made for a slot, read off the steps of the run. */
  function RecordOf(bufferCnt: nat, events: seq<Event>, slot: nat): Option<Record>
    requires bufferCnt <= NB_BUFFER
  {
    if events == [] then None
    else
      var before, e := events[..|events| - 1], events[|events| - 1];
      match Execute(bufferCnt, before)
      case Impossible => None
      case Reached(d) =>
        if e.WorkerRecord? && d.worker.Dequeued? && d.worker.index == slot
        then Some(Record(d.worker.serial, e.format, e.width, e.height))
        else RecordOf(bufferCnt, before, slot)
  }

  /** The slots whose mV4l2buf entry counts: in use, or just recorded by the worker. */
  predicate Tracked(d: Device, i: nat) {
    InUse(d, i) || (d.worker.Recorded? && d.worker.index == i)
  }

  /** What the threads find in those entries is what the steps of the run recorded. */
  ghost predicate OnRecord(bufferCnt: nat, events: seq<Event>, d: Device)
    requires bufferCnt <= NB_BUFFER
  {
    forall i :: Tracked(d, i) ==> HasRecord(bufferCnt, events, d, i)
  }

  /** The frame the worker holds is the latest one. */
  predicate Latest(d: Device) {
    && d.nextSerial > 0
    && (d.worker.Dequeued? ==> d.worker.serial == d.nextSerial - 1)
    && (d.worker.Recorded? ==> SerialAt(d.meta, d.worker.index) == d.nextSerial - 1)
  }

  lemma LatestStep(d: Device, e: Event)
    requires Latest(d) && Enabled(d, e)
    ensures Latest(Apply(d, e))
  {
  }

  predicate HasRecord(bufferCnt: nat, events: seq<Event>, d: Device, slot: nat)
    requires bufferCnt <= NB_BUFFER
  {
    && slot < |d.meta|
    && RecordOf(bufferCnt, events, slot)
       == Some(Record(d.meta[slot].serial, d.meta[slot].format, d.meta[slot].width, d.meta[slot].height))
  }

  lemma ExecuteOn(bufferCnt: nat, events: seq<Event>, e: Event)
    requires bufferCnt <= NB_BUFFER && Execute(bufferCnt, events).Reached? && Enabled(Execute(bufferCnt, events).device, e)
    ensures Execute(bufferCnt, events + [e]) == Reached(Apply(Execute(bufferCnt, events).device, e))
  {
    assert (events + [e])[..|events|] == events;
  }

  lemma RecordOn(bufferCnt: nat, events: seq<Event>, e: Event, slot: nat)
    requires bufferCnt <= NB_BUFFER && Execute(bufferCnt, events).Reached?
    ensures var d := Execute(bufferCnt, events).device;
      RecordOf(bufferCnt, events + [e], slot)
      == if e.WorkerRecord? && d.worker.Dequeued? && d.worker.index == slot
         then Some(Record(d.worker.serial, e.format, e.width, e.height)) else RecordOf(bufferCnt, events, slot)
  {
    assert (events + [e])[..|events|] == events;
  }

  /** A slot keeps its record while it counts. */
  lemma SlotOnRecord(bufferCnt: nat, events: seq<Event>, d: Device, e: Event, i: nat)
    requires bufferCnt <= NB_BUFFER && Execute(bufferCnt, events) == Reached(d)
    requires Inv(d) && Enabled(d, e) && Tracked(d, i) && HasRecord(bufferCnt, events, d, i)
    ensures HasRecord(bufferCnt, events + [e], Apply(d, e), i)
  {
    RecordOn(bufferCnt, events, e, i);
    OneOwner(d, i);
    if InUse(d, i) {
      StepLeavesInUseAlone(d, e, i);
    }
  }

  lemma RecordingOnRecord(bufferCnt: nat, events: seq<Event>, d: Device, e: Event)
    requires bufferCnt <= NB_BUFFER && Execute(bufferCnt, events) == Reached(d)
    requires Enabled(d, e) && e.WorkerRecord?
    ensures HasRecord(bufferCnt, events + [e], Apply(d, e), d.worker.index)
  {
    RecordOn(bufferCnt, events, e, d.worker.index);
  }

  /** A slot begins to count only when the worker records it. */
  lemma TrackedComesFrom(d: Device, e: Event, i: nat)
    requires Enabled(d, e) && Tracked(Apply(d, e), i) && !Tracked(d, i)
    ensures e.WorkerRecord? && d.worker.index == i
  {
  }

  lemma OnRecordStep(bufferCnt: nat, events: seq<Event>, d: Device, e: Event)
    requires bufferCnt <= NB_BUFFER && Execute(bufferCnt, events) == Reached(d)
    requires Inv(d) && OnRecord(bufferCnt, events, d) && Enabled(d, e)
    ensures OnRecord(bufferCnt, events + [e], Apply(d, e))
  {
    forall i | Tracked(Apply(d, e), i) ensures HasRecord(bufferCnt, events + [e], Apply(d, e), i) {
      if Tracked(d, i) {
        SlotOnRecord(bufferCnt, events, d, e, i);
      } else {
        TrackedComesFrom(d, e, i);
        RecordingOnRecord(bufferCnt, events, d, e);
      }
    }
  }

  lemma RunOnRecordStep(bufferCnt: nat, before: seq<Event>, d: Device, e: Event)
    requires bufferCnt <= NB_BUFFER && Execute(bufferCnt, before) == Reached(d)
    requires Inv(d) && OnRecord(bufferCnt, before, d) && Latest(d) && Enabled(d, e)
    ensures Execute(bufferCnt, before + [e]) == Reached(Apply(d, e))
    ensures OnRecord(bufferCnt, before + [e], Apply(d, e)) && Latest(Apply(d, e))
  {
    ExecuteOn(bufferCnt, before, e);
    OnRecordStep(bufferCnt, before, d, e);
    LatestStep(d, e);
  }

  lemma {:induction false} RunOnRecord(bufferCnt: nat, events: seq<Event>)
    requires bufferCnt <= NB_BUFFER && Execute(bufferCnt, events).Reached?
    ensures OnRecord(bufferCnt, events, Execute(bufferCnt, events).device)
    ensures Inv(Execute(bufferCnt, events).device) && Latest(Execute(bufferCnt, events).device)
  {
    ReachableInv(bufferCnt, events);
    if events == [] {
    } else {
      var before, e := events[..|events| - 1], events[|events| - 1];
      RunOnRecord(bufferCnt, before);
      var d := Execute(bufferCnt, before).device;
      assert before + [e] == events;
      RunOnRecordStep(bufferCnt, before, d, e);
    }
  }

  // ---------------------------------------------------------------- fates

  /** The frame that step e, in state d after `events`, keeps from being shown: the latest one, if a
      picture is taken of it or four frames already wait, or the one being previewed, if format and
      size are not those on record. */
  function LostBy(bufferCnt: nat, events: seq<Event>, d: Device, e: Event): set<nat>
    requires bufferCnt <= NB_BUFFER
  {
    match e
    case WorkerSubmit(takingPicture) =>
      if d.nextSerial > 0 && (takingPicture || |d.queue| == 4) then {d.nextSerial - 1} else {}
    case PreviewShow(format, width, height) =>
      if d.preview.Idle? then {}
      else
        (match RecordOf(bufferCnt, events, d.preview.slot)
         case None => {}
         case Some(r) => if format == r.format && width == r.width && height == r.height then {} else {r.serial})
    case _ => {}
  }

  /** The frames of a run that are never shown. */
  function Lost(bufferCnt: nat, events: seq<Event>): set<nat>
    requires bufferCnt <= NB_BUFFER
  {
    if events == [] then {}
    else
      var before, e := events[..|events| - 1], events[|events| - 1];
      match Execute(bufferCnt, before)
      case Impossible => {}
      case Reached(d) => Lost(bufferCnt, before) + LostBy(bufferCnt, before, d, e)
  }

  /** Every frame captured so far, 1 to next - 1, is either in the pipeline, or lost. */
  ghost predicate Accounted(pipeline: seq<nat>, next: nat, lost: set<nat>) {
    && (forall n: nat :: n in pipeline || n in lost <==> 1 <= n < next)
    && (forall n :: n in pipeline ==> n !in lost)
  }

  /** Taking a frame out of the pipeline loses just that one. */
  lemma LoseOne(a: seq<nat>, x: nat, b: seq<nat>, next: nat, lost: set<nat>)
    requires Accounted(a + [x] + b, next, lost) && Ascending(a + [x] + b)
    ensures Accounted(a + b, next, lost + {x})
  {
    var whole := a + [x] + b;
    assert whole[|a|] == x;
    forall i | 0 <= i < |a + b| ensures (a + b)[i] != x {
      var j := if i < |a| then i else i + 1;
      assert whole[j] == (a + b)[i];
    }
    assert forall n :: n in whole <==> n in a + b || n == x;
  }

  lemma GainOne(a: seq<nat>, next: nat, lost: set<nat>)
    requires Accounted(a, next, lost) && next > 0
    ensures Accounted(a + [next], next + 1, lost)
  {
    assert forall n :: n in a + [next] <==> n in a || n == next;
  }

  /** What a submit leaves of the pipeline. */
  lemma SubmitPipeline(d: Device, e: Event)
    requires e.WorkerSubmit? && Enabled(d, e)
    ensures var x := SerialAt(d.meta, d.worker.index);
      && Pipeline(d) == Downstream(d) + [x] + []
      && Pipeline(Apply(d, e)) == if e.takingPicture || |d.queue| >= 4 then Downstream(d) + [] else Pipeline(d)
  {
    assert Serials(d.meta, d.queue + [d.worker.index]) == Serials(d.meta, d.queue) + [SerialAt(d.meta, d.worker.index)];
  }

  predicate SameShape(m: Meta, e: Event)
    requires e.PreviewShow?
  {
    e.format == m.format && e.width == m.width && e.height == m.height
  }

  /** What a look at the frame being previewed leaves of it. */
  lemma ShowPipeline(d: Device, e: Event)
    requires e.PreviewShow? && Enabled(d, e) && d.meta[d.preview.slot].index < d.bufferCnt
    ensures var m := d.meta[d.preview.slot];
      && Pipeline(d) == d.shown + [m.serial] + Upstream(d)
      && Pipeline(Apply(d, e)) == if SameShape(m, e) then Pipeline(d) else d.shown + Upstream(d)
  {
    assert Upstream(Apply(d, e)) == Upstream(d);
  }

  lemma SubmitAccounted(d: Device, e: Event, lost: set<nat>)
    requires e.WorkerSubmit? && Enabled(d, e) && Latest(d) && Ordered(d) && |d.queue| <= 4
    requires Accounted(Pipeline(d), d.nextSerial, lost)
    ensures Accounted(Pipeline(Apply(d, e)), Apply(d, e).nextSerial,
                      lost + if e.takingPicture || |d.queue| == 4 then {d.nextSerial - 1} else {})
  {
    SubmitPipeline(d, e);
    if e.takingPicture || |d.queue| == 4 {
      LoseOne(Downstream(d), d.nextSerial - 1, [], d.nextSerial, lost);
    }
  }

  lemma ShowAccounted(d: Device, e: Event, lost: set<nat>)
    requires e.PreviewShow? && Enabled(d, e) && d.meta[d.preview.slot].index < d.bufferCnt && Ordered(d)
    requires Accounted(Pipeline(d), d.nextSerial, lost)
    ensures var m := d.meta[d.preview.slot];
      Accounted(Pipeline(Apply(d, e)), Apply(d, e).nextSerial, lost + if SameShape(m, e) then {} else {m.serial})
  {
    ShowPipeline(d, e);
    var m := d.meta[d.preview.slot];
    if !SameShape(m, e) {
      LoseOne(d.shown, m.serial, Upstream(d), d.nextSerial, lost);
    }
  }

  /** What a look at the frame being previewed loses, by the record of the run. */
  lemma LostByShow(bufferCnt: nat, events: seq<Event>, d: Device, e: Event)
    requires bufferCnt <= NB_BUFFER && OnRecord(bufferCnt, events, d) && e.PreviewShow? && Enabled(d, e)
    ensures var m := d.meta[d.preview.slot];
      LostBy(bufferCnt, events, d, e) == if SameShape(m, e) then {} else {m.serial}
  {
    assert Tracked(d, d.preview.slot);
    assert HasRecord(bufferCnt, events, d, d.preview.slot);
  }

  lemma StepAccounted(bufferCnt: nat, events: seq<Event>, d: Device, e: Event, lost: set<nat>)
    requires bufferCnt <= NB_BUFFER && Inv(d) && OnRecord(bufferCnt, events, d) && Latest(d) && Enabled(d, e)
    requires Accounted(Pipeline(d), d.nextSerial, lost)
    ensures Accounted(Pipeline(Apply(d, e)), Apply(d, e).nextSerial, lost + LostBy(bufferCnt, events, d, e))
  {
    match e
    case WorkerDequeue(i) =>
      GainOne(Pipeline(d), d.nextSerial, lost);
      assert Pipeline(Apply(d, e)) == Pipeline(d) + [d.nextSerial];
    case WorkerRecord(_, _, _) => RecordKeepsPipeline(d, e);
    case WorkerSubmit(_) => SubmitAccounted(d, e, lost);
    case PreviewDequeue => PreviewDequeueKeepsPipeline(d);
    case PreviewShow(_, _, _) =>
      PreviewSlotMapped(d);
      LostByShow(bufferCnt, events, d, e);
      ShowAccounted(d, e, lost);
    case _ => assert Pipeline(Apply(d, e)) == Pipeline(d);
  }

  /** Over every run, each captured frame has exactly one fate: it is shown or on its way to be shown,
      or it is lost in one of the three ways of LostBy. */
  lemma {:induction false} EveryFrameHasOneFate(bufferCnt: nat, events: seq<Event>)
    requires bufferCnt <= NB_BUFFER && Execute(bufferCnt, events).Reached?
    ensures var d := Execute(bufferCnt, events).device;
      && (forall n: nat :: n in Pipeline(d) || n in Lost(bufferCnt, events) <==> 1 <= n < d.nextSerial)
      && (forall n :: n in Pipeline(d) ==> n !in Lost(bufferCnt, events))
  {
    if events == [] {
      assert Pipeline(Start(bufferCnt)) == [];
    } else {
      var before, e := events[..|events| - 1], events[|events| - 1];
      EveryFrameHasOneFate(bufferCnt, before);
      RunOnRecord(bufferCnt, before);
      StepAccounted(bufferCnt, before, Execute(bufferCnt, before).device, e, Lost(bufferCnt, before));
    }
  }

  // ---------------------------------------------------------------- runs that lose nothing

  /** No picture is taken, the queue has room whenever a frame is submitted, and format and size are
      those on record whenever a frame is about to be shown. */
  predicate Calm(bufferCnt: nat, events: seq<Event>)
    requires bufferCnt <= NB_BUFFER
  {
    events == []
    || (var before, e := events[..|events| - 1], events[|events| - 1];
        Calm(bufferCnt, before)
        && match Execute(bufferCnt, before)
           case Impossible => true
           case Reached(d) => LostBy(bufferCnt, before, d, e) == {})
  }

  lemma {:induction false} CalmLosesNothing(bufferCnt: nat, events: seq<Event>)
    requires bufferCnt <= NB_BUFFER && Calm(bufferCnt, events)
    ensures Lost(bufferCnt, events) == {}
  {
    if events == [] {
    } else {
      CalmLosesNothing(bufferCnt, events[..|events| - 1]);
    }
  }

  function UpTo(n: nat): seq<nat> {
    seq(n, k requires 0 <= k < n => k + 1)
  }

  lemma EndsAreIn(s: seq<nat>)
    ensures s != [] ==> s[0] in s && s[|s| - 1] in s
  {
  }

  lemma LargestIsLast(s: seq<nat>, n: nat)
    requires Ascending(s) && n in s && forall x :: x in s ==> x <= n
    ensures s[|s| - 1] == n
  {
    EndsAreIn(s);
    var k :| 0 <= k < |s| && s[k] == n;
  }

  lemma WithoutLargest(s: seq<nat>, n: nat)
    requires Ascending(s) && n in s && forall x :: x in s ==> x <= n
    ensures s == s[..|s| - 1] + [n] && Ascending(s[..|s| - 1])
    ensures forall x :: x in s[..|s| - 1] <==> x in s && x != n
  {
    LargestIsLast(s, n);
    var front := s[..|s| - 1];
    assert s == front + [n];
    forall i | 0 <= i < |front| ensures front[i] != n {
      assert s[i] < s[|s| - 1];
    }
  }

  lemma {:induction false} AscendingIsRange(s: seq<nat>, n: nat)
    requires Ascending(s) && forall x: nat :: x in s <==> 1 <= x <= n
    ensures s == UpTo(n)
    decreases n
  {
    EndsAreIn(s);
    if n == 0 {
    } else {
      assert n in s;
      WithoutLargest(s, n);
      var front := s[..|s| - 1];
      forall x: nat ensures x in front <==> 1 <= x <= n - 1 {
        assert x in front <==> x in s && x != n;
      }
      AscendingIsRange(front, n - 1);
      assert UpTo(n) == UpTo(n - 1) + [n];
    }
  }

  /** In a calm run all captured frames, in order and without exception, are shown or on their way. */
  lemma CalmRunShowsAll(bufferCnt: nat, events: seq<Event>)
    requires bufferCnt <= NB_BUFFER && Execute(bufferCnt, events).Reached? && Calm(bufferCnt, events)
    ensures var d := Execute(bufferCnt, events).device;
      d.nextSerial > 0 && Pipeline(d) == UpTo(d.nextSerial - 1)
  {
    var d := Execute(bufferCnt, events).device;
    RunOnRecord(bufferCnt, events);
    EveryFrameHasOneFate(bufferCnt, events);
    CalmLosesNothing(bufferCnt, events);
    forall x: nat ensures x in Pipeline(d) <==> 1 <= x <= d.nextSerial - 1 {
      assert x !in Lost(bufferCnt, events);
    }
    AscendingIsRange(Pipeline(d), d.nextSerial - 1);
  }

  // ---------------------------------------------------------------- the threads get on

  lemma PreviewSteps(d: Device, r: Record)
    requires d.preview.Idle? && d.queue != [] && d.queue[0] < |d.meta|
    requires d.meta[d.queue[0]] == Meta(d.queue[0], r.serial, r.format, r.width, r.height) && d.queue[0] < d.bufferCnt
    ensures var taken := d.(queue := d.queue[1..], preview := Holding(d.queue[0]));
      var show := PreviewShow(r.format, r.width, r.height);
      && Enabled(d, PreviewDequeue) && Apply(d, PreviewDequeue) == taken
      && Enabled(taken, show)
      && Apply(taken, show) == taken.(shown := d.shown + [r.serial], preview := Releasing(d.queue[0]))
  {
  }

  /** Whenever frames wait and the preview thread is idle, it can take the oldest one, show it with the
      format and size on record, and give its buffer back to the driver. */
  lemma PreviewRoundShows(bufferCnt: nat, events: seq<Event>)
    requires bufferCnt <= NB_BUFFER && Execute(bufferCnt, events).Reached?
    requires var d := Execute(bufferCnt, events).device; d.preview.Idle? && d.queue != []
    ensures var d := Execute(bufferCnt, events).device;
      var slot := d.queue[0];
      && RecordOf(bufferCnt, events, slot).Some?
      && var r := RecordOf(bufferCnt, events, slot).value;
         var after := Execute(bufferCnt, events + [PreviewDequeue] + [PreviewShow(r.format, r.width, r.height)] + [PreviewRelease]);
         && after.Reached?
         && after.device == d.(queue := d.queue[1..], kernel := d.kernel + {slot}, shown := d.shown + [r.serial])
  {
    var d := Execute(bufferCnt, events).device;
    var slot := d.queue[0];
    RunOnRecord(bufferCnt, events);
    assert InUse(d, slot) && Tracked(d, slot) && HasRecord(bufferCnt, events, d, slot) && Genuine(d, slot);
    OneOwner(d, slot);
    assert Owners(d)[slot] > 0;
    var r := RecordOf(bufferCnt, events, slot).value;
    var first, second := PreviewDequeue, PreviewShow(r.format, r.width, r.height);
    var taken := d.(queue := d.queue[1..], preview := Holding(slot));
    var showed := taken.(shown := d.shown + [r.serial], preview := Releasing(slot));
    PreviewSteps(d, r);
    ExecuteOn(bufferCnt, events, first);
    ExecuteOn(bufferCnt, events + [first], second);
    ReachableInv(bufferCnt, events + [first] + [second]);
    PreviewReleasePartitioned(showed);
    ExecuteOn(bufferCnt, events + [first] + [second], PreviewRelease);
  }

  /** The worker has dequeued buffer i and recorded its frame. */
  function AfterRecording(d: Device, i: nat, format: int, width: int, height: int): Device
    requires i < |d.meta| && i < |d.pixels|
  {
    d.(kernel := d.kernel - {i}, worker := Recorded(i), pixels := d.pixels[i := d.nextSerial],
       meta := d.meta[i := Meta(i, d.nextSerial, format, width, height)], nextSerial := d.nextSerial + 1)
  }

  lemma RecordingRound(bufferCnt: nat, events: seq<Event>, i: nat, format: int, width: int, height: int)
    requires bufferCnt <= NB_BUFFER && Execute(bufferCnt, events).Reached?
    requires var d := Execute(bufferCnt, events).device; d.worker.Waiting? && i in d.kernel
    ensures var d := Execute(bufferCnt, events).device;
      var more := events + [WorkerDequeue(i)] + [WorkerRecord(format, width, height)];
      && i < |d.pixels| && i < |d.meta|
      && Execute(bufferCnt, more) == Reached(AfterRecording(d, i, format, width, height))
      && RecordOf(bufferCnt, more, i) == Some(Record(d.nextSerial, format, width, height))
  {
    var d := Execute(bufferCnt, events).device;
    ReachableInv(bufferCnt, events);
    OneOwner(d, i);
    var first, second := WorkerDequeue(i), WorkerRecord(format, width, height);
    ExecuteOn(bufferCnt, events, first);
    ExecuteOn(bufferCnt, events + [first], second);
    RecordOn(bufferCnt, events + [first], second, i);
  }

  /** Whenever the worker waits, the driver holds a buffer and the queue has room, the worker can
      dequeue that buffer, record its frame and queue it behind the others. */
  lemma WorkerRoundQueues(bufferCnt: nat, events: seq<Event>, i: nat, format: int, width: int, height: int)
    requires bufferCnt <= NB_BUFFER && Execute(bufferCnt, events).Reached?
    requires var d := Execute(bufferCnt, events).device; d.worker.Waiting? && i in d.kernel && |d.queue| < 4
    ensures var d := Execute(bufferCnt, events).device;
      var more := events + [WorkerDequeue(i)] + [WorkerRecord(format, width, height)] + [WorkerSubmit(false)];
      && Execute(bufferCnt, more).Reached?
      && var after := Execute(bufferCnt, more).device;
         && after.worker.Waiting? && after.queue == d.queue + [i] && after.kernel == d.kernel - {i}
         && after.preview == d.preview && after.shown == d.shown && after.nextSerial == d.nextSerial + 1
         && RecordOf(bufferCnt, more, i) == Some(Record(d.nextSerial, format, width, height))
  {
    var d := Execute(bufferCnt, events).device;
    var first, second, third := WorkerDequeue(i), WorkerRecord(format, width, height), WorkerSubmit(false);
    RecordingRound(bufferCnt, events, i, format, width, height);
    ExecuteOn(bufferCnt, events + [first] + [second], third);
    RecordOn(bufferCnt, events + [first] + [second], third, i);
  }

  /** When four frames already wait, the worker gives the buffer straight back. */
  lemma WorkerRoundGivesBack(bufferCnt: nat, events: seq<Event>, i: nat, format: int, width: int, height: int)
    requires bufferCnt <= NB_BUFFER && Execute(bufferCnt, events).Reached?
    requires var d := Execute(bufferCnt, events).device; d.worker.Waiting? && i in d.kernel && |d.queue| == 4
    ensures var d := Execute(bufferCnt, events).device;
      var more := events + [WorkerDequeue(i)] + [WorkerRecord(format, width, height)] + [WorkerSubmit(false)] + [WorkerRelease];
      && Execute(bufferCnt, more).Reached?
      && var after := Execute(bufferCnt, more).device;
         after.worker.Waiting? && after.queue == d.queue && after.kernel == d.kernel && after.shown == d.shown
  {
    var d := Execute(bufferCnt, events).device;
    var more := events + [WorkerDequeue(i)] + [WorkerRecord(format, width, height)];
    RecordingRound(bufferCnt, events, i, format, width, height);
    var recorded := AfterRecording(d, i, format, width, height);
    ExecuteOn(bufferCnt, more, WorkerSubmit(false));
    var full := recorded.(worker := QueueFull(i));
    assert Apply(recorded, WorkerSubmit(false)) == full;
    ReachableInv(bufferCnt, more + [WorkerSubmit(false)]);
    WorkerReleasePartitioned(full);
    ExecuteOn(bufferCnt, more + [WorkerSubmit(false)], WorkerRelease);
  }
}
