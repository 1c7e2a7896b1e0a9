/** The accelerometer driver of the sensors HAL (common/hardware/libsensors/AccelSensor.cpp),
    built without GSENSOR_XY_REVERT. It has one sensor, so its masks have one bit each and are
    modelled as booleans. */
module AccelSensor {
  import opened InputEventReader

  datatype SensorEvent = SensorEvent(x: real, y: real, z: real, timestamp: int)

  /** CONVERT_A_X, CONVERT_A_Y and CONVERT_A_Z depend on the build. */
  datatype Scale = Scale(x: real, y: real, z: real)

  const EV_SYN := 0
  const EV_ABS := 3
  const ABS_X := 0
  const ABS_Y := 1
  const ABS_Z := 2
  const ID_A := 0
  const RING_SIZE := 32

  function TimevalToNano(sec: int, usec: int): int {
    sec * 1000000000 + usec * 1000
  }

  // ---------------------------------------------------------------- what the driver should compute

  /** An input event together with whether the sensor was enabled when it was consumed. */
  datatype Consumed = Consumed(event: InputEvent, enabled: bool)

  /** The pending report and the events delivered so far. */
  datatype Decoded = Decoded(pending: bool, report: SensorEvent, delivered: seq<SensorEvent>)

  /** Axis events accumulate in the report; a synchronisation event stamps a pending report and
      delivers it if the sensor is enabled. */
  function DecodeOne(d: Decoded, scale: Scale, c: Consumed): Decoded {
    var e := c.event;
    if e.kind == EV_ABS then
      if e.code == ABS_X then d.(pending := true, report := d.report.(x := e.value as real * scale.x))
      else if e.code == ABS_Y then d.(pending := true, report := d.report.(y := e.value as real * scale.y))
      else if e.code == ABS_Z then d.(pending := true, report := d.report.(z := e.value as real * scale.z))
      else d
    else if e.kind == EV_SYN && d.pending then
      var report := d.report.(timestamp := TimevalToNano(e.sec, e.usec));
      Decoded(false, report, if c.enabled then d.delivered + [report] else d.delivered)
    else d
  }

  function Decode(initial: SensorEvent, scale: Scale, input: seq<Consumed>): Decoded {
    if input == [] then Decoded(false, initial, [])
    else DecodeOne(Decode(initial, scale, input[..|input| - 1]), scale, input[|input| - 1])
  }

  function EventsOf(input: seq<Consumed>): seq<InputEvent> {
    seq(|input|, i requires 0 <= i < |input| => input[i].event)
  }

  /** Consuming the oldest waiting event. */
  lemma ConsumeOne(initial: SensorEvent, scale: Scale, input: seq<Consumed>, c: Consumed, waiting: seq<InputEvent>)
    requires waiting != [] && waiting[0] == c.event
    ensures Decode(initial, scale, input + [c]) == DecodeOne(Decode(initial, scale, input), scale, c)
    ensures EventsOf(input + [c]) + waiting[1..] == EventsOf(input) + waiting
  {
    assert (input + [c])[..|input|] == input;
  }

  /** The last of these events delivers a report. */
  predicate EndsWithReport(initial: SensorEvent, scale: Scale, input: seq<Consumed>) {
    && input != []
    && |Decode(initial, scale, input[..|input| - 1]).delivered| < |Decode(initial, scale, input).delivered|
  }

  lemma OneMoreReports(initial: SensorEvent, scale: Scale, input: seq<Consumed>, c: Consumed)
    ensures EndsWithReport(initial, scale, input + [c])
            <==> |Decode(initial, scale, input).delivered| < |Decode(initial, scale, input + [c]).delivered|
  {
    assert (input + [c])[..|input|] == input;
  }

  lemma {:induction false} DeliveredGrows(initial: SensorEvent, scale: Scale, input: seq<Consumed>, more: seq<Consumed>)
    ensures Decode(initial, scale, input).delivered <= Decode(initial, scale, input + more).delivered
    decreases |more|
  {
    if more == [] {
      assert input + more == input;
    } else {
      DeliveredGrows(initial, scale, input, more[..|more| - 1]);
      assert (input + more)[..|input + more| - 1] == input + more[..|more| - 1];
    }
  }

  // ---------------------------------------------------------------- what the fold means

  predicate IsSync(c: Consumed) {
    c.event.kind == EV_SYN
  }

  predicate IsAxis(c: Consumed, code: int) {
    c.event.kind == EV_ABS && c.event.code == code && ABS_X <= code <= ABS_Z
  }

  function Component(r: SensorEvent, code: int): real {
    if code == ABS_X then r.x else if code == ABS_Y then r.y else r.z
  }

  function Factor(scale: Scale, code: int): real {
    if code == ABS_X then scale.x else if code == ABS_Y then scale.y else scale.z
  }

  /** An axis event has come in since the last synchronisation event. */
  ghost predicate Touched(input: seq<Consumed>) {
    exists j :: TouchedBy(input, j)
  }

  predicate TouchedBy(input: seq<Consumed>, j: int) {
    0 <= j < |input| && IsAxis(input[j], input[j].event.code) && forall m :: j < m < |input| ==> !IsSync(input[m])
  }

  /** A report is pending exactly if an axis event has come in since the last synchronisation. */
  lemma {:induction false} PendingIffTouched(initial: SensorEvent, scale: Scale, input: seq<Consumed>)
    ensures Decode(initial, scale, input).pending <==> Touched(input)
  {
    if input == [] {
    } else {
      var before, last := input[..|input| - 1], |input| - 1;
      PendingIffTouched(initial, scale, before);
      if IsAxis(input[last], input[last].event.code) {
        assert TouchedBy(input, last);
      } else if !IsSync(input[last]) {
        if j :| TouchedBy(before, j) { assert TouchedBy(input, j); }
        if j :| TouchedBy(input, j) { assert TouchedBy(before, j); }
      }
    }
  }

  /** Each axis of the pending report has the value of the latest event for it. */
  lemma {:induction false} LatestAxisEventCounts(initial: SensorEvent, scale: Scale, input: seq<Consumed>, code: int, j: nat)
    requires j < |input| && IsAxis(input[j], code) && forall m :: j < m < |input| ==> !IsAxis(input[m], code)
    ensures Component(Decode(initial, scale, input).report, code) == input[j].event.value as real * Factor(scale, code)
  {
    if j == |input| - 1 {
    } else {
      LatestAxisEventCounts(initial, scale, input[..|input| - 1], code, j);
    }
  }

  /** An axis of which no event has come keeps its initial value. */
  lemma {:induction false} UntouchedAxisKeeps(initial: SensorEvent, scale: Scale, input: seq<Consumed>, code: int)
    requires ABS_X <= code <= ABS_Z && forall m :: 0 <= m < |input| ==> !IsAxis(input[m], code)
    ensures Component(Decode(initial, scale, input).report, code) == Component(initial, code)
  {
    if input == [] {
    } else {
      UntouchedAxisKeeps(initial, scale, input[..|input| - 1], code);
    }
  }

  /** Seconds and microseconds can be read off a report's time. */
  lemma TimeSplits(sec: int, usec: int)
    requires 0 <= usec < 1000000
    ensures TimevalToNano(sec, usec) / 1000000000 == sec && TimevalToNano(sec, usec) % 1000000000 == usec * 1000
  {
  }

  /** What consuming one more event delivers: a report exactly if the event is a synchronisation, the
      sensor is enabled and an axis was touched since the previous synchronisation; it has that
      event's time and the latest value of each axis. */
  lemma DeliversExactlyAtSync(initial: SensorEvent, scale: Scale, input: seq<Consumed>, c: Consumed)
    ensures var (before, after) := (Decode(initial, scale, input), Decode(initial, scale, input + [c]));
      && (IsSync(c) && c.enabled && Touched(input) ==>
            && after.delivered == before.delivered + [after.report]
            && after.report.timestamp == TimevalToNano(c.event.sec, c.event.usec)
            && forall code, j :: 0 <= j < |input| && IsAxis(input[j], code) && (forall m :: j < m < |input| ==> !IsAxis(input[m], code))
                 ==> Component(after.report, code) == input[j].event.value as real * Factor(scale, code))
      && (!(IsSync(c) && c.enabled && Touched(input)) ==> after.delivered == before.delivered)
  {
    ConsumeOne(initial, scale, input, c, [c.event]);
    PendingIffTouched(initial, scale, input);
    forall code, j | 0 <= j < |input| && IsAxis(input[j], code) && (forall m :: j < m < |input| ==> !IsAxis(input[m], code))
      ensures Component(Decode(initial, scale, input).report, code) == input[j].event.value as real * Factor(scale, code)
    {
      LatestAxisEventCounts(initial, scale, input, code, j);
    }
  }

  // ---------------------------------------------------------------- the driver

  class Accelerometer {
    const reader: InputEventCircularReader  // mInputReader
    const scale: Scale
    var enabled: bool                       // mEnabled
    var pending: bool                       // mPendingMask
    var report: SensorEvent                 // mPendingEvents[Accelerometer]

    ghost const initial: SensorEvent
    ghost var arrived: seq<InputEvent>      // everything read from the device
    ghost var consumed: seq<Consumed>       // everything taken out of the ring
    ghost var delivered: seq<SensorEvent>   // everything readEvents has returned

    /** Over any run: what was delivered is the decoding of exactly the events consumed, and what
        arrived is what was consumed followed by what waits in the ring. */
    ghost predicate Valid()
      reads this, reader, reader.buffer
    {
      && reader.Valid()
      && reader.capacity == RING_SIZE
      && arrived == EventsOf(consumed) + reader.contents
      && Decode(initial, scale, consumed) == Decoded(pending, report, delivered)
    }

    constructor (initial: SensorEvent, scale: Scale, enabled: bool)
      ensures Valid() && fresh(reader) && fresh(reader.buffer)
      ensures arrived == [] && consumed == [] && this.enabled == enabled && reader.contents == []
    {
      this.initial, this.scale, this.enabled := initial, scale, enabled;
      reader := new InputEventCircularReader(RING_SIZE);
      pending, report := false, initial;
      arrived, consumed, delivered := [], [], [];
    }

    /** enable; switching the sensor has no other effect, the driver calls being stubs. */
    method Enable(handle: int, en: bool) returns (err: int)
      requires Valid()
      modifies this`enabled
      ensures Valid()
      ensures err == if handle == ID_A then 0 else -EINVAL
      ensures enabled == if handle == ID_A then en else old(enabled)
    {
      if handle != ID_A {
        return -EINVAL;
      }
      enabled := en;
      err := 0;
    }

    /** Everything consumed since `earlier` was consumed with the sensor as it is now. */
    ghost predicate ConsumedSince(earlier: seq<Consumed>)
      reads this
    {
      earlier <= consumed && forall i :: |earlier| <= i < |consumed| ==> consumed[i].enabled == enabled
    }

    /** processEvent */
    method ProcessEvent(code: int, value: int, ghost c: Consumed, ghost earlier: seq<SensorEvent>)
      requires c.event.kind == EV_ABS && c.event.code == code && c.event.value == value
      modifies this`pending, this`report
      ensures DecodeOne(Decoded(old(pending), old(report), earlier), scale, c) == Decoded(pending, report, earlier)
    {
      if code == ABS_X {
        pending := true;
        report := report.(x := value as real * scale.x);
      } else if code == ABS_Y {
        pending := true;
        report := report.(y := value as real * scale.y);
      } else if code == ABS_Z {
        pending := true;
        report := report.(z := value as real * scale.z);
      }
    }

    /** The body of the loop in readEvents for one event: update the pending report and store it at
        data[at] if it is complete. */
    method Digest(event: InputEvent, data: array<SensorEvent>, at: nat, ghost earlier: seq<SensorEvent>)
      returns (stored: nat)
      requires at < data.Length
      modifies this`pending, this`report, data
      ensures stored <= 1 && data[..at] == old(data[..at])
      ensures DecodeOne(Decoded(old(pending), old(report), earlier), scale, Consumed(event, enabled))
              == Decoded(pending, report, earlier + data[at..at + stored])
    {
      stored := 0;
      if event.kind == EV_ABS {
        ProcessEvent(event.code, event.value, Consumed(event, enabled), earlier);
      } else if event.kind == EV_SYN {
        if pending {
          pending := false;
          report := report.(timestamp := TimevalToNano(event.sec, event.usec));
          if enabled {
            data[at] := report;
            stored := 1;
          }
        }
      }
    }

    /** One iteration of that loop. Since there is room for a report, the pending mask is clear
        after a synchronisation event and the event always leaves the ring. */
    method HandleEvent(data: array<SensorEvent>, at: nat) returns (stored: nat)
      requires Valid() && reader.contents != [] && at < data.Length
      modifies this`pending, this`report, this`consumed, this`delivered
      modifies reader`curr, reader`freeSpace, reader`contents, data
      ensures Valid() && stored <= 1
      ensures |reader.contents| < |old(reader.contents)|
      ensures consumed == old(consumed) + [Consumed(old(reader.contents)[0], enabled)]
      ensures delivered == old(delivered) + data[at..at + stored]
      ensures data[..at] == old(data[..at])
    {
      var available, where := reader.ReadEvent();
      var event := reader.buffer[where];
      ghost var c := Consumed(event, enabled);
      ConsumeOne(initial, scale, consumed, c, reader.contents);
      stored := Digest(event, data, at, delivered);
      reader.Next();
      consumed := consumed + [c];
      delivered := delivered + data[at..at + stored];
    }

    /** The same, with what its report says about the event. */
    method HandleReport(data: array<SensorEvent>, at: nat) returns (stored: nat)
      requires Valid() && reader.contents != [] && at < data.Length
      modifies this`pending, this`report, this`consumed, this`delivered
      modifies reader`curr, reader`freeSpace, reader`contents, data
      ensures Valid() && stored <= 1 && (stored > 0 ==> EndsWithReport(initial, scale, consumed))
      ensures |reader.contents| < |old(reader.contents)|
      ensures consumed == old(consumed) + [Consumed(old(reader.contents)[0], enabled)]
      ensures delivered == old(delivered) + data[at..at + stored]
      ensures data[..at] == old(data[..at])
    {
      ghost var earlier, c := consumed, Consumed(reader.contents[0], enabled);
      stored := HandleEvent(data, at);
      OneMoreReports(initial, scale, earlier, c);
    }

    lemma SlicesJoin(data: array<SensorEvent>, sofar: seq<SensorEvent>, at: nat, stored: nat)
      requires at <= |sofar| && |sofar| + stored <= data.Length && data[..|sofar|] == sofar
      ensures data[..at] == sofar[..at]
      ensures data[at..|sofar| + stored] == sofar[at..] + data[|sofar|..|sofar| + stored]
    {
    }

    /** The same after earlier iterations, which stored `earlier` reports from data[at] on. */
    method HandleNext(data: array<SensorEvent>, at: nat, earlier: nat, ghost first: seq<SensorEvent>) returns (stored: nat)
      requires Valid() && reader.contents != [] && at + earlier < data.Length
      requires delivered == first + data[at..at + earlier]
      modifies this`pending, this`report, this`consumed, this`delivered
      modifies reader`curr, reader`freeSpace, reader`contents, data
      ensures Valid() && stored <= 1
      ensures |reader.contents| < |old(reader.contents)|
      ensures consumed == old(consumed) + [Consumed(old(reader.contents)[0], enabled)]
      ensures delivered == first + data[at..at + earlier + stored] && (stored > 0 ==> EndsWithReport(initial, scale, consumed))
      ensures data[..at] == old(data[..at])
    {
      ghost var sofar := data[..at + earlier];
      assert data[at..at + earlier] == sofar[at..] && data[..at] == sofar[..at];
      stored := HandleReport(data, at + earlier);
      SlicesJoin(data, sofar, at, stored);
    }

    /** What fill appends to the ring. */
    ghost function Supply(result: ReadResult): seq<InputEvent>
      reads reader
    {
      if reader.freeSpace > 0 && result.Events? then result.events else []
    }

    /** readEvents: stores at most `count` reports from data[at] on; when it stores fewer, the ring
        has been emptied, and otherwise it stops right after the event that filled the room. A failed read consumes nothing. */
    method ReadEvents(data: array<SensorEvent>, at: nat, count: int, result: ReadResult) returns (r: int)
      requires Valid() && at <= data.Length && (count >= 1 ==> at + count <= data.Length)
      requires reader.freeSpace > 0 ==> FitsIn(result, reader.freeSpace)
      modifies this`pending, this`report, this`consumed, this`delivered, this`arrived, data
      modifies reader`curr, reader`freeSpace, reader`contents, reader`head, reader.buffer
      ensures Valid() && data[..at] == old(data[..at])
      ensures r < 0 <==> count < 1 || (old(reader.freeSpace) > 0 && !result.Events?)
      ensures count < 1 ==> r == -EINVAL
      ensures r < 0 ==> consumed == old(consumed) && arrived == old(arrived) && delivered == old(delivered)
      ensures r >= 0 ==>
        && r <= count && (if r < count then reader.contents == [] else EndsWithReport(initial, scale, consumed))
        && arrived == old(arrived + Supply(result))
        && ConsumedSince(old(consumed))
        && delivered == old(delivered) + data[at..at + r]
    {
      if count < 1 {
        return -EINVAL;
      }
      ghost var supply := Supply(result);
      var n := reader.Fill(result);
      if n < 0 {
        return n;
      }
      assert reader.contents == old(reader.contents) + supply;
      arrived := arrived + supply;
      r := Drain(data, at, count);
    }

    /** One iteration of the loop below, `r` reports having been stored. */
    method DrainOne(data: array<SensorEvent>, at: nat, r: nat, count: nat, ghost before: seq<Consumed>,
                    ghost first: seq<SensorEvent>)
      returns (next: nat)
      requires Valid() && reader.contents != [] && at + count <= data.Length && r < count
      requires ConsumedSince(before) && delivered == first + data[at..at + r]
      modifies this`pending, this`report, this`consumed, this`delivered
      modifies reader`curr, reader`freeSpace, reader`contents, data
      ensures Valid() && r <= next <= count && |reader.contents| < |old(reader.contents)|
      ensures ConsumedSince(before) && delivered == first + data[at..at + next]
      ensures next == count ==> EndsWithReport(initial, scale, consumed)
      ensures data[..at] == old(data[..at])
    {
      var stored := HandleNext(data, at, r, first);
      next := r + stored;
    }

    /** The loop of readEvents. */
    method Drain(data: array<SensorEvent>, at: nat, count: nat) returns (r: nat)
      requires Valid() && at + count <= data.Length
      modifies this`pending, this`report, this`consumed, this`delivered, data
      modifies reader`curr, reader`freeSpace, reader`contents
      ensures Valid() && data[..at] == old(data[..at])
      ensures r <= count && (r < count ==> reader.contents == [])
      ensures ConsumedSince(old(consumed))
      ensures delivered == old(delivered) + data[at..at + r]
      ensures r == count > 0 ==> EndsWithReport(initial, scale, consumed)
    {
      r := 0;
      var available, where := reader.ReadEvent();
      while r != count && available
        invariant Valid() && 0 <= r <= count && (available <==> reader.contents != [])
        invariant ConsumedSince(old(consumed)) && delivered == old(delivered) + data[at..at + r]
        invariant r == count > 0 ==> EndsWithReport(initial, scale, consumed)
        invariant data[..at] == old(data[..at])
        decreases |reader.contents|
      {
        r := DrainOne(data, at, r, count, old(consumed), old(delivered));
        available, where := reader.ReadEvent();
      }
    }
  }
}
