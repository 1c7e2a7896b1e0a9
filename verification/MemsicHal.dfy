/** The multi-sensor batcher of the memsic sensors HAL (common/hardware/memsic/hal/sensors_hal.c:
    data_pick_sensors, __data_poll), built without GSENSOR_XY_REVERT.

    A uint32_t bit mask is modelled as the set of its bit positions. */
module MemsicHal {
  import opened InputEventReader

  /** sensors_event_t; the three values are x, y, z or azimuth, pitch, roll. */
  datatype Report = Report(sensor: nat, v0: real, v1: real, v2: real, status: int, timestamp: int)

  const EV_SYN := 0
  const EV_ABS := 3
  const SYN_CONFIG := 1
  const SENSORS_SUPPORT_COUNT := 3
  const SUPPORTED_SENSORS: set<nat> := {0, 1, 2}
  const ID_A := 0
  const ID_M := 1
  const ID_O := 2

  /** What an absolute axis event writes: a value of a sensor, or its status. */
  datatype Target = Nowhere | Value(id: nat, axis: nat) | Status(id: nat)

  /** ABS_X, ABS_Y, ABS_Z, ABS_WHEEL; ABS_HAT0X, ABS_HAT0Y, ABS_BRAKE, ABS_GAS; ABS_RX, ABS_RY,
      ABS_RZ, ABS_RUDDER */
  function TargetOf(code: int): (t: Target)
    ensures !t.Nowhere? ==> t.id in SUPPORTED_SENSORS
    ensures t.Value? ==> t.axis <= 2
  {
    match code
    case 0 => Value(ID_A, 0)
    case 1 => Value(ID_A, 1)
    case 2 => Value(ID_A, 2)
    case 8 => Status(ID_A)
    case 0x10 => Value(ID_M, 0)
    case 0x11 => Value(ID_M, 1)
    case 0x0a => Value(ID_M, 2)
    case 0x09 => Status(ID_M)
    case 3 => Value(ID_O, 0)
    case 4 => Value(ID_O, 1)
    case 5 => Value(ID_O, 2)
    case 7 => Status(ID_O)
    case _ => Nowhere
  }

  // The input codes, as linux/input.h numbers them.
  const ABS_X := 0x00
  const ABS_Y := 0x01
  const ABS_Z := 0x02
  const ABS_RX := 0x03
  const ABS_RY := 0x04
  const ABS_RZ := 0x05
  const ABS_RUDDER := 0x07
  const ABS_WHEEL := 0x08
  const ABS_GAS := 0x09
  const ABS_BRAKE := 0x0a
  const ABS_HAT0X := 0x10
  const ABS_HAT0Y := 0x11

  /** The one code that reports an axis of a sensor, or, from 3 on, its status. */
  function CodeOf(id: nat, axis: nat): int
    requires id in SUPPORTED_SENSORS
  {
    if id == ID_A then (if axis == 0 then ABS_X else if axis == 1 then ABS_Y else if axis == 2 then ABS_Z else ABS_WHEEL)
    else if id == ID_M then
      (if axis == 0 then ABS_HAT0X else if axis == 1 then ABS_HAT0Y else if axis == 2 then ABS_BRAKE else ABS_GAS)
    else (if axis == 0 then ABS_RX else if axis == 1 then ABS_RY else if axis == 2 then ABS_RZ else ABS_RUDDER)
  }

  /** The switch over codes is the inverse of that table. */
  lemma CodesAndTargets(code: int, id: nat, axis: nat)
    requires id in SUPPORTED_SENSORS && axis <= 2
    ensures TargetOf(code) == Value(id, axis) <==> code == CodeOf(id, axis)
    ensures TargetOf(code) == Status(id) <==> code == CodeOf(id, 3)
  {
  }

  /** The conversions by CONVERT_A_X .. CONVERT_O_R depend on the build: what an axis of a sensor
      reports for an input value. */
  type Scale = (nat, nat, int) -> real

  function WriteAxis(r: Report, axis: nat, v: real): Report {
    if axis == 0 then r.(v0 := v) else if axis == 1 then r.(v1 := v) else r.(v2 := v)
  }

  function AxisOf(r: Report, axis: nat): real {
    if axis == 0 then r.v0 else if axis == 1 then r.v1 else r.v2
  }

  function HandleAbs(sensors: seq<Report>, scale: Scale, e: InputEvent): (r: seq<Report>)
    requires |sensors| == SENSORS_SUPPORT_COUNT
    ensures |r| == SENSORS_SUPPORT_COUNT
  {
    match TargetOf(e.code)
    case Nowhere => sensors
    case Value(id, axis) =>
      sensors[id := WriteAxis(sensors[id], axis, scale(id, axis, e.value))]
    case Status(id) => sensors[id := sensors[id].(status := e.value)]
  }

  function Touch(e: InputEvent): (ids: set<nat>)
    ensures ids <= SUPPORTED_SENSORS
  {
    match TargetOf(e.code)
    case Value(id, _) => {id}
    case _ => {}
  }

  function EventTime(e: InputEvent): int {
    e.sec * 1000000000 + e.usec * 1000
  }

  /** Seconds and microseconds can be read off the time. */
  lemma TimeSplits(e: InputEvent)
    requires 0 <= e.usec < 1000000
    ensures EventTime(e) / 1000000000 == e.sec && EventTime(e) % 1000000000 == e.usec * 1000
  {
  }

  // ---------------------------------------------------------------- bit masks

  lemma {:induction false} FindHighest(mask: set<nat>) returns (i: nat)
    requires mask != {}
    ensures i in mask && forall b :: b in mask ==> b <= i
  {
    i :| i in mask;
    var rest := mask - {i};
    if rest == {} {
      assert forall b :: b in mask ==> b == i || b in rest;
    } else {
      var j := FindHighest(rest);
      assert forall b :: b in mask ==> b == i || b in rest;
      i := if j > i then j else i;
    }
  }

  /** 31 - __builtin_clz(mask) */
  function Highest(mask: set<nat>): (i: nat)
    requires mask != {}
    ensures i in mask && forall b :: b in mask ==> b <= i
  {
    assert exists i :: i in mask && (forall b :: b in mask ==> b <= i) by {
      var i := FindHighest(mask);
    }
    var i :| i in mask && forall b :: b in mask ==> b <= i;
    i
  }

  predicate Supported(mask: set<nat>) {
    mask <= SUPPORTED_SENSORS
  }

  // ---------------------------------------------------------------- what the batcher should deliver

  /** The reports of the given sensors, highest id first. */
  function Descending(ids: set<nat>, sensors: seq<Report>): seq<Report>
    requires Supported(ids) && |sensors| == SENSORS_SUPPORT_COUNT
  {
    if ids == {} then []
    else [sensors[Highest(ids)]] + Descending(ids - {Highest(ids)}, sensors)
  }

  function Stamp(sensors: seq<Report>, ids: set<nat>, t: int): seq<Report> {
    seq(|sensors|, i requires 0 <= i < |sensors| => if i in ids then sensors[i].(timestamp := t) else sensors[i])
  }

  /** Sensor values, sensors touched since the last synchronisation, reports due so far. */
  datatype Batch = Batch(sensors: seq<Report>, touched: set<nat>, due: seq<Report>)

  ghost predicate Sane(b: Batch) {
    && |b.sensors| == SENSORS_SUPPORT_COUNT && Supported(b.touched)
    && forall i :: 0 <= i < SENSORS_SUPPORT_COUNT ==> b.sensors[i].sensor == i
  }

  /** One input event: an axis event updates a sensor; a synchronisation event makes one report of
      each touched sensor due, stamped with its time; SYN_CONFIG forgets what was touched. */
  function BatchOne(b: Batch, scale: Scale, e: InputEvent): Batch
    requires |b.sensors| == SENSORS_SUPPORT_COUNT && Supported(b.touched)
  {
    if e.kind == EV_ABS then b.(sensors := HandleAbs(b.sensors, scale, e), touched := b.touched + Touch(e))
    else if e.kind == EV_SYN && e.code == SYN_CONFIG then b.(touched := {})
    else if e.kind == EV_SYN then
      var stamped := Stamp(b.sensors, b.touched, EventTime(e));
      Batch(stamped, {}, b.due + Descending(b.touched, stamped))
    else b
  }

  /** The sensors as open_sensors leaves them. */
  const INITIAL := [Report(0, 0.0, 0.0, 0.0, 0, 0), Report(1, 0.0, 0.0, 0.0, 0, 0), Report(2, 0.0, 0.0, 0.0, 0, 0)]

  function BatchAll(scale: Scale, input: seq<InputEvent>): (b: Batch)
    ensures |b.sensors| == SENSORS_SUPPORT_COUNT && Supported(b.touched)
  {
    if input == [] then Batch(INITIAL, {}, [])
    else BatchOne(BatchAll(scale, input[..|input| - 1]), scale, input[|input| - 1])
  }

  lemma BatchSnoc(scale: Scale, input: seq<InputEvent>, e: InputEvent)
    ensures BatchAll(scale, input + [e]) == BatchOne(BatchAll(scale, input), scale, e)
  {
    assert (input + [e])[..|input|] == input;
  }

  /** A batch holds each requested sensor exactly once, ids strictly descending, with that
      sensor's values. */
  lemma {:induction false} DescendingExactlyOnce(ids: set<nat>, sensors: seq<Report>)
    requires Supported(ids) && |sensors| == SENSORS_SUPPORT_COUNT
    requires forall i :: 0 <= i < SENSORS_SUPPORT_COUNT ==> sensors[i].sensor == i
    ensures var d := Descending(ids, sensors);
      && |d| == |ids|
      && (forall j, k :: 0 <= j < k < |d| ==> d[j].sensor > d[k].sensor)
      && (forall j :: 0 <= j < |d| ==> d[j].sensor in ids && d[j] == sensors[d[j].sensor])
  {
    if ids == {} {
    } else {
      var h, rest := Highest(ids), ids - {Highest(ids)};
      DescendingExactlyOnce(rest, sensors);
      assert Descending(ids, sensors) == [sensors[h]] + Descending(rest, sensors);
      assert forall b :: b in rest ==> b < h;
    }
  }

  /** The reports form one batch: exactly the given sensors, once each, in descending order, with
      their values, all stamped with time t. */
  predicate OneBatch(reports: seq<Report>, ids: set<nat>, sensors: seq<Report>, t: int) {
    && |reports| == |ids|
    && (forall j, k :: 0 <= j < k < |reports| ==> reports[j].sensor > reports[k].sensor)
    && (forall j :: 0 <= j < |reports| ==>
          && reports[j].sensor in ids && reports[j].sensor < |sensors|
          && reports[j] == sensors[reports[j].sensor].(timestamp := t))
  }

  predicate IsConfig(e: InputEvent) {
    e.kind == EV_SYN && e.code == SYN_CONFIG
  }

  predicate IsSync(e: InputEvent) {
    e.kind == EV_SYN && e.code != SYN_CONFIG
  }

  /** The reports one synchronisation event makes due are one batch of the touched sensors. */
  lemma SyncReportsTouched(b: Batch, scale: Scale, e: InputEvent)
    requires Sane(b) && IsSync(e)
    ensures OneBatch(BatchOne(b, scale, e).due[|b.due|..], b.touched, b.sensors, EventTime(e))
    ensures BatchOne(b, scale, e).touched == {} && Sane(BatchOne(b, scale, e))
  {
    var stamped := Stamp(b.sensors, b.touched, EventTime(e));
    DescendingExactlyOnce(b.touched, stamped);
    assert BatchOne(b, scale, e).due[|b.due|..] == Descending(b.touched, stamped);
  }

  /** A synchronisation after nothing was touched changes nothing. */
  lemma NothingTouched(b: Batch, scale: Scale, e: InputEvent)
    requires |b.sensors| == SENSORS_SUPPORT_COUNT && b.touched == {} && IsSync(e)
    ensures BatchOne(b, scale, e) == b
  {
    assert Stamp(b.sensors, {}, EventTime(e)) == b.sensors;
    assert b.due + Descending({}, b.sensors) == b.due;
  }

  /** After any input each slot still describes its own sensor. */
  lemma {:induction false} BatchStaysSane(scale: Scale, input: seq<InputEvent>)
    ensures Sane(BatchAll(scale, input))
  {
    if input == [] {
    } else {
      BatchStaysSane(scale, input[..|input| - 1]);
    }
  }

  // ---------------------------------------------------------------- over the whole input

  predicate Writes(e: InputEvent, id: nat, axis: nat) {
    e.kind == EV_ABS && TargetOf(e.code) == Value(id, axis)
  }

  /** Event j writes an axis of the sensor, and no synchronisation event has come since. */
  predicate TouchedBy(input: seq<InputEvent>, id: nat, axis: nat, j: int) {
    0 <= j < |input| && Writes(input[j], id, axis) && forall m :: j < m < |input| ==> input[m].kind != EV_SYN
  }

  /** A sensor counts as touched exactly if one of its axes was written since the last
      synchronisation. */
  lemma {:induction false} TouchedIff(scale: Scale, input: seq<InputEvent>, id: nat)
    ensures id in BatchAll(scale, input).touched <==> exists axis, j :: TouchedBy(input, id, axis, j)
  {
    if input == [] {
    } else {
      var before, last := input[..|input| - 1], |input| - 1;
      TouchedIff(scale, before, id);
      var target := TargetOf(input[last].code);
      if input[last].kind == EV_ABS && target.Value? && target.id == id {
        assert TouchedBy(input, id, target.axis, last);
      } else if input[last].kind != EV_SYN {
        if axis, j :| TouchedBy(before, id, axis, j) { assert TouchedBy(input, id, axis, j); }
        if axis, j :| TouchedBy(input, id, axis, j) { assert TouchedBy(before, id, axis, j); }
      }
    }
  }

  /** Each axis of a sensor has the value of the latest event that wrote it. */
  lemma {:induction false} LatestWriteCounts(scale: Scale, input: seq<InputEvent>, id: nat, axis: nat, j: nat)
    requires j < |input| && Writes(input[j], id, axis) && forall m :: j < m < |input| ==> !Writes(input[m], id, axis)
    ensures id < SENSORS_SUPPORT_COUNT && AxisOf(BatchAll(scale, input).sensors[id], axis) == scale(id, axis, input[j].value)
  {
    if j == |input| - 1 {
    } else {
      LatestWriteCounts(scale, input[..|input| - 1], id, axis, j);
    }
  }

  /** An axis that was never written is zero. */
  lemma {:induction false} UnwrittenIsZero(scale: Scale, input: seq<InputEvent>, id: nat, axis: nat)
    requires id < SENSORS_SUPPORT_COUNT && axis <= 2 && forall m :: 0 <= m < |input| ==> !Writes(input[m], id, axis)
    ensures AxisOf(BatchAll(scale, input).sensors[id], axis) == 0.0
  {
    if input == [] {
    } else {
      UnwrittenIsZero(scale, input[..|input| - 1], id, axis);
    }
  }

  predicate SetsStatus(e: InputEvent, id: nat) {
    e.kind == EV_ABS && TargetOf(e.code) == Status(id)
  }

  /** A sensor's status is that of the latest event that set it. */
  lemma {:induction false} LatestStatusCounts(scale: Scale, input: seq<InputEvent>, id: nat, j: nat)
    requires j < |input| && SetsStatus(input[j], id) && forall m :: j < m < |input| ==> !SetsStatus(input[m], id)
    ensures id < SENSORS_SUPPORT_COUNT && BatchAll(scale, input).sensors[id].status == input[j].value
  {
    if j == |input| - 1 {
    } else {
      LatestStatusCounts(scale, input[..|input| - 1], id, j);
    }
  }

  /** An event that sets a status touches no sensor and changes no axis. */
  lemma StatusTouchesNothing(scale: Scale, input: seq<InputEvent>, e: InputEvent, id: nat)
    requires SetsStatus(e, id)
    ensures var before, after := BatchAll(scale, input), BatchAll(scale, input + [e]);
      && after.touched == before.touched && after.due == before.due
      && forall i, axis :: 0 <= i < SENSORS_SUPPORT_COUNT ==> AxisOf(after.sensors[i], axis) == AxisOf(before.sensors[i], axis)
  {
    BatchSnoc(scale, input, e);
  }

  /** Event k of the input is a synchronisation after sensors were touched. */
  predicate Reports(scale: Scale, input: seq<InputEvent>, k: nat) {
    k < |input| && IsSync(input[k]) && BatchAll(scale, input[..k]).touched != {}
  }

  /** The reports are the batch made due by event k. */
  predicate BatchOf(reports: seq<Report>, scale: Scale, input: seq<InputEvent>, k: nat) {
    && k < |input|
    && OneBatch(reports, BatchAll(scale, input[..k]).touched, BatchAll(scale, input[..k]).sensors, EventTime(input[k]))
  }

  function Flatten(batches: seq<seq<Report>>): seq<Report> {
    if batches == [] then [] else Flatten(batches[..|batches| - 1]) + batches[|batches| - 1]
  }

  /** Batch n belongs to event at[n], in order, and every reporting event has its batch. */
  ghost predicate Batched(scale: Scale, input: seq<InputEvent>, batches: seq<seq<Report>>, at: seq<nat>) {
    && |at| == |batches|
    && (forall m, n :: 0 <= m < n < |at| ==> at[m] < at[n])
    && (forall n :: 0 <= n < |at| ==> BatchOf(batches[n], scale, input, at[n]))
    && (forall k: nat :: k in at <==> Reports(scale, input, k))
  }

  lemma SamePrefix(scale: Scale, input: seq<InputEvent>, e: InputEvent, k: nat)
    requires k < |input|
    ensures Reports(scale, input + [e], k) <==> Reports(scale, input, k)
    ensures forall reports :: BatchOf(reports, scale, input, k) ==> BatchOf(reports, scale, input + [e], k)
  {
    assert (input + [e])[..k] == input[..k];
  }

  lemma BatchedOn(scale: Scale, input: seq<InputEvent>, e: InputEvent, batches: seq<seq<Report>>, at: seq<nat>,
                  batch: seq<Report>)
    requires Batched(scale, input, batches, at)
    requires Reports(scale, input + [e], |input|) ==> BatchOf(batch, scale, input + [e], |input|)
    ensures if Reports(scale, input + [e], |input|) then Batched(scale, input + [e], batches + [batch], at + [|input|])
            else Batched(scale, input + [e], batches, at)
  {
    var more := Reports(scale, input + [e], |input|);
    var at' := if more then at + [|input|] else at;
    forall n | 0 <= n < |at| ensures at[n] < |input| && BatchOf(batches[n], scale, input + [e], at[n]) {
      assert at[n] in at && BatchOf(batches[n], scale, input, at[n]);
      SamePrefix(scale, input, e, at[n]);
    }
    forall k: nat ensures k in at' <==> Reports(scale, input + [e], k) {
      if k < |input| {
        SamePrefix(scale, input, e, k);
      }
      assert k in at' <==> k in at || (more && k == |input|);
    }
  }

  /** What one more event makes due: a batch of the touched sensors, or nothing. */
  lemma DueOn(scale: Scale, input: seq<InputEvent>, e: InputEvent) returns (batch: seq<Report>)
    ensures BatchAll(scale, input + [e]).due == BatchAll(scale, input).due + batch
    ensures if Reports(scale, input + [e], |input|) then BatchOf(batch, scale, input + [e], |input|) else batch == []
  {
    var b := BatchAll(scale, input);
    BatchSnoc(scale, input, e);
    assert (input + [e])[..|input|] == input;
    if IsSync(e) && b.touched != {} {
      BatchStaysSane(scale, input);
      SyncReportsTouched(b, scale, e);
      batch := BatchOne(b, scale, e).due[|b.due|..];
    } else {
      if IsSync(e) { NothingTouched(b, scale, e); }
      batch := [];
      assert b.due + batch == b.due;
    }
  }

  /** What is due altogether is one batch for each reporting event, in order. */
  lemma {:induction false} DueInBatches(scale: Scale, input: seq<InputEvent>)
    returns (batches: seq<seq<Report>>, at: seq<nat>)
    ensures Flatten(batches) == BatchAll(scale, input).due && Batched(scale, input, batches, at)
  {
    if input == [] {
      batches, at := [], [];
    } else {
      var before, e := input[..|input| - 1], input[|input| - 1];
      assert before + [e] == input;
      batches, at := DueInBatches(scale, before);
      var batch := DueOn(scale, before, e);
      BatchedOn(scale, before, e, batches, at, batch);
      if Reports(scale, input, |before|) {
        assert (batches + [batch])[..|batches|] == batches;
        batches, at := batches + [batch], at + [|before|];
      }
    }
  }

  /** With `earlier` read before, a poll has read `read`, and that is exactly what it has to read: up
      to the first event that is SYN_CONFIG or makes anything due beyond `due`, or all there is if
      it is blocked. */
  ghost predicate HasRead(scale: Scale, earlier: seq<InputEvent>, read: seq<InputEvent>, due: seq<Report>,
                          blocked: bool, config: bool)
  {
    && (forall k :: 0 <= k < |read| ==> BatchAll(scale, earlier + read[..k]).due == due)
    && (forall k :: 0 <= k < |read| ==> (IsConfig(read[k]) <==> config && k == |read| - 1))
    && if blocked then !config && BatchAll(scale, earlier + read).due == due
       else read != [] && (config <==> BatchAll(scale, earlier + read).due == due)
  }

  lemma ReadOn(scale: Scale, earlier: seq<InputEvent>, read: seq<InputEvent>, e: InputEvent, due: seq<Report>,
               blocked: bool, config: bool)
    requires HasRead(scale, earlier, read, due, true, false) && IsConfig(e) == config
    requires var after := BatchAll(scale, earlier + read + [e]).due;
      if blocked then !config && after == due else (config <==> after == due)
    ensures HasRead(scale, earlier, read + [e], due, blocked, config)
  {
    assert earlier + (read + [e]) == earlier + read + [e];
    forall k | 0 <= k <= |read| ensures BatchAll(scale, earlier + (read + [e])[..k]).due == due {
      assert (read + [e])[..k] == read[..k];
      assert k == |read| ==> read[..k] == read;
    }
  }

  // ---------------------------------------------------------------- the batcher

  datatype Outcome =
    | Invalid                      // -1
    | ConfigExit                   // 0x7FFFFFFF
    | Picked(reports: seq<Report>) // the number of reports, and what was stored in data
    | Blocked(newSensors: set<nat>) // still waiting for input, these sensors having been touched

  class PollContext {
    const eventsFd: int
    const scale: Scale
    var pending: set<nat>      // pending_sensors
    var sensors: seq<Report>

    ghost var consumed: seq<InputEvent>  // all input read so far
    ghost var delivered: seq<Report>     // all reports returned so far

    ghost predicate Shaped()
      reads this
    {
      |sensors| == SENSORS_SUPPORT_COUNT && Supported(pending)
    }

    /** Over any run of polls: what was delivered, followed by what is pending, is what the input
        read so far makes due. */
    ghost predicate Valid()
      reads this
    {
      && Shaped()
      && BatchAll(scale, consumed) == Batch(sensors, {}, delivered + Descending(pending, sensors))
    }

    constructor (eventsFd: int, scale: Scale)
      ensures Valid() && consumed == [] && delivered == [] && pending == {}
      ensures this.eventsFd == eventsFd && this.scale == scale
    {
      this.eventsFd, this.scale := eventsFd, scale;
      pending, sensors := {}, INITIAL;
      consumed, delivered := [], [];
    }

    /** Over any run of polls: the reports delivered, followed by those still pending, are one batch
        for each synchronisation read after sensors were touched, in order; in a batch each of those
        sensors occurs exactly once, ids descending, with its values and the time of that event. */
    lemma DeliveredInBatches() returns (batches: seq<seq<Report>>, at: seq<nat>)
      requires Valid()
      ensures Flatten(batches) == delivered + Descending(pending, sensors) && Batched(scale, consumed, batches, at)
    {
      batches, at := DueInBatches(scale, consumed);
    }

    /** data_pick_sensors: the pending reports, highest id first, as many as there is room for. One
        is picked even when count is 0. */
    method DataPickSensors(count: nat) returns (reports: seq<Report>)
      requires Shaped()
      modifies this`pending
      ensures Shaped() && pending <= old(pending)
      ensures Descending(old(pending), sensors) == reports + Descending(pending, sensors)
      ensures |reports| == |old(pending)| - |pending|
      ensures pending != {} ==> |reports| == if count == 0 then 1 else count
      ensures |reports| <= count || (count == 0 && |reports| == 1)
      ensures old(pending) != {} ==> reports != []
    {
      var mask := SUPPORTED_SENSORS;
      reports := [];
      while mask != {}
        invariant Shaped() && pending <= mask <= SUPPORTED_SENSORS && pending <= old(pending)
        invariant Descending(old(pending), sensors) == reports + Descending(pending, sensors)
        invariant |reports| == |old(pending)| - |pending|
        invariant reports != [] ==> |reports| < count
        decreases |mask|
      {
        var i := Highest(mask);
        mask := mask - {i};
        if i in pending {
          assert i == Highest(pending);
          assert reports + Descending(pending, sensors) == (reports + [sensors[i]]) + Descending(pending - {i}, sensors);
          pending := pending - {i};
          reports := reports + [sensors[i]];
          if |reports| >= count {
            return;
          }
        }
      }
    }

    /** The time stamping loop, over the bits of new_sensors from the highest down. */
    method StampSensors(newSensors: set<nat>, t: int)
      requires |sensors| == SENSORS_SUPPORT_COUNT && Supported(newSensors)
      modifies this`sensors
      ensures sensors == Stamp(old(sensors), newSensors, t)
    {
      var rest := newSensors;
      while rest != {}
        invariant rest <= newSensors && sensors == Stamp(old(sensors), newSensors - rest, t)
        decreases |rest|
      {
        var i := Highest(rest);
        rest := rest - {i};
        sensors := sensors[i := sensors[i].(timestamp := t)];
      }
    }

    /** Hand over pending reports. */
    method Deliver(count: nat) returns (reports: seq<Report>)
      requires Valid() && pending != {}
      modifies this`pending, this`delivered
      ensures Valid() && delivered == old(delivered) + reports && reports != []
      ensures |reports| <= (if count == 0 then 1 else count) && (|reports| <= count <==> count >= 1)
      ensures pending != {} ==> |reports| == if count == 0 then 1 else count
    {
      reports := DataPickSensors(count);
      assert delivered + (reports + Descending(pending, sensors)) == (delivered + reports) + Descending(pending, sensors);
      delivered := delivered + reports;
    }

    /** In the middle of __data_poll: nothing is pending, newSensors were touched so far. */
    ghost predicate Gathering(newSensors: set<nat>)
      reads this
    {
      && Shaped() && pending == {} && Supported(newSensors)
      && BatchAll(scale, consumed) == Batch(sensors, newSensors, delivered)
    }

    /** The body of the reading loop for an event that is not a synchronisation with anything to
        report. */
    method Gather(event: InputEvent, newSensors: set<nat>) returns (touched: set<nat>)
      requires Gathering(newSensors)
      requires event.kind == EV_SYN ==> event.code != SYN_CONFIG && newSensors == {}
      modifies this`sensors, this`consumed
      ensures Gathering(touched) && consumed == old(consumed) + [event]
    {
      BatchSnoc(scale, consumed, event);
      consumed := consumed + [event];
      assert BatchAll(scale, consumed) == BatchOne(Batch(sensors, newSensors, delivered), scale, event);
      touched := newSensors;
      if event.kind == EV_ABS {
        touched := newSensors + Touch(event);
        sensors := HandleAbs(sensors, scale, event);
      } else if event.kind == EV_SYN {
        NothingTouched(Batch(sensors, {}, delivered), scale, event);
      }
    }

    /** The synchronisation that ends the loop: SYN_CONFIG, or one with something to report. */
    method Synchronise(event: InputEvent, newSensors: set<nat>)
      requires Gathering(newSensors)
      requires event.kind == EV_SYN && (event.code == SYN_CONFIG || newSensors != {})
      modifies this`pending, this`sensors, this`consumed
      ensures Valid() && consumed == old(consumed) + [event]
      ensures pending == if event.code == SYN_CONFIG then {} else newSensors
      ensures BatchAll(scale, consumed).due == delivered <==> event.code == SYN_CONFIG
    {
      BatchSnoc(scale, consumed, event);
      consumed := consumed + [event];
      if event.code == SYN_CONFIG {
        assert delivered + Descending({}, sensors) == delivered;
      } else {
        pending := newSensors;
        StampSensors(newSensors, EventTime(event));
      }
    }

    /** What the reading loop does with one event; `over` if it ends with it. */
    method TakeEvent(event: InputEvent, newSensors: set<nat>) returns (over: bool, touched: set<nat>)
      requires Gathering(newSensors)
      modifies this`pending, this`sensors, this`consumed
      ensures consumed == old(consumed) + [event]
      ensures over <==> IsConfig(event) || (IsSync(event) && newSensors != {})
      ensures if over then Valid() && (pending == {} <==> IsConfig(event)) else Gathering(touched)
      ensures BatchAll(scale, consumed).due == delivered <==> !over || IsConfig(event)
    {
      over := event.kind == EV_SYN && (event.code == SYN_CONFIG || newSensors != {});
      if over {
        Synchronise(event, newSensors);
        touched := {};
      } else {
        touched := Gather(event, newSensors);
      }
    }

    /** One pass of the reading loop. */
    method ReadOne(event: InputEvent, newSensors: set<nat>, ghost earlier: seq<InputEvent>, ghost read: seq<InputEvent>)
      returns (over: bool, touched: set<nat>)
      requires Gathering(newSensors) && consumed == earlier + read && HasRead(scale, earlier, read, delivered, true, false)
      modifies this`pending, this`sensors, this`consumed
      ensures consumed == earlier + (read + [event])
      ensures HasRead(scale, earlier, read + [event], delivered, !over, over && IsConfig(event))
      ensures if over then Valid() && (pending == {} <==> IsConfig(event)) else Gathering(touched)
    {
      over, touched := TakeEvent(event, newSensors);
      ReadOn(scale, earlier, read, event, delivered, !over, IsConfig(event));
    }

    lemma NothingRead()
      requires exists touched :: Gathering(touched)
      ensures HasRead(scale, consumed, [], delivered, true, false)
    {
      assert consumed + [] == consumed;
    }

    /** The reading loop of __data_poll, entered with nothing pending and `newSensors` touched; `read`
        is what it reads. */
    method ReadLoop(input: seq<InputEvent>, newSensors: set<nat>, ghost earlier: seq<InputEvent>)
      returns (i: nat, over: bool, touched: set<nat>, ghost read: seq<InputEvent>)
      requires Gathering(newSensors) && consumed == earlier
      modifies this`pending, this`sensors, this`consumed
      ensures i <= |input| && read == input[..i] && consumed == earlier + read && (over ==> i > 0)
      ensures HasRead(scale, earlier, read, delivered, !over, over && IsConfig(input[i - 1]))
      ensures if over then Valid() && (pending == {} <==> IsConfig(input[i - 1])) else i == |input| && Gathering(touched)
    {
      NothingRead();
      over, touched, read, i := false, newSensors, [], 0;
      while i < |input|
        invariant i <= |input| && read == input[..i] && consumed == earlier + read && !over
        invariant Gathering(touched) && HasRead(scale, earlier, read, delivered, true, false)
      {
        var event := input[i];
        over, touched := ReadOne(event, touched, earlier, read);
        read := read + [event];
        i := i + 1;
        if over {
          return;
        }
      }
    }

    /** That loop, with what it leaves unread, and whether SYN_CONFIG has ended it. */
    method AwaitReport(input: seq<InputEvent>, newSensors: set<nat>)
      returns (rest: seq<InputEvent>, config: bool, touched: set<nat>)
      requires Gathering(newSensors)
      modifies this`pending, this`sensors, this`consumed
      ensures |rest| <= |input| && rest == input[|input| - |rest|..]
      ensures consumed == old(consumed) + input[..|input| - |rest|]
      ensures HasRead(scale, old(consumed), input[..|input| - |rest|], delivered, pending == {} && !config, config)
      ensures config ==> pending == {}
      ensures if pending == {} && !config then rest == [] && Gathering(touched) else Valid()
    {
      var i, over;
      ghost var read;
      i, over, touched, read := ReadLoop(input, newSensors, consumed);
      rest, config := input[i..], over && IsConfig(input[i - 1]);
      assert |input| - |rest| == i && (over <==> !(pending == {} && !config));
    }

    /** __data_poll on the input still to come; `rest` is what it leaves unread. No input is read
        while any report is pending. A blocked poll goes on with ResumePoll. */
    method DataPoll(input: seq<InputEvent>, dataIsNull: bool, count: int)
      returns (outcome: Outcome, rest: seq<InputEvent>)
      requires Valid()
      modifies this`pending, this`sensors, this`consumed, this`delivered
      ensures outcome == Invalid <==> eventsFd < 0 || dataIsNull || count < 0
      ensures outcome == Invalid || old(pending) != {} ==> rest == input && consumed == old(consumed)
      ensures outcome == Invalid ==> Valid() && delivered == old(delivered)
      ensures old(pending) != {} && outcome != Invalid ==> outcome.Picked?
      ensures old(pending) == {} && outcome != Invalid ==> Polled(outcome, old(consumed), input, rest, old(delivered))
      ensures outcome.Picked? ==> Handed(outcome.reports, count, old(delivered))
    {
      rest := input;
      if eventsFd < 0 || dataIsNull || count < 0 {
        return Invalid, rest;
      }
      if pending != {} {
        var reports := Deliver(count);
        return Picked(reports), rest;
      }
      assert delivered + Descending({}, sensors) == delivered;
      outcome, rest := ResumePoll(input, {}, count);
    }

    /** What a poll that had to read has done. */
    ghost predicate Polled(outcome: Outcome, earlier: seq<InputEvent>, input: seq<InputEvent>, rest: seq<InputEvent>,
                           due: seq<Report>)
      reads this
    {
      && outcome != Invalid
      && |rest| <= |input| && rest == input[|input| - |rest|..]
      && consumed == earlier + input[..|input| - |rest|]
      && HasRead(scale, earlier, input[..|input| - |rest|], due, outcome.Blocked?, outcome.ConfigExit?)
      && (outcome.Blocked? ==> rest == [] && Gathering(outcome.newSensors) && delivered == due)
      && (outcome.ConfigExit? ==> Valid() && pending == {} && delivered == due)
    }

    /** The reports are the next ones due, as many as asked for, or one if asked for none; some stay
        pending only if there was no room for them. */
    ghost predicate Handed(reports: seq<Report>, count: nat, due: seq<Report>)
      reads this
    {
      && Valid() && delivered == due + reports && reports != []
      && (|reports| <= count <==> count >= 1)
      && (count == 0 ==> |reports| == 1)
      && (pending != {} && count > 0 ==> |reports| == count)
    }

    /** __data_poll from its reading loop on; `newSensors` is what a blocked poll had touched. */
    method ResumePoll(input: seq<InputEvent>, newSensors: set<nat>, count: nat)
      returns (outcome: Outcome, rest: seq<InputEvent>)
      requires Gathering(newSensors)
      modifies this`pending, this`sensors, this`consumed, this`delivered
      ensures Polled(outcome, old(consumed), input, rest, old(delivered))
      ensures outcome.Picked? ==> Handed(outcome.reports, count, old(delivered))
    {
      var config, touched;
      rest, config, touched := AwaitReport(input, newSensors);
      if config {
        return ConfigExit, rest;
      }
      if pending == {} {
        return Blocked(touched), rest;
      }
      var reports := Deliver(count);
      outcome := Picked(reports);
    }
  }
}
