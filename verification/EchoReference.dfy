/** Lifetime of the echo reference shared by the output and the input stream
    (common/hardware/audio/audio_hw.c: get/put/add/remove_echo_reference, start_output_stream,
    start_input_stream, do_output_standby, do_input_standby and their callers), with one output
    and one input stream open at a time.

    The device mutex is held by at most one thread, whose position is `device`. While it is
    held, out_write and in_read calls that have already let go of it keep running under their
    stream mutex (`outBusy`, `inBusy`) and keep using the reference; that is the interleaving
    this model is about. */
module EchoReference {
  datatype Ref = Null | Ref(id: nat)

  /** What follows once put_echo_reference is done. */
  datatype After = Obtain | Finish

  /** Position of the thread that holds the device mutex, and with it the input mutex. */
  datatype DevicePc =
    | Free
    | Detach(after: After)    // put_echo_reference: about to lock the active output
    | Dispose(after: After)   // put_echo_reference: about to release the current reference
    | Create                  // get_echo_reference: about to create a new reference
    | Attach                  // get_echo_reference: about to lock the active output
    | Assign                  // start_input_stream: about to store the result
    | OpenInput               // start_input_stream: about to open the driver
    | Clear                   // do_input_standby: about to clear in->echo_reference

  /** The output stream; `busy` while out_write runs under the stream mutex alone. */
  datatype Output = Output(open: bool, standby: bool, echo: Ref, busy: bool)

  /** The input stream; `busy` while in_read runs under the stream mutex alone. */
  datatype Input = Input(open: bool, standby: bool, echo: Ref, busy: bool, need: bool)

  /** References 0 .. created-1 have been created; `released` is in order of release. */
  datatype Log = Log(created: nat, released: seq<nat>)

  datatype Hal = Hal(
    current: Ref,            // adev->echo_reference
    activeOutput: bool,      // adev->active_output is the output stream
    output: Output,
    input: Input,
    device: DevicePc,
    log: Log)

  datatype StartOutput = Skipped | OpenFails | Opened

  datatype Event =
    | OpenOut | CloseOut | OpenIn | CloseIn
    | OutWriteBegin(start: StartOutput) | OutWriteUse | OutWriteEnd
    | OutStandby
    | InReadBegin | InReadUse | InReadEnd
    | InStandby(need: bool)  // in_standby, or a change of effects or routing that forces standby
    | DeviceStep(succeeds: bool)

  const NO_OUTPUT := Output(false, true, Null, false)
  const NO_INPUT := Input(false, true, Null, false, false)
  const INITIAL := Hal(Null, false, NO_OUTPUT, NO_INPUT, Free, Log(0, []))

  predicate Enabled(s: Hal, e: Event) {
    match e
    case OpenOut => !s.output.open
    case CloseOut => s.device.Free? && s.output.open && !s.output.busy
    case OpenIn => !s.input.open
    case CloseIn => s.device.Free? && s.input.open && !s.input.busy && s.input.standby
    case OutWriteBegin(_) => s.device.Free? && s.output.open && !s.output.busy
    case OutWriteUse => s.output.busy
    case OutWriteEnd => s.output.busy
    case OutStandby => s.device.Free? && s.output.open && !s.output.busy
    case InReadBegin => s.device.Free? && s.input.open && !s.input.busy
    case InReadUse => s.input.busy
    case InReadEnd => s.input.busy
    case InStandby(_) => s.device.Free? && s.input.open && !s.input.busy
    case DeviceStep(_) =>
      // adding to or removing from the active output waits for its mutex
      !s.device.Free? && (s.device.Detach? || s.device.Attach? ==> !s.output.busy)
  }

  function DoOutputStandby(s: Hal): Hal {
    if s.output.standby then s
    else s.(activeOutput := false, output := s.output.(echo := Null, standby := true))
  }

  function StartOutputStream(s: Hal, start: StartOutput): Hal {
    match start
    case Skipped => s.(output := s.output.(standby := false, busy := true))
    case OpenFails => s.(activeOutput := false)
    case Opened =>
      var echo := if s.current.Ref? then s.current else s.output.echo;
      s.(activeOutput := true, output := s.output.(echo := echo, standby := false, busy := true))
  }

  /** put_echo_reference(adev, reference) followed by the rest. */
  function PutReference(s: Hal, reference: Ref, after: After): Hal {
    if s.current.Ref? && reference == s.current
    then s.(device := if s.activeOutput then Detach(after) else Dispose(after))
    else s.(device := Next(after))
  }

  function Next(after: After): DevicePc {
    if after.Obtain? then Create else Clear
  }

  function StartInputStream(s: Hal): Hal {
    if s.input.need && s.input.echo.Null? then PutReference(s, s.current, Obtain) else s.(device := OpenInput)
  }

  function DoInputStandby(s: Hal): Hal {
    if s.input.standby then s
    else if s.input.echo.Ref? then PutReference(s, s.input.echo, Finish)
    else s.(device := Clear)
  }

  function Apply(s: Hal, e: Event): Hal
    requires Enabled(s, e)
  {
    match e
    case OpenOut => s.(output := Output(true, true, Null, false))
    case CloseOut => DoOutputStandby(s).(output := NO_OUTPUT)
    case OpenIn => s.(input := Input(true, true, Null, false, false))
    case CloseIn => s.(input := NO_INPUT)
    case OutWriteBegin(start) =>
      if s.output.standby then StartOutputStream(s, start) else s.(output := s.output.(busy := true))
    case OutWriteUse => s
    case OutWriteEnd => s.(output := s.output.(busy := false))
    case OutStandby => DoOutputStandby(s)
    case InReadBegin => if s.input.standby then StartInputStream(s) else s.(input := s.input.(busy := true))
    case InReadUse => s
    case InReadEnd => s.(input := s.input.(busy := false))
    case InStandby(need) => DoInputStandby(s.(input := s.input.(need := need)))
    case DeviceStep(succeeds) => Advance(s, succeeds)
  }

  /** One step of the thread that holds the device mutex. */
  function Advance(s: Hal, succeeds: bool): Hal
    requires !s.device.Free?
  {
    match s.device
    case Detach(after) => // remove_echo_reference(active_output, current)
      s.(output := if s.output.echo == s.current then s.output.(echo := Null) else s.output, device := Dispose(after))
    case Dispose(after) => // release_echo_reference(current)
      s.(log := if s.current.Ref? then s.log.(released := s.log.released + [s.current.id]) else s.log,
         current := Null, device := Next(after))
    case Create => // create_echo_reference
      if s.activeOutput && succeeds
      then s.(current := Ref(s.log.created), log := s.log.(created := s.log.created + 1), device := Attach)
      else s.(device := Assign)
    case Attach => // add_echo_reference(active_output, current)
      s.(output := s.output.(echo := s.current), device := Assign)
    case Assign => s.(input := s.input.(echo := s.current), device := OpenInput)
    case OpenInput => s.(input := s.input.(standby := !succeeds, busy := succeeds), device := Free)
    case Clear => s.(input := s.input.(echo := Null, standby := true), device := Free)
  }

  /** The references a step calls into (read, write, or release). */
  function Touched(s: Hal, e: Event): set<nat>
    requires Enabled(s, e)
  {
    match e
    case OutWriteUse => RefSet(s.output.echo)
    case OutStandby => if s.output.standby then {} else RefSet(s.output.echo)
    case CloseOut => if s.output.standby then {} else RefSet(s.output.echo)
    case InReadUse => RefSet(s.input.echo)
    case InStandby(_) => if s.input.standby then {} else RefSet(s.input.echo)
    case DeviceStep(_) =>
      if s.device.Detach? then (if s.output.echo == s.current then RefSet(s.current) else {})
      else if s.device.Dispose? then RefSet(s.current)
      else {}
    case _ => {}
  }

  function RefSet(r: Ref): set<nat> {
    if r.Ref? then {r.id} else {}
  }

  predicate Live(s: Hal, id: nat) {
    id < s.log.created && id !in s.log.released
  }

  // ---------------------------------------------------------------- the invariant

  /** References are released at most once, and the ones not yet released are the current one. */
  ghost predicate Accounted(s: Hal) {
    && (forall i, j :: 0 <= i < j < |s.log.released| ==> s.log.released[i] != s.log.released[j])
    && (forall id :: id in s.log.released ==> id < s.log.created)
    && (forall id: nat :: Live(s, id) <==> s.current == Ref(id))
  }

  ghost predicate Inv(s: Hal) {
    Accounted(s) && Placed(s)
  }

  /** Where references may be, for each position of the thread holding the device mutex. */
  predicate Placed(s: Hal) {
    // an output holding a reference holds the current one and is the active output
    && (s.output.echo.Ref? ==> s.output.echo == s.current && s.activeOutput)
    && (s.activeOutput ==> s.output.open && !s.output.standby)
    && (s.output.busy ==> s.output.open && !s.output.standby)
    // so does an input, until do_input_standby, which holds its mutex, clears it
    && (s.input.echo.Ref? ==> s.input.echo == s.current || s.device.Clear?)
    && (s.input.busy ==> s.input.open && !s.input.standby && s.device.Free?)
    && (!s.device.Free? ==> s.input.open)
    && (match s.device
        case Detach(after) => s.current.Ref? && s.activeOutput && (after.Obtain? ==> s.input.echo.Null?)
        case Dispose(after) => s.current.Ref? && s.output.echo.Null? && (after.Obtain? ==> s.input.echo.Null?)
        case Create => s.current.Null? && s.input.echo.Null?
        case Attach => s.current.Ref? && s.activeOutput && s.input.echo.Null?
        case Assign => s.input.echo.Null?
        case _ => true)
  }

  lemma DeviceStepAccounted(s: Hal, succeeds: bool)
    requires Inv(s) && Enabled(s, DeviceStep(succeeds))
    ensures Accounted(Advance(s, succeeds))
  {
    var after := Advance(s, succeeds);
    forall id: nat ensures Live(after, id) <==> after.current == Ref(id) {
      assert Live(s, id) <==> s.current == Ref(id);
    }
  }

  lemma OtherStepAccounted(s: Hal, e: Event)
    requires Inv(s) && Enabled(s, e) && !e.DeviceStep?
    ensures Accounted(Apply(s, e))
  {
    var after := Apply(s, e);
    assert after.current == s.current && after.log.created == s.log.created && after.log.released == s.log.released;
    forall id: nat ensures Live(after, id) == Live(s, id) { }
  }

  lemma DeviceStepPlaced(s: Hal, succeeds: bool)
    requires Placed(s) && Enabled(s, DeviceStep(succeeds))
    ensures Placed(Advance(s, succeeds))
  {
  }

  lemma OtherStepPlaced(s: Hal, e: Event)
    requires Placed(s) && Enabled(s, e) && !e.DeviceStep?
    ensures Placed(Apply(s, e))
  {
  }

  /** Every step keeps the invariant and calls only into references that are still live. */
  lemma StepInv(s: Hal, e: Event)
    requires Inv(s) && Enabled(s, e)
    ensures Inv(Apply(s, e))
    ensures forall id :: id in Touched(s, e) ==> Live(s, id)
  {
    if e.DeviceStep? {
      DeviceStepAccounted(s, e.succeeds);
      DeviceStepPlaced(s, e.succeeds);
    } else {
      OtherStepAccounted(s, e);
      OtherStepPlaced(s, e);
    }
    forall id | id in Touched(s, e) ensures Live(s, id) {
      assert s.current == Ref(id);
    }
  }

  // ---------------------------------------------------------------- every run

  datatype Outcome = Impossible | Reached(hal: Hal)

  function Execute(events: seq<Event>): Outcome {
    if events == [] then Reached(INITIAL)
    else
      match Execute(events[..|events| - 1])
      case Impossible => Impossible
      case Reached(s) =>
        var e := events[|events| - 1];
        if Enabled(s, e) then Reached(Apply(s, e)) else Impossible
  }

  lemma {:induction false} ReachableInv(events: seq<Event>)
    ensures Execute(events).Reached? ==> Inv(Execute(events).hal)
  {
    if events == [] {
    } else {
      ReachableInv(events[..|events| - 1]);
      var before := Execute(events[..|events| - 1]);
      var e := events[|events| - 1];
      if before.Reached? && Enabled(before.hal, e) {
        StepInv(before.hal, e);
      }
    }
  }

  /** Over every run each reference is released at most once, only the current one is still
      unreleased, and every call into a reference finds it live. */
  lemma ReferencesOutliveTheirUse(events: seq<Event>, e: Event)
    requires Execute(events).Reached? && Enabled(Execute(events).hal, e)
    ensures var s := Execute(events).hal;
      && (forall i, j :: 0 <= i < j < |s.log.released| ==> s.log.released[i] != s.log.released[j])
      && (forall id: nat :: id < s.log.created ==> id in s.log.released || s.current == Ref(id))
      && (forall id :: id in Touched(s, e) ==> Live(s, id))
  {
    ReachableInv(events);
    var s := Execute(events).hal;
    StepInv(s, e);
    forall id: nat | id < s.log.created ensures id in s.log.released || s.current == Ref(id) {
      assert Live(s, id) || id in s.log.released;
    }
  }

  /** Whenever no thread is inside do_input_standby, a stream's reference is null or the
      device's current one, and an output holding one is the active output. */
  lemma StreamsHoldTheCurrentOne(events: seq<Event>)
    requires Execute(events).Reached?
    ensures var s := Execute(events).hal;
      && (s.output.echo.Ref? ==> s.output.echo == s.current && s.activeOutput && Live(s, s.output.echo.id))
      && (s.input.echo.Ref? && !s.device.Clear? ==> s.input.echo == s.current && Live(s, s.input.echo.id))
      && (s.input.busy && s.input.echo.Ref? ==> s.input.echo == s.current)
  {
    ReachableInv(events);
    var s := Execute(events).hal;
    if s.output.echo.Ref? { assert Live(s, s.output.echo.id) <==> s.current == Ref(s.output.echo.id); }
    if s.input.echo.Ref? { assert Live(s, s.input.echo.id) <==> s.current == Ref(s.input.echo.id); }
  }

  // ---------------------------------------------------------------- the streams do get the reference

  /** While there is a current reference, the active output holds it; except between the steps that
      create or release it and those that attach or detach it. */
  predicate Attached(s: Hal) {
    s.current.Ref? && s.activeOutput && !s.device.Attach? && !s.device.Dispose? ==> s.output.echo == s.current
  }

  lemma StepAttached(s: Hal, e: Event)
    requires Inv(s) && Attached(s) && Enabled(s, e)
    ensures Attached(Apply(s, e))
  {
  }

  lemma {:induction false} ActiveOutputHoldsIt(events: seq<Event>)
    requires Execute(events).Reached?
    ensures Attached(Execute(events).hal)
  {
    if events == [] {
    } else {
      var before := events[..|events| - 1];
      ActiveOutputHoldsIt(before);
      ReachableInv(before);
      StepAttached(Execute(before).hal, events[|events| - 1]);
    }
  }

  lemma ExecuteOn(events: seq<Event>, e: Event)
    requires Execute(events).Reached? && Enabled(Execute(events).hal, e)
    ensures Execute(events + [e]) == Reached(Apply(Execute(events).hal, e))
  {
    assert (events + [e])[..|events|] == events;
  }

  /** n more steps of the thread that holds the device mutex, none of which fails. */
  function Steps(n: nat): seq<Event> {
    if n == 0 then [] else Steps(n - 1) + [DeviceStep(true)]
  }

  lemma StepsOn(events: seq<Event>, n: nat)
    requires Execute(events + Steps(n)).Reached? && Enabled(Execute(events + Steps(n)).hal, DeviceStep(true))
    ensures Execute(events + Steps(n + 1)) == Reached(Advance(Execute(events + Steps(n)).hal, true))
  {
    assert events + Steps(n + 1) == (events + Steps(n)) + [DeviceStep(true)];
    ExecuteOn(events + Steps(n), DeviceStep(true));
  }

  /** From the point where a new reference is about to be created. */
  lemma CreationConnects(events: seq<Event>, k: nat)
    requires Execute(events + Steps(k)).Reached?
    requires var u := Execute(events + Steps(k)).hal; u.device.Create? && u.activeOutput && !u.output.busy
    ensures var u := Execute(events + Steps(k)).hal;
      var created := Ref(u.log.created);
      Execute(events + Steps(k + 4))
      == Reached(u.(current := created, output := u.output.(echo := created),
                    input := u.input.(echo := created, standby := false, busy := true),
                    device := Free, log := u.log.(created := u.log.created + 1)))
  {
    StepsOn(events, k);
    StepsOn(events, k + 1);
    StepsOn(events, k + 2);
    StepsOn(events, k + 3);
  }

  /** Starting an input that needs a reference, while an output is active: if nothing fails, a current
      reference is detached and released, a new one is created, and in the end both streams hold it. */
  lemma InputStartConnects(events: seq<Event>)
    requires Execute(events).Reached?
    requires var s := Execute(events).hal;
      && s.device.Free? && s.input.open && !s.input.busy && s.input.standby && s.input.need && s.input.echo.Null?
      && s.activeOutput && !s.output.busy
    ensures var s := Execute(events).hal;
      var steps := if s.current.Ref? then 6 else 4;
      && Execute(events + [InReadBegin] + Steps(steps)).Reached?
      && var after := Execute(events + [InReadBegin] + Steps(steps)).hal;
         && after.device.Free? && !after.input.standby && after.input.busy
         && after.current == Ref(s.log.created) == after.input.echo == after.output.echo
         && after.log.created == s.log.created + 1
         && after.log.released == if s.current.Ref? then s.log.released + [s.current.id] else s.log.released
  {
    var s := Execute(events).hal;
    var more := events + [InReadBegin];
    ExecuteOn(events, InReadBegin);
    assert more + Steps(0) == more;
    if s.current.Ref? {
      StepsOn(more, 0);
      StepsOn(more, 1);
      CreationConnects(more, 2);
    } else {
      CreationConnects(more, 0);
    }
  }

  /** Bringing that input into standby takes the reference from both streams and releases it. */
  lemma InputStandbyReleases(events: seq<Event>, need: bool)
    requires Execute(events).Reached?
    requires var s := Execute(events).hal;
      s.device.Free? && s.input.open && !s.input.busy && !s.input.standby && s.input.echo.Ref? && s.activeOutput && !s.output.busy
    ensures var s := Execute(events).hal;
      && Execute(events + [InStandby(need)] + Steps(3)).Reached?
      && var after := Execute(events + [InStandby(need)] + Steps(3)).hal;
         && after.device.Free? && after.input.standby && after.current.Null? && after.input.echo.Null? && after.output.echo.Null?
         && after.log.released == s.log.released + [s.input.echo.id]
  {
    var s := Execute(events).hal;
    ReachableInv(events);
    ActiveOutputHoldsIt(events);
    var more := events + [InStandby(need)];
    ExecuteOn(events, InStandby(need));
    assert more + Steps(0) == more;
    StepsOn(more, 0);
    StepsOn(more, 1);
    StepsOn(more, 2);
  }

  /** An output that becomes active while there is a current reference gets it. */
  lemma OutputStartAttaches(events: seq<Event>)
    requires Execute(events).Reached?
    requires var s := Execute(events).hal; s.device.Free? && s.output.open && !s.output.busy && s.output.standby && s.current.Ref?
    ensures var s := Execute(events).hal;
      && Execute(events + [OutWriteBegin(Opened)]).Reached?
      && var after := Execute(events + [OutWriteBegin(Opened)]).hal;
         after.activeOutput && !after.output.standby && after.output.echo == s.current == after.current
  {
    ExecuteOn(events, OutWriteBegin(Opened));
  }
}
