/** The mutexes of the audio HAL (common/hardware/audio/audio_hw.c).

    Each entry point is described by the mutex operations it performs, in program order. What
    the code decides from device state (is a stream active, does a reference have to be
    released, did the driver open fail) is a field of `Call`, left to the environment. Threads
    and streams are unbounded in number, and threads interleave after every operation. */
module AudioLocks {
  import opened Options

  // ---------------------------------------------------------------- mutexes and programs

  datatype Lock = Dev | In(id: nat) | Out(id: nat)

  datatype Op = Acquire(l: Lock) | Release(l: Lock)

  /** The documented order: hw device > in stream > out stream. */
  function Rank(l: Lock): nat {
    match l
    case Dev => 0
    case In(_) => 1
    case Out(_) => 2
  }

  const MAX_RANK := 2

  /** What put_echo_reference does: nothing, or release a reference after taking it from the
      active output, if there is one. */
  datatype PutReference = NotCurrent | Current(activeOutput: Option<nat>)

  /** What start_input_stream does about the echo reference. */
  datatype StartInput = NoReference | GetReference(put: PutReference, addTo: Option<nat>)

  /** One call of an entry point, with the outcome of its branches. */
  datatype Call =
    | OutStandby(o: nat)
    | OutSetParameters(o: nat, routing: bool, forceInput: Option<(nat, PutReference)>, rawData: bool)
    | OutWrite(o: nat, idle: bool, startFails: bool, micMayChange: bool, active: Option<(nat, PutReference)>)
    | InStandby(i: nat, put: PutReference)
    | InSetParameters(i: nat, standby: Option<PutReference>)
    | InRead(i: nat, start: Option<StartInput>)
    | InAddAudioEffect(i: nat, standby: Option<PutReference>)
    | InRemoveAudioEffect(i: nat, standby: Option<PutReference>)
    | CloseOutputStream(o: nat)
    | CloseInputStream(i: nat, put: PutReference)
    | AdevOpen
    | AdevSetParameters(ttyMode: bool)
    | AdevSetMode(changesCall: bool, activeOutput: Option<nat>, activeInput: Option<(nat, PutReference)>)

  /** add_echo_reference and remove_echo_reference */
  function EditEchoReference(o: nat): seq<Op> {
    [Acquire(Out(o)), Release(Out(o))]
  }

  function PutEchoReference(p: PutReference): seq<Op> {
    if p.Current? && p.activeOutput.Some? then EditEchoReference(p.activeOutput.value) else []
  }

  /** do_input_standby takes no mutex of its own. */
  function DoInputStandby(put: PutReference): seq<Op> {
    PutEchoReference(put)
  }

  function StartInputStream(s: StartInput): seq<Op> {
    match s
    case NoReference => []
    case GetReference(put, addTo) =>
      PutEchoReference(put) + (if addTo.Some? then EditEchoReference(addTo.value) else [])
  }

  /** Bring one input stream into standby while holding the device mutex. */
  function StandbyInput(i: nat, put: PutReference): seq<Op> {
    [Acquire(In(i))] + DoInputStandby(put) + [Release(In(i))]
  }

  function StandbyActiveInput(active: Option<(nat, PutReference)>): seq<Op> {
    if active.Some? then StandbyInput(active.value.0, active.value.1) else []
  }

  /** A device section around an input section, as most input entry points have it. */
  function InSection(i: nat, body: seq<Op>): seq<Op> {
    [Acquire(Dev), Acquire(In(i))] + body + [Release(In(i)), Release(Dev)]
  }

  function MaybeStandby(standby: Option<PutReference>): seq<Op> {
    if standby.Some? then DoInputStandby(standby.value) else []
  }

  function OutStandbyTrace(o: nat): seq<Op> {
    [Acquire(Dev), Acquire(Out(o)), Release(Out(o)), Release(Dev)]
  }

  function ForceAllStandby(activeOutput: Option<nat>, activeInput: Option<(nat, PutReference)>): seq<Op> {
    (if activeOutput.Some? then EditEchoReference(activeOutput.value) else []) + StandbyActiveInput(activeInput)
  }

  /** out_write releases the device mutex before the stream mutex, and takes the device mutex
      again at the end when the microphone selection may have changed. */
  function OutWriteTrace(c: Call): seq<Op>
    requires c.OutWrite?
  {
    [Acquire(Dev), Acquire(Out(c.o)), Release(Dev), Release(Out(c.o))]
    + (if c.idle && !c.startFails && c.micMayChange
       then [Acquire(Dev)] + StandbyActiveInput(c.active) + [Release(Dev)] else [])
  }

  /** The mutex operations of one call. */
  function Trace(c: Call): seq<Op> {
    match c
    case OutStandby(o) => OutStandbyTrace(o)
    case OutSetParameters(o, routing, forceInput, rawData) =>
      (if routing
       then [Acquire(Dev), Acquire(Out(o)), Release(Out(o))] + StandbyActiveInput(forceInput) + [Release(Dev)]
       else [])
      + (if rawData then OutStandbyTrace(o) else [])
    case OutWrite(_, _, _, _, _) => OutWriteTrace(c)
    case InStandby(i, put) => InSection(i, DoInputStandby(put))
    case InSetParameters(i, standby) => InSection(i, MaybeStandby(standby))
    case InRead(i, start) =>
      [Acquire(Dev), Acquire(In(i))] + (if start.Some? then StartInputStream(start.value) else [])
      + [Release(Dev), Release(In(i))]
    case InAddAudioEffect(i, standby) => InSection(i, MaybeStandby(standby))
    case InRemoveAudioEffect(i, standby) => InSection(i, MaybeStandby(standby))
    case CloseOutputStream(o) => OutStandbyTrace(o)
    case CloseInputStream(i, put) => InSection(i, DoInputStandby(put))
    case AdevOpen => [Acquire(Dev), Release(Dev)]
    case AdevSetParameters(ttyMode) => if ttyMode then [Acquire(Dev), Release(Dev)] else []
    case AdevSetMode(changesCall, activeOutput, activeInput) =>
      [Acquire(Dev)] + (if changesCall then ForceAllStandby(activeOutput, activeInput) else []) + [Release(Dev)]
  }

  // ---------------------------------------------------------------- the lock discipline

  predicate MayAcquire(held: set<Lock>, l: Lock) {
    forall h :: h in held ==> Rank(h) < Rank(l)
  }

  /** From `held`, every acquisition goes up in rank (so no lock is taken twice), every release
      is of a lock held, and the run of operations ends holding exactly `end`. */
  predicate Disciplined(held: set<Lock>, ops: seq<Op>, end: set<Lock>)
    decreases |ops|
  {
    if ops == [] then held == end
    else
      match ops[0]
      case Acquire(l) => MayAcquire(held, l) && Disciplined(held + {l}, ops[1..], end)
      case Release(l) => l in held && Disciplined(held - {l}, ops[1..], end)
  }

  lemma {:induction false} DisciplinedConcat(held: set<Lock>, a: seq<Op>, mid: set<Lock>, b: seq<Op>, end: set<Lock>)
    requires Disciplined(held, a, mid) && Disciplined(mid, b, end)
    ensures Disciplined(held, a + b, end)
    decreases |a|
  {
    if a == [] {
      assert a + b == b;
    } else {
      assert (a + b)[1..] == a[1..] + b;
      match a[0]
      case Acquire(l) => DisciplinedConcat(held + {l}, a[1..], mid, b, end);
      case Release(l) => DisciplinedConcat(held - {l}, a[1..], mid, b, end);
    }
  }

  lemma Acquires(held: set<Lock>, l: Lock)
    requires MayAcquire(held, l)
    ensures Disciplined(held, [Acquire(l)], held + {l})
  {
  }

  lemma Releases(held: set<Lock>, l: Lock)
    requires l in held
    ensures Disciplined(held, [Release(l)], held - {l})
  {
  }

  /** Wrapping a disciplined body in one more lock. */
  lemma Wrapped(held: set<Lock>, l: Lock, body: seq<Op>)
    requires MayAcquire(held, l) && Disciplined(held + {l}, body, held + {l})
    ensures Disciplined(held, [Acquire(l)] + body + [Release(l)], held)
  {
    Acquires(held, l);
    Releases(held + {l}, l);
    assert l !in held && held + {l} - {l} == held;
    DisciplinedConcat(held, [Acquire(l)], held + {l}, body, held + {l});
    DisciplinedConcat(held, [Acquire(l)] + body, held + {l}, [Release(l)], held);
  }

  lemma EditDisciplined(held: set<Lock>, o: nat)
    requires MayAcquire(held, Out(o))
    ensures Disciplined(held, EditEchoReference(o), held)
  {
    Wrapped(held, Out(o), []);
    assert [Acquire(Out(o))] + [] + [Release(Out(o))] == EditEchoReference(o);
  }

  /** Everything done below an input section respects the order and leaves the held set alone. */
  lemma BelowInputDisciplined(i: nat, put: PutReference, start: StartInput)
    ensures Disciplined({Dev, In(i)}, DoInputStandby(put), {Dev, In(i)})
    ensures Disciplined({Dev, In(i)}, StartInputStream(start), {Dev, In(i)})
  {
    var held := {Dev, In(i)};
    forall o: nat ensures Disciplined(held, EditEchoReference(o), held) {
      EditDisciplined(held, o);
    }
    if start.GetReference? && start.addTo.Some? {
      DisciplinedConcat(held, PutEchoReference(start.put), held, EditEchoReference(start.addTo.value), held);
    }
  }

  lemma InSectionDisciplined(i: nat, body: seq<Op>)
    requires Disciplined({Dev, In(i)}, body, {Dev, In(i)})
    ensures Disciplined({}, InSection(i, body), {})
  {
    assert {Dev} + {In(i)} == {Dev, In(i)} && {} + {Dev} == {Dev};
    Wrapped({Dev}, In(i), body);
    Wrapped({}, Dev, [Acquire(In(i))] + body + [Release(In(i))]);
    assert [Acquire(Dev)] + ([Acquire(In(i))] + body + [Release(In(i))]) + [Release(Dev)] == InSection(i, body);
  }

  lemma StandbyActiveDisciplined(active: Option<(nat, PutReference)>)
    ensures Disciplined({Dev}, StandbyActiveInput(active), {Dev})
  {
    if active.Some? {
      var (i, put) := active.value;
      BelowInputDisciplined(i, put, NoReference);
      assert {Dev} + {In(i)} == {Dev, In(i)};
      Wrapped({Dev}, In(i), DoInputStandby(put));
    }
  }

  lemma OutWriteDisciplined(c: Call)
    requires c.OutWrite?
    ensures Disciplined({}, OutWriteTrace(c), {})
  {
    var d, o := {Dev}, {Out(c.o)};
    Acquires({}, Dev); Acquires(d, Out(c.o)); Releases(d + o, Dev); Releases(o, Out(c.o));
    assert {} + d == d && d + o - d == o && o - o == {};
    DisciplinedConcat({}, [Acquire(Dev)], d, [Acquire(Out(c.o))], d + o);
    DisciplinedConcat(d + o, [Release(Dev)], o, [Release(Out(c.o))], {});
    DisciplinedConcat({}, [Acquire(Dev)] + [Acquire(Out(c.o))], d + o, [Release(Dev)] + [Release(Out(c.o))], {});
    var first := [Acquire(Dev), Acquire(Out(c.o)), Release(Dev), Release(Out(c.o))];
    assert ([Acquire(Dev)] + [Acquire(Out(c.o))]) + ([Release(Dev)] + [Release(Out(c.o))]) == first;
    StandbyActiveDisciplined(c.active);
    Wrapped({}, Dev, StandbyActiveInput(c.active));
    DisciplinedConcat({}, first, {}, [Acquire(Dev)] + StandbyActiveInput(c.active) + [Release(Dev)], {});
    assert first + [] == first;
  }

  /** Every entry point, whatever its branches do, respects the documented order, takes no mutex
      it already holds and releases everything it took. */
  lemma EveryCallDisciplined(c: Call)
    ensures Disciplined({}, Trace(c), {})
  {
    match c
    case OutStandby(o) => OutStandbyDisciplined(o);
    case CloseOutputStream(o) => OutStandbyDisciplined(o);
    case OutSetParameters(o, routing, forceInput, rawData) => OutSetParametersDisciplined(c);
    case OutWrite(_, _, _, _, _) => OutWriteDisciplined(c);
    case InStandby(i, put) => BelowInputDisciplined(i, put, NoReference); InSectionDisciplined(i, DoInputStandby(put));
    case CloseInputStream(i, put) => BelowInputDisciplined(i, put, NoReference); InSectionDisciplined(i, DoInputStandby(put));
    case InSetParameters(i, standby) => MaybeStandbyDisciplined(i, standby);
    case InAddAudioEffect(i, standby) => MaybeStandbyDisciplined(i, standby);
    case InRemoveAudioEffect(i, standby) => MaybeStandbyDisciplined(i, standby);
    case InRead(i, start) => InReadDisciplined(c);
    case AdevOpen => DeviceSectionDisciplined();
    case AdevSetParameters(ttyMode) => DeviceSectionDisciplined();
    case AdevSetMode(changesCall, activeOutput, activeInput) => AdevSetModeDisciplined(c);
  }

  lemma DeviceSectionDisciplined()
    ensures Disciplined({}, [Acquire(Dev), Release(Dev)], {})
  {
    Wrapped({}, Dev, []);
    assert [Acquire(Dev)] + [] + [Release(Dev)] == [Acquire(Dev), Release(Dev)];
  }

  lemma OutStandbyDisciplined(o: nat)
    ensures Disciplined({}, OutStandbyTrace(o), {})
  {
    EditDisciplined({Dev}, o);
    Wrapped({}, Dev, EditEchoReference(o));
    assert [Acquire(Dev)] + EditEchoReference(o) + [Release(Dev)] == OutStandbyTrace(o);
  }

  lemma OutSetParametersDisciplined(c: Call)
    requires c.OutSetParameters?
    ensures Disciplined({}, Trace(c), {})
  {
    var body := EditEchoReference(c.o) + StandbyActiveInput(c.forceInput);
    EditDisciplined({Dev}, c.o);
    StandbyActiveDisciplined(c.forceInput);
    DisciplinedConcat({Dev}, EditEchoReference(c.o), {Dev}, StandbyActiveInput(c.forceInput), {Dev});
    assert {} + {Dev} == {Dev};
    Wrapped({}, Dev, body);
    var routed := [Acquire(Dev), Acquire(Out(c.o)), Release(Out(c.o))] + StandbyActiveInput(c.forceInput) + [Release(Dev)];
    assert [Acquire(Dev)] + body + [Release(Dev)] == routed;
    OutStandbyDisciplined(c.o);
    var a := if c.routing then routed else [];
    var b := if c.rawData then OutStandbyTrace(c.o) else [];
    DisciplinedConcat({}, a, {}, b, {});
  }

  lemma MaybeStandbyDisciplined(i: nat, standby: Option<PutReference>)
    ensures Disciplined({}, InSection(i, MaybeStandby(standby)), {})
  {
    if standby.Some? { BelowInputDisciplined(i, standby.value, NoReference); }
    InSectionDisciplined(i, MaybeStandby(standby));
  }

  lemma InReadDisciplined(c: Call)
    requires c.InRead?
    ensures Disciplined({}, Trace(c), {})
  {
    var i := c.i;
    var both := {Dev, In(i)};
    var body := if c.start.Some? then StartInputStream(c.start.value) else [];
    if c.start.Some? { BelowInputDisciplined(i, NotCurrent, c.start.value); }
    assert {} + {Dev} == {Dev} && {Dev} + {In(i)} == both && both - {Dev} == {In(i)} && {In(i)} - {In(i)} == {};
    assert Disciplined(both, [], both);
    var enter, leave := [Acquire(Dev), Acquire(In(i))], [Release(Dev), Release(In(i))];
    Acquires({}, Dev); Acquires({Dev}, In(i)); Releases(both, Dev); Releases({In(i)}, In(i));
    DisciplinedConcat({}, [Acquire(Dev)], {Dev}, [Acquire(In(i))], both);
    DisciplinedConcat(both, [Release(Dev)], {In(i)}, [Release(In(i))], {});
    assert [Acquire(Dev)] + [Acquire(In(i))] == enter && [Release(Dev)] + [Release(In(i))] == leave;
    DisciplinedConcat({}, enter, both, body, both);
    DisciplinedConcat({}, enter + body, both, leave, {});
  }

  lemma AdevSetModeDisciplined(c: Call)
    requires c.AdevSetMode?
    ensures Disciplined({}, Trace(c), {})
  {
    var first := if c.activeOutput.Some? then EditEchoReference(c.activeOutput.value) else [];
    if c.activeOutput.Some? { EditDisciplined({Dev}, c.activeOutput.value); }
    StandbyActiveDisciplined(c.activeInput);
    DisciplinedConcat({Dev}, first, {Dev}, StandbyActiveInput(c.activeInput), {Dev});
    var body := if c.changesCall then ForceAllStandby(c.activeOutput, c.activeInput) else [];
    assert {} + {Dev} == {Dev};
    assert Disciplined({Dev}, [], {Dev});
    Wrapped({}, Dev, body);
  }

  // ---------------------------------------------------------------- what the calls lock

  /** The streams whose state a call works on, under the device mutex: its own, the active ones it
      brings into standby, and the active output it takes an echo reference from or gives one to. */
  function WorksOn(c: Call): set<Lock> {
    match c
    case OutStandby(o) => {Out(o)}
    case CloseOutputStream(o) => {Out(o)}
    case OutSetParameters(o, routing, forceInput, rawData) =>
      (if routing || rawData then {Out(o)} else {}) + (if routing then StandbyWorksOn(forceInput) else {})
    case OutWrite(o, idle, startFails, micMayChange, active) =>
      {Out(o)} + (if idle && !startFails && micMayChange then StandbyWorksOn(active) else {})
    case InStandby(i, put) => {In(i)} + PutWorksOn(put)
    case CloseInputStream(i, put) => {In(i)} + PutWorksOn(put)
    case InSetParameters(i, standby) => {In(i)} + (if standby.Some? then PutWorksOn(standby.value) else {})
    case InAddAudioEffect(i, standby) => {In(i)} + (if standby.Some? then PutWorksOn(standby.value) else {})
    case InRemoveAudioEffect(i, standby) => {In(i)} + (if standby.Some? then PutWorksOn(standby.value) else {})
    case InRead(i, start) =>
      {In(i)} + (if start.Some? then StartWorksOn(start.value) else {})
    case AdevOpen => {}
    case AdevSetParameters(_) => {}
    case AdevSetMode(changesCall, activeOutput, activeInput) =>
      if changesCall then (if activeOutput.Some? then {Out(activeOutput.value)} else {}) + StandbyWorksOn(activeInput) else {}
  }

  function PutWorksOn(put: PutReference): set<Lock> {
    if put.Current? && put.activeOutput.Some? then {Out(put.activeOutput.value)} else {}
  }

  function StandbyWorksOn(active: Option<(nat, PutReference)>): set<Lock> {
    if active.Some? then {In(active.value.0)} + PutWorksOn(active.value.1) else {}
  }

  function Acquired(ops: seq<Op>): set<Lock> {
    set op | op in ops && op.Acquire? :: op.l
  }

  lemma AcquiredConcat(a: seq<Op>, b: seq<Op>)
    ensures Acquired(a + b) == Acquired(a) + Acquired(b)
  {
  }

  lemma AcquiredParts(put: PutReference, active: Option<(nat, PutReference)>, o: nat)
    ensures Acquired(PutEchoReference(put)) == PutWorksOn(put)
    ensures Acquired(StandbyActiveInput(active)) == StandbyWorksOn(active)
    ensures Acquired(EditEchoReference(o)) == {Out(o)}
  {
  }

  lemma AcquiredInSection(i: nat, body: seq<Op>)
    ensures Acquired(InSection(i, body)) == {Dev, In(i)} + Acquired(body)
  {
  }

  /** Every call takes the mutex of each stream it works on, that of the device if it works on any, and
      no others. */
  lemma CallsLockWhatTheyWorkOn(c: Call)
    ensures Acquired(Trace(c)) - {Dev} == WorksOn(c)
    ensures WorksOn(c) != {} ==> Trace(c)[..1] == [Acquire(Dev)]
  {
    match c
    case InStandby(i, put) => AcquiredInSection(i, DoInputStandby(put)); AcquiredParts(put, None, 0);
    case CloseInputStream(i, put) => AcquiredInSection(i, DoInputStandby(put)); AcquiredParts(put, None, 0);
    case InSetParameters(i, standby) => AcquiredByStandby(i, standby);
    case InAddAudioEffect(i, standby) => AcquiredByStandby(i, standby);
    case InRemoveAudioEffect(i, standby) => AcquiredByStandby(i, standby);
    case InRead(_, _) => AcquiredByRead(c);
    case OutWrite(_, _, _, _, _) => AcquiredByWrite(c);
    case OutSetParameters(_, _, _, _) => AcquiredBySetParameters(c);
    case AdevSetMode(_, _, _) => AcquiredBySetMode(c);
    case _ =>
  }

  lemma AcquiredByStandby(i: nat, standby: Option<PutReference>)
    ensures Acquired(InSection(i, MaybeStandby(standby)))
            == {Dev, In(i)} + if standby.Some? then PutWorksOn(standby.value) else {}
  {
    AcquiredInSection(i, MaybeStandby(standby));
    if standby.Some? { AcquiredParts(standby.value, None, 0); }
  }

  function StartWorksOn(start: StartInput): set<Lock> {
    match start
    case NoReference => {}
    case GetReference(put, addTo) => PutWorksOn(put) + if addTo.Some? then {Out(addTo.value)} else {}
  }

  lemma AcquiredByStart(start: StartInput)
    ensures Acquired(StartInputStream(start)) == StartWorksOn(start)
  {
    if start.GetReference? {
      AcquiredParts(start.put, None, if start.addTo.Some? then start.addTo.value else 0);
      AcquiredConcat(PutEchoReference(start.put), if start.addTo.Some? then EditEchoReference(start.addTo.value) else []);
    }
  }

  lemma AcquiredByRead(c: Call)
    requires c.InRead?
    ensures Acquired(Trace(c)) - {Dev} == WorksOn(c) && Trace(c)[..1] == [Acquire(Dev)]
  {
    var body := if c.start.Some? then StartInputStream(c.start.value) else [];
    var enter, leave := [Acquire(Dev), Acquire(In(c.i))], [Release(Dev), Release(In(c.i))];
    AcquiredConcat(enter + body, leave);
    AcquiredConcat(enter, body);
    if c.start.Some? { AcquiredByStart(c.start.value); }
  }

  lemma AcquiredByWrite(c: Call)
    requires c.OutWrite?
    ensures Acquired(Trace(c)) - {Dev} == WorksOn(c) && Trace(c)[..1] == [Acquire(Dev)]
  {
    AcquiredParts(NotCurrent, c.active, 0);
    var standby := StandbyActiveInput(c.active);
    AcquiredConcat([Acquire(Dev)] + standby, [Release(Dev)]);
    AcquiredConcat([Acquire(Dev)], standby);
  }

  lemma AcquiredBySetParameters(c: Call)
    requires c.OutSetParameters?
    ensures Acquired(Trace(c)) - {Dev} == WorksOn(c)
    ensures c.routing || c.rawData ==> Trace(c)[..1] == [Acquire(Dev)]
  {
    AcquiredParts(NotCurrent, c.forceInput, 0);
    var enter, standby := [Acquire(Dev), Acquire(Out(c.o)), Release(Out(c.o))], StandbyActiveInput(c.forceInput);
    AcquiredConcat(enter + standby, [Release(Dev)]);
    AcquiredConcat(enter, standby);
    var routed := enter + standby + [Release(Dev)];
    AcquiredConcat(if c.routing then routed else [], if c.rawData then OutStandbyTrace(c.o) else []);
  }

  lemma AcquiredBySetMode(c: Call)
    requires c.AdevSetMode?
    ensures Acquired(Trace(c)) - {Dev} == WorksOn(c) && Trace(c)[..1] == [Acquire(Dev)]
  {
    var first := if c.activeOutput.Some? then EditEchoReference(c.activeOutput.value) else [];
    AcquiredParts(NotCurrent, c.activeInput, if c.activeOutput.Some? then c.activeOutput.value else 0);
    AcquiredConcat(first, StandbyActiveInput(c.activeInput));
    var body := if c.changesCall then ForceAllStandby(c.activeOutput, c.activeInput) else [];
    AcquiredConcat([Acquire(Dev)] + body, [Release(Dev)]);
    AcquiredConcat([Acquire(Dev)], body);
  }

  // ---------------------------------------------------------------- threads

  /** The mutex operations of a thread that makes these calls one after the other. */
  function Program(calls: seq<Call>): seq<Op> {
    if calls == [] then [] else Trace(calls[0]) + Program(calls[1..])
  }

  lemma {:induction false} ProgramDisciplined(calls: seq<Call>)
    ensures Disciplined({}, Program(calls), {})
  {
    if calls == [] {
    } else {
      EveryCallDisciplined(calls[0]);
      ProgramDisciplined(calls[1..]);
      DisciplinedConcat({}, Trace(calls[0]), {}, Program(calls[1..]), {});
    }
  }

  /** `todo[t]` is what thread t still has to do; `owner` maps each locked mutex to its thread. */
  datatype System = System(todo: seq<seq<Op>>, owner: map<Lock, nat>)

  function Boot(threads: seq<seq<Call>>): System {
    System(seq(|threads|, t requires 0 <= t < |threads| => Program(threads[t])), map[])
  }

  function Held(s: System, t: nat): set<Lock> {
    set l | l in s.owner && s.owner[l] == t
  }

  predicate Finished(s: System, t: nat) {
    t >= |s.todo| || s.todo[t] == []
  }

  /** A thread can move if it is not waiting for a locked mutex. These mutexes are not recursive:
      a thread that asks for one it holds waits for itself. */
  predicate CanStep(s: System, t: nat) {
    && !Finished(s, t)
    && match s.todo[t][0]
       case Acquire(l) => l !in s.owner
       case Release(l) => true
  }

  function Step(s: System, t: nat): System
    requires CanStep(s, t)
  {
    var todo := s.todo[t := s.todo[t][1..]];
    match s.todo[t][0]
    case Acquire(l) => System(todo, s.owner[l := t])
    case Release(l) => System(todo, s.owner - {l})
  }

  /** Thread t waits for a mutex that thread u holds. */
  predicate WaitsFor(s: System, t: nat, u: nat) {
    && !Finished(s, t)
    && s.todo[t][0].Acquire?
    && s.todo[t][0].l in s.owner
    && s.owner[s.todo[t][0].l] == u
  }

  ghost predicate Inv(s: System) {
    && (forall t: nat :: t < |s.todo| ==> Disciplined(Held(s, t), s.todo[t], {}))
    && (forall l :: l in s.owner ==> s.owner[l] < |s.todo|)
  }

  lemma BootInv(threads: seq<seq<Call>>)
    ensures Inv(Boot(threads))
  {
    forall t: nat | t < |threads| ensures Disciplined(Held(Boot(threads), t), Boot(threads).todo[t], {}) {
      ProgramDisciplined(threads[t]);
      assert Held(Boot(threads), t) == {};
    }
  }

  lemma StepInv(s: System, t: nat)
    requires Inv(s) && CanStep(s, t)
    ensures Inv(Step(s, t))
  {
    var after := Step(s, t);
    var l := s.todo[t][0].l;
    assert Disciplined(Held(s, t), s.todo[t], {});
    forall u: nat | u < |after.todo| ensures Disciplined(Held(after, u), after.todo[u], {}) {
      if u == t {
        assert Held(after, t) == if s.todo[t][0].Acquire? then Held(s, t) + {l} else Held(s, t) - {l};
      } else {
        assert Disciplined(Held(s, u), s.todo[u], {});
        assert Held(after, u) == Held(s, u);
      }
    }
  }

  // ---------------------------------------------------------------- every run

  datatype Outcome = Impossible | Reached(system: System)

  /** The state after the threads have moved in the order given by `schedule`. */
  function Execute(threads: seq<seq<Call>>, schedule: seq<nat>): Outcome {
    if schedule == [] then Reached(Boot(threads))
    else
      match Execute(threads, schedule[..|schedule| - 1])
      case Impossible => Impossible
      case Reached(s) =>
        var t := schedule[|schedule| - 1];
        if CanStep(s, t) then Reached(Step(s, t)) else Impossible
  }

  lemma {:induction false} ReachableInv(threads: seq<seq<Call>>, schedule: seq<nat>)
    ensures Execute(threads, schedule).Reached? ==> Inv(Execute(threads, schedule).system)
  {
    if schedule == [] {
      BootInv(threads);
    } else {
      ReachableInv(threads, schedule[..|schedule| - 1]);
      var before := Execute(threads, schedule[..|schedule| - 1]);
      var t := schedule[|schedule| - 1];
      if before.Reached? && CanStep(before.system, t) {
        StepInv(before.system, t);
      }
    }
  }

  /** The rank of the mutex a thread is about to take, 0 if it is not about to take one. */
  function WantedRank(s: System, t: nat): nat {
    if !Finished(s, t) && s.todo[t][0].Acquire? then Rank(s.todo[t][0].l) else 0
  }

  /** Following the wait-for relation, the rank of the wanted mutex goes up; so nobody waits for
      itself, directly or around a cycle, and whoever holds a mutex has work left. */
  lemma WaitingGoesUp(s: System, t: nat, u: nat)
    requires Inv(s) && WaitsFor(s, t, u)
    ensures t != u && !Finished(s, u)
    ensures s.todo[u][0].Acquire? ==> WantedRank(s, t) < WantedRank(s, u)
  {
    var l := s.todo[t][0].l;
    assert l in Held(s, u);
    assert Disciplined(Held(s, u), s.todo[u], {});
    assert Disciplined(Held(s, t), s.todo[t], {});
  }

  /** A chain of waiting threads. */
  predicate WaitChain(s: System, chain: seq<nat>) {
    forall k :: 0 <= k < |chain| - 1 ==> WaitsFor(s, chain[k], chain[k + 1])
  }

  lemma {:induction false} ChainRank(s: System, chain: seq<nat>)
    requires Inv(s) && WaitChain(s, chain) && |chain| >= 2
    ensures WantedRank(s, chain[0]) + |chain| - 2 <= WantedRank(s, chain[|chain| - 2])
  {
    assert WaitsFor(s, chain[0], chain[1]);
    if |chain| == 2 {
    } else {
      assert WaitsFor(s, chain[1], chain[2]);
      WaitingGoesUp(s, chain[0], chain[1]);
      assert WaitChain(s, chain[1..]) by {
        forall k | 0 <= k < |chain[1..]| - 1 ensures WaitsFor(s, chain[1..][k], chain[1..][k + 1]) {
          assert WaitsFor(s, chain[k + 1], chain[k + 2]);
        }
      }
      ChainRank(s, chain[1..]);
    }
  }

  /** The wait-for relation is acyclic in every reachable state, and its chains are short. */
  lemma WaitForAcyclic(threads: seq<seq<Call>>, schedule: seq<nat>, chain: seq<nat>)
    requires Execute(threads, schedule).Reached? && |chain| >= 2
    requires WaitChain(Execute(threads, schedule).system, chain)
    ensures chain[0] != chain[|chain| - 1]
    ensures |chain| <= MAX_RANK + 2
  {
    var s := Execute(threads, schedule).system;
    ReachableInv(threads, schedule);
    ChainRank(s, chain);
    var n := |chain|;
    assert WaitsFor(s, chain[n - 2], chain[n - 1]);
    assert WaitsFor(s, chain[0], chain[1]);
    WaitingGoesUp(s, chain[n - 2], chain[n - 1]);
  }

  /** Follow the holders upwards until somebody can move. */
  lemma {:induction false} SomebodyMoves(s: System, t: nat) returns (u: nat)
    requires Inv(s) && !Finished(s, t)
    ensures CanStep(s, u)
    decreases MAX_RANK - WantedRank(s, t)
  {
    if CanStep(s, t) {
      u := t;
    } else {
      var h := s.owner[s.todo[t][0].l];
      assert WaitsFor(s, t, h);
      WaitingGoesUp(s, t, h);
      if CanStep(s, h) {
        u := h;
      } else {
        u := SomebodyMoves(s, h);
      }
    }
  }

  lemma HolderUnfinished(s: System, l: Lock)
    requires Inv(s) && l in s.owner
    ensures !Finished(s, s.owner[l])
  {
    assert l in Held(s, s.owner[l]);
    assert Disciplined(Held(s, s.owner[l]), s.todo[s.owner[l]], {});
  }

  /** No reachable state is deadlocked: while some thread has work left, some thread can move;
      and once all are done, every mutex is free. */
  lemma NoDeadlock(threads: seq<seq<Call>>, schedule: seq<nat>)
    requires Execute(threads, schedule).Reached?
    ensures var s := Execute(threads, schedule).system;
      && ((exists t: nat :: !Finished(s, t)) ==> exists u: nat :: CanStep(s, u))
      && ((forall t: nat :: Finished(s, t)) ==> s.owner == map[])
  {
    var s := Execute(threads, schedule).system;
    ReachableInv(threads, schedule);
    if t: nat :| !Finished(s, t) {
      var u := SomebodyMoves(s, t);
    }
    forall l | l in s.owner ensures !Finished(s, s.owner[l]) {
      HolderUnfinished(s, l);
    }
  }

  // ---------------------------------------------------------------- every run can be finished

  /** The number of operations the threads still have to do. */
  function Remaining(todo: seq<seq<Op>>): nat {
    if todo == [] then 0 else |todo[0]| + Remaining(todo[1..])
  }

  lemma {:induction false} OneLess(todo: seq<seq<Op>>, t: nat)
    requires t < |todo| && todo[t] != []
    ensures Remaining(todo[t := todo[t][1..]]) == Remaining(todo) - 1
  {
    if t == 0 {
      assert todo[t := todo[t][1..]][1..] == todo[1..];
    } else {
      OneLess(todo[1..], t - 1);
      assert todo[t := todo[t][1..]][1..] == todo[1..][t - 1 := todo[1..][t - 1][1..]];
    }
  }

  lemma {:induction false} NothingRemains(todo: seq<seq<Op>>)
    requires Remaining(todo) == 0
    ensures forall t :: 0 <= t < |todo| ==> todo[t] == []
  {
    if todo == [] {
    } else {
      NothingRemains(todo[1..]);
      assert forall t :: 0 < t < |todo| ==> todo[t] == todo[1..][t - 1];
    }
  }

  lemma {:induction false} SomethingRemains(todo: seq<seq<Op>>) returns (t: nat)
    requires Remaining(todo) > 0
    ensures t < |todo| && todo[t] != []
  {
    if todo[0] != [] {
      t := 0;
    } else {
      t := SomethingRemains(todo[1..]);
      t := t + 1;
    }
  }

  lemma ExecuteOn(threads: seq<seq<Call>>, schedule: seq<nat>, t: nat)
    requires Execute(threads, schedule).Reached? && CanStep(Execute(threads, schedule).system, t)
    ensures Execute(threads, schedule + [t]) == Reached(Step(Execute(threads, schedule).system, t))
  {
    assert (schedule + [t])[..|schedule|] == schedule;
  }

  /** Every step does one of the operations the threads began with, so no run has more steps. */
  lemma {:induction false} StepsCountDown(threads: seq<seq<Call>>, schedule: seq<nat>)
    requires Execute(threads, schedule).Reached?
    ensures |schedule| + Remaining(Execute(threads, schedule).system.todo) == Remaining(Boot(threads).todo)
  {
    if schedule == [] {
    } else {
      var before, t := schedule[..|schedule| - 1], schedule[|schedule| - 1];
      StepsCountDown(threads, before);
      OneLess(Execute(threads, before).system.todo, t);
    }
  }

  /** Every run can be carried on until all threads have done all their calls, with all mutexes free. */
  lemma {:induction false} EveryRunCanFinish(threads: seq<seq<Call>>, schedule: seq<nat>) returns (whole: seq<nat>)
    requires Execute(threads, schedule).Reached?
    ensures schedule <= whole && Execute(threads, whole).Reached?
    ensures forall t: nat :: Finished(Execute(threads, whole).system, t)
    ensures Execute(threads, whole).system.owner == map[]
    decreases Remaining(Execute(threads, schedule).system.todo)
  {
    var s := Execute(threads, schedule).system;
    ReachableInv(threads, schedule);
    if Remaining(s.todo) == 0 {
      NothingRemains(s.todo);
      NoDeadlock(threads, schedule);
      whole := schedule;
    } else {
      var t := SomethingRemains(s.todo);
      var u := SomebodyMoves(s, t);
      ExecuteOn(threads, schedule, u);
      OneLess(s.todo, u);
      whole := EveryRunCanFinish(threads, schedule + [u]);
    }
  }
}
