/** The poll loop of the sensors HAL (common/hardware/libsensors/sensors.cpp:
    sensors_poll_context_t::pollEvents) over its one driver, with reads that do not fail. */
module SensorPoll {
  import opened InputEventReader
  import opened AccelSensor
  import opened Options

  /** What the outside world does in one round of the loop: the events on offer if the driver is
      read, and the answer of poll(2). The number poll returns is the number of ready descriptors. */
  datatype Round = Round(offered: seq<InputEvent>, errno: int, accelReady: bool, wakeReady: bool)

  /** read(2) returns no more than fits into the space it is given. */
  function Granted(offered: seq<InputEvent>, space: nat): seq<InputEvent> {
    if |offered| <= space then offered else offered[..space]
  }

  function ReadyCount(round: Round): nat {
    (if round.accelReady then 1 else 0) + (if round.wakeReady then 1 else 0)
  }

  /** POLLIN for the driver at the start of round k. */
  predicate Readable(pollIn: bool, rounds: seq<Round>, k: nat)
    requires k <= |rounds|
  {
    if k == 0 then pollIn else rounds[k - 1].accelReady
  }

  /** The call goes on after this round, provided there is room. */
  predicate Continues(round: Round) {
    round.errno <= 0 && ReadyCount(round) > 0
  }

  datatype Outcome = Returned(value: int) | StillWaiting

  /** How a call for `count` events ends after this round, with `stored` events stored, if it does.
      It returns what it stored if there is no room left or, with something stored, nothing is ready.
      It returns something else if poll fails while there is room, and then the caller does not
      learn of what was stored. With nothing stored and nothing ready it waits for ever. */
  function Answer(round: Round, count: nat, stored: nat): Option<Outcome> {
    if stored == count then Some(Returned(stored))
    else if round.errno > 0 then Some(Returned(-round.errno))
    else if ReadyCount(round) > 0 then None
    else Some(if stored == 0 then StillWaiting else Returned(stored))
  }

  // ---------------------------------------------------------------- what a call should do

  /** The state in which a call begins: what has arrived, been consumed and been delivered so far, and
      the events waiting in the ring. */
  datatype Start = Start(initial: SensorEvent, scale: Scale, pollIn: bool, enabled: bool, arrived: seq<InputEvent>,
                         consumed: seq<Consumed>, delivered: seq<SensorEvent>, waiting: seq<InputEvent>)

  /** The driver has kept its accounts up to there. */
  predicate InOrder(s: Start) {
    s.arrived == EventsOf(s.consumed) + s.waiting && Decode(s.initial, s.scale, s.consumed).delivered == s.delivered
  }

  function Space(s: Start): nat {
    if |s.waiting| <= RING_SIZE then RING_SIZE - |s.waiting| else 0
  }

  /** What round k reads from the device. From the second round on the ring is empty: a further round
      is only played if the one before left room, and then it has emptied the ring. */
  function Chunk(s: Start, rounds: seq<Round>, k: nat): seq<InputEvent>
    requires k < |rounds|
  {
    if Readable(s.pollIn, rounds, k) then Granted(rounds[k].offered, if k == 0 then Space(s) else RING_SIZE) else []
  }

  /** What the first k rounds of a call that wants events read. */
  function Read(s: Start, rounds: seq<Round>, k: nat): seq<InputEvent>
    requires k <= |rounds|
  {
    if k == 0 then [] else Read(s, rounds, k - 1) + Chunk(s, rounds, k - 1)
  }

  /** What has arrived after k rounds of a call for `count` events. */
  function Arrived(count: nat, s: Start, rounds: seq<Round>, k: nat): seq<InputEvent>
    requires k <= |rounds|
  {
    if count == 0 then s.arrived else s.arrived + Read(s, rounds, k)
  }

  lemma ForecastAt(count: nat, s: Start, rounds: seq<Round>, arrivals: seq<seq<InputEvent>>, made: seq<nat>, k: nat)
    requires Forecast(count, s, rounds, arrivals, made) && k < |rounds|
    ensures arrivals[k + 1] == arrivals[k] + if count == 0 then [] else Chunk(s, rounds, k)
  {
    assert IsRound(rounds, k) && IsRound(rounds, k + 1);
    ArrivesInRound(count, s, rounds, k);
  }

  lemma ArrivesInRound(count: nat, s: Start, rounds: seq<Round>, k: nat)
    requires k < |rounds|
    ensures Arrived(count, s, rounds, k + 1)
            == Arrived(count, s, rounds, k) + if count == 0 then [] else Chunk(s, rounds, k)
  {
  }

  function Tag(events: seq<InputEvent>, enabled: bool): seq<Consumed> {
    seq(|events|, i requires 0 <= i < |events| => Consumed(events[i], enabled))
  }

  /** Everything there is to consume by the end of the first k rounds. */
  function Input(s: Start, rounds: seq<Round>, k: nat): seq<Consumed>
    requires k <= |rounds|
  {
    s.consumed + Tag(s.waiting + Read(s, rounds, k), s.enabled)
  }

  /** What has been consumed since, and what still waits, are the events that came. */
  lemma ConsumedFrom(before: seq<Consumed>, after: seq<Consumed>, enabled: bool, waits: seq<InputEvent>, came: seq<InputEvent>)
    requires before <= after && forall i :: |before| <= i < |after| ==> after[i].enabled == enabled
    requires EventsOf(after) + waits == EventsOf(before) + came
    ensures after + Tag(waits, enabled) == before + Tag(came, enabled)
  {
    var all := EventsOf(after) + waits;
    forall i | |before| <= i < |all| ensures (after + Tag(waits, enabled))[i] == (before + Tag(came, enabled))[i] {
      assert all[i] == (EventsOf(before) + came)[i];
    }
  }

  /** How many reports that makes for this call. */
  function Made(s: Start, rounds: seq<Round>, k: nat): nat
    requires k <= |rounds|
  {
    DeliveredGrows(s.initial, s.scale, s.consumed, Tag(s.waiting + Read(s, rounds, k), s.enabled));
    |Decode(s.initial, s.scale, Input(s, rounds, k)).delivered| - |Decode(s.initial, s.scale, s.consumed).delivered|
  }

  lemma {:induction false} ReadGrows(s: Start, rounds: seq<Round>, j: nat, k: nat)
    requires j <= k <= |rounds|
    ensures Read(s, rounds, j) <= Read(s, rounds, k)
  {
    if j == k {
    } else {
      ReadGrows(s, rounds, j, k - 1);
    }
  }

  lemma TagConcat(a: seq<InputEvent>, b: seq<InputEvent>, enabled: bool)
    ensures Tag(a + b, enabled) == Tag(a, enabled) + Tag(b, enabled)
  {
  }

  /** Later rounds only add reports. */
  lemma MadeGrows(s: Start, rounds: seq<Round>, j: nat, k: nat)
    requires j <= k <= |rounds|
    ensures Made(s, rounds, j) <= Made(s, rounds, k)
  {
    ReadGrows(s, rounds, j, k);
    var early, late := s.waiting + Read(s, rounds, j), s.waiting + Read(s, rounds, k);
    var more := late[|early|..];
    assert late == early + more;
    TagConcat(early, more, s.enabled);
    assert Input(s, rounds, k) == Input(s, rounds, j) + Tag(more, s.enabled);
    DeliveredGrows(s.initial, s.scale, Input(s, rounds, j), Tag(more, s.enabled));
  }

  /** The same for every number of rounds. */
  function MadeBy(s: Start, rounds: seq<Round>): (made: seq<nat>)
    ensures |made| == |rounds| + 1
  {
    seq(|rounds| + 1, k requires 0 <= k <= |rounds| => Made(s, rounds, k))
  }

  predicate IsRound(rounds: seq<Round>, k: int) {
    0 <= k <= |rounds|
  }

  /** `arrivals` and `made` list what has arrived after each round of a call that begins with its
      accounts in order, and the reports that makes. */
  ghost predicate Forecast(count: nat, s: Start, rounds: seq<Round>, arrivals: seq<seq<InputEvent>>, made: seq<nat>) {
    && |arrivals| == |made| == |rounds| + 1
    && forall k {:trigger IsRound(rounds, k)} :: IsRound(rounds, k) ==>
         InOrder(s) && arrivals[k] == Arrived(count, s, rounds, k) && made[k] == Made(s, rounds, k)
  }

  predicate Rising(made: seq<nat>) {
    forall j, k :: 0 <= j <= k < |made| ==> made[j] <= made[k]
  }

  lemma MadeRises(s: Start, rounds: seq<Round>)
    ensures Rising(MadeBy(s, rounds))
  {
    forall j, k | 0 <= j <= k <= |rounds| ensures MadeBy(s, rounds)[j] <= MadeBy(s, rounds)[k] {
      MadeGrows(s, rounds, j, k);
    }
  }

  function AtMost(n: nat, limit: nat): nat {
    if n < limit then n else limit
  }

  /** Round k left room, and a descriptor was ready. */
  predicate Passed(rounds: seq<Round>, made: seq<nat>, count: nat, k: nat) {
    k < |rounds| && k + 1 < |made| && Continues(rounds[k]) && made[k + 1] < count
  }

  /** How a call for `count` events ends after `used` rounds, if k rounds make made[k] reports: every
      round but the last left room and had a descriptor ready. The call has stored what there is
      room for, and is still waiting if it has no answer when no more rounds are given. */
  predicate Ends(rounds: seq<Round>, made: seq<nat>, used: nat, count: nat, stored: nat, outcome: Outcome) {
    && used <= |rounds| && |made| == |rounds| + 1
    && (forall k :: 0 <= k < used - 1 ==> Passed(rounds, made, count, k))
    && if used == 0 then rounds == [] && outcome == StillWaiting && stored == 0
       else
         && stored == AtMost(made[used], count)
         && match Answer(rounds[used - 1], count, stored)
            case Some(answer) => outcome == answer
            case None => outcome == StillWaiting && used == |rounds|
  }

  lemma NoAnswerBefore(rounds: seq<Round>, made: seq<nat>, used: nat, count: nat, stored: nat, outcome: Outcome, k: nat)
    requires Ends(rounds, made, used, count, stored, outcome) && k + 1 < used
    ensures Answer(rounds[k], count, AtMost(made[k + 1], count)) == None
  {
    assert Passed(rounds, made, count, k);
  }

  /** How a call ends is determined by the rounds and what they make. */
  lemma EndIsUnique(rounds: seq<Round>, made: seq<nat>, used: nat, used': nat, count: nat, stored: nat, stored': nat,
                    outcome: Outcome, outcome': Outcome)
    requires Ends(rounds, made, used, count, stored, outcome) && Ends(rounds, made, used', count, stored', outcome')
    ensures used == used' && stored == stored' && outcome == outcome'
  {
    if 0 < used < used' {
      NoAnswerBefore(rounds, made, used', count, stored', outcome', used - 1);
    } else if 0 < used' < used {
      NoAnswerBefore(rounds, made, used, count, stored, outcome, used' - 1);
    }
  }

  /** The first k rounds left room and had a descriptor ready, and `stored` events are stored. */
  predicate GoesOn(rounds: seq<Round>, made: seq<nat>, k: nat, count: nat, stored: nat) {
    && k <= |rounds| && |made| == |rounds| + 1
    && (if k == 0 then stored == 0 else stored == made[k] < count)
    && forall j :: 0 <= j < k ==> Passed(rounds, made, count, j)
  }

  lemma RoundEnds(rounds: seq<Round>, made: seq<nat>, k: nat, count: nat, before: nat, stored: nat)
    requires k < |rounds| && GoesOn(rounds, made, k, count, before) && stored == AtMost(made[k + 1], count)
    ensures match Answer(rounds[k], count, stored)
            case Some(answer) => Ends(rounds, made, k + 1, count, stored, answer)
            case None => GoesOn(rounds, made, k + 1, count, stored)
  {
    assert Answer(rounds[k], count, stored) == None ==> Passed(rounds, made, count, k);
  }

  lemma RoundsRunOut(rounds: seq<Round>, made: seq<nat>, count: nat, stored: nat)
    requires GoesOn(rounds, made, |rounds|, count, stored)
    ensures Ends(rounds, made, |rounds|, count, stored, StillWaiting)
  {
    assert rounds != [] ==> Passed(rounds, made, count, |rounds| - 1);
  }

  /** Poll succeeds and finds the driver or the wake pipe ready, and the reports made do not fill the
      room, so another round is played. */
  predicate AnotherRound(rounds: seq<Round>, made: seq<nat>, count: nat, k: nat) {
    && k < |rounds| && k + 1 < |made|
    && rounds[k].errno <= 0 && (rounds[k].accelReady || rounds[k].wakeReady) && made[k + 1] < count
  }

  /** Round k is the first after which no other is played. */
  predicate LastRound(rounds: seq<Round>, made: seq<nat>, count: nat, k: nat) {
    && k < |rounds| && (forall j :: 0 <= j < k ==> AnotherRound(rounds, made, count, j))
    && !AnotherRound(rounds, made, count, k)
  }

  lemma ContinuesIff(round: Round)
    ensures Continues(round) <==> round.errno <= 0 && (round.accelReady || round.wakeReady)
  {
  }

  lemma UsedIsLast(rounds: seq<Round>, made: seq<nat>, used: nat, count: nat, stored: nat, outcome: Outcome, k: nat)
    requires Ends(rounds, made, used, count, stored, outcome) && LastRound(rounds, made, count, k)
    ensures used == k + 1
  {
    ContinuesIff(rounds[k]);
    if used > k + 1 {
      NoAnswerBefore(rounds, made, used, count, stored, outcome, k);
    } else if 0 < used <= k {
      assert AnotherRound(rounds, made, count, used - 1);
      ContinuesIff(rounds[used - 1]);
    }
  }

  /** What a call comes back with after its last round: as many reports as there is room for if the
      input makes that many; else the error of poll; else the reports there are, if any; and else,
      with nothing ready, it waits for ever. */
  lemma OutcomeOfLastRound(rounds: seq<Round>, made: seq<nat>, used: nat, count: nat, stored: nat, outcome: Outcome, k: nat)
    requires Ends(rounds, made, used, count, stored, outcome) && LastRound(rounds, made, count, k)
    ensures outcome
            == if made[k + 1] >= count then Returned(count)
               else if rounds[k].errno > 0 then Returned(-rounds[k].errno)
               else if made[k + 1] > 0 then Returned(made[k + 1])
               else StillWaiting
  {
    UsedIsLast(rounds, made, used, count, stored, outcome, k);
    ContinuesIff(rounds[k]);
  }

  /** Without a last round the call is still waiting when no more rounds are given. */
  lemma NoLastRound(rounds: seq<Round>, made: seq<nat>, used: nat, count: nat, stored: nat, outcome: Outcome)
    requires Ends(rounds, made, used, count, stored, outcome)
    requires forall k :: 0 <= k < |rounds| ==> AnotherRound(rounds, made, count, k)
    ensures outcome == StillWaiting && used == |rounds|
  {
    if used > 0 {
      assert AnotherRound(rounds, made, count, used - 1);
      ContinuesIff(rounds[used - 1]);
    }
  }

  /** What a round adds to the events read: what is offered, as far as it fits, if the driver was found
      ready by the poll before, and nothing otherwise. */
  lemma ReadInRound(s: Start, rounds: seq<Round>, k: nat)
    requires k < |rounds|
    ensures var more := Read(s, rounds, k + 1)[|Read(s, rounds, k)|..];
      var ready := if k == 0 then s.pollIn else rounds[k - 1].accelReady;
      var space := if k > 0 then 32 else if |s.waiting| <= 32 then 32 - |s.waiting| else 0;
      && Read(s, rounds, k) <= Read(s, rounds, k + 1) && more <= rounds[k].offered
      && |more| == if !ready then 0 else if |rounds[k].offered| <= space then |rounds[k].offered| else space
  {
  }

  // ---------------------------------------------------------------- events the caller never hears of

  /** The caller gets something else than the number of events stored for it. */
  predicate Hidden(stored: nat, outcome: Outcome) {
    outcome.Returned? && stored > 0 && outcome.value != stored
  }

  /** All rounds before k have a descriptor ready, and in round k poll fails, when the input so far
      makes some reports but not enough to fill the room. */
  predicate FailsWithReports(rounds: seq<Round>, made: seq<nat>, count: nat, k: nat) {
    && k < |rounds| && k + 1 < |made|
    && (forall j :: 0 <= j < k ==> Continues(rounds[j]))
    && rounds[k].errno > 0 && 0 < made[k + 1] < count
  }

  /** A call hides events it stored exactly on such input. */
  lemma HidesStoredEventsIff(rounds: seq<Round>, made: seq<nat>, used: nat, count: nat, stored: nat, outcome: Outcome)
    requires Ends(rounds, made, used, count, stored, outcome) && Rising(made)
    ensures Hidden(stored, outcome) <==> exists k: nat :: FailsWithReports(rounds, made, count, k)
  {
    if Hidden(stored, outcome) {
      forall j | 0 <= j < used - 1 ensures Continues(rounds[j]) {
        assert Passed(rounds, made, count, j);
      }
      assert FailsWithReports(rounds, made, count, used - 1);
    }
    if k: nat :| FailsWithReports(rounds, made, count, k) {
      assert used > k + 1 ==> Passed(rounds, made, count, k);
      assert used <= k ==> Continues(rounds[used - 1]) && made[used] <= made[k + 1];
    }
  }

  lemma Hides(s: Start, rounds: seq<Round>, used: nat, count: nat, stored: nat, outcome: Outcome)
    requires Ends(rounds, MadeBy(s, rounds), used, count, stored, outcome)
    ensures Hidden(stored, outcome) <==> exists k: nat :: FailsWithReports(rounds, MadeBy(s, rounds), count, k)
  {
    MadeRises(s, rounds);
    HidesStoredEventsIff(rounds, MadeBy(s, rounds), used, count, stored, outcome);
  }

  /** A call never returns empty-handed if it was given room. */
  lemma NeverEmptyHanded(rounds: seq<Round>, made: seq<nat>, used: nat, count: nat, stored: nat, outcome: Outcome)
    requires Ends(rounds, made, used, count, stored, outcome)
    ensures outcome == Returned(0) ==> count == 0
  {
    assert used > 0 && rounds[used - 1].errno > 0 ==> -rounds[used - 1].errno != 0;
  }

  /** One axis event and one synchronisation wait in the ring, there is room for two reports, and poll
      fails with EINTR: the report is stored, and the caller sees only -EINTR. */
  lemma HidesStoredEventsExample(initial: SensorEvent, scale: Scale)
    ensures var waiting := [InputEvent(0, 0, EV_ABS, ABS_X, 1), InputEvent(1, 0, EV_SYN, 0, 0)];
      var (s, rounds) := (Start(initial, scale, true, true, waiting, [], [], waiting), [Round([], 4, true, false)]);
      && FailsWithReports(rounds, MadeBy(s, rounds), 2, 0)
      && Ends(rounds, MadeBy(s, rounds), 1, 2, 1, Returned(-4)) && Hidden(1, Returned(-4))
  {
    var waiting := [InputEvent(0, 0, EV_ABS, ABS_X, 1), InputEvent(1, 0, EV_SYN, 0, 0)];
    var s, rounds := Start(initial, scale, true, true, waiting, [], [], waiting), [Round([], 4, true, false)];
    var first, second := Consumed(waiting[0], true), Consumed(waiting[1], true);
    assert Read(s, rounds, 1) == [];
    assert Input(s, rounds, 1) == [] + [first] + [second];
    ConsumeOne(initial, scale, [], first, [waiting[0]]);
    ConsumeOne(initial, scale, [] + [first], second, [waiting[1]]);
    assert Made(s, rounds, 1) == 1;
  }

  class PollContext {
    const sensor: Accelerometer
    var pollIn: bool  // mPollFds[accel].revents & POLLIN

    /** No event is stranded: while something waits in the ring, POLLIN is still set, so the next
        call reads the driver before it waits. */
    ghost predicate Valid()
      reads this, sensor, sensor.reader, sensor.reader.buffer
    {
      sensor.Valid() && (sensor.reader.contents != [] ==> pollIn)
    }

    constructor (initial: SensorEvent, scale: Scale)
      ensures Valid() && !pollIn && fresh(sensor) && fresh(sensor.reader) && fresh(sensor.reader.buffer)
    {
      sensor := new Accelerometer(initial, scale, true);
      pollIn := false;
    }

    /** The driver's turn at the top of the loop. */
    method ServeSensor(data: array<SensorEvent>, at: nat, count: nat, offered: seq<InputEvent>) returns (nb: nat)
      requires Valid() && at + count <= data.Length
      modifies this`pollIn, sensor, sensor.reader, sensor.reader.buffer, data
      ensures Valid() && nb <= count && (nb < count ==> sensor.reader.contents == [])
      ensures sensor.delivered == old(sensor.delivered) + data[at..at + nb]
      ensures data[..at] == old(data[..at])
      ensures sensor.arrived == old(sensor.arrived)
                                + (if count != 0 && old(pollIn) then Granted(offered, old(sensor.reader.freeSpace)) else [])
      ensures sensor.enabled == old(sensor.enabled) && sensor.ConsumedSince(old(sensor.consumed))
      ensures nb == count > 0 ==> EndsWithReport(sensor.initial, sensor.scale, sensor.consumed)
    {
      nb := 0;
      if count != 0 && pollIn {
        nb := sensor.ReadEvents(data, at, count, Events(Granted(offered, sensor.reader.freeSpace)));
        if nb < count {
          pollIn := false;
        }
      }
    }

    ghost function Here(): Start
      reads this, sensor, sensor.reader
    {
      Start(sensor.initial, sensor.scale, pollIn, sensor.enabled, sensor.arrived, sensor.consumed, sensor.delivered,
            sensor.reader.contents)
    }

    /** What a call that began in state `s` and wants `count` events has done after `used` rounds, with
        `arrived` arrived altogether and `stored` events stored. The events stored are those the driver has delivered
        meanwhile, and if there is room left nothing read still waits. */
    ghost predicate Played(s: Start, arrived: seq<InputEvent>, used: nat, count: nat, data: array<SensorEvent>, stored: nat)
      reads sensor, sensor.reader, sensor.reader.buffer, data
    {
      && sensor.Valid() && sensor.initial == s.initial && sensor.scale == s.scale
      && stored <= count <= data.Length
      && sensor.delivered == s.delivered + data[..stored]
      && sensor.arrived == arrived
      && sensor.enabled == s.enabled && sensor.ConsumedSince(s.consumed)
      && (used > 0 && stored < count ==> sensor.reader.contents == [])
    }

    /** At the start of round k. */
    ghost predicate Between(s: Start, arrived: seq<InputEvent>, rounds: seq<Round>, k: nat, count: nat,
                            data: array<SensorEvent>, stored: nat)
      reads this, sensor, sensor.reader, sensor.reader.buffer, data
    {
      && Valid() && k <= |rounds| && Played(s, arrived, k, count, data, stored)
      && pollIn == Readable(s.pollIn, rounds, k)
      && sensor.reader.freeSpace == (if k == 0 then Space(s) else RING_SIZE)
      && (if k == 0 then stored == 0 else stored < count)
    }

    lemma Begins(rounds: seq<Round>, count: nat, data: array<SensorEvent>)
      requires Valid() && count <= data.Length
      ensures Between(Here(), sensor.arrived, rounds, 0, count, data, 0)
    {
    }

    lemma StartsInOrder()
      requires Valid()
      ensures InOrder(Here())
    {
    }

    /** What is consumed and what waits make up the input. */
    lemma Accounts(s: Start, rounds: seq<Round>, used: nat, count: nat, data: array<SensorEvent>, stored: nat)
      requires used <= |rounds| && Played(s, s.arrived + Read(s, rounds, used), used, count, data, stored) && InOrder(s)
      ensures sensor.consumed + Tag(sensor.reader.contents, s.enabled) == Input(s, rounds, used)
    {
      ConsumedFrom(s.consumed, sensor.consumed, s.enabled, sensor.reader.contents, s.waiting + Read(s, rounds, used));
    }

    /** The number of events stored is determined by the input. */
    lemma StoredIsMade(s: Start, rounds: seq<Round>, used: nat, count: nat, data: array<SensorEvent>, stored: nat)
      requires 0 < used <= |rounds| && Played(s, Arrived(count, s, rounds, used), used, count, data, stored) && InOrder(s)
      ensures stored == AtMost(Made(s, rounds, used), count)
    {
      if count > 0 {
        Accounts(s, rounds, used, count, data, stored);
        var waits := Tag(sensor.reader.contents, s.enabled);
        DeliveredGrows(s.initial, s.scale, sensor.consumed, waits);
        if stored < count {
          assert sensor.consumed + waits == sensor.consumed;
        }
      }
    }

    lemma PrefixGrows(data: array<SensorEvent>, sofar: seq<SensorEvent>, nb: nat)
      requires |sofar| + nb <= data.Length && data[..|sofar|] == sofar
      ensures data[..|sofar| + nb] == sofar + data[|sofar|..|sofar| + nb]
    {
    }

    /** The driver's turn in round k. */
    method ServeRound(data: array<SensorEvent>, stored: nat, remaining: nat, rounds: seq<Round>, k: nat,
                      ghost s: Start, ghost arrived: seq<InputEvent>)
      returns (nb: nat)
      requires k < |rounds| && Between(s, arrived, rounds, k, stored + remaining, data, stored)
      modifies this`pollIn, sensor, sensor.reader, sensor.reader.buffer, data
      ensures Valid() && nb <= remaining
      ensures Played(s, arrived + (if remaining == 0 then [] else Chunk(s, rounds, k)), k + 1, stored + remaining, data, stored + nb)
      ensures nb == remaining > 0 ==> EndsWithReport(sensor.initial, sensor.scale, sensor.consumed)
    {
      ghost var sofar := data[..stored];
      nb := ServeSensor(data, stored, remaining, rounds[k].offered);
      PrefixGrows(data, sofar, nb);
    }

    /** Round k. */
    method PlayRound(data: array<SensorEvent>, stored: nat, remaining: nat, rounds: seq<Round>, k: nat,
                     ghost s: Start, ghost arrived: seq<InputEvent>, ghost next: seq<InputEvent>, ghost count: nat)
      returns (nb: nat, answer: Option<Outcome>)
      requires k < |rounds| && count == stored + remaining && Between(s, arrived, rounds, k, count, data, stored)
      requires next == arrived + if count == 0 then [] else Chunk(s, rounds, k)
      modifies this`pollIn, sensor, sensor.reader, sensor.reader.buffer, data
      ensures Valid() && nb <= remaining && Played(s, next, k + 1, count, data, stored + nb)
      ensures nb == remaining > 0 ==> EndsWithReport(sensor.initial, sensor.scale, sensor.consumed)
      ensures answer == Answer(rounds[k], count, stored + nb)
      ensures answer == None ==> Between(s, next, rounds, k + 1, count, data, stored + nb)
    {
      nb := ServeRound(data, stored, remaining, rounds, k, s, arrived);
      var n := 0;
      if remaining - nb != 0 {
        n := ReadyCount(rounds[k]);
        if rounds[k].errno > 0 {
          return nb, Some(Returned(-rounds[k].errno));
        }
        if stored + nb == 0 && n == 0 {
          return nb, Some(StillWaiting);  // poll has no timeout and nothing is ready
        }
        pollIn := rounds[k].accelReady;
      }
      answer := if n == 0 || remaining - nb == 0 then Some(Returned(stored + nb)) else None;
    }

    lemma StoredIsForecast(s: Start, rounds: seq<Round>, used: nat, count: nat, data: array<SensorEvent>, stored: nat,
                           arrivals: seq<seq<InputEvent>>, made: seq<nat>)
      requires Forecast(count, s, rounds, arrivals, made) && 0 < used <= |rounds|
      requires Played(s, arrivals[used], used, count, data, stored)
      ensures stored == AtMost(made[used], count)
    {
      assert IsRound(rounds, used);
      StoredIsMade(s, rounds, used, count, data, stored);
    }

    /** Round k, and whether the call ends with it; `arrivals` and `made` are what arrives in all rounds and the reports it makes. */
    method PlayOn(data: array<SensorEvent>, stored: nat, remaining: nat, rounds: seq<Round>, k: nat,
                  ghost s: Start, ghost arrivals: seq<seq<InputEvent>>, ghost made: seq<nat>, ghost count: nat)
      returns (nb: nat, answer: Option<Outcome>)
      requires k < |rounds| && count == stored + remaining
      requires Forecast(count, s, rounds, arrivals, made)
      requires Between(s, arrivals[k], rounds, k, count, data, stored) && GoesOn(rounds, made, k, count, stored)
      modifies this`pollIn, sensor, sensor.reader, sensor.reader.buffer, data
      ensures Valid() && nb <= remaining && Played(s, arrivals[k + 1], k + 1, count, data, stored + nb)
      ensures nb == remaining > 0 ==> EndsWithReport(sensor.initial, sensor.scale, sensor.consumed)
      ensures answer == None ==> Between(s, arrivals[k + 1], rounds, k + 1, count, data, stored + nb)
      ensures match answer
              case Some(outcome) => Ends(rounds, made, k + 1, count, stored + nb, outcome)
              case None => GoesOn(rounds, made, k + 1, count, stored + nb)
    {
      ForecastAt(count, s, rounds, arrivals, made, k);
      nb, answer := PlayRound(data, stored, remaining, rounds, k, s, arrivals[k], arrivals[k + 1], count);
      StoredIsForecast(s, rounds, k + 1, count, data, stored + nb, arrivals, made);
      RoundEnds(rounds, made, k, count, stored, stored + nb);
    }

    /** The loop of pollEvents. */
    method PlayAll(data: array<SensorEvent>, count: nat, rounds: seq<Round>, ghost s: Start,
                   ghost arrivals: seq<seq<InputEvent>>, ghost made: seq<nat>)
      returns (outcome: Outcome, ghost stored: nat, ghost used: nat)
      requires Forecast(count, s, rounds, arrivals, made) && Between(s, arrivals[0], rounds, 0, count, data, 0)
      modifies this`pollIn, sensor, sensor.reader, sensor.reader.buffer, data
      ensures used <= |rounds| && Played(s, arrivals[used], used, count, data, stored) && Valid()
      ensures stored == count > 0 ==> EndsWithReport(sensor.initial, sensor.scale, sensor.consumed)
      ensures Ends(rounds, made, used, count, stored, outcome)
    {
      var remaining, nbEvents := count, 0;
      var k := 0;
      while k < |rounds|
        invariant 0 <= nbEvents && 0 <= remaining && nbEvents + remaining == count && k <= |rounds|
        invariant Between(s, arrivals[k], rounds, k, count, data, nbEvents) && GoesOn(rounds, made, k, count, nbEvents)
      {
        var nb, answer := PlayOn(data, nbEvents, remaining, rounds, k, s, arrivals, made, count);
        remaining := remaining - nb;
        nbEvents := nbEvents + nb;
        if answer != None {
          return answer.value, nbEvents, k + 1;
        }
        k := k + 1;
      }
      RoundsRunOut(rounds, made, count, nbEvents);
      return StillWaiting, nbEvents, k;
    }

    /** pollEvents, followed for as many rounds as are given; `used` of them have been played. What
        was read is what those rounds offered; what it stored is what that makes the driver deliver,
        up to the caller's count: if there was room left nothing read is still waiting, and otherwise
        consumption stopped right after the event that filled the room. It hides what it stored exactly
        if poll fails when the input so far makes reports without filling the room. */
    method PollEvents(data: array<SensorEvent>, count: nat, rounds: seq<Round>)
      returns (outcome: Outcome, ghost stored: nat, ghost used: nat)
      requires Valid() && count <= data.Length
      modifies this`pollIn, sensor, sensor.reader, sensor.reader.buffer, data
      ensures used <= |rounds| && Ends(rounds, MadeBy(old(Here()), rounds), used, count, stored, outcome)
      ensures Valid() && Played(old(Here()), Arrived(count, old(Here()), rounds, used), used, count, data, stored)
      ensures stored == count > 0 ==> EndsWithReport(sensor.initial, sensor.scale, sensor.consumed)
      ensures Hidden(stored, outcome)
              <==> exists k: nat :: FailsWithReports(rounds, MadeBy(old(Here()), rounds), count, k)
    {
      ghost var s := Here();
      ghost var arrivals := seq(|rounds| + 1, k requires 0 <= k <= |rounds| => Arrived(count, s, rounds, k));
      assert s.arrived + [] == s.arrived;
      StartsInOrder();
      Begins(rounds, count, data);
      outcome, stored, used := PlayAll(data, count, rounds, s, arrivals, MadeBy(s, rounds));
      Hides(s, rounds, used, count, stored, outcome);
    }
  }
}
