/**
 The robot's main loop: it polls for a message, turns commands into wheel speeds, stops the
 wheels after repeated timeouts, and commands the motors on every motor tick. Timers, replies
 and signals come from a schedule of passes.
*/
module ControlLoop {
  import opened Bytes
  import opened Doubles
  import opened WheelMath

  /** One poll's outcome; anything but the two words is a velocity command, as its decoder leaves it. */
  datatype Message = Timeout | Stop | Command(wanted: Demand)

  /** The current is NaN unless the reply carries it. */
  datatype Reply = Reply(motor: int, current: Double)

  /** What is polled, and what is sent: a speed for each motor, with their replies, or a stop for all. */
  datatype Event = Polled(message: Message) | Told(speeds: map<int, Double>, replies: seq<Reply>) | StoppedAll

  /** One pass of the loop: the signal flag at its start, and what its due timers do. */
  datatype Pass = Pass(signalled: bool, received: Option<Message>, motorTick: Option<seq<Reply>>)

  /** What never changes during a run. */
  datatype Setup = Setup(mode: int, limits: Limits, wheels: seq<Wheel>, motors: set<int>, currentLimit: real) {
    predicate Valid() {
      limits.Valid() && |wheels| == WHEELS
    }
  }

  /** Polls that must time out in a row before the wheels are stopped. */
  const TIMEOUT_LIMIT := 3

  const STANDSTILL: map<int, Double> := 
    map[1 := Finite(0.0), 2 := Finite(0.0), 3 := Finite(0.0), 4 := Finite(0.0)]

  /** The polls of a run so far. */
  function Polls(trace: seq<Event>): seq<Message>
    decreases |trace|
  {
    if trace == [] then []
    else Polls(trace[..|trace| - 1]) + if trace[|trace| - 1].Polled? then [trace[|trace| - 1].message] else []
  }

  lemma PollsAppend(trace: seq<Event>, event: Event)
    ensures Polls(trace + [event]) == if event.Polled? then Polls(trace) + [event.message] else Polls(trace)
  {
    assert (trace + [event])[..|trace|] == trace;
  }

  /** The timeouts since the last message. */
  function Silence(polls: seq<Message>): nat
    decreases |polls|
  {
    if polls == [] || !polls[|polls| - 1].Timeout? then 0 else Silence(polls[..|polls| - 1]) + 1
  }

  /** The last velocity commanded. */
  function LastCommand(polls: seq<Message>): Option<Demand>
    decreases |polls|
  {
    if polls == [] then None
    else if polls[|polls| - 1].Command? then Some(polls[|polls| - 1].wanted)
    else LastCommand(polls[..|polls| - 1])
  }

  lemma PollStep(polls: seq<Message>, message: Message)
    ensures Silence(polls + [message]) == if message.Timeout? then Silence(polls) + 1 else 0
    ensures LastCommand(polls + [message]) == if message.Command? then Some(message.wanted) else LastCommand(polls)
  {
    assert (polls + [message])[..|polls|] == polls;
  }

  /** The silence lasts for so many polls exactly if the last ones all timed out. */
  lemma {:induction false} SilenceAtLeast(polls: seq<Message>, silent: nat)
    ensures Silence(polls) >= silent <==>
      silent <= |polls| && forall k | |polls| - silent <= k < |polls| :: polls[k].Timeout?
    decreases |polls|
  {
    if silent > 0 && polls != [] {
      var before := polls[..|polls| - 1];
      SilenceAtLeast(before, silent - 1);
      if Silence(polls) >= silent {
        assert forall k | |polls| - silent <= k < |polls| - 1 :: polls[k] == before[k];
      } else if silent <= |polls| && polls[|polls| - 1].Timeout? {
        var k :| |before| - (silent - 1) <= k < |before| && !before[k].Timeout?;
        assert !polls[k].Timeout?;
      }
    }
  }

  /** The last command is that of the last poll that brought one. */
  lemma {:induction false} LastCommandIs(polls: seq<Message>, k: nat)
    requires k < |polls| && polls[k].Command? && forall j | k < j < |polls| :: !polls[j].Command?
    ensures LastCommand(polls) == Some(polls[k].wanted)
    decreases |polls|
  {
    if k < |polls| - 1 {
      LastCommandIs(polls[..|polls| - 1], k);
    }
  }

  lemma {:induction false} NoCommandYet(polls: seq<Message>)
    requires forall j | 0 <= j < |polls| :: !polls[j].Command?
    ensures LastCommand(polls) == None
    decreases |polls|
  {
    if polls != [] {
      NoCommandYet(polls[..|polls| - 1]);
    }
  }

  function SpeedMap(wheels: seq<Wheel>, v: Velocity): map<int, Double>
    requires |wheels| == WHEELS
  {
    map[1 := Finite(WheelSpeed(wheels[0], v)), 2 := Finite(WheelSpeed(wheels[1], v)),
        3 := Finite(WheelSpeed(wheels[2], v)), 4 := Finite(WheelSpeed(wheels[3], v))]
  }

  /** The velocity map is decided by the polls alone. */
  ghost predicate Decided(setup: Setup, polls: seq<Message>, velocities: map<int, Double>)
    requires setup.Valid()
  {
    if Silence(polls) >= TIMEOUT_LIMIT || Stop in polls then velocities == STANDSTILL
    else match LastCommand(polls)
      case None => velocities == map[]
      case Some(wanted) => Answers(setup, wanted, velocities)
  }

  /** A harmless command gives every wheel a speed of one velocity; any other gives no wheel a number. */
  ghost predicate Answers(setup: Setup, wanted: Demand, velocities: map<int, Double>)
    requires setup.Valid()
  {
    if Harmless(setup.mode, setup.limits, wanted) then
      exists followed: Velocity ::
        Follows(setup.mode, setup.limits, wanted, followed) && velocities == SpeedMap(setup.wheels, followed)
    else
      velocities.Keys == {1, 2, 3, 4} && forall id | id in velocities :: !velocities[id].Finite?
  }

  /** The wheels are asked for what is no number: by the last command, with neither a stop nor silence since. */
  predicate Poisoned(setup: Setup, polls: seq<Message>) {
    && Silence(polls) < TIMEOUT_LIMIT && Stop !in polls && LastCommand(polls).Some?
    && !Harmless(setup.mode, setup.limits, LastCommand(polls).value)
  }

  lemma DecidedStep(setup: Setup, polls: seq<Message>, message: Message, was: map<int, Double>, now: map<int, Double>)
    requires setup.Valid() && Stop !in polls && Decided(setup, polls, was)
    requires message.Timeout? ==> now == if Silence(polls) + 1 >= TIMEOUT_LIMIT then STANDSTILL else was
    requires message.Stop? ==> now == STANDSTILL
    requires message.Command? ==> Answers(setup, message.wanted, now)
    ensures Decided(setup, polls + [message], now)
  {
    hide Answers;
    PollStep(polls, message);
  }

  /** What each motor is told: its entry in the map, or zero. */
  function Orders(motors: set<int>, velocities: map<int, Double>): map<int, Double> {
    map id | id in motors :: if id in velocities then velocities[id] else Finite(0.0)
  }

  /** A motor's bound: that of its wheel, or zero without a wheel. */
  function MotorBound(setup: Setup, id: int): real
    requires setup.Valid()
  {
    if 1 <= id <= WHEELS then WheelBound(setup.wheels[id - 1], setup.limits) else 0.0
  }

  lemma AbsNotNegative(x: real)
    ensures Abs(x) >= 0.0 && Abs(0.0) == 0.0
  {
  }

  lemma BoundNotNegative(limits: Limits, wheel: Wheel)
    requires limits.Valid()
    ensures WheelBound(wheel, limits) >= 0.0
  {
    hide Abs, WheelSpeed, WheelBound;
    var still := Velocity(0.0, 0.0, 0.0);
    AbsNotNegative(0.0);
    MeetsIs(limits, still);
    WheelSpeedBound(wheel, limits, still);
    AbsNotNegative(WheelSpeed(wheel, still));
  }

  lemma FollowedMeets(mode: int, limits: Limits, wanted: Demand, followed: Velocity)
    requires limits.Valid() && mode in {SAFE, CAPPED} && Harmless(mode, limits, wanted)
    requires Follows(mode, limits, wanted, followed)
    ensures limits.Meets(followed)
  {
    MeetsIs(limits, Velocity(0.0, 0.0, 0.0));
  }

  lemma AnswerWithinBounds(setup: Setup, wanted: Demand, velocities: map<int, Double>, id: int)
    requires setup.Valid() && Answers(setup, wanted, velocities) && 1 <= id <= WHEELS
    ensures id in velocities && (velocities[id].Finite? <==> Harmless(setup.mode, setup.limits, wanted))
    ensures velocities[id].Finite? && setup.mode in {SAFE, CAPPED} ==> Abs(velocities[id].r) <= MotorBound(setup, id)
  {
    hide Abs, WheelSpeed, WheelBound, Follows, Harmless;
    if Harmless(setup.mode, setup.limits, wanted) {
      var followed :|
        Follows(setup.mode, setup.limits, wanted, followed) && velocities == SpeedMap(setup.wheels, followed);
      if setup.mode in {SAFE, CAPPED} {
        FollowedMeets(setup.mode, setup.limits, wanted, followed);
        WheelSpeedBound(setup.wheels[id - 1], setup.limits, followed);
      }
    }
  }

  /**
   Whatever was polled, a motor is told a number unless it has a wheel and the last command
   poisons it; in safe and capped modes that number is within its bound.
  */
  lemma OrderWithinBound(setup: Setup, polls: seq<Message>, velocities: map<int, Double>, id: int)
    requires setup.Valid() && Decided(setup, polls, velocities) && id in setup.motors
    ensures var order := Orders(setup.motors, velocities)[id];
      && (order.Finite? <==> !(Poisoned(setup, polls) && 1 <= id <= WHEELS))
      && (order.Finite? && setup.mode in {SAFE, CAPPED} ==> Abs(order.r) <= MotorBound(setup, id))
  {
    hide Abs, WheelSpeed, WheelBound, Silence, LastCommand, Answers, Harmless;
    AbsNotNegative(0.0);
    if 1 <= id <= WHEELS {
      BoundNotNegative(setup.limits, setup.wheels[id - 1]);
      if !(Silence(polls) >= TIMEOUT_LIMIT || Stop in polls) && LastCommand(polls).Some? {
        AnswerWithinBounds(setup, LastCommand(polls).value, velocities, id);
      }
    } else {
      OnlyWheels(setup, polls, velocities, id);
    }
  }

  lemma OnlyWheels(setup: Setup, polls: seq<Message>, velocities: map<int, Double>, id: int)
    requires setup.Valid() && Decided(setup, polls, velocities)
    ensures id in velocities ==> 1 <= id <= WHEELS
  {
  }

  /** A tick tells every motor what the polls before it decide. */
  ghost predicate Justified(setup: Setup, before: seq<Event>, event: Event)
    requires setup.Valid()
  {
    event.Told? ==> exists velocities: map<int, Double> ::
      Decided(setup, Polls(before), velocities) && event.speeds == Orders(setup.motors, velocities)
  }

  ghost predicate AlwaysJustified(setup: Setup, trace: seq<Event>)
    requires setup.Valid()
  {
    forall k | 0 <= k < |trace| :: Justified(setup, trace[..k], trace[k])
  }

  lemma JustifiedNow(setup: Setup, trace: seq<Event>, velocities: map<int, Double>, event: Event)
    requires setup.Valid() && Decided(setup, Polls(trace), velocities)
    requires event.Told? ==> event.speeds == Orders(setup.motors, velocities)
    ensures Justified(setup, trace, event)
  {
  }

  lemma JustifiedAppend(setup: Setup, trace: seq<Event>, event: Event)
    requires setup.Valid() && AlwaysJustified(setup, trace) && Justified(setup, trace, event)
    ensures AlwaysJustified(setup, trace + [event])
  {
    hide Justified;
    forall k | 0 <= k < |trace + [event]|
      ensures Justified(setup, (trace + [event])[..k], (trace + [event])[k])
    {
      assert (trace + [event])[..k] == if k < |trace| then trace[..k] else trace;
    }
  }

  /**
   Over a whole run: a tick tells every motor a number unless the last command poisons its wheel,
   in safe and capped modes never more than its bound, and after three or more silent polls it
   tells every motor to stand still.
  */
  lemma RunIsSafe(setup: Setup, trace: seq<Event>, k: nat, silent: nat)
    requires setup.Valid() && AlwaysJustified(setup, trace) && k < |trace| && trace[k].Told?
    ensures trace[k].speeds.Keys == setup.motors
    ensures forall id | id in setup.motors ::
      && (trace[k].speeds[id].Finite? <==> !(Poisoned(setup, Polls(trace[..k])) && 1 <= id <= WHEELS))
      && (trace[k].speeds[id].Finite? && setup.mode in {SAFE, CAPPED} ==>
          Abs(trace[k].speeds[id].r) <= MotorBound(setup, id))
    ensures var polls := Polls(trace[..k]);
      3 <= silent <= |polls| && (forall j | |polls| - silent <= j < |polls| :: polls[j].Timeout?) ==>
      forall id | id in setup.motors :: trace[k].speeds[id] == Finite(0.0)
  {
    hide MotorBound, Polls, Abs, Silence, LastCommand, Answers, Poisoned;
    assert Justified(setup, trace[..k], trace[k]);
    var polls := Polls(trace[..k]);
    var velocities: map<int, Double> :|
      Decided(setup, polls, velocities) && trace[k].speeds == Orders(setup.motors, velocities);
    forall id | id in setup.motors
      ensures trace[k].speeds[id].Finite? <==> !(Poisoned(setup, polls) && 1 <= id <= WHEELS)
      ensures trace[k].speeds[id].Finite? && setup.mode in {SAFE, CAPPED} ==>
        Abs(trace[k].speeds[id].r) <= MotorBound(setup, id)
    {
      OrderWithinBound(setup, polls, velocities, id);
    }
    if 3 <= silent <= |polls| && forall j | |polls| - silent <= j < |polls| :: polls[j].Timeout? {
      SilenceAtLeast(polls, silent);
    }
  }

  /**
   Over a whole run: if the last poll with a command was poll `last`, it gives numbers, no stop came
   and fewer than three time-outs have passed since, then a tick tells every motor the speed of its
   wheel, all for the one velocity that the mode makes of the command; a motor without a wheel stands
   still.
  */
  lemma MotorsFollow(setup: Setup, trace: seq<Event>, k: nat, last: nat) returns (followed: Velocity)
    requires setup.Valid() && AlwaysJustified(setup, trace) && k < |trace| && trace[k].Told?
    requires var polls := Polls(trace[..k]);
      && last < |polls| && polls[last].Command? && (forall j | last < j < |polls| :: !polls[j].Command?)
      && Stop !in polls && Harmless(setup.mode, setup.limits, polls[last].wanted)
      && (|polls| < 3 || exists j | |polls| - 3 <= j < |polls| :: !polls[j].Timeout?)
    ensures Follows(setup.mode, setup.limits, Polls(trace[..k])[last].wanted, followed)
    ensures trace[k].speeds.Keys == setup.motors
    ensures forall id | id in setup.motors ::
      trace[k].speeds[id] == Finite(if 1 <= id <= 4 then WheelSpeed(setup.wheels[id - 1], followed) else 0.0)
  {
    hide Polls, Silence, LastCommand, WheelSpeed, Follows, Harmless;
    var polls := Polls(trace[..k]);
    assert Justified(setup, trace[..k], trace[k]);
    LastCommandIs(polls, last);
    SilenceAtLeast(polls, 3);
    var velocities: map<int, Double> :|
      Decided(setup, polls, velocities) && trace[k].speeds == Orders(setup.motors, velocities);
    followed :|
      && Follows(setup.mode, setup.limits, polls[last].wanted, followed)
      && velocities == SpeedMap(setup.wheels, followed);
  }

  /** Before any command every motor is told to stand still. */
  lemma StillAtFirst(setup: Setup, trace: seq<Event>, k: nat)
    requires setup.Valid() && AlwaysJustified(setup, trace) && k < |trace| && trace[k].Told?
    requires forall j | 0 <= j < |Polls(trace[..k])| :: !Polls(trace[..k])[j].Command?
    ensures trace[k].speeds.Keys == setup.motors
    ensures forall id | id in setup.motors :: trace[k].speeds[id] == Finite(0.0)
  {
    hide Polls, Silence, LastCommand;
    assert Justified(setup, trace[..k], trace[k]);
    NoCommandYet(Polls(trace[..k]));
  }

  predicate Overcurrent(replies: seq<Reply>, limit: real) {
    exists k | 0 <= k < |replies| :: Exceeds(replies[k].current, limit)
  }

  /** A tick with an overcurrent reply. */
  predicate Alarm(setup: Setup, event: Event) {
    event.Told? && Overcurrent(event.replies, setup.currentLimit)
  }

  /** After an alarm nothing is polled or commanded; only a stop may follow. */
  ghost predicate AlarmsEnd(setup: Setup, trace: seq<Event>) {
    forall k, later | 0 <= k < later < |trace| :: Alarm(setup, trace[k]) ==> trace[later] == StoppedAll
  }

  ghost predicate AnyAlarm(setup: Setup, trace: seq<Event>) {
    exists k | 0 <= k < |trace| :: Alarm(setup, trace[k])
  }

  lemma AlarmAppend(setup: Setup, trace: seq<Event>, event: Event)
    requires AlarmsEnd(setup, trace) && (event == StoppedAll || !AnyAlarm(setup, trace))
    ensures AlarmsEnd(setup, trace + [event])
    ensures AnyAlarm(setup, trace + [event]) <==> AnyAlarm(setup, trace) || Alarm(setup, event)
  {
    hide Alarm;
    if Alarm(setup, event) {
      assert (trace + [event])[|trace|] == event;
    }
    if k :| 0 <= k < |trace| && Alarm(setup, trace[k]) {
      assert (trace + [event])[k] == trace[k];
    }
  }

  /** What holds between the passes of the loop. */
  ghost predicate Sound(setup: Setup, trace: seq<Event>, velocities: map<int, Double>, timeouts: nat) {
    && setup.Valid()
    && timeouts == Silence(Polls(trace))
    && Decided(setup, Polls(trace), velocities)
    && AlwaysJustified(setup, trace)
    && AlarmsEnd(setup, trace)
    && (Stop in Polls(trace) ==> Polled(Stop) in trace)
  }

  lemma PollKeeps(setup: Setup, trace: seq<Event>, message: Message, was: map<int, Double>, now: map<int, Double>,
                  timeouts: nat)
    requires Sound(setup, trace, was, timeouts) && !AnyAlarm(setup, trace) && Polled(Stop) !in trace
    requires message.Timeout? ==> now == if timeouts + 1 >= TIMEOUT_LIMIT then STANDSTILL else was
    requires message.Stop? ==> now == STANDSTILL
    requires message.Command? ==> Answers(setup, message.wanted, now)
    ensures Sound(setup, trace + [Polled(message)], now, if message.Timeout? then timeouts + 1 else 0)
    ensures !AnyAlarm(setup, trace + [Polled(message)])
  {
    hide Decided, Polls, Answers, AlwaysJustified, AlarmsEnd, AnyAlarm, Silence;
    PollsAppend(trace, Polled(message));
    PollStep(Polls(trace), message);
    DecidedStep(setup, Polls(trace), message, was, now);
    JustifiedAppend(setup, trace, Polled(message));
    AlarmAppend(setup, trace, Polled(message));
  }

  lemma OrderKeeps(setup: Setup, trace: seq<Event>, velocities: map<int, Double>, timeouts: nat, event: Event)
    requires Sound(setup, trace, velocities, timeouts) && !event.Polled?
      && (event == StoppedAll || !AnyAlarm(setup, trace))
    requires event.Told? ==> event.speeds == Orders(setup.motors, velocities)
    ensures Sound(setup, trace + [event], velocities, timeouts)
    ensures AnyAlarm(setup, trace + [event]) <==> AnyAlarm(setup, trace) || Alarm(setup, event)
  {
    hide Decided, Polls, AlwaysJustified, AlarmsEnd, AnyAlarm, Silence, Alarm, Justified, Orders;
    PollsAppend(trace, event);
    JustifiedNow(setup, trace, velocities, event);
    JustifiedAppend(setup, trace, event);
    AlarmAppend(setup, trace, event);
  }

  /** A run without the speeds told. */
  function Erased(trace: seq<Event>): seq<Event>
    decreases |trace|
  {
    if trace == [] then []
    else
      Erased(trace[..|trace| - 1])
      + [if trace[|trace| - 1].Told? then Told(map[], trace[|trace| - 1].replies) else trace[|trace| - 1]]
  }

  lemma ErasedAppend(trace: seq<Event>, event: Event)
    ensures Erased(trace + [event]) == Erased(trace) + [if event.Told? then Told(map[], event.replies) else event]
  {
    assert (trace + [event])[..|trace|] == trace;
  }

  /** What the due timers of one pass make happen, speeds aside. */
  function PassEvents(pass: Pass): seq<Event> {
    if pass.signalled then []
    else if pass.received == Some(Stop) then [Polled(Stop)]
    else
      (if pass.received.Some? then [Polled(pass.received.value)] else [])
      + if pass.motorTick.Some? then [Told(map[], pass.motorTick.value)] else []
  }

  /** Whether a pass gives a reason to stop. */
  predicate Ends(pass: Pass, currentLimit: real) {
    pass.signalled || pass.received == Some(Stop)
      || (pass.motorTick.Some? && Overcurrent(pass.motorTick.value, currentLimit))
  }

  /** What a schedule makes happen: every pass up to the first reason to stop, then the stop. */
  function Script(schedule: seq<Pass>, currentLimit: real): seq<Event>
    decreases |schedule|
  {
    if schedule == [] then []
    else
      PassEvents(schedule[0])
      + if Ends(schedule[0], currentLimit) then [StoppedAll] else Script(schedule[1..], currentLimit)
  }

  /**
   What one pass does: the message first, then the motors; nothing after a stop message, nothing at
   all after a signal, and a stop of all motors after any of these or a current over the limit.
  */
  lemma OnePass(message: Message, tick: Option<seq<Reply>>, replies: seq<Reply>, limit: real)
    requires !message.Stop?
    ensures var over := exists k :: 0 <= k < |replies| && Exceeds(replies[k].current, limit);
      var ended := if over then [StoppedAll] else [];
      && Script([Pass(false, Some(message), Some(replies))], limit) == [Polled(message), Told(map[], replies)] + ended
      && Script([Pass(false, None, Some(replies))], limit) == [Told(map[], replies)] + ended
    ensures Script([Pass(false, Some(message), None)], limit) == [Polled(message)]
    ensures Script([Pass(false, None, None)], limit) == []
    ensures Script([Pass(false, Some(Stop), tick)], limit) == [Polled(Stop), StoppedAll]
    ensures Script([Pass(true, Some(message), tick)], limit) == [StoppedAll]
  {
    SinglePass(Pass(false, Some(message), Some(replies)), limit);
    SinglePass(Pass(false, None, Some(replies)), limit);
    SinglePass(Pass(false, Some(message), None), limit);
    SinglePass(Pass(false, None, None), limit);
    SinglePass(Pass(false, Some(Stop), tick), limit);
    SinglePass(Pass(true, Some(message), tick), limit);
  }

  lemma SinglePass(pass: Pass, limit: real)
    ensures Script([pass], limit) == PassEvents(pass) + if Ends(pass, limit) then [StoppedAll] else []
  {
    hide Ends, PassEvents;
    assert [pass][1..] == [] && Script([], limit) == [];
  }

  /** Passes follow one another until one gives a reason to stop. */
  lemma {:induction false} ScriptConcat(a: seq<Pass>, b: seq<Pass>, limit: real)
    ensures Script(a + b, limit) ==
      if exists k :: 0 <= k < |a| && Ends(a[k], limit) then Script(a, limit) else Script(a, limit) + Script(b, limit)
    decreases |a|
  {
    hide Ends, PassEvents;
    if a == [] {
      assert a + b == b && Script(a, limit) == [];
    } else {
      assert (a + b)[1..] == a[1..] + b && (a + b)[0] == a[0];
      ScriptConcat(a[1..], b, limit);
      assert forall k | 1 <= k < |a| :: a[k] == a[1..][k - 1];
      assert forall k | 0 <= k < |a[1..]| :: a[1..][k] == a[k + 1];
    }
  }

  /** No reply of the pass carries a current. */
  predicate NoCurrents(pass: Pass) {
    pass.motorTick.Some? ==> forall k | 0 <= k < |pass.motorTick.value| :: pass.motorTick.value[k].current.NaN?
  }

  lemma NoAlarm(pass: Pass, limit: real)
    requires NoCurrents(pass)
    ensures Ends(pass, limit) <==> pass.signalled || pass.received == Some(Stop)
  {
  }

  /** Where no reply carries a current, the limit changes nothing: only a signal or a stop message ends a run. */
  lemma {:induction false} LimitDoesNotMatter(schedule: seq<Pass>, limit: real, other: real)
    requires forall k | 0 <= k < |schedule| :: NoCurrents(schedule[k])
    ensures Script(schedule, limit) == Script(schedule, other)
    ensures forall k | 0 <= k < |schedule| ::
      Ends(schedule[k], limit) <==> schedule[k].signalled || schedule[k].received == Some(Stop)
  {
    hide NoCurrents, Ends;
    if schedule != [] {
      NoAlarm(schedule[0], limit);
      NoAlarm(schedule[0], other);
      LimitDoesNotMatter(schedule[1..], limit, other);
      assert forall k | 1 <= k < |schedule| :: schedule[k] == schedule[1..][k - 1];
    }
  }

  lemma ScriptStep(schedule: seq<Pass>, i: nat, currentLimit: real)
    requires i < |schedule|
    ensures Script(schedule[i..], currentLimit)
      == PassEvents(schedule[i])
        + if Ends(schedule[i], currentLimit) then [StoppedAll] else Script(schedule[i + 1..], currentLimit)
  {
    assert schedule[i..][1..] == schedule[i + 1..];
  }

  lemma ScriptEnds(schedule: seq<Pass>, i: nat, currentLimit: real)
    requires i <= |schedule|
    ensures i == |schedule| ==> Script(schedule[i..], currentLimit) == []
    ensures i < |schedule| && schedule[i].signalled
      ==> Ends(schedule[i], currentLimit) && Script(schedule[i..], currentLimit) == [StoppedAll]
  {
  }

  class Robot {
    const limiter: Limiter
    const motors: set<int>
    const currentLimit: real
    var velocities: map<int, Double>
    var timeouts: nat
    var emergencyStop: bool
    /** Everything polled, and everything sent to the motors, in order. */
    var trace: seq<Event>

    constructor (limiter: Limiter, motors: set<int>, currentLimit: real)
      requires limiter.Valid()
      ensures Valid() && this.limiter == limiter && this.motors == motors && this.currentLimit == currentLimit
      ensures trace == [] && Running()
    {
      this.limiter, this.motors, this.currentLimit := limiter, motors, currentLimit;
      velocities, timeouts, emergencyStop, trace := map[], 0, false, [];
    }

    ghost function SetupNow(): Setup
      reads limiter
    {
      Setup(limiter.mode, limiter.limits, limiter.wheels, motors, currentLimit)
    }

    ghost predicate Valid()
      reads this, limiter
    {
      && limiter.Valid()
      && Sound(SetupNow(), trace, velocities, timeouts)
      && (emergencyStop <==> AnyAlarm(SetupNow(), trace))
    }

    /** Nothing has asked for a stop. */
    ghost predicate Running()
      reads this
    {
      !emergencyStop && StoppedAll !in trace && Polled(Stop) !in trace
    }

    /** Handles one poll's outcome; a stop message stops the motors and ends the program. */
    method Receive(message: Message) returns (exited: bool)
      requires Valid() && Running()
      modifies this, limiter`speeds
      ensures Valid() && exited == message.Stop? && !emergencyStop
      ensures trace == old(trace) + [Polled(message)] + if exited then [StoppedAll] else []
    {
      hide Sound, Decided, AnyAlarm, WheelSpeed, Follows;
      exited := false;
      match message
      case Timeout =>
        timeouts := timeouts + 1;
        if timeouts >= TIMEOUT_LIMIT {
          velocities := STANDSTILL;
        }
        trace := trace + [Polled(message)];
        PollKeeps(SetupNow(), old(trace), message, old(velocities), velocities, old(timeouts));
      case Stop =>
        velocities := STANDSTILL;
        timeouts := 0;
        ghost var polled := trace + [Polled(message)];
        PollKeeps(SetupNow(), old(trace), message, old(velocities), velocities, old(timeouts));
        trace := trace + [Polled(message)] + [StoppedAll];
        OrderKeeps(SetupNow(), polled, velocities, timeouts, StoppedAll);
        exited := true;
      case Command(wanted) =>
        timeouts := 0;
        ghost var followed: Velocity;
        var speeds: seq<Double>;
        speeds, followed := limiter.Calculate(wanted);
        velocities := map[1 := speeds[0], 2 := speeds[1], 3 := speeds[2], 4 := speeds[3]];
        assert Answers(SetupNow(), wanted, velocities);
        trace := trace + [Polled(message)];
        PollKeeps(SetupNow(), old(trace), message, old(velocities), velocities, old(timeouts));
    }

    /** Commands every motor and looks at the currents they report. */
    method MotorTick(replies: seq<Reply>)
      requires Valid() && Running()
      modifies `trace, `emergencyStop
      ensures Valid() && trace == old(trace) + [Told(Orders(motors, velocities), replies)]
      ensures emergencyStop <==> Overcurrent(replies, currentLimit)
    {
      hide Sound, AnyAlarm, Orders;
      ghost var event := Told(Orders(motors, velocities), replies);
      trace := trace + [Told(Orders(motors, velocities), replies)];
      for i := 0 to |replies|
        invariant trace == old(trace) + [event]
        invariant emergencyStop <==> exists k | 0 <= k < i :: Exceeds(replies[k].current, currentLimit)
      {
        if Exceeds(replies[i].current, currentLimit) {
          emergencyStop := true;
        }
      }
      OrderKeeps(SetupNow(), old(trace), velocities, timeouts, event);
    }

    /** One pass that no signal prevents. */
    method RunPass(pass: Pass) returns (exited: bool)
      requires Valid() && Running() && !pass.signalled
      modifies this, limiter`speeds
      ensures Valid() && old(trace) <= trace && exited == (pass.received == Some(Stop))
      ensures Erased(trace) == Erased(old(trace)) + PassEvents(pass) + if exited then [StoppedAll] else []
      ensures exited || emergencyStop <==> Ends(pass, currentLimit)
      ensures if exited then !emergencyStop && trace == old(trace) + [Polled(Stop), StoppedAll]
        else StoppedAll !in trace && Polled(Stop) !in trace
    {
      hide Sound, AnyAlarm, Orders, Overcurrent, Erased;
      exited := false;
      if pass.received.Some? {
        exited := Receive(pass.received.value);
        ErasedAppend(old(trace), Polled(pass.received.value));
        if exited {
          ErasedAppend(old(trace) + [Polled(Stop)], StoppedAll);
          assert trace == old(trace) + [Polled(Stop), StoppedAll];
          return;
        }
        assert trace == old(trace) + [Polled(pass.received.value)];
      }
      if pass.motorTick.Some? {
        ErasedAppend(trace, Told(Orders(motors, velocities), pass.motorTick.value));
        MotorTick(pass.motorTick.value);
      }
    }

    /**
     The main loop: it does what its schedule makes happen. It ends on a stop message, an
     overcurrent reply or a signal, and then its last act is to stop all motors, which it does at
     no other time.
    */
    method Run(schedule: seq<Pass>) returns (stopped: bool)
      requires Valid() && Running()
      modifies this, limiter`speeds
      ensures Valid() && old(trace) <= trace
      ensures Erased(trace) == Erased(old(trace)) + Script(schedule, currentLimit)
      ensures stopped <==> trace != [] && trace[|trace| - 1] == StoppedAll
      ensures StoppedAll !in trace[..if stopped then |trace| - 1 else |trace|]
      ensures stopped <==> exists k | 0 <= k < |schedule| :: Ends(schedule[k], currentLimit)
    {
      hide Sound, AnyAlarm, Erased, PassEvents, Script, Ends, Limiter.Valid, Setup.Valid;
      var i := 0;
      assert schedule[0..] == schedule;
      while i < |schedule| && !emergencyStop && !schedule[i].signalled
        invariant 0 <= i <= |schedule| && Valid() && old(trace) <= trace
        invariant StoppedAll !in trace && Polled(Stop) !in trace
        invariant emergencyStop <==> exists k | 0 <= k < i :: Ends(schedule[k], currentLimit)
        invariant Erased(trace) + (if emergencyStop then [StoppedAll] else Script(schedule[i..], currentLimit))
          == Erased(old(trace)) + Script(schedule, currentLimit)
        decreases |schedule| - i
      {
        ScriptStep(schedule, i, currentLimit);
        ghost var before := trace;
        var exited := RunPass(schedule[i]);
        if exited {
          assert trace[..|trace| - 1] == before + [Polled(Stop)];
          return true;
        }
        i := i + 1;
      }
      stopped := i < |schedule| || emergencyStop;
      ScriptEnds(schedule, i, currentLimit);
      if stopped {
        ghost var before := trace;
        trace := trace + [StoppedAll];
        OrderKeeps(SetupNow(), before, velocities, timeouts, StoppedAll);
        ErasedAppend(before, StoppedAll);
        assert trace[..|trace| - 1] == before;
      }
    }
  }
}
