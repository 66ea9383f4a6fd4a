/**
 The pi3hat worker (`Pi3HatMoteusTransport`): callers hand over one cycle at a time and
 post events; a child thread works on them. Each region under the mutex, and each piece of
 work outside it, is one step; between any two steps any caller may come in.
*/
module Worker {
  import opened Bytes

  datatype Request = Request(frames: seq<int>, callback: int)

  /** Where the child is. */
  datatype Place =
    | Waiting                         // on the condition variable
    | Awake                           // the wait is over, the lock released
    | Cycling(seen: Option<Request>)  // in CHILD_Cycle, before and after it has read the cycle data
    | Cycled                          // the replies are stored
    | Calling(request: Request)       // the callback has been taken out
    | Checking                        // about to look at the event queue
    | Running(event: int)             // an event has been taken out
    | Stopped

  /** The shared fields, the child's place, and what has happened so far. */
  datatype State = State(
    active: bool, done: bool, cycleData: Request, queue: seq<int>, place: Place,
    accepted: seq<Request>, stored: seq<Request>, completed: seq<Request>, posted: seq<int>, ran: seq<int>)

  // ------------------------------------------------------------- steps

  /** A caller's `Cycle`; while one is active it throws and changes nothing. */
  function CycleStep(s: State, request: Request): State {
    if s.active then s
    else s.(cycleData := request, active := true, accepted := s.accepted + [request])
  }

  function PostStep(s: State, event: int): State {
    s.(queue := s.queue + [event], posted := s.posted + [event])
  }

  function ShutdownStep(s: State): State {
    s.(done := true)
  }

  /** The child's next step. It does not move while there is nothing to wake up for. */
  function ChildStep(s: State): State {
    match s.place
    case Waiting =>
      if s.done then s.(place := Stopped)
      else if s.active || s.queue != [] then s.(place := Awake)
      else s
    case Awake => s.(place := if s.active then Cycling(None) else Checking)
    case Cycling(seen) =>
      if seen == None then s.(place := Cycling(Some(s.cycleData)))
      else s.(place := Cycled, stored := s.stored + [s.cycleData])
    case Cycled => s.(active := false, place := Calling(s.cycleData))
    case Calling(request) => s.(completed := s.completed + [request], place := Checking)
    case Checking =>
      if s.queue == [] then s.(place := Waiting) else s.(place := Running(s.queue[0]), queue := s.queue[1..])
    case Running(event) => s.(ran := s.ran + [event], place := Waiting)
    case Stopped => s
  }

  datatype Action = CallCycle(request: Request) | CallPost(event: int) | CallShutdown | ChildMoves

  function Step(s: State, action: Action): State {
    match action
    case CallCycle(request) => CycleStep(s, request)
    case CallPost(event) => PostStep(s, event)
    case CallShutdown => ShutdownStep(s)
    case ChildMoves => ChildStep(s)
  }

  function Start(any: Request): State {
    State(false, false, any, [], Waiting, [], [], [], [], [])
  }

  function Run(s: State, actions: seq<Action>): State {
    if actions == [] then s else Step(Run(s, actions[..|actions| - 1]), actions[|actions| - 1])
  }

  // ------------------------------------------------------------- the invariant

  /** The cycle whose replies are stored but whose callback has not been called. */
  function Answered(s: State): seq<Request> {
    match s.place
    case Cycled => [s.cycleData]
    case Calling(request) => [request]
    case _ => []
  }

  function Current(s: State): seq<Request> {
    if s.active then [s.cycleData] else []
  }

  function Taken(s: State): seq<int> {
    match s.place
    case Running(event) => [event]
    case _ => []
  }

  predicate Inv(s: State) {
    // Every accepted cycle has been called back, is about to be, or is the active one; in that order.
    && s.accepted == s.completed + (if s.place.Calling? then [s.place.request] else []) + Current(s)
    && s.stored == s.completed + Answered(s)
    // Every posted event has run, has been taken out, or is queued; in that order.
    && s.posted == s.ran + Taken(s) + s.queue
    // The child only works on an active cycle, and the data it saw is still there.
    && (s.place.Cycling? || s.place.Cycled? ==> s.active)
    && (s.place.Cycling? && s.place.seen.Some? ==> s.place.seen.value == s.cycleData)
  }

  lemma StepKeepsInv(s: State, action: Action)
    requires Inv(s)
    ensures Inv(Step(s, action))
  {
    var s' := Step(s, action);
    match action
    case CallCycle(request) =>
      assert s.active ==> s' == s;
    case CallPost(event) =>
      assert s'.posted == s.ran + Taken(s) + (s.queue + [event]);
    case CallShutdown =>
    case ChildMoves =>
      ChildKeepsInv(s);
  }

  lemma ChildKeepsInv(s: State)
    requires Inv(s)
    ensures Inv(ChildStep(s))
  {
    match s.place
    case Checking => EventKeepsInv(s);
    case Running(event) => EventKeepsInv(s);
    case Calling(request) => CallKeepsInv(s);
    case _ =>
  }

  lemma EventKeepsInv(s: State)
    requires Inv(s) && (s.place.Checking? || s.place.Running?)
    ensures Inv(ChildStep(s))
  {
    if s.place.Checking? && s.queue != [] {
      assert s.queue == [s.queue[0]] + s.queue[1..];
      assert s.ran + [] + s.queue == s.ran + [s.queue[0]] + s.queue[1..];
    } else if s.place.Running? {
      assert s.ran + [s.place.event] + [] + s.queue == s.ran + [s.place.event] + s.queue;
    }
  }

  lemma CallKeepsInv(s: State)
    requires Inv(s) && s.place.Calling?
    ensures Inv(ChildStep(s))
  {
    var done := s.completed + [s.place.request];
    assert done + [] + Current(s) == done + Current(s) && done + [] == done;
  }

  lemma {:induction false} RunKeepsInv(any: Request, actions: seq<Action>)
    ensures Inv(Run(Start(any), actions))
    decreases |actions|
  {
    if actions != [] {
      RunKeepsInv(any, actions[..|actions| - 1]);
      StepKeepsInv(Run(Start(any), actions[..|actions| - 1]), actions[|actions| - 1]);
    }
  }

  // ------------------------------------------------------------- what callers asked for

  /** The requests of the `Cycle` calls that came in while none was active. */
  function RequestsIn(any: Request, actions: seq<Action>): seq<Request>
    decreases |actions|
  {
    if actions == [] then []
    else
      var before, last := actions[..|actions| - 1], actions[|actions| - 1];
      RequestsIn(any, before)
      + if last.CallCycle? && !Run(Start(any), before).active then [last.request] else []
  }

  /** The events of the `Post` calls. */
  function EventsIn(actions: seq<Action>): seq<int>
    decreases |actions|
  {
    if actions == [] then []
    else
      EventsIn(actions[..|actions| - 1])
      + if actions[|actions| - 1].CallPost? then [actions[|actions| - 1].event] else []
  }

  /**
   What is accounted for is what callers asked for: over any interleaving the accepted cycles are
   those requested while none was active, whole and in order, and the posted events are all that
   were posted; the cycle data is that of the last one accepted.
  */
  lemma {:induction false} AsRequested(any: Request, actions: seq<Action>)
    ensures var s := Run(Start(any), actions);
      && s.accepted == RequestsIn(any, actions) && s.posted == EventsIn(actions)
      && s.cycleData == if s.accepted == [] then any else s.accepted[|s.accepted| - 1]
    decreases |actions|
  {
    hide Step;
    if actions != [] {
      var before, last := actions[..|actions| - 1], actions[|actions| - 1];
      AsRequested(any, before);
      StepAdds(Run(Start(any), before), last);
    }
  }

  lemma StepAdds(s: State, action: Action)
    ensures var s', taken := Step(s, action), action.CallCycle? && !s.active;
      && s'.accepted == s.accepted + (if taken then [action.request] else [])
      && s'.posted == s.posted + (if action.CallPost? then [action.event] else [])
      && s'.cycleData == if taken then action.request else s.cycleData
  {
  }

  // ------------------------------------------------------------- what it means

  /**
   Over all interleavings: callbacks are called for accepted cycles only, in order and at most once
   each, and only after the replies are stored; posted events run in order and at most once each.
  */
  lemma CallbacksAndEventsInOrder(any: Request, actions: seq<Action>)
    ensures var s := Run(Start(any), actions);
      s.completed <= s.stored <= s.accepted && s.ran <= s.posted
  {
    RunKeepsInv(any, actions);
    var s := Run(Start(any), actions);
    assert s.stored == s.completed + Answered(s);
    assert s.place.Cycled? ==> s.accepted == s.completed + [] + [s.cycleData];
  }

  /** When a callback is about to be called, its cycle is no longer the active one: the callback may start the next. */
  lemma ClearedBeforeCallback(any: Request, actions: seq<Action>)
    ensures var s := Run(Start(any), actions);
      s.place.Calling? ==>
        && s.stored == s.completed + [s.place.request]
        && s.accepted == s.completed + [s.place.request] + Current(s)
  {
    RunKeepsInv(any, actions);
  }

  /** From the moment the child looks at the cycle data until it clears the cycle, no step changes the data. */
  lemma CycleDataIsStable(any: Request, actions: seq<Action>, action: Action)
    ensures var s := Run(Start(any), actions);
      s.place.Cycling? || s.place.Cycled? ==>
        && Step(s, action).cycleData == s.cycleData
        && (s.place.Cycling? && s.place.seen.Some? ==> s.place.seen.value == s.cycleData)
  {
    RunKeepsInv(any, actions);
  }

  /**
   With nothing active and the child asleep, everything accepted has been called back and
   everything posted has run.
  */
  lemma NothingForgotten(any: Request, actions: seq<Action>)
    ensures var s := Run(Start(any), actions);
      s.place == Waiting && !s.active && s.queue == [] ==> s.completed == s.accepted && s.ran == s.posted
  {
    RunKeepsInv(any, actions);
  }

  // ------------------------------------------------------------- progress

  /** An upper bound on the steps the child needs until it sleeps. */
  function Work(s: State): nat {
    40 * (|s.queue| + if s.active then 1 else 0) +
    match s.place
    case Waiting => if s.active then 20 else if s.queue == [] then 0 else 32
    case Awake => if s.active then 19 else 31
    case Cycling(seen) => if seen == None then 18 else 17
    case Cycled => 16
    case Calling(_) => 35
    case Checking => 30
    case Running(_) => 33
    case Stopped => 0
  }

  function Drain(s: State): State
    requires !s.done && s.place != Stopped && Inv(s)
    decreases Work(s)
  {
    if s.place == Waiting && !s.active && s.queue == [] then s
    else
      ChildKeepsInv(s);
      ChildWorks(s);
      Drain(ChildStep(s))
  }

  lemma ChildWorks(s: State)
    requires !s.done && s.place != Stopped && Inv(s)
    requires s.place != Waiting || s.active || s.queue != []
    ensures Work(ChildStep(s)) < Work(s)
    ensures ChildStep(s).place != Stopped && !ChildStep(s).done
    ensures ChildStep(s).accepted == s.accepted && ChildStep(s).posted == s.posted
  {
  }

  /** If it is not shut down, the child left to itself calls every callback exactly once and runs every event. */
  lemma {:induction false} EverythingCompletes(s: State)
    requires !s.done && s.place != Stopped && Inv(s)
    ensures Drain(s).completed == s.accepted && Drain(s).ran == s.posted
    decreases Work(s)
  {
    if s.place != Waiting || s.active || s.queue != [] {
      ChildKeepsInv(s);
      ChildWorks(s);
      EverythingCompletes(ChildStep(s));
    }
  }

  // ------------------------------------------------------------- nobody starves

  /** Callers may do anything but shut down. */
  predicate NoShutdown(actions: seq<Action>) {
    forall k | 0 <= k < |actions| :: actions[k] != CallShutdown
  }

  function Moves(actions: seq<Action>): nat {
    if actions == [] then 0
    else Moves(actions[..|actions| - 1]) + if actions[|actions| - 1] == ChildMoves then 1 else 0
  }

  predicate Live(s: State) {
    Inv(s) && !s.done && s.place != Stopped
  }

  /** The child's moves until its place comes round to handing out the next callback. */
  function UntilCall(place: Place): nat {
    match place
    case Calling(_) => 9
    case Checking => 8
    case Running(_) => 7
    case Waiting => 6
    case Awake => 5
    case Cycling(seen) => if seen == None then 4 else 3
    case Cycled => 2
    case Stopped => 0
  }

  /** The moves until `n` cycles have been called back. */
  function CycleRank(s: State, n: nat): nat {
    if |s.completed| >= n then 0
    else if s.place.Calling? && |s.completed| + 1 == n then 1
    else UntilCall(s.place)
  }

  /** The moves until `n` events have run: one goes round with at most one cycle in between. */
  function EventRank(s: State, n: nat): nat {
    if |s.ran| >= n then 0
    else
      8 * (n - |s.ran| - 1) +
      match s.place
      case Waiting => 8
      case Awake => 7
      case Cycling(seen) => if seen == None then 6 else 5
      case Cycled => 4
      case Calling(_) => 3
      case Checking => 2
      case Running(_) => 1
      case Stopped => 0
  }

  lemma LiveStep(s: State, action: Action)
    requires Live(s) && action != CallShutdown
    ensures Live(Step(s, action)) && s.accepted <= Step(s, action).accepted && s.posted <= Step(s, action).posted
  {
    hide Inv;
    StepKeepsInv(s, action);
  }

  /** No step of anyone takes a cycle further from its callback, and each move of the child brings it nearer. */
  lemma CycleRankStep(s: State, action: Action, n: nat)
    requires Live(s) && action != CallShutdown && n <= |s.accepted|
    ensures CycleRank(Step(s, action), n) <= CycleRank(s, n)
    ensures action == ChildMoves && CycleRank(s, n) > 0 ==> CycleRank(Step(s, action), n) < CycleRank(s, n)
  {
  }

  lemma EventRankStep(s: State, action: Action, n: nat)
    requires Live(s) && action != CallShutdown && n <= |s.posted|
    ensures EventRank(Step(s, action), n) <= EventRank(s, n)
    ensures action == ChildMoves && EventRank(s, n) > 0 ==> EventRank(Step(s, action), n) < EventRank(s, n)
  {
  }

  lemma {:induction false} RanksFall(s: State, actions: seq<Action>, n: nat, m: nat)
    requires Live(s) && NoShutdown(actions) && n <= |s.accepted| && m <= |s.posted|
    ensures var s' := Run(s, actions);
      && Live(s') && s.accepted <= s'.accepted && s.posted <= s'.posted
      && (CycleRank(s', n) == 0 || CycleRank(s', n) + Moves(actions) <= CycleRank(s, n))
      && (EventRank(s', m) == 0 || EventRank(s', m) + Moves(actions) <= EventRank(s, m))
    decreases |actions|
  {
    hide Inv, Step, CycleRank, EventRank;
    if actions != [] {
      var before, last := actions[..|actions| - 1], actions[|actions| - 1];
      RanksFall(s, before, n, m);
      LiveStep(Run(s, before), last);
      CycleRankStep(Run(s, before), last, n);
      EventRankStep(Run(s, before), last, m);
    }
  }

  /**
   Whatever callers do short of shutting down, nine moves of the child are enough to call back every
   cycle accepted before, in order; posting cannot starve a cycle.
  */
  lemma CyclesAreServed(s: State, actions: seq<Action>)
    requires Live(s) && NoShutdown(actions) && Moves(actions) >= 9
    ensures s.accepted <= Run(s, actions).completed
  {
    hide Run, Step;
    RanksFall(s, actions, |s.accepted|, 0);
    var s' := Run(s, actions);
    assert CycleRank(s', |s.accepted|) == 0;
    assert s'.completed <= s'.accepted;
  }

  /**
   Eight moves for every event posted before and not yet run are enough to run them, in order;
   cycles cannot starve them.
  */
  lemma EventsAreServed(s: State, actions: seq<Action>)
    requires Live(s) && NoShutdown(actions) && Moves(actions) >= 8 * (|s.posted| - |s.ran|)
    ensures s.posted <= Run(s, actions).ran
  {
    hide Run, Step;
    RanksFall(s, actions, 0, |s.posted|);
    var s' := Run(s, actions);
    assert EventRank(s, |s.posted|) <= 8 * (|s.posted| - |s.ran|);
    assert EventRank(s', |s.posted|) == 0;
    assert s'.ran <= s'.posted;
  }

  // ------------------------------------------------------------- the object

  class Transport {
    var active: bool
    var done: bool
    var cycleData: Request
    var queue: seq<int>
    /** The child thread's position, and the histories. */
    ghost var place: Place
    ghost var accepted: seq<Request>
    ghost var stored: seq<Request>
    ghost var completed: seq<Request>
    ghost var posted: seq<int>
    ghost var ran: seq<int>

    constructor (empty: Request)
      ensures Now() == Start(empty)
    {
      active, done, cycleData, queue, place := false, false, empty, [], Waiting;
      accepted, stored, completed, posted, ran := [], [], [], [], [];
    }

    ghost function Now(): State
      reads this
    {
      State(active, done, cycleData, queue, place, accepted, stored, completed, posted, ran)
    }

    /** False where the source throws. */
    method Cycle(request: Request) returns (ok: bool)
      modifies this
      ensures Now() == CycleStep(old(Now()), request) && ok == !old(active)
      ensures old(active) ==> Now() == old(Now())
      ensures !old(active) ==>
        Now() == old(Now()).(cycleData := request, active := true, accepted := old(accepted) + [request])
    {
      if active {
        return false;
      }
      cycleData := request;
      active := true;
      accepted := accepted + [request];
      return true;
    }

    method Post(event: int)
      modifies this
      ensures Now() == PostStep(old(Now()), event)
      ensures Now() == old(Now()).(queue := old(queue) + [event], posted := old(posted) + [event])
    {
      queue := queue + [event];
      posted := posted + [event];
    }

    method Shutdown()
      modifies this
      ensures Now() == ShutdownStep(old(Now()))
      ensures Now() == old(Now()).(done := true)
    {
      done := true;
    }

    /** The wait at the top of the loop, once its condition holds. */
    method ChildWait() returns (stop: bool)
      requires place == Waiting && (done || active || queue != [])
      modifies this`place
      ensures Now() == ChildStep(old(Now())) && stop == (place == Stopped)
      ensures place == if done then Stopped else Awake
    {
      stop := done;
      place := if done then Stopped else Awake;
    }

    /** Reads `active_` without the lock. */
    method ChildLook() returns (cycle: bool)
      requires place == Awake
      modifies this`place
      ensures Now() == ChildStep(old(Now())) && cycle == active
    {
      cycle := active;
      place := if active then Cycling(None) else Checking;
    }

    /** `CHILD_Cycle` reads the cycle data, works, and stores the replies. */
    method ChildCycle() returns (frames: seq<int>)
      requires place == Cycling(None)
      modifies this`place, this`stored
      ensures Now() == ChildStep(ChildStep(old(Now()))) && frames == cycleData.frames
      ensures stored == old(stored) + [cycleData] && place == Cycled
    {
      frames := cycleData.frames;
      place := Cycling(Some(cycleData));
      stored := stored + [cycleData];
      place := Cycled;
    }

    /** The region that clears `active_` and takes the callback out. */
    method ChildFinish() returns (callback: int)
      requires place == Cycled
      modifies this`active, this`place
      ensures Now() == ChildStep(old(Now())) && callback == cycleData.callback
      ensures !active && place == Calling(cycleData)
    {
      active := false;
      callback := cycleData.callback;
      place := Calling(cycleData);
    }

    /** The region that takes an event out. */
    method ChildPop() returns (event: Option<int>)
      requires place == Checking
      modifies this`queue, this`place
      ensures Now() == ChildStep(old(Now()))
      ensures event == if old(queue) == [] then None else Some(old(queue)[0])
      ensures queue == if old(queue) == [] then [] else old(queue)[1..]
    {
      if queue == [] {
        event := None;
        place := Waiting;
      } else {
        event := Some(queue[0]);
        place := Running(queue[0]);
        queue := queue[1..];
      }
    }
  }
}
