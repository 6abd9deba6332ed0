/**
  The event loop's task queue: any number of threads push tasks and then write the eventfd, while
  the loop polls, handles events, swaps the queue out and runs what it took. Every step is one
  atomic action of one thread, so a run is any interleaving of them.
 */
module EventLoops {

  type Task = nat

  datatype Phase =
    | Polling                 // at, or blocked in, poll
    | Handling(wake: bool)    // running handlers; `wake`: the eventfd was reported and is still unread
    | Calling                 // callingPendingFunctors_ is set, the queue not yet swapped
    | Running                 // working through the swapped batch

  datatype Loop = Loop(
    phase: Phase,
    calling: bool,            // callingPendingFunctors_
    pending: seq<Task>,       // pendingFunctors_
    batch: seq<Task>,         // what is left of the swapped-out tasks
    counter: nat,             // the eventfd
    owing: nat,               // other threads that have pushed and not yet written the eventfd
    selfOwes: bool,           // the loop thread has pushed and not yet written the eventfd
    ran: seq<Task>,           // tasks run from the queue so far
    history: seq<Task>)       // all queueInLoop calls so far, in push order

  datatype Action =
    | Push(t: Task)           // another thread pushes
    | Wake                    // another thread writes the eventfd for its push
    | SelfPush(t: Task)       // a handler or a task pushes
    | SelfWake                // and writes the eventfd, if a batch is being run
    | PollReturn              // an event, or the timeout
    | ReadCounter             // the eventfd's handler
    | EnterCalling            // the handlers are done
    | Swap
    | RunTask
    | Finish                  // the batch is done

  predicate Enabled(s: Loop, a: Action) {
    match a
    case Push(_) => true
    case Wake => s.owing > 0
    case SelfWake => s.selfOwes
    case SelfPush(_) => !s.selfOwes && (s.phase.Handling? || s.phase.Running?)
    case PollReturn => s.phase.Polling?
    case ReadCounter => s.phase.Handling? && s.phase.wake
    case EnterCalling => s.phase.Handling? && !s.phase.wake
    case Swap => s.phase.Calling?
    case RunTask => s.phase.Running? && !s.selfOwes && s.batch != []
    case Finish => s.phase.Running? && !s.selfOwes && s.batch == []
  }

  function Step(s: Loop, a: Action): Loop
    requires Enabled(s, a)
  {
    match a
    case Push(t) => s.(pending := s.pending + [t], history := s.history + [t], owing := s.owing + 1)
    case Wake => s.(owing := s.owing - 1, counter := s.counter + 1)
    case SelfPush(t) => s.(pending := s.pending + [t], history := s.history + [t], selfOwes := s.calling)
    case SelfWake => s.(selfOwes := false, counter := s.counter + 1)
    case PollReturn => s.(phase := Handling(s.counter > 0))
    case ReadCounter => s.(phase := Handling(false), counter := 0)
    case EnterCalling => s.(phase := Calling, calling := true)
    case Swap => s.(phase := Running, batch := s.pending, pending := [])
    case RunTask => s.(batch := s.batch[1..], ran := s.ran + [s.batch[0]])
    case Finish => s.(phase := Polling, calling := false)
  }

  predicate Legal(s: Loop, actions: seq<Action>)
    decreases |actions|
  {
    actions == [] || (Enabled(s, actions[0]) && Legal(Step(s, actions[0]), actions[1..]))
  }

  function Run(s: Loop, actions: seq<Action>): Loop
    requires Legal(s, actions)
    decreases |actions|
  {
    if actions == [] then s else Run(Step(s, actions[0]), actions[1..])
  }

  /** loop() starts: nothing of the queue has been swapped out, everything queued before waits. */
  predicate Starting(s: Loop) {
    s.phase.Polling? && !s.calling && s.batch == [] && !s.selfOwes && s.ran + s.pending == s.history
  }

  // ---- The history and the eventfd, by the actions of a run ----------------------------------------

  /** The task an action pushes, in whichever thread. */
  function Pushed(a: Action): seq<Task> {
    match a
    case Push(t) => [t]
    case SelfPush(t) => [t]
    case _ => []
  }

  function Pushes(actions: seq<Action>): seq<Task> {
    if actions == [] then [] else Pushed(actions[0]) + Pushes(actions[1..])
  }

  lemma HistoryGrowsByPush(s: Loop, a: Action)
    requires Enabled(s, a)
    ensures Step(s, a).history == s.history + Pushed(a)
  {
    assert s.history + [] == s.history;
  }

  lemma {:induction false} HistoryIsPushes(s: Loop, actions: seq<Action>)
    requires Legal(s, actions)
    ensures Run(s, actions).history == s.history + Pushes(actions)
    decreases |actions|
  {
    hide Enabled, Step, Pushed;
    if actions == [] {
      assert s.history + [] == s.history;
    } else {
      HistoryGrowsByPush(s, actions[0]);
      HistoryIsPushes(Step(s, actions[0]), actions[1..]);
      assert (s.history + Pushed(actions[0])) + Pushes(actions[1..])
          == s.history + (Pushed(actions[0]) + Pushes(actions[1..]));
    }
  }

  /** Pushes of other threads less their writes: those who still owe theirs. */
  function Owed(start: int, actions: seq<Action>): int
    decreases |actions|
  {
    if actions == [] then start
    else Owed(start + (if actions[0].Push? then 1 else if actions[0] == Wake then -1 else 0), actions[1..])
  }

  /** Writes of the eventfd since it was last read. */
  function Unread(start: nat, actions: seq<Action>): nat
    decreases |actions|
  {
    if actions == [] then start
    else Unread(if actions[0] == ReadCounter then 0
                else if actions[0] == Wake || actions[0] == SelfWake then start + 1
                else start, actions[1..])
  }

  lemma {:induction false} EventfdCounts(s: Loop, actions: seq<Action>)
    requires Legal(s, actions)
    ensures Run(s, actions).owing == Owed(s.owing, actions)
    ensures Run(s, actions).counter == Unread(s.counter, actions)
    decreases |actions|
  {
    if actions == [] {
    } else {
      EventfdCounts(Step(s, actions[0]), actions[1..]);
    }
  }

  /** An eventfd that is readable when poll returns is read before the loop turns to its tasks, and no other is. */
  lemma ReadableIsRead(s: Loop)
    requires s.phase.Polling?
    ensures var s' := Step(s, PollReturn);
            && (Enabled(s', ReadCounter) <==> s.counter > 0)
            && (Enabled(s', EnterCalling) <==> s.counter == 0)
            && (s.counter > 0 ==> Enabled(Step(s', ReadCounter), EnterCalling))
  {
  }

  // ---- Wakeups ---------------------------------------------------------------------------------------

  /** Whoever blocks in poll with tasks waiting is woken: the eventfd is readable, or soon will be. */
  predicate NoLostWakeup(s: Loop) {
    s.phase.Polling? && s.pending != [] ==> s.counter > 0 || s.owing > 0
  }

  ghost predicate NeverLosesWakeup(s: Loop) {
    forall actions: seq<Action> :: Legal(s, actions) ==> NoLostWakeup(Run(s, actions))
  }

  /** The order of the tasks, which no wakeup plays a part in. */
  ghost predicate Ordered(s: Loop) {
    s.ran + s.batch + s.pending == s.history && (s.batch != [] ==> s.phase.Running?)
  }

  /** Once the queue was swapped out, whatever is pushed comes with a wakeup, made or owed. */
  ghost predicate Awaited(s: Loop) {
    && (s.calling <==> s.phase.Calling? || s.phase.Running?)
    && (s.selfOwes ==> s.phase.Running?)
    && ((s.phase.Running? || s.phase.Polling?) && s.pending != [] ==> s.counter > 0 || s.owing > 0 || s.selfOwes)
  }

  lemma StepKeepsOrder(s: Loop, a: Action)
    requires Ordered(s) && Enabled(s, a)
    ensures Ordered(Step(s, a))
  {
    match a
    case Push(t) => Regroup(s, t);
    case SelfPush(t) => Regroup(s, t);
    case Swap => assert s.ran + [] + s.pending == s.ran + s.pending + [];
    case RunTask => assert s.ran + [s.batch[0]] + s.batch[1..] == s.ran + s.batch;
    case _ =>
  }

  lemma Regroup(s: Loop, t: Task)
    ensures s.ran + s.batch + (s.pending + [t]) == s.ran + s.batch + s.pending + [t]
  {
  }

  lemma {:induction false} RunKeepsOrder(s: Loop, actions: seq<Action>)
    requires Ordered(s) && Legal(s, actions)
    ensures Ordered(Run(s, actions))
    decreases |actions|
  {
    hide Enabled, Step, Ordered;
    if actions == [] {
    } else {
      StepKeepsOrder(s, actions[0]);
      RunKeepsOrder(Step(s, actions[0]), actions[1..]);
    }
  }

  /** A push by the loop's own thread owes a write exactly while tasks are being run, when a poll is ahead. */
  lemma SelfPushOwes(s: Loop, t: Task)
    requires Awaited(s) && Enabled(s, SelfPush(t))
    ensures Step(s, SelfPush(t)).selfOwes <==> s.phase.Running?
  {
  }

  lemma {:induction false} RunKeepsAwaited(s: Loop, actions: seq<Action>)
    requires Awaited(s) && Legal(s, actions)
    ensures Awaited(Run(s, actions))
    decreases |actions|
  {
    if actions == [] {
    } else {
      RunKeepsAwaited(Step(s, actions[0]), actions[1..]);
    }
  }

  /**
    No wakeup is lost in any interleaving exactly when none is lost already as loop() starts; an
    empty queue at that moment is enough.
   */
  lemma WakeupsSafeIffSafeAtStart(s: Loop)
    requires Starting(s)
    ensures NeverLosesWakeup(s)
            <==> s.pending == [] || s.counter > 0 || s.owing > 0
  {
    if NoLostWakeup(s) {
      forall actions | Legal(s, actions)
        ensures NoLostWakeup(Run(s, actions))
      {
        RunKeepsAwaited(s, actions);
        assert Awaited(Run(s, actions));
      }
    } else {
      var none: seq<Action> := [];
      assert Legal(s, none) && Run(s, none) == s;
    }
  }

  /** What the loop thread queued before loop() has no wakeup to lose: it waits for the timeout. */
  lemma QueuedBeforeLoopIsStranded()
    ensures var s := Loop(Polling, false, [7], [], 0, 0, false, [], [7]);
            Starting(s) && !NoLostWakeup(s)
  {
    assert [] + [7] == [7];
  }

  /**
    Task conservation: in every run from every start, the tasks run, then the rest of the batch,
    then the queue are the pushes in order; so tasks run in push order, each at most once.
   */
  lemma TasksRunInOrder(s: Loop, actions: seq<Action>)
    requires Starting(s) && Legal(s, actions)
    ensures var s' := Run(s, actions);
            s'.ran + s'.batch + s'.pending == s'.history == s.history + Pushes(actions) && s'.ran <= s'.history
  {
    HistoryIsPushes(s, actions);
    assert s.ran + [] + s.pending == s.history;
    RunKeepsOrder(s, actions);
  }

  /** The first h tasks are in the batch once it is swapped out, and have run when the loop polls. */
  ghost predicate Reached(s: Loop, h: nat) {
    && h <= |s.history|
    && (s.phase.Running? ==> h <= |s.ran| + |s.batch|)
    && (s.phase.Polling? ==> h <= |s.ran|)
  }

  lemma {:induction false} RunKeepsReached(s: Loop, actions: seq<Action>, h: nat)
    requires Ordered(s) && Reached(s, h) && Legal(s, actions)
    ensures Reached(Run(s, actions), h)
    decreases |actions|
  {
    if actions == [] {
    } else {
      StepKeepsOrder(s, actions[0]);
      assert |s.ran + s.batch + s.pending| == |s.history|;
      RunKeepsReached(Step(s, actions[0]), actions[1..], h);
    }
  }

  /** Whatever was queued by the time the loop is awake, even before loop(), has run whenever it polls again. */
  lemma AwakeLoopRunsAllQueued(s: Loop, actions: seq<Action>)
    requires Ordered(s) && (s.phase.Handling? || s.phase.Calling?) && Legal(s, actions)
    requires Run(s, actions).phase.Polling?
    ensures s.history <= Run(s, actions).ran
  {
    RunKeepsReached(s, actions, |s.history|);
    RunKeepsOrder(s, actions);
    HistoryGrows(s, actions);
  }

  lemma {:induction false} HistoryGrows(s: Loop, actions: seq<Action>)
    requires Legal(s, actions)
    ensures s.history <= Run(s, actions).history
    decreases |actions|
  {
    if actions == [] {
    } else {
      assert s.history <= Step(s, actions[0]).history;
      HistoryGrows(Step(s, actions[0]), actions[1..]);
    }
  }
}
