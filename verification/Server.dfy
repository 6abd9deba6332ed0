/**
  A server's connections across loops: the accepting loop (number 0) keeps the table of connections,
  every connection lives in one loop, and the two sides reach each other through task queues. Each
  action is one task or event handler, run to its end in its loop, or one step of a call made in any
  thread; a run is any interleaving.
 */
module Servers {
  import opened ConnectionStates

  type Id = nat             // connection names are distinct, so a name is its number
  type LoopNo = nat

  datatype Task =
    | Establish(c: Id)      // connectEstablished
    | Remove(c: Id)         // removeConnectionInLoop
    | Destroy(c: Id)        // connectDestroyed

  /** What happened to a connection, in the order it happened. */
  datatype Entry = Established(c: Id) | Closed(c: Id) | Erased(c: Id) | Destroyed(c: Id)

  datatype Server = Server(
    next: Id,                      // nxtConnId_, from 0
    connections: set<Id>,          // connections_
    home: map<Id, LoopNo>,         // the loop of each connection ever made
    states: map<Id, State>,
    calls: multiset<Id>,           // calls of shutdown() or forceClose() that tested the state and have not set it
    queues: seq<seq<Task>>,        // one task queue for each loop
    log: seq<Entry>)

  function Start(loops: nat): Server
    requires loops >= 1
  {
    Server(0, {}, map[], map[], multiset{}, seq(loops, _ => []), [])
  }

  // ---- Actions ---------------------------------------------------------------------------------

  datatype Action =
    | Accept(k: LoopNo)            // newConnection; loop k was chosen for it
    | RunTask(k: LoopNo)           // loop k runs its oldest task
    | Close(c: Id)                 // handleClose in the connection's loop
    | Test(c: Id)                  // shutdown() or forceClose(), in any thread, tests the state
    | Set(c: Id)                   // and sets it

  function Enqueue(s: Server, k: LoopNo, t: Task): Server
    requires k < |s.queues|
  {
    s.(queues := s.queues[k := s.queues[k] + [t]])
  }

  /**
    The assertions of a task: connectEstablished finds the connection connecting, the erase finds its
    one entry, and a connection that is destroyed is disconnected, as its destructor asserts. (Those of
    the channel's own destructor are a matter of the poller.)
   */
  predicate TaskAsserts(s: Server, t: Task) {
    && t.c in s.states && t.c in s.home && s.home[t.c] < |s.queues|
    && (t.Establish? ==> s.states[t.c] == Connecting)
    && (t.Remove? ==> t.c in s.connections)
    && (t.Destroy? ==> s.states[t.c] == Disconnected)
  }

  /** The loop whose thread a task asserts to run in. */
  function LoopOf(s: Server, t: Task): LoopNo
    requires t.Remove? || t.c in s.home
  {
    if t.Remove? then 0 else s.home[t.c]
  }

  /** All assertions of a task that loop `here` performs. */
  predicate Asserted(s: Server, here: LoopNo, t: Task) {
    TaskAsserts(s, t) && here == LoopOf(s, t)
  }

  /** What performing a task does before the task it may post in turn. */
  function Done(s: Server, t: Task): Server
    requires TaskAsserts(s, t)
  {
    match t
    case Establish(c) => s.(states := s.states[c := Connected], log := s.log + [Established(c)])
    case Remove(c) => s.(connections := s.connections - {c}, log := s.log + [Erased(c)])
    case Destroy(c) => s.(log := s.log + [Destroyed(c)])
  }

  function Perform(s: Server, t: Task): Server
    requires TaskAsserts(s, t)
  {
    if t.Remove? then Enqueue(Done(s, t), s.home[t.c], Destroy(t.c)) else Done(s, t)
  }

  /** runInLoop from loop `here`: at once in the same loop, else through the queue of loop `k`. */
  function RunInLoop(s: Server, here: LoopNo, k: LoopNo, t: Task): Server
    requires k < |s.queues|
    requires here == k ==> TaskAsserts(s, t)
  {
    if here == k then Perform(s, t) else Enqueue(s, k, t)
  }

  /**
    When an action may come. `Close` is guarded by its own assertion. Nobody outside the server holds a
    connection before it is established: the callback connectEstablished makes is the first to get it.
    A connection that a call set back to disconnecting after it closed can close again: a sendInLoop posted
    before the close finds it disconnecting, buffers, and puts its channel back on the poller.
   */
  predicate Enabled(s: Server, a: Action) {
    match a
    case Accept(k) => k < |s.queues|
    case RunTask(k) => k < |s.queues| && s.queues[k] != []
    case Close(c) => c in s.states && (s.states[c] == Connected || s.states[c] == Disconnecting)
    case Test(c) => c in s.states && s.states[c] != Connecting
    case Set(c) => c in s.calls && c in s.states
  }

  function Accepted(s: Server, k: LoopNo): Server {
    s.(next := s.next + 1, connections := s.connections + {s.next}, home := s.home[s.next := k],
       states := s.states[s.next := Connecting])
  }

  function Closing(s: Server, c: Id): Server {
    s.(states := s.states[c := Disconnected], log := s.log + [Closed(c)])
  }

  function Popped(s: Server, k: LoopNo): Server
    requires k < |s.queues| && s.queues[k] != []
  {
    s.(queues := s.queues[k := s.queues[k][1..]])
  }

  /** The assertions above, along an action; that of handleClose is the guard of `Close`. */
  predicate Asserts(s: Server, a: Action)
    requires Enabled(s, a)
  {
    match a
    case Accept(k) => k == 0 ==> Asserted(Accepted(s, k), 0, Establish(s.next))
    case RunTask(k) => Asserted(Popped(s, k), k, s.queues[k][0])
    case Close(c) =>
      && c in s.home && 0 < |s.queues|
      && (s.home[c] == 0 ==> Asserted(Closing(s, c), s.home[c], Remove(c)))
    case Test(_) => true
    case Set(_) => true
  }

  function Step(s: Server, a: Action): Server
    requires Enabled(s, a) && Asserts(s, a)
  {
    match a
    case Accept(k) => RunInLoop(Accepted(s, k), 0, k, Establish(s.next))
    case RunTask(k) => Perform(Popped(s, k), s.queues[k][0])
    case Close(c) => RunInLoop(Closing(s, c), s.home[c], 0, Remove(c))
    case Test(c) => if s.states[c] == Connected then s.(calls := s.calls + multiset{c}) else s
    case Set(c) => s.(states := s.states[c := Disconnecting], calls := s.calls - multiset{c})
  }

  // ---- What each action does -----------------------------------------------------------------------

  /** A connection is made for loop k and waits there to be established; in the accepting loop it is at once. */
  lemma AcceptDoes(s: Server, k: LoopNo)
    requires Enabled(s, Accept(k)) && Asserts(s, Accept(k))
    ensures var s' := Step(s, Accept(k));
            && s'.next == s.next + 1 && s'.connections == s.connections + {s.next}
            && s'.home == s.home[s.next := k] && s'.calls == s.calls
            && s'.states == s.states[s.next := if k == 0 then Connected else Connecting]
            && s'.queues == (if k == 0 then s.queues else s.queues[k := s.queues[k] + [Establish(s.next)]])
            && s'.log == s.log + (if k == 0 then [Established(s.next)] else [])
  {
  }

  /** The oldest task finds what it asserts and is run; a removed connection waits in its loop to be destroyed. */
  lemma RunTaskDoes(s: Server, k: LoopNo)
    requires Enabled(s, RunTask(k)) && Asserts(s, RunTask(k))
    ensures var s', t, rest := Step(s, RunTask(k)), s.queues[k][0], s.queues[k := s.queues[k][1..]];
            && s'.next == s.next && s'.home == s.home && s'.calls == s.calls
            && s'.connections == (if t.Remove? then s.connections - {t.c} else s.connections)
            && s'.states == (if t.Establish? then s.states[t.c := Connected] else s.states)
            && (!t.Remove? ==> s'.queues == rest)
            && (t.Remove? ==> s'.queues == rest[s.home[t.c] := rest[s.home[t.c]] + [Destroy(t.c)]])
            && (t.Establish? ==> s.states[t.c] == Connecting) && (t.Destroy? ==> s.states[t.c] == Disconnected)
            && (t.Remove? ==> t.c in s.connections)
            && s'.log == s.log + [match t case Establish(c) => Established(c) case Remove(c) => Erased(c)
                                          case Destroy(c) => Destroyed(c)]
  {
  }

  /** A closed connection waits in the accepting loop to be removed; if it lives there it is at once. */
  lemma CloseDoes(s: Server, c: Id)
    requires Enabled(s, Close(c)) && Asserts(s, Close(c))
    ensures var s', here := Step(s, Close(c)), s.home[c] == 0;
            && s'.next == s.next && s'.home == s.home && s'.calls == s.calls && (here ==> c in s.connections)
            && s'.connections == (if here then s.connections - {c} else s.connections)
            && s'.states == s.states[c := Disconnected]
            && s'.queues == s.queues[0 := s.queues[0] + [if here then Destroy(c) else Remove(c)]]
            && s'.log == s.log + (if here then [Closed(c), Erased(c)] else [Closed(c)])
  {
  }

  /** A call counts as on its way from a test that finds the connection connected; setting leaves it disconnecting. */
  lemma CallsDo(s: Server, c: Id)
    ensures Enabled(s, Test(c)) ==>
              Step(s, Test(c)) == if s.states[c] == Connected then s.(calls := s.calls + multiset{c}) else s
    ensures Enabled(s, Set(c)) ==>
              Step(s, Set(c)) == s.(states := s.states[c := Disconnecting], calls := s.calls - multiset{c})
  {
  }

  /** The loop in whose thread an action runs. */
  function ActionLoop(s: Server, a: Action): LoopNo
    requires Enabled(s, a)
  {
    match a
    case Accept(_) => 0
    case RunTask(k) => k
    case Close(c) => if c in s.home then s.home[c] else 0
    case _ => 0
  }

  /** What an action makes happen to a connection, it does in the connection's loop; erasing, in the accepting loop. */
  predicate InItsLoop(s: Server, a: Action)
    requires Enabled(s, a) && Asserts(s, a)
  {
    var s' := Step(s, a);
    && s.log <= s'.log
    && forall i :: |s.log| <= i < |s'.log| ==>
         var e := s'.log[i];
         e.c in s'.home && ActionLoop(s, a) == if e.Erased? then 0 else s'.home[e.c]
  }

  lemma StepInItsLoop(s: Server, a: Action)
    requires Enabled(s, a) && Asserts(s, a)
    ensures InItsLoop(s, a)
  {
    match a
    case Accept(k) => AcceptDoes(s, k);
    case RunTask(k) => RunTaskDoes(s, k);
    case Close(c) => CloseDoes(s, c);
    case _ =>
  }

  // ---- The invariant ---------------------------------------------------------------------------

  /** A task that has left its queue, or not yet reached it, inside one action. */
  datatype Flight = Landed | Flying(t: Task)

  /** How often a task is still to be run. */
  ghost function Due(s: Server, f: Flight, t: Task): nat
    requires t.Remove? || t.c in s.home
    requires LoopOf(s, t) < |s.queues|
  {
    multiset(s.queues[LoopOf(s, t)])[t] + (if f == Flying(t) then 1 else 0)
  }

  ghost function Logged(s: Server, e: Entry): nat {
    multiset(s.log)[e]
  }

  /** Where one connection is on its way: each stage is ahead, due exactly once, or done once. */
  ghost predicate Tracked(s: Server, f: Flight, c: Id) {
    && |s.queues| >= 1 && c in s.home && c in s.states && s.home[c] < |s.queues|
    && Due(s, f, Establish(c)) + Logged(s, Established(c)) == 1
    && Logged(s, Closed(c)) == (if s.states[c] == Disconnected then 1 else 0)
    && Due(s, f, Remove(c)) + Logged(s, Erased(c)) == Logged(s, Closed(c))
    && Due(s, f, Destroy(c)) + Logged(s, Destroyed(c)) == Logged(s, Erased(c))
    && (s.states[c] == Connecting <==> Logged(s, Established(c)) == 0)
    && (c in s.connections <==> Logged(s, Erased(c)) == 0)
    && (c in s.calls ==> s.states[c] != Connecting)
  }

  /** A task waits only in the queue of its own loop. */
  ghost predicate InPlace(s: Server, k: LoopNo, t: Task) {
    && t.c < s.next
    && (if t.Remove? then k == 0 else t.c in s.home && s.home[t.c] == k)
  }

  /** The entry that must come before another one. */
  ghost predicate Preceded(log: seq<Entry>, e: Entry) {
    match e
    case Established(_) => true
    case Closed(c) => Established(c) in log
    case Erased(c) => Closed(c) in log
    case Destroyed(c) => Erased(c) in log
  }

  /** Each entry is new and comes after the one before it on the way. */
  ghost predicate InOrder(log: seq<Entry>) {
    forall i :: 0 <= i < |log| ==> log[i] !in log[..i] && Preceded(log[..i], log[i])
  }

  ghost predicate Queues(s: Server) {
    forall k, i :: 0 <= k < |s.queues| && 0 <= i < |s.queues[k]| ==> InPlace(s, k, s.queues[k][i])
  }

  ghost predicate InvWith(s: Server, f: Flight) {
    && |s.queues| >= 1
    && (forall c :: c in s.home || c in s.states || c in s.connections || c in s.calls ==> c < s.next)
    && (forall c :: 0 <= c < s.next ==> Tracked(s, f, c))
    && (forall e :: e in s.log ==> e.c < s.next)
    && (f.Flying? ==> f.t.c < s.next)
    && Queues(s) && InOrder(s.log)
  }

  ghost predicate Inv(s: Server) {
    InvWith(s, Landed)
  }

  // ---- Its parts are kept --------------------------------------------------------------------------

  lemma Appended<T>(xs: seq<T>, x: T)
    ensures forall y :: multiset(xs + [x])[y] == multiset(xs)[y] + (if y == x then 1 else 0)
    ensures forall y :: y in xs + [x] <==> y in xs || y == x
  {
  }

  lemma Shifted<T>(xs: seq<T>)
    requires xs != []
    ensures forall y :: multiset(xs)[y] == multiset(xs[1..])[y] + (if y == xs[0] then 1 else 0)
  {
    assert xs == [xs[0]] + xs[1..];
  }

  lemma LogGrows(log: seq<Entry>, e: Entry)
    requires InOrder(log) && e !in log && Preceded(log, e)
    ensures InOrder(log + [e])
  {
    var longer := log + [e];
    forall i | 0 <= i < |longer|
      ensures longer[i] !in longer[..i] && Preceded(longer[..i], longer[i])
    {
      if i < |log| {
        assert longer[..i] == log[..i];
      } else {
        assert longer[..i] == log;
      }
    }
  }

  lemma EnqueueInPlace(s: Server, k: LoopNo, t: Task)
    requires Queues(s) && k < |s.queues| && InPlace(s, k, t)
    ensures Queues(Enqueue(s, k, t))
  {
    var s' := Enqueue(s, k, t);
    forall j, i | 0 <= j < |s'.queues| && 0 <= i < |s'.queues[j]|
      ensures InPlace(s', j, s'.queues[j][i])
    {
      if j != k || i < |s.queues[k]| {
        assert InPlace(s, j, s.queues[j][i]);
      }
    }
  }

  /** Landing in the queue of its loop leaves a task, and every other one, due as often as before. */
  lemma EnqueueDue(s: Server, t: Task, u: Task)
    requires (t.Remove? || t.c in s.home) && LoopOf(s, t) < |s.queues|
    requires (u.Remove? || u.c in s.home) && LoopOf(s, u) < |s.queues|
    ensures Due(Enqueue(s, LoopOf(s, t), t), Landed, u) == Due(s, Flying(t), u)
  {
    Appended(s.queues[LoopOf(s, t)], t);
  }

  lemma EnqueueTracked(s: Server, t: Task, c: Id)
    requires Tracked(s, Flying(t), c) && (t.Remove? || t.c in s.home) && LoopOf(s, t) < |s.queues|
    ensures Tracked(Enqueue(s, LoopOf(s, t), t), Landed, c)
  {
    hide Due, Logged;
    EnqueueDue(s, t, Establish(c));
    EnqueueDue(s, t, Remove(c));
    EnqueueDue(s, t, Destroy(c));
    SameLog(s, Enqueue(s, LoopOf(s, t), t));
  }

  lemma SameLog(s: Server, s': Server)
    requires s'.log == s.log
    ensures forall e :: Logged(s', e) == Logged(s, e)
  {
  }

  /** A task in flight may land in the queue of its loop. */
  lemma EnqueueLands(s: Server, t: Task)
    requires InvWith(s, Flying(t))
    ensures (t.Remove? || t.c in s.home) && LoopOf(s, t) < |s.queues|
    ensures Inv(Enqueue(s, LoopOf(s, t), t))
  {
    assert Tracked(s, Flying(t), t.c);
    var s' := Enqueue(s, LoopOf(s, t), t);
    forall c | 0 <= c < s'.next
      ensures Tracked(s', Landed, c)
    {
      assert Tracked(s, Flying(t), c);
      EnqueueTracked(s, t, c);
    }
    EnqueueInPlace(s, LoopOf(s, t), t);
  }

  lemma PopDue(s: Server, k: LoopNo, u: Task)
    requires k < |s.queues| && s.queues[k] != [] && InPlace(s, k, s.queues[k][0])
    requires (u.Remove? || u.c in s.home) && LoopOf(s, u) < |s.queues|
    ensures Due(Popped(s, k), Flying(s.queues[k][0]), u) == Due(s, Landed, u)
  {
    Shifted(s.queues[k]);
  }

  lemma PopTracked(s: Server, k: LoopNo, c: Id)
    requires Tracked(s, Landed, c) && k < |s.queues| && s.queues[k] != []
    requires InPlace(s, k, s.queues[k][0])
    ensures Tracked(Popped(s, k), Flying(s.queues[k][0]), c)
  {
    hide Due, Logged;
    PopDue(s, k, Establish(c));
    PopDue(s, k, Remove(c));
    PopDue(s, k, Destroy(c));
    SameLog(s, Popped(s, k));
  }

  lemma PopInPlace(s: Server, k: LoopNo)
    requires Queues(s) && k < |s.queues| && s.queues[k] != []
    ensures Queues(Popped(s, k))
  {
    var s' := Popped(s, k);
    forall j, i | 0 <= j < |s'.queues| && 0 <= i < |s'.queues[j]|
      ensures InPlace(s', j, s'.queues[j][i])
    {
      assert InPlace(s, j, s.queues[j][if j == k then i + 1 else i]);
    }
  }

  /** The oldest task of a queue takes off, in its own loop. */
  lemma PopTakesOff(s: Server, k: LoopNo)
    requires Inv(s) && k < |s.queues| && s.queues[k] != []
    ensures InPlace(s, k, s.queues[k][0]) && InvWith(Popped(s, k), Flying(s.queues[k][0]))
  {
    var t, s' := s.queues[k][0], Popped(s, k);
    assert InPlace(s, k, t);
    forall c | 0 <= c < s'.next
      ensures Tracked(s', Flying(t), c)
    {
      assert Tracked(s, Landed, c);
      PopTracked(s, k, c);
    }
    PopInPlace(s, k);
  }

  /** Writing an entry of connection e.c into the log leaves the counts of the others. */
  lemma OtherTracked(s: Server, f: Flight, s': Server, f': Flight, e: Entry, c: Id)
    requires Tracked(s, f, c) && c != e.c
    requires f.Flying? ==> f.t.c == e.c
    requires f'.Flying? ==> f'.t.c == e.c
    requires s'.queues == s.queues && s'.home == s.home && s'.log == s.log + [e]
    requires c in s'.states && s'.states[c] == s.states[c] && s'.calls == s.calls
    requires c in s'.connections <==> c in s.connections
    ensures Tracked(s', f', c)
  {
    Appended(s.log, e);
  }

  function Next(t: Task): Flight {
    if t.Remove? then Flying(Destroy(t.c)) else Landed
  }

  function EntryOf(t: Task): Entry {
    match t
    case Establish(c) => Established(c)
    case Remove(c) => Erased(c)
    case Destroy(c) => Destroyed(c)
  }

  /** A task in flight finds what it asserts: it is due once, so its entry is not yet written. */
  lemma FlyingAsserts(s: Server, t: Task)
    requires InvWith(s, Flying(t))
    ensures TaskAsserts(s, t) && EntryOf(t) !in s.log && Preceded(s.log, EntryOf(t))
  {
    assert Tracked(s, Flying(t), t.c);
    assert Due(s, Flying(t), t) >= 1;
  }

  lemma OwnTracked(s: Server, t: Task)
    requires Tracked(s, Flying(t), t.c) && TaskAsserts(s, t)
    ensures Tracked(Done(s, t), Next(t), t.c)
  {
    Appended(s.log, EntryOf(t));
    assert Due(s, Flying(t), t) >= 1;
  }

  lemma DoneKeepsInv(s: Server, t: Task)
    requires InvWith(s, Flying(t)) && TaskAsserts(s, t)
    ensures InvWith(Done(s, t), Next(t))
  {
    hide InOrder;
    var s' := Done(s, t);
    FlyingAsserts(s, t);
    LogGrows(s.log, EntryOf(t));
    forall c | 0 <= c < s'.next
      ensures Tracked(s', Next(t), c)
    {
      assert Tracked(s, Flying(t), c);
      if c == t.c {
        OwnTracked(s, t);
      } else {
        OtherTracked(s, Flying(t), s', Next(t), EntryOf(t), c);
      }
    }
    SameQueues(s, s');
  }

  lemma SameQueues(s: Server, s': Server)
    requires Queues(s) && s'.queues == s.queues && s'.home == s.home && s'.next == s.next
    ensures Queues(s')
  {
    forall k, i | 0 <= k < |s'.queues| && 0 <= i < |s'.queues[k]|
      ensures InPlace(s', k, s'.queues[k][i])
    {
      assert InPlace(s, k, s.queues[k][i]);
    }
  }

  /** Performing a task keeps the invariant. */
  lemma PerformLands(s: Server, t: Task)
    requires InvWith(s, Flying(t))
    ensures TaskAsserts(s, t) && Inv(Perform(s, t))
  {
    FlyingAsserts(s, t);
    DoneKeepsInv(s, t);
    if t.Remove? {
      EnqueueLands(Done(s, t), Destroy(t.c));
    }
  }

  /** So does running it at once or posting it. */
  lemma RunInLoopLands(s: Server, here: LoopNo, t: Task)
    requires InvWith(s, Flying(t))
    ensures (t.Remove? || t.c in s.home) && LoopOf(s, t) < |s.queues|
    ensures here == LoopOf(s, t) ==> TaskAsserts(s, t)
    ensures Inv(RunInLoop(s, here, LoopOf(s, t), t))
  {
    EnqueueLands(s, t);
    PerformLands(s, t);
  }

  lemma AcceptTakesOff(s: Server, k: LoopNo)
    requires Inv(s) && k < |s.queues|
    ensures InvWith(Accepted(s, k), Flying(Establish(s.next)))
  {
    hide InOrder;
    var s', t := Accepted(s, k), Establish(s.next);
    NewConnectionTracked(s, k);
    forall c | 0 <= c < s'.next
      ensures Tracked(s', Flying(t), c)
    {
      if c < s.next {
        assert Tracked(s, Landed, c);
      }
    }
    forall j, i | 0 <= j < |s'.queues| && 0 <= i < |s'.queues[j]|
      ensures InPlace(s', j, s'.queues[j][i])
    {
      assert InPlace(s, j, s.queues[j][i]);
    }
  }

  /** No queue and no log entry knows a connection before it is made. */
  lemma NewConnectionTracked(s: Server, k: LoopNo)
    requires Inv(s) && k < |s.queues|
    ensures Tracked(Accepted(s, k), Flying(Establish(s.next)), s.next)
  {
    forall j, t: Task | 0 <= j < |s.queues| && t.c == s.next
      ensures multiset(s.queues[j])[t] == 0
    {
      forall i | 0 <= i < |s.queues[j]|
        ensures s.queues[j][i] != t
      {
        assert InPlace(s, j, s.queues[j][i]);
      }
    }
  }

  lemma OwnCloseTracked(s: Server, c: Id)
    requires Tracked(s, Landed, c) && Enabled(s, Close(c))
    ensures Tracked(Closing(s, c), Flying(Remove(c)), c)
  {
    Appended(s.log, Closed(c));
  }

  /** A connection that may close has been established and never closed. */
  lemma CloseIsNew(s: Server, c: Id)
    requires Inv(s) && Enabled(s, Close(c))
    ensures c < s.next && c in s.home && Tracked(s, Landed, c)
    ensures Closed(c) !in s.log && Preceded(s.log, Closed(c))
  {
    hide InOrder, Queues;
    assert Tracked(s, Landed, c);
  }

  lemma ClosingTracked(s: Server, c: Id)
    requires Inv(s) && Enabled(s, Close(c))
    ensures forall d :: 0 <= d < s.next ==> Tracked(Closing(s, c), Flying(Remove(c)), d)
  {
    CloseIsNew(s, c);
    OwnCloseTracked(s, c);
    hide InOrder, Logged, Due, Queues;
    forall d | 0 <= d < s.next
      ensures Tracked(Closing(s, c), Flying(Remove(c)), d)
    {
      assert Tracked(s, Landed, d);
      if d != c {
        OtherTracked(s, Landed, Closing(s, c), Flying(Remove(c)), Closed(c), d);
      }
    }
  }

  lemma CloseTakesOff(s: Server, c: Id)
    requires Inv(s) && Enabled(s, Close(c))
    ensures c in s.home && InvWith(Closing(s, c), Flying(Remove(c)))
  {
    hide InOrder, Tracked, Queues;
    CloseIsNew(s, c);
    ClosingTracked(s, c);
    LogGrows(s.log, Closed(c));
    SameQueues(s, Closing(s, c));
  }

  lemma TestKeepsInv(s: Server, c: Id)
    requires Inv(s) && Enabled(s, Test(c))
    ensures Inv(Step(s, Test(c)))
  {
    hide InOrder;
    var s' := Step(s, Test(c));
    forall d | 0 <= d < s'.next
      ensures Tracked(s', Landed, d)
    {
      assert Tracked(s, Landed, d);
    }
    SameQueues(s, s');
  }

  /** A call that tested the state before a close, and sets it after. */
  predicate Late(s: Server, a: Action)
    requires Enabled(s, a)
  {
    a.Set? && s.states[a.c] == Disconnected
  }

  lemma SetKeepsInv(s: Server, c: Id)
    requires Inv(s) && Enabled(s, Set(c)) && !Late(s, Set(c))
    ensures Inv(Step(s, Set(c)))
  {
    hide InOrder;
    var s' := Step(s, Set(c));
    forall d | 0 <= d < s'.next
      ensures Tracked(s', Landed, d)
    {
      assert Tracked(s, Landed, d);
    }
    SameQueues(s, s');
  }

  // ---- Every run -----------------------------------------------------------------------------------

  /**
    In a good state every assertion along every possible action holds, and the next state is good,
    unless a call sets it late.
   */
  lemma StepIsSafe(s: Server, a: Action)
    requires Inv(s) && Enabled(s, a)
    ensures Asserts(s, a)
    ensures !Late(s, a) ==> Inv(Step(s, a))
  {
    hide InvWith;
    match a
    case Accept(k) =>
      AcceptTakesOff(s, k);
      RunInLoopLands(Accepted(s, k), 0, Establish(s.next));
    case RunTask(k) =>
      PopTakesOff(s, k);
      PerformLands(Popped(s, k), s.queues[k][0]);
    case Close(c) =>
      CloseTakesOff(s, c);
      RunInLoopLands(Closing(s, c), s.home[c], Remove(c));
    case Test(c) =>
      TestKeepsInv(s, c);
    case Set(c) =>
      if !Late(s, a) {
        SetKeepsInv(s, c);
      }
  }

  predicate Legal(s: Server, actions: seq<Action>)
    decreases |actions|
  {
    actions == [] || (Enabled(s, actions[0]) && (Asserts(s, actions[0]) ==> Legal(Step(s, actions[0]), actions[1..])))
  }

  /** The run of possible actions up to its end, or up to an assertion that fails. */
  function Run(s: Server, actions: seq<Action>): (s': Server)
    requires Legal(s, actions)
    decreases |actions|
  {
    if actions == [] || !Asserts(s, actions[0]) then s else Run(Step(s, actions[0]), actions[1..])
  }

  predicate NoAssertFails(s: Server, actions: seq<Action>)
    requires Legal(s, actions)
    decreases |actions|
  {
    actions == [] || (Asserts(s, actions[0]) && NoAssertFails(Step(s, actions[0]), actions[1..]))
  }

  /** No call of shutdown() or forceClose() sets the state after a close. */
  predicate OnTime(s: Server, actions: seq<Action>)
    requires Legal(s, actions)
    decreases |actions|
  {
    || actions == []
    || (!Late(s, actions[0]) && (Asserts(s, actions[0]) ==> OnTime(Step(s, actions[0]), actions[1..])))
  }

  predicate AllInTheirLoops(s: Server, actions: seq<Action>)
    requires Legal(s, actions)
    decreases |actions|
  {
    || actions == []
    || (Asserts(s, actions[0]) ==> InItsLoop(s, actions[0]) && AllInTheirLoops(Step(s, actions[0]), actions[1..]))
  }

  lemma {:induction false} RunInTheirLoops(s: Server, actions: seq<Action>)
    requires Legal(s, actions)
    ensures AllInTheirLoops(s, actions)
    decreases |actions|
  {
    hide Enabled, Asserts, Step, InItsLoop;
    if actions == [] {
    } else if Asserts(s, actions[0]) {
      StepInItsLoop(s, actions[0]);
      RunInTheirLoops(Step(s, actions[0]), actions[1..]);
    }
  }

  lemma {:induction false} RunIsSafe(s: Server, actions: seq<Action>)
    requires Inv(s) && Legal(s, actions) && OnTime(s, actions)
    ensures NoAssertFails(s, actions) && Inv(Run(s, actions))
    decreases |actions|
  {
    hide Inv, Enabled, Asserts, Step, Late;
    if actions == [] {
    } else {
      StepIsSafe(s, actions[0]);
      RunIsSafe(Step(s, actions[0]), actions[1..]);
    }
  }

  lemma StartIsSafe(loops: nat)
    requires loops >= 1
    ensures Inv(Start(loops))
  {
  }

  /**
    Over every interleaving of any number of loops and calls that set the state on time, no assertion
    fails - in particular the erase always finds its entry - and each connection is established,
    closed, erased and destroyed at most once each, in that order: erased in the accepting loop, all
    else in its own.
   */
  lemma LifecycleSafe(loops: nat, actions: seq<Action>)
    requires loops >= 1 && Legal(Start(loops), actions) && OnTime(Start(loops), actions)
    ensures NoAssertFails(Start(loops), actions)
    ensures InOrder(Run(Start(loops), actions).log)
    ensures AllInTheirLoops(Start(loops), actions)
  {
    RunInTheirLoops(Start(loops), actions);
    StartIsSafe(loops);
    RunIsSafe(Start(loops), actions);
  }

  /** No connection is forgotten: once all queues are empty, every closed one is erased and destroyed. */
  lemma QuietMeansDone(loops: nat, actions: seq<Action>, c: Id)
    requires loops >= 1 && Legal(Start(loops), actions) && OnTime(Start(loops), actions)
    requires var s := Run(Start(loops), actions); c < s.next && forall k :: 0 <= k < |s.queues| ==> s.queues[k] == []
    ensures var s := Run(Start(loops), actions);
            && Established(c) in s.log && c in s.states
            && (Closed(c) in s.log <==> s.states[c] == Disconnected)
            && (Closed(c) in s.log <==> c !in s.connections)
            && (Closed(c) in s.log <==> Destroyed(c) in s.log)
  {
    StartIsSafe(loops);
    RunIsSafe(Start(loops), actions);
    assert Tracked(Run(Start(loops), actions), Landed, c);
  }

  // ---- A state set late ----------------------------------------------------------------------------

  /** No assertion fails from here on, if no call sets the state late from here on. */
  ghost predicate Safe(s: Server) {
    forall actions: seq<Action> :: Legal(s, actions) && OnTime(s, actions) ==> NoAssertFails(s, actions)
  }

  /** The erase an action comes to does not find its entry. */
  predicate ErasesNothing(s: Server, a: Action)
    requires Enabled(s, a)
  {
    match a
    case RunTask(k) => var t := s.queues[k][0]; t.Remove? && t.c !in s.connections
    case Close(c) => c in s.home && s.home[c] == 0 && c !in s.connections
    case _ => false
  }

  /** A run in which every assertion holds, up to its last action, whose erase does not find its entry. */
  predicate EraseMisses(s: Server, actions: seq<Action>)
    decreases |actions|
  {
    && actions != [] && Enabled(s, actions[0]) && !actions[0].Set?
    && (if |actions| == 1 then ErasesNothing(s, actions[0])
        else Asserts(s, actions[0]) && EraseMisses(Step(s, actions[0]), actions[1..]))
  }

  lemma {:induction false} MissingFails(s: Server, actions: seq<Action>)
    requires EraseMisses(s, actions)
    ensures Legal(s, actions) && OnTime(s, actions) && !NoAssertFails(s, actions)
    decreases |actions|
  {
    if |actions| == 1 {
      assert !Asserts(s, actions[0]);
    } else {
      MissingFails(Step(s, actions[0]), actions[1..]);
    }
  }

  lemma MissesLater(s: Server, a: Action, actions: seq<Action>)
    requires Enabled(s, a) && !a.Set? && Asserts(s, a) && EraseMisses(Step(s, a), actions)
    ensures EraseMisses(s, [a] + actions)
  {
    hide Enabled, Asserts, Step;
    assert ([a] + actions)[1..] == actions;
  }

  /** All is well with the queues and with every connection but c. */
  ghost predicate Others(s: Server, f: Flight, c: Id) {
    && |s.queues| >= 1 && Queues(s)
    && (forall d :: 0 <= d < s.next && d != c ==> Tracked(s, f, d))
    && (f.Flying? ==> f.t.c < s.next)
  }

  lemma DueAsserts(s: Server, t: Task)
    requires Tracked(s, Flying(t), t.c)
    ensures TaskAsserts(s, t)
  {
    assert Due(s, Flying(t), t) >= 1;
  }

  lemma EnqueueOthers(s: Server, t: Task, c: Id)
    requires Others(s, Flying(t), c) && (t.Remove? || t.c in s.home) && LoopOf(s, t) < |s.queues|
    ensures Others(Enqueue(s, LoopOf(s, t), t), Landed, c)
  {
    hide Tracked, Queues;
    var s' := Enqueue(s, LoopOf(s, t), t);
    forall d | 0 <= d < s'.next && d != c
      ensures Tracked(s', Landed, d)
    {
      EnqueueTracked(s, t, d);
    }
    EnqueueInPlace(s, LoopOf(s, t), t);
  }

  lemma DoneOthers(s: Server, t: Task, c: Id)
    requires Others(s, Flying(t), c) && TaskAsserts(s, t)
    ensures Others(Done(s, t), Next(t), c)
  {
    hide Tracked, Queues;
    var s' := Done(s, t);
    forall d | 0 <= d < s'.next && d != c
      ensures Tracked(s', Next(t), d)
    {
      if d == t.c {
        OwnTracked(s, t);
      } else {
        OtherDone(s, t, d);
      }
    }
    SameQueues(s, s');
  }

  lemma OtherDone(s: Server, t: Task, d: Id)
    requires Tracked(s, Flying(t), d) && TaskAsserts(s, t) && d != t.c
    ensures Tracked(Done(s, t), Next(t), d)
  {
    OtherTracked(s, Flying(t), Done(s, t), Next(t), EntryOf(t), d);
  }

  lemma PerformOthers(s: Server, t: Task, c: Id)
    requires Others(s, Flying(t), c) && TaskAsserts(s, t)
    ensures Others(Perform(s, t), Landed, c)
  {
    hide Others;
    DoneOthers(s, t, c);
    if t.Remove? {
      EnqueueOthers(Done(s, t), Destroy(t.c), c);
    }
  }

  lemma PopOthers(s: Server, c: Id)
    requires Others(s, Landed, c) && s.queues[0] != []
    ensures Others(Popped(s, 0), Flying(s.queues[0][0]), c)
  {
    hide Tracked;
    var t := s.queues[0][0];
    assert InPlace(s, 0, t);
    forall d | 0 <= d < s.next && d != c
      ensures Tracked(Popped(s, 0), Flying(t), d)
    {
      PopTracked(s, 0, d);
    }
    PopInPlace(s, 0);
  }

  /** The accepting loop can run its oldest task, when that is another connection's or an erase that finds its entry. */
  lemma HeadRuns(s: Server, c: Id)
    requires Others(s, Landed, c) && s.queues[0] != []
    requires s.queues[0][0].c != c || TaskAsserts(Popped(s, 0), s.queues[0][0])
    ensures Asserts(s, RunTask(0)) && Others(Step(s, RunTask(0)), Landed, c)
    ensures var s' := Step(s, RunTask(0));
            && s.queues[0][1..] <= s'.queues[0] && s'.connections <= s.connections && s'.home == s.home
            && (s.queues[0][0].c != c ==> (c in s'.connections <==> c in s.connections))
            && (s.queues[0][0] == Remove(c) ==> c !in s'.connections)
  {
    var t, popped := s.queues[0][0], Popped(s, 0);
    PopOthers(s, c);
    if t.c != c {
      DueAsserts(popped, t);
    }
    PerformOthers(popped, t, c);
  }

  /** The tasks before position i belong to other connections. */
  predicate ClearUpTo(s: Server, i: nat, c: Id)
    requires 0 < |s.queues| && i <= |s.queues[0]|
  {
    forall j :: 0 <= j < i ==> s.queues[0][j].c != c
  }

  /** The accepting loop runs its tasks one by one, up to an erase that does not find its entry. */
  lemma {:induction false} RunUpToErase(s: Server, i: nat, c: Id) returns (actions: seq<Action>)
    requires Others(s, Landed, c) && i < |s.queues[0]| && s.queues[0][i] == Remove(c)
    requires ClearUpTo(s, i, c) && c !in s.connections
    ensures EraseMisses(s, actions)
    decreases i
  {
    if i == 0 {
      actions := [RunTask(0)];
    } else {
      HeadRuns(s, c);
      hide Others, Asserts;
      var s' := Step(s, RunTask(0));
      assert forall j :: 0 <= j < i ==> s'.queues[0][j] == s.queues[0][j + 1];
      actions := RunUpToErase(s', i - 1, c);
      MissesLater(s, RunTask(0), actions);
      actions := [RunTask(0)] + actions;
    }
  }

  /** Of two erases of one connection the first finds its entry, the second does not. */
  lemma {:induction false} RunUpToSecondErase(s: Server, i: nat, j: nat, c: Id) returns (actions: seq<Action>)
    requires Others(s, Landed, c) && i < j < |s.queues[0]| && s.queues[0][i] == s.queues[0][j] == Remove(c)
    requires forall k :: 0 <= k < j && k != i ==> s.queues[0][k].c != c
    requires c in s.connections && c in s.states && c in s.home && s.home[c] != 0 && s.home[c] < |s.queues|
    ensures EraseMisses(s, actions)
    decreases i
  {
    HeadRuns(s, c);
    hide Others, Asserts;
    var s' := Step(s, RunTask(0));
    assert forall k :: 0 <= k < j ==> s'.queues[0][k] == s.queues[0][k + 1];
    if i == 0 {
      actions := RunUpToErase(s', j - 1, c);
    } else {
      actions := RunUpToSecondErase(s', i - 1, j - 1, c);
    }
    MissesLater(s, RunTask(0), actions);
    actions := [RunTask(0)] + actions;
  }

  lemma Once<T>(xs: seq<T>, x: T)
    requires multiset(xs)[x] == 1
    ensures exists i :: 0 <= i < |xs| && xs[i] == x && forall j :: 0 <= j < |xs| && j != i ==> xs[j] != x
  {
    assert x in multiset(xs);
    var i :| 0 <= i < |xs| && xs[i] == x;
    assert xs == xs[..i] + [x] + xs[i + 1..];
    assert multiset(xs[..i])[x] == 0 && multiset(xs[i + 1..])[x] == 0;
    forall j | 0 <= j < |xs| && j != i
      ensures xs[j] != x
    {
      if j < i {
        assert xs[j] in multiset(xs[..i]);
      } else {
        assert xs[j] == xs[i + 1..][j - i - 1];
        assert xs[j] in multiset(xs[i + 1..]);
      }
    }
  }

  /** What is due of a closed connection in the accepting loop: its erase, once, or its destruction. */
  lemma ClosedInQueue(s: Server, c: Id, j: nat)
    requires Inv(s) && c in s.home && c in s.states && s.states[c] == Disconnected
    requires j < |s.queues[0]| && s.queues[0][j].c == c
    ensures c in s.connections ==> s.queues[0][j] == Remove(c)
    ensures c !in s.connections ==> s.home[c] == 0
  {
    assert Tracked(s, Landed, c) && InPlace(s, 0, s.queues[0][j]);
    assert s.queues[0][j] in multiset(s.queues[0]);
  }

  /** The one place of the erase that is due. */
  lemma ErasePlace(s: Server, c: Id) returns (i: nat)
    requires Inv(s) && c in s.home && c in s.states && s.states[c] == Disconnected && c in s.connections
    ensures i < |s.queues[0]| && s.queues[0][i] == Remove(c)
    ensures forall j :: 0 <= j < |s.queues[0]| && j != i ==> s.queues[0][j].c != c
  {
    assert Tracked(s, Landed, c);
    EraseDueOnce(s, c);
    Once(s.queues[0], Remove(c));
    i :| 0 <= i < |s.queues[0]| && s.queues[0][i] == Remove(c)
      && forall j :: 0 <= j < |s.queues[0]| && j != i ==> s.queues[0][j] != Remove(c);
    hide Inv, Tracked;
    forall j | 0 <= j < |s.queues[0]| && j != i
      ensures s.queues[0][j].c != c
    {
      if s.queues[0][j].c == c {
        ClosedInQueue(s, c, j);
      }
    }
  }

  lemma EraseDueOnce(s: Server, c: Id)
    requires Tracked(s, Landed, c) && s.states[c] == Disconnected && c in s.connections
    ensures multiset(s.queues[0])[Remove(c)] == 1
  {
  }

  lemma NothingInQueue(s: Server, c: Id)
    requires Inv(s) && c in s.home && c in s.states && s.states[c] == Disconnected
    requires c !in s.connections && s.home[c] != 0
    ensures forall j :: 0 <= j < |s.queues[0]| ==> s.queues[0][j].c != c
  {
    assert |s.queues| >= 1;
    hide Inv;
    forall j | 0 <= j < |s.queues[0]|
      ensures s.queues[0][j].c != c
    {
      if s.queues[0][j].c == c {
        ClosedInQueue(s, c, j);
      }
    }
  }

  /** Set back late, every other connection is as it was; so it is when c closes again. */
  lemma ReopenedOthers(s: Server, c: Id)
    requires Inv(s) && Enabled(s, Set(c))
    ensures Others(Closing(Step(s, Set(c)), c), Flying(Remove(c)), c)
  {
    hide InOrder;
    var s' := Step(s, Set(c));
    var closing := Closing(s', c);
    forall d | 0 <= d < s.next && d != c
      ensures Tracked(closing, Flying(Remove(c)), d)
    {
      assert Tracked(s, Landed, d);
      SetTracked(s, c, d);
      OtherTracked(s', Landed, closing, Flying(Remove(c)), Closed(c), d);
    }
    SameQueues(s, closing);
  }

  lemma SetTracked(s: Server, c: Id, d: Id)
    requires Tracked(s, Landed, d) && Enabled(s, Set(c)) && d != c
    ensures Tracked(Step(s, Set(c)), Landed, d)
  {
  }

  /** A close in the accepting loop erases at once. */
  lemma CloseHere(s: Server, c: Id)
    requires Enabled(s, Close(c)) && 0 < |s.queues| && c in s.home && s.home[c] == 0 && c in s.connections
    requires Others(Closing(s, c), Flying(Remove(c)), c)
    ensures Asserts(s, Close(c))
    ensures var closed := Step(s, Close(c));
            && Others(closed, Landed, c) && s.queues[0] <= closed.queues[0] && c !in closed.connections
  {
    hide Others;
    PerformOthers(Closing(s, c), Remove(c), c);
  }

  /** In any other loop its erase waits at the end of the accepting loop's queue. */
  lemma CloseElsewhere(s: Server, c: Id)
    requires Enabled(s, Close(c)) && 0 < |s.queues| && c in s.home && s.home[c] != 0
    requires Others(Closing(s, c), Flying(Remove(c)), c)
    ensures Asserts(s, Close(c))
    ensures var closed := Step(s, Close(c));
            && Others(closed, Landed, c) && closed.queues[0] == s.queues[0] + [Remove(c)]
            && closed.connections == s.connections && |closed.queues| == |s.queues|
            && c in closed.states && closed.home == s.home
  {
    hide Others;
    EnqueueOthers(Closing(s, c), Remove(c), c);
  }

  /** A connection set back late can close again; then the accepting loop comes to an erase that misses its entry. */
  lemma LateSetMisses(s: Server, c: Id) returns (actions: seq<Action>)
    requires Inv(s) && Enabled(s, Set(c)) && s.states[c] == Disconnected
    ensures EraseMisses(Step(s, Set(c)), actions)
  {
    assert Tracked(s, Landed, c);
    ReopenedOthers(s, c);
    if s.home[c] == 0 {
      actions := MissesHere(s, c);
    } else {
      actions := MissesElsewhere(s, c);
    }
  }

  lemma MissesHere(s: Server, c: Id) returns (actions: seq<Action>)
    requires Inv(s) && Enabled(s, Set(c)) && s.states[c] == Disconnected && c in s.home && s.home[c] == 0
    requires Others(Closing(Step(s, Set(c)), c), Flying(Remove(c)), c)
    ensures EraseMisses(Step(s, Set(c)), actions)
  {
    var s' := Step(s, Set(c));
    if c in s.connections {
      var i := ErasePlace(s, c);
      hide Inv, Others;
      CloseHere(s', c);
      actions := RunUpToErase(Step(s', Close(c)), i, c);
      hide Step, Asserts, EraseMisses;
      MissesLater(s', Close(c), actions);
      actions := [Close(c)] + actions;
    } else {
      actions := [Close(c)];
    }
  }

  lemma MissesElsewhere(s: Server, c: Id) returns (actions: seq<Action>)
    requires Inv(s) && Enabled(s, Set(c)) && s.states[c] == Disconnected
    requires c in s.home && s.home[c] != 0 && s.home[c] < |s.queues|
    requires Others(Closing(Step(s, Set(c)), c), Flying(Remove(c)), c)
    ensures EraseMisses(Step(s, Set(c)), actions)
  {
    var s', n := Step(s, Set(c)), |s.queues[0]|;
    if c in s.connections {
      var i := ErasePlace(s, c);
      hide Inv, Others;
      CloseElsewhere(s', c);
      actions := RunUpToSecondErase(Step(s', Close(c)), i, n, c);
    } else {
      NothingInQueue(s, c);
      hide Inv, Others;
      CloseElsewhere(s', c);
      actions := RunUpToErase(Step(s', Close(c)), n, c);
    }
    hide Step, Asserts, EraseMisses;
    MissesLater(s', Close(c), actions);
    actions := [Close(c)] + actions;
  }

  lemma SafeMissesNothing(s: Server, actions: seq<Action>)
    requires Safe(s)
    ensures !EraseMisses(s, actions)
  {
    hide EraseMisses, NoAssertFails, Legal, OnTime;
    if EraseMisses(s, actions) {
      MissingFails(s, actions);
    }
  }

  lemma GoodIsSafe(s: Server)
    requires Inv(s)
    ensures Safe(s)
  {
    hide Inv, NoAssertFails, Legal, OnTime;
    forall actions | Legal(s, actions) && OnTime(s, actions)
      ensures NoAssertFails(s, actions)
    {
      RunIsSafe(s, actions);
    }
  }

  /** Some interleaving goes well up to an erase that does not find its entry. */
  ghost predicate CanMiss(s: Server) {
    exists actions: seq<Action> :: EraseMisses(s, actions)
  }

  lemma SafeCannotMiss(s: Server)
    requires Safe(s)
    ensures !CanMiss(s)
  {
    hide EraseMisses, Safe;
    forall actions: seq<Action>
      ensures !EraseMisses(s, actions)
    {
      SafeMissesNothing(s, actions);
    }
  }

  lemma SetDecides(s: Server, c: Id)
    requires Inv(s) && Enabled(s, Set(c))
    ensures Safe(Step(s, Set(c))) <==> s.states[c] != Disconnected
    ensures CanMiss(Step(s, Set(c))) <==> s.states[c] == Disconnected
  {
    hide Inv, EraseMisses, Safe, Step;
    var s' := Step(s, Set(c));
    if s.states[c] == Disconnected {
      var missing := LateSetMisses(s, c);
      assert CanMiss(s');
    } else {
      SetKeepsInv(s, c);
      GoodIsSafe(s');
    }
    if Safe(s') {
      SafeCannotMiss(s');
    }
  }

  /**
    When a call sets the state, the server stays safe exactly if that state is not disconnected. A late
    call brings a closed connection back to a state in which it can close again, and exactly then there
    is an interleaving in which all goes well up to an erase that does not find its entry.
   */
  lemma SafeIffSetOnTime(loops: nat, actions: seq<Action>, c: Id)
    requires loops >= 1 && Legal(Start(loops), actions) && OnTime(Start(loops), actions)
    requires Enabled(Run(Start(loops), actions), Set(c))
    ensures var s := Run(Start(loops), actions);
            && (Safe(Step(s, Set(c))) <==> s.states[c] != Disconnected)
            && (CanMiss(Step(s, Set(c))) <==> s.states[c] == Disconnected)
  {
    hide Inv, Safe, CanMiss, Step, Run, OnTime, Legal;
    StartIsSafe(loops);
    RunIsSafe(Start(loops), actions);
    SetDecides(Run(Start(loops), actions), c);
  }

  /** Such a run: shutdown() finds the connection connected, the connection closes, shutdown() sets the state. */
  lemma LateSetInServer()
    ensures var run := [Accept(0), Test(0), Close(0)];
            && Legal(Start(1), run) && OnTime(Start(1), run)
            && var s := Run(Start(1), run);
            && Enabled(s, Set(0)) && s.states[0] == Disconnected && EraseMisses(Step(s, Set(0)), [Close(0)])
  {
    var s1 := Step(Start(1), Accept(0));
    var s2 := Step(s1, Test(0));
    Before(s2, Close(0), []);
    Before(s1, Test(0), [Close(0)]);
    Before(Start(1), Accept(0), [Test(0), Close(0)]);
  }

  lemma Before(s: Server, a: Action, actions: seq<Action>)
    requires Enabled(s, a) && Asserts(s, a) && !Late(s, a)
    requires Legal(Step(s, a), actions) && OnTime(Step(s, a), actions)
    ensures Legal(s, [a] + actions) && OnTime(s, [a] + actions)
    ensures Run(s, [a] + actions) == Run(Step(s, a), actions)
  {
    hide Enabled, Asserts, Step, Late;
    assert ([a] + actions)[1..] == actions;
  }
}
