/**
  One TCP connection: what it sends through a kernel that takes any prefix of a write or fails, and
  its way from connecting to disconnected. `Conn` and `Step` say what the operations do to the
  connection as a whole; the class works in place on its buffers, channel and socket.
 */
module Connections {
  import opened Bytes
  import opened Buffers
  import opened ConnectionStates
  import opened Pollers
  import C = Codec

  datatype Errno = WouldBlock | Pipe | Reset | Other

  datatype WriteResult = Wrote(n: nat) | WriteFailed(errno: Errno)

  /** Calls of shutdown() and forceClose() on their way, and what has become of the connection. */
  datatype Calls = Calls(
    shutdowns: nat,          // threads in shutdown() that have tested the state and not yet set it
    forceCloses: nat,        // the same in forceClose()
    shutdownTasks: nat,      // shutdownInLoop due
    forceCloseTasks: nat,    // forceCloseInLoop due
    asked: bool,             // shutdown() has set the state once
    closed: bool)            // the connection was closed once

  /** The loop's view of a connection, and the history a run leaves behind. */
  datatype Conn = Conn(
    state: State,
    out: seq<Byte>,          // outputbuffer_
    writing: bool,           // write interest of the channel
    reading: bool,           // read interest of the channel
    wire: seq<Byte>,         // bytes the socket took
    accepted: seq<Byte>,     // bytes sendInLoop took on, in order
    shut: bool,              // the write side of the socket is shut
    completions: nat,        // write-complete callbacks queued
    calls: Calls)

  const NO_CALLS: Calls := Calls(0, 0, 0, 0, false, false)

  const FRESH: Conn := Conn(Connecting, [], false, false, [], [], false, 0, NO_CALLS)

  // ---- The operations --------------------------------------------------------------------------

  /**
    shutdown() and forceClose() may be called in any thread: between their test of the state and its
    setting the loop goes on. What they post is due as soon as the state is set; a call in the loop's
    own thread runs it at once.
   */
  datatype Event =
    | Establish
    | Send(msg: seq<Byte>, w: WriteResult)   // sendInLoop
    | Writable(w: WriteResult)               // handleWrite
    | ShutdownTest
    | ShutdownSet
    | ShutdownTask                           // shutdownInLoop
    | ForceCloseTest
    | ForceCloseSet
    | ForceCloseTask                         // forceCloseInLoop
    | Close                                  // handleClose
    | Destroy                                // connectDestroyed

  /** The kernel takes a prefix or fails, and answers EPIPE once the write side is shut. */
  predicate KernelAnswers(c: Conn, len: nat, w: WriteResult) {
    && (w.Wrote? ==> w.n <= len)
    && (c.shut ==> w == WriteFailed(Pipe))
  }

  /** When an operation may come: its own assertions, what is due, and what the kernel can answer. */
  predicate Enabled(c: Conn, e: Event) {
    match e
    case Establish => c.state == Connecting
    case Send(msg, w) => c.state != Connecting && KernelAnswers(c, |msg|, w)
    case Writable(w) => KernelAnswers(c, |c.out|, w)
    case ShutdownTest => true
    case ShutdownSet => c.calls.shutdowns > 0
    case ShutdownTask => c.calls.shutdownTasks > 0
    case ForceCloseTest => true
    case ForceCloseSet => c.calls.forceCloses > 0
    case ForceCloseTask => c.calls.forceCloseTasks > 0
    case Close => c.state == Connected || c.state == Disconnecting
    case Destroy => c.state == Connected || (!c.writing && !c.reading)
  }

  /** A message sendInLoop lets go: no connection any more, or a fatal error on its first write. */
  predicate Dropped(c: Conn, w: WriteResult) {
    c.state == Disconnected || (!c.writing && c.out == [] && w in {WriteFailed(Pipe), WriteFailed(Reset)})
  }

  /** How much of a message its first write takes: none unless nothing is buffered before it. */
  function TakenAtOnce(c: Conn, w: WriteResult): nat {
    if !c.writing && c.out == [] && w.Wrote? then w.n else 0
  }

  function AfterSend(c: Conn, msg: seq<Byte>, w: WriteResult): Conn
    requires KernelAnswers(c, |msg|, w)
  {
    if Dropped(c, w) then c
    else
      var n := TakenAtOnce(c, w);
      var idle := !c.writing && c.out == [] && w.Wrote?;
      c.(wire := c.wire + msg[..n],
         out := c.out + msg[n..],
         accepted := c.accepted + msg,
         writing := c.writing || n < |msg|,
         completions := if idle && n == |msg| then c.completions + 1 else c.completions)
  }

  function AfterShutdownTask(c: Conn): Conn {
    if c.writing then c else c.(shut := true)
  }

  function AfterDrained(c: Conn): Conn {
    var drained := c.(writing := false, completions := c.completions + 1);
    if c.state == Disconnecting then AfterShutdownTask(drained) else drained
  }

  function AfterWrite(c: Conn, w: WriteResult): Conn
    requires KernelAnswers(c, |c.out|, w)
  {
    if !c.writing || !w.Wrote? || w.n == 0 then c
    else
      var c' := c.(wire := c.wire + c.out[..w.n], out := c.out[w.n..]);
      if c'.out == [] then AfterDrained(c') else c'
  }

  function AfterClose(c: Conn): Conn {
    c.(state := Disconnected, writing := false, reading := false, calls := c.calls.(closed := true))
  }

  function Step(c: Conn, e: Event): Conn
    requires Enabled(c, e)
  {
    var calls := c.calls;
    match e
    case Establish => c.(state := Connected, reading := true)
    case Send(msg, w) => AfterSend(c, msg, w)
    case Writable(w) => AfterWrite(c, w)
    case ShutdownTest =>
      if c.state == Connected then c.(calls := calls.(shutdowns := calls.shutdowns + 1)) else c
    case ShutdownSet =>
      c.(state := Disconnecting, calls := calls.(
           shutdowns := calls.shutdowns - 1, shutdownTasks := calls.shutdownTasks + 1, asked := true))
    case ShutdownTask => AfterShutdownTask(c.(calls := calls.(shutdownTasks := calls.shutdownTasks - 1)))
    case ForceCloseTest =>
      if c.state == Connected || c.state == Connecting then
        c.(calls := calls.(forceCloses := calls.forceCloses + 1))
      else c
    case ForceCloseSet =>
      c.(state := Disconnecting, calls := calls.(
           forceCloses := calls.forceCloses - 1, forceCloseTasks := calls.forceCloseTasks + 1))
    case ForceCloseTask =>
      var c' := c.(calls := calls.(forceCloseTasks := calls.forceCloseTasks - 1));
      if c.state == Connected || c.state == Connecting then AfterClose(c') else c'
    case Close => AfterClose(c)
    case Destroy => if c.state == Connected then AfterClose(c) else c
  }

  // ---- Runs ------------------------------------------------------------------------------------

  predicate Legal(c: Conn, events: seq<Event>)
    decreases |events|
  {
    events == [] || (Enabled(c, events[0]) && Legal(Step(c, events[0]), events[1..]))
  }

  /** The connection after the first i events of a run. */
  function At(c: Conn, events: seq<Event>, i: nat): Conn
    requires Legal(c, events) && i <= |events|
    decreases i
  {
    if i == 0 then c else At(Step(c, events[0]), events[1..], i - 1)
  }

  function Run(c: Conn, events: seq<Event>): Conn
    requires Legal(c, events)
  {
    At(c, events, |events|)
  }

  lemma {:induction false} AtNext(c: Conn, events: seq<Event>, i: nat)
    requires Legal(c, events) && i < |events|
    ensures Enabled(At(c, events, i), events[i])
    ensures At(c, events, i + 1) == Step(At(c, events, i), events[i])
    decreases i
  {
    hide Enabled, Step;
    if i == 0 {
    } else {
      AtNext(Step(c, events[0]), events[1..], i - 1);
    }
  }

  /** One event more in front of a run. */
  lemma Before(c: Conn, e: Event, events: seq<Event>)
    requires Enabled(c, e) && Legal(Step(c, e), events)
    ensures Legal(c, [e] + events) && Run(c, [e] + events) == Run(Step(c, e), events)
  {
    assert ([e] + events)[1..] == events;
  }

  /** From any moment on, a run is a run. */
  lemma {:induction false} RunOn(c: Conn, events: seq<Event>, i: nat)
    requires Legal(c, events) && i <= |events|
    ensures Legal(At(c, events, i), events[i..])
    ensures Run(At(c, events, i), events[i..]) == Run(c, events)
    decreases i
  {
    hide Enabled, Step;
    if i == 0 {
      assert events[0..] == events;
    } else {
      RunOn(Step(c, events[0]), events[1..], i - 1);
      assert events[1..][i - 1..] == events[i..];
    }
  }

  /** What holds in every reachable state. */
  ghost predicate Inv(c: Conn) {
    BytesInv(c) && StateInv(c)
  }

  ghost predicate BytesInv(c: Conn) {
    && c.wire + c.out == c.accepted
    && (c.writing ==> c.out != [])
    && (!c.calls.closed && c.out != [] ==> c.writing)
    && (!c.calls.closed && c.shut ==> c.out == [])
    && (!c.calls.closed && c.calls.asked && c.calls.shutdownTasks == 0 ==> c.shut || c.writing)
  }

  ghost predicate StateInv(c: Conn) {
    && (c.state == Connecting ==> c.accepted == [] && !c.writing && !c.reading && c.calls.shutdowns == 0)
    && (c.state == Disconnected ==> c.calls.closed && !c.writing && !c.reading)
    && (c.shut || c.calls.closed || c.calls.asked || c.calls.shutdownTasks > 0 || c.calls.forceCloseTasks > 0
        ==> c.state == Disconnecting || c.state == Disconnected)
  }

  lemma FreshKeepsInv()
    ensures Inv(FRESH)
  {
  }

  lemma SendKeepsInv(c: Conn, msg: seq<Byte>, w: WriteResult)
    requires Inv(c) && Enabled(c, Send(msg, w))
    ensures Inv(AfterSend(c, msg, w))
  {
    if !Dropped(c, w) {
      var n := TakenAtOnce(c, w);
      assert c.wire + msg[..n] + (c.out + msg[n..]) == c.wire + c.out + msg;
    }
  }

  lemma WriteKeepsInv(c: Conn, w: WriteResult)
    requires Inv(c) && Enabled(c, Writable(w))
    ensures Inv(AfterWrite(c, w))
  {
    if w.Wrote? {
      assert c.wire + c.out[..w.n] + c.out[w.n..] == c.wire + c.out;
    }
  }

  lemma StepKeepsInv(c: Conn, e: Event)
    requires Inv(c) && Enabled(c, e)
    ensures Inv(Step(c, e))
  {
    match e
    case Send(msg, w) => SendKeepsInv(c, msg, w);
    case Writable(w) => WriteKeepsInv(c, w);
    case _ =>
  }

  lemma {:induction false} AtKeepsInv(c: Conn, events: seq<Event>, i: nat)
    requires Inv(c) && Legal(c, events) && i <= |events|
    ensures Inv(At(c, events, i))
    decreases i
  {
    hide Enabled, Step, Inv;
    if i == 0 {
    } else {
      StepKeepsInv(c, events[0]);
      AtKeepsInv(Step(c, events[0]), events[1..], i - 1);
    }
  }

  /**
    Byte conservation over every run: what the socket took, then what is buffered, is what was
    accepted; and until the connection is closed write interest is on exactly when bytes are buffered.
   */
  lemma RunKeepsInv(c: Conn, events: seq<Event>)
    requires Inv(c) && Legal(c, events)
    ensures Inv(Run(c, events))
    ensures var c' := Run(c, events);
            && c'.wire + c'.out == c'.accepted
            && (!c'.calls.closed ==> c'.state != Disconnected && (c'.writing <==> c'.out != []))
  {
    AtKeepsInv(c, events, |events|);
  }

  /** The messages of a run that were not let go, concatenated. */
  ghost function AcceptedBytes(c: Conn, events: seq<Event>): seq<Byte>
    requires Legal(c, events)
    decreases |events|
  {
    if events == [] then []
    else
      (if events[0].Send? && !Dropped(c, events[0].w) then events[0].msg else [])
      + AcceptedBytes(Step(c, events[0]), events[1..])
  }

  /** The accepted bytes are the accepted messages in the order of their sendInLoop calls. */
  lemma {:induction false} AcceptedInOrder(c: Conn, events: seq<Event>)
    requires Legal(c, events)
    ensures Run(c, events).accepted == c.accepted + AcceptedBytes(c, events)
    decreases |events|
  {
    hide Enabled;
    if events == [] {
      assert c.accepted + [] == c.accepted;
    } else {
      hide KernelAnswers;
      var e := events[0];
      var first := if e.Send? && !Dropped(c, e.w) then e.msg else [];
      StepAccepts(c, e);
      AcceptedInOrder(Step(c, e), events[1..]);
      assert (c.accepted + first) + AcceptedBytes(Step(c, e), events[1..])
          == c.accepted + (first + AcceptedBytes(Step(c, e), events[1..]));
    }
  }

  lemma StepAccepts(c: Conn, e: Event)
    requires Enabled(c, e)
    ensures Step(c, e).accepted == c.accepted + (if e.Send? && !Dropped(c, e.w) then e.msg else [])
  {
    assert c.accepted + [] == c.accepted;
  }

  // ---- What the socket answers -----------------------------------------------------------------------

  /** The socket is asked to write: by a send with nothing buffered, or by a write event that is wanted. */
  predicate Asks(c: Conn, e: Event) {
    || (e.Send? && c.state != Disconnected && !c.writing && c.out == [])
    || (e.Writable? && c.writing)
  }

  /** How many bytes it says it took. */
  function Answer(e: Event): nat {
    if (e.Send? || e.Writable?) && e.w.Wrote? then e.w.n else 0
  }

  lemma WireGrowsByAnswer(c: Conn, e: Event)
    requires Enabled(c, e)
    ensures c.wire <= Step(c, e).wire
    ensures |Step(c, e).wire| == |c.wire| + (if Asks(c, e) then Answer(e) else 0)
  {
  }

  /** The sum of the answers to the writes asked for in a run. */
  ghost function Answers(c: Conn, events: seq<Event>): nat
    requires Legal(c, events)
    decreases |events|
  {
    if events == [] then 0
    else (if Asks(c, events[0]) then Answer(events[0]) else 0) + Answers(Step(c, events[0]), events[1..])
  }

  lemma {:induction false} WireGrowsByAnswers(c: Conn, events: seq<Event>)
    requires Legal(c, events)
    ensures |Run(c, events).wire| == |c.wire| + Answers(c, events)
    decreases |events|
  {
    hide Enabled, Step, Asks, Answer;
    if events == [] {
    } else {
      WireGrowsByAnswer(c, events[0]);
      WireGrowsByAnswers(Step(c, events[0]), events[1..]);
    }
  }

  /**
    In every run the bytes on the wire are as many of the accepted bytes, from the first on, as the socket said
    it took; the rest is buffered.
   */
  lemma AnsweredAreOnTheWire(events: seq<Event>)
    requires Legal(FRESH, events)
    ensures var c, bytes, n := Run(FRESH, events), AcceptedBytes(FRESH, events), Answers(FRESH, events);
            n <= |bytes| && c.wire == bytes[..n] && c.out == bytes[n..]
  {
    hide Run, Answers, AcceptedBytes, Legal, StateInv;
    FreshKeepsInv();
    RunKeepsInv(FRESH, events);
    AcceptedInOrder(FRESH, events);
    WireGrowsByAnswers(FRESH, events);
    assert [] + AcceptedBytes(FRESH, events) == AcceptedBytes(FRESH, events);
  }

  /**
    A message is taken on whole, unless the connection is disconnected or the socket, asked at once, answers
    EPIPE or ECONNRESET; then it leaves no trace.
   */
  lemma SendAcceptedIff(c: Conn, msg: seq<Byte>, w: WriteResult)
    requires Enabled(c, Send(msg, w))
    ensures var fatal := Asks(c, Send(msg, w)) && (w == WriteFailed(Pipe) || w == WriteFailed(Reset));
            if c.state == Disconnected || fatal then Step(c, Send(msg, w)) == c
            else Step(c, Send(msg, w)).accepted == c.accepted + msg
  {
  }

  /** A message taken on asks for write events, unless they are asked for already or the socket takes all of it. */
  lemma SendWantsWriting(c: Conn, msg: seq<Byte>, w: WriteResult)
    requires Enabled(c, Send(msg, w)) && Step(c, Send(msg, w)) != c
    ensures var taken := if Asks(c, Send(msg, w)) then Answer(Send(msg, w)) else 0;
            Step(c, Send(msg, w)).writing <==> c.writing || taken < |msg|
  {
  }

  /** The events that change the state and the read interest, and to what. */
  lemma StateTable(c: Conn, e: Event)
    requires Enabled(c, e)
    ensures var closes := e == Close || (e == Destroy && c.state == Connected)
                          || (e == ForceCloseTask && (c.state == Connected || c.state == Connecting));
            && Step(c, e).state == (if e == Establish then Connected
                                    else if e == ShutdownSet || e == ForceCloseSet then Disconnecting
                                    else if closes then Disconnected else c.state)
            && Step(c, e).reading == (if e == Establish then true else if closes then false else c.reading)
            && Step(c, e).calls.closed == (c.calls.closed || closes)
            && Step(c, e).calls.asked == (c.calls.asked || e == ShutdownSet)
  {
  }

  function Times(events: seq<Event>, e: Event): nat {
    if events == [] then 0 else (if events[0] == e then 1 else 0) + Times(events[1..], e)
  }

  /** Over every run: what the calls set is due or has run, each as often. */
  lemma {:induction false} TasksBalance(c: Conn, events: seq<Event>)
    requires Legal(c, events)
    ensures var c' := Run(c, events);
            && c'.calls.shutdownTasks + Times(events, ShutdownTask)
               == c.calls.shutdownTasks + Times(events, ShutdownSet)
            && c'.calls.forceCloseTasks + Times(events, ForceCloseTask)
               == c.calls.forceCloseTasks + Times(events, ForceCloseSet)
    decreases |events|
  {
    hide Enabled, Step;
    if events == [] {
    } else {
      TaskCounts(c, events[0]);
      TasksBalance(Step(c, events[0]), events[1..]);
    }
  }

  lemma TaskCounts(c: Conn, e: Event)
    requires Enabled(c, e)
    ensures Step(c, e).calls.shutdownTasks + (if e == ShutdownTask then 1 else 0)
            == c.calls.shutdownTasks + (if e == ShutdownSet then 1 else 0)
    ensures Step(c, e).calls.forceCloseTasks + (if e == ForceCloseTask then 1 else 0)
            == c.calls.forceCloseTasks + (if e == ForceCloseSet then 1 else 0)
  {
    hide AfterSend, AfterWrite;
    match e
    case Send(msg, w) => TrafficKeepsCalls(c, e);
    case Writable(w) => TrafficKeepsCalls(c, e);
    case _ =>
  }

  lemma TrafficKeepsCalls(c: Conn, e: Event)
    requires Enabled(c, e) && (e.Send? || e.Writable?)
    ensures Step(c, e).calls == c.calls
  {
  }

  /** A call is on its way from its test, if the test finds a state it acts in, to its setting of the state. */
  lemma CallCounts(c: Conn, e: Event)
    requires Enabled(c, e)
    ensures Step(c, e).calls.shutdowns + (if e == ShutdownSet then 1 else 0)
            == c.calls.shutdowns + (if e == ShutdownTest && c.state == Connected then 1 else 0)
    ensures Step(c, e).calls.forceCloses + (if e == ForceCloseSet then 1 else 0) == c.calls.forceCloses
            + (if e == ForceCloseTest && (c.state == Connected || c.state == Connecting) then 1 else 0)
  {
    hide AfterSend, AfterWrite;
    match e
    case Send(msg, w) => TrafficKeepsCalls(c, e);
    case Writable(w) => TrafficKeepsCalls(c, e);
    case _ =>
  }

  // ---- Completions ---------------------------------------------------------------------------------

  /** The socket takes bytes in this step: a first write with nothing buffered, or a write event. */
  predicate SocketWrites(c: Conn, e: Event) {
    || (e.Send? && c.state != Disconnected && !c.writing && c.out == [] && e.w.Wrote?)
    || (e.Writable? && c.writing && e.w.Wrote? && e.w.n > 0)
  }

  lemma StepCompletes(c: Conn, e: Event)
    requires Enabled(c, e)
    ensures Step(c, e).completions ==
            if SocketWrites(c, e) && Step(c, e).out == [] then c.completions + 1 else c.completions
  {
  }

  /**
    At every moment of every run: write-complete is queued exactly by the writes that leave nothing
    buffered, and then everything accepted so far is on the wire.
   */
  lemma CompletionIffAllWritten(events: seq<Event>, i: nat)
    requires Legal(FRESH, events) && i < |events|
    ensures var c, c' := At(FRESH, events, i), At(FRESH, events, i + 1);
            && c'.completions == c.completions + (if SocketWrites(c, events[i]) && c'.out == [] then 1 else 0)
            && (c'.completions != c.completions ==> c'.wire == c'.accepted)
  {
    hide Enabled, Step, StateInv;
    FreshKeepsInv();
    AtNext(FRESH, events, i);
    AtKeepsInv(FRESH, events, i + 1);
    StepCompletes(At(FRESH, events, i), events[i]);
    var c' := At(FRESH, events, i + 1);
    assert c'.wire + [] == c'.wire;
  }

  // ---- Moving on -------------------------------------------------------------------------------

  /** A call that tested the state before a close, and sets it after. */
  predicate Late(c: Conn, e: Event) {
    (e == ShutdownSet || e == ForceCloseSet) && c.state == Disconnected
  }

  predicate OnTime(c: Conn, events: seq<Event>)
    requires Legal(c, events)
    decreases |events|
  {
    events == [] || (!Late(c, events[0]) && OnTime(Step(c, events[0]), events[1..]))
  }

  predicate MovesOn(c: Conn, events: seq<Event>)
    requires Legal(c, events)
    decreases |events|
  {
    events == [] || (Rank(c.state) <= Rank(Step(c, events[0]).state) && MovesOn(Step(c, events[0]), events[1..]))
  }

  lemma StepMovesOn(c: Conn, e: Event)
    requires Inv(c) && Enabled(c, e)
    ensures Rank(c.state) <= Rank(Step(c, e).state) <==> !Late(c, e)
  {
  }

  /** A connection never goes back to an earlier state exactly when no call sets the state after a close. */
  lemma {:induction false} StatesMoveOnIffOnTime(c: Conn, events: seq<Event>)
    requires Inv(c) && Legal(c, events)
    ensures MovesOn(c, events) <==> OnTime(c, events)
    ensures OnTime(c, events) ==> Rank(c.state) <= Rank(Run(c, events).state)
    decreases |events|
  {
    hide Enabled, Step, Inv, Late, Rank;
    if events == [] {
    } else {
      StepMovesOn(c, events[0]);
      StepKeepsInv(c, events[0]);
      StatesMoveOnIffOnTime(Step(c, events[0]), events[1..]);
    }
  }

  /**
    A closed connection without another close is still disconnected in the end, as its destructor
    asserts, exactly when no call sets the state late.
   */
  lemma {:induction false} StaysClosedIffOnTime(c: Conn, events: seq<Event>)
    requires Inv(c) && Legal(c, events) && Close !in events && c.state == Disconnected
    ensures Run(c, events).state == Disconnected <==> OnTime(c, events)
    decreases |events|
  {
    if events == [] {
    } else if Late(c, events[0]) {
      StepKeepsInv(c, events[0]);
      StaysReopened(Step(c, events[0]), events[1..]);
    } else {
      StepKeepsInv(c, events[0]);
      StaysClosedIffOnTime(Step(c, events[0]), events[1..]);
    }
  }

  lemma {:induction false} StaysReopened(c: Conn, events: seq<Event>)
    requires Legal(c, events) && Close !in events && c.state == Disconnecting
    ensures Run(c, events).state == Disconnecting
    decreases |events|
  {
    if events == [] {
    } else {
      StaysReopened(Step(c, events[0]), events[1..]);
    }
  }

  /** Such a run: shutdown() finds the connection connected, the peer closes, shutdown() sets the state. */
  lemma LateSetReopens()
    ensures var run := [Establish, ShutdownTest, Close, ShutdownSet];
            Legal(FRESH, run) && !OnTime(FRESH, run) && Run(FRESH, run).state == Disconnecting
  {
    var c1 := Step(FRESH, Establish);
    var c2 := Step(c1, ShutdownTest);
    var c3 := Step(c2, Close);
    Before(c3, ShutdownSet, []);
    Before(c2, Close, [ShutdownSet]);
    Before(c1, ShutdownTest, [Close, ShutdownSet]);
    Before(FRESH, Establish, [ShutdownTest, Close, ShutdownSet]);
    var r3, r2 := [Close, ShutdownSet], [ShutdownTest, Close, ShutdownSet];
    assert r3[1..] == [ShutdownSet] && r2[1..] == r3;
    assert !OnTime(c3, [ShutdownSet]) && !OnTime(c2, r3) && !OnTime(c1, r2);
  }

  /** The task forceClose queues never closes: forceClose itself has left the states it acts in. */
  lemma ForceCloseNeverCloses(events: seq<Event>)
    requires Legal(FRESH, events) && Enabled(Run(FRESH, events), ForceCloseTask)
    ensures var c := Run(FRESH, events);
            Step(c, ForceCloseTask) == c.(calls := c.calls.(forceCloseTasks := c.calls.forceCloseTasks - 1))
  {
    RunKeepsInv(FRESH, events);
  }

  // ---- Shutting down ---------------------------------------------------------------------------

  /**
    With the write side shut, a step takes on more bytes exactly when it sends on a connection that
    was closed with bytes buffered and set back by a late call.
   */
  lemma ShutTakesOnIffReopened(c: Conn, e: Event)
    requires Inv(c) && c.shut && Enabled(c, e)
    ensures var c' := Step(c, e);
            && c'.shut && c'.wire == c.wire && c'.completions == c.completions
            && (c'.accepted != c.accepted <==> e.Send? && e.msg != [] && c.out != [] && c.state == Disconnecting)
            && (c'.accepted == c.accepted ==> c'.out == c.out)
  {
  }

  /**
    Once the write side is shut, no run puts a byte on the wire or reports a completion; and unless a
    connection closed with bytes buffered is set back late, none takes on or buffers a byte either.
   */
  lemma {:induction false} ShutIsFinal(c: Conn, events: seq<Event>)
    requires Inv(c) && c.shut && Legal(c, events)
    ensures var c' := Run(c, events);
            && c'.shut && c'.wire == c.wire && c'.completions == c.completions
            && (c.out == [] || (c.state == Disconnected && OnTime(c, events)) ==>
                  c'.accepted == c.accepted && c'.out == c.out)
    decreases |events|
  {
    hide Inv, Enabled;
    if events == [] {
    } else {
      StepKeepsInv(c, events[0]);
      ShutTakesOnIffReopened(c, events[0]);
      StepMovesOn(c, events[0]);
      ShutIsFinal(Step(c, events[0]), events[1..]);
    }
  }

  /**
    The step that shuts the write side leaves bytes buffered exactly when it is a shutdownInLoop that
    meets a closed connection with bytes buffered. Otherwise everything accepted is on the wire.
   */
  lemma ShutsWhenDrained(c: Conn, e: Event)
    requires Inv(c) && Enabled(c, e)
    requires !c.shut && Step(c, e).shut
    ensures Step(c, e).out != [] <==> e == ShutdownTask && c.calls.closed && c.out != []
    ensures Step(c, e).out == [] ==> Step(c, e).wire == Step(c, e).accepted
  {
  }

  /**
    A disconnecting connection is shut by shutdownInLoop or by a write exactly when that leaves nothing
    buffered, or when it was closed before, set back late, and wants no write events.
   */
  lemma ClosingShutsIffDrained(c: Conn, e: Event)
    requires Inv(c) && Enabled(c, e) && c.state == Disconnecting && !c.shut
    requires e == ShutdownTask || (e.Writable? && SocketWrites(c, e))
    ensures Step(c, e).shut <==> Step(c, e).out == [] || (e == ShutdownTask && c.calls.closed && !c.writing)
  {
  }

  /**
    Graceful close, in every run, at the moment the write side is shut. Bytes are left buffered then
    exactly when a due shutdownInLoop meets a connection already closed with bytes buffered. Otherwise
    everything accepted is on the wire, and stays all that is ever accepted. The wire is final anyway.
   */
  lemma GracefulClose(events: seq<Event>, i: nat)
    requires Legal(FRESH, events) && i < |events|
    requires !At(FRESH, events, i).shut && At(FRESH, events, i + 1).shut
    ensures var c, c', end := At(FRESH, events, i), At(FRESH, events, i + 1), Run(FRESH, events);
            && (c'.out != [] <==> events[i] == ShutdownTask && c.calls.closed && c.out != [])
            && (c'.out == [] ==> c'.wire == c'.accepted == end.accepted && end.out == [])
            && end.shut && end.wire == c'.wire
  {
    hide Enabled, Step, StateInv;
    var c, c' := At(FRESH, events, i), At(FRESH, events, i + 1);
    FreshKeepsInv();
    AtNext(FRESH, events, i);
    AtKeepsInv(FRESH, events, i);
    AtKeepsInv(FRESH, events, i + 1);
    ShutsWhenDrained(c, events[i]);
    RunOn(FRESH, events, i + 1);
    ShutIsFinal(c', events[i + 1..]);
  }

  /**
    No shutdown is forgotten: in every run, once shutdown() has set the state and what it posted has
    run, and until the connection is closed, the write side is shut exactly when nothing is buffered.
   */
  lemma ShutdownNotForgotten(events: seq<Event>)
    requires Legal(FRESH, events)
    ensures var c := Run(FRESH, events);
            c.calls.asked && c.calls.shutdownTasks == 0 && !c.calls.closed ==> (c.shut <==> c.out == [])
  {
    RunKeepsInv(FRESH, events);
  }

  /** A run that shuts with bytes buffered: the socket is full, shutdown is asked for, the peer closes first. */
  lemma ShutWithBytesLeft()
    ensures var run := [Establish, Send([1], WriteFailed(WouldBlock)), ShutdownTest, ShutdownSet, Close, ShutdownTask];
            Legal(FRESH, run) && Run(FRESH, run).shut && Run(FRESH, run).out == [1] && Run(FRESH, run).wire == []
  {
    var c1, send := Step(FRESH, Establish), Send([1], WriteFailed(WouldBlock));
    var c2 := Step(c1, send);
    assert c2 == c1.(out := [1], accepted := [1], writing := true);
    CloseComesFirst(c2);
    hide Legal, Run;
    Before(c1, send, [ShutdownTest, ShutdownSet, Close, ShutdownTask]);
    Before(FRESH, Establish, [send, ShutdownTest, ShutdownSet, Close, ShutdownTask]);
  }

  lemma CloseComesFirst(c: Conn)
    requires c.state == Connected && c.calls == NO_CALLS
    ensures var run := [ShutdownTest, ShutdownSet, Close, ShutdownTask];
            Legal(c, run) && Run(c, run) == AfterShutdownTask(AfterClose(c.(calls := Calls(0, 0, 0, 0, true, false))))
  {
    var c3 := Step(c, ShutdownTest);
    var c4 := Step(c3, ShutdownSet);
    var c5 := Step(c4, Close);
    Before(c5, ShutdownTask, []);
    Before(c4, Close, [ShutdownTask]);
    hide Legal, Run;
    Before(c3, ShutdownSet, [Close, ShutdownTask]);
    Before(c, ShutdownTest, [ShutdownSet, Close, ShutdownTask]);
  }

  // ---- The connection object ---------------------------------------------------------------------

  class TcpConnection {
    const channel: Channel
    const outputBuffer: Buffer
    const inputBuffer: Buffer
    var state: State
    var completions: nat     // write-complete callbacks queued on the loop
    var closeReports: nat    // calls of the close callback
    var shut: bool           // the socket's write side
    ghost var wire: seq<Byte>
    ghost var accepted: seq<Byte>
    ghost var calls: Calls   // calls on their way, tasks due, history

    ghost function Abs(): Conn
      requires outputBuffer.Valid()
      reads this, channel, outputBuffer, outputBuffer.buffer
    {
      Conn(state, outputBuffer.Readable(), channel.events.write, channel.events.read,
           wire, accepted, shut, completions, calls)
    }

    ghost predicate Valid()
      reads this, channel, channel.poller, channel.poller.owned
      reads outputBuffer, outputBuffer.buffer, inputBuffer, inputBuffer.buffer
    {
      Wired() && Inv(Abs())
    }

    ghost predicate Wired()
      reads this, channel, channel.poller, channel.poller.owned
      reads outputBuffer, outputBuffer.buffer, inputBuffer, inputBuffer.buffer
    {
      && outputBuffer.Valid() && inputBuffer.Valid()
      && outputBuffer != inputBuffer && outputBuffer.buffer != inputBuffer.buffer
      && channel.poller.Valid() && channel in channel.poller.owned
    }

    /** The channel is in the poller's table: from connectEstablished to connectDestroyed. */
    ghost predicate Registered()
      reads this, channel
    {
      channel.index != KNew
    }

    constructor (channel: Channel)
      requires channel.poller.Valid() && channel in channel.poller.owned
      requires channel.index == KNew && channel.events == NONE_EVENT
      ensures Valid() && !Registered() && Abs() == FRESH && closeReports == 0
      ensures this.channel == channel && inputBuffer.Readable() == []
      ensures fresh(outputBuffer) && fresh(outputBuffer.buffer) && fresh(inputBuffer) && fresh(inputBuffer.buffer)
    {
      this.channel := channel;
      var output := new Buffer(INITIAL_BUFFER_SIZE);
      var input := new Buffer(INITIAL_BUFFER_SIZE);
      outputBuffer, inputBuffer := output, input;
      state, completions, closeReports, shut := Connecting, 0, 0, false;
      wire, accepted, calls := [], [], NO_CALLS;
    }

    method ConnectEstablished()
      requires Valid() && !Registered() && state == Connecting && channel.fd !in channel.poller.channels
      modifies this, channel`events, channel`index, channel`addedToLoop, channel.poller`channels, channel.poller`kernel
      ensures Valid() && Registered() && Abs() == Step(old(Abs()), Establish)
      ensures closeReports == old(closeReports)
    {
      state := Connected;
      channel.EnableReading();
    }

    /** Buffers what a send did not write, and asks to be told when the socket can take more. */
    method QueueRest(message: seq<Byte>, nwrote: nat)
      requires Wired() && channel.CanUpdate() && nwrote <= |message|
      modifies this`accepted, channel`events, channel`index, channel`addedToLoop
      modifies channel.poller`channels, channel.poller`kernel, outputBuffer, outputBuffer.buffer
      ensures Wired() && channel.CanUpdate() && (old(Registered()) ==> Registered())
      ensures var c := old(Abs());
              Abs() == c.(out := c.out + message[nwrote..], accepted := c.accepted + message,
                          writing := c.writing || nwrote < |message|)
      ensures outputBuffer.buffer == old(outputBuffer.buffer) || fresh(outputBuffer.buffer)
    {
      hide Poller.Valid;
      accepted := accepted + message;
      if nwrote < |message| {
        outputBuffer.Append(message[nwrote..]);
        if !channel.events.write {
          channel.EnableWriting();
        }
      }
    }

    /** The write tried at once when nothing is buffered before it; false for a fatal error. */
    method TryWrite(message: seq<Byte>, w: WriteResult) returns (nwrote: nat, faultError: bool)
      requires Wired() && state != Disconnected && KernelAnswers(Abs(), |message|, w)
      modifies this`wire, this`completions
      ensures Wired() && nwrote <= |message|
      ensures faultError <==> Dropped(old(Abs()), w)
      ensures faultError ==> Abs() == old(Abs())
      ensures !faultError ==>
                Abs() == AfterSend(old(Abs()), message, w).(
                  out := old(Abs()).out, accepted := old(Abs()).accepted, writing := old(Abs()).writing)
      ensures nwrote == TakenAtOnce(old(Abs()), w)
    {
      nwrote, faultError := 0, false;
      if !channel.events.write && outputBuffer.ReadableBytes() == 0 {
        match w
        case Wrote(n) =>
          wire := wire + message[..n];
          nwrote := n;
          if nwrote == |message| {
            completions := completions + 1;
          }
        case WriteFailed(errno) =>
          if errno != WouldBlock {
            if errno == Pipe || errno == Reset {
              faultError := true;
            }
          }
      }
      assert nwrote == 0 ==> old(wire) + message[..0] == old(wire);
    }

    /**
      One message handed to the loop, with what the socket answers to its first write. It may come after
      connectDestroyed; the poller then asserts that the channel's descriptor is free.
     */
    method SendInLoop(message: seq<Byte>, w: WriteResult)
      requires Valid() && Enabled(Abs(), Event.Send(message, w))
      requires state != Disconnected ==> channel.CanUpdate()
      modifies this, channel`events, channel`index, channel`addedToLoop, channel.poller`channels, channel.poller`kernel
      modifies outputBuffer, outputBuffer.buffer
      ensures Valid() && Abs() == Step(old(Abs()), Event.Send(message, w))
      ensures old(Registered()) ==> Registered()
      ensures outputBuffer.buffer == old(outputBuffer.buffer) || fresh(outputBuffer.buffer)
      ensures closeReports == old(closeReports)
    {
      hide Inv, Poller.Valid;
      ghost var before := Abs();
      SendKeepsInv(before, message, w);
      if state == Disconnected {
        return;
      }
      var nwrote, faultError := TryWrite(message, w);
      if !faultError {
        QueueRest(message, nwrote);
      }
      assert Abs() == AfterSend(before, message, w);
    }

    /** send() called in the connection's own loop; a connection not established takes nothing. */
    method Send(buf: Buffer, w: WriteResult)
      requires Valid() && buf.Valid() && buf != outputBuffer && buf != inputBuffer
      requires buf.buffer != outputBuffer.buffer && buf.buffer != inputBuffer.buffer
      requires state == Connected ==> channel.CanUpdate() && KernelAnswers(Abs(), |buf.Readable()|, w)
      modifies this, channel`events, channel`index, channel`addedToLoop, channel.poller`channels, channel.poller`kernel
      modifies outputBuffer, outputBuffer.buffer, buf
      ensures Valid() && buf.Valid()
      ensures old(state) == Connected ==>
                Abs() == Step(old(Abs()), Event.Send(old(buf.Readable()), w)) && buf.Readable() == []
      ensures old(state) != Connected ==> Abs() == old(Abs()) && buf.Readable() == old(buf.Readable())
    {
      hide Inv, AfterSend, Poller.Valid;
      if state == Connected {
        ghost var c := Abs();
        SendInLoop(buf.buffer[buf.readerIndex..buf.writeIndex], w);
        ghost var sent := Abs();
        buf.RetrieveAll();
        assert Abs() == sent;
      }
    }

    /** The socket can take more, and takes what `w` says. */
    method HandleWrite(w: WriteResult)
      requires Valid() && channel.CanUpdate() && Enabled(Abs(), Writable(w))
      modifies this, channel`events, channel`index, channel`addedToLoop, channel.poller`channels, channel.poller`kernel
      modifies outputBuffer
      ensures Valid() && channel.CanUpdate() && Abs() == Step(old(Abs()), Writable(w))
      ensures var n := if old(channel.events.write) && w.Wrote? then w.n else 0;
              && wire == old(wire) + old(outputBuffer.Readable())[..n]
              && outputBuffer.Readable() == old(outputBuffer.Readable())[n..]
      ensures closeReports == old(closeReports)
    {
      hide Inv, Poller.Valid;
      ghost var before := Abs();
      WriteKeepsInv(before, w);
      if channel.events.write {
        if w.Wrote? && w.n > 0 {
          wire := wire + outputBuffer.Readable()[..w.n];
          outputBuffer.Retrieve(w.n);
          if outputBuffer.ReadableBytes() == 0 {
            Drained();
          }
        }
      }
      assert Abs() == AfterWrite(before, w);
    }

    /** The last buffered byte is gone. */
    method Drained()
      requires Wired() && channel.CanUpdate()
      modifies this`completions, this`shut
      modifies channel`events, channel`index, channel`addedToLoop, channel.poller`channels, channel.poller`kernel
      ensures Wired() && Registered()
      ensures Abs() == AfterDrained(old(Abs()))
    {
      hide Poller.Valid;
      channel.DisableWriting();
      completions := completions + 1;
      if state == Disconnecting {
        ShutdownInLoop();
      }
    }

    method ShutdownInLoop()
      requires Wired()
      modifies this`shut
      ensures Wired() && Abs() == AfterShutdownTask(old(Abs()))
    {
      if !channel.events.write {
        shut := true;
      }
    }

    /**
      shutdown(), without the loop between its test and its setting of the state: posts ShutdownInLoop,
      or runs it at once in the loop's own thread.
     */
    method Shutdown(inLoopThread: bool)
      requires Valid()
      modifies this`state, this`calls, this`shut
      ensures Valid()
      ensures old(state) != Connected ==> Abs() == old(Abs())
      ensures old(state) == Connected ==>
                var posted := Step(Step(old(Abs()), ShutdownTest), ShutdownSet);
                Abs() == if inLoopThread then Step(posted, ShutdownTask) else posted
    {
      hide Poller.Valid;
      ghost var before := Abs();
      if state == Connected {
        StepKeepsInv(before, ShutdownTest);
        StepKeepsInv(Step(before, ShutdownTest), ShutdownSet);
        state := Disconnecting;
        calls := calls.(shutdownTasks := calls.shutdownTasks + 1, asked := true);
        if inLoopThread {
          RunShutdownTask();
        }
      }
    }

    /** The loop comes to a posted ShutdownInLoop. */
    method RunShutdownTask()
      requires Valid() && Enabled(Abs(), ShutdownTask)
      modifies this`calls, this`shut
      ensures Valid() && Abs() == Step(old(Abs()), ShutdownTask)
    {
      hide Poller.Valid;
      StepKeepsInv(Abs(), ShutdownTask);
      calls := calls.(shutdownTasks := calls.shutdownTasks - 1);
      ShutdownInLoop();
    }

    /** forceClose(): always posts ForceCloseInLoop. */
    method ForceClose()
      requires Valid()
      modifies this`state, this`calls
      ensures Valid()
      ensures Abs() == if old(state) == Connected || old(state) == Connecting
                       then Step(Step(old(Abs()), ForceCloseTest), ForceCloseSet) else old(Abs())
    {
      hide Poller.Valid;
      ghost var before := Abs();
      if state == Connected || state == Connecting {
        StepKeepsInv(before, ForceCloseTest);
        StepKeepsInv(Step(before, ForceCloseTest), ForceCloseSet);
        state := Disconnecting;
        calls := calls.(forceCloseTasks := calls.forceCloseTasks + 1);
      }
    }

    /** The loop comes to a posted ForceCloseInLoop, which never has anything left to do. */
    method RunForceCloseTask()
      requires Valid() && Enabled(Abs(), ForceCloseTask)
      modifies this, channel`events, channel`index, channel`addedToLoop, channel.poller`channels, channel.poller`kernel
      ensures Valid() && Abs() == Step(old(Abs()), ForceCloseTask) && closeReports == old(closeReports)
    {
      StepKeepsInv(Abs(), ForceCloseTask);
      calls := calls.(forceCloseTasks := calls.forceCloseTasks - 1);
      var held := ForceCloseInLoop();
    }

    /** In the connecting state the assertion of handleClose fails. */
    method ForceCloseInLoop() returns (held: bool)
      requires Valid() && (state == Connected ==> channel.CanUpdate())
      modifies this, channel`events, channel`index, channel`addedToLoop, channel.poller`channels, channel.poller`kernel
      ensures held <==> old(state) != Connecting
      ensures Valid() && Abs() == if old(state) == Connected then Step(old(Abs()), Close) else old(Abs())
      ensures closeReports == if old(state) == Connected then old(closeReports) + 1 else old(closeReports)
    {
      held := true;
      if state == Connected || state == Connecting {
        held := HandleClose();
      }
    }

    /** Reports the close once; `held` is false where its assertion on the state fails. */
    method HandleClose() returns (held: bool)
      requires Valid() && (Enabled(Abs(), Close) ==> channel.CanUpdate())
      modifies this, channel`events, channel`index, channel`addedToLoop, channel.poller`channels, channel.poller`kernel
      ensures held <==> Enabled(old(Abs()), Close)
      ensures Valid() && Abs() == if held then Step(old(Abs()), Close) else old(Abs())
      ensures closeReports == if held then old(closeReports) + 1 else old(closeReports)
      ensures held ==> Registered() && channel.IsNoneEvent()
      ensures old(Registered()) ==> Registered()
    {
      hide Inv, Poller.Valid;
      ghost var before := Abs();
      if state != Connected && state != Disconnecting {
        return false;
      }
      StepKeepsInv(before, Close);
      Disconnect();
      closeReports := closeReports + 1;
      held := true;
      assert Abs() == AfterClose(before);
    }

    /** A connection that is closed wants to hear of nothing. */
    method Disconnect()
      requires Wired() && channel.CanUpdate()
      modifies this`state, this`calls
      modifies channel`events, channel`index, channel`addedToLoop, channel.poller`channels, channel.poller`kernel
      ensures Wired() && Registered() && Abs() == AfterClose(old(Abs())) && channel.IsNoneEvent()
    {
      hide Poller.Valid;
      state := Disconnected;
      calls := calls.(closed := true);
      channel.DisableAll();
    }

    /**
      Takes the channel off the poller; `held` is false where an assertion on the way fails, which it
      does exactly when the connection is not connected, and some interest is left or the channel is
      already off.
     */
    method ConnectDestroyed() returns (held: bool)
      requires Valid() && (state == Connected ==> channel.CanUpdate())
      modifies this, channel`events, channel`index, channel`addedToLoop, channel.poller`channels, channel.poller`kernel
      ensures held <==> Enabled(old(Abs()), Destroy) && (old(state) == Connected || old(Registered()))
      ensures Valid() && closeReports == old(closeReports)
      ensures held ==>
                && !Registered() && Abs() == Step(old(Abs()), Destroy)
                && channel.fd !in channel.poller.channels && channel.fd !in channel.poller.kernel
      ensures !held ==> Registered() == old(Registered()) && Abs() == old(Abs())
    {
      hide Inv, Poller.Valid;
      ghost var before := Abs();
      if Enabled(before, Destroy) {
        StepKeepsInv(before, Destroy);
      }
      if state == Connected {
        Disconnect();
      }
      held := channel.Remove();
    }

    /**
      The destructor: the connection must be disconnected, and its channel must be destroyable, which
      in the loop's own thread it never is.
     */
    method Destruct(inLoopThread: bool) returns (held: bool)
      requires Valid()
      modifies channel`index, channel.poller`channels, channel.poller`kernel
      ensures held <==> old(state) == Disconnected && !channel.eventHandling && !old(Registered()) && !inLoopThread
      ensures Valid() && Abs() == old(Abs())
    {
      if state != Disconnected {
        return false;
      }
      held := channel.Destruct(inLoopThread);
    }

    /** One scatter read; an RPC codec is the message callback for what it brings. */
    method Receive(got: Read, codec: C.ProtoRpcCodec) returns (n: int)
      requires Valid()
      requires got.Arrived? ==> |got.data| <= inputBuffer.ReadLimit()
      modifies inputBuffer, inputBuffer.buffer, codec
      ensures Valid() && Abs() == old(Abs())
      ensures inputBuffer.buffer == old(inputBuffer.buffer) || fresh(inputBuffer.buffer)
      ensures n == if got.Failed? then -1 else |got.data|
      ensures n > 0 ==>
                var d := C.Decode(old(inputBuffer.Readable()) + got.data);
                inputBuffer.Readable() == d.rest && codec.delivered == old(codec.delivered) + d.msgs
      ensures n <= 0 ==>
                inputBuffer.Readable() == old(inputBuffer.Readable()) && codec.delivered == old(codec.delivered)
    {
      hide Inv, Poller.Valid, C.Decode;
      ghost var before := Abs();
      n := inputBuffer.ReadFd(got);
      assert Abs() == before && channel.poller.Valid();
      if n > 0 {
        ghost var content := inputBuffer.Readable();
        codec.OnMessage(inputBuffer);
        assert Abs() == before && channel.poller.Valid();
        assert inputBuffer.Readable() == C.Decode(content).rest;
      }
    }

    /** Input arrives, ends or fails; `held` is false where an end finds no connection to close. */
    method HandleRead(got: Read, codec: C.ProtoRpcCodec) returns (held: bool)
      requires Valid() && (Enabled(Abs(), Close) ==> channel.CanUpdate())
      requires got.Arrived? ==> |got.data| <= inputBuffer.ReadLimit()
      modifies this, channel`events, channel`index, channel`addedToLoop, channel.poller`channels, channel.poller`kernel
      modifies inputBuffer, inputBuffer.buffer, codec
      ensures held <==> got == Arrived([]) ==> Enabled(old(Abs()), Close)
      ensures Valid() && (inputBuffer.buffer == old(inputBuffer.buffer) || fresh(inputBuffer.buffer))
      ensures old(Registered()) ==> Registered()
      ensures Abs() == if got == Arrived([]) && held then Step(old(Abs()), Close) else old(Abs())
      ensures got.Arrived? && got.data != [] ==>
                var d := C.Decode(old(inputBuffer.Readable()) + got.data);
                inputBuffer.Readable() == d.rest && codec.delivered == old(codec.delivered) + d.msgs
      ensures got == Arrived([]) || got.Failed? ==>
                inputBuffer.Readable() == old(inputBuffer.Readable()) && codec.delivered == old(codec.delivered)
    {
      hide Inv, Poller.Valid;
      var n := Receive(got, codec);
      held := true;
      if n == 0 {
        held := HandleClose();
      }
    }
  }
}
