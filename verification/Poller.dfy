/**
  A loop's poller and its channels: the index each channel carries must agree with the poller's own
  table and with the interest set the kernel keeps.
 */
module Pollers {

  /** What a channel wants to hear of. */
  datatype Interest = Interest(read: bool, write: bool)

  const NONE_EVENT: Interest := Interest(false, false)

  datatype Index = KNew | KAdded | KDeleted

  /** What the kernel reports of a channel. */
  datatype Ready = In | Pri | RdHup | Out | Err | Nval | Hup

  datatype Handler = CloseHandler | ReadHandler | ErrorHandler | WriteHandler

  datatype CtlOp = Add | Mod | Del

  /** One entry of the kernel's set. */
  datatype Registration = Registration(interest: Interest, channel: Channel)

  predicate Calls(h: Handler, revents: set<Ready>) {
    match h
    case CloseHandler => Hup in revents && In !in revents
    case ReadHandler => In in revents || Pri in revents || RdHup in revents
    case ErrorHandler => Err in revents || Nval in revents
    case WriteHandler => Out in revents
  }

  function IfCalled(h: Handler, revents: set<Ready>): seq<Handler> {
    if Calls(h, revents) then [h] else []
  }

  /** The handlers of one event, in the order they run. */
  function Dispatch(revents: set<Ready>): seq<Handler> {
    IfCalled(CloseHandler, revents) + IfCalled(ReadHandler, revents)
    + IfCalled(ErrorHandler, revents) + IfCalled(WriteHandler, revents)
  }

  /** Each handler runs exactly for what concerns it. */
  lemma DispatchCalls(revents: set<Ready>)
    ensures CloseHandler in Dispatch(revents) <==> Hup in revents && In !in revents
    ensures ReadHandler in Dispatch(revents) <==> In in revents || Pri in revents || RdHup in revents
    ensures ErrorHandler in Dispatch(revents) <==> Err in revents || Nval in revents
    ensures WriteHandler in Dispatch(revents) <==> Out in revents
  {
    var c, r := IfCalled(CloseHandler, revents), IfCalled(ReadHandler, revents);
    var e, w := IfCalled(ErrorHandler, revents), IfCalled(WriteHandler, revents);
    assert forall h :: h in Dispatch(revents) <==> h in c || h in r || h in e || h in w;
  }

  /** At most once, and in this order. */
  lemma DispatchOrder(revents: set<Ready>)
    ensures forall i, j :: 0 <= i < j < |Dispatch(revents)| ==>
              Place(Dispatch(revents)[i]) < Place(Dispatch(revents)[j])
  {
    hide Calls;
  }

  function Place(h: Handler): nat {
    match h
    case CloseHandler => 0
    case ReadHandler => 1
    case ErrorHandler => 2
    case WriteHandler => 3
  }

  /** One event both closes and reads exactly when the peer hung up with nothing to read but urgent data or an end. */
  lemma ClosesAndReads(revents: set<Ready>)
    ensures CloseHandler in Dispatch(revents) && ReadHandler in Dispatch(revents)
            <==> Hup in revents && In !in revents && (Pri in revents || RdHup in revents)
  {
    assert forall h :: h in Dispatch(revents) <==> Calls(h, revents);
  }

  class Channel {
    const fd: int
    const poller: Poller
    var events: Interest
    var revents: set<Ready>
    var index: Index
    var addedToLoop: bool
    var eventHandling: bool  // from the start of handleEvent to its end

    constructor (poller: Poller, fd: int)
      requires poller.Valid()
      modifies poller`owned
      ensures this.poller == poller && this.fd == fd
      ensures events == NONE_EVENT && revents == {} && index == KNew && !addedToLoop && !eventHandling
      ensures poller.Valid() && poller.owned == old(poller.owned) + {this}
    {
      this.poller, this.fd := poller, fd;
      events, revents, index, addedToLoop, eventHandling := NONE_EVENT, {}, KNew, false, false;
      new;
      poller.owned := poller.owned + {this};
    }

    predicate IsNoneEvent()
      reads this
    {
      events == NONE_EVENT
    }

    /** A new channel may be registered when no other one has its descriptor. */
    ghost predicate CanUpdate()
      reads this, poller, poller.owned`index, poller.owned`events, poller.owned`addedToLoop
    {
      && poller.Valid() && this in poller.owned
      && (index == KNew ==> fd !in poller.channels)
    }

    /** Every change of interest sets the events, then tells the poller. */
    method SetInterest(wanted: Interest)
      requires CanUpdate()
      modifies this`events, this`index, this`addedToLoop, poller`channels, poller`kernel
      ensures poller.Valid() && events == wanted
      ensures index == if old(index) == KAdded && wanted == NONE_EVENT then KDeleted else KAdded
      ensures poller.channels == old(poller.channels)[fd := this]
      ensures poller.kernel == if index == KDeleted then old(poller.kernel) - {fd}
                               else old(poller.kernel)[fd := Registration(wanted, this)]
    {
      events, addedToLoop := wanted, true;
      poller.UpdateChannel(this);
    }

    method EnableReading()
      requires CanUpdate()
      modifies this`events, this`index, this`addedToLoop, poller`channels, poller`kernel
      ensures poller.Valid() && events == old(events).(read := true) && index == KAdded
      ensures poller.channels == old(poller.channels)[fd := this]
    {
      SetInterest(events.(read := true));
    }

    method DisableReading()
      requires CanUpdate()
      modifies this`events, this`index, this`addedToLoop, poller`channels, poller`kernel
      ensures poller.Valid() && events == old(events).(read := false) && index != KNew
      ensures poller.channels == old(poller.channels)[fd := this]
    {
      SetInterest(events.(read := false));
    }

    method EnableWriting()
      requires CanUpdate()
      modifies this`events, this`index, this`addedToLoop, poller`channels, poller`kernel
      ensures poller.Valid() && events == old(events).(write := true) && index == KAdded
      ensures poller.channels == old(poller.channels)[fd := this]
    {
      SetInterest(events.(write := true));
    }

    method DisableWriting()
      requires CanUpdate()
      modifies this`events, this`index, this`addedToLoop, poller`channels, poller`kernel
      ensures poller.Valid() && events == old(events).(write := false) && index != KNew
      ensures poller.channels == old(poller.channels)[fd := this]
    {
      SetInterest(events.(write := false));
    }

    method DisableAll()
      requires CanUpdate()
      modifies this`events, this`index, this`addedToLoop, poller`channels, poller`kernel
      ensures poller.Valid() && events == NONE_EVENT && index != KNew
      ensures poller.channels == old(poller.channels)[fd := this]
    {
      SetInterest(NONE_EVENT);
    }

    /**
      Takes a channel off the poller; `held` is false where an assertion on the way fails, which it
      does exactly when interest is left or the channel is not in the table.
     */
    method Remove() returns (held: bool)
      requires poller.Valid() && this in poller.owned
      modifies this`index, this`addedToLoop, poller`channels, poller`kernel
      ensures held <==> old(index) != KNew && IsNoneEvent()
      ensures poller.Valid()
      ensures held ==>
                && index == KNew
                && poller.channels == old(poller.channels) - {fd} && poller.kernel == old(poller.kernel) - {fd}
      ensures !held ==>
                index == old(index) && poller.channels == old(poller.channels) && poller.kernel == old(poller.kernel)
    {
      if !IsNoneEvent() {
        return false;
      }
      addedToLoop := false;
      held := poller.RemoveChannel(this);
    }

    /**
      The destructor. In the loop's own thread its assertions exclude those of the call it makes: it
      wants the channel off the table, the call wants it in. So they hold exactly for a removed
      channel, between events, in another thread.
     */
    method Destruct(inLoopThread: bool) returns (held: bool)
      requires poller.Valid() && this in poller.owned
      modifies this`index, poller`channels, poller`kernel
      ensures held <==> !eventHandling && index == KNew && !inLoopThread
      ensures poller.Valid() && index == old(index)
      ensures poller.channels == old(poller.channels) && poller.kernel == old(poller.kernel)
    {
      if eventHandling || addedToLoop {
        return false;
      }
      held := true;
      if inLoopThread {
        held := poller.RemoveChannel(this);
      }
    }

    /** Calls the handlers of what was reported. */
    method HandleEvent() returns (called: seq<Handler>)
      modifies this`eventHandling
      ensures !eventHandling && called == Dispatch(revents)
    {
      eventHandling := true;
      called := [];
      if Hup in revents && In !in revents {
        called := called + [CloseHandler];
      }
      if In in revents || Pri in revents || RdHup in revents {
        called := called + [ReadHandler];
      }
      if Err in revents || Nval in revents {
        called := called + [ErrorHandler];
      }
      if Out in revents {
        called := called + [WriteHandler];
      }
      eventHandling := false;
    }

    /** A channel removed as it should be, then destroyed in its loop's thread, runs into an assertion. */
    method RemoveThenDestroy() returns (removed: bool, destroyed: bool)
      requires poller.Valid() && this in poller.owned && index != KNew && IsNoneEvent()
      modifies this`index, this`addedToLoop, poller`channels, poller`kernel
      ensures removed && !destroyed
    {
      removed := Remove();
      destroyed := Destruct(true);
    }
  }

  class Poller {
    var channels: map<int, Channel>
    /** The kernel's set, which only epoll_ctl changes. */
    var kernel: map<int, Registration>
    /** Every channel ever made for this poller. */
    ghost var owned: set<Channel>

    constructor ()
      ensures Valid() && channels == map[] && kernel == map[] && owned == {}
    {
      channels, kernel, owned := map[], map[], {};
    }

    /** Table and kernel set agree with the index of a channel. */
    ghost predicate Indexed(c: Channel)
      reads this, c`index
    {
      && (c.index != KNew <==> c.fd in channels && channels[c.fd] == c)
      && (c.index == KAdded <==> c.fd in kernel && kernel[c.fd].channel == c)
    }

    ghost predicate Tables()
      reads this, owned`index
    {
      && (forall c :: c in owned ==> c.poller == this && Indexed(c))
      && (forall fd :: fd in channels ==> channels[fd] in owned && channels[fd].fd == fd)
      && (forall fd :: fd in kernel ==> fd in channels && kernel[fd].channel == channels[fd])
    }

    /** The kernel knows the interest of a registered channel, and the channel knows whether it is in the table. */
    ghost predicate Current(c: Channel)
      reads this, c`index, c`events, c`addedToLoop
    {
      && (c.index == KAdded && c.fd in kernel ==> kernel[c.fd].interest == c.events)
      && (c.addedToLoop <==> c.index != KNew)
    }

    ghost predicate Valid()
      reads this, owned`index, owned`events, owned`addedToLoop
    {
      Tables() && forall c :: c in owned ==> Current(c)
    }

    /** epoll_ctl: adding what is there, or changing what is not, would be refused by the kernel. */
    method EpollCtl(op: CtlOp, channel: Channel)
      requires op == Add <==> channel.fd !in kernel
      modifies this`kernel
      ensures kernel == if op == Del then old(kernel) - {channel.fd}
                        else old(kernel)[channel.fd := Registration(channel.events, channel)]
    {
      kernel := if op == Del then kernel - {channel.fd}
                else kernel[channel.fd := Registration(channel.events, channel)];
    }

    /** Called with a channel whose events were just changed; all others are current. */
    method UpdateChannel(channel: Channel)
      requires Tables() && channel in owned && channel.addedToLoop
      requires forall c :: c in owned && c != channel ==> Current(c)
      requires channel.index == KNew ==> channel.fd !in channels
      modifies channel`index, this`channels, this`kernel
      ensures Valid()
      ensures channel.index == if old(channel.index) == KAdded && channel.IsNoneEvent() then KDeleted else KAdded
      ensures channels == old(channels)[channel.fd := channel]
      ensures kernel == if channel.index == KDeleted then old(kernel) - {channel.fd}
                        else old(kernel)[channel.fd := Registration(channel.events, channel)]
    {
      if channel.index == KNew || channel.index == KDeleted {
        AddChannel(channel);
      } else {
        ChangeChannel(channel);
      }
    }

    /** A new channel enters the table, one taken from the kernel is still there; both go to the kernel. */
    method AddChannel(channel: Channel)
      requires Tables() && channel in owned && channel.addedToLoop
      requires forall c :: c in owned && c != channel ==> Current(c)
      requires channel.index == KNew || channel.index == KDeleted
      requires channel.index == KNew ==> channel.fd !in channels
      modifies channel`index, this`channels, this`kernel
      ensures Valid() && channel.index == KAdded
      ensures channels == old(channels)[channel.fd := channel]
      ensures kernel == old(kernel)[channel.fd := Registration(channel.events, channel)]
    {
      var fd := channel.fd;
      if channel.index == KNew {
        assert fd !in channels;
        channels := channels[fd := channel];
      } else {
        assert fd in channels && channels[fd] == channel;
      }
      assert fd !in kernel;
      channel.index := KAdded;
      EpollCtl(Add, channel);
      forall c | c in owned && c != channel
        ensures c.poller == this && Indexed(c) && Current(c)
      {
        assert old(Indexed(c)) && old(Current(c));
      }
    }

    method ChangeChannel(channel: Channel)
      requires Tables() && channel in owned && channel.addedToLoop
      requires forall c :: c in owned && c != channel ==> Current(c)
      requires channel.index == KAdded
      modifies channel`index, this`kernel
      ensures Valid() && channel.index == if channel.IsNoneEvent() then KDeleted else KAdded
      ensures channels == old(channels)[channel.fd := channel]
      ensures kernel == if channel.IsNoneEvent() then old(kernel) - {channel.fd}
                        else old(kernel)[channel.fd := Registration(channel.events, channel)]
    {
      assert channel.fd in channels && channels[channel.fd] == channel;
      if channel.IsNoneEvent() {
        EpollCtl(Del, channel);
        channel.index := KDeleted;
      } else {
        EpollCtl(Mod, channel);
      }
      forall c | c in owned && c != channel
        ensures c.poller == this && Indexed(c) && Current(c)
      {
        assert old(Indexed(c)) && old(Current(c));
      }
    }

    /** The assertions a channel must meet to be taken off. */
    predicate RemoveAsserts(channel: Channel)
      reads this, channel
    {
      && channel.fd in channels && channels[channel.fd] == channel
      && channel.IsNoneEvent() && (channel.index == KAdded || channel.index == KDeleted)
    }

    /** Called with a channel just marked as not added; all others are current. */
    method RemoveChannel(channel: Channel) returns (held: bool)
      requires Tables() && channel in owned && !channel.addedToLoop
      requires forall c :: c in owned && c != channel ==> Current(c)
      modifies channel`index, this`channels, this`kernel
      ensures held <==> old(channel.index) != KNew && channel.IsNoneEvent()
      ensures held ==>
                && Valid() && channel.index == KNew
                && channels == old(channels) - {channel.fd} && kernel == old(kernel) - {channel.fd}
      ensures !held ==> channel.index == old(channel.index) && channels == old(channels) && kernel == old(kernel)
    {
      held := RemoveAsserts(channel);
      if held {
        channels := channels - {channel.fd};
        if channel.index == KAdded {
          EpollCtl(Del, channel);
        }
        channel.index := KNew;
        forall c | c in owned && c != channel
          ensures c.poller == this && Indexed(c) && Current(c)
        {
          assert old(Indexed(c)) && old(Current(c));
        }
      }
    }

    /**
      Hands out the channels of the reported events, in order. Each is an entry of the kernel's set,
      so the lookup in the table finds that very channel.
     */
    method FillActiveChannels(events: seq<(Registration, set<Ready>)>, active: seq<Channel>)
      returns (filled: seq<Channel>)
      requires Valid()
      requires forall i :: 0 <= i < |events| ==>
                 var c := events[i].0.channel; c.fd in kernel && kernel[c.fd] == events[i].0
      modifies set c <- owned :: c`revents
      ensures Valid() && |filled| == |active| + |events| && active <= filled
      ensures forall i :: 0 <= i < |events| ==> filled[|active| + i] == events[i].0.channel
      ensures forall c :: c in owned ==> c.revents == old(c.revents) + Reported(events, c)
    {
      filled := active;
      forall i | 0 <= i < |events|
        ensures var c := events[i].0.channel; c in owned && c.fd in channels && channels[c.fd] == c
      {
        assert events[i].0.channel.fd in kernel;
      }
      hide Valid;
      for i := 0 to |events|
        invariant |filled| == |active| + i && active <= filled
        invariant forall j :: 0 <= j < i ==> filled[|active| + j] == events[j].0.channel
        invariant forall c :: c in owned ==> c.revents == old(c.revents) + Reported(events[..i], c)
      {
        var channel := events[i].0.channel;
        assert channel.fd in channels && channels[channel.fd] == channel;
        channel.revents := channel.revents + events[i].1;
        filled := filled + [channel];
        assert events[..i + 1][..i] == events[..i];
      }
      assert events[..|events|] == events;
    }
  }

  /** With distinct descriptors, table and kernel set can be read off the indices and the events. */
  lemma Agreement(p: Poller)
    requires p.Valid()
    requires forall c, d :: c in p.owned && d in p.owned && c.fd == d.fd ==> c == d
    ensures forall c :: c in p.owned ==>
              && (c.fd in p.channels <==> c.index != KNew)
              && (c.fd in p.kernel <==> c.index == KAdded)
              && (c.index == KAdded ==> p.kernel[c.fd] == Registration(c.events, c))
  {
    forall c | c in p.owned
      ensures c.fd in p.channels <==> c.index != KNew
      ensures c.fd in p.kernel <==> c.index == KAdded
      ensures c.index == KAdded ==> p.kernel[c.fd] == Registration(c.events, c)
    {
      assert p.Indexed(c) && p.Current(c);
    }
  }

  /** The assertions of removeChannel hold exactly for a channel in the table with no interest left. */
  lemma RemovableIffRegistered(p: Poller, c: Channel)
    requires p.Valid() && c in p.owned
    ensures p.RemoveAsserts(c) <==> c.index != KNew && c.IsNoneEvent()
  {
    assert p.Indexed(c);
  }

  /** Everything the events report of a channel. */
  ghost function Reported(events: seq<(Registration, set<Ready>)>, c: Channel): set<Ready> {
    if events == [] then {}
    else
      var last := events[|events| - 1];
      Reported(events[..|events| - 1], c) + (if last.0.channel == c then last.1 else {})
  }

  lemma {:induction false} ReportedIffInEvents(events: seq<(Registration, set<Ready>)>, c: Channel, what: Ready)
    ensures what in Reported(events, c) <==>
            exists i :: 0 <= i < |events| && events[i].0.channel == c && what in events[i].1
    decreases |events|
  {
    if events == [] {
    } else {
      var n := |events| - 1;
      ReportedIffInEvents(events[..n], c, what);
      assert forall i :: 0 <= i < n ==> events[..n][i] == events[i];
    }
  }
}
