/**
  From a sender's messages, through its connection and any cutting of the stream, to what the
  receiver's codec hands out.
 */
module EndToEnd {
  import opened Bytes
  import opened RpcMessages
  import opened Codec
  import opened Buffers
  import opened ConnectionStates
  import Conns = Connections

  /** The sends of a run carry the frames of `ms`, in order, and none of them is let go. */
  ghost predicate Sends(c: Conns.Conn, events: seq<Conns.Event>, ms: seq<Msg>)
    requires Conns.Legal(c, events) && AllDeliverable(ms)
    decreases |events|
  {
    if events == [] then ms == []
    else
      var next := Conns.Step(c, events[0]);
      if events[0].Send? then
        && ms != [] && events[0].msg == Frame(ms[0]) && !Conns.Dropped(c, events[0].w)
        && Sends(next, events[1..], ms[1..])
      else Sends(next, events[1..], ms)
  }

  lemma {:induction false} SendsAreFrames(c: Conns.Conn, events: seq<Conns.Event>, ms: seq<Msg>)
    requires Conns.Legal(c, events) && AllDeliverable(ms) && Sends(c, events, ms)
    ensures Conns.AcceptedBytes(c, events) == Frames(ms)
    decreases |events|
  {
    hide Frame, Encode, Conns.Step, Conns.Enabled, Conns.Dropped;
    if events == [] {
    } else {
      var next := Conns.Step(c, events[0]);
      SendsAreFrames(next, events[1..], if events[0].Send? then ms[1..] else ms);
    }
  }

  /** At every moment of every run the wire holds a prefix of the frames sent. */
  lemma WireIsPrefix(events: seq<Conns.Event>, ms: seq<Msg>)
    requires Conns.Legal(Conns.FRESH, events) && AllDeliverable(ms) && Sends(Conns.FRESH, events, ms)
    ensures var c := Conns.Run(Conns.FRESH, events);
            c.wire <= Frames(ms) && (c.out == [] ==> c.wire == Frames(ms))
  {
    hide Frames, Sends, Conns.AcceptedBytes, Conns.Run, Conns.Legal;
    Conns.RunKeepsInv(Conns.FRESH, events);
    Conns.AcceptedInOrder(Conns.FRESH, events);
    SendsAreFrames(Conns.FRESH, events, ms);
    assert [] + Frames(ms) == Frames(ms);
    var c := Conns.Run(Conns.FRESH, events);
    assert c.out == [] ==> c.wire == c.wire + c.out;
  }

  /**
    However the socket splits the writes and however the reads cut what arrived of the wire: the
    messages handed out are a prefix of those sent, every message whose frame has wholly arrived is
    among them, and when nothing is left to send or to arrive they are exactly the messages sent.
   */
  lemma SentIsDelivered(events: seq<Conns.Event>, ms: seq<Msg>, chunks: seq<seq<Byte>>, k: nat)
    requires Conns.Legal(Conns.FRESH, events) && AllDeliverable(ms) && Sends(Conns.FRESH, events, ms)
    requires Concat(chunks) <= Conns.Run(Conns.FRESH, events).wire
    requires k <= |ms| && |Frames(ms[..k])| <= |Concat(chunks)|
    ensures var c := Conns.Run(Conns.FRESH, events);
            var d := Feed([], chunks);
            && k <= |d.msgs| && d.msgs <= ms
            && (c.out == [] && Concat(chunks) == c.wire ==> d == Decoded(ms, []))
  {
    hide Frames, Sends, Decode, Feed, Concat, Conns.Run, Conns.Legal, Encode;
    WireIsPrefix(events, ms);
    DecodeNothing();
    FeedIsDecode([], chunks);
    assert [] + Concat(chunks) == Concat(chunks);
    PrefixDelivers(ms, Concat(chunks), k);
  }

  /** The codec's send: a connected peer is sent exactly the message's frame. */
  method SendMessage(codec: ProtoRpcCodec, conn: Conns.TcpConnection, message: RpcMessage, w: Conns.WriteResult)
    requires conn.Valid() && conn.channel.CanUpdate() && conn.state == Connected
    requires |Encode(message.Value())| + 8 <= INT_MAX
    requires Conns.KernelAnswers(conn.Abs(), |Frame(message.Value())|, w)
    modifies conn, conn.channel, conn.channel.poller, conn.outputBuffer, conn.outputBuffer.buffer
    ensures conn.Valid()
    ensures conn.Abs() == Conns.Step(old(conn.Abs()), Conns.Event.Send(Frame(message.Value()), w))
  {
    hide Frame, Encode, Conns.Step, Conns.Inv;
    var buf := new Buffer(INITIAL_BUFFER_SIZE);
    codec.FillEmptyMessage(buf, message);
    conn.Send(buf, w);
  }
}
