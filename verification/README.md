# Verified model of a muduo-style RPC network library

The repository holds a network library in the style of muduo, an RPC codec on top of it, and a lazy
segment tree. This project models their cores in Dafny and proves what they promise.

- `SegmentTree.dfy` - `build`, `update`, `getsum1` and `getsum2` on the heap-indexed arrays `d` and `b`,
  against a plain array, for any number of elements.
- `Bytes.dfy`, `Buffer.dfy` - fixed-width integers as bytes, and the growable, prependable `Buffer`.
- `Wire.dfy`, `RpcMessage.dfy` - the protobuf wire format the generated code relies on, and the
  generated `RpcMessage` code: printing, sizing, parsing, merging.
- `RpcFields.dfy` - the layout of messages apart from that code: a generic reader of numbered fields, the
  member each number of `rpc.proto` carries, and fields of any other kind, with groups nested in groups.
- `Adler32.dfy`, `Codec.dfy` - the checksum, the frame, and the decoder loop over a byte stream.
- `Poller.dfy` - `Channel` and `Poller`: indices, the poller's table and the kernel's interest set.
- `ConnectionState.dfy`, `Connection.dfy` - one `TcpConnection`: sending through a kernel that takes any
  prefix or fails, shutting down, closing.
- `EventLoop.dfy` - the queue of an event loop that several threads push to: a transition system.
- `Server.dfy` - `TcpServer` and its connections across any number of loops: a transition system.
- `EndToEnd.dfy` - from a sender's messages to what the receiver's codec hands out.

Code that changes objects or arrays step by step is modelled by classes whose methods are proved
against functions on values; what the library promises is proved about those functions. Code that
several threads take part in is modelled by atomic actions, so that a sequence of actions is an
interleaving, and statements about all sequences are statements about all interleavings.

## Results that qualify a promise

- Parsing undoes printing exactly for messages whose service and method are valid UTF-8: the printer
  only logs an invalid name, the parser refuses it (`RpcMessages.ParseUndoesPrint`).
- A frame is decoded exactly when its names are UTF-8 and it is within 64 MiB; the sender checks
  neither, and the receiver then stops at that frame for good (`Codec.FrameDecodes`,
  `Codec.DecodeSettles`).
- Transposed bytes are noticed exactly when their distance is no multiple of 65521
  (`Codec.TranspositionRejected`).
- The write side is not always shut with an empty output buffer: when `shutdown` is called in another
  thread and the peer closes before `shutdownInLoop` comes to run, the socket is shut with bytes still
  buffered. `Connections.ShutWithBytesLeft` is such a run, `Connections.GracefulClose` says exactly
  when it happens: a `shutdownInLoop` that is due meets a connection already closed with bytes buffered.
  No byte reaches the wire after the shutdown in any case (`Connections.ShutIsFinal`).
- `shutdown` and `forceClose` test the state and set it without a lock. A close that comes between puts a
  connection back from disconnected to disconnecting (`Connections.LateSetReopens`). States only move on
  exactly when no call sets the state of a disconnected connection (`Connections.StatesMoveOnIffOnTime`),
  and that also decides whether the connection ends disconnected, as its destructor asserts
  (`Connections.StaysClosedIffOnTime`), whether a shut connection takes on more bytes
  (`Connections.ShutTakesOnIffReopened`), and whether the server's erase always finds its entry
  (`Servers.SafeIffSetOnTime`; `Servers.LateSetInServer` is a run in which it does not).
- With the poller calls made, the destructor of a channel fails in the loop's own thread for every channel:
  `network/src/Channel.cc:24` wants it removed, and the `removeChannel` that line 27 then makes asserts
  that it is not. Its assertions hold exactly for a removed channel, between events, in
  another thread (`Pollers.Channel.Destruct`, `Connections.TcpConnection.Destruct`, `Pollers.RemovableIffRegistered`). The
  assertions `Servers` covers are those of connectEstablished, the erase, handleClose and the destructor
  of TcpConnection, not that of its channel.
- `getsum1` is right for every range inside a node exactly when no inner node holds a tag
  (`SegmentTree.DirectQueryExactIffUntagged`).
- No wakeup is lost exactly when none is already lost as `loop()` starts
  (`EventLoops.WakeupsSafeIffSafeAtStart`); a queue filled by the loop's own thread before `loop()`
  waits for the poll timeout (`EventLoops.QueuedBeforeLoopIsStranded`).
- The function that `forceClose` queues never closes, because `forceClose` has already left the states it
  acts in (`Connections.ForceCloseNeverCloses`).

## Where the model reads the code otherwise than it is written

- `rpto_rpc/rpc_framework/Rpc.Codec.cc:84` takes the success branch when the tag differs. The comment on
  the other branch shows that equality is meant, and the model takes equality. The other reading is
  `Codec.ParseFrameAsWritten`: the two agree exactly on frames with a bad checksum
  (`Codec.AsWrittenAgreesIffCorrupt`), and as written the parser refuses every frame of its own codec
  (`Codec.AsWrittenRejectsOwnFrames`).
- `network/src/EventLoop.cc:94`, `:160` and `:173` have the poller calls commented out; the model makes them.
- `network/include/network/EventLoop.h:39-43` aborts when the caller is the loop's thread; read as when it is not.
- `network/include/network/Channel.h:13-18` defines its own event bits, which `network/src/Poller.cc:168`
  hands to epoll; the model has abstract read and write interest.
- The `Buffer` constructor is only declared (`network/include/network/Buffer.h:32`); both indices start at 8,
  where `retrieveAll` sets them.
- Frame lengths 4 to 7 leave no room for the tag and the checksum; the model rejects them.
- `callingPendingFunctors_` is not initialised in `network/src/EventLoop.cc:47-54`; it starts false.
- `network/src/EventLoop.cc:199-212` and the socket calls are atomic actions, and so are the test and the
  setting of the state in `network/src/TcpConnection.cc:141-142` and `:161-162`, each for itself.

What a socket answers to a write is arbitrary, except that it takes no more than it is given and answers
EPIPE once its write side is shut. With the write side shut it is still asked by `sendInLoop` on a
disconnecting connection, and, after a late call, by `handleWrite`.

The model follows the code where its names say otherwise: the 64-bit conversions of
`network/include/network/Endian.h:12` and `:17` are little-endian, although named after the network order
(`Bytes.IntByteOrder`).

## Model

| member | source | states |
|---|---|---|
| SegmentTree.RootFits | 数据结构/线段树/tiredtree.cc:7-11 | 4n slots hold every node index that a recursion over n elements from root 1 can reach |
| SegmentTree.Tree.Build | 数据结构/线段树/tiredtree.cc:14-27 | over untagged slots the tree stands for a[s..t], its sums are consistent, and only slots under p change |
| SegmentTree.Tree.PushDown | 数据结构/线段树/tiredtree.cc:57-65 | moving a tag down changes no element, and never happens at a leaf |
| SegmentTree.Tree.Update | 数据结构/线段树/tiredtree.cc:48-73 | for ranges that meet, exactly the elements of [l, r] within [s, t] grow by c, sums stay consistent, all indices are in bounds |
| SegmentTree.Tree.GetSum2 | 数据结构/线段树/tiredtree.cc:77-104 | returns the sum of the elements of [l, r] within [s, t] and changes no element |
| SegmentTree.Tree.GetSum1 | 数据结构/线段树/tiredtree.cc:30-42 | adds up node sums as found, looking at no tag |
| SegmentTree.DirectQueryExactIffUntagged | 数据结构/线段树/tiredtree.cc:29-42 | the query without tags answers all ranges of a node correctly iff no inner node below holds a tag |
| SegmentTree.TaggedElements | 数据结构/线段树/tiredtree.cc:50-53 | raising a node's sum by length times c and its tag by c adds c to every element below and keeps all sums right |
| SegmentTree.PushedElements | 数据结构/线段树/tiredtree.cc:57-65 | giving a node's tag to both children leaves the elements as they were |
| SegmentTree.Tree.Replay | 数据结构/线段树/tiredtree.cc:14-104 | after build over a zeroed b, any sequence of updates and queries answers as a plain array does |
| Bytes.IntRoundTrip | network/include/network/Endian.h:10-17 | a signed integer of any width comes back from its bytes |
| Bytes.BytesRoundTrip | network/include/network/Endian.h:10-17 | every byte string of the width is the encoding of exactly the integer read from it |
| Bytes.IntByteOrder | network/include/network/Endian.h:10-17 | most significant byte first at 8, 16 and 32 bits, least significant first at 64 |
| Bytes.UnsignedIsModulo | network/include/network/Endian.h:10-17 | a negative value is stored as its value modulo 256 to the number of its bytes |
| Bytes.ReadBackAll | network/include/network/Buffer.h:121-180 | integers of mixed widths read back in order with their signed values, leaving what follows them |
| Buffers.Buffer.constructor | network/include/network/Buffer.h:32 | an empty buffer with both indices at 8 |
| Buffers.Buffer.Retrieve | network/include/network/Buffer.h:51-59 | drops a prefix of the readable bytes |
| Buffers.Buffer.RetrieveAll | network/include/network/Buffer.h:69-72 | leaves nothing readable and both indices at 8 |
| Buffers.Buffer.RetrieveAsString | network/include/network/Buffer.h:80-85 | returns a prefix of the readable bytes and drops it |
| Buffers.Buffer.HasWritten | network/include/network/Buffer.h:90-93 | publishes the bytes stored behind the write index |
| Buffers.Buffer.UnWrite | network/include/network/Buffer.h:95-98 | drops a suffix of the readable bytes |
| Buffers.Buffer.EnsureWriteableBytes | network/include/network/Buffer.h:101-107 | makes the room asked for and keeps the readable bytes |
| Buffers.Buffer.MakeSpace | network/include/network/Buffer.h:212-223 | both branches keep the readable bytes and make room; the assertion on the reader index holds, also after prepending |
| Buffers.Buffer.MoveDown | network/include/network/Buffer.h:216-221 | the overlapping in-place copy keeps the readable bytes, now at offset 8 |
| Buffers.Buffer.Append | network/include/network/Buffer.h:113-117 | the readable bytes grow by exactly the data |
| Buffers.Buffer.AppendInt | network/include/network/Buffer.h:121-135 | appends the bytes of one integer |
| Buffers.Buffer.PeekInt | network/include/network/Buffer.h:158-180 | returns the integer at the front and changes nothing |
| Buffers.Buffer.ReadInt | network/include/network/Buffer.h:137-156 | returns the integer at the front and drops its bytes |
| Buffers.Buffer.Prepend | network/include/network/Buffer.h:198-203 | puts the data in front of the readable bytes |
| Buffers.Buffer.PrependInt | network/include/network/Buffer.h:182-196 | puts the bytes of one integer in front |
| Buffers.Buffer.ReadFd | network/src/Buffer.cc:15-42 | appends exactly the n bytes read, through the overflow area if need be; nothing on failure |
| Buffers.Buffer.AppendThenReadAll | network/include/network/Buffer.h:121-180 | any integers appended to an empty buffer are read back the same and leave it empty, whatever moves or growth happen |
| Wire.VarintRoundTrip | rpto_rpc/proto/rpc.pb.cc:275-284 | a varint is read back with its exact size, whatever follows |
| Wire.VarintGroups | rpto_rpc/proto/rpc.pb.cc:366-376 | byte i of a varint carries bits 7i to 7i+6, the top bit marks all but the last |
| Wire.VarintEnds | rpto_rpc/proto/rpc.pb.cc:274-284 | for any bytes, reading ends at the first byte without a top bit, if there is one among the first max |
| Wire.VarintValue | rpto_rpc/proto/rpc.pb.cc:274-284 | the groups of what is read, canonical or overlong, are the low seven bits of the bytes, least significant first |
| Wire.VarintSizeExact | rpto_rpc/proto/rpc.pb.cc:433-476 | the size read off a 64-bit value is the number of bytes its varint takes |
| Wire.Utf8IffScalars | rpto_rpc/proto/rpc.pb.cc:295-305 | the validity check accepts exactly the encodings of sequences of Unicode scalar values |
| RpcMessages.PatternRoundTrip | rpto_rpc/proto/rpc.pb.cc:274-284 | ids and open enums come back signed; negative ones take ten-byte varints |
| RpcMessages.ParseMerges | rpto_rpc/proto/rpc.pb.cc:266-423 | parsing a printed message, then any bytes, into a message is merging it and parsing on; a name that is not UTF-8 fails the parse |
| RpcMessages.ParseUndoesPrint | rpto_rpc/proto/rpc.pb.cc:266-423 | parse undoes print iff both names are valid UTF-8, else it fails |
| RpcMessages.ParseInTwo | rpto_rpc/proto/rpc.pb.cc:266-357 | for all bytes that parse, printed or not: parsing them into a message and then more bytes is parsing the concatenation |
| RpcMessages.ParseConcatMerges | rpto_rpc/proto/rpc.pb.cc:488-518 | parsing two printed messages in a row yields exactly the merge of the second into the first |
| RpcMessages.PrintIsInjective | rpto_rpc/proto/rpc.pb.cc:359-423 | messages with UTF-8 names that print the same are the same |
| RpcFields.ParseIsEffects | rpto_rpc/proto/rpc.pb.cc:266-357 | for all bytes and messages: parsing is reading numbered fields, then for 1 to 7 of the right wire type setting type, id, service, method, request, response, error in turn, UTF-8 demanded of 3 and 4 |
| RpcFields.PrintedFields | rpto_rpc/proto/rpc.pb.cc:359-423 | printing gives exactly the set members as fields 1 to 7, in order, with their values |
| RpcFields.SkipExact | rpto_rpc/proto/rpc.pb.cc:346-351 | a field of any wire type, before any bytes, is skipped exactly iff its groups nest no deeper than allowed |
| RpcFields.GroupExact | rpto_rpc/proto/rpc.pb.cc:346-351 | a group is skipped exactly up to the end tag of its number; another end tag fails |
| RpcFields.UnknownPassedOver | rpto_rpc/proto/rpc.pb.cc:341-351 | any field without a case is passed over and changes nothing, iff its groups nest at most a hundred deep, else parsing fails |
| RpcMessages.RpcMessage.Clear | rpto_rpc/proto/rpc.pb.cc:250-264 | the empty message |
| RpcMessages.RpcMessage.InternalParse | rpto_rpc/proto/rpc.pb.cc:266-357 | succeeds exactly when the bytes are fields the parser takes, and leaves what they make of the old message |
| RpcMessages.RpcMessage.InternalSerialize | rpto_rpc/proto/rpc.pb.cc:359-423 | writes the printed message at the target, moves past it, touches no other byte |
| RpcMessages.RpcMessage.ByteSizeLong | rpto_rpc/proto/rpc.pb.cc:425-479 | exactly the number of bytes the printer emits |
| RpcMessages.RpcMessage.MergeFrom | rpto_rpc/proto/rpc.pb.cc:488-518 | set fields of the source replace those of the target, the others stay |
| Adler32.SumsReduce | rpto_rpc/rpc_framework/Rpc.Codec.cc:149-153 | the running sums are the byte sum plus one and the sum of its partial sums, modulo 65521 |
| Adler32.ClosedForm | rpto_rpc/rpc_framework/Rpc.Codec.cc:149-153 | the sums without reduction: one plus all bytes, and each byte times its distance from the end plus their number |
| Adler32.AdlerValue | rpto_rpc/rpc_framework/Rpc.Codec.cc:149-153 | the low half is the first of these modulo 65521, the high half the second |
| Adler32.ChangeByte | rpto_rpc/rpc_framework/Rpc.Codec.cc:149-153 | how one changed byte moves both sums |
| Adler32.ProductNotMultiple | rpto_rpc/rpc_framework/Rpc.Codec.cc:149-153 | 65521 being prime, a factor below 256 makes no multiple of it out of a non-multiple |
| Adler32.ByteChangeDetected | rpto_rpc/rpc_framework/Rpc.Codec.cc:149-153 | any change of one byte changes the checksum |
| Adler32.SwapDetected | rpto_rpc/rpc_framework/Rpc.Codec.cc:149-153 | transposing unequal bytes keeps the checksum iff 65521 divides their distance |
| Codec.ChecksumAccepts | rpto_rpc/rpc_framework/Rpc.Codec.cc:155-159 | a trailer is accepted behind other bytes iff the checksums are equal |
| Codec.ByteChangeRejected | rpto_rpc/rpc_framework/Rpc.Codec.cc:155-159 | a frame body passes the check, and fails it once any one protected byte is changed |
| Codec.TrailerChangeRejected | rpto_rpc/rpc_framework/Rpc.Codec.cc:155-159 | a frame body fails the check once any one byte of its checksum is changed |
| Codec.TranspositionRejected | rpto_rpc/rpc_framework/Rpc.Codec.cc:155-159 | two transposed unequal protected bytes pass the check iff 65521 divides their distance |
| Codec.AsWrittenAgreesIffCorrupt | rpto_rpc/rpc_framework/Rpc.Codec.cc:80-100 | the tag test as written and as meant give the same outcome iff the checksum fails |
| Codec.AsWrittenRejectsOwnFrames | rpto_rpc/rpc_framework/Rpc.Codec.cc:84-95 | with the test as written every frame of the codec is an unknown message type |
| Codec.BodyParses | rpto_rpc/rpc_framework/Rpc.Codec.cc:80-100 | the body of a message's frame parses to the message iff its names are UTF-8 |
| Codec.FrameDecodes | rpto_rpc/rpc_framework/Rpc.Codec.cc:31-71 | a frame at the front is taken as its message iff the message is deliverable, else the loop stops there |
| Codec.FrameLayout | rpto_rpc/rpc_framework/Rpc.Codec.cc:31-44 | the frame of every message: the number of bytes behind this number, RPC0, the payload, the high and low half of the checksum, each most significant byte first |
| Codec.TakesExactlyFramed | rpto_rpc/rpc_framework/Rpc.Codec.cc:51-100 | for all bytes: the loop takes n bytes as a message iff they are laid out so, at most 64 MiB behind the header, and the payload parses to it |
| Codec.ParseCodes | rpto_rpc/rpc_framework/Rpc.Codec.cc:80-100 | which error code goes with which fault, checksum before tag before payload |
| Codec.DecodeInTwo | rpto_rpc/rpc_framework/Rpc.Codec.cc:51-71 | chunking independence: the loop after x and again after y does what it does once after x and y, for good and corrupt bytes |
| Codec.DecodeSettles | rpto_rpc/rpc_framework/Rpc.Codec.cc:51-71 | on what the loop left, the loop does nothing more |
| Codec.FeedIsDecode | rpto_rpc/rpc_framework/Rpc.Codec.cc:51-71 | feeding any pieces of a stream one by one is decoding the whole |
| Codec.FramesDecode | rpto_rpc/rpc_framework/Rpc.Codec.cc:20-71 | consecutive frames decode to their messages in order, and decoding goes on behind them |
| Codec.PrefixDelivers | rpto_rpc/rpc_framework/Rpc.Codec.cc:51-71 | from any prefix of the frames come the messages of all complete frames and a prefix of the messages; from all of it, all |
| Codec.CorruptFrameStopsLoop | rpto_rpc/rpc_framework/Rpc.Codec.cc:51-71 | with any one byte behind the length header of a frame changed, exactly the messages before it are handed out and the loop stays at it, whatever follows |
| Codec.ProtoRpcCodec.SerializeToBuffer | rpto_rpc/rpc_framework/Rpc.Codec.cc:117-140 | appends exactly the printed message, returns its size, leaves room for the checksum |
| Codec.ProtoRpcCodec.FillEmptyMessage | rpto_rpc/rpc_framework/Rpc.Codec.cc:31-44 | an empty buffer ends up holding exactly the frame, laid out as above; the length assertion holds |
| Codec.ProtoRpcCodec.Parse | rpto_rpc/rpc_framework/Rpc.Codec.cc:80-100 | the message or the error code of the bytes behind a length header |
| Codec.ProtoRpcCodec.OnMessage | rpto_rpc/rpc_framework/Rpc.Codec.cc:51-71 | hands out exactly the decoded messages, in order, leaves the decoder's rest, and terminates |
| Pollers.Channel.SetInterest | network/include/network/Channel.h:47-68 | sets the interest and leaves poller, table and kernel set in agreement |
| Pollers.Channel.Remove | network/src/Channel.cc:36-40 | takes a channel off table and kernel set; an assertion on the way fails iff it is not in the table or wants events |
| Pollers.Channel.Destruct | network/src/Channel.cc:21-29 | the assertions hold iff the channel is removed, no event is being handled, and the caller is not in the loop's thread |
| Pollers.Channel.HandleEvent | network/src/Channel.cc:43-72 | calls exactly the handlers of what was reported, in order, and marks the time it takes |
| Pollers.DispatchCalls | network/src/Channel.cc:43-72 | each handler runs exactly for what concerns it |
| Pollers.DispatchOrder | network/src/Channel.cc:43-72 | close, read, error, write, each at most once |
| Pollers.ClosesAndReads | network/src/Channel.cc:43-72 | one event both closes and reads iff the peer hung up with only urgent data or an end to read |
| Pollers.Channel.RemoveThenDestroy | network/src/Channel.cc:21-40 | a channel rightly removed, then destroyed in its loop's thread, runs into an assertion |
| Pollers.Poller.UpdateChannel | network/src/Poller.cc:102-137 | after any change of interest, table, kernel set, indices and recorded interest agree; every assertion holds |
| Pollers.Poller.RemoveChannel | network/src/Poller.cc:142-160 | removes exactly this channel and makes it new, or changes nothing where an assertion fails |
| Pollers.RemovableIffRegistered | network/src/Poller.cc:145-150 | the assertions of removeChannel hold iff the channel is in the table with no interest left |
| Pollers.Poller.EpollCtl | network/src/Poller.cc:165-181 | called only to add what is absent, or to change or delete what is present |
| Pollers.Poller.FillActiveChannels | network/src/Poller.cc:79-96 | hands out the channels of the reported events in order; each lookup finds its channel |
| Pollers.ReportedIffInEvents | network/src/Poller.cc:79-96 | what a channel is told was reported is exactly what the events report of it |
| Pollers.Agreement | network/src/Poller.cc:102-160 | with distinct descriptors: in the table iff not KNew, in the kernel set iff KAdded, and there with the channel's interest |
| Connections.TcpConnection.constructor | network/src/TcpConnection.cc:33-49 | a connecting connection with nothing buffered |
| Connections.TcpConnection.ConnectEstablished | network/src/TcpConnection.cc:235-241 | connected and reading, its channel registered |
| Connections.TcpConnection.Send | network/src/TcpConnection.cc:70-76 | in its own loop, a connected connection is handed the bytes and the buffer is emptied; otherwise nothing happens |
| Connections.TcpConnection.SendInLoop | network/src/TcpConnection.cc:90-135 | the whole new state after a message and the socket's answer to it, also when it comes after connectDestroyed |
| Connections.TcpConnection.HandleWrite | network/src/TcpConnection.cc:278-302 | the whole new state after a write event: exactly the bytes the socket took go from the buffer to the wire |
| Connections.TcpConnection.Shutdown | network/src/TcpConnection.cc:140-145 | only a connected connection starts to disconnect; shutdownInLoop is posted, or run at once in the loop's thread |
| Connections.TcpConnection.RunShutdownTask | network/src/TcpConnection.cc:143 | a posted shutdownInLoop is run once |
| Connections.TcpConnection.ForceClose | network/src/TcpConnection.cc:160-165 | a connecting or connected connection starts to disconnect; forceCloseInLoop is posted |
| Connections.TcpConnection.ForceCloseInLoop | network/src/TcpConnection.cc:170-175 | closes a connection that is still connected; an assertion fails iff it is connecting |
| Connections.TcpConnection.RunForceCloseTask | network/src/TcpConnection.cc:163 | a posted forceCloseInLoop is run once and reports no close |
| Connections.TcpConnection.ShutdownInLoop | network/src/TcpConnection.cc:150-155 | shuts the write side unless write interest is on |
| Connections.TcpConnection.HandleClose | network/src/TcpConnection.cc:307-317 | disconnected, without interest, reported once; nothing changes where the assertion on the state fails |
| Connections.TcpConnection.ConnectDestroyed | network/src/TcpConnection.cc:246-255 | table and kernel set forget the channel; an assertion on the way fails iff the connection is not connected, and wants events or is already off |
| Connections.TcpConnection.Destruct | network/src/TcpConnection.cc:51-54 | the assertions hold iff the connection is disconnected, its channel removed and not handling an event, and the caller not in the loop's thread |
| Connections.TcpConnection.HandleRead | network/src/TcpConnection.cc:260-273 | in any state bytes read reach the codec behind what it had left, and an error changes nothing; an end closes, or fails an assertion where there is nothing to close |
| Connections.RunKeepsInv | network/src/TcpConnection.cc:90-135 | over every run, bytes on the wire then bytes buffered are the bytes accepted; until disconnect write interest is on iff bytes are buffered |
| Connections.AcceptedInOrder | network/src/TcpConnection.cc:90-135 | the accepted bytes are the messages not let go, in the order of the calls |
| Connections.WireGrowsByAnswer | network/src/TcpConnection.cc:90-135 | in every step the wire grows by exactly what the socket, if asked, says it took |
| Connections.AnsweredAreOnTheWire | network/src/TcpConnection.cc:90-135 | in every run the wire holds as many of the accepted bytes, from the first on, as the answers add up to, and the rest is buffered |
| Connections.SendAcceptedIff | network/src/TcpConnection.cc:90-117 | a message is taken on whole, unless disconnected or EPIPE or ECONNRESET is answered at once; then nothing changes |
| Connections.SendWantsWriting | network/src/TcpConnection.cc:120-134 | a message asks for write events iff the socket does not take all of it, or they are asked for already |
| Connections.StateTable | network/src/TcpConnection.cc:140-317 | which events change the state and the read interest, and to what |
| Connections.TasksBalance | network/src/TcpConnection.cc:140-165 | over every run each state set by a call has its task, due or run |
| Connections.CallCounts | network/src/TcpConnection.cc:140-165 | a call is on its way from a test that finds a state it acts in to its setting of the state |
| Connections.CompletionIffAllWritten | network/src/TcpConnection.cc:102-109 | at every moment of every run write-complete is queued by exactly the writes that leave nothing buffered, when everything accepted is on the wire |
| Connections.ShutIsFinal | network/src/TcpConnection.cc:140-155 | once the write side is shut no run puts a byte on the wire or reports a completion, and none is accepted or buffered, unless a connection closed with bytes buffered is set back late |
| Connections.ShutTakesOnIffReopened | network/src/TcpConnection.cc:90-135 | with the write side shut, bytes are accepted iff they are sent on a disconnecting connection that has bytes buffered |
| Connections.GracefulClose | network/src/TcpConnection.cc:140-155 | in every run, the moment of shutting leaves bytes buffered iff a due shutdownInLoop meets a close that left bytes; otherwise all that is ever accepted is on the wire; the wire is final |
| Connections.ShutdownNotForgotten | network/src/TcpConnection.cc:278-302 | in every run, after shutdown() and its task and before a close, the write side is shut iff nothing is buffered |
| Connections.ShutsWhenDrained | network/src/TcpConnection.cc:150-155 | a step shuts the write side with bytes buffered iff it is a shutdownInLoop after a close that left bytes; otherwise all accepted bytes are on the wire |
| Connections.ShutWithBytesLeft | network/src/TcpConnection.cc:140-155 | a run in which that happens |
| Connections.ClosingShutsIffDrained | network/src/TcpConnection.cc:285-294 | a disconnecting connection is shut by shutdownInLoop or a write iff nothing is left buffered, or it was closed and set back late |
| Connections.StatesMoveOnIffOnTime | network/src/TcpConnection.cc:140-317 | over a run a connection never goes back to an earlier state iff no call sets the state of a disconnected connection |
| Connections.StaysClosedIffOnTime | network/src/TcpConnection.cc:51-54 | a closed connection that is not closed again ends disconnected, as the destructor asserts, iff no call sets the state late |
| Connections.LateSetReopens | network/src/TcpConnection.cc:140-145 | a run in which shutdown() puts a closed connection back to disconnecting |
| Connections.ForceCloseNeverCloses | network/src/TcpConnection.cc:160-175 | in every run, whatever state forceClose was called in, forceCloseInLoop changes nothing |
| EventLoops.WakeupsSafeIffSafeAtStart | network/src/EventLoop.cc:83-144 | in every interleaving a loop blocked with work queued has a readable eventfd or a producer that still owes its write, iff this holds as loop() starts |
| EventLoops.QueuedBeforeLoopIsStranded | network/src/EventLoop.cc:136-144 | a start at which it does not hold |
| EventLoops.TasksRunInOrder | network/src/EventLoop.cc:136-231 | from every start and in every interleaving, functors run, then the rest of the batch, then the queue are those before and all pushes in order |
| EventLoops.AwakeLoopRunsAllQueued | network/src/EventLoop.cc:83-231 | whatever was queued while the loop was awake has run whenever it polls again |
| EventLoops.EventfdCounts | network/src/EventLoop.cc:193-212 | in every run the eventfd counts the writes since it was last read, and the threads that owe one are the pushes not yet followed by one |
| EventLoops.ReadableIsRead | network/src/EventLoop.cc:83-108 | an eventfd that is readable when poll returns, and no other, is read before the loop turns to its tasks |
| EventLoops.SelfPushOwes | network/src/EventLoop.cc:136-144 | a push in the loop's own thread writes the eventfd exactly while tasks are being run |
| Servers.StepIsSafe | network/src/TcpServer.cc:69-107 | in a good state the assertions of connectEstablished, the erase and the destructor of TcpConnection hold along every possible action; the next state is good unless a call sets it late |
| Servers.AcceptDoes | network/src/TcpServer.cc:69-87 | a new connection gets its number and loop, and its connectEstablished is posted there, or run at once in the accepting loop |
| Servers.RunTaskDoes | network/src/TcpServer.cc:99-107 | a loop runs the oldest task of its queue; an erased connection's connectDestroyed is posted to its own loop |
| Servers.CloseDoes | network/src/TcpServer.cc:92-107 | a close posts the erase to the accepting loop, or runs it at once there |
| Servers.CallsDo | network/src/TcpConnection.cc:140-145 | the test counts a call on a connected connection, the setting leaves it disconnecting |
| Servers.RunInTheirLoops | network/src/TcpConnection.cc:235-255 | over every run, connections are established, closed and destroyed in their own loop and erased in loop 0 |
| Servers.LifecycleSafe | network/src/TcpServer.cc:69-107 | over every interleaving of any number of loops and of calls on time: no assertion of connectEstablished (its loop included), the erase, connectDestroyed and the destructor of TcpConnection fails; the erase finds its one entry, each connection is established, closed, erased, destroyed at most once each and in that order |
| Servers.SafeIffSetOnTime | network/src/TcpConnection.cc:140-145 | after any such run, a call that sets the state leaves the server safe iff that state is not disconnected; iff it is, some interleaving goes well up to an erase that misses its entry |
| Servers.LateSetInServer | network/src/TcpServer.cc:99-107 | a run with a call that comes late, after which a close makes the erase miss its entry |
| Servers.QuietMeansDone | network/src/TcpServer.cc:92-107 | once all queues are empty every connection was established, and exactly the closed ones are erased and destroyed, with calls on time |
| EndToEnd.WireIsPrefix | network/src/TcpConnection.cc:90-135 | at every moment of every run the wire holds a prefix of the frames sent, all of them once nothing is buffered |
| EndToEnd.SentIsDelivered | rpto_rpc/rpc_framework/Rpc.Codec.cc:20-100 | for every schedule of partial writes and every cutting of the reads, the messages handed out are a prefix of those sent, hold all whose frames arrived, and are all of them at the end |
| EndToEnd.SendMessage | rpto_rpc/rpc_framework/Rpc.Codec.cc:20-24 | sending a message hands the connection exactly its frame |

## Left out

- EventLoop and TcpServer as classes: several threads share them, so they are transition systems on values; aliasing and the lock itself are not captured.
- Socket, SocketOps, Inet_address, Acceptor and utill: system calls and address text. Descriptors are opaque integers; what a read or write answers is a parameter.
- Connector and TcpClient: the backoff code is commented out and a retry never leaves its state.
- RpcChannel: its response and request handlers are declared but not defined.
- EventLoopThread and EventLoopThreadPool: the loop chosen for a new connection is arbitrary.
- Channels in a loop's handleEvent: what the handlers called do to the connection is modelled handler by handler, not as one event; the loop's assertion about the channel being handled is not modelled.
- Protobuf arenas, reflection, cached sizes and the storage of unknown fields: unknown fields are skipped and not printed again.
- Messages of 2 GiB and more: the runtime refuses to print them.
- TcpServer's destructor, quit-before-loop races, reading stopped and started again, and access through getOutputBuffer.
- send() called in another thread: it posts a copy of the bytes to sendInLoop, whose calls may come in any order here.
- High-water marks, and connection and completion callbacks beyond counting them.
- Overflow of C++ integers in the segment tree sums and in connection numbers: both are unbounded.
- Truncation of connection names: a name is its number.
- Logging, build files, demos and notes.
