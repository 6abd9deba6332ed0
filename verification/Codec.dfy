/**
  The RPC framing: a 32-bit length, the tag "RPC0", a printed RpcMessage and its Adler-32 checksum;
  and the decoder loop over a byte stream that may be cut anywhere.
 */
module Codec {
  import opened Bytes
  import opened Wire
  import opened RpcMessages
  import opened Adler32
  import opened Buffers

  const HEADER_LEN: nat := 4
  const CHECKSUM_LEN: nat := 4
  const MAX_MESSAGE_LEN: nat := 64 * 1024 * 1024
  const MIN_MESSAGE_LEN: nat := 4

  /** "RPC0" */
  const TAG: seq<Byte> := [0x52, 0x50, 0x43, 0x30]

  datatype ErrorCode = NoError | InvalidLength | ChecksumError | InvalidNameLen | UnknownMessageType | ParseError

  // ---- Checksums -----------------------------------------------------------------------------------

  function AsInt32(bs: seq<Byte>): Int32
    requires |bs| == 4
  {
    DecodeInt(bs, W32)
  }

  /** Adler-32, cast to a signed integer. */
  function Checksum(bs: seq<Byte>): Int32 {
    ToSigned(Adler(bs), W32)
  }

  /** The last four bytes are the checksum of the others. */
  predicate ValidChecksum(bs: seq<Byte>)
    requires |bs| >= CHECKSUM_LEN
  {
    AsInt32(bs[|bs| - CHECKSUM_LEN..]) == Checksum(bs[..|bs| - CHECKSUM_LEN])
  }

  function Protect(bs: seq<Byte>): seq<Byte> {
    bs + EncodeInt(Checksum(bs), W32)
  }

  /** A trailer is accepted behind other bytes than its own exactly when their sums collide. */
  lemma ChecksumAccepts(bs: seq<Byte>, other: seq<Byte>)
    ensures ValidChecksum(other + EncodeInt(Checksum(bs), W32)) <==> Adler(other) == Adler(bs)
  {
    hide Adler;
    var trailer := EncodeInt(Checksum(bs), W32);
    assert (other + trailer)[|other|..] == trailer && (other + trailer)[..|other|] == other;
    IntRoundTrip(Checksum(bs), W32);
  }

  /** Changing any one protected byte of a frame body makes the check fail. */
  lemma ByteChangeRejected(bs: seq<Byte>, i: nat, y: Byte)
    requires i < |bs| && y != bs[i]
    ensures ValidChecksum(Protect(bs))
    ensures !ValidChecksum(Protect(bs)[i := y])
  {
    hide ValidChecksum, Checksum, Adler;
    ChecksumAccepts(bs, bs);
    ByteChangeDetected(bs, i, y);
    ChecksumAccepts(bs, bs[i := y]);
    assert Protect(bs)[i := y] == bs[i := y] + EncodeInt(Checksum(bs), W32);
  }

  /** So does changing any one byte of the checksum itself. */
  lemma TrailerChangeRejected(bs: seq<Byte>, i: nat, y: Byte)
    requires i < CHECKSUM_LEN && y != Protect(bs)[|bs| + i]
    ensures !ValidChecksum(Protect(bs)[|bs| + i := y])
  {
    hide Adler, EncodeInt, DecodeInt;
    var trailer := EncodeInt(Checksum(bs), W32);
    var other := trailer[i := y];
    assert Protect(bs)[|bs| + i := y] == bs + other;
    assert (bs + other)[|bs|..] == other && (bs + other)[..|bs|] == bs;
    BytesRoundTrip(other, W32);
    assert other[i] != trailer[i];
  }

  /** Transposing two unequal protected bytes slips through only at a multiple of 65521 apart. */
  lemma TranspositionRejected(bs: seq<Byte>, i: nat, j: nat)
    requires i < j < |bs| && bs[i] != bs[j]
    ensures ValidChecksum(Swapped(Protect(bs), i, j)) <==> (j - i) % MODULUS == 0
  {
    hide ValidChecksum, Checksum, Adler;
    SwapDetected(bs, i, j);
    ChecksumAccepts(bs, Swapped(bs, i, j));
    assert Swapped(Protect(bs), i, j) == Swapped(bs, i, j) + EncodeInt(Checksum(bs), W32);
  }

  // ---- One frame -----------------------------------------------------------------------------------

  datatype Outcome = Accepted(msg: Msg) | Rejected(code: ErrorCode)

  function ParsePayload(bs: seq<Byte>): Outcome
    requires |bs| >= CHECKSUM_LEN
  {
    if |bs| < CHECKSUM_LEN + |TAG| then Rejected(ParseError)
    else match Parse(bs[|TAG|..|bs| - CHECKSUM_LEN])
      case Some(m) => Accepted(m)
      case None => Rejected(ParseError)
  }

  /** What the bytes after a length header mean, the tag test read as equality. */
  function ParseFrame(bs: seq<Byte>): Outcome
    requires |bs| >= CHECKSUM_LEN
  {
    if !ValidChecksum(bs) then Rejected(ChecksumError)
    else if bs[..|TAG|] == TAG then ParsePayload(bs)
    else Rejected(UnknownMessageType)
  }

  /** The same with the tag test as it is written, which takes the success branch on a difference. */
  function ParseFrameAsWritten(bs: seq<Byte>): Outcome
    requires |bs| >= CHECKSUM_LEN
  {
    if !ValidChecksum(bs) then Rejected(ChecksumError)
    else if bs[..|TAG|] != TAG then ParsePayload(bs)
    else Rejected(UnknownMessageType)
  }

  /** The two readings agree exactly on the frames whose checksum fails. */
  lemma AsWrittenAgreesIffCorrupt(bs: seq<Byte>)
    requires |bs| >= CHECKSUM_LEN
    ensures ParseFrameAsWritten(bs) == ParseFrame(bs) <==> !ValidChecksum(bs)
  {
  }

  function Body(m: Msg): (bs: seq<Byte>)
    ensures |bs| == |Encode(m)| + 8
  {
    Protect(TAG + Encode(m))
  }

  /** The frame of a message; its length must be an int. */
  function Frame(m: Msg): (bs: seq<Byte>)
    requires |Encode(m)| + 8 <= INT_MAX
    ensures |bs| == |Encode(m)| + 12
  {
    EncodeInt(|Body(m)|, W32) + Body(m)
  }

  /** As written, the parser refuses every frame this codec itself produces. */
  lemma AsWrittenRejectsOwnFrames(m: Msg)
    ensures ParseFrameAsWritten(Body(m)) == Rejected(UnknownMessageType)
  {
    hide Adler, ValidChecksum;
    ChecksumAccepts(TAG + Encode(m), TAG + Encode(m));
    assert Body(m)[..4] == TAG;
  }

  lemma BodyParses(m: Msg)
    requires Printable(m)
    ensures ParseFrame(Body(m)) == if Utf8Names(m) then Accepted(m) else Rejected(ParseError)
  {
    hide Adler, ValidChecksum;
    ChecksumAccepts(TAG + Encode(m), TAG + Encode(m));
    assert Body(m)[..4] == TAG;
    assert Body(m)[4..|Body(m)| - 4] == Encode(m);
    ParseUndoesPrint(m);
  }

  // ---- The decoder ---------------------------------------------------------------------------------

  /** One turn of the loop: the message at the front and its size, None where the loop stops. */
  function Step(bs: seq<Byte>): (r: Option<Taken<Msg>>)
    ensures r.Some? ==> HEADER_LEN + CHECKSUM_LEN <= r.value.size <= |bs|
  {
    if |bs| < CHECKSUM_LEN + HEADER_LEN then None
    else
      var len := AsInt32(bs[..HEADER_LEN]);
      if len > MAX_MESSAGE_LEN || len < MIN_MESSAGE_LEN then None
      else if |bs| < HEADER_LEN + len then None
      else match ParseFrame(bs[HEADER_LEN..HEADER_LEN + len])
        case Accepted(m) => Some(Taken(m, HEADER_LEN + len))
        case Rejected(_) => None
  }

  datatype Decoded = Decoded(msgs: seq<Msg>, rest: seq<Byte>)

  /** All messages the loop hands out, and the bytes it leaves. */
  function Decode(bs: seq<Byte>): Decoded
    decreases |bs|
  {
    match Step(bs)
    case None => Decoded([], bs)
    case Some(Taken(m, n)) => var d := Decode(bs[n..]); Decoded([m] + d.msgs, d.rest)
  }

  /** Running the loop on each chunk as it arrives, behind what the last run left. */
  function Feed(rest: seq<Byte>, chunks: seq<seq<Byte>>): Decoded
    decreases |chunks|
  {
    if chunks == [] then Decoded([], rest)
    else
      var first := Decode(rest + chunks[0]);
      var more := Feed(first.rest, chunks[1..]);
      Decoded(first.msgs + more.msgs, more.rest)
  }

  function Concat(chunks: seq<seq<Byte>>): seq<Byte> {
    if chunks == [] then [] else chunks[0] + Concat(chunks[1..])
  }

  /** More bytes behind a complete frame change nothing about it. */
  lemma StepPrefix(x: seq<Byte>, y: seq<Byte>)
    requires Step(x).Some?
    ensures Step(x + y) == Step(x) && (x + y)[Step(x).value.size..] == x[Step(x).value.size..] + y
  {
    hide ParseFrame, DecodeInt;
    var len := AsInt32(x[..HEADER_LEN]);
    assert (x + y)[..HEADER_LEN] == x[..HEADER_LEN];
    assert (x + y)[HEADER_LEN..HEADER_LEN + len] == x[HEADER_LEN..HEADER_LEN + len];
  }

  /** Chunking independence, for good and corrupt bytes alike. */
  lemma {:induction false} DecodeInTwo(x: seq<Byte>, y: seq<Byte>)
    ensures var first := Decode(x);
            var second := Decode(first.rest + y);
            Decode(x + y) == Decoded(first.msgs + second.msgs, second.rest)
    decreases |x|
  {
    hide Step;
    match Step(x)
    case None =>
    case Some(Taken(m, n)) =>
      StepPrefix(x, y);
      DecodeInTwo(x[n..], y);
      var rest := Decode(x[n..]);
      var second := Decode(rest.rest + y);
      assert [m] + (rest.msgs + second.msgs) == ([m] + rest.msgs) + second.msgs;
  }

  /** What a run leaves stays: running again without new bytes does nothing. */
  lemma {:induction false} DecodeSettles(x: seq<Byte>)
    ensures Decode(Decode(x).rest) == Decoded([], Decode(x).rest)
    decreases |x|
  {
    hide Step;
    match Step(x)
    case None =>
    case Some(Taken(_, n)) => DecodeSettles(x[n..]);
  }

  /** However a stream is cut, feeding the pieces is decoding the whole. */
  lemma {:induction false} FeedIsDecode(rest: seq<Byte>, chunks: seq<seq<Byte>>)
    requires Decode(rest) == Decoded([], rest)
    ensures Feed(rest, chunks) == Decode(rest + Concat(chunks))
    decreases |chunks|
  {
    hide Decode;
    if chunks == [] {
      assert rest + Concat(chunks) == rest;
    } else {
      var first := Decode(rest + chunks[0]);
      DecodeSettles(rest + chunks[0]);
      FeedIsDecode(first.rest, chunks[1..]);
      assert rest + Concat(chunks) == (rest + chunks[0]) + Concat(chunks[1..]);
      DecodeInTwo(rest + chunks[0], Concat(chunks[1..]));
    }
  }

  // ---- Frames in a stream --------------------------------------------------------------------------

  /** What the receiver needs of a message: UTF-8 names and a frame within its limit. */
  predicate Deliverable(m: Msg) {
    Utf8Names(m) && |Encode(m)| + 8 <= MAX_MESSAGE_LEN
  }

  /** A frame is decoded to its message exactly when the message is deliverable; else the loop sticks. */
  lemma FrameDecodes(m: Msg, rest: seq<Byte>)
    requires |Encode(m)| + 8 <= INT_MAX
    ensures Step(Frame(m) + rest) == if Deliverable(m) then Some(Taken(m, |Frame(m)|)) else None
    ensures (Frame(m) + rest)[|Frame(m)|..] == rest
  {
    hide ParseFrame, EncodeInt, DecodeInt, Encode;
    var bs, len := Frame(m) + rest, |Body(m)|;
    assert bs == EncodeInt(len, W32) + (Body(m) + rest);
    assert bs[..4] == EncodeInt(len, W32);
    assert bs[4..4 + len] == Body(m);
    IntRoundTrip(len, W32);
    BodyParses(m);
  }

  ghost predicate AllDeliverable(ms: seq<Msg>) {
    forall i :: 0 <= i < |ms| ==> Deliverable(ms[i])
  }

  function Frames(ms: seq<Msg>): seq<Byte>
    requires forall i :: 0 <= i < |ms| ==> |Encode(ms[i])| + 8 <= INT_MAX
  {
    if ms == [] then [] else Frame(ms[0]) + Frames(ms[1..])
  }

  lemma {:induction false} FramesDecode(ms: seq<Msg>, rest: seq<Byte>)
    requires AllDeliverable(ms)
    ensures Decode(Frames(ms) + rest) == Decoded(ms + Decode(rest).msgs, Decode(rest).rest)
    decreases |ms|
  {
    hide Decode, Frame, Encode;
    if ms == [] {
      assert Frames(ms) + rest == rest;
    } else {
      var tail := Frames(ms[1..]) + rest;
      assert Frames(ms) + rest == Frame(ms[0]) + tail;
      OneFrameDecodes(ms[0], tail);
      FramesDecode(ms[1..], rest);
      var d := Decode(rest);
      assert [ms[0]] + (ms[1..] + d.msgs) == ms + d.msgs;
    }
  }

  lemma OneFrameDecodes(m: Msg, rest: seq<Byte>)
    requires Deliverable(m)
    ensures var d := Decode(rest); Decode(Frame(m) + rest) == Decoded([m] + d.msgs, d.rest)
  {
    hide Frame, Step, Encode;
    FrameDecodes(m, rest);
  }

  lemma {:induction false} FramesSplit(ms: seq<Msg>, k: nat)
    requires AllDeliverable(ms) && k <= |ms|
    ensures Frames(ms) == Frames(ms[..k]) + Frames(ms[k..])
    decreases k
  {
    hide Frame, Encode;
    if k == 0 {
      assert ms[..k] == [] && ms[k..] == ms;
    } else {
      FramesSplit(ms[1..], k - 1);
      assert ms[..k][1..] == ms[1..][..k - 1] && ms[1..][k - 1..] == ms[k..];
      assert ms[..k][0] == ms[0];
    }
  }

  lemma AllFramesDecode(ms: seq<Msg>)
    requires AllDeliverable(ms)
    ensures Decode(Frames(ms)) == Decoded(ms, [])
  {
    hide Frames, Decode;
    assert Frames(ms) + [] == Frames(ms);
    FramesDecode(ms, []);
    DecodeNothing();
  }

  lemma DecodeNothing()
    ensures Decode([]) == Decoded([], [])
  {
  }

  lemma WholeFramesDeliver(ms: seq<Msg>, arrived: seq<Byte>, k: nat)
    requires AllDeliverable(ms) && arrived <= Frames(ms)
    requires k <= |ms| && |Frames(ms[..k])| <= |arrived|
    ensures |Decode(arrived).msgs| >= k
  {
    hide Frames, Decode, Encode;
    FramesSplit(ms, k);
    var partial := arrived[|Frames(ms[..k])|..];
    assert arrived == Frames(ms[..k]) + partial;
    FramesDecode(ms[..k], partial);
  }

  /**
    After any prefix of the stream of frames, what was delivered is a prefix of what was framed,
    it holds every message whose frame has wholly arrived, and it is everything at the end.
   */
  lemma PrefixDelivers(ms: seq<Msg>, arrived: seq<Byte>, k: nat)
    requires AllDeliverable(ms) && arrived <= Frames(ms)
    requires k <= |ms| && |Frames(ms[..k])| <= |arrived|
    ensures k <= |Decode(arrived).msgs| && Decode(arrived).msgs <= ms
    ensures arrived == Frames(ms) ==> Decode(arrived) == Decoded(ms, [])
  {
    hide Frames, Decode, Encode;
    WholeFramesDeliver(ms, arrived, k);
    AllFramesDecode(ms);
    var later := Frames(ms)[|arrived|..];
    assert Frames(ms) == arrived + later;
    DecodeInTwo(arrived, later);
  }

  // ---- The layout of a frame -----------------------------------------------------------------------

  /** Four bytes as a number, the most significant first. */
  function Word(bs: seq<Byte>): nat
    requires |bs| == 4
  {
    var (b0: nat, b1: nat, b2: nat, b3: nat) := (bs[0], bs[1], bs[2], bs[3]);
    0x100_0000 * b0 + 0x1_0000 * b1 + 0x100 * b2 + b3
  }

  lemma WordIsInt(bs: seq<Byte>)
    requires |bs| == 4
    ensures Word(bs) < 0x1_0000_0000
    ensures DecodeInt(bs, W32) == if Word(bs) < 0x8000_0000 then Word(bs) else Word(bs) - 0x1_0000_0000
  {
    var b1, b2, b3 := bs[..3], bs[..2], bs[..1];
    assert b1[..2] == b2 && b2[..1] == b3 && b3[..0] == [];
    assert FromBigEndian(b3) == bs[0] && FromBigEndian(b2) == 0x100 * bs[0] as int + bs[1];
    assert FromBigEndian(b1) == 0x1_0000 * bs[0] as int + 0x100 * bs[1] as int + bs[2];
  }

  lemma WordOfInt(x: Int32)
    ensures Word(EncodeInt(x, W32)) == if x < 0 then x + 0x1_0000_0000 else x
  {
    hide DecodeInt, EncodeInt;
    IntRoundTrip(x, W32);
    WordIsInt(EncodeInt(x, W32));
  }

  lemma ChecksumIsWord(bs: seq<Byte>)
    requires |bs| >= 4
    ensures ValidChecksum(bs) <==> Word(bs[|bs| - 4..]) == Adler(bs[..|bs| - 4])
  {
    hide Adler, DecodeInt;
    WordIsInt(bs[|bs| - 4..]);
  }

  /**
    A frame: the number of bytes behind this number, "RPC0", the payload, and over these two the checksum,
    its high and its low half; numbers have their most significant byte first.
   */
  predicate Framed(bs: seq<Byte>, payload: seq<Byte>) {
    && |bs| == |payload| + 12
    && Word(bs[..4]) == |bs| - 4
    && bs[4..8] == [0x52, 0x50, 0x43, 0x30]
    && bs[8..|bs| - 4] == payload
    && var covered := bs[4..|bs| - 4];
    && Word(bs[|bs| - 4..]) / 0x1_0000 == (|covered| + Ranked(covered)) % 65521
    && Word(bs[|bs| - 4..]) % 0x1_0000 == (1 + Total(covered)) % 65521
  }

  lemma AdlerIsHalves(bs: seq<Byte>, word: nat)
    ensures word == Adler(bs) <==>
            word / 0x1_0000 == (|bs| + Ranked(bs)) % 65521 && word % 0x1_0000 == (1 + Total(bs)) % 65521
  {
    hide Adler;
    AdlerValue(bs);
  }

  /** The frame of every message is laid out so. */
  lemma FrameLayout(m: Msg)
    requires |Encode(m)| + 8 <= INT_MAX
    ensures Framed(Frame(m), Encode(m))
  {
    hide Encode, EncodeInt, DecodeInt, Adler, Total, Ranked, Word;
    var body, covered, bs := Body(m), TAG + Encode(m), Frame(m);
    assert bs[..4] == EncodeInt(|body|, W32) && bs[4..] == body;
    WordOfInt(|body|);
    assert body == covered + EncodeInt(Checksum(covered), W32);
    assert bs[4..|bs| - 4] == covered && bs[|bs| - 4..] == EncodeInt(Checksum(covered), W32);
    WordOfInt(Checksum(covered));
    AdlerIsHalves(covered, Word(bs[|bs| - 4..]));
    assert bs[4..8] == TAG && bs[8..|bs| - 4] == Encode(m);
  }

  /**
    For all bytes: the loop takes n bytes and a message exactly if those are a frame of at most 64 MiB behind
    its header, whose payload parses to the message.
   */
  lemma TakesExactlyFramed(bs: seq<Byte>, m: Msg, n: nat)
    ensures Step(bs) == Some(Taken(m, n)) <==>
            && 12 <= n <= |bs| && n - 4 <= 64 * 1024 * 1024
            && Framed(bs[..n], bs[8..n - 4]) && Parse(bs[8..n - 4]) == Some(m)
  {
    hide ParseFrame, DecodeInt, Framed;
    if 12 <= n <= |bs| {
      var frame, body := bs[..n], bs[4..n];
      BodyIsFramed(frame, m);
      assert frame[4..] == body && frame[8..n - 4] == bs[8..n - 4] && frame[..4] == bs[..4];
      WordIsInt(bs[..4]);
      FramedHeader(frame, bs[8..n - 4]);
    } else if Step(bs) == Some(Taken(m, n)) {
      ShortBodyRejected(bs[4..n]);
    }
  }

  lemma FramedHeader(bs: seq<Byte>, payload: seq<Byte>)
    ensures Framed(bs, payload) ==> |bs| >= 12 && Word(bs[..4]) == |bs| - 4
  {
  }

  lemma ShortBodyRejected(body: seq<Byte>)
    requires 4 <= |body| < 8
    ensures ParseFrame(body).Rejected?
  {
    hide ValidChecksum;
  }

  lemma BodyIsFramed(bs: seq<Byte>, m: Msg)
    requires |bs| >= 12
    ensures ParseFrame(bs[4..]) == Accepted(m) && Word(bs[..4]) == |bs| - 4 <==>
            Framed(bs, bs[8..|bs| - 4]) && Parse(bs[8..|bs| - 4]) == Some(m)
  {
    hide ValidChecksum, Adler, Total, Ranked, Word, Parse;
    var body := bs[4..];
    assert body[..|body| - 4] == bs[4..|bs| - 4] && body[|body| - 4..] == bs[|bs| - 4..];
    assert body[..4] == bs[4..8] && body[4..|body| - 4] == bs[8..|bs| - 4];
    ChecksumIsWord(body);
    AdlerIsHalves(bs[4..|bs| - 4], Word(bs[|bs| - 4..]));
  }

  /** The error codes: a bad checksum goes before a wrong tag, and that before a payload that does not parse. */
  lemma ParseCodes(bs: seq<Byte>)
    requires |bs| >= 4
    ensures var sum := Word(bs[|bs| - 4..]);
            && (ParseFrame(bs) == Rejected(ChecksumError) <==> sum != Adler(bs[..|bs| - 4]))
            && (ParseFrame(bs) == Rejected(UnknownMessageType) <==>
                  sum == Adler(bs[..|bs| - 4]) && bs[..4] != [0x52, 0x50, 0x43, 0x30])
            && (ParseFrame(bs) == Rejected(ParseError) <==>
                  && sum == Adler(bs[..|bs| - 4]) && bs[..4] == [0x52, 0x50, 0x43, 0x30]
                  && (|bs| < 8 || Parse(bs[4..|bs| - 4]) == None))
  {
    hide ValidChecksum, Adler, Word, Parse;
    ChecksumIsWord(bs);
  }

  // ---- Corrupt frames ------------------------------------------------------------------------------

  /** The frame of a message with one byte behind its length header changed. */
  function Damaged(m: Msg, i: nat, y: Byte): (bs: seq<Byte>)
    requires |Encode(m)| + 8 <= INT_MAX && i < |Body(m)|
  {
    EncodeInt(|Body(m)|, W32) + Body(m)[i := y]
  }

  lemma DamagedBodyRejected(m: Msg, i: nat, y: Byte)
    requires i < |Body(m)| && y != Body(m)[i]
    ensures ParseFrame(Body(m)[i := y]) == Rejected(ChecksumError)
  {
    hide ValidChecksum, Encode, Checksum, EncodeInt;
    var bs := TAG + Encode(m);
    if i < |bs| {
      ByteChangeRejected(bs, i, y);
    } else {
      TrailerChangeRejected(bs, i - |bs|, y);
    }
  }

  lemma DamagedFrameStops(m: Msg, i: nat, y: Byte, rest: seq<Byte>)
    requires |Encode(m)| + 8 <= INT_MAX && i < |Body(m)| && y != Body(m)[i]
    ensures Step(Damaged(m, i, y) + rest) == None
  {
    hide ParseFrame, EncodeInt, DecodeInt, Encode, Body;
    var body := Body(m)[i := y];
    var bs, len := Damaged(m, i, y) + rest, |body|;
    assert bs == EncodeInt(len, W32) + (body + rest);
    assert bs[..4] == EncodeInt(len, W32);
    IntRoundTrip(len, W32);
    assert bs[4..4 + len] == body;
    DamagedBodyRejected(m, i, y);
  }

  /**
    Whatever one byte behind its length header is changed in a frame: exactly the messages before
    that frame are handed out, and the loop stays at it, whatever follows.
   */
  lemma CorruptFrameStopsLoop(ms: seq<Msg>, m: Msg, i: nat, y: Byte, rest: seq<Byte>)
    requires AllDeliverable(ms) && |Encode(m)| + 8 <= INT_MAX && i < |Body(m)| && y != Body(m)[i]
    ensures var bad := Damaged(m, i, y) + rest;
            Decode(Frames(ms) + bad) == Decoded(ms, bad)
  {
    hide Frames, Encode, Step, Body, Damaged;
    var bad := Damaged(m, i, y) + rest;
    FramesDecode(ms, bad);
    DamagedFrameStops(m, i, y, rest);
    assert Decode(bad) == Decoded([], bad);
    assert ms + [] == ms;
  }

  // ---- The codec object ----------------------------------------------------------------------------

  class ProtoRpcCodec {
    /** What the message callback was handed, in order. */
    var delivered: seq<Msg>

    constructor ()
      ensures delivered == []
    {
      delivered := [];
    }

    /** Prints a message behind the readable bytes, with room left for its checksum. */
    method SerializeToBuffer(message: RpcMessage, buf: Buffer) returns (size: nat)
      requires buf.Valid() && Printable(message.Value())
      modifies buf, buf.buffer
      ensures buf.Valid() && (buf.buffer == old(buf.buffer) || fresh(buf.buffer))
      ensures buf.Readable() == old(buf.Readable()) + Encode(message.Value())
      ensures size == |Encode(message.Value())| && CHECKSUM_LEN <= buf.WriteableBytes()
      ensures buf.readerIndex == old(buf.readerIndex) || buf.readerIndex == CHEAP_PREPEND_SIZE
    {
      hide Encode;
      size := message.ByteSizeLong();
      buf.EnsureWriteableBytes(size + CHECKSUM_LEN);
      PrintBehind(message, buf, size);
    }

    /** Prints a message where there is room for it, and publishes its bytes. */
    method PrintBehind(message: RpcMessage, buf: Buffer, size: nat)
      requires buf.Valid() && size == |Encode(message.Value())| <= buf.WriteableBytes()
      modifies buf`writeIndex, buf.buffer
      ensures buf.Valid() && buf.Readable() == old(buf.Readable()) + Encode(message.Value())
      ensures buf.writeIndex == old(buf.writeIndex) + size
    {
      hide Encode;
      ghost var was := buf.buffer[..];
      var end := message.InternalSerialize(buf.buffer, buf.writeIndex);
      SameSlice(was, buf.buffer[..], buf.readerIndex, buf.writeIndex);
      assert buf.buffer[..][buf.readerIndex..buf.writeIndex] == buf.Readable();
      assert was[buf.readerIndex..buf.writeIndex] == old(buf.Readable());
      buf.HasWritten(size);
    }

    /** Fills an empty buffer with the frame of a message. */
    method FillEmptyMessage(buf: Buffer, message: RpcMessage)
      requires buf.Valid() && buf.Readable() == [] && HEADER_LEN <= buf.PrependableBytes()
      requires |Encode(message.Value())| + 8 <= INT_MAX
      modifies buf, buf.buffer
      ensures buf.Valid() && (buf.buffer == old(buf.buffer) || fresh(buf.buffer))
      ensures buf.Readable() == Frame(message.Value()) && Framed(buf.Readable(), Encode(message.Value()))
    {
      hide Encode, EncodeInt, Framed;
      FrameLayout(message.Value());
      buf.Append(TAG);
      var size := SerializeToBuffer(message, buf);
      assert buf.Readable() == TAG + Encode(message.Value());
      var sum := Checksum(buf.buffer[buf.readerIndex..buf.writeIndex]);
      buf.AppendInt(sum, W32);
      assert buf.ReadableBytes() == |TAG| + size + CHECKSUM_LEN;
      buf.PrependInt(buf.ReadableBytes(), W32);
    }

    /** What a rejected frame leaves in the message is not specified. */
    method Parse(bs: seq<Byte>, message: RpcMessage) returns (code: ErrorCode)
      requires |bs| >= CHECKSUM_LEN
      modifies message
      ensures ParseFrame(bs) == if code == NoError then Accepted(message.Value()) else Rejected(code)
    {
      code := NoError;
      if ValidChecksum(bs) {
        if bs[..|TAG|] == TAG {
          if |bs| < CHECKSUM_LEN + |TAG| {
            return ParseError;
          }
          var ok := message.ParseFromArray(bs[|TAG|..|bs| - CHECKSUM_LEN]);
          if !ok {
            code := ParseError;
          }
        } else {
          code := UnknownMessageType;
        }
      } else {
        code := ChecksumError;
      }
    }

    /** The decoder loop: hands out every complete good frame at the front of the buffer. */
    method OnMessage(buffer: Buffer)
      requires buffer.Valid()
      modifies this, buffer
      ensures buffer.Valid() && buffer.buffer == old(buffer.buffer)
      ensures buffer.Readable() == Decode(old(buffer.Readable())).rest
      ensures delivered == old(delivered) + Decode(old(buffer.Readable())).msgs
    {
      hide Step;
      ghost var before := Decode(buffer.Readable());
      var taken := true;
      while taken
        invariant buffer.Valid() && buffer.buffer == old(buffer.buffer)
        invariant before.rest == Decode(buffer.Readable()).rest
        invariant old(delivered) + before.msgs == delivered + Decode(buffer.Readable()).msgs
        invariant !taken ==> Step(buffer.Readable()) == None
        decreases taken, buffer.ReadableBytes()
      {
        taken := TakeFrame(buffer);
      }
    }

    /** One turn of the loop, false where it breaks. */
    method TakeFrame(buffer: Buffer) returns (taken: bool)
      requires buffer.Valid()
      modifies this, buffer
      ensures buffer.Valid() && buffer.buffer == old(buffer.buffer)
      ensures taken == Step(old(buffer.Readable())).Some?
      ensures !taken ==> buffer.Readable() == old(buffer.Readable()) && delivered == old(delivered)
      ensures taken ==>
                var Taken(m, n) := Step(old(buffer.Readable())).value;
                buffer.Readable() == old(buffer.Readable())[n..] && delivered == old(delivered) + [m]
    {
      hide ParseFrame, DecodeInt;
      if buffer.ReadableBytes() < CHECKSUM_LEN + HEADER_LEN {
        return false;
      }
      ghost var bs := buffer.Readable();
      var len := buffer.PeekInt(W32);
      if len > MAX_MESSAGE_LEN || len < MIN_MESSAGE_LEN || buffer.ReadableBytes() < HEADER_LEN + len {
        return false;
      }
      var message := new RpcMessage();
      var start := buffer.readerIndex + HEADER_LEN;
      SliceOfSlice(buffer.buffer[..], buffer.readerIndex, buffer.writeIndex, HEADER_LEN, HEADER_LEN + len);
      assert buffer.buffer[start..start + len] == bs[HEADER_LEN..HEADER_LEN + len];
      var code := Parse(buffer.buffer[start..start + len], message);
      if code != NoError {
        return false;
      }
      delivered := delivered + [message.Value()];
      buffer.Retrieve(HEADER_LEN + len);
      taken := true;
    }
  }
}
