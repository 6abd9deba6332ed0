/**
  The layout of messages, apart from the code that prints and parses them: a generic reader of
  numbered fields, and for each number of rpc.proto the member it carries. Fields of other numbers or
  wire types are skipped, groups nested up to a limit.
 */
module RpcFields {
  import opened Bytes
  import opened Wire
  import opened RpcMessages

  // ---- Numbered fields -----------------------------------------------------------------------------

  /** What follows a tag, by wire type. */
  datatype Content =
    | Varint(v: nat)             // 0
    | Fixed64(bs: seq<Byte>)     // 1
    | Delimited(s: seq<Byte>)    // 2
    | Group                      // 3, up to its end tag
    | Fixed32(bs: seq<Byte>)     // 5

  datatype Field = Field(number: nat, content: Content)

  /** The field at the front, whatever message it is of. */
  function ReadNumbered(bs: seq<Byte>): (r: Option<Taken<Field>>)
    ensures r.Some? ==> 1 <= r.value.size <= |bs|
  {
    match ReadTag(bs)
    case None => None
    case Some(Taken(tag, n)) =>
      var rest := bs[n..];
      var number := tag / 8;
      if number == 0 then None
      else match tag % 8
        case 0 =>
          (match ReadVarint64(rest)
           case None => None
           case Some(Taken(v, k)) => Some(Taken(Field(number, Varint(v)), n + k)))
        case 1 => if |rest| < 8 then None else Some(Taken(Field(number, Fixed64(rest[..8])), n + 8))
        case 2 =>
          (match ReadPayload(rest)
           case None => None
           case Some(Taken(s, k)) => Some(Taken(Field(number, Delimited(s)), n + k)))
        case 3 =>
          (match SkipField(tag, rest, 100)
           case None => None
           case Some(k) => Some(Taken(Field(number, Group), n + k)))
        case 5 => if |rest| < 4 then None else Some(Taken(Field(number, Fixed32(rest[..4])), n + 4))
        case _ => None
  }

  function ReadFields(bs: seq<Byte>): Option<seq<Field>>
    decreases |bs|
  {
    if bs == [] then Some([])
    else match ReadNumbered(bs)
      case None => None
      case Some(Taken(f, n)) => Join([f], ReadFields(bs[n..]))
  }

  function Join(fields: seq<Field>, more: Option<seq<Field>>): Option<seq<Field>> {
    match more
    case None => None
    case Some(fs) => Some(fields + fs)
  }

  // ---- rpc.proto -----------------------------------------------------------------------------------

  /** A varint as a 64-bit, or from its low half as a 32-bit, two's complement value. */
  function Signed64(v: nat): Int64 {
    var low := v % 0x1_0000_0000_0000_0000;
    if low < 0x8000_0000_0000_0000 then low else low - 0x1_0000_0000_0000_0000
  }

  function Signed32(v: nat): Int32 {
    var low := v % 0x1_0000_0000;
    if low < 0x8000_0000 then low else low - 0x1_0000_0000
  }

  /** What one field does to a message: type 1, id 2, service 3, method 4, request 5, response 6, error 7. */
  function Effect(m: Msg, f: Field): Option<Msg> {
    match f
    case Field(1, Varint(v)) => Some(m.(typ := Signed32(v)))
    case Field(2, Varint(v)) => Some(m.(id := Signed64(v)))
    case Field(3, Delimited(s)) => if ValidUtf8(s) then Some(m.(service := s)) else None
    case Field(4, Delimited(s)) => if ValidUtf8(s) then Some(m.(method_ := s)) else None
    case Field(5, Delimited(s)) => Some(m.(request := s))
    case Field(6, Delimited(s)) => Some(m.(response := s))
    case Field(7, Varint(v)) => Some(m.(error := Signed32(v)))
    case _ => Some(m)
  }

  function Effects(m: Msg, fields: seq<Field>): Option<Msg>
    decreases |fields|
  {
    if fields == [] then Some(m)
    else match Effect(m, fields[0])
      case None => None
      case Some(m') => Effects(m', fields[1..])
  }

  /** The fields that are set, by number. */
  function SetFields(m: Msg): seq<Field> {
    IfSet(1, m.typ) + IfSet(2, m.id) + IfPresent(3, m.service) + IfPresent(4, m.method_)
    + IfPresent(5, m.request) + IfPresent(6, m.response) + IfSet(7, m.error)
  }

  function IfSet(number: nat, x: Int64): seq<Field> {
    if x == 0 then [] else [Field(number, Varint(x % 0x1_0000_0000_0000_0000))]
  }

  function IfPresent(number: nat, s: seq<Byte>): seq<Field> {
    if s == [] then [] else [Field(number, Delimited(s))]
  }

  // ---- The parser ----------------------------------------------------------------------------------

  lemma FieldHasEffect(bs: seq<Byte>, m: Msg)
    ensures ParseField(bs, m) ==
            match ReadNumbered(bs)
            case None => None
            case Some(Taken(f, n)) =>
              match Effect(m, f) case None => None case Some(m') => Some(Taken(m', n))
  {
    hide ReadTag, ReadVarint64, ReadPayload, SkipGroup, ValidUtf8;
    match ReadTag(bs)
    case None =>
    case Some(Taken(tag, n)) =>
      assert tag == 8 * (tag / 8) + tag % 8;
  }

  /** For all bytes and every message: parsing is reading numbered fields and taking their effects in turn. */
  lemma {:induction false} ParseIsEffects(bs: seq<Byte>, m: Msg)
    ensures ParseInto(bs, m) ==
            match ReadFields(bs) case None => None case Some(fields) => Effects(m, fields)
    decreases |bs|
  {
    hide ParseField, ReadNumbered, Effect;
    if bs == [] {
    } else {
      FieldHasEffect(bs, m);
      match ReadNumbered(bs)
      case None =>
      case Some(Taken(f, n)) =>
        match Effect(m, f)
        case None =>
        case Some(m') => ParseIsEffects(bs[n..], m');
    }
  }

  // ---- The printer ---------------------------------------------------------------------------------

  lemma OneRead(bs: seq<Byte>, f: Field, n: nat, rest: seq<Byte>)
    requires ReadNumbered(bs) == Some(Taken(f, n)) && bs[n..] == rest
    ensures ReadFields(bs) == Join([f], ReadFields(rest))
  {
    hide ReadNumbered;
  }

  lemma NoneRead(rest: seq<Byte>)
    ensures [] + rest == rest && ReadFields(rest) == Join([], ReadFields(rest))
  {
    hide ReadFields;
    if ReadFields(rest).Some? {
      assert [] + ReadFields(rest).value == ReadFields(rest).value;
    }
  }

  lemma {:induction false} IntPrinted(number: nat, x: Int64, rest: seq<Byte>)
    requires 1 <= number < 16
    ensures ReadFields(IntField(8 * number, x) + rest) == Join(IfSet(number, x), ReadFields(rest))
  {
    hide ReadFields, ReadTag, ReadVarint64, EncodeVarint, Pattern;
    if x == 0 {
      NoneRead(rest);
    } else {
      IntFieldRead(8 * number, x, rest);
      PatternIsModulo(x);
      var f := Field(number, Varint(x % 0x1_0000_0000_0000_0000));
      OneRead(IntField(8 * number, x) + rest, f, |IntField(8 * number, x)|, rest);
    }
  }

  lemma PatternIsModulo(x: Int64)
    ensures Pattern(x) == x % 0x1_0000_0000_0000_0000
  {
    UnsignedIsModulo(x, W64);
  }

  lemma {:induction false} BytesPrinted(number: nat, s: seq<Byte>, rest: seq<Byte>)
    requires 1 <= number < 15 && |s| <= INT_MAX
    ensures ReadFields(BytesField(8 * number + 2, s) + rest) == Join(IfPresent(number, s), ReadFields(rest))
  {
    hide ReadFields, ReadTag, ReadPayload, EncodeVarint;
    if s == [] {
      NoneRead(rest);
    } else {
      BytesFieldRead(8 * number + 2, s, rest);
      OneRead(BytesField(8 * number + 2, s) + rest, Field(number, Delimited(s)), |BytesField(8 * number + 2, s)|, rest);
    }
  }

  /** What is printed are exactly the fields that are set, in the order of their numbers. */
  lemma PrintedFields(m: Msg)
    requires Printable(m)
    ensures ReadFields(Encode(m)) == Some(SetFields(m))
  {
    hide ReadFields, IntField, BytesField, IfSet, IfPresent;
    FieldSizes(m);
    var f1, f2, f3, f4 := IfSet(1, m.typ), IfSet(2, m.id), IfPresent(3, m.service), IfPresent(4, m.method_);
    var f5, f6, f7 := IfPresent(5, m.request), IfPresent(6, m.response), IfSet(7, m.error);
    var r7 := IntField(8 * 7, m.error) + [];
    var r6 := BytesField(8 * 6 + 2, m.response) + r7;
    var r5 := BytesField(8 * 5 + 2, m.request) + r6;
    var r4 := BytesField(8 * 4 + 2, m.method_) + r5;
    var r3 := BytesField(8 * 3 + 2, m.service) + r4;
    var r2 := IntField(8 * 2, m.id) + r3;
    assert Encode(m) == IntField(8 * 1, m.typ) + r2;
    NothingRead();
    IntPrinted(7, m.error, []);
    BytesPrinted(6, m.response, r7);
    BytesPrinted(5, m.request, r6);
    BytesPrinted(4, m.method_, r5);
    BytesPrinted(3, m.service, r4);
    IntPrinted(2, m.id, r3);
    IntPrinted(1, m.typ, r2);
    assert f1 + (f2 + (f3 + (f4 + (f5 + (f6 + (f7 + [])))))) == SetFields(m);
  }

  lemma NothingRead()
    ensures ReadFields([]) == Some([])
  {
  }

  // ---- Fields nobody knows -------------------------------------------------------------------------

  /** Any field at all, a group with all that it holds. */
  datatype Unknown =
    | UVarint(number: nat, v: nat)
    | UFixed64(number: nat, bs: seq<Byte>)
    | UDelimited(number: nat, s: seq<Byte>)
    | UGroup(number: nat, held: Unknowns)
    | UFixed32(number: nat, bs: seq<Byte>)

  datatype Unknowns = Nil | Cons(first: Unknown, rest: Unknowns)

  predicate Sound(u: Unknown) {
    && 1 <= u.number < 0x2000_0000
    && match u
       case UVarint(_, v) => v < 0x1_0000_0000_0000_0000
       case UFixed64(_, bs) => |bs| == 8
       case UDelimited(_, s) => |s| <= INT_MAX
       case UGroup(_, held) => AllSound(held)
       case UFixed32(_, bs) => |bs| == 4
  }

  predicate AllSound(us: Unknowns) {
    us.Nil? || (Sound(us.first) && AllSound(us.rest))
  }

  function TagOf(u: Unknown): nat {
    8 * u.number +
    match u
    case UVarint(_, _) => 0
    case UFixed64(_, _) => 1
    case UDelimited(_, _) => 2
    case UGroup(_, _) => 3
    case UFixed32(_, _) => 5
  }

  /** The bytes behind the tag; those of a group end in the end tag of its number. */
  function Held(u: Unknown): seq<Byte>
    decreases u, 0
  {
    match u
    case UVarint(_, v) => EncodeVarint(v)
    case UFixed64(_, bs) => bs
    case UDelimited(_, s) => EncodeVarint(|s|) + s
    case UGroup(number, held) => PrintAll(held) + EncodeVarint(8 * number + 4)
    case UFixed32(_, bs) => bs
  }

  function Print(u: Unknown): seq<Byte>
    decreases u, 1
  {
    EncodeVarint(TagOf(u)) + Held(u)
  }

  function PrintAll(us: Unknowns): seq<Byte> {
    match us
    case Nil => []
    case Cons(u, rest) => Print(u) + PrintAll(rest)
  }

  /** How deep groups nest. */
  function Depth(u: Unknown): nat {
    if u.UGroup? then 1 + DepthAll(u.held) else 0
  }

  function DepthAll(us: Unknowns): nat {
    match us
    case Nil => 0
    case Cons(u, rest) => if Depth(u) > DepthAll(rest) then Depth(u) else DepthAll(rest)
  }

  lemma TagReads(tag: nat, rest: seq<Byte>)
    requires tag < 0x1_0000_0000
    ensures ReadTag(EncodeVarint(tag) + rest) == Some(Taken(tag, |EncodeVarint(tag)|))
    ensures (EncodeVarint(tag) + rest)[|EncodeVarint(tag)|..] == rest
  {
    hide EncodeVarint, ReadVarint;
    VarintSizeExact(tag);
    VarintRoundTrip(tag, rest, 5);
  }

  lemma VarintReads(v: nat, rest: seq<Byte>)
    requires v < 0x1_0000_0000_0000_0000
    ensures ReadVarint64(EncodeVarint(v) + rest) == Some(Taken(v, |EncodeVarint(v)|))
  {
    hide EncodeVarint, ReadVarint;
    VarintSizeExact(v);
    VarintRoundTrip(v, rest, 10);
  }

  lemma PayloadReads(s: seq<Byte>, rest: seq<Byte>)
    requires |s| <= INT_MAX
    ensures var bs := EncodeVarint(|s|) + s;
            ReadPayload(bs + rest) == Some(Taken(s, |bs|))
  {
    hide EncodeVarint, ReadVarint;
    var v := EncodeVarint(|s|);
    assert v + s + rest == v + (s + rest);
    VarintSizeExact(|s|);
    VarintRoundTrip(|s|, s + rest, 5);
    MiddlePart(v, s, rest);
  }

  /** A field of any wire type, before any rest, is skipped exactly, unless its groups nest too deep. */
  lemma {:induction false} SkipExact(u: Unknown, rest: seq<Byte>, depth: nat)
    requires Sound(u)
    ensures SkipField(TagOf(u), Held(u) + rest, depth) == if Depth(u) <= depth then Some(|Held(u)|) else None
    decreases u
  {
    hide ReadVarint64, ReadPayload, EncodeVarint, SkipGroup;
    assert TagOf(u) / 8 == u.number;
    match u
    case UVarint(_, v) => VarintReads(v, rest);
    case UDelimited(_, s) => PayloadReads(s, rest);
    case UGroup(number, held) =>
      if depth > 0 {
        GroupExact(number, held, number, rest, depth - 1);
      }
    case _ =>
  }

  /** A group is skipped exactly up to its end tag; one with the end tag of another number does not parse. */
  lemma {:induction false} GroupExact(number: nat, us: Unknowns, end: nat, rest: seq<Byte>, depth: nat)
    requires 1 <= number < 0x2000_0000 && AllSound(us) && end < 0x2000_0000
    ensures var bs := PrintAll(us) + EncodeVarint(8 * end + 4);
            SkipGroup(number, bs + rest, depth)
            == if DepthAll(us) <= depth && end == number then Some(|bs|) else None
    decreases us, 1
  {
    hide ReadTag, SkipField, EncodeVarint;
    match us
    case Nil =>
      var tag := EncodeVarint(8 * end + 4);
      assert PrintAll(us) + tag + rest == tag + rest;
      TagReads(8 * end + 4, rest);
    case Cons(_, _) => FieldOfGroupExact(number, us, end, rest, depth);
  }

  lemma {:induction false} FieldOfGroupExact(number: nat, us: Unknowns, end: nat, rest: seq<Byte>, depth: nat)
    requires 1 <= number < 0x2000_0000 && AllSound(us) && end < 0x2000_0000 && us.Cons?
    ensures var bs := PrintAll(us) + EncodeVarint(8 * end + 4);
            SkipGroup(number, bs + rest, depth)
            == if DepthAll(us) <= depth && end == number then Some(|bs|) else None
    decreases us, 0
  {
    hide ReadTag, SkipField, SkipGroup, EncodeVarint, Held;
    var Cons(u, more) := us;
    var last := EncodeVarint(8 * end + 4);
    var tag, tail := EncodeVarint(TagOf(u)), PrintAll(more) + last + rest;
    var bs := PrintAll(us) + last + rest;
    assert PrintAll(us) == (tag + Held(u)) + PrintAll(more);
    assert bs == tag + (Held(u) + tail);
    TagReads(TagOf(u), Held(u) + tail);
    SkipExact(u, tail, depth);
    if Depth(u) <= depth {
      GroupExact(number, more, end, rest, depth);
      assert bs[|tag| + |Held(u)|..] == tail;
      GroupUnfolds(number, bs, depth, TagOf(u), |tag|, |Held(u)|);
    } else {
      GroupStops(number, bs, depth, TagOf(u), |tag|);
    }
  }

  lemma {:induction false} GroupStops(number: nat, bs: seq<Byte>, depth: nat, tag: nat, n: nat)
    requires ReadTag(bs) == Some(Taken(tag, n)) && tag % 8 != 4 && SkipField(tag, bs[n..], depth) == None
    ensures SkipGroup(number, bs, depth) == None
  {
    hide ReadTag, SkipField;
  }

  /** The fields the parser has a case for. */
  predicate Known(u: Unknown) {
    (u.UVarint? && u.number in {1, 2, 7}) || (u.UDelimited? && 3 <= u.number <= 6)
  }

  lemma UnknownTag(u: Unknown)
    requires Sound(u) && !Known(u)
    ensures 0 < TagOf(u) < 0x1_0000_0000 && TagOf(u) % 8 != 4 && TagOf(u) !in {8, 16, 26, 34, 42, 50, 56}
  {
    assert TagOf(u) / 8 == u.number;
  }

  lemma {:induction false} UnusualField(bs: seq<Byte>, m: Msg, tag: nat, n: nat)
    requires ReadTag(bs) == Some(Taken(tag, n))
    requires tag > 0 && tag % 8 != 4 && tag !in {8, 16, 26, 34, 42, 50, 56}
    ensures ParseField(bs, m) ==
            match SkipField(tag, bs[n..], 100) case None => None case Some(k) => Some(Taken(m, n + k))
  {
    hide ReadTag, SkipField, ReadVarint64, ReadPayload, ValidUtf8;
  }

  lemma {:induction false} UnknownField(u: Unknown, rest: seq<Byte>, m: Msg)
    requires Sound(u) && !Known(u)
    ensures ParseField(Print(u) + rest, m) == if Depth(u) <= 100 then Some(Taken(m, |Print(u)|)) else None
  {
    hide ParseField, ReadTag, SkipField, EncodeVarint, Held, Depth, TagOf, Known, Sound;
    var tag := TagOf(u);
    assert Print(u) + rest == EncodeVarint(tag) + (Held(u) + rest);
    UnknownTag(u);
    TagReads(tag, Held(u) + rest);
    UnusualField(Print(u) + rest, m, tag, |EncodeVarint(tag)|);
    SkipExact(u, rest, 100);
  }

  /** Any other field is passed over, unless its groups nest more than a hundred deep: then parsing fails. */
  lemma {:induction false} UnknownPassedOver(u: Unknown, rest: seq<Byte>, m: Msg)
    requires Sound(u) && !Known(u)
    ensures ParseInto(Print(u) + rest, m) == if Depth(u) <= 100 then ParseInto(rest, m) else None
  {
    hide ParseField, Print, Depth;
    UnknownField(u, rest, m);
    PrintedSize(u);
    assert (Print(u) + rest)[|Print(u)|..] == rest;
  }

  lemma PrintedSize(u: Unknown)
    ensures |Print(u)| >= 1
  {
  }
}
