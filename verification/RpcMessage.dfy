/**
  The generated RpcMessage code: printing, sizing, parsing and merging of its seven fields. The
  class does the work in place; the functions on `Msg` values say what it computes.
 */
module RpcMessages {
  import opened Bytes
  import opened Wire

  /** Strings and byte fields are byte strings; enums are open, so any 32-bit value may occur. */
  datatype Msg = Msg(typ: Int32, id: Int64, service: seq<Byte>, method_: seq<Byte>,
                     request: seq<Byte>, response: seq<Byte>, error: Int32)

  const EMPTY: Msg := Msg(0, 0, [], [], [], [], 0)

  predicate Utf8Names(m: Msg) {
    ValidUtf8(m.service) && ValidUtf8(m.method_)
  }

  // ---- Printing --------------------------------------------------------------------------------

  const TYPE_TAG: Byte := 8
  const ID_TAG: Byte := 16
  const SERVICE_TAG: Byte := 26
  const METHOD_TAG: Byte := 34
  const REQUEST_TAG: Byte := 42
  const RESPONSE_TAG: Byte := 50
  const ERROR_TAG: Byte := 56

  /** The 64-bit two's complement pattern, as which ids and (sign-extended) enums are printed. */
  function Pattern(x: Int64): (u: nat)
    ensures u < 0x1_0000_0000_0000_0000 && (u == 0 <==> x == 0)
  {
    ToUnsigned(x, W64)
  }

  function IntField(tag: Byte, x: Int64): seq<Byte> {
    if x == 0 then [] else [tag] + EncodeVarint(Pattern(x))
  }

  function BytesField(tag: Byte, s: seq<Byte>): seq<Byte> {
    if s == [] then [] else [tag] + EncodeVarint(|s|) + s
  }

  function Encode(m: Msg): seq<Byte> {
    IntField(TYPE_TAG, m.typ) + IntField(ID_TAG, m.id) + BytesField(SERVICE_TAG, m.service)
    + BytesField(METHOD_TAG, m.method_) + BytesField(REQUEST_TAG, m.request)
    + BytesField(RESPONSE_TAG, m.response) + IntField(ERROR_TAG, m.error)
  }

  /** The size of a message in bytes must be an int: the runtime checks it before printing. */
  const INT_MAX: nat := 0x7FFF_FFFF

  ghost predicate Printable(m: Msg) {
    |Encode(m)| <= INT_MAX
  }

  // ---- Parsing ---------------------------------------------------------------------------------

  /** Enums keep the low 32 bits of their varint, as a signed value. */
  function EnumOf(v: nat): Int32 {
    ToSigned(v % 0x1_0000_0000, W32)
  }

  function IdOf(v: nat): Int64
    requires v < 0x1_0000_0000_0000_0000
  {
    ToSigned(v, W64)
  }

  /** Reads one field into m: what m becomes and the bytes it took; None where parsing fails. */
  function ParseField(bs: seq<Byte>, m: Msg): (r: Option<Taken<Msg>>)
    ensures r.Some? ==> 1 <= r.value.size <= |bs|
  {
    match ReadTag(bs)
    case None => None
    case Some(Taken(tag, n)) =>
      var rest := bs[n..];
      if tag == TYPE_TAG || tag == ID_TAG || tag == ERROR_TAG then
        match ReadVarint64(rest)
        case None => None
        case Some(Taken(v, k)) =>
          Some(Taken(if tag == TYPE_TAG then m.(typ := EnumOf(v))
                     else if tag == ID_TAG then m.(id := IdOf(v))
                     else m.(error := EnumOf(v)), n + k))
      else if tag == SERVICE_TAG || tag == METHOD_TAG || tag == REQUEST_TAG || tag == RESPONSE_TAG then
        match ReadPayload(rest)
        case None => None
        case Some(Taken(s, k)) =>
          if (tag == SERVICE_TAG || tag == METHOD_TAG) && !ValidUtf8(s) then None
          else
            Some(Taken(if tag == SERVICE_TAG then m.(service := s)
                       else if tag == METHOD_TAG then m.(method_ := s)
                       else if tag == REQUEST_TAG then m.(request := s)
                       else m.(response := s), n + k))
      else if tag == 0 || tag % 8 == 4 then None
      else
        match SkipField(tag, rest, RECURSION_LIMIT)
        case None => None
        case Some(k) => Some(Taken(m, n + k))
  }

  /** Reads all of bs into m, field by field. */
  function ParseInto(bs: seq<Byte>, m: Msg): (r: Option<Msg>)
    decreases |bs|
  {
    if bs == [] then Some(m)
    else match ParseField(bs, m)
      case None => None
      case Some(Taken(m', n)) => ParseInto(bs[n..], m')
  }

  function Parse(bs: seq<Byte>): Option<Msg> {
    ParseInto(bs, EMPTY)
  }

  // ---- Merging ---------------------------------------------------------------------------------

  function PickInt(to: Int64, from: Int64): Int64 {
    if from != 0 then from else to
  }

  function PickBytes(to: seq<Byte>, from: seq<Byte>): seq<Byte> {
    if |from| > 0 then from else to
  }

  /** Each field of `from` that is set replaces the one of `to`. */
  function Merge(to: Msg, from: Msg): Msg {
    Msg(PickInt(to.typ, from.typ),
        PickInt(to.id, from.id),
        PickBytes(to.service, from.service),
        PickBytes(to.method_, from.method_),
        PickBytes(to.request, from.request),
        PickBytes(to.response, from.response),
        PickInt(to.error, from.error))
  }

  // ---- Each printed field parses as itself -----------------------------------------------------

  lemma TagRead(tag: Byte, rest: seq<Byte>)
    requires tag < 128
    ensures ReadTag([tag] + rest) == Some(Taken(tag, 1)) && ([tag] + rest)[1..] == rest
  {
    assert ([tag] + rest)[0] == tag;
  }

  /** Ids and enums come back signed from their pattern; the negative ones print as ten bytes. */
  lemma PatternRoundTrip(x: Int64)
    ensures IdOf(Pattern(x)) == x
    ensures W32.Holds(x) ==> EnumOf(Pattern(x)) == x
    ensures x < 0 ==> |EncodeVarint(Pattern(x))| == 10
  {
    hide EncodeVarint, EnumOf;
    VarintSizeExact(Pattern(x));
    if W32.Holds(x) {
      EnumRoundTrip(x);
    }
  }

  lemma EnumRoundTrip(x: Int32)
    ensures EnumOf(Pattern(x)) == x
  {
    if x < 0 {
      LowWord(0xFFFF_FFFF, x + 0x1_0000_0000);
    }
  }

  lemma LowWord(high: nat, low: nat)
    requires low < 0x1_0000_0000
    ensures (0x1_0000_0000 * high + low) % 0x1_0000_0000 == low
  {
  }

  lemma IntFieldRead(tag: Byte, x: Int64, rest: seq<Byte>)
    requires x != 0 && tag < 128
    ensures var bs := IntField(tag, x) + rest;
            && ReadTag(bs) == Some(Taken(tag, 1))
            && ReadVarint64(bs[1..]) == Some(Taken(Pattern(x), |IntField(tag, x)| - 1))
            && bs[|IntField(tag, x)|..] == rest
  {
    hide Pattern, EncodeVarint, ReadVarint, ReadTag;
    var v := EncodeVarint(Pattern(x));
    assert IntField(tag, x) + rest == [tag] + (v + rest);
    TagRead(tag, v + rest);
    VarintSizeExact(Pattern(x));
    VarintRoundTrip(Pattern(x), rest, 10);
  }

  lemma MiddlePart(a: seq<Byte>, s: seq<Byte>, b: seq<Byte>)
    ensures (a + (s + b))[|a|..|a| + |s|] == s && (a + (s + b))[|a| + |s|..] == b
  {
  }

  lemma BytesFieldRead(tag: Byte, s: seq<Byte>, rest: seq<Byte>)
    requires s != [] && tag < 128 && |s| <= INT_MAX
    ensures var bs := BytesField(tag, s) + rest;
            && ReadTag(bs) == Some(Taken(tag, 1))
            && ReadPayload(bs[1..]) == Some(Taken(s, |BytesField(tag, s)| - 1))
            && bs[|BytesField(tag, s)|..] == rest
  {
    hide EncodeVarint, ReadVarint, ReadTag;
    var v := EncodeVarint(|s|);
    assert BytesField(tag, s) + rest == [tag] + (v + (s + rest));
    TagRead(tag, v + (s + rest));
    VarintSizeExact(|s|);
    VarintRoundTrip(|s|, s + rest, 5);
    MiddlePart(v, s, rest);
  }

  /** What a printed integer field does to the message it is parsed into. */
  ghost function SetInt(m: Msg, tag: Byte, x: Int64): Msg
    requires tag == ID_TAG || W32.Holds(x)
  {
    if x == 0 then m
    else if tag == TYPE_TAG then m.(typ := x)
    else if tag == ID_TAG then m.(id := x)
    else m.(error := x)
  }

  ghost function SetBytes(m: Msg, tag: Byte, s: seq<Byte>): Msg {
    if s == [] then m
    else if tag == SERVICE_TAG then m.(service := s)
    else if tag == METHOD_TAG then m.(method_ := s)
    else if tag == REQUEST_TAG then m.(request := s)
    else m.(response := s)
  }

  lemma IntFieldParses(m: Msg, tag: Byte, x: Int64, rest: seq<Byte>)
    requires tag == TYPE_TAG || tag == ID_TAG || tag == ERROR_TAG
    requires tag == ID_TAG || W32.Holds(x)
    ensures ParseInto(IntField(tag, x) + rest, m) == ParseInto(rest, SetInt(m, tag, x))
  {
    hide EncodeVarint, ReadVarint, ReadVarint64, ReadTag, EnumOf, IdOf;
    if x == 0 {
      assert IntField(tag, x) + rest == rest;
    } else {
      IntFieldRead(tag, x, rest);
      PatternRoundTrip(x);
    }
  }

  lemma BytesFieldParses(m: Msg, tag: Byte, s: seq<Byte>, rest: seq<Byte>)
    requires tag == SERVICE_TAG || tag == METHOD_TAG || tag == REQUEST_TAG || tag == RESPONSE_TAG
    requires |s| <= INT_MAX
    ensures ParseInto(BytesField(tag, s) + rest, m) ==
            if tag in {SERVICE_TAG, METHOD_TAG} && !ValidUtf8(s) then None
            else ParseInto(rest, SetBytes(m, tag, s))
  {
    hide EncodeVarint, ReadVarint, ReadPayload, ReadTag;
    if s == [] {
      assert BytesField(tag, s) + rest == rest;
    } else {
      BytesFieldRead(tag, s, rest);
    }
  }

  /** Parsing a printed message into another one merges it, and fails when a name is not UTF-8. */
  lemma ParseMerges(a: Msg, b: Msg, rest: seq<Byte>)
    requires Printable(b)
    ensures ParseInto(Encode(b) + rest, a) ==
            if Utf8Names(b) then ParseInto(rest, Merge(a, b)) else None
  {
    hide ParseInto, IntField, BytesField, ValidUtf8;
    var r7 := IntField(ERROR_TAG, b.error) + rest;
    var r6 := BytesField(RESPONSE_TAG, b.response) + r7;
    var r5 := BytesField(REQUEST_TAG, b.request) + r6;
    var r4 := BytesField(METHOD_TAG, b.method_) + r5;
    var r3 := BytesField(SERVICE_TAG, b.service) + r4;
    var r2 := IntField(ID_TAG, b.id) + r3;
    assert Encode(b) + rest == IntField(TYPE_TAG, b.typ) + r2;
    FieldSizes(b);
    var m1 := SetInt(a, TYPE_TAG, b.typ);
    var m2 := SetInt(m1, ID_TAG, b.id);
    var m3 := SetBytes(m2, SERVICE_TAG, b.service);
    var m4 := SetBytes(m3, METHOD_TAG, b.method_);
    var m5 := SetBytes(m4, REQUEST_TAG, b.request);
    var m6 := SetBytes(m5, RESPONSE_TAG, b.response);
    IntFieldParses(a, TYPE_TAG, b.typ, r2);
    IntFieldParses(m1, ID_TAG, b.id, r3);
    BytesFieldParses(m2, SERVICE_TAG, b.service, r4);
    BytesFieldParses(m3, METHOD_TAG, b.method_, r5);
    BytesFieldParses(m4, REQUEST_TAG, b.request, r6);
    BytesFieldParses(m5, RESPONSE_TAG, b.response, r7);
    IntFieldParses(m6, ERROR_TAG, b.error, rest);
  }

  lemma FieldSizes(m: Msg)
    ensures |m.service| <= |Encode(m)| && |m.method_| <= |Encode(m)|
    ensures |m.request| <= |Encode(m)| && |m.response| <= |Encode(m)|
  {
  }

  /** More bytes behind a complete field change nothing about it. */
  lemma FieldPrefix(x: seq<Byte>, y: seq<Byte>, m: Msg)
    requires ParseField(x, m).Some?
    ensures ParseField(x + y, m) == ParseField(x, m)
  {
    hide ReadVarint, ReadPayload, SkipField, ValidUtf8, EnumOf, IdOf;
    VarintPrefix(x, y, 5);
    var Taken(tag, n) := ReadTag(x).value;
    var rest := x[n..];
    assert (x + y)[n..] == rest + y;
    if tag == TYPE_TAG || tag == ID_TAG || tag == ERROR_TAG {
      VarintPrefix(rest, y, 10);
    } else if tag == SERVICE_TAG || tag == METHOD_TAG || tag == REQUEST_TAG || tag == RESPONSE_TAG {
      PayloadPrefix(rest, y);
    } else {
      SkipPrefix(tag, rest, y, RECURSION_LIMIT);
    }
  }

  // ---- The main results --------------------------------------------------------------------------

  /** Parse undoes print exactly for the messages whose names are valid UTF-8. */
  lemma ParseUndoesPrint(m: Msg)
    requires Printable(m)
    ensures Parse(Encode(m)) == Some(m) <==> Utf8Names(m)
    ensures !Utf8Names(m) ==> Parse(Encode(m)) == None
  {
    ParseMerges(EMPTY, m, []);
    assert Encode(m) + [] == Encode(m);
  }

  /**
    Any bytes that parse, printed or not: parsing them and then more bytes is parsing the concatenation.
    Unknown fields, groups, overlong varints and fields in any order or number make no difference.
   */
  lemma {:induction false} ParseInTwo(x: seq<Byte>, y: seq<Byte>, m: Msg)
    requires ParseInto(x, m).Some?
    ensures ParseInto(x + y, m) == ParseInto(y, ParseInto(x, m).value)
    decreases |x|
  {
    hide ParseField;
    if x == [] {
      assert x + y == y;
    } else {
      FieldPrefix(x, y, m);
      var Taken(m', n) := ParseField(x, m).value;
      assert (x + y)[n..] == x[n..] + y;
      ParseInTwo(x[n..], y, m');
    }
  }

  /** Parsing the concatenation of two printed messages is merging the second into the first. */
  lemma ParseConcatMerges(a: Msg, b: Msg)
    requires Printable(a) && Printable(b)
    ensures Parse(Encode(a) + Encode(b)) ==
            if Utf8Names(a) && Utf8Names(b) then Some(Merge(a, b)) else None
  {
    hide Encode, ParseInto;
    ParseMerges(EMPTY, a, Encode(b));
    MergeIntoEmpty(a);
    if Utf8Names(a) {
      ParseMerges(a, b, []);
      assert Encode(b) + [] == Encode(b);
      ParseNothing(Merge(a, b));
    }
  }

  lemma MergeIntoEmpty(m: Msg)
    ensures Merge(EMPTY, m) == m && Merge(m, EMPTY) == m
  {
  }

  lemma ParseNothing(m: Msg)
    ensures ParseInto([], m) == Some(m)
  {
  }

  /** No two messages with UTF-8 names print the same. */
  lemma PrintIsInjective(a: Msg, b: Msg)
    requires Printable(a) && Printable(b) && Utf8Names(a) && Utf8Names(b)
    requires Encode(a) == Encode(b)
    ensures a == b
  {
    ParseUndoesPrint(a);
    ParseUndoesPrint(b);
  }

  // ---- Sizes --------------------------------------------------------------------------------------

  /** The size of a field, without printing it: its one-byte tag and its payload, if it is set. */
  function IntFieldSize(x: Int64): nat {
    if x == 0 then 0 else 1 + VarintSize(Pattern(x))
  }

  function BytesFieldSize(s: seq<Byte>): nat
    requires |s| <= INT_MAX
  {
    if s == [] then 0 else 1 + VarintSize(|s|) + |s|
  }

  lemma IntFieldSizeExact(tag: Byte, x: Int64)
    ensures IntFieldSize(x) == |IntField(tag, x)|
  {
    hide VarintSize, EncodeVarint;
    VarintSizeExact(Pattern(x));
  }

  lemma BytesFieldSizeExact(tag: Byte, s: seq<Byte>)
    requires |s| <= INT_MAX
    ensures BytesFieldSize(s) == |BytesField(tag, s)|
  {
    hide VarintSize, EncodeVarint;
    VarintSizeExact(|s|);
  }

  // ---- The message object --------------------------------------------------------------------------

  class RpcMessage {
    var typ: Int32
    var id: Int64
    var service: seq<Byte>
    var method_: seq<Byte>
    var request: seq<Byte>
    var response: seq<Byte>
    var error: Int32

    function Value(): Msg
      reads this
    {
      Msg(typ, id, service, method_, request, response, error)
    }

    constructor ()
      ensures Value() == EMPTY
    {
      typ, id, error := 0, 0, 0;
      service, method_, request, response := [], [], [], [];
    }

    method Clear()
      modifies this
      ensures Value() == EMPTY
    {
      service, method_, request, response := [], [], [], [];
      typ, id, error := 0, 0, 0;
    }

    /** Reads the fields of `buf` into this message; what a failed parse leaves is not specified. */
    method InternalParse(buf: seq<Byte>) returns (ok: bool)
      modifies this
      ensures ok <==> ParseInto(buf, old(Value())).Some?
      ensures ok ==> ParseInto(buf, old(Value())) == Some(Value())
    {
      hide ParseField;
      var ptr := 0;
      while ptr < |buf|
        invariant ptr <= |buf|
        invariant ParseInto(buf, old(Value())) == ParseInto(buf[ptr..], Value())
      {
        var next;
        ok, next := ParseOneField(buf, ptr);
        if !ok {
          return;
        }
        assert buf[ptr..][next - ptr..] == buf[next..];
        ptr := next;
      }
      ok := true;
    }

    /** One turn of the loop: a tag, then the case of its field number. */
    method ParseOneField(buf: seq<Byte>, start: nat) returns (ok: bool, ptr: nat)
      requires start < |buf|
      modifies this
      ensures ok == ParseField(buf[start..], old(Value())).Some?
      ensures ok ==> start < ptr <= |buf| && ParseField(buf[start..], old(Value())) == Some(Taken(Value(), ptr - start))
    {
      hide ReadTag, ReadPayload, ReadVarint64, ValidUtf8, SkipField, EnumOf, IdOf;
      ptr := start;
      var t := ReadTag(buf[start..]);
      if t == None {
        return false, ptr;
      }
      var tag, after := t.value.value, start + t.value.size;
      assert buf[start..][t.value.size..] == buf[after..];
      var unusual := true;
      if tag / 8 == 1 || tag / 8 == 2 || tag / 8 == 7 {
        unusual, ok, ptr := ParseIntField(tag, buf, after);
      } else if 3 <= tag / 8 <= 6 {
        unusual, ok, ptr := ParseBytesField(tag, buf, after);
      }
      if unusual {
        if tag == 0 || tag % 8 == 4 {
          return false, after;
        }
        var skipped := SkipField(tag, buf[after..], RECURSION_LIMIT);
        if skipped == None {
          return false, after;
        }
        ok, ptr := true, after + skipped.value;
      }
    }

    /** The cases of fields 1, 2 and 7. */
    method ParseIntField(tag: nat, buf: seq<Byte>, start: nat) returns (unusual: bool, ok: bool, ptr: nat)
      requires start <= |buf| && tag / 8 in {1, 2, 7}
      modifies this
      ensures unusual <==> tag !in {TYPE_TAG as nat, ID_TAG, ERROR_TAG}
      ensures unusual ==> Value() == old(Value()) && ptr == start
      ensures !unusual ==>
                var r := ReadVarint64(buf[start..]);
                && ok == r.Some? && start <= ptr <= |buf|
                && (ok ==> ptr == start + r.value.size)
                && (ok ==> Value() == if tag == TYPE_TAG then old(Value()).(typ := EnumOf(r.value.value))
                                      else if tag == ID_TAG then old(Value()).(id := IdOf(r.value.value))
                                      else old(Value()).(error := EnumOf(r.value.value)))
    {
      unusual, ok, ptr := tag % 256 != 8 * (tag / 8), true, start;
      if !unusual {
        var r := ReadVarint64(buf[start..]);
        if r == None {
          ok := false;
          return;
        }
        ptr := start + r.value.size;
        match tag / 8
        case 1 => typ := EnumOf(r.value.value);
        case 2 => id := IdOf(r.value.value);
        case _ => error := EnumOf(r.value.value);
      }
    }

    /** The cases of fields 3 to 6. */
    method ParseBytesField(tag: nat, buf: seq<Byte>, start: nat) returns (unusual: bool, ok: bool, ptr: nat)
      requires start <= |buf| && 3 <= tag / 8 <= 6
      modifies this
      ensures unusual <==> tag !in {SERVICE_TAG as nat, METHOD_TAG, REQUEST_TAG, RESPONSE_TAG}
      ensures unusual ==> Value() == old(Value()) && ptr == start
      ensures !unusual ==>
                var r := ReadPayload(buf[start..]);
                && start <= ptr <= |buf|
                && ok == (r.Some? && (tag == SERVICE_TAG || tag == METHOD_TAG ==> ValidUtf8(r.value.value)))
                && (ok ==> ptr == start + r.value.size)
                && (ok ==> Value() == if tag == SERVICE_TAG then old(Value()).(service := r.value.value)
                                      else if tag == METHOD_TAG then old(Value()).(method_ := r.value.value)
                                      else if tag == REQUEST_TAG then old(Value()).(request := r.value.value)
                                      else old(Value()).(response := r.value.value))
    {
      unusual, ok, ptr := tag % 256 != 8 * (tag / 8) + 2, true, start;
      if !unusual {
        var r := ReadPayload(buf[start..]);
        if r == None {
          ok := false;
          return;
        }
        ptr := start + r.value.size;
        match tag / 8
        case 3 =>
          service := r.value.value;
          ok := ValidUtf8(service);
        case 4 =>
          method_ := r.value.value;
          ok := ValidUtf8(method_);
        case 5 => request := r.value.value;
        case _ => response := r.value.value;
      }
    }

    method ParseFromArray(buf: seq<Byte>) returns (ok: bool)
      modifies this
      ensures ok <==> Parse(buf).Some?
      ensures ok ==> Parse(buf) == Some(Value())
    {
      Clear();
      ok := InternalParse(buf);
    }

    /** Copies bytes into the target behind what is printed so far, and moves past them. */
    static method Put(target: array<Byte>, ghost start: nat, at: nat, data: seq<Byte>) returns (next: nat)
      requires start <= at && at + |data| <= target.Length
      modifies target
      ensures next == at + |data| && target[start..next] == old(target[start..at]) + data
      ensures forall i :: 0 <= i < target.Length && !(at <= i < next) ==> target[i] == old(target[i])
    {
      forall i | 0 <= i < |data| {
        target[at + i] := data[i];
      }
      next := at + |data|;
    }

    static method PutInt(target: array<Byte>, ghost start: nat, at: nat, tag: Byte, x: Int64) returns (next: nat)
      requires start <= at && at + |IntField(tag, x)| <= target.Length
      modifies target
      ensures next == at + |IntField(tag, x)| && target[start..next] == old(target[start..at]) + IntField(tag, x)
      ensures forall i :: 0 <= i < target.Length && !(at <= i < next) ==> target[i] == old(target[i])
    {
      next := at;
      if x != 0 {
        next := Put(target, start, at, [tag] + EncodeVarint(Pattern(x)));
      }
    }

    static method PutBytes(target: array<Byte>, ghost start: nat, at: nat, tag: Byte, s: seq<Byte>) returns (next: nat)
      requires start <= at && at + |BytesField(tag, s)| <= target.Length
      modifies target
      ensures next == at + |BytesField(tag, s)| && target[start..next] == old(target[start..at]) + BytesField(tag, s)
      ensures forall i :: 0 <= i < target.Length && !(at <= i < next) ==> target[i] == old(target[i])
    {
      next := at;
      if s != [] {
        next := Put(target, start, at, [tag] + EncodeVarint(|s|) + s);
      }
    }

    /** Prints the message from `start` on; no other byte of the target changes. */
    method InternalSerialize(target: array<Byte>, start: nat) returns (end: nat)
      requires start + |Encode(Value())| <= target.Length
      modifies target
      ensures end == start + |Encode(Value())| && target[start..end] == Encode(Value())
      ensures forall i :: 0 <= i < target.Length && !(start <= i < end) ==> target[i] == old(target[i])
    {
      hide IntField, BytesField;
      ghost var f1, f2 := IntField(TYPE_TAG, typ), IntField(ID_TAG, id);
      ghost var f3, f4 := BytesField(SERVICE_TAG, service), BytesField(METHOD_TAG, method_);
      ghost var f5, f6 := BytesField(REQUEST_TAG, request), BytesField(RESPONSE_TAG, response);
      ghost var f7 := IntField(ERROR_TAG, error);
      assert |Encode(Value())| == |f1| + |f2| + |f3| + |f4| + |f5| + |f6| + |f7|;
      end := PutInt(target, start, start, TYPE_TAG, typ);
      assert target[start..end] == f1;
      end := PutInt(target, start, end, ID_TAG, id);
      end := PutBytes(target, start, end, SERVICE_TAG, service);
      assert target[start..end] == f1 + f2 + f3;
      end := PutBytes(target, start, end, METHOD_TAG, method_);
      end := PutBytes(target, start, end, REQUEST_TAG, request);
      assert target[start..end] == f1 + f2 + f3 + f4 + f5;
      end := PutBytes(target, start, end, RESPONSE_TAG, response);
      end := PutInt(target, start, end, ERROR_TAG, error);
    }

    /** Exactly the number of bytes the printer emits. */
    method ByteSizeLong() returns (total: nat)
      requires Printable(Value())
      ensures total == |Encode(Value())|
    {
      hide IntField, BytesField, IntFieldSize, BytesFieldSize;
      FieldSizes(Value());
      BytesFieldSizeExact(SERVICE_TAG, service);
      BytesFieldSizeExact(METHOD_TAG, method_);
      BytesFieldSizeExact(REQUEST_TAG, request);
      BytesFieldSizeExact(RESPONSE_TAG, response);
      IntFieldSizeExact(ID_TAG, id);
      IntFieldSizeExact(TYPE_TAG, typ);
      IntFieldSizeExact(ERROR_TAG, error);
      total := 0;
      total := total + BytesFieldSize(service);
      total := total + BytesFieldSize(method_);
      total := total + BytesFieldSize(request);
      total := total + BytesFieldSize(response);
      total := total + IntFieldSize(id);
      total := total + IntFieldSize(typ);
      total := total + IntFieldSize(error);
    }

    method MergeFrom(from: RpcMessage)
      requires from != this
      modifies this
      ensures Value() == Merge(old(Value()), from.Value())
    {
      service := PickBytes(service, from.service);
      method_ := PickBytes(method_, from.method_);
      request := PickBytes(request, from.request);
      response := PickBytes(response, from.response);
      id := PickInt(id, from.id);
      typ := PickInt(typ, from.typ);
      error := PickInt(error, from.error);
    }
  }
}
