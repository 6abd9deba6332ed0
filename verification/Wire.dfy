/**
  The parts of the protobuf wire format that the generated message code calls: base-128 varints,
  tags, length-delimited payloads and the skipping of unknown fields (Protocol Buffers Encoding,
  sections 'Base 128 Varints' and 'Message Structure'), and UTF-8 validity (section 4 of RFC 3629).
 */
module Wire {
  import opened Bytes

  datatype Option<+T> = None | Some(value: T)

  /** A value and the number of bytes it took. */
  datatype Taken<+T> = Taken(value: T, size: nat)

  // ---- Varints -------------------------------------------------------------------------------

  function EncodeVarint(v: nat): (bs: seq<Byte>)
    ensures |bs| >= 1
  {
    if v < 128 then [v] else [v % 128 + 128] + EncodeVarint(v / 128)
  }

  /** Reads at most `max` groups of seven bits, least significant first. */
  function ReadVarint(bs: seq<Byte>, max: nat): (r: Option<Taken<nat>>)
    ensures r.Some? ==> 1 <= r.value.size <= |bs|
    decreases max
  {
    if bs == [] || max == 0 then None
    else if bs[0] < 128 then Some(Taken(bs[0], 1))
    else match ReadVarint(bs[1..], max - 1)
      case None => None
      case Some(Taken(v, n)) => Some(Taken(bs[0] - 128 + 128 * v, n + 1))
  }

  lemma {:induction false} VarintRoundTrip(v: nat, rest: seq<Byte>, max: nat)
    requires |EncodeVarint(v)| <= max
    ensures ReadVarint(EncodeVarint(v) + rest, max) == Some(Taken(v, |EncodeVarint(v)|))
  {
    if v < 128 {
    } else {
      VarintRoundTrip(v / 128, rest, max - 1);
      assert (EncodeVarint(v) + rest)[1..] == EncodeVarint(v / 128) + rest;
    }
  }

  /** Seven bits of a value, counted from the least significant ones. */
  function Group(v: nat, i: nat): nat {
    if i == 0 then v % 128 else Group(v / 128, i - 1)
  }

  /** Byte i carries group i; all bytes but the last have their top bit set. */
  lemma {:induction false} VarintGroups(v: nat, i: nat)
    requires i < |EncodeVarint(v)|
    ensures EncodeVarint(v)[i] == Group(v, i) + (if i < |EncodeVarint(v)| - 1 then 128 else 0)
  {
    if i == 0 {
    } else {
      VarintGroups(v / 128, i - 1);
    }
  }

  /** For any bytes: reading ends at the first byte without a top bit, if that is among the first `max`. */
  lemma {:induction false} VarintEnds(bs: seq<Byte>, max: nat)
    ensures ReadVarint(bs, max).Some? <==> exists i :: 0 <= i < |bs| && i < max && bs[i] < 128
    ensures ReadVarint(bs, max).Some? ==>
              var n := ReadVarint(bs, max).value.size;
              n <= max && bs[n - 1] < 128 && forall i :: 0 <= i < n - 1 ==> bs[i] >= 128
    decreases max
  {
    if bs == [] || max == 0 {
    } else if bs[0] < 128 {
    } else {
      VarintEnds(bs[1..], max - 1);
      assert forall i :: 1 <= i < |bs| ==> bs[i] == bs[1..][i - 1];
      assert forall i :: 0 <= i < |bs| - 1 ==> bs[1..][i] == bs[i + 1];
    }
  }

  /** And what is read has the low seven bits of these bytes as its groups, least significant first. */
  lemma {:induction false} VarintValue(bs: seq<Byte>, max: nat, i: nat)
    requires ReadVarint(bs, max).Some?
    ensures var Taken(v, n) := ReadVarint(bs, max).value; Group(v, i) == if i < n then bs[i] % 128 else 0
    decreases max
  {
    var Taken(v, n) := ReadVarint(bs, max).value;
    if bs[0] < 128 {
      if i > 0 {
        ZeroGroups(i - 1);
      }
    } else if i > 0 {
      VarintValue(bs[1..], max - 1, i - 1);
      assert v / 128 == ReadVarint(bs[1..], max - 1).value.value;
    }
  }

  lemma {:induction false} ZeroGroups(i: nat)
    ensures Group(0, i) == 0
  {
    if i == 0 {
    } else {
      ZeroGroups(i - 1);
    }
  }

  /** The size of a 64-bit varint, read off the value. */
  function VarintSize(v: nat): (n: nat)
    requires v < 0x1_0000_0000_0000_0000
  {
    if v < 0x80 then 1
    else if v < 0x4000 then 2
    else if v < 0x20_0000 then 3
    else if v < 0x1000_0000 then 4
    else if v < 0x8_0000_0000 then 5
    else if v < 0x400_0000_0000 then 6
    else if v < 0x2_0000_0000_0000 then 7
    else if v < 0x100_0000_0000_0000 then 8
    else if v < 0x8000_0000_0000_0000 then 9
    else 10
  }

  lemma {:induction false} VarintSizeExact(v: nat)
    requires v < 0x1_0000_0000_0000_0000
    ensures |EncodeVarint(v)| == VarintSize(v)
  {
    if v < 128 {
    } else {
      VarintSizeExact(v / 128);
    }
  }

  // ---- Tags and payloads -----------------------------------------------------------------------

  /** A field number and wire type; 32 bits, in at most five bytes. */
  function ReadTag(bs: seq<Byte>): (r: Option<Taken<nat>>)
    ensures r.Some? ==> 1 <= r.value.size <= |bs|
  {
    match ReadVarint(bs, 5)
    case None => None
    case Some(Taken(v, n)) => Some(Taken(v % 0x1_0000_0000, n))
  }

  function ReadVarint64(bs: seq<Byte>): (r: Option<Taken<nat>>)
    ensures r.Some? ==> 1 <= r.value.size <= |bs| && r.value.value < 0x1_0000_0000_0000_0000
  {
    match ReadVarint(bs, 10)
    case None => None
    case Some(Taken(v, n)) => Some(Taken(v % 0x1_0000_0000_0000_0000, n))
  }

  /** A length, then that many bytes. */
  function ReadPayload(bs: seq<Byte>): (r: Option<Taken<seq<Byte>>>)
    ensures r.Some? ==> 1 <= r.value.size <= |bs|
  {
    match ReadVarint(bs, 5)
    case None => None
    case Some(Taken(len, n)) =>
      if n + len <= |bs| then Some(Taken(bs[n..n + len], n + len)) else None
  }

  // ---- Unknown fields ----------------------------------------------------------------------------

  const RECURSION_LIMIT: nat := 100

  /** The size of the field whose tag was just read; groups nest at most `depth` deep. */
  function SkipField(tag: nat, bs: seq<Byte>, depth: nat): (r: Option<nat>)
    ensures r.Some? ==> r.value <= |bs|
    decreases |bs|, 1
  {
    if tag / 8 == 0 then None
    else match tag % 8
      case 0 => (match ReadVarint64(bs) case None => None case Some(t) => Some(t.size))
      case 1 => if |bs| >= 8 then Some(8) else None
      case 2 => (match ReadPayload(bs) case None => None case Some(t) => Some(t.size))
      case 3 => if depth == 0 then None else SkipGroup(tag / 8, bs, depth - 1)
      case 5 => if |bs| >= 4 then Some(4) else None
      case _ => None
  }

  /** Fields up to the end-group tag of the same number. */
  function SkipGroup(number: nat, bs: seq<Byte>, depth: nat): (r: Option<nat>)
    ensures r.Some? ==> r.value <= |bs|
    decreases |bs|, 0
  {
    match ReadTag(bs)
    case None => None
    case Some(Taken(tag, n)) =>
      if tag % 8 == 4 then (if tag / 8 == number then Some(n) else None)
      else match SkipField(tag, bs[n..], depth)
        case None => None
        case Some(k) =>
          match SkipGroup(number, bs[n + k..], depth)
          case None => None
          case Some(j) => Some(n + k + j)
  }

  // ---- More bytes behind what was read -------------------------------------------------------------

  lemma {:induction false} VarintPrefix(x: seq<Byte>, y: seq<Byte>, max: nat)
    requires ReadVarint(x, max).Some?
    ensures ReadVarint(x + y, max) == ReadVarint(x, max)
    decreases max
  {
    if x[0] < 128 {
    } else {
      VarintPrefix(x[1..], y, max - 1);
      assert (x + y)[1..] == x[1..] + y;
    }
  }

  lemma TagPrefix(x: seq<Byte>, y: seq<Byte>)
    requires ReadTag(x).Some?
    ensures ReadTag(x + y) == ReadTag(x)
  {
    VarintPrefix(x, y, 5);
  }

  lemma PayloadPrefix(x: seq<Byte>, y: seq<Byte>)
    requires ReadPayload(x).Some?
    ensures ReadPayload(x + y) == ReadPayload(x)
  {
    VarintPrefix(x, y, 5);
    var Taken(len, n) := ReadVarint(x, 5).value;
    assert (x + y)[n..n + len] == x[n..n + len];
  }

  lemma {:induction false} SkipPrefix(tag: nat, x: seq<Byte>, y: seq<Byte>, depth: nat)
    requires SkipField(tag, x, depth).Some?
    ensures SkipField(tag, x + y, depth) == SkipField(tag, x, depth)
    decreases |x|, 2
  {
    hide ReadVarint, ReadPayload, SkipGroup;
    match tag % 8
    case 0 => VarintPrefix(x, y, 10);
    case 2 => PayloadPrefix(x, y);
    case 3 => GroupPrefix(tag / 8, x, y, depth - 1);
    case _ =>
  }

  lemma {:induction false} GroupPrefix(number: nat, x: seq<Byte>, y: seq<Byte>, depth: nat)
    requires SkipGroup(number, x, depth).Some?
    ensures SkipGroup(number, x + y, depth) == SkipGroup(number, x, depth)
    decreases |x|, 1
  {
    hide ReadTag, SkipField;
    TagPrefix(x, y);
    if ReadTag(x).value.value % 8 == 4 {
    } else {
      FieldOfGroupPrefix(number, x, y, depth);
    }
  }

  lemma {:induction false} FieldOfGroupPrefix(number: nat, x: seq<Byte>, y: seq<Byte>, depth: nat)
    requires SkipGroup(number, x, depth).Some?
    requires ReadTag(x).Some? && ReadTag(x).value.value % 8 != 4
    ensures SkipGroup(number, x + y, depth) == SkipGroup(number, x, depth)
    decreases |x|, 0
  {
    hide ReadTag, SkipField, SkipGroup;
    TagPrefix(x, y);
    GroupParts(number, x, depth);
    var Taken(tag, n) := ReadTag(x).value;
    var k := SkipField(tag, x[n..], depth).value;
    assert (x + y)[n..] == x[n..] + y && (x + y)[n + k..] == x[n + k..] + y;
    SkipPrefix(tag, x[n..], y, depth);
    GroupPrefix(number, x[n + k..], y, depth);
    GroupUnfolds(number, x, depth, tag, n, k);
    GroupUnfolds(number, x + y, depth, tag, n, k);
  }

  lemma {:induction false} GroupParts(number: nat, bs: seq<Byte>, depth: nat)
    requires SkipGroup(number, bs, depth).Some?
    ensures ReadTag(bs).Some?
    ensures var Taken(tag, n) := ReadTag(bs).value;
            tag % 8 != 4 ==>
              && SkipField(tag, bs[n..], depth).Some?
              && SkipGroup(number, bs[n + SkipField(tag, bs[n..], depth).value..], depth).Some?
  {
    hide ReadTag, SkipField;
  }

  /** A field of a group, then the rest of the group. */
  lemma {:induction false} GroupUnfolds(number: nat, bs: seq<Byte>, depth: nat, tag: nat, n: nat, k: nat)
    requires ReadTag(bs) == Some(Taken(tag, n)) && tag % 8 != 4
    requires SkipField(tag, bs[n..], depth) == Some(k)
    ensures SkipGroup(number, bs, depth) ==
            match SkipGroup(number, bs[n + k..], depth) case None => None case Some(j) => Some(n + k + j)
  {
    hide ReadTag, SkipField;
  }

  // ---- UTF-8 ---------------------------------------------------------------------------------------

  predicate Tail(b: Byte) {
    0x80 <= b <= 0xBF
  }

  /** The size of the UTF-8 character at the front, 0 when there is none. */
  function Utf8Char(s: seq<Byte>): (n: nat)
    ensures n <= |s|
  {
    if s == [] then 0
    else if s[0] <= 0x7F then 1
    else if |s| < 2 || !Tail(s[1]) then 0
    else if 0xC2 <= s[0] <= 0xDF then 2
    else if |s| < 3 || !Tail(s[2]) then 0
    else if (s[0] == 0xE0 && s[1] >= 0xA0) || 0xE1 <= s[0] <= 0xEC || (s[0] == 0xED && s[1] <= 0x9F)
         || 0xEE <= s[0] <= 0xEF then 3
    else if |s| < 4 || !Tail(s[3]) then 0
    else if (s[0] == 0xF0 && s[1] >= 0x90) || 0xF1 <= s[0] <= 0xF3 || (s[0] == 0xF4 && s[1] <= 0x8F) then 4
    else 0
  }

  predicate ValidUtf8(s: seq<Byte>) {
    s == [] || (Utf8Char(s) > 0 && ValidUtf8(s[Utf8Char(s)..]))
  }

  /** The Unicode scalar values: all code points but the surrogates. */
  predicate Scalar(cp: nat) {
    cp < 0xD800 || 0xE000 <= cp < 0x11_0000
  }

  /** Section 3 of RFC 3629: the bits of a scalar value over one to four bytes. */
  function Utf8Of(cp: nat): seq<Byte>
    requires Scalar(cp)
  {
    if cp < 0x80 then [cp]
    else if cp < 0x800 then [0xC0 + cp / 64, 0x80 + cp % 64]
    else if cp < 0x1_0000 then [0xE0 + cp / 64 / 64, 0x80 + cp / 64 % 64, 0x80 + cp % 64]
    else [0xF0 + cp / 64 / 64 / 64, 0x80 + cp / 64 / 64 % 64, 0x80 + cp / 64 % 64, 0x80 + cp % 64]
  }

  lemma ScalarIsChar(cp: nat, rest: seq<Byte>)
    requires Scalar(cp)
    ensures Utf8Char(Utf8Of(cp) + rest) == |Utf8Of(cp)|
  {
    var bs := Utf8Of(cp);
    assert forall i :: 0 <= i < |bs| ==> (bs + rest)[i] == bs[i];
  }

  lemma CharIsScalar(s: seq<Byte>) returns (cp: nat)
    requires Utf8Char(s) > 0
    ensures Scalar(cp) && Utf8Of(cp) == s[..Utf8Char(s)]
  {
    hide Utf8Of, Scalar;
    var n := Utf8Char(s);
    if n == 1 {
      cp := OneByte(s[0]);
      assert s[..1] == [s[0]];
    } else if n == 2 {
      cp := TwoBytes(s[0], s[1]);
      assert s[..2] == [s[0], s[1]];
    } else if n == 3 {
      cp := ThreeBytes(s[0], s[1], s[2]);
      assert s[..3] == [s[0], s[1], s[2]];
    } else {
      cp := FourBytes(s[0], s[1], s[2], s[3]);
      assert s[..4] == [s[0], s[1], s[2], s[3]];
    }
  }

  lemma OneByte(a: Byte) returns (cp: nat)
    requires a <= 0x7F
    ensures Scalar(cp) && Utf8Of(cp) == [a]
  {
    cp := a;
  }

  lemma TwoBytes(a: Byte, b: Byte) returns (cp: nat)
    requires 0xC2 <= a <= 0xDF && Tail(b)
    ensures Scalar(cp) && Utf8Of(cp) == [a, b]
  {
    cp := More(a as int - 0xC0, b);
  }

  lemma ThreeBytes(a: Byte, b: Byte, c: Byte) returns (cp: nat)
    requires 0xE0 <= a <= 0xEF && Tail(b) && Tail(c)
    requires (a == 0xE0 ==> b >= 0xA0) && (a == 0xED ==> b <= 0x9F)
    ensures Scalar(cp) && Utf8Of(cp) == [a, b, c]
  {
    cp := More(a as int - 0xE0, b);
    cp := More(cp, c);
  }

  lemma FourBytes(a: Byte, b: Byte, c: Byte, d: Byte) returns (cp: nat)
    requires 0xF0 <= a <= 0xF4 && Tail(b) && Tail(c) && Tail(d)
    requires (a == 0xF0 ==> b >= 0x90) && (a == 0xF4 ==> b <= 0x8F)
    ensures Scalar(cp) && Utf8Of(cp) == [a, b, c, d]
  {
    cp := More(a as int - 0xF0, b);
    cp := More(cp, c);
    cp := More(cp, d);
  }

  /** Six more bits, out of a tail byte. */
  lemma More(high: int, tail: Byte) returns (v: int)
    requires Tail(tail)
    ensures v == 64 * high + tail - 0x80 && v / 64 == high && 0x80 + v % 64 == tail
  {
    v := 64 * high + tail - 0x80;
  }

  ghost function Text(cps: seq<nat>): seq<Byte>
    requires forall i :: 0 <= i < |cps| ==> Scalar(cps[i])
  {
    if cps == [] then [] else Utf8Of(cps[0]) + Text(cps[1..])
  }

  lemma {:induction false} TextIsValid(cps: seq<nat>)
    requires forall i :: 0 <= i < |cps| ==> Scalar(cps[i])
    ensures ValidUtf8(Text(cps))
  {
    hide Utf8Of, Utf8Char;
    if cps == [] {
    } else {
      var tail := Text(cps[1..]);
      ScalarIsChar(cps[0], tail);
      TextIsValid(cps[1..]);
      Utf8NonEmpty(cps[0]);
      assert (Utf8Of(cps[0]) + tail)[|Utf8Of(cps[0])|..] == tail;
    }
  }

  lemma Utf8NonEmpty(cp: nat)
    requires Scalar(cp)
    ensures |Utf8Of(cp)| > 0
  {
  }

  /** A valid byte string reads as scalar values. */
  lemma {:induction false} ValidIsText(s: seq<Byte>) returns (cps: seq<nat>)
    requires ValidUtf8(s)
    ensures (forall i :: 0 <= i < |cps| ==> Scalar(cps[i])) && Text(cps) == s
  {
    hide Utf8Of, Utf8Char;
    if s == [] {
      cps := [];
    } else {
      var n := Utf8Char(s);
      var cp := CharIsScalar(s);
      var tail := ValidIsText(s[n..]);
      cps := [cp] + tail;
      assert cps[1..] == tail && s == s[..n] + s[n..];
    }
  }

  /** The grammar of section 4 accepts exactly the encodings of section 3. */
  lemma Utf8IffScalars(s: seq<Byte>)
    ensures ValidUtf8(s) <==>
            exists cps: seq<nat> :: (forall i :: 0 <= i < |cps| ==> Scalar(cps[i])) && Text(cps) == s
  {
    if ValidUtf8(s) {
      var cps := ValidIsText(s);
      assert Text(cps) == s;
    }
    forall cps: seq<nat> | (forall i :: 0 <= i < |cps| ==> Scalar(cps[i])) && Text(cps) == s
      ensures ValidUtf8(s)
    {
      TextIsValid(cps);
    }
  }
}
