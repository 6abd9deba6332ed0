/**
  Bytes, and the fixed-width integers the buffer stores in them: two's complement, most
  significant byte first, except that 64-bit values go least significant byte first.
 */
module Bytes {

  type Byte = x: int | 0 <= x < 256

  /** The number of values of an n-byte unsigned integer. */
  function Base(n: nat): nat {
    if n == 0 then 1 else 256 * Base(n - 1)
  }

  /** What is stored elsewhere leaves a slice as it was. */
  lemma SameSlice(before: seq<Byte>, after: seq<Byte>, from: nat, to: nat)
    requires from <= to <= |before| == |after|
    requires forall i :: from <= i < to ==> after[i] == before[i]
    ensures after[from..to] == before[from..to]
  {
  }

  lemma SliceOfSlice(bs: seq<Byte>, from: nat, to: nat, i: nat, j: nat)
    requires from <= to <= |bs| && i <= j <= to - from
    ensures bs[from..to][i..j] == bs[from + i..from + j]
  {
    var inner, outer := bs[from..to][i..j], bs[from + i..from + j];
    forall k | 0 <= k < j - i
      ensures inner[k] == outer[k]
    {
      assert inner[k] == bs[from..to][i + k] == bs[from + (i + k)];
    }
  }

  function BigEndian(v: nat, n: nat): (bs: seq<Byte>)
    ensures |bs| == n
  {
    if n == 0 then [] else BigEndian(v / 256, n - 1) + [v % 256]
  }

  function FromBigEndian(bs: seq<Byte>): nat {
    if bs == [] then 0 else 256 * FromBigEndian(bs[..|bs| - 1]) + bs[|bs| - 1]
  }

  function LittleEndian(v: nat, n: nat): (bs: seq<Byte>)
    ensures |bs| == n
  {
    if n == 0 then [] else [v % 256] + LittleEndian(v / 256, n - 1)
  }

  function FromLittleEndian(bs: seq<Byte>): nat {
    if bs == [] then 0 else bs[0] + 256 * FromLittleEndian(bs[1..])
  }

  lemma {:induction false} BigEndianRoundTrip(v: nat, n: nat)
    requires v < Base(n)
    ensures FromBigEndian(BigEndian(v, n)) == v
  {
    if n == 0 {
    } else {
      BigEndianRoundTrip(v / 256, n - 1);
      assert BigEndian(v, n)[..n - 1] == BigEndian(v / 256, n - 1);
    }
  }

  lemma {:induction false} FromBigEndianRoundTrip(bs: seq<Byte>)
    ensures FromBigEndian(bs) < Base(|bs|) && BigEndian(FromBigEndian(bs), |bs|) == bs
  {
    if bs == [] {
    } else {
      FromBigEndianRoundTrip(bs[..|bs| - 1]);
      assert bs == bs[..|bs| - 1] + [bs[|bs| - 1]];
    }
  }

  lemma {:induction false} LittleEndianRoundTrip(v: nat, n: nat)
    requires v < Base(n)
    ensures FromLittleEndian(LittleEndian(v, n)) == v
  {
    if n == 0 {
    } else {
      LittleEndianRoundTrip(v / 256, n - 1);
      assert LittleEndian(v, n)[1..] == LittleEndian(v / 256, n - 1);
    }
  }

  lemma {:induction false} FromLittleEndianRoundTrip(bs: seq<Byte>)
    ensures FromLittleEndian(bs) < Base(|bs|) && LittleEndian(FromLittleEndian(bs), |bs|) == bs
  {
    if bs == [] {
    } else {
      FromLittleEndianRoundTrip(bs[1..]);
      ByteAndRest(bs[0], FromLittleEndian(bs[1..]));
      assert bs == [bs[0]] + bs[1..];
    }
  }

  lemma ByteAndRest(b: Byte, rest: nat)
    ensures (b + 256 * rest) % 256 == b && (b + 256 * rest) / 256 == rest
  {
  }

  /** Byte i, counted from the most significant one, is digit n-1-i of the value. */
  lemma {:induction false} BigEndianDigit(v: nat, n: nat, i: nat)
    requires i < n
    ensures BigEndian(v, n)[i] == Digit(v, n - 1 - i)
  {
    if i == n - 1 {
    } else {
      BigEndianDigit(v / 256, n - 1, i);
    }
  }

  /** Byte i, counted from the least significant one, is digit i of the value. */
  lemma {:induction false} LittleEndianDigit(v: nat, n: nat, i: nat)
    requires i < n
    ensures LittleEndian(v, n)[i] == Digit(v, i)
  {
    if i == 0 {
    } else {
      LittleEndianDigit(v / 256, n - 1, i - 1);
    }
  }

  /** The digit of weight 256^k. */
  function Digit(v: nat, k: nat): Byte {
    if k == 0 then v % 256 else Digit(v / 256, k - 1)
  }

  // ---- Signed integers ---------------------------------------------------------------------

  datatype Width = W8 | W16 | W32 | W64 {
    function Size(): nat {
      match this
      case W8 => 1
      case W16 => 2
      case W32 => 4
      case W64 => 8
    }

    /** Half the number of values, so that the values are those in [-Half, Half). */
    function Half(): int {
      match this
      case W8 => 0x80
      case W16 => 0x8000
      case W32 => 0x8000_0000
      case W64 => 0x8000_0000_0000_0000
    }

    predicate Holds(x: int) {
      -Half() <= x < Half()
    }

    lemma HalfIsHalf()
      ensures Base(Size()) == 2 * Half()
    {
      assert Base(2) == 0x1_0000 && Base(4) == 0x1_0000_0000;
      assert Base(6) == 0x1_0000_0000_0000 && Base(8) == 0x1_0000_0000_0000_0000;
    }
  }

  type Int32 = x: int | -0x8000_0000 <= x < 0x8000_0000
  type Int64 = x: int | -0x8000_0000_0000_0000 <= x < 0x8000_0000_0000_0000

  /** Two's complement. */
  function ToUnsigned(x: int, w: Width): (u: nat)
    requires w.Holds(x)
  {
    if x < 0 then x + 2 * w.Half() else x
  }

  function ToSigned(u: nat, w: Width): (x: int)
    requires u < 2 * w.Half()
    ensures w.Holds(x)
  {
    if u >= w.Half() then u - 2 * w.Half() else u
  }

  /** The bytes the buffer stores for an integer of width w. */
  function EncodeInt(x: int, w: Width): (bs: seq<Byte>)
    requires w.Holds(x)
    ensures |bs| == w.Size()
  {
    if w.W64? then LittleEndian(ToUnsigned(x, w), 8) else BigEndian(ToUnsigned(x, w), w.Size())
  }

  function DecodeInt(bs: seq<Byte>, w: Width): (x: int)
    requires |bs| == w.Size()
    ensures w.Holds(x)
  {
    FromBigEndianRoundTrip(bs);
    FromLittleEndianRoundTrip(bs);
    w.HalfIsHalf();
    ToSigned(if w.W64? then FromLittleEndian(bs) else FromBigEndian(bs), w)
  }

  lemma IntRoundTrip(x: int, w: Width)
    requires w.Holds(x)
    ensures DecodeInt(EncodeInt(x, w), w) == x
  {
    w.HalfIsHalf();
    BigEndianRoundTrip(ToUnsigned(x, w), w.Size());
    LittleEndianRoundTrip(ToUnsigned(x, w), w.Size());
  }

  /** Distinct bytes are distinct integers, and every byte string of the width is one. */
  lemma BytesRoundTrip(bs: seq<Byte>, w: Width)
    requires |bs| == w.Size()
    ensures EncodeInt(DecodeInt(bs, w), w) == bs
  {
    w.HalfIsHalf();
    FromBigEndianRoundTrip(bs);
    FromLittleEndianRoundTrip(bs);
  }

  /** Two's complement: the value modulo the number of values of the width. */
  lemma UnsignedIsModulo(x: int, w: Width)
    requires w.Holds(x)
    ensures Base(w.Size()) == (match w case W8 => 0x100 case W16 => 0x1_0000 case W32 => 0x1_0000_0000
                                       case W64 => 0x1_0000_0000_0000_0000)
    ensures ToUnsigned(x, w) == x % Base(w.Size())
  {
    w.HalfIsHalf();
  }

  /** The byte order: most significant first, except least significant first at 64 bits. */
  lemma IntByteOrder(x: int, w: Width, i: nat)
    requires w.Holds(x) && i < w.Size()
    ensures EncodeInt(x, w)[i] == Digit(ToUnsigned(x, w), if w.W64? then i else w.Size() - 1 - i)
  {
    if w.W64? {
      LittleEndianDigit(ToUnsigned(x, w), 8, i);
    } else {
      BigEndianDigit(ToUnsigned(x, w), w.Size(), i);
    }
  }

  // ---- Sequences of integers ---------------------------------------------------------------

  datatype Typed = Typed(width: Width, value: int)

  ghost predicate AllHold(items: seq<Typed>) {
    forall i :: 0 <= i < |items| ==> items[i].width.Holds(items[i].value)
  }

  ghost function EncodeAll(items: seq<Typed>): seq<Byte>
    requires AllHold(items)
  {
    if items == [] then [] else EncodeInt(items[0].value, items[0].width) + EncodeAll(items[1..])
  }

  /** What reading integers of the given widths returns, and the bytes left; None when they run out. */
  ghost function DecodeAll(bs: seq<Byte>, widths: seq<Width>): (r: (seq<Typed>, seq<Byte>, bool))
    decreases |widths|
  {
    if widths == [] then ([], bs, true)
    else if |bs| < widths[0].Size() then ([], bs, false)
    else
      var n := widths[0].Size();
      var rest := DecodeAll(bs[n..], widths[1..]);
      ([Typed(widths[0], DecodeInt(bs[..n], widths[0]))] + rest.0, rest.1, rest.2)
  }

  function Widths(items: seq<Typed>): seq<Width> {
    seq(|items|, i requires 0 <= i < |items| => items[i].width)
  }

  lemma ReadBackOne(x: int, w: Width, rest: seq<Byte>)
    requires w.Holds(x)
    ensures var bs := EncodeInt(x, w) + rest;
            bs[w.Size()..] == rest && DecodeInt(bs[..w.Size()], w) == x
  {
    IntRoundTrip(x, w);
    assert (EncodeInt(x, w) + rest)[..w.Size()] == EncodeInt(x, w);
  }

  /** Integers of mixed widths read back, in order, with the same signed values. */
  lemma {:induction false} ReadBackAll(items: seq<Typed>, rest: seq<Byte>)
    requires AllHold(items)
    ensures DecodeAll(EncodeAll(items) + rest, Widths(items)) == (items, rest, true)
  {
    hide EncodeInt, DecodeInt;
    if items == [] {
      assert EncodeAll(items) + rest == rest;
    } else {
      var x, w, tail := items[0].value, items[0].width, EncodeAll(items[1..]) + rest;
      assert EncodeAll(items) + rest == EncodeInt(x, w) + tail;
      assert Widths(items)[1..] == Widths(items[1..]);
      ReadBackOne(x, w, tail);
      ReadBackAll(items[1..], rest);
      assert items == [items[0]] + items[1..];
    }
  }
}
