/**
  The Adler-32 checksum (sections 8.2 and 9 of RFC 1950) and which corruptions it detects.
 */
module Adler32 {
  import opened Bytes

  const MODULUS: int := 65521

  /** The two running sums after the bytes `bs`, reduced at every byte. */
  function Sums(bs: seq<Byte>): (r: (nat, nat))
    ensures r.0 < MODULUS && r.1 < MODULUS
  {
    if bs == [] then (1, 0)
    else
      var before := Sums(bs[..|bs| - 1]);
      var s1 := (before.0 + bs[|bs| - 1]) % MODULUS;
      (s1, (before.1 + s1) % MODULUS)
  }

  function Adler(bs: seq<Byte>): (r: nat)
    ensures r < 0x1_0000_0000
  {
    Sums(bs).1 * 65536 + Sums(bs).0
  }

  // ---- The sums without reduction ----------------------------------------------------------------

  /** One plus all the bytes. */
  ghost function Plain(bs: seq<Byte>): int {
    if bs == [] then 1 else Plain(bs[..|bs| - 1]) + bs[|bs| - 1]
  }

  /** All the partial sums: each byte counts once for itself and once for every later one. */
  ghost function Weighted(bs: seq<Byte>): int {
    if bs == [] then 0 else Weighted(bs[..|bs| - 1]) + Plain(bs)
  }

  lemma AddReduced(a: int, x: int)
    ensures (a % MODULUS + x) % MODULUS == (a + x) % MODULUS
  {
  }

  lemma PlainLast(bs: seq<Byte>)
    requires bs != []
    ensures Plain(bs) == Plain(bs[..|bs| - 1]) + bs[|bs| - 1]
    ensures Weighted(bs) == Weighted(bs[..|bs| - 1]) + Plain(bs)
  {
  }

  lemma {:induction false} SumsReduce(bs: seq<Byte>)
    ensures Sums(bs) == (Plain(bs) % MODULUS, Weighted(bs) % MODULUS)
  {
    if bs == [] {
    } else {
      hide Weighted, Plain;
      var init, last := bs[..|bs| - 1], bs[|bs| - 1];
      SumsReduce(init);
      AddReduced(Plain(init), last);
      AddReduced(Weighted(init), (Plain(init) + last) % MODULUS);
      AddReduced(Plain(init) + last, Weighted(init));
      PlainLast(bs);
    }
  }

  // ---- The value of the checksum -------------------------------------------------------------------

  function Total(bs: seq<Byte>): int {
    if bs == [] then 0 else bs[0] + Total(bs[1..])
  }

  /** Each byte times the number of bytes from it to the end. */
  function Ranked(bs: seq<Byte>): int {
    if bs == [] then 0 else |bs| * bs[0] + Ranked(bs[1..])
  }

  lemma {:induction false} FirstByte(bs: seq<Byte>)
    requires bs != []
    ensures Plain(bs) == bs[0] + Plain(bs[1..])
    ensures Weighted(bs) == |bs| * bs[0] + 1 + Weighted(bs[1..])
    decreases |bs|
  {
    var n := |bs| - 1;
    var init := bs[..n];
    if n == 0 {
      assert init == [] && bs[1..] == [];
    } else {
      FirstByte(init);
      assert bs[1..][..n - 1] == init[1..];
      assert n * bs[0] + bs[0] == (n + 1) * bs[0];
    }
  }

  lemma {:induction false} ClosedForm(bs: seq<Byte>)
    ensures Plain(bs) == 1 + Total(bs) && Weighted(bs) == |bs| + Ranked(bs)
  {
    hide Plain, Weighted;
    if bs == [] {
      NoBytes();
    } else {
      FirstByte(bs);
      ClosedForm(bs[1..]);
    }
  }

  lemma NoBytes()
    ensures Plain([]) == 1 && Weighted([]) == 0
  {
  }

  /** Section 8.2 of RFC 1950: the low half is one plus all bytes, the high half the sum of its partial values. */
  lemma AdlerValue(bs: seq<Byte>)
    ensures Adler(bs) % 0x1_0000 == (1 + Total(bs)) % 65521
    ensures Adler(bs) / 0x1_0000 == (|bs| + Ranked(bs)) % 65521
  {
    hide Sums;
    SumsReduce(bs);
    ClosedForm(bs);
    Halves(Sums(bs).1, Sums(bs).0);
  }

  lemma Halves(high: nat, low: nat)
    requires low < 0x1_0000
    ensures (high * 65536 + low) % 0x1_0000 == low && (high * 65536 + low) / 0x1_0000 == high
  {
  }

  /** Changing the byte at i changes the plain sum once and the weighted one |bs| - i times. */
  lemma {:induction false} ChangeByte(bs: seq<Byte>, i: nat, y: Byte)
    requires i < |bs|
    ensures Plain(bs[i := y]) == Plain(bs) + (y - bs[i])
    ensures Weighted(bs[i := y]) == Weighted(bs) + (|bs| - i) * (y - bs[i])
  {
    var n := |bs| - 1;
    var init, changed := bs[..n], bs[i := y];
    if i == n {
      assert changed[..n] == init;
    } else {
      assert changed[..n] == init[i := y];
      ChangeByte(init, i, y);
      assert (n - i) * (y - bs[i]) + (y - bs[i]) == (n + 1 - i) * (y - bs[i]);
    }
  }

  lemma SameResidue(a: int, d: int)
    ensures (a + d) % MODULUS == a % MODULUS <==> d % MODULUS == 0
  {
  }

  /** Equal checksums are equal pairs of sums. */
  lemma AdlerSplits(xs: seq<Byte>, ys: seq<Byte>)
    ensures Adler(xs) == Adler(ys) <==> Sums(xs) == Sums(ys)
  {
    hide Sums;
    var (a1, a2) := Sums(xs);
    var (b1, b2) := Sums(ys);
    if Adler(xs) == Adler(ys) {
      assert 65536 * (a2 - b2) == b1 - a1;
    }
  }

  // ---- 65521 is prime ------------------------------------------------------------------------------

  /** Its square root is below 256, so this is primality. */
  lemma NoSmallDivisor(a: int)
    requires 1 < a < 256
    ensures MODULUS % a != 0
  {
  }

  /** A factor below 256 cannot make a multiple of the modulus out of a non-multiple. */
  lemma {:induction false} ProductNotMultiple(a: nat, b: int)
    requires 1 <= a < 256 && b % MODULUS != 0
    ensures (a * b) % MODULUS != 0
    decreases a
  {
    if a == 1 {
    } else {
      var q, r := MODULUS / a, MODULUS % a;
      NoSmallDivisor(a);
      ProductNotMultiple(r, b);
      if (a * b) % MODULUS == 0 {
        var k := (a * b) / MODULUS;
        calc {
          r * b;
          (MODULUS - a * q) * b;
          MODULUS * b - q * (a * b);
          MODULUS * b - q * (MODULUS * k);
          MODULUS * (b - q * k);
        }
        MultipleOfModulus(b - q * k);
      }
    }
  }

  lemma MultipleOfModulus(k: int)
    ensures (MODULUS * k) % MODULUS == 0
  {
  }

  // ---- Detection -------------------------------------------------------------------------------------

  /** Any change of one byte changes the checksum. */
  lemma ByteChangeDetected(bs: seq<Byte>, i: nat, y: Byte)
    requires i < |bs| && y != bs[i]
    ensures Adler(bs[i := y]) != Adler(bs)
  {
    hide Adler, Sums, Plain, Weighted;
    ChangeByte(bs, i, y);
    SumsReduce(bs);
    SumsReduce(bs[i := y]);
    SameResidue(Plain(bs), y - bs[i]);
    AdlerSplits(bs[i := y], bs);
  }

  ghost function Swapped(bs: seq<Byte>, i: nat, j: nat): seq<Byte>
    requires i < j < |bs|
  {
    bs[i := bs[j]][j := bs[i]]
  }

  lemma SwapBytes(bs: seq<Byte>, i: nat, j: nat)
    requires i < j < |bs|
    ensures Plain(Swapped(bs, i, j)) == Plain(bs)
    ensures Weighted(Swapped(bs, i, j)) == Weighted(bs) + (j - i) * (bs[j] as int - bs[i])
  {
    hide Plain, Weighted;
    ChangeByte(bs, i, bs[j]);
    ChangeByte(bs[i := bs[j]], j, bs[i]);
    var n, d: int := |bs|, bs[j] as int - bs[i];
    assert (n - i) * d + (n - j) * (0 - d) == (j - i) * d;
  }

  /** Transposing two unequal bytes goes unnoticed only at a distance that 65521 divides. */
  lemma SwapDetected(bs: seq<Byte>, i: nat, j: nat)
    requires i < j < |bs| && bs[i] != bs[j]
    ensures Adler(Swapped(bs, i, j)) == Adler(bs) <==> (j - i) % MODULUS == 0
  {
    hide Adler, Sums, Plain, Weighted;
    var d: int, t := bs[j] as int - bs[i], j - i;
    SwapBytes(bs, i, j);
    SumsReduce(bs);
    SumsReduce(Swapped(bs, i, j));
    AdlerSplits(Swapped(bs, i, j), bs);
    SameResidue(Weighted(bs), t * d);
    DifferenceDividesNot(t, d);
  }

  /** The difference of two bytes makes no multiple of the modulus. */
  lemma DifferenceDividesNot(t: nat, d: int)
    requires d != 0 && -256 < d < 256
    ensures (t * d) % MODULUS == 0 <==> t % MODULUS == 0
  {
    if t % MODULUS != 0 {
      if d > 0 {
        ProductNotMultiple(d, t);
      } else {
        ProductNotMultiple(-d, t);
        assert t * d == -((-d) * t);
        NegatedMultiple(t * d);
      }
    } else {
      var k := t / MODULUS;
      assert t * d == MODULUS * (k * d);
      MultipleOfModulus(k * d);
    }
  }

  lemma NegatedMultiple(x: int)
    ensures x % MODULUS == 0 <==> (-x) % MODULUS == 0
  {
  }
}
