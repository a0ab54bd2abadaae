/** CRC-16/XMODEM: the bit loop of src/frame/Crc16Xmodem.ts, and what it computes.

    A polynomial over GF(2) is the natural number whose bit i is its coefficient of x^i, so
    addition is `Xor` and multiplication by x^k is `Shl`. The checksum of a message with
    polynomial M is the remainder of M * x^16 divided by x^16 + x^12 + x^5 + 1.
*/
module Crc16Xmodem {
  import opened Bits
  import opened Bytes

  /** x^16 + x^12 + x^5 + 1 */
  const GENERATOR: nat := 0x1_1021

  /** One turn of the inner loop. */
  function Step(crc: nat): (r: nat)
    requires crc < 0x1_0000
    ensures r < 0x1_0000
  {
    (if crc / 0x8000 % 2 == 1 then Xor(2 * crc, 0x1021) else 2 * crc) % 0x1_0000
  }

  function Steps(crc: nat, n: nat): (r: nat)
    requires crc < 0x1_0000
    ensures r < 0x1_0000
  {
    if n == 0 then crc else Step(Steps(crc, n - 1))
  }

  function Feed(crc: nat, b: byte): (r: nat)
    requires crc < 0x1_0000
    ensures r < 0x1_0000
  {
    XorBelow16(crc, 256 * b as nat);
    Xor(crc, 256 * b as nat)
  }

  /** The checksum, byte by byte. */
  function Crc(data: Bytes): (r: nat)
    ensures r < 0x1_0000
  {
    if data == [] then 0
    else Steps(Feed(Crc(data[..|data| - 1]), data[|data| - 1]), 8)
  }

  /** `crc16Xmodem`. */
  method Compute(data: Bytes) returns (crc: nat)
    ensures crc == Crc(data)
  {
    crc := 0;
    for i := 0 to |data|
      invariant crc == Crc(data[..i])
    {
      crc := Feed(crc, data[i]);
      ghost var start := crc;
      for bit := 0 to 8
        invariant crc < 0x1_0000 && crc == Steps(start, bit)
      {
        if crc / 0x8000 % 2 == 1 {
          crc := Xor(2 * crc, 0x1021);
        } else {
          crc := 2 * crc;
        }
        crc := crc % 0x1_0000;
      }
      assert data[..i + 1][..i] == data[..i];
    }
    assert data[..|data|] == data;
  }

  /** Polynomial multiplication over GF(2). */
  ghost function Times(q: nat, g: nat): nat {
    if q == 0 then 0 else Xor(2 * Times(q / 2, g), if q % 2 == 1 then g else 0)
  }

  /** `p = q * GENERATOR + r` for some quotient, with `r` of degree below 16. */
  ghost predicate IsRemainder(p: nat, r: nat) {
    r < 0x1_0000 && exists q: nat :: p == Xor(Times(q, GENERATOR), r)
  }

  /** The message as a polynomial, first bit sent leading. */
  ghost function Value(data: Bytes): nat {
    if data == [] then 0 else 256 * Value(data[..|data| - 1]) + data[|data| - 1] as nat
  }

  // ---------- the checksum is the remainder ----------

  lemma XorBelow16(a: nat, b: nat)
    requires a < 0x1_0000 && b < 0x1_0000
    ensures Xor(a, b) < 0x1_0000
  {
    SomePowers();
    ZipBelow(XorOp, a, b, 16);
  }

  lemma XorWithTopBit(top: nat, low: nat, c: nat)
    requires top == 0x1_0000 && low < top && c < top
    ensures Xor(low, c) < top
    ensures Xor(top + low, c) == top + Xor(low, c)
    ensures Xor(top + low, top + c) == Xor(low, c)
  {
    SomePowers();
    assert Shl(1, 16) == top;
    XorBelow16(low, c);
    XorDisjoint(1, 16, low);
    XorDisjoint(1, 16, c);
    XorDisjoint(1, 16, Xor(low, c));
    XorAssociates(top, low, c);
    XorExchange(top, low, top, c);
    XorSelf(top);
    XorZero(Xor(low, c));
  }

  lemma TopBitTest(r: nat)
    requires r < 0x1_0000
    ensures r / 0x8000 % 2 == 1 <==> r >= 0x8000
    ensures r < 0x8000 ==> 2 * r % 0x1_0000 == 2 * r
  {
  }

  /** The test of the top bit and the mask, out of the way. */
  lemma StepByTopBit(r: nat)
    requires r < 0x1_0000
    ensures Step(r) == if r >= 0x8000 then Xor(2 * r, 0x1021) % 0x1_0000 else 2 * r
  {
    TopBitTest(r);
  }

  lemma DropTopBit(x: nat)
    requires x < 0x1_0000
    ensures (0x1_0000 + x) % 0x1_0000 == x
  {
  }

  /** Masking to 16 bits after adding 0x1021 is adding the whole generator. */
  lemma MaskedTaps(low: nat)
    requires low < 0x1_0000
    ensures Xor(0x1_0000 + low, 0x1021) % 0x1_0000 == Xor(0x1_0000 + low, GENERATOR)
  {
    XorWithTopBit(0x1_0000, low, 0x1021);
    DropTopBit(Xor(low, 0x1021));
  }

  lemma StepReduces(r: nat)
    requires r < 0x1_0000
    ensures Step(r) == if r >= 0x8000 then Xor(2 * r, GENERATOR) else 2 * r
  {
    StepByTopBit(r);
    if r >= 0x8000 { MaskedTaps(2 * r - 0x1_0000); }
  }

  lemma TimesUnfolds(q: nat, half: nat, odd: bool)
    requires q == 2 * half + if odd then 1 else 0
    ensures Times(q, GENERATOR) == Xor(2 * Times(half, GENERATOR), if odd then GENERATOR else 0)
  {
    if q == 0 {
      XorZero(0);
    } else {
      assert q / 2 == half && (q % 2 == 1 <==> odd);
    }
  }

  lemma TimesDoubles(q: nat)
    ensures Times(2 * q, GENERATOR) == 2 * Times(q, GENERATOR)
    ensures Times(2 * q + 1, GENERATOR) == Xor(2 * Times(q, GENERATOR), GENERATOR)
  {
    TimesUnfolds(2 * q, q, false);
    TimesUnfolds(2 * q + 1, q, true);
    XorZero(2 * Times(q, GENERATOR));
  }

  lemma XorDoubles(a: nat, b: nat)
    ensures 2 * Xor(a, b) == Xor(2 * a, 2 * b)
  {
  }

  /** A term added on both sides cancels. */
  lemma XorBothSides(a: nat, b: nat, c: nat)
    ensures Xor(Xor(a, c), Xor(b, c)) == Xor(a, b)
  {
    XorExchange(a, c, b, c);
    XorSelf(c);
    XorZero(Xor(a, b));
  }

  lemma StepKeepsRemainder(p: nat, r: nat)
    requires IsRemainder(p, r)
    ensures IsRemainder(2 * p, Step(r))
  {
    var q: nat :| p == Xor(Times(q, GENERATOR), r);
    var m := Times(q, GENERATOR);
    StepReduces(r);
    TimesDoubles(q);
    XorDoubles(m, r);
    if r >= 0x8000 {
      XorBothSides(2 * m, 2 * r, GENERATOR);
      assert 2 * p == Xor(Times(2 * q + 1, GENERATOR), Step(r));
    } else {
      assert 2 * p == Xor(Times(2 * q, GENERATOR), Step(r));
    }
  }

  lemma {:induction false} StepsKeepRemainder(p: nat, r: nat, n: nat)
    requires IsRemainder(p, r)
    ensures IsRemainder(Shl(p, n), Steps(r, n))
  {
    if n > 0 {
      StepsKeepRemainder(p, r, n - 1);
      StepKeepsRemainder(Shl(p, n - 1), Steps(r, n - 1));
    }
  }

  lemma AddKeepsRemainder(p: nat, r: nat, x: nat)
    requires IsRemainder(p, r) && x < 0x1_0000
    ensures IsRemainder(Xor(p, x), Xor(r, x))
  {
    var q: nat :| p == Xor(Times(q, GENERATOR), r);
    XorAssociates(Times(q, GENERATOR), r, x);
    XorBelow16(r, x);
    assert Xor(p, x) == Xor(Times(q, GENERATOR), Xor(r, x));
  }

  /** The loop computes the remainder of the message times x^16. */
  lemma {:induction false} CrcIsRemainder(data: Bytes)
    ensures IsRemainder(Shl(Value(data), 16), Crc(data))
  {
    if data == [] {
      XorZero(0);
      ShlIsScale(0, 16);
      assert 0 == Xor(Times(0, GENERATOR), 0);
    } else {
      var init, b := data[..|data| - 1], data[|data| - 1];
      CrcIsRemainder(init);
      AddKeepsRemainder(Shl(Value(init), 16), Crc(init), 256 * b as nat);
      StepsKeepRemainder(Xor(Shl(Value(init), 16), 256 * b as nat), Feed(Crc(init), b), 8);
      AppendByte(Value(init), b);
    }
  }

  lemma AppendByte(n: nat, b: byte)
    ensures Shl(Xor(Shl(n, 16), 256 * b as nat), 8) == Shl(256 * n + b as nat, 16)
  {
    SomePowers();
    ShlIsScale(b as nat, 8);
    ShlIsScale(n, 8);
    ShlAdd(n, 8, 8);
    XorShl(Shl(n, 8), b as nat, 8);
    XorDisjoint(n, 8, b as nat);
    ShlAdd(256 * n + b as nat, 8, 8);
  }

  /** The generator is x^16 + x^12 + x^5 + 1. */
  lemma GeneratorTerms(i: nat)
    ensures Bit(GENERATOR, i) <==> i == 0 || i == 5 || i == 12 || i == 16
  {
    SomePowers();
    if i > 16 { SmallHasNoHighBit(GENERATOR, 17, i); }
    assert Bit(0x1_1021, 0) && !Bit(0x1_1021, 1) && !Bit(0x1_1021, 2) && !Bit(0x1_1021, 3) && !Bit(0x1_1021, 4);
    assert Bit(0x1_1021, 5) && !Bit(0x1_1021, 6) && !Bit(0x1_1021, 7);
    if i >= 8 {
      assert Shr(0x1_1021, 8) == 0x110;
      ShrBit(0x1_1021, 8, i - 8);
      assert !Bit(0x110, 0) && !Bit(0x110, 1) && !Bit(0x110, 2) && !Bit(0x110, 3) && Bit(0x110, 4);
      assert !Bit(0x110, 5) && !Bit(0x110, 6) && !Bit(0x110, 7) && Bit(0x110, 8);
    }
  }

  /** The checksum starts at zero, and the last bit of a message counts as x^16. */
  lemma CrcOfOne()
    ensures Crc([]) == 0 && Crc([0, 1]) == 0x1021
  {
    CrcIsRemainder([0, 1]);
    assert [0, 1][..1] == [0] && [0][..0] == [];
    assert Value([]) == 0 && Value([0]) == 0 && Value([0, 1]) == 1;
    SomePowers();
    assert Shl(1, 16) == 0x1_0000;
    XorZero(GENERATOR);
    assert Times(1, GENERATOR) == GENERATOR by { assert Times(0, GENERATOR) == 0; }
    XorWithTopBit(0x1_0000, 0x1021, 0x1021);
    XorSelf(0x1021);
    assert 0x1_0000 == Xor(Times(1, GENERATOR), 0x1021);
    RemainderIsUnique(0x1_0000, Crc([0, 1]), 0x1021);
  }

  // ---------- remainders are unique, and add ----------

  lemma {:induction false} TimesAdds(a: nat, b: nat, g: nat)
    ensures Times(Xor(a, b), g) == Xor(Times(a, g), Times(b, g))
    decreases a + b
  {
    if a == 0 {
      XorZero(b);
      XorZero(Times(b, g));
    } else if b == 0 {
      XorZero(a);
      XorZero(Times(a, g));
    } else {
      TimesAdds(a / 2, b / 2, g);
      var ta, tb := Times(a / 2, g), Times(b / 2, g);
      var ga, gb := if a % 2 == 1 then g else 0, if b % 2 == 1 then g else 0;
      XorExchange(2 * ta, ga, 2 * tb, gb);
      assert Xor(2 * ta, 2 * tb) == 2 * Xor(ta, tb);
      XorSelf(g);
      XorZero(g);
      assert Xor(a, b) / 2 == Xor(a / 2, b / 2);
      XorSelf(0);
      if Xor(a, b) == 0 {
        XorZero(0);
        assert Times(0, g) == 0;
      }
    }
  }

  /** A non-zero multiple of the generator has degree at least 16. */
  lemma {:induction false} TimesIsLarge(q: nat)
    requires q > 0
    ensures Times(q, GENERATOR) >= 0x1_0000
  {
    if q == 1 {
      XorZero(GENERATOR);
    } else {
      TimesIsLarge(q / 2);
      var m := 2 * Times(q / 2, GENERATOR);
      var g := if q % 2 == 1 then GENERATOR else 0;
      SomePowers();
      if Xor(m, g) < Pow2(17) {
        ZipBelow(XorOp, Xor(m, g), g, 17);
        XorCancels(m, g);
      }
    }
  }

  lemma RemainderIsUnique(p: nat, r: nat, s: nat)
    requires IsRemainder(p, r) && IsRemainder(p, s)
    ensures r == s
  {
    var q: nat :| p == Xor(Times(q, GENERATOR), r);
    var t: nat :| p == Xor(Times(t, GENERATOR), s);
    XorExchange(Times(q, GENERATOR), r, Times(t, GENERATOR), s);
    XorSelf(p);
    TimesAdds(q, t, GENERATOR);
    XorZeroIsEqual(Times(Xor(q, t), GENERATOR), Xor(r, s));
    XorBelow16(r, s);
    if Xor(q, t) > 0 { TimesIsLarge(Xor(q, t)); }
    XorZeroIsEqual(r, s);
  }

  lemma RemaindersAdd(p: nat, r: nat, p': nat, r': nat)
    requires IsRemainder(p, r) && IsRemainder(p', r')
    ensures IsRemainder(Xor(p, p'), Xor(r, r'))
  {
    var q: nat :| p == Xor(Times(q, GENERATOR), r);
    var q': nat :| p' == Xor(Times(q', GENERATOR), r');
    XorExchange(Times(q, GENERATOR), r, Times(q', GENERATOR), r');
    TimesAdds(q, q', GENERATOR);
    XorBelow16(r, r');
    assert Xor(p, p') == Xor(Times(Xor(q, q'), GENERATOR), Xor(r, r'));
  }

  lemma {:induction false} ValueAdds(a: Bytes, b: Bytes)
    requires |a| == |b|
    ensures Value(XorBytes(a, b)) == Xor(Value(a), Value(b))
  {
    if a == [] {
      XorZero(0);
    } else {
      var n := |a| - 1;
      ValueAdds(a[..n], b[..n]);
      assert XorBytes(a, b)[..n] == XorBytes(a[..n], b[..n]);
      var x, y, z := Value(a[..n]), Value(b[..n]), XorBytes(a, b)[n] as nat;
      SomePowers();
      ShlIsScale(x, 8);
      ShlIsScale(y, 8);
      ShlIsScale(Xor(x, y), 8);
      XorDisjoint(x, 8, a[n] as nat);
      XorDisjoint(y, 8, b[n] as nat);
      XorExchange(Shl(x, 8), a[n] as nat, Shl(y, 8), b[n] as nat);
      XorShl(x, y, 8);
      XorDisjoint(Xor(x, y), 8, z);
    }
  }

  /** The checksum is linear over GF(2) on messages of equal length. */
  lemma CrcIsLinear(a: Bytes, b: Bytes)
    requires |a| == |b|
    ensures Crc(XorBytes(a, b)) == Xor(Crc(a), Crc(b))
  {
    CrcIsRemainder(a);
    CrcIsRemainder(b);
    CrcIsRemainder(XorBytes(a, b));
    ValueAdds(a, b);
    XorShl(Value(a), Value(b), 16);
    RemaindersAdd(Shl(Value(a), 16), Crc(a), Shl(Value(b), 16), Crc(b));
    RemainderIsUnique(Shl(Value(XorBytes(a, b)), 16), Crc(XorBytes(a, b)), Xor(Crc(a), Crc(b)));
  }

  // ---------- bursts ----------

  /** Bit `j` of a message in the order of transmission: bytes in order, high bit first. */
  function MessageBit(data: Bytes, j: nat): bool
    requires j < 8 * |data|
  {
    Bit(data[j / 8] as nat, 7 - j % 8)
  }

  lemma {:induction false} ValueBit(data: Bytes, i: nat)
    ensures Bit(Value(data), i) == (i < 8 * |data| && MessageBit(data, 8 * |data| - 1 - i))
  {
    if data == [] {
      ZeroBit(i);
    } else {
      var n := |data| - 1;
      LastByteBits(data, i);
      if i >= 8 {
        ValueBit(data[..n], i - 8);
        assert i < 8 * |data| ==> 8 * |data| - 1 - i == 8 * n - 1 - (i - 8);
      } else {
        assert 8 * |data| - 1 - i == 8 * n + (7 - i);
      }
    }
  }

  lemma LastByteBits(data: Bytes, i: nat)
    requires data != []
    ensures var n := |data| - 1;
      Bit(Value(data), i) == if i < 8 then Bit(data[n] as nat, i) else Bit(Value(data[..n]), i - 8)
  {
    var n := |data| - 1;
    var v, b := Value(data[..n]), data[n] as nat;
    SomePowers();
    ShlIsScale(v, 8);
    XorDisjoint(v, 8, b);
    ZipBit(XorOp, Shl(v, 8), b, i);
    ShlBit(v, 8, i);
    if i >= 8 { SmallHasNoHighBit(b, 8, i); }
  }

  lemma {:induction false} StepsOfNonZero(r: nat, n: nat)
    requires 0 < r < 0x1_0000
    ensures Steps(r, n) > 0
  {
    if n > 0 {
      StepsOfNonZero(r, n - 1);
      var t := Steps(r, n - 1);
      StepReduces(t);
      if t >= 0x8000 && Xor(2 * t, GENERATOR) == 0 { XorZeroIsEqual(2 * t, GENERATOR); }
    }
  }

  /** A polynomial whose terms lie within 16 consecutive degrees is a small one shifted. */
  lemma BurstIsShifted(x: nat, lo: nat) returns (d: nat)
    requires x > 0
    requires forall i: nat :: i < lo || i >= lo + 16 ==> !Bit(x, i)
    ensures x == Shl(d, lo) && 0 < d < 0x1_0000
  {
    d := Shr(x, lo);
    forall i: nat ensures Bit(x, i) == Bit(Shl(d, lo), i) {
      ShlBit(d, lo, i);
      if i >= lo { ShrBit(x, lo, i - lo); }
    }
    SameBits(x, Shl(d, lo));
    forall i: nat | i >= 16 ensures !Bit(d, i) { ShrBit(x, lo, i); }
    NoHighBitIsSmall(d, 16);
    SomePowers();
    ShlIsScale(d, lo);
  }

  /** Such a polynomial is not divisible. */
  lemma BurstHasRemainder(x: nat, lo: nat, r: nat)
    requires x > 0
    requires forall i: nat :: i < lo || i >= lo + 16 ==> !Bit(x, i)
    requires IsRemainder(Shl(x, 16), r)
    ensures r > 0
  {
    var d := BurstIsShifted(x, lo);
    XorZero(d);
    assert d == Xor(Times(0, GENERATOR), d);
    StepsKeepRemainder(d, d, lo + 16);
    ShlAdd(d, lo, 16);
    RemainderIsUnique(Shl(x, 16), r, Steps(d, lo + 16));
    StepsOfNonZero(d, lo + 16);
  }

  /** Two messages of equal length that differ, and differ only within some 16 consecutive
      transmitted bits. */
  ghost predicate DifferInBurst(a: Bytes, b: Bytes, start: int) {
    && |a| == |b|
    && a != b
    && forall j: nat :: j < 8 * |a| && !(start <= j < start + 16) ==> MessageBit(a, j) == MessageBit(b, j)
  }

  /** Every burst of up to 16 bits changes the checksum. */
  lemma BurstIsDetected(a: Bytes, b: Bytes, start: int)
    requires DifferInBurst(a, b, start)
    ensures Crc(a) != Crc(b)
  {
    var x, n := Xor(Value(a), Value(b)), 8 * |a|;
    var lo := if n - start - 16 < 0 then 0 else n - start - 16;
    forall i: nat | i < lo || i >= lo + 16 ensures !Bit(x, i) {
      ZipBit(XorOp, Value(a), Value(b), i);
      ValueBit(a, i);
      ValueBit(b, i);
    }
    if x == 0 {
      XorZeroIsEqual(Value(a), Value(b));
      ValueIsInjective(a, b);
    }
    CrcIsRemainder(a);
    CrcIsRemainder(b);
    XorShl(Value(a), Value(b), 16);
    RemaindersAdd(Shl(Value(a), 16), Crc(a), Shl(Value(b), 16), Crc(b));
    BurstHasRemainder(x, lo, Xor(Crc(a), Crc(b)));
    XorSelf(Crc(a));
  }

  lemma {:induction false} ValueIsInjective(a: Bytes, b: Bytes)
    requires |a| == |b| && Value(a) == Value(b)
    ensures a == b
  {
    if a != [] {
      var n := |a| - 1;
      ValueIsInjective(a[..n], b[..n]);
      assert a == a[..n] + [a[n]] && b == b[..n] + [b[n]];
    }
  }
}
