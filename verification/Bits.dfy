/** Binary expansions of natural numbers.

    The host code is JavaScript: its `number` bit operators (on values well below 2^31) and its
    `bigint` operators act on the binary expansion of a non-negative integer. This module gives
    those operators as functions on `nat`, and the lemmas that let everything else reason about
    one bit at a time.
*/
module Bits {

  /** Bit `i` of `n`, least significant first. */
  function Bit(n: nat, i: nat): bool {
    if i == 0 then n % 2 == 1 else Bit(n / 2, i - 1)
  }

  function Pow2(k: nat): (p: nat)
    ensures p > 0
  {
    if k == 0 then 1 else 2 * Pow2(k - 1)
  }

  /** The powers the field widths of the wire formats need. */
  lemma SomePowers()
    ensures Pow2(8) == 0x100 && Pow2(16) == 0x1_0000 && Pow2(17) == 0x2_0000
    ensures forall n: nat :: Shl(n, 16) == 0x1_0000 * n
  {
    assert Pow2(8) == 0x100;
    assert Pow2(12) == 0x1000;
    assert Pow2(16) == 0x1_0000;
    forall n: nat ensures Shl(n, 16) == 0x1_0000 * n {
      ShlIsScale(n, 16);
    }
  }

  datatype Op = XorOp | OrOp | AndOp {
    function Apply(x: bool, y: bool): bool {
      match this
      case XorOp => x != y
      case OrOp => x || y
      case AndOp => x && y
    }
  }

  /** The bitwise operators `^`, `|` and `&`. */
  function Zip(op: Op, a: nat, b: nat): nat
    decreases a + b
  {
    if a == 0 && b == 0 then 0
    else 2 * Zip(op, a / 2, b / 2) + if op.Apply(a % 2 == 1, b % 2 == 1) then 1 else 0
  }

  function Xor(a: nat, b: nat): nat { Zip(XorOp, a, b) }

  function Or(a: nat, b: nat): nat { Zip(OrOp, a, b) }

  function And(a: nat, b: nat): nat { Zip(AndOp, a, b) }

  /** The operator `n << k`. */
  function Shl(n: nat, k: nat): nat {
    if k == 0 then n else 2 * Shl(n, k - 1)
  }

  /** The operator `n >> k`. */
  function Shr(n: nat, k: nat): nat {
    if k == 0 then n else Shr(n / 2, k - 1)
  }

  /** The low `k` bits of `n`: what conversion to a `k`-bit unsigned integer keeps. */
  function Low(n: nat, k: nat): nat {
    if k == 0 then 0 else 2 * Low(n / 2, k - 1) + n % 2
  }

  lemma {:induction false} ZipBit(op: Op, a: nat, b: nat, i: nat)
    ensures Bit(Zip(op, a, b), i) == op.Apply(Bit(a, i), Bit(b, i))
    decreases i
  {
    if a == 0 && b == 0 {
      ZeroBit(i);
    } else {
      var z, bit := Zip(op, a / 2, b / 2), op.Apply(a % 2 == 1, b % 2 == 1);
      HalfOfSum(z, bit);
      assert Zip(op, a, b) == 2 * z + if bit then 1 else 0;
      if i > 0 { ZipBit(op, a / 2, b / 2, i - 1); }
    }
  }

  lemma HalfOfSum(z: nat, bit: bool)
    ensures var n := 2 * z + if bit then 1 else 0; n / 2 == z && (n % 2 == 1 <==> bit)
  {
  }

  lemma {:induction false} ZeroBit(i: nat)
    ensures !Bit(0, i)
  {
    if i > 0 { ZeroBit(i - 1); }
  }

  /** A natural number is determined by its bits. */
  lemma {:induction false} SameBits(a: nat, b: nat)
    requires forall i: nat :: Bit(a, i) == Bit(b, i)
    ensures a == b
    decreases a + b
  {
    assert Bit(a, 0) == Bit(b, 0);
    if a + b > 0 {
      forall i: nat ensures Bit(a / 2, i) == Bit(b / 2, i) {
        assert Bit(a, i + 1) == Bit(b, i + 1);
      }
      SameBits(a / 2, b / 2);
    }
  }

  lemma {:induction false} ShlBit(n: nat, k: nat, i: nat)
    ensures Bit(Shl(n, k), i) == (i >= k && Bit(n, i - k))
    decreases k
  {
    if k > 0 && i > 0 {
      assert Shl(n, k) / 2 == Shl(n, k - 1);
      ShlBit(n, k - 1, i - 1);
    }
  }

  lemma {:induction false} ShrBit(n: nat, k: nat, i: nat)
    ensures Bit(Shr(n, k), i) == Bit(n, i + k)
    decreases k
  {
    if k > 0 { ShrBit(n / 2, k - 1, i); }
  }

  lemma {:induction false} LowBit(n: nat, k: nat, i: nat)
    ensures Bit(Low(n, k), i) == (i < k && Bit(n, i))
    decreases k
  {
    if k == 0 {
      ZeroBit(i);
    } else if i > 0 {
      LowBit(n / 2, k - 1, i - 1);
    }
  }

  lemma {:induction false} ShlIsScale(n: nat, k: nat)
    ensures Shl(n, k) == n * Pow2(k)
  {
    if k > 0 { ShlIsScale(n, k - 1); }
  }

  lemma {:induction false} ShlAdd(n: nat, j: nat, k: nat)
    ensures Shl(Shl(n, j), k) == Shl(n, j + k)
  {
    if k > 0 { ShlAdd(n, j, k - 1); }
  }

  /** Numbers below 2^k are exactly those without a bit at or above `k`. */
  lemma {:induction false} SmallHasNoHighBit(n: nat, k: nat, i: nat)
    requires n < Pow2(k) && i >= k
    ensures !Bit(n, i)
    decreases i
  {
    if i == 0 {
    } else if k == 0 {
      ZeroBit(i);
    } else {
      SmallHasNoHighBit(n / 2, k - 1, i - 1);
    }
  }

  lemma {:induction false} NoHighBitIsSmall(n: nat, k: nat)
    requires forall i: nat :: i >= k ==> !Bit(n, i)
    ensures n < Pow2(k)
    decreases n, k
  {
    if n > 0 {
      assert k == 0 ==> !Bit(n, 0);
      forall i: nat | i >= (if k == 0 then 0 else k - 1) ensures !Bit(n / 2, i) {
        assert !Bit(n, i + 1);
      }
      NoHighBitIsSmall(n / 2, if k == 0 then 0 else k - 1);
    }
  }

  lemma ZipBelow(op: Op, a: nat, b: nat, k: nat)
    requires a < Pow2(k) && b < Pow2(k)
    ensures Zip(op, a, b) < Pow2(k)
  {
    forall i: nat | i >= k ensures !Bit(Zip(op, a, b), i) {
      ZipBit(op, a, b, i);
      SmallHasNoHighBit(a, k, i);
      SmallHasNoHighBit(b, k, i);
    }
    NoHighBitIsSmall(Zip(op, a, b), k);
  }

  /** `2^k` put on top of a number below `2^k` adds bit `k` and nothing else. */
  lemma {:induction false} TopBit(n: nat, k: nat, i: nat)
    requires n < Pow2(k)
    ensures Bit(n + Pow2(k), i) == (i == k || Bit(n, i))
    decreases i
  {
    if k == 0 {
      if i > 0 { ZeroBit(i - 1); }
    } else if i > 0 {
      assert (n + Pow2(k)) / 2 == n / 2 + Pow2(k - 1);
      TopBit(n / 2, k - 1, i - 1);
    }
  }

  lemma PowBit(k: nat, i: nat)
    ensures Bit(Pow2(k), i) == (i == k)
  {
    TopBit(0, k, i);
    ZeroBit(i);
  }

  /** `2^k - 1` is the mask of the low `k` bits. */
  lemma {:induction false} OnesBit(k: nat, i: nat)
    ensures Bit(Pow2(k) - 1, i) == (i < k)
    decreases i
  {
    if k == 0 {
      ZeroBit(i);
    } else if i > 0 {
      assert (Pow2(k) - 1) / 2 == Pow2(k - 1) - 1;
      OnesBit(k - 1, i - 1);
    }
  }

  /** `n & 2^k` tests bit `k`. */
  lemma MaskOneBit(n: nat, k: nat)
    ensures And(n, Pow2(k)) == if Bit(n, k) then Pow2(k) else 0
  {
    var m := if Bit(n, k) then Pow2(k) else 0;
    forall i: nat ensures Bit(And(n, Pow2(k)), i) == Bit(m, i) {
      ZipBit(AndOp, n, Pow2(k), i);
      PowBit(k, i);
      ZeroBit(i);
    }
    SameBits(And(n, Pow2(k)), m);
  }

  // Exclusive or is addition of polynomials over GF(2): an abelian group of exponent two.

  lemma XorZero(a: nat)
    ensures Xor(a, 0) == a && Xor(0, a) == a
  {
    forall i: nat ensures Bit(Xor(a, 0), i) == Bit(a, i) && Bit(Xor(0, a), i) == Bit(a, i) {
      ZipBit(XorOp, a, 0, i);
      ZipBit(XorOp, 0, a, i);
      ZeroBit(i);
    }
    SameBits(Xor(a, 0), a);
    SameBits(Xor(0, a), a);
  }

  lemma XorSelf(a: nat)
    ensures Xor(a, a) == 0
  {
    forall i: nat ensures Bit(Xor(a, a), i) == Bit(0, i) {
      ZipBit(XorOp, a, a, i);
      ZeroBit(i);
    }
    SameBits(Xor(a, a), 0);
  }

  lemma XorCommutes(a: nat, b: nat)
    ensures Xor(a, b) == Xor(b, a)
  {
    forall i: nat ensures Bit(Xor(a, b), i) == Bit(Xor(b, a), i) {
      ZipBit(XorOp, a, b, i);
      ZipBit(XorOp, b, a, i);
    }
    SameBits(Xor(a, b), Xor(b, a));
  }

  lemma XorAssociates(a: nat, b: nat, c: nat)
    ensures Xor(Xor(a, b), c) == Xor(a, Xor(b, c))
  {
    forall i: nat ensures Bit(Xor(Xor(a, b), c), i) == Bit(Xor(a, Xor(b, c)), i) {
      ZipBit(XorOp, Xor(a, b), c, i);
      ZipBit(XorOp, a, b, i);
      ZipBit(XorOp, a, Xor(b, c), i);
      ZipBit(XorOp, b, c, i);
    }
    SameBits(Xor(Xor(a, b), c), Xor(a, Xor(b, c)));
  }

  /** `(a ^ b) ^ (c ^ d) == (a ^ c) ^ (b ^ d)`. */
  lemma XorExchange(a: nat, b: nat, c: nat, d: nat)
    ensures Xor(Xor(a, b), Xor(c, d)) == Xor(Xor(a, c), Xor(b, d))
  {
    XorAssociates(a, b, Xor(c, d));
    XorAssociates(b, c, d);
    XorCommutes(b, c);
    XorAssociates(c, b, d);
    XorAssociates(a, c, Xor(b, d));
  }

  lemma XorZeroIsEqual(a: nat, b: nat)
    requires Xor(a, b) == 0
    ensures a == b
  {
    XorCancels(a, b);
    XorZero(b);
  }

  lemma XorCancels(a: nat, b: nat)
    ensures Xor(Xor(a, b), b) == a
  {
    XorAssociates(a, b, b);
    XorSelf(b);
    XorZero(a);
  }

  /** Adding numbers without a common bit is exclusive or. */
  lemma {:induction false} XorDisjoint(n: nat, k: nat, low: nat)
    requires low < Pow2(k)
    ensures Xor(Shl(n, k), low) == Shl(n, k) + low
    decreases k
  {
    if k == 0 {
      XorZero(n);
    } else {
      XorDisjoint(n, k - 1, low / 2);
    }
  }

  lemma {:induction false} XorShl(a: nat, b: nat, k: nat)
    ensures Xor(Shl(a, k), Shl(b, k)) == Shl(Xor(a, b), k)
  {
    if k > 0 { XorShl(a, b, k - 1); }
  }
}
