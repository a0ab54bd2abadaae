/** Bytes, little-endian fields and the sequence facts the byte-level modules share. */
module Bytes {
  import opened Bits

  newtype byte = x: int | 0 <= x < 256

  type Bytes = seq<byte>

  datatype Option<+T> = None | Some(value: T)

  /** The code of an ASCII or Latin-1 character. */
  function Code(c: char): byte
    requires c as int < 256
  {
    c as int as byte
  }

  predicate Latin1(s: string) {
    forall i :: 0 <= i < |s| ==> s[i] as int < 256
  }

  /** `Buffer.from(s, 'ascii')`. */
  function Ascii(s: string): (r: Bytes)
    requires Latin1(s)
    ensures |r| == |s|
    ensures forall i :: 0 <= i < |s| ==> r[i] == Code(s[i])
  {
    seq(|s|, i requires 0 <= i < |s| => Code(s[i]))
  }

  /** The little-endian encoding of `n` in `k` bytes, truncated as an unsigned field is. */
  function LittleEndian(n: nat, k: nat): (r: Bytes)
    ensures |r| == k
  {
    if k == 0 then [] else [(n % 256) as byte] + LittleEndian(n / 256, k - 1)
  }

  function FromLittleEndian(s: Bytes): nat {
    if s == [] then 0 else s[0] as nat + 256 * FromLittleEndian(s[1..])
  }

  function Pow256(k: nat): (p: nat)
    ensures p > 0
  {
    if k == 0 then 1 else 256 * Pow256(k - 1)
  }

  lemma {:induction false} LittleEndianRoundTrip(n: nat, k: nat)
    requires n < Pow256(k)
    ensures FromLittleEndian(LittleEndian(n, k)) == n
  {
    if k > 0 {
      LittleEndianRoundTrip(n / 256, k - 1);
      assert LittleEndian(n, k)[1..] == LittleEndian(n / 256, k - 1);
    }
  }

  /** Byte `i` of a little-endian field is digit `i` to the base 256. */
  lemma {:induction false} LittleEndianDigit(n: nat, k: nat, i: nat)
    requires i < k
    ensures LittleEndian(n, k)[i] as nat == n / Pow256(i) % 256
  {
    if i > 0 {
      LittleEndianDigit(n / 256, k - 1, i - 1);
      DivideTwice(n, Pow256(i - 1));
    }
  }

  lemma DivideTwice(n: nat, p: nat)
    requires p > 0
    ensures n / 256 / p == n / (256 * p)
  {
    var q := n / 256 / p;
    var r := n / 256 - p * q;
    assert n == 256 * p * q + (256 * r + n % 256) by {
      assert 256 * (p * q + r) == 256 * p * q + 256 * r;
    }
    assert 0 <= r < p;
    QuotientIs(n, 256 * p, q, 256 * r + n % 256);
  }

  lemma QuotientIs(n: nat, m: nat, q: nat, r: nat)
    requires m > 0 && n == m * q + r && r < m
    ensures n / m == q && n % m == r
  {
    var d := n / m - q;
    assert m * d == r - n % m by { assert m * d == m * (n / m) - m * q; }
    assert d >= 1 ==> m * d >= m;
    assert d <= -1 ==> m * d <= 0 - m;
  }

  /** The 16-bit and 32-bit fields, byte by byte. */
  lemma LittleEndianFields(n: nat)
    ensures LittleEndian(n, 2) == [(n % 256) as byte, (n / 256 % 256) as byte]
    ensures LittleEndian(n, 4)
         == [(n % 256) as byte, (n / 256 % 256) as byte, (n / 0x1_0000 % 256) as byte, (n / 0x100_0000 % 256) as byte]
  {
    assert Pow256(0) == 1 && Pow256(1) == 256 && Pow256(2) == 0x1_0000 && Pow256(3) == 0x100_0000;
    forall i | 0 <= i < 2 ensures LittleEndian(n, 2)[i] as nat == n / Pow256(i) % 256 { LittleEndianDigit(n, 2, i); }
    forall i | 0 <= i < 4 ensures LittleEndian(n, 4)[i] as nat == n / Pow256(i) % 256 { LittleEndianDigit(n, 4, i); }
  }

  lemma {:induction false} FromLittleEndianBound(s: Bytes)
    ensures FromLittleEndian(s) < Pow256(|s|)
  {
    if s != [] { FromLittleEndianBound(s[1..]); }
  }

  /** Reading a field and writing it back gives the same bytes. */
  lemma {:induction false} FieldRoundTrip(s: Bytes)
    ensures LittleEndian(FromLittleEndian(s), |s|) == s
  {
    if s != [] {
      FieldRoundTrip(s[1..]);
      FirstDigit(s[0], FromLittleEndian(s[1..]));
      assert s == [s[0]] + s[1..];
    }
  }

  lemma FirstDigit(b: byte, n: nat)
    ensures (b as nat + 256 * n) % 256 == b as nat && (b as nat + 256 * n) / 256 == n
  {
  }

  function U16(lo: byte, hi: byte): (n: nat)
    ensures n < 0x1_0000
  {
    lo as nat + 256 * hi as nat
  }

  /** The 32-bit field at `i`. */
  function U32At(s: Bytes, i: nat): nat
    requires i + 4 <= |s|
  {
    s[i] as nat + 256 * s[i + 1] as nat + 0x1_0000 * s[i + 2] as nat + 0x100_0000 * s[i + 3] as nat
  }

  lemma FourByteField(s: Bytes, i: nat)
    requires i + 4 <= |s|
    ensures FromLittleEndian(s[i..i + 4]) == U32At(s, i)
  {
    assert s[i..i + 4][1..] == s[i + 1..i + 4] && s[i + 1..i + 4][1..] == s[i + 2..i + 4];
    assert s[i + 2..i + 4][1..] == [s[i + 3]] && [s[i + 3]][1..] == [];
    assert FromLittleEndian([s[i + 3]]) == s[i + 3] as nat;
    assert FromLittleEndian(s[i + 2..i + 4]) == s[i + 2] as nat + 256 * s[i + 3] as nat;
  }

  lemma FourByteRoundTrip(n: nat)
    ensures U32At(LittleEndian(n, 4), 0) == n % 0x1_0000_0000
  {
    LittleEndianFields(n);
    FourDigits(n, n / 256, n / 0x1_0000, n / 0x100_0000);
  }

  lemma FourDigits(n: nat, a: nat, b: nat, c: nat)
    requires a == n / 256 && b == n / 0x1_0000 && c == n / 0x100_0000
    ensures n % 256 + 256 * (a % 256) + 0x1_0000 * (b % 256) + 0x100_0000 * (c % 256) == n % 0x1_0000_0000
  {
    assert b == a / 256 && c == b / 256 by {
      DivideTwice(n, 256);
      DivideTwice(n, 0x1_0000);
    }
    var d := c / 256;
    assert c == 256 * d + c % 256 && b == 256 * c + b % 256 && a == 256 * b + a % 256 && n == 256 * a + n % 256;
    QuotientIs(n, 0x1_0000_0000, d, n % 256 + 256 * (a % 256) + 0x1_0000 * (b % 256) + 0x100_0000 * (c % 256));
  }

  function XorByte(a: byte, b: byte): byte {
    ZipBelow(XorOp, a as nat, b as nat, 8);
    assert Pow2(8) == 256;
    Xor(a as nat, b as nat) as byte
  }

  function XorBytes(a: Bytes, b: Bytes): (r: Bytes)
    requires |a| == |b|
    ensures |r| == |a|
    ensures forall i :: 0 <= i < |a| ==> r[i] == XorByte(a[i], b[i])
  {
    seq(|a|, i requires 0 <= i < |a| => XorByte(a[i], b[i]))
  }

  lemma ConcatTail<T>(a: seq<T>, b: seq<T>)
    requires a != []
    ensures (a + b)[0] == a[0] && (a + b)[1..] == a[1..] + b
  {
  }

  lemma ConcatAssociates<T>(a: seq<T>, b: seq<T>, c: seq<T>)
    ensures a + b + c == a + (b + c)
  {
  }

  function Concat(chunks: seq<Bytes>): Bytes {
    if chunks == [] then [] else chunks[0] + Concat(chunks[1..])
  }

  lemma {:induction false} ConcatAppend(a: seq<Bytes>, b: seq<Bytes>)
    ensures Concat(a + b) == Concat(a) + Concat(b)
  {
    if a == [] {
      assert a + b == b;
    } else {
      ConcatAppend(a[1..], b);
      ConcatTail(a, b);
      ConcatAssociates(a[0], Concat(a[1..]), Concat(b));
    }
  }

  /** Whether `needle` occurs in `s` at `i`. */
  predicate At(s: Bytes, needle: Bytes, i: int) {
    0 <= i && i + |needle| <= |s| && s[i..i + |needle|] == needle
  }
}
