/** Nonces, the per-peer replay window and the abstract cipher of src/frame/AeadCodec.ts. */
module AeadCodec {
  import opened Bits
  import opened Bytes
  import opened ReplayBitmap

  const KEY_LEN: nat := 32
  const NONCE_LEN: nat := 12
  const TAG_LEN: nat := 16
  const UINT64_RANGE: nat := 0x1_0000_0000_0000_0000

  datatype Sealed = Sealed(ciphertext: Bytes, tag: Bytes)

  /** ChaCha20-Poly1305 (section 2.8 of RFC 8439) as an uninterpreted pair of functions. `open`
      yields nothing where the source throws on a tag mismatch. */
  datatype Aead = Aead(seal: (Bytes, Bytes, Bytes, Bytes) -> Sealed,
                       open: (Bytes, Bytes, Bytes, Bytes, Bytes) -> Option<Bytes>) {
    ghost predicate Lawful() {
      forall key: Bytes, nonce: Bytes, plain: Bytes, aad: Bytes ::
        var s := seal(key, nonce, plain, aad);
        && |s.ciphertext| == |plain| && |s.tag| == TAG_LEN
        && open(key, nonce, s.ciphertext, s.tag, aad) == Some(plain)
    }
  }

  /** u32 zero padding, then the u64 counter. */
  function Nonce(counter: nat): (n: Bytes)
    ensures |n| == NONCE_LEN
  {
    [0, 0, 0, 0] + LittleEndian(counter, 8)
  }

  /** The number the receiver's window reads off a nonce: `readBigUInt64LE(4)`. */
  function SeqOf(nonce: Bytes): nat
    requires |nonce| == NONCE_LEN
  {
    FromLittleEndian(nonce[4..12])
  }

  function NextCounter(counter: nat): nat {
    (counter + 1) % UINT64_RANGE
  }

  /** The counter after `k` nonces have been taken. */
  function CounterAfter(counter: nat, k: nat): nat {
    if k == 0 then counter else NextCounter(CounterAfter(counter, k - 1))
  }

  class NonceCounter {
    var counter: nat

    constructor (initial: nat)
      ensures counter == initial
    {
      counter := initial;
    }

    method Next() returns (n: Bytes)
      modifies this
      ensures n == Nonce(old(counter))
      ensures counter == NextCounter(old(counter))
    {
      n := [0, 0, 0, 0] + LittleEndian(counter, 8);
      counter := (counter + 1) % UINT64_RANGE;
    }
  }

  class ReplayWindow {
    var highest: nat
    var bitmap: nat
    var initialised: bool
    ghost var accepted: set<nat>

    ghost function State(): Window
      reads this
    {
      if initialised then Window(highest, bitmap) else Unset
    }

    ghost predicate Valid()
      reads this
    {
      Tracks(State(), accepted)
    }

    /** The address this window is kept for. */
    ghost const peer: nat

    constructor (ghost peer: nat)
      ensures Valid() && accepted == {} && this.peer == peer
    {
      this.peer := peer;
      highest, bitmap, initialised, accepted := 0, 0, false, {};
    }

    /** True exactly when the nonce's number has not been accepted before and is less than 64
        behind every accepted one; it is then accepted. */
    method Check(nonce: Bytes) returns (ok: bool)
      requires Valid() && |nonce| == NONCE_LEN
      modifies this
      ensures Valid()
      ensures ok <==> IsFresh(old(accepted), SeqOf(nonce))
      ensures accepted == Accept(old(accepted), SeqOf(nonce))
      ensures State() == ReplayBitmap.Check(old(State()), SeqOf(nonce)).window
    {
      var num := SeqOf(nonce);
      CheckRefinesSet(State(), accepted, num);
      accepted := Accept(accepted, num);
      if !initialised {
        highest, bitmap, initialised := num, 1, true;
        return true;
      }
      if num > highest {
        var shift := num - highest;
        bitmap := if shift >= 64 then 1 else And(Or(Shl(bitmap, shift), 1), Pow2(64) - 1);
        highest := num;
        return true;
      }
      var delta := highest - num;
      if delta >= 64 {
        return false;
      }
      var mask := Shl(1, delta);
      if And(bitmap, mask) != 0 {
        return false;
      }
      bitmap := Or(bitmap, mask);
      return true;
    }
  }

  // ---------- nonces ----------

  lemma SixtyFourBits()
    ensures Pow256(8) == UINT64_RANGE
  {
    assert Pow256(4) == 0x1_0000_0000;
  }

  lemma NonceCarriesCounter(counter: nat)
    requires counter < UINT64_RANGE
    ensures SeqOf(Nonce(counter)) == counter
  {
    SixtyFourBits();
    LittleEndianRoundTrip(counter, 8);
    assert Nonce(counter)[4..12] == LittleEndian(counter, 8);
  }

  /** The number a window reads off any nonce: its last eight bytes, lowest first; the first four do not
      matter. */
  lemma SeqExactly(nonce: Bytes)
    requires |nonce| == NONCE_LEN
    ensures SeqOf(nonce) < 0x1_0000_0000_0000_0000
    ensures forall i :: 0 <= i < 8 ==> nonce[4 + i] as nat == SeqOf(nonce) / Pow256(i) % 256
  {
    SixtyFourBits();
    FromLittleEndianBound(nonce[4..12]);
    FieldRoundTrip(nonce[4..12]);
    forall i | 0 <= i < 8 ensures nonce[4 + i] as nat == SeqOf(nonce) / Pow256(i) % 256 {
      LittleEndianDigit(SeqOf(nonce), 8, i);
    }
  }

  lemma {:induction false} CounterWraps(counter: nat, k: nat)
    requires counter < UINT64_RANGE
    ensures CounterAfter(counter, k) == (counter + k) % UINT64_RANGE
  {
    if k == 0 {
      SmallResidue(counter);
    } else {
      CounterWraps(counter, k - 1);
      ResidueOfNext(counter + (k - 1));
    }
  }

  lemma NonceIsInjective(a: nat, b: nat)
    requires a < UINT64_RANGE && b < UINT64_RANGE
    ensures Nonce(a) == Nonce(b) <==> a == b
  {
    NonceCarriesCounter(a);
    NonceCarriesCounter(b);
  }

  /** Before the counter wraps, the numbers the window reads off the nonces count up. */
  lemma NoncesIncrease(counter: nat, k: nat)
    requires counter + k < UINT64_RANGE
    ensures SeqOf(Nonce(CounterAfter(counter, k))) == counter + k
  {
    var n := counter + k;
    CounterWraps(counter, k);
    SmallResidue(n);
    NonceCarriesCounter(n);
  }

  /** Two nonces taken from one counter are equal exactly when the number of steps between them is
      a multiple of 2^64, wrap or no wrap. */
  lemma NoncesAreDistinct(counter: nat, j: nat, k: nat)
    requires counter < UINT64_RANGE && j < k
    ensures Nonce(CounterAfter(counter, j)) == Nonce(CounterAfter(counter, k)) <==> (k - j) % UINT64_RANGE == 0
  {
    CountersMeet(counter, j, k);
    NonceIsInjective(CounterAfter(counter, j), CounterAfter(counter, k));
  }

  lemma CountersMeet(counter: nat, j: nat, k: nat)
    requires counter < UINT64_RANGE && j < k
    ensures CounterAfter(counter, j) < UINT64_RANGE && CounterAfter(counter, k) < UINT64_RANGE
    ensures CounterAfter(counter, j) == CounterAfter(counter, k) <==> (k - j) % UINT64_RANGE == 0
  {
    CounterWraps(counter, j);
    CounterWraps(counter, k);
    EqualResidues(counter + j, counter + k, k - j);
  }

  lemma ResidueOfNext(n: nat)
    ensures (n % UINT64_RANGE + 1) % UINT64_RANGE == (n + 1) % UINT64_RANGE
  {
  }

  lemma SmallResidue(n: nat)
    requires n < UINT64_RANGE
    ensures n % UINT64_RANGE == n
  {
  }

  lemma EqualResidues(a: nat, b: nat, n: nat)
    requires b == a + n
    ensures a % UINT64_RANGE == b % UINT64_RANGE <==> n % UINT64_RANGE == 0
  {
    var q, r := a / UINT64_RANGE, b / UINT64_RANGE;
    assert n == (r - q) * UINT64_RANGE + (b % UINT64_RANGE - a % UINT64_RANGE);
  }
}
