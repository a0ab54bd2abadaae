/** The turns of the receive loop, case by case, in terms of the bytes at the head of the buffer: how far
    each goes, what it logs and what becomes of the windows.
*/
module TunnelTurns {
  import opened Bytes
  import opened ReplayBitmap
  import opened Ip2LoraCodec
  import opened AeadCodec
  import opened TunnelModel
  import opened TunnelWire
  import opened StreamParser
  import opened TunnelReceive
  import opened TunnelSend
  import opened TunnelLoss
  import opened TunnelRuns
  import Crc = Crc16Xmodem

  // ---------- what is no frame for the receiver ----------

  function SizeField(s: Bytes): nat
    requires |s| >= 2
  {
    s[0] as nat + 256 * s[1] as nat
  }

  /** The loop waits exactly for five bytes, and for as many as the size field asks for. */
  lemma WaitsExactly(b: Config, seen: Seen, s: Bytes, at: nat)
    requires b.Valid()
    ensures TakeTurn(b, seen, s, at).Wait? <==> |s| < 5 || (SizeField(s) > 0 && |s| < SizeField(s) + 4)
  {
    DecodeExactly(s);
  }

  /** A size of zero costs one byte and nothing else. */
  lemma ZeroSizeTurn(b: Config, seen: Seen, s: Bytes, at: nat)
    requires b.Valid() && |s| >= 5 && s[0] == 0 && s[1] == 0
    ensures TakeTurn(b, seen, s, at) == Advance(1, [], seen)
  {
    DecodeExactly(s);
  }

  /** A frame for another address is skipped whole, and logged with that address. */
  lemma StrangersTurn(b: Config, seen: Seen, s: Bytes, f: Frame, at: nat)
    requires b.Valid() && LiesAt(s, f) && f.addrFlags as nat % 16 != b.localAddr
    ensures TakeTurn(b, seen, s, at)
         == Advance(|f.wire| + 5, [Dropped(at, AddrMismatch(f.addrFlags as nat % 16))], seen)
  {
    DecodeExactly(s);
  }

  // ---------- a frame for the receiver ----------

  /** A frame for the receiver lies at the head of the buffer. */
  predicate IsOwn(b: Config, s: Bytes, f: Frame) {
    b.Valid() && LiesAt(s, f) && f.addrFlags as nat % 16 == b.localAddr
  }

  /** The number of an AEAD frame. */
  function NumberOf(f: Frame): nat
    requires |f.wire| >= 12
  {
    SeqOf(f.wire[..12])
  }

  /** An AEAD frame: refused without a key, when it is too short, or when its number is stale. Only the last
      of these asks the window, which is there from then on. */
  lemma AeadGates(b: Config, seen: Seen, s: Bytes, f: Frame, at: nat)
    requires IsOwn(b, s, f) && HasFlag(f, 0x20)
    ensures b.aeadKey.None? ==> TakeTurn(b, seen, s, at) == Advance(1, [Dropped(at, AeadNoKey)], seen)
    ensures b.aeadKey.Some? && |f.wire| < 28 ==> TakeTurn(b, seen, s, at) == Advance(1, [Dropped(at, AeadShort)], seen)
    ensures b.aeadKey.Some? && |f.wire| >= 28 && !IsFresh(SeenFrom(seen, b.localAddr), NumberOf(f)) ==>
              TakeTurn(b, seen, s, at)
                == Advance(1, [Dropped(at, AeadReplay)], seen[b.localAddr := SeenFrom(seen, b.localAddr)])
  {
    DecodeExactly(s);
  }

  /** The windows behind the AEAD layer: the number of an AEAD frame is in its window, tag or no tag. */
  ghost function SeenBehind(b: Config, seen: Seen, f: Frame): Seen
    requires HasFlag(f, 0x20) ==> |f.wire| >= 12
  {
    if HasFlag(f, 0x20) then seen[b.localAddr := SeenFrom(seen, b.localAddr) + {NumberOf(f)}] else seen
  }

  /** The AEAD layer lets the frame through, or does not apply to it. */
  ghost predicate PassesGates(b: Config, seen: Seen, f: Frame) {
    HasFlag(f, 0x20) ==>
      b.aeadKey.Some? && |f.wire| >= 28 && IsFresh(SeenFrom(seen, b.localAddr), NumberOf(f))
  }

  /** A fresh number with a tag that does not match is dropped as such. */
  lemma TagGate(b: Config, seen: Seen, s: Bytes, f: Frame, at: nat)
    requires IsOwn(b, s, f) && HasFlag(f, 0x20) && PassesGates(b, seen, f)
    requires forall payload :: !IsOpened(b, f, payload)
    ensures TakeTurn(b, seen, s, at) == Advance(1, [Dropped(at, AeadTagMismatch)], SeenBehind(b, seen, f))
  {
    DecodeExactly(s);
    var plain := OpenAead(b, f);
    assert plain.Some? ==> IsOpened(b, f, plain.value);
  }

  /** A cipher flag without a key, or a payload that does not inflate, costs one byte without a word. */
  lemma SilentLosses(b: Config, seen: Seen, s: Bytes, f: Frame, at: nat, payload: Bytes)
    requires IsOwn(b, s, f) && PassesGates(b, seen, f) && IsOpened(b, f, payload)
    ensures HasFlag(f, 0x40) && b.cipherKey.None? ==>
              TakeTurn(b, seen, s, at) == Advance(1, [], SeenBehind(b, seen, f))
    ensures forall plain :: IsUnmasked(b, f, payload, plain) && HasFlag(f, 0x80) && b.layers.inflate(plain).None? ==>
              TakeTurn(b, seen, s, at) == Advance(1, [], SeenBehind(b, seen, f))
  {
    DecodeExactly(s);
  }

  /** Where ROHC fails, a warning is emitted and one byte skipped. */
  lemma RohcLoss(b: Config, seen: Seen, s: Bytes, f: Frame, at: nat, payload: Bytes, plain: Bytes, inflated: Bytes)
    requires IsOwn(b, s, f) && PassesGates(b, seen, f) && IsOpened(b, f, payload)
    requires IsUnmasked(b, f, payload, plain) && IsInflated(b, f, plain, inflated)
    requires b.useRohc && b.layers.rohc.decompress(inflated).None?
    ensures TakeTurn(b, seen, s, at) == Advance(1, [RohcWarning(at)], SeenBehind(b, seen, f))
  {
    DecodeExactly(s);
  }

  /** A frame whose layers all come off is delivered and skipped whole, unless it is without AEAD and its
      checksum is not that of what came out: then one byte is skipped. */
  lemma LastGate(b: Config, seen: Seen, s: Bytes, f: Frame, at: nat, clear: Bytes)
    requires IsOwn(b, s, f) && PassesGates(b, seen, f) && Undoes(b, f, clear)
    ensures TakeTurn(b, seen, s, at)
      == if !HasFlag(f, 0x20) && Crc.Crc([f.addrFlags] + clear) != f.claimedCrc
         then Advance(1, [Dropped(at, CrcMismatch)], SeenBehind(b, seen, f))
         else Advance(|f.wire| + 5, [Delivered(at, f, clear)], SeenBehind(b, seen, f))
  {
    DecodeExactly(s);
    RecoveryExactly(b, seen, f, at, clear);
    RecoveredState(b, seen, f, at);
  }

  lemma RecoveredState(b: Config, seen: Seen, f: Frame, at: nat)
    requires b.Valid() && f.addrFlags as nat % 16 == b.localAddr && Recover(b, seen, f, at).clear.Some?
    requires PassesGates(b, seen, f)
    ensures Recover(b, seen, f, at).log == [] && Recover(b, seen, f, at).seen == SeenBehind(b, seen, f)
  {
  }

  // ---------- finding the next frame again ----------

  /** Runs differ in nothing but where they start. */
  ghost predicate SameRun(b: Config, r: Receiver, next: Receiver)
    requires b.Valid()
  {
    Progresses(TurnsOf(b)) && Run(TurnsOf(b), r) == Run(TurnsOf(b), next)
  }

  function Zeros(k: nat): (z: Bytes)
    ensures |z| == k && forall i :: 0 <= i < k ==> z[i] == 0
  {
    seq(k, i => 0)
  }

  /** Where two zeros come first, the loop goes on from the next byte, with the same log and windows. */
  lemma ZeroSizeIsSkipped(b: Config, turns: Turns, run: Receiver -> Receiver, r: Receiver)
    requires b.Valid() && Implements(turns, b) && Progresses(turns) && Runs(run, turns)
    requires |r.buffer| >= 5 && r.buffer[0] == 0 && r.buffer[1] == 0
    ensures run(r) == run(Receiver(r.buffer[1..], r.at + 1, r.seen, r.log))
  {
    ZeroSizeTurn(b, r.seen, r.buffer, r.at);
    assert turns(r.seen, r.buffer, r.at) == TakeTurn(b, r.seen, r.buffer, r.at);
    LoopAdvances(turns, run, r, 1, [], r.seen);
    assert r.log + [] == r.log;
  }

  /** One turn of the loop. */
  lemma LoopAdvances(turns: Turns, run: Receiver -> Receiver, r: Receiver, n: nat, log: seq<Event>, seen: Seen)
    requires Progresses(turns) && Runs(run, turns) && turns(r.seen, r.buffer, r.at) == Advance(n, log, seen)
    ensures n <= |r.buffer| && run(r) == run(Receiver(r.buffer[n..], r.at + n, seen, r.log + log))
  {
    var next := Receiver(r.buffer[n..], r.at + n, seen, r.log + log);
    RunTurn(turns, r, Advance(n, log, seen));
    assert run(r) == Run(turns, r) && run(next) == Run(turns, next);
  }

  lemma {:induction false} LoopSkipsZeros(b: Config, turns: Turns, run: Receiver -> Receiver, r: Receiver,
                                          k: nat, rest: Bytes)
    requires b.Valid() && Implements(turns, b) && Progresses(turns) && Runs(run, turns)
    requires r.buffer == Zeros(k) + rest && |rest| >= 5 && rest[0] == 0
    ensures run(r) == run(Receiver(rest, r.at + k, r.seen, r.log))
    decreases k
  {
    if k == 0 {
      assert Zeros(0) + rest == rest;
    } else {
      assert r.buffer[1] == 0 && r.buffer[1..] == Zeros(k - 1) + rest;
      ZeroSizeIsSkipped(b, turns, run, r);
      LoopSkipsZeros(b, turns, run, Receiver(r.buffer[1..], r.at + 1, r.seen, r.log), k - 1, rest);
    }
  }

  /** The loop that `run` is, on the receiver's own turns. */
  lemma RunIsRun(b: Config, turns: Turns, run: Receiver -> Receiver, r: Receiver)
    requires b.Valid() && Implements(turns, b) && Progresses(turns) && Runs(run, turns)
    ensures Progresses(TurnsOf(b)) && run(r) == Run(TurnsOf(b), r)
  {
    RunsAgree(turns, b, r);
    assert run(r) == Run(turns, r);
  }

  /** Zeros in front of bytes that start with a zero cost nothing, however many they are: the run is the
      run from behind them, with the same log and windows. */
  lemma ZerosAreSkipped(b: Config, r: Receiver, k: nat, rest: Bytes)
    requires b.Valid() && r.buffer == Zeros(k) + rest && |rest| >= 5 && rest[0] == 0
    ensures SameRun(b, r, Receiver(rest, r.at + k, r.seen, r.log))
  {
    var turns := SomeTurns(b);
    var run := SomeRun(turns);
    LoopSkipsZeros(b, turns, run, r, k, rest);
    RunIsRun(b, turns, run, r);
    RunIsRun(b, turns, run, Receiver(rest, r.at + k, r.seen, r.log));
  }

  /** The receiver behind a frame it has delivered. */
  ghost function Behind(b: Config, r: Receiver, s: Bytes, f: Frame, clear: Bytes): Receiver
    requires |s| >= |f.wire| + 5 && (HasFlag(f, 0x20) ==> |f.wire| >= 12)
  {
    Receiver(s[|f.wire| + 5..], r.at + (|f.wire| + 5), SeenBehind(b, r.seen, f), r.log + [Delivered(r.at, f, clear)])
  }

  lemma CheckedTurn(b: Config, turns: Turns, r: Receiver, f: Frame, clear: Bytes)
    requires b.Valid() && Implements(turns, b) && Checks(b, r.seen, r.buffer, f, clear)
    ensures turns(r.seen, r.buffer, r.at)
         == Advance(|f.wire| + 5, [Delivered(r.at, f, clear)], SeenBehind(b, r.seen, f))
  {
    LastGate(b, r.seen, r.buffer, f, r.at, clear);
    assert turns(r.seen, r.buffer, r.at) == TakeTurn(b, r.seen, r.buffer, r.at);
  }

  /** A frame for the receiver lies at the head of `s`, its layers come off, its number is fresh and its
      checksum holds. */
  ghost predicate Checks(b: Config, seen: Seen, s: Bytes, f: Frame, clear: Bytes) {
    && IsOwn(b, s, f) && PassesGates(b, seen, f) && Undoes(b, f, clear)
    && (HasFlag(f, 0x20) || Crc.Crc([f.addrFlags] + clear) == f.claimedCrc)
  }

  /** Zeros in front of a frame whose size is a multiple of 256 cost nothing: the run delivers it at the
      very place where it starts, and goes on behind it. */
  lemma ZerosBeforeFrame(b: Config, r: Receiver, k: nat, s: Bytes, f: Frame, clear: Bytes)
    requires r.buffer == Zeros(k) + s && s != [] && s[0] == 0 && Checks(b, r.seen, s, f, clear)
    ensures SameRun(b, r, Behind(b, Receiver(s, r.at + k, r.seen, r.log), s, f, clear))
  {
    var turns := SomeTurns(b);
    var run := SomeRun(turns);
    LoopPassesZeros(b, turns, run, r, k, s, f, clear);
    RunIsRun(b, turns, run, r);
    RunIsRun(b, turns, run, Behind(b, Receiver(s, r.at + k, r.seen, r.log), s, f, clear));
  }

  lemma LoopPassesZeros(b: Config, turns: Turns, run: Receiver -> Receiver, r: Receiver, k: nat,
                        s: Bytes, f: Frame, clear: Bytes)
    requires b.Valid() && Implements(turns, b) && Progresses(turns) && Runs(run, turns)
    requires r.buffer == Zeros(k) + s && s != [] && s[0] == 0 && Checks(b, r.seen, s, f, clear)
    ensures run(r) == run(Behind(b, Receiver(s, r.at + k, r.seen, r.log), s, f, clear))
  {
    var here := Receiver(s, r.at + k, r.seen, r.log);
    CheckedTurn(b, turns, here, f, clear);
    LoopSkipsZeros(b, turns, run, r, k, s);
    LoopAdvances(turns, run, here, |f.wire| + 5, [Delivered(here.at, f, clear)], SeenBehind(b, r.seen, f));
  }

  /** Any other frame is hidden by a zero in front of it: its low size byte is taken for a high one, and
      the receiver waits for at least 260 bytes. */
  lemma ZeroHidesFrame(b: Config, seen: Seen, s: Bytes, at: nat)
    requires b.Valid() && |s| >= 4 && s[0] != 0
    ensures TakeTurn(b, seen, [0] + s, at).Wait? <==> |s| < 256 * s[0] as nat + 3
  {
    WaitsExactly(b, seen, [0] + s, at);
  }

  /** A lone frame behind a zero is delivered if and only if its size is a multiple of 256, provided that
      otherwise the phantom is longer than what is there. */
  lemma ZeroThenFrame(b: Config, r: Receiver, s: Bytes, f: Frame, clear: Bytes)
    requires r.buffer == [0] + s && Checks(b, r.seen, s, f, clear)
    requires s[0] != 0 ==> |s| < 256 * s[0] as nat + 3
    ensures Progresses(TurnsOf(b))
    ensures DeliversAt(Run(TurnsOf(b), r).log, |r.log|, r.at + 1) <==> (|f.wire| + 1) % 256 == 0
  {
    var turns := SomeTurns(b);
    var run := SomeRun(turns);
    RunIsRun(b, turns, run, r);
    LowSizeByte(s, f);
    if s[0] == 0 {
      DeliveredBehindZero(b, turns, run, r, s, f, clear);
    } else {
      StopsAtZero(b, turns, run, r, s);
    }
  }

  lemma LowSizeByte(s: Bytes, f: Frame)
    requires LiesAt(s, f)
    ensures (|f.wire| + 1) % 256 == s[0] as nat
  {
  }

  lemma DeliveredBehindZero(b: Config, turns: Turns, run: Receiver -> Receiver, r: Receiver,
                            s: Bytes, f: Frame, clear: Bytes)
    requires b.Valid() && Implements(turns, b) && Progresses(turns) && Runs(run, turns) && r.buffer == [0] + s
    requires Checks(b, r.seen, s, f, clear) && s[0] == 0
    ensures DeliversAt(run(r).log, |r.log|, r.at + 1)
  {
    var next := Behind(b, Receiver(s, r.at + 1, r.seen, r.log), s, f, clear);
    assert r.buffer == Zeros(1) + s;
    LoopPassesZeros(b, turns, run, r, 1, s, f, clear);
    RunFollows(b, turns, next);
    assert run(next) == Run(turns, next);
    StaysDelivered(r.log, next, run(next), Delivered(r.at + 1, f, clear));
  }

  lemma StaysDelivered(log: seq<Event>, next: Receiver, later: Receiver, e: Event)
    requires Follows(next, later) && next.log == log + [e] && e.Delivered?
    ensures DeliversAt(later.log, |log|, e.at)
  {
    assert later.log[..|next.log|][|log|] == e;
  }

  lemma StopsAtZero(b: Config, turns: Turns, run: Receiver -> Receiver, r: Receiver, s: Bytes)
    requires b.Valid() && Implements(turns, b) && Progresses(turns) && Runs(run, turns)
    requires r.buffer == [0] + s && |s| >= 4 && s[0] != 0 && |s| < 256 * s[0] as nat + 3
    ensures run(r) == r
  {
    ZeroHidesFrame(b, r.seen, s, r.at);
    assert turns(r.seen, r.buffer, r.at) == TakeTurn(b, r.seen, r.buffer, r.at);
    RunWaits(turns, r);
    assert run(r) == Run(turns, r);
  }
}
