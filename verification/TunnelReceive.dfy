/** What the tunnel's receiver guarantees on arbitrary bytes. */
module TunnelReceive {
  import opened Bytes
  import opened Ip2LoraCodec
  import opened AeadCodec
  import opened TunnelModel
  import opened TunnelWire
  import opened StreamParser
  import opened ReplayBitmap
  import Crc = Crc16Xmodem
  import Xor = XorCiphers

  lemma TurnsProgress(cfg: Config)
    requires cfg.Valid()
    ensures Progresses(TurnsOf(cfg))
  {
  }

  lemma TurnsAreStable(cfg: Config)
    requires cfg.Valid()
    ensures Stable(TurnsOf(cfg))
  {
    var turns := TurnsOf(cfg);
    forall seen: Seen, s: Bytes, t: Bytes, at: nat | turns(seen, s, at).Advance?
      ensures turns(seen, s + t, at) == turns(seen, s, at)
    {
      DecodeIsStable(s, t);
    }
  }

  /** `turns` are the turns of `cfg`. The trigger keeps `TakeTurn` out of proofs that only need
      `turns`. */
  ghost predicate Implements(turns: Turns, cfg: Config)
    requires cfg.Valid()
  {
    forall seen: Seen, s: Bytes, at: nat {:trigger TakeTurn(cfg, seen, s, at)} ::
      turns(seen, s, at) == TakeTurn(cfg, seen, s, at)
  }

  lemma SomeTurns(cfg: Config) returns (turns: Turns)
    requires cfg.Valid()
    ensures Implements(turns, cfg) && Progresses(turns)
  {
    turns := TurnsOf(cfg);
  }

  lemma {:induction false} RunsAgree(turns: Turns, cfg: Config, r: Receiver)
    requires cfg.Valid() && Implements(turns, cfg) && Progresses(turns)
    ensures Progresses(TurnsOf(cfg)) && Run(turns, r) == Run(TurnsOf(cfg), r)
    decreases |r.buffer|
  {
    TurnsProgress(cfg);
    var t := TakeTurn(cfg, r.seen, r.buffer, r.at);
    if t.Wait? {
      RunWaits(turns, r);
      RunWaits(TurnsOf(cfg), r);
    } else {
      RunTurn(turns, r, t);
      RunTurn(TurnsOf(cfg), r, t);
      RunsAgree(turns, cfg, AfterTurn(r, t));
    }
  }

  /** A receiver with settings `cfg` that has met nothing but these chunks. */
  ghost function Received(cfg: Config, chunks: seq<Bytes>): Receiver
    requires cfg.Valid()
  {
    TurnsProgress(cfg);
    FeedChunks(TurnsOf(cfg), START, chunks)
  }

  // ---------- chunking, progress and bounded memory ----------

  /** From any state, feeding the receiver a stream in any split gives the same deliveries and drops,
      the same windows and the same leftover as one call. */
  lemma ChunkingDoesNotMatter(cfg: Config, r: Receiver, chunks: seq<Bytes>)
    requires cfg.Valid() && (chunks == [] ==> Quiet(TurnsOf(cfg), r))
    ensures Progresses(TurnsOf(cfg))
    ensures FeedChunks(TurnsOf(cfg), r, chunks) == Feed(TurnsOf(cfg), r, Concat(chunks))
  {
    TurnsProgress(cfg);
    TurnsAreStable(cfg);
    ChunksAreOneStream(TurnsOf(cfg), r, chunks);
  }

  /** The receiver that finds the whole stream in its buffer. */
  ghost function Given(stream: Bytes): Receiver {
    Receiver(stream, 0, map[], [])
  }

  lemma ReceivedIsOneRun(cfg: Config, chunks: seq<Bytes>)
    requires cfg.Valid()
    ensures Progresses(TurnsOf(cfg))
    ensures Received(cfg, chunks) == Run(TurnsOf(cfg), Given(Concat(chunks)))
  {
    ChunkingDoesNotMatter(cfg, START, chunks);
    assert [] + Concat(chunks) == Concat(chunks);
  }

  /** Whatever is received in whatever state, the loop ends with a leftover of at most 65538 bytes, a
      suffix of what was there, on which it cannot progress. */
  lemma LeftoverIsBounded(cfg: Config, r: Receiver, chunk: Bytes)
    requires cfg.Valid()
    ensures Progresses(TurnsOf(cfg))
    ensures
      var after := Feed(TurnsOf(cfg), r, chunk);
      && |after.buffer| <= 65538
      && IsSuffixAt(r.buffer + chunk, r.at, after)
      && Feed(TurnsOf(cfg), after, []) == after
  {
    TurnsProgress(cfg);
    var turns, whole := TurnsOf(cfg), r.buffer + chunk;
    var after := Feed(turns, r, chunk);
    RunLeavesQuiet(turns, Append(r, chunk));
    WaitingIsUndecided(cfg, after);
    UndecidedIsShort(after.buffer);
    FeedNothing(turns, after);
    var suffix := (x: Receiver) => IsSuffixAt(whole, r.at, x);
    forall x: Receiver | suffix(x) && !Quiet(turns, x) ensures suffix(AfterTurn(x, turns(x.seen, x.buffer, x.at))) {
      SuffixAfterTurn(whole, r.at, x, turns(x.seen, x.buffer, x.at));
    }
    assert whole[0..] == whole;
    RunKeeps(turns, suffix, Append(r, chunk));
  }

  /** The buffer of `r` is the part of `whole`, which starts at stream position `base`, from the
      position of `r` on. */
  ghost predicate IsSuffixAt(whole: Bytes, base: nat, r: Receiver) {
    base <= r.at <= base + |whole| && r.buffer == whole[r.at - base..]
  }

  lemma SuffixAfterTurn(whole: Bytes, base: nat, r: Receiver, t: Turn)
    requires IsSuffixAt(whole, base, r) && t.Advance? && t.skip <= |r.buffer|
    ensures IsSuffixAt(whole, base, AfterTurn(r, t))
  {
    assert whole[r.at - base..][t.skip..] == whole[r.at - base + t.skip..];
  }

  lemma WaitingIsUndecided(cfg: Config, r: Receiver)
    requires cfg.Valid() && Quiet(TurnsOf(cfg), r)
    ensures Decode(r.buffer).ShortHeader? || Decode(r.buffer).ShortFrame?
  {
  }

  // ---------- soundness on arbitrary input ----------

  /** What the AEAD flag of a frame for the receiver says of its payload: sealed under the receiver's key,
      with the addr|flags byte as associated data. */
  predicate IsOpened(cfg: Config, f: Frame, payload: Bytes) {
    var n := |f.wire|;
    if HasFlag(f, 0x20) then
      && cfg.aeadKey.Some? && n >= 28
      && cfg.layers.aead.open(cfg.aeadKey.value, f.wire[..12], f.wire[12..n - 16], f.wire[n - 16..], [f.addrFlags])
         == Some(payload)
    else payload == f.wire
  }

  /** The cipher flag needs a cipher key. */
  predicate IsUnmasked(cfg: Config, f: Frame, payload: Bytes, plain: Bytes)
    requires cfg.Valid()
  {
    if HasFlag(f, 0x40) then cfg.cipherKey.Some? && plain == Xor.Mask(cfg.cipherKey.value, payload)
    else plain == payload
  }

  predicate IsInflated(cfg: Config, f: Frame, plain: Bytes, inflated: Bytes) {
    if HasFlag(f, 0x80) then cfg.layers.inflate(plain) == Some(inflated) else inflated == plain
  }

  predicate IsDecompressed(cfg: Config, inflated: Bytes, clear: Bytes) {
    if cfg.useRohc then cfg.layers.rohc.decompress(inflated) == Some(clear) else clear == inflated
  }

  /** `clear` is what is left of the frame when its layers are undone, each of them with success. */
  ghost predicate Undoes(cfg: Config, f: Frame, clear: Bytes)
    requires cfg.Valid()
  {
    exists payload, plain, inflated ::
      && IsOpened(cfg, f, payload) && IsUnmasked(cfg, f, payload, plain)
      && IsInflated(cfg, f, plain, inflated) && IsDecompressed(cfg, inflated, clear)
  }

  /** Recovery succeeds exactly when every layer does, and, for an AEAD frame, its number is fresh. */
  lemma RecoveryExactly(cfg: Config, seen: Seen, f: Frame, at: nat, clear: Bytes)
    requires cfg.Valid()
    ensures Recover(cfg, seen, f, at).clear == Some(clear)
      <==> Undoes(cfg, f, clear)
           && (HasFlag(f, 0x20) ==> IsFresh(SeenFrom(seen, f.addrFlags as nat % 16), SeqOf(f.wire[..12])))
  {
    if Undoes(cfg, f, clear) {
      var payload, plain, inflated :| IsOpened(cfg, f, payload) && IsUnmasked(cfg, f, payload, plain)
        && IsInflated(cfg, f, plain, inflated) && IsDecompressed(cfg, inflated, clear);
      UnwindSucceeds(cfg, f, payload, plain, inflated, clear);
    }
    if Recover(cfg, seen, f, at).clear == Some(clear) {
      var payload := OpenFrame(cfg, seen, f, at).payload.value;
      assert IsOpened(cfg, f, payload);
      UnwindUndoes(cfg, f, payload, clear);
    }
  }

  lemma UnwindSucceeds(cfg: Config, f: Frame, payload: Bytes, plain: Bytes, inflated: Bytes, clear: Bytes)
    requires cfg.Valid() && IsUnmasked(cfg, f, payload, plain) && IsInflated(cfg, f, plain, inflated)
    requires IsDecompressed(cfg, inflated, clear)
    ensures Unwind(cfg, f.FlagBits(), payload) == Clear(clear)
  {
  }

  lemma UnwindUndoes(cfg: Config, f: Frame, payload: Bytes, clear: Bytes)
    requires cfg.Valid() && Unwind(cfg, f.FlagBits(), payload) == Clear(clear)
    ensures exists plain, inflated ::
              && IsUnmasked(cfg, f, payload, plain) && IsInflated(cfg, f, plain, inflated)
              && IsDecompressed(cfg, inflated, clear)
  {
    var plain := if f.FlagBits().cipher then Xor.Mask(cfg.cipherKey.value, payload) else payload;
    var inflated := if f.FlagBits().compress then cfg.layers.inflate(plain).value else plain;
    assert IsUnmasked(cfg, f, payload, plain) && IsInflated(cfg, f, plain, inflated);
  }

  function FrameLength(f: Frame): nat {
    |f.wire| + MIN_FRAME_SIZE
  }

  predicate IsAead(f: Frame) {
    f.FlagBits().aead && |f.wire| >= NONCE_LEN
  }

  /** What recovering a frame can do to the log and to the windows. */
  lemma RecoverySummary(cfg: Config, seen: Seen, f: Frame, at: nat)
    requires cfg.Valid()
    ensures var r := Recover(cfg, seen, f, at);
      && (r.clear.Some? ==> Undoes(cfg, f, r.clear.value))
      && (forall e :: e in r.log ==> !e.Delivered? && e.at == at)
      && SeenFrom(seen, f.Addr()) <= SeenFrom(r.seen, f.Addr())
      && (r.clear.Some? && f.FlagBits().aead ==>
            IsAead(f) && FrameNumber(f) !in SeenFrom(seen, f.Addr()) && FrameNumber(f) in SeenFrom(r.seen, f.Addr()))
  {
    var r := Recover(cfg, seen, f, at);
    if r.clear.Some? { RecoveryExactly(cfg, seen, f, at, r.clear.value); }
  }

  /** A delivery out of the stream `whole`: the bytes of a frame lie at its position, addressed to the
      receiver; what is delivered is what undoing its layers leaves; and without AEAD the checksum of the
      frame is that of the addr|flags byte and what is delivered. */
  ghost predicate SoundDelivery(cfg: Config, whole: Bytes, e: Event)
    requires cfg.Valid() && e.Delivered?
  {
    && e.at <= |whole| && LiesAt(whole[e.at..], e.frame)
    && e.frame.addrFlags as nat % 16 == cfg.localAddr
    && Undoes(cfg, e.frame, e.clear)
    && (!HasFlag(e.frame, 0x20) ==> Crc.Crc([e.frame.addrFlags] + e.clear) == e.frame.claimedCrc)
  }

  /** Events logged up to position `q` of `whole`: deliveries are sound and end by `q`, and each
      starts where the one before it has ended, or later. */
  ghost predicate SoundLog(cfg: Config, whole: Bytes, log: seq<Event>, q: nat)
    requires cfg.Valid()
  {
    && (forall i :: 0 <= i < |log| && log[i].Delivered? ==>
          SoundDelivery(cfg, whole, log[i]) && log[i].at + FrameLength(log[i].frame) <= q)
    && (forall i, j :: 0 <= i < j < |log| && log[i].Delivered? && log[j].Delivered? ==>
          log[i].at + FrameLength(log[i].frame) <= log[j].at)
  }

  /** What a turn at `p` adds: at most one delivery, from `p`, of what the turn skips. */
  ghost predicate SoundTurn(cfg: Config, whole: Bytes, p: nat, t: Turn)
    requires cfg.Valid() && t.Advance?
  {
    forall i :: 0 <= i < |t.log| && t.log[i].Delivered? ==>
      && i == |t.log| - 1 && SoundDelivery(cfg, whole, t.log[i])
      && t.log[i].at == p && FrameLength(t.log[i].frame) == t.skip
  }

  lemma ConclusionIsSound(cfg: Config, whole: Bytes, p: nat, f: Frame, consumed: nat, r: Recovery)
    requires cfg.Valid() && p <= |whole| && f.Addr() == cfg.localAddr
    requires Decode(whole[p..]) == Decoded(f, consumed)
    requires r.clear.Some? ==> Undoes(cfg, f, r.clear.value)
    requires forall e :: e in r.log ==> !e.Delivered? && e.at == p
    ensures SoundTurn(cfg, whole, p, Conclude(f, consumed, r, p))
  {
    DecodeExactly(whole[p..]);
    forall i | 0 <= i < |r.log| ensures !r.log[i].Delivered? && r.log[i].at == p {
      assert r.log[i] in r.log;
    }
  }

  lemma TurnIsSound(cfg: Config, whole: Bytes, p: nat, seen: Seen)
    requires cfg.Valid() && p <= |whole| && TakeTurn(cfg, seen, whole[p..], p).Advance?
    ensures SoundTurn(cfg, whole, p, TakeTurn(cfg, seen, whole[p..], p))
  {
    var d := Decode(whole[p..]);
    if d.Decoded? && d.frame.Addr() == cfg.localAddr {
      RecoverySummary(cfg, seen, d.frame, p);
      ConclusionIsSound(cfg, whole, p, d.frame, d.consumed, Recover(cfg, seen, d.frame, p));
    }
  }

  lemma SoundLogGrows(cfg: Config, whole: Bytes, log: seq<Event>, p: nat, t: Turn)
    requires cfg.Valid() && t.Advance? && SoundLog(cfg, whole, log, p) && SoundTurn(cfg, whole, p, t)
    ensures SoundLog(cfg, whole, log + t.log, p + t.skip)
  {
  }

  /** On arbitrary input: deliveries come from disjoint, increasing byte ranges of the stream; each
      range decodes to a frame for the local address whose layers undo to what is delivered; and a
      frame without AEAD passes the checksum over what is delivered. */
  lemma ReceptionIsSound(cfg: Config, chunks: seq<Bytes>)
    requires cfg.Valid()
    ensures SoundLog(cfg, Concat(chunks), Received(cfg, chunks).log, Received(cfg, chunks).at)
  {
    var whole, turns := Concat(chunks), TurnsOf(cfg);
    ReceivedIsOneRun(cfg, chunks);
    var sound := (x: Receiver) => IsSuffixAt(whole, 0, x) && SoundLog(cfg, whole, x.log, x.at);
    forall x: Receiver | sound(x) && !Quiet(turns, x) ensures sound(AfterTurn(x, turns(x.seen, x.buffer, x.at))) {
      SuffixAfterTurn(whole, 0, x, turns(x.seen, x.buffer, x.at));
      TurnIsSound(cfg, whole, x.at, x.seen);
      SoundLogGrows(cfg, whole, x.log, x.at, TakeTurn(cfg, x.seen, x.buffer, x.at));
    }
    assert whole[0..] == whole;
    RunKeeps(turns, sound, Given(whole));
  }

  /** On arbitrary bytes, nothing is delivered out of a frame with the cipher flag by a receiver without a
      cipher key, out of an AEAD frame by one without an AEAD key, out of a frame with the compression flag
      whose payload does not inflate, or that ROHC cannot decompress. */
  lemma LayersMustSucceed(cfg: Config, chunks: seq<Bytes>, e: Event)
    requires cfg.Valid() && e in Received(cfg, chunks).log && e.Delivered?
    ensures HasFlag(e.frame, 0x40) ==> cfg.cipherKey.Some?
    ensures HasFlag(e.frame, 0x20) ==> cfg.aeadKey.Some? && |e.frame.wire| >= 28
    ensures exists payload, plain ::
              && IsOpened(cfg, e.frame, payload) && IsUnmasked(cfg, e.frame, payload, plain)
              && (HasFlag(e.frame, 0x80) ==> cfg.layers.inflate(plain).Some?)
              && (cfg.useRohc ==>
                    var z := if HasFlag(e.frame, 0x80) then cfg.layers.inflate(plain).value else plain;
                    cfg.layers.rohc.decompress(z) == Some(e.clear))
  {
    ReceptionIsSound(cfg, chunks);
    var log := Received(cfg, chunks).log;
    var i :| 0 <= i < |log| && log[i] == e;
    var payload, plain, inflated :| IsOpened(cfg, e.frame, payload) && IsUnmasked(cfg, e.frame, payload, plain)
      && IsInflated(cfg, e.frame, plain, inflated) && IsDecompressed(cfg, inflated, e.clear);
  }

  // ---------- AEAD frames are delivered at most once ----------

  predicate IsAeadDelivery(e: Event) {
    e.Delivered? && IsAead(e.frame)
  }

  /** Every AEAD delivery of the log carries a number, one of those seen, and no two carry the same. */
  ghost predicate OnceEach(cfg: Config, log: seq<Event>, seen: Seen) {
    && (forall i :: 0 <= i < |log| && log[i].Delivered? && log[i].frame.FlagBits().aead ==> IsAead(log[i].frame))
    && (forall i :: 0 <= i < |log| && IsAeadDelivery(log[i]) ==>
          FrameNumber(log[i].frame) in SeenFrom(seen, cfg.localAddr))
    && (forall i, j :: 0 <= i < j < |log| && IsAeadDelivery(log[i]) && IsAeadDelivery(log[j]) ==>
          FrameNumber(log[i].frame) != FrameNumber(log[j].frame))
  }

  /** A turn forgets no number, and delivers at most one AEAD frame, with a number new to the window. */
  ghost predicate TurnOnce(cfg: Config, seen: Seen, t: Turn)
    requires t.Advance?
  {
    && SeenFrom(seen, cfg.localAddr) <= SeenFrom(t.seen, cfg.localAddr)
    && forall i :: 0 <= i < |t.log| && t.log[i].Delivered? && t.log[i].frame.FlagBits().aead ==>
         && i == |t.log| - 1 && IsAead(t.log[i].frame)
         && FrameNumber(t.log[i].frame) !in SeenFrom(seen, cfg.localAddr)
         && FrameNumber(t.log[i].frame) in SeenFrom(t.seen, cfg.localAddr)
         && forall j :: 0 <= j < i ==> !t.log[j].Delivered?
  }

  lemma ConclusionDeliversOnce(cfg: Config, seen: Seen, f: Frame, consumed: nat, r: Recovery, at: nat)
    requires f.Addr() == cfg.localAddr
    requires forall e :: e in r.log ==> !e.Delivered?
    requires SeenFrom(seen, f.Addr()) <= SeenFrom(r.seen, f.Addr())
    requires r.clear.Some? && f.FlagBits().aead ==>
               IsAead(f) && FrameNumber(f) !in SeenFrom(seen, f.Addr()) && FrameNumber(f) in SeenFrom(r.seen, f.Addr())
    ensures TurnOnce(cfg, seen, Conclude(f, consumed, r, at))
  {
    forall i | 0 <= i < |r.log| ensures !r.log[i].Delivered? {
      assert r.log[i] in r.log;
    }
  }

  lemma TurnDeliversOnce(cfg: Config, seen: Seen, s: Bytes, at: nat)
    requires cfg.Valid() && TakeTurn(cfg, seen, s, at).Advance?
    ensures TurnOnce(cfg, seen, TakeTurn(cfg, seen, s, at))
  {
    var d := Decode(s);
    if d.Decoded? && d.frame.Addr() == cfg.localAddr {
      RecoverySummary(cfg, seen, d.frame, at);
      ConclusionDeliversOnce(cfg, seen, d.frame, d.consumed, Recover(cfg, seen, d.frame, at), at);
    }
  }

  lemma OnceEachGrows(cfg: Config, log: seq<Event>, seen: Seen, t: Turn)
    requires t.Advance? && OnceEach(cfg, log, seen) && TurnOnce(cfg, seen, t)
    ensures OnceEach(cfg, log + t.log, t.seen)
  {
    var all := log + t.log;
    forall i, j | 0 <= i < j < |all| && IsAeadDelivery(all[i]) && IsAeadDelivery(all[j])
      ensures FrameNumber(all[i].frame) != FrameNumber(all[j].frame)
    {
      if j >= |log| {
        assert all[j] == t.log[j - |log|];
      }
    }
  }

  /** Over the whole life of a tunnel and for arbitrary received bytes, every delivered AEAD frame
      carries a number, and no two carry the same. */
  lemma AeadAtMostOnce(cfg: Config, chunks: seq<Bytes>)
    requires cfg.Valid()
    ensures OnceEach(cfg, Received(cfg, chunks).log, Received(cfg, chunks).seen)
  {
    var turns := TurnsOf(cfg);
    ReceivedIsOneRun(cfg, chunks);
    var once := (x: Receiver) => OnceEach(cfg, x.log, x.seen);
    forall x: Receiver | once(x) && !Quiet(turns, x) ensures once(AfterTurn(x, turns(x.seen, x.buffer, x.at))) {
      TurnDeliversOnce(cfg, x.seen, x.buffer, x.at);
      OnceEachGrows(cfg, x.log, x.seen, TakeTurn(cfg, x.seen, x.buffer, x.at));
    }
    RunKeeps(turns, once, Given(Concat(chunks)));
  }
}
