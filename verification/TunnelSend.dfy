/** What one tunnel sends, another recovers. */
module TunnelSend {
  import opened Bytes
  import opened ReplayBitmap
  import opened Ip2LoraCodec
  import opened AeadCodec
  import opened TunnelModel
  import opened TunnelWire
  import opened StreamParser
  import opened TunnelReceive
  import Xor = XorCiphers
  import Crc = Crc16Xmodem

  /** `b` can undo what `a` does: the same library code, the keys `a` uses, the same ROHC setting.
      Compression needs no agreement; the frame says whether it was used. */
  ghost predicate Compatible(a: Config, b: Config) {
    && a.Valid() && b.Valid() && a.layers == b.layers && a.layers.Lawful()
    && (a.cipherKey.Some? ==> b.cipherKey == a.cipherKey)
    && (a.aeadKey.Some? ==> b.aeadKey == a.aeadKey)
    && a.useRohc == b.useRohc
  }

  /** The receiver's checksum, over the packet, is the sender's, over what ROHC made of it. Only a
      frame with ROHC and without AEAD can fail this. */
  function CrcSurvives(cfg: Config, ip: Bytes): bool {
    var clear := ClearPayload(cfg, ip);
    clear.Some? && !cfg.aeadKey.Some? ==>
      var addrFlags := PackAddrFlags(AddrOf(ip), WireFlags(cfg, clear.value));
      Crc.Crc([addrFlags] + clear.value) == Crc.Crc([addrFlags] + ip)
  }

  lemma CrcSurvivesWithoutRohc(cfg: Config, ip: Bytes)
    ensures !cfg.useRohc || cfg.aeadKey.Some? ==> CrcSurvives(cfg, ip)
  {
  }

  /** The frame of a packet, taken apart. */
  function FrameOf(cfg: Config, counter: nat, ip: Bytes, clear: Bytes): Frame
    requires cfg.Valid()
  {
    var addrFlags := PackAddrFlags(AddrOf(ip), WireFlags(cfg, clear));
    Frame(addrFlags, WirePayload(cfg, counter, AddrOf(ip), clear), Crc.Crc([addrFlags] + clear))
  }

  // ---------- one frame ----------

  lemma UnwindUndoesMask(a: Config, b: Config, ip: Bytes, clear: Bytes)
    requires Compatible(a, b) && ClearPayload(a, ip) == Some(clear)
    ensures Unwind(b, WireFlags(a, clear), Masked(a, clear)) == Clear(ip)
  {
    var w := if Compressed(a, clear) then a.layers.deflate(clear) else clear;
    if a.cipherKey.Some? { Xor.MaskIsInvolution(a.cipherKey.value, w); }
  }

  lemma OpenUndoesSeal(a: Config, b: Config, counter: nat, ip: Bytes, clear: Bytes)
    requires Compatible(a, b) && a.aeadKey.Some? && counter < UINT64_RANGE
    ensures var f := FrameOf(a, counter, ip, clear);
      && |f.wire| == NONCE_LEN + |Masked(a, clear)| + TAG_LEN
      && FrameNumber(f) == counter
      && OpenAead(b, f) == Some(Masked(a, clear))
  {
    var f := FrameOf(a, counter, ip, clear);
    var nonce := Nonce(counter);
    var s := a.layers.aead.seal(a.aeadKey.value, nonce, Masked(a, clear), [f.addrFlags]);
    var n := |f.wire|;
    assert f.wire == nonce + s.ciphertext + s.tag;
    assert f.wire[..NONCE_LEN] == nonce;
    assert f.wire[NONCE_LEN..n - TAG_LEN] == s.ciphertext;
    assert f.wire[n - TAG_LEN..] == s.tag;
    NonceCarriesCounter(counter);
  }

  /** The windows after a frame of `a` that is for the receiver. */
  ghost function SeenAfter(a: Config, seen: Seen, addr: nat, counter: nat): Seen {
    if a.aeadKey.Some? then seen[addr := SeenFrom(seen, addr) + {counter}] else seen
  }

  ghost predicate FreshFor(a: Config, seen: Seen, addr: nat, counter: nat) {
    a.aeadKey.Some? ==> counter < UINT64_RANGE && IsFresh(SeenFrom(seen, addr), counter)
  }

  /** Recovery undoes the layers, in reverse order. */
  lemma RecoverUndoesLayers(a: Config, b: Config, counter: nat, ip: Bytes, clear: Bytes, seen: Seen, at: nat)
    requires Compatible(a, b) && ClearPayload(a, ip) == Some(clear) && FreshFor(a, seen, AddrOf(ip), counter)
    ensures var f := FrameOf(a, counter, ip, clear);
      && f.Addr() == AddrOf(ip) && f.FlagBits() == WireFlags(a, clear)
      && Recover(b, seen, f, at) == Recovery(Some(ip), [], SeenAfter(a, seen, AddrOf(ip), counter))
  {
    UnpackPack(AddrOf(ip), WireFlags(a, clear));
    UnwindUndoesMask(a, b, ip, clear);
    if a.aeadKey.Some? { OpenUndoesSeal(a, b, counter, ip, clear); }
  }

  lemma FramedIsFrameOf(cfg: Config, counter: nat, chunk: Bytes, rest: Bytes)
    requires cfg.Valid() && Outgo(cfg, counter, chunk).Framed?
    ensures
      var ip, frame := Ipv4Of(chunk).value, Outgo(cfg, counter, chunk).frame;
      && Ipv4Of(chunk).Some? && ClearPayload(cfg, ip).Some?
      && |frame| >= MIN_FRAME_SIZE
      && Decode(frame + rest) == Decoded(FrameOf(cfg, counter, ip, ClearPayload(cfg, ip).value), |frame|)
  {
    var ip := Ipv4Of(chunk).value;
    var f := FrameOf(cfg, counter, ip, ClearPayload(cfg, ip).value);
    DecodeFrameBytes(f.addrFlags, f.wire, f.claimedCrc, rest);
  }

  /** A frame for the receiver, at the head of its buffer: the packet is delivered, whole and
      unchanged, if and only if its checksum survives ROHC. Otherwise the receiver drops the frame and
      resynchronises from its second byte. */
  lemma OwnFrameTurn(a: Config, b: Config, counter: nat, chunk: Bytes, rest: Bytes, seen: Seen, at: nat)
    requires Compatible(a, b) && Outgo(a, counter, chunk).Framed?
    requires var addr := AddrOf(Ipv4Of(chunk).value); addr == b.localAddr && FreshFor(a, seen, addr, counter)
    ensures
      var ip, frame := Ipv4Of(chunk).value, Outgo(a, counter, chunk).frame;
      var f := FrameOf(a, counter, ip, ClearPayload(a, ip).value);
      var after := SeenAfter(a, seen, AddrOf(ip), counter);
      TakeTurn(b, seen, frame + rest, at)
        == if CrcSurvives(a, ip) then Advance(|frame|, [Delivered(at, f, ip)], after)
           else Advance(1, [Dropped(at, CrcMismatch)], after)
  {
    var ip, frame := Ipv4Of(chunk).value, Outgo(a, counter, chunk).frame;
    FramedIsFrameOf(a, counter, chunk, rest);
    var clear := ClearPayload(a, ip).value;
    RecoverUndoesLayers(a, b, counter, ip, clear, seen, at);
    var f := FrameOf(a, counter, ip, clear);
    ConcludeOwn(a, f, |frame|, ip, clear, SeenAfter(a, seen, AddrOf(ip), counter), at);
  }

  lemma ConcludeOwn(a: Config, f: Frame, consumed: nat, ip: Bytes, clear: Bytes, after: Seen, at: nat)
    requires ClearPayload(a, ip) == Some(clear)
    requires f.addrFlags == PackAddrFlags(AddrOf(ip), WireFlags(a, clear)) && f.FlagBits() == WireFlags(a, clear)
    requires f.claimedCrc == Crc.Crc([f.addrFlags] + clear)
    ensures Conclude(f, consumed, Recovery(Some(ip), [], after), at)
         == if CrcSurvives(a, ip) then Advance(consumed, [Delivered(at, f, ip)], after)
            else Advance(1, [Dropped(at, CrcMismatch)], after)
  {
  }

  /** A frame for someone else is skipped as a whole and leaves the windows alone. */
  lemma OtherFrameTurn(a: Config, b: Config, counter: nat, chunk: Bytes, rest: Bytes, seen: Seen, at: nat)
    requires a.Valid() && b.Valid() && Outgo(a, counter, chunk).Framed?
    requires AddrOf(Ipv4Of(chunk).value) != b.localAddr
    ensures
      var ip, frame := Ipv4Of(chunk).value, Outgo(a, counter, chunk).frame;
      TakeTurn(b, seen, frame + rest, at) == Advance(|frame|, [Dropped(at, AddrMismatch(AddrOf(ip)))], seen)
  {
    var ip := Ipv4Of(chunk).value;
    FramedIsFrameOf(a, counter, chunk, rest);
    UnpackPack(AddrOf(ip), WireFlags(a, ClearPayload(a, ip).value));
  }

  /** A frame for the receiver whose number is stale is refused before its tag is looked at. */
  lemma StaleFrameTurn(a: Config, b: Config, counter: nat, chunk: Bytes, rest: Bytes, seen: Seen, at: nat)
    requires Compatible(a, b) && a.aeadKey.Some? && counter < UINT64_RANGE && Outgo(a, counter, chunk).Framed?
    requires AddrOf(Ipv4Of(chunk).value) == b.localAddr && !IsFresh(SeenFrom(seen, b.localAddr), counter)
    ensures
      TakeTurn(b, seen, Outgo(a, counter, chunk).frame + rest, at)
        == Advance(1, [Dropped(at, AeadReplay)], seen[b.localAddr := SeenFrom(seen, b.localAddr)])
  {
    var ip := Ipv4Of(chunk).value;
    var clear := ClearPayload(a, ip).value;
    FramedIsFrameOf(a, counter, chunk, rest);
    UnpackPack(AddrOf(ip), WireFlags(a, clear));
    OpenUndoesSeal(a, b, counter, ip, clear);
  }

  function FrameAt(cfg: Config, counter: nat, chunk: Bytes): Frame
    requires cfg.Valid() && Outgo(cfg, counter, chunk).Framed?
  {
    var ip := Ipv4Of(chunk).value;
    FrameOf(cfg, counter, ip, ClearPayload(cfg, ip).value)
  }

  /** The verdict of a receiver in any state on an AEAD frame of any compatible sender: delivered, whole
      and unchanged, if and only if its number is fresh. */
  lemma GenuineFrameTurn(a: Config, b: Config, counter: nat, chunk: Bytes, rest: Bytes, seen: Seen, at: nat)
    requires SendsTo(a, b, counter, chunk)
    ensures
      var frame, known := Outgo(a, counter, chunk).frame, SeenFrom(seen, b.localAddr);
      TakeTurn(b, seen, frame + rest, at)
        == if IsFresh(known, counter)
           then Advance(|frame|, [Delivered(at, FrameAt(a, counter, chunk), Ipv4Of(chunk).value)],
                        seen[b.localAddr := known + {counter}])
           else Advance(1, [Dropped(at, AeadReplay)], seen[b.localAddr := known])
  {
    if IsFresh(SeenFrom(seen, b.localAddr), counter) {
      OwnFrameTurn(a, b, counter, chunk, rest, seen, at);
    } else {
      StaleFrameTurn(a, b, counter, chunk, rest, seen, at);
    }
  }

  /** `a` frames the chunk for `b`, with AEAD and under this number. */
  ghost predicate SendsTo(a: Config, b: Config, counter: nat, chunk: Bytes) {
    && Compatible(a, b) && a.aeadKey.Some? && counter < UINT64_RANGE
    && Outgo(a, counter, chunk).Framed? && AddrOf(Ipv4Of(chunk).value) == b.localAddr
  }

  /** Which packets are framed: the IPv4 packets ROHC takes whose wire payload fits the size field. */
  lemma FramedExactly(cfg: Config, counter: nat, chunk: Bytes)
    requires cfg.Valid() && cfg.layers.Lawful()
    ensures Outgo(cfg, counter, chunk).Framed? <==>
      && Ipv4Of(chunk).Some? && ClearPayload(cfg, Ipv4Of(chunk).value).Some?
      && |Masked(cfg, ClearPayload(cfg, Ipv4Of(chunk).value).value)|
         + (if cfg.aeadKey.Some? then NONCE_LEN + TAG_LEN else 0) < 0xffff
  {
    if Ipv4Of(chunk).Some? && ClearPayload(cfg, Ipv4Of(chunk).value).Some? {
      var ip := Ipv4Of(chunk).value;
      var clear := ClearPayload(cfg, ip).value;
      if cfg.aeadKey.Some? {
        var s := cfg.layers.aead.seal(cfg.aeadKey.value, Nonce(counter), Masked(cfg, clear),
                                      [PackAddrFlags(AddrOf(ip), WireFlags(cfg, clear))]);
        assert |s.ciphertext| == |Masked(cfg, clear)| && |s.tag| == TAG_LEN;
      }
    }
  }

  // ---------- a stream of frames ----------

  /** The frames of a list of chunks, end to end, as they go over the air. */
  function Stream(cfg: Config, counter: nat, chunks: seq<Bytes>): Bytes
    requires cfg.Valid()
    decreases chunks
  {
    if chunks == [] then []
    else
      var out := Outgo(cfg, counter, chunks[0]);
      (if out.Framed? then out.frame else []) + Stream(cfg, CounterNext(cfg, counter, chunks[0]), chunks[1..])
  }

  /** The packets among the chunks that were framed and whose destination byte names `addr`. */
  function SentTo(cfg: Config, counter: nat, chunks: seq<Bytes>, addr: nat): seq<Bytes>
    requires cfg.Valid()
    decreases chunks
  {
    if chunks == [] then []
    else
      (if Outgo(cfg, counter, chunks[0]).Framed? && HoldsPacket(chunks[0]) && DestinationOf(chunks[0]) == addr
       then [PacketIn(chunks[0])] else [])
      + SentTo(cfg, CounterNext(cfg, counter, chunks[0]), chunks[1..], addr)
  }

  ghost predicate AllSurvive(cfg: Config, chunks: seq<Bytes>) {
    forall i :: 0 <= i < |chunks| && Ipv4Of(chunks[i]).Some? ==> CrcSurvives(cfg, Ipv4Of(chunks[i]).value)
  }

  /** Everything the receiver's window has accepted from `a` is below the counter, and the counter
      does not wrap within the chunks to come. */
  ghost predicate InStep(a: Config, b: Config, counter: nat, chunks: seq<Bytes>, seen: Seen) {
    a.aeadKey.Some? && chunks != [] ==>
      && counter + |chunks| <= UINT64_RANGE
      && forall n :: n in SeenFrom(seen, b.localAddr) ==> n < counter
  }

  lemma {:induction false} DeliveriesAppend(x: seq<Event>, y: seq<Event>)
    ensures Deliveries(x + y) == Deliveries(x) + Deliveries(y)
  {
    if x == [] {
      assert x + y == y;
    } else {
      DeliveriesAppend(x[1..], y);
      ConcatTail(x, y);
      ConcatAssociates(if x[0].Delivered? then [x[0].clear] else [], Deliveries(x[1..]), Deliveries(y));
    }
  }

  lemma CounterStaysInStep(a: Config, b: Config, counter: nat, chunks: seq<Bytes>, seen: Seen, after: Seen)
    requires chunks != [] && InStep(a, b, counter, chunks, seen)
    requires SeenFrom(after, b.localAddr) <= SeenFrom(seen, b.localAddr) + {counter}
    requires Ipv4Of(chunks[0]).Some? && ClearPayload(a, Ipv4Of(chunks[0]).value).Some?
    ensures InStep(a, b, CounterNext(a, counter, chunks[0]), chunks[1..], after)
  {
    if a.aeadKey.Some? && chunks[1..] != [] {
      SmallResidue(counter + 1);
    }
  }

  /** What the turn on a frame at the head of the buffer does: the frame is consumed, its packet is
      delivered if it is for the receiver, and the windows learn no number but the frame's. */
  ghost predicate TakesFrame(b: Config, frame: Bytes, ip: Bytes, counter: nat, seen: Seen, t: Turn) {
    && t.Advance? && t.skip == |frame|
    && Deliveries(t.log) == (if AddrOf(ip) == b.localAddr then [ip] else [])
    && SeenFrom(t.seen, b.localAddr) <= SeenFrom(seen, b.localAddr) + {counter}
  }

  lemma FirstFrameTurn(a: Config, b: Config, counter: nat, chunk: Bytes, rest: Bytes, seen: Seen, at: nat)
    requires Compatible(a, b) && Outgo(a, counter, chunk).Framed? && CrcSurvives(a, Ipv4Of(chunk).value)
    requires FreshFor(a, seen, b.localAddr, counter)
    ensures
      var frame := Outgo(a, counter, chunk).frame;
      TakesFrame(b, frame, Ipv4Of(chunk).value, counter, seen, TakeTurn(b, seen, frame + rest, at))
  {
    var ip := Ipv4Of(chunk).value;
    if AddrOf(ip) == b.localAddr {
      OwnFrameTurn(a, b, counter, chunk, rest, seen, at);
      OneDelivery(at, FrameOf(a, counter, ip, ClearPayload(a, ip).value), ip);
    } else {
      OtherFrameTurn(a, b, counter, chunk, rest, seen, at);
      NoDelivery(at, AddrMismatch(AddrOf(ip)));
    }
  }

  lemma OneDelivery(at: nat, f: Frame, ip: Bytes)
    ensures Deliveries([Delivered(at, f, ip)]) == [ip]
  {
    assert [Delivered(at, f, ip)][1..] == [];
  }

  lemma NoDelivery(at: nat, reason: DropReason)
    ensures Deliveries([Dropped(at, reason)]) == []
  {
    assert [Dropped(at, reason)][1..] == [];
  }

  /** Running over a stream of frames delivers exactly the packets for the receiver, unchanged and in
      order, and leaves nothing over. */
  ghost predicate DeliversStream(a: Config, b: Config, counter: nat, chunks: seq<Bytes>, r: Receiver)
    requires a.Valid() && b.Valid()
  {
    && Progresses(TurnsOf(b))
    && var after := Run(TurnsOf(b), r);
    && after.buffer == []
    && Deliveries(after.log) == Deliveries(r.log) + SentTo(a, counter, chunks, b.localAddr)
  }

  lemma {:induction false} StreamIsDelivered(a: Config, b: Config, counter: nat, chunks: seq<Bytes>, r: Receiver)
    requires Compatible(a, b) && AllSurvive(a, chunks) && InStep(a, b, counter, chunks, r.seen)
    requires r.buffer == Stream(a, counter, chunks)
    ensures DeliversStream(a, b, counter, chunks, r)
    decreases chunks
  {
    TurnsProgress(b);
    if chunks == [] {
      assert Quiet(TurnsOf(b), r);
      assert Deliveries(r.log) + [] == Deliveries(r.log);
    } else {
      var next := CounterNext(a, counter, chunks[0]);
      if Outgo(a, counter, chunks[0]).Framed? {
        var t := HeadIsTaken(a, b, counter, chunks, r);
        StreamIsDelivered(a, b, next, chunks[1..], AfterTurn(r, t));
        HeadThenRest(a, b, counter, chunks, r, t);
      } else {
        SkippedChunk(a, b, counter, chunks, r.seen);
        assert [] + Stream(a, next, chunks[1..]) == Stream(a, next, chunks[1..]);
        StreamIsDelivered(a, b, next, chunks[1..], r);
        NothingThenRest(a, b, counter, chunks, r);
      }
    }
  }

  lemma HeadThenRest(a: Config, b: Config, counter: nat, chunks: seq<Bytes>, r: Receiver, t: Turn)
    requires a.Valid() && b.Valid() && chunks != [] && Outgo(a, counter, chunks[0]).Framed?
    requires t == TakeTurn(b, r.seen, r.buffer, r.at) && t.Advance?
    requires Deliveries(t.log)
         == (if AddrOf(Ipv4Of(chunks[0]).value) == b.localAddr then [Ipv4Of(chunks[0]).value] else [])
    requires DeliversStream(a, b, CounterNext(a, counter, chunks[0]), chunks[1..], AfterTurn(r, t))
    ensures DeliversStream(a, b, counter, chunks, r)
  {
    var rest := SentTo(a, CounterNext(a, counter, chunks[0]), chunks[1..], b.localAddr);
    RunTurn(TurnsOf(b), r, t);
    DeliveriesAppend(r.log, t.log);
    ConcatAssociates(Deliveries(r.log), Deliveries(t.log), rest);
    SentToUnfolds(a, counter, chunks, b.localAddr);
  }

  lemma SentToUnfolds(cfg: Config, counter: nat, chunks: seq<Bytes>, addr: nat)
    requires cfg.Valid() && chunks != [] && Outgo(cfg, counter, chunks[0]).Framed?
    ensures SentTo(cfg, counter, chunks, addr)
      == (if AddrOf(Ipv4Of(chunks[0]).value) == addr then [Ipv4Of(chunks[0]).value] else [])
         + SentTo(cfg, CounterNext(cfg, counter, chunks[0]), chunks[1..], addr)
  {
  }

  lemma NothingThenRest(a: Config, b: Config, counter: nat, chunks: seq<Bytes>, r: Receiver)
    requires a.Valid() && b.Valid() && chunks != [] && !Outgo(a, counter, chunks[0]).Framed?
    requires DeliversStream(a, b, CounterNext(a, counter, chunks[0]), chunks[1..], r)
    ensures DeliversStream(a, b, counter, chunks, r)
  {
    var rest := SentTo(a, CounterNext(a, counter, chunks[0]), chunks[1..], b.localAddr);
    assert [] + rest == rest;
  }

  lemma SkippedChunk(a: Config, b: Config, counter: nat, chunks: seq<Bytes>, seen: Seen)
    requires chunks != [] && InStep(a, b, counter, chunks, seen)
    ensures InStep(a, b, CounterNext(a, counter, chunks[0]), chunks[1..], seen)
  {
    if a.aeadKey.Some? && chunks[1..] != [] {
      SmallResidue(counter + 1);
    }
  }

  /** The receiver takes the first frame of the stream and stays in step. */
  lemma HeadIsTaken(a: Config, b: Config, counter: nat, chunks: seq<Bytes>, r: Receiver) returns (t: Turn)
    requires Compatible(a, b) && chunks != [] && AllSurvive(a, chunks) && InStep(a, b, counter, chunks, r.seen)
    requires r.buffer == Stream(a, counter, chunks) && Outgo(a, counter, chunks[0]).Framed?
    ensures t == TakeTurn(b, r.seen, r.buffer, r.at) && t.Advance? && t.skip <= |r.buffer|
    ensures AfterTurn(r, t).buffer == Stream(a, CounterNext(a, counter, chunks[0]), chunks[1..])
    ensures Deliveries(t.log)
         == (if AddrOf(Ipv4Of(chunks[0]).value) == b.localAddr then [Ipv4Of(chunks[0]).value] else [])
    ensures InStep(a, b, CounterNext(a, counter, chunks[0]), chunks[1..], t.seen)
  {
    var frame := Outgo(a, counter, chunks[0]).frame;
    var rest := Stream(a, CounterNext(a, counter, chunks[0]), chunks[1..]);
    assert r.buffer == frame + rest;
    FirstFrameTurn(a, b, counter, chunks[0], rest, r.seen, r.at);
    t := TakeTurn(b, r.seen, r.buffer, r.at);
    assert (frame + rest)[|frame|..] == rest;
    CounterStaysInStep(a, b, counter, chunks, r.seen, t.seen);
  }
}
