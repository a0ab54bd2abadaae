/** The tunnel as the object it is in src/net/Ip2LoraTunnel.ts: a carry-over buffer, one replay window
    per peer address created on demand, and a nonce counter. What it hands to the radio and what it
    emits are recorded.
*/
module Ip2LoraTunnels {
  import opened Bytes
  import opened ReplayBitmap
  import opened Ip2LoraCodec
  import opened AeadCodec
  import opened TunnelModel
  import opened TunnelReceive
  import StreamParser
  import Xor = XorCiphers

  class Ip2LoraTunnel {
    const cfg: Config
    const cipher: Xor.XorCipher?
    const nonceCounter: NonceCounter
    var rxBuffer: Bytes
    var replayWindows: map<nat, ReplayWindow>
    /** The segments given to `sendRadioFrame`. */
    var sent: seq<Bytes>
    /** The packets written to the TUN device. */
    var written: seq<Bytes>
    /** Everything emitted about reception, and the stream position of the first byte of `rxBuffer`. */
    ghost var log: seq<Event>
    ghost var position: nat
    /** The numbers each window has accepted, and the windows themselves. */
    ghost var seen: Seen
    ghost var footprint: set<ReplayWindow>

    ghost predicate Valid()
      reads this, footprint
    {
      && cfg.Valid() && written == Deliveries(log)
      && (cipher == null <==> cfg.cipherKey.None?)
      && (cipher != null ==> cipher.key == cfg.cipherKey.value)
      && WindowsValid()
    }

    /** Every address has a window of its own, which stands for the numbers seen from it. */
    ghost predicate WindowsValid()
      reads this, footprint
    {
      && seen.Keys == replayWindows.Keys
      && (forall a :: a in replayWindows ==>
            && replayWindows[a] in footprint && replayWindows[a].peer == a
            && replayWindows[a].Valid() && replayWindows[a].accepted == seen[a])
    }

    ghost function State(): Receiver
      reads this
    {
      Receiver(rxBuffer, position, seen, log)
    }

    /** The source's constructor, which throws for an address outside 0..15, an empty cipher key and an AEAD
        key that is not 32 bytes long: no object then. */
    static method Create(lastOctet: int, maxFrame: nat, cipherKey: Option<Bytes>, aeadKey: Option<Bytes>,
                         useZlib: bool, useRohc: bool, layers: Layers, initialCounter: nat)
      returns (t: Ip2LoraTunnel?)
      requires maxFrame > 0
      ensures t == null <==>
                lastOctet < 0 || lastOctet > 15 || cipherKey == Some([]) || (aeadKey.Some? && |aeadKey.value| != 32)
      ensures t != null ==>
                && fresh(t) && t.Valid() && t.State() == START && t.sent == []
                && t.cfg == Config(lastOctet, maxFrame, cipherKey, aeadKey, useZlib, useRohc, layers)
    {
      if lastOctet < 0 || lastOctet > 15 {
        return null;
      }
      if cipherKey.Some? && |cipherKey.value| == 0 {
        return null;
      }
      if aeadKey.Some? && |aeadKey.value| != KEY_LEN {
        return null;
      }
      t := new Ip2LoraTunnel(Config(lastOctet, maxFrame, cipherKey, aeadKey, useZlib, useRohc, layers), initialCounter);
    }

    constructor (cfg: Config, initialCounter: nat)
      requires cfg.Valid()
      ensures Valid() && State() == START && sent == [] && this.cfg == cfg && footprint == {}
      ensures fresh(nonceCounter) && nonceCounter.counter == initialCounter
    {
      this.cfg := cfg;
      if cfg.cipherKey.Some? {
        cipher := new Xor.XorCipher(cfg.cipherKey.value);
      } else {
        cipher := null;
      }
      nonceCounter := new NonceCounter(initialCounter);
      rxBuffer, replayWindows, sent, written, log, position := [], map[], [], [], [], 0;
      seen, footprint := map[], {};
    }

    /** `onTunPacket`: layers, frames and segments one chunk from the TUN device. The outcome stands for
        the `drop` event, the `warn` event and the RangeError of the other exits. */
    method OnTunPacket(chunk: Bytes) returns (out: Outgoing)
      requires Valid()
      modifies this`sent, nonceCounter
      ensures Valid()
      ensures nonceCounter.counter == CounterNext(cfg, old(nonceCounter.counter), chunk)
      ensures out == Outgo(cfg, old(nonceCounter.counter), chunk)
      ensures sent == old(sent) + if out.Framed? then Segments(out.frame, cfg.maxFrame) else []
    {
      var ip := StripTunPiHeader(chunk);
      if ip.None? || ip.value[0] / 16 != 4 {
        return NotIpv4;
      }
      var addr := AddrOf(ip.value);
      var payload := ip.value;
      if cfg.useRohc {
        var c := cfg.layers.rohc.compress(payload);
        if c.None? {
          return RohcFailed;
        }
        payload := c.value;
      }
      var clearPayload := payload;
      var wirePayload, flags := CompressAndMask(clearPayload);
      if cfg.aeadKey.Some? {
        flags := flags.(aead := true);
        var nonce := nonceCounter.Next();
        var enc := cfg.layers.aead.seal(cfg.aeadKey.value, nonce, wirePayload, [PackAddrFlags(addr, flags)]);
        wirePayload := nonce + enc.ciphertext + enc.tag;
      }
      assert flags == WireFlags(cfg, clearPayload);
      assert wirePayload == WirePayload(cfg, old(nonceCounter.counter), addr, clearPayload);
      var r := EncodeFrame(addr, flags, wirePayload, clearPayload);
      if !r.Encoded? {
        return TooLarge;
      }
      SendSegments(r.bytes);
      out := Framed(r.bytes);
    }

    /** The compression and cipher layers of an outgoing packet. */
    method CompressAndMask(clearPayload: Bytes) returns (wirePayload: Bytes, flags: Flags)
      requires Valid()
      ensures wirePayload == Masked(cfg, clearPayload)
      ensures flags == WireFlags(cfg, clearPayload).(aead := false)
    {
      wirePayload := clearPayload;
      flags := Flags(false, false, false);
      if cfg.useZlib {
        var compressed := cfg.layers.deflate(clearPayload);
        if |compressed| < |clearPayload| {
          wirePayload := compressed;
          flags := flags.(compress := true);
        }
      }
      if cipher != null {
        wirePayload := cipher.Apply(wirePayload);
        flags := flags.(cipher := true);
      }
    }

    /** The segmentation loop. */
    method SendSegments(frame: Bytes)
      requires cfg.maxFrame > 0
      modifies this`sent
      ensures sent == old(sent) + Segments(frame, cfg.maxFrame)
    {
      var max := cfg.maxFrame;
      var off := 0;
      while off < |frame|
        invariant 0 <= off
        invariant off <= |frame| ==> old(sent) + Segments(frame, max) == sent + Segments(frame[off..], max)
        invariant off > |frame| ==> old(sent) + Segments(frame, max) == sent
      {
        var end := if off + max < |frame| then off + max else |frame|;
        ghost var before := sent;
        sent := sent + [frame[off..end]];
        SegmentsStep(frame, off, max, before);
        off := off + max;
      }
      assert off == |frame| ==> frame[off..] == [] && sent + [] == sent;
    }

    static lemma SegmentsStep(frame: Bytes, off: nat, max: nat, before: seq<Bytes>)
      requires max > 0 && off < |frame|
      ensures var end := if off + max < |frame| then off + max else |frame|;
        before + Segments(frame[off..], max)
          == before + [frame[off..end]] + if off + max <= |frame| then Segments(frame[off + max..], max) else []
    {
      var rest := frame[off..];
      if off + max < |frame| {
        assert rest[..max] == frame[off..off + max] && rest[max..] == frame[off + max..];
        ConcatAssociates(before, [rest[..max]], Segments(rest[max..], max));
      } else {
        assert rest == frame[off..|frame|];
        assert off + max == |frame| ==> frame[off + max..] == [];
        assert before + [rest] + [] == before + [rest];
      }
    }

    /** `replayWindowFor`. */
    method ReplayWindowFor(addr: nat, ghost known: set<nat>) returns (w: ReplayWindow)
      requires WindowsValid() && known == SeenFrom(seen, addr)
      modifies this`replayWindows, this`seen, this`footprint
      ensures WindowsValid() && fresh(footprint - old(footprint))
      ensures addr in replayWindows && w == replayWindows[addr]
      ensures if addr in old(replayWindows) then replayWindows == old(replayWindows)
              else fresh(w) && replayWindows == old(replayWindows)[addr := w]
      ensures seen == old(seen)[addr := known]
    {
      if addr in replayWindows {
        w := replayWindows[addr];
      } else {
        w := new ReplayWindow(addr);
        replayWindows := replayWindows[addr := w];
        seen := seen[addr := {}];
        footprint := footprint + {w};
      }
    }

    /** The window's verdict on a frame's number; that window moves and no other. */
    method CheckNumber(addr: nat, nonce: Bytes) returns (ok: bool)
      requires WindowsValid() && |nonce| == NONCE_LEN
      modifies this`replayWindows, this`seen, this`footprint, footprint
      ensures WindowsValid() && fresh(footprint - old(footprint))
      ensures ok <==> IsFresh(SeenFrom(old(seen), addr), SeqOf(nonce))
      ensures seen == old(seen)[addr := Accept(SeenFrom(old(seen), addr), SeqOf(nonce))]
    {
      ghost var known := SeenFrom(seen, addr);
      Overwritten(seen, addr, known, Accept(known, SeqOf(nonce)));
      var w := ReplayWindowFor(addr, known);
      ok := AskWindow(addr, w, nonce, known);
    }

    static lemma Overwritten(m: Seen, a: nat, x: set<nat>, y: set<nat>)
      ensures m[a := x][a := y] == m[a := y]
    {
    }

    method AskWindow(addr: nat, w: ReplayWindow, nonce: Bytes, ghost known: set<nat>) returns (ok: bool)
      requires WindowsValid() && |nonce| == NONCE_LEN
      requires addr in replayWindows && w == replayWindows[addr] && seen[addr] == known
      modifies w, this`seen
      ensures WindowsValid()
      ensures ok <==> IsFresh(known, SeqOf(nonce))
      ensures seen == old(seen)[addr := Accept(known, SeqOf(nonce))]
    {
      ok := w.Check(nonce);
      seen := seen[addr := Accept(known, SeqOf(nonce))];
    }

    /** The cipher, compression and ROHC layers of `recoverClearPayload`. */
    method UndoLayers(flags: Flags, wire: Bytes, ghost at: nat) returns (clear: Option<Bytes>)
      requires Valid()
      modifies this`log
      ensures Valid()
      ensures var r := TunnelModel.Settle(Unwind(cfg, flags, wire), seen, at);
        clear == r.clear && log == old(log) + r.log
    {
      var buf := wire;
      if flags.cipher {
        if cipher == null {
          return None;
        }
        buf := cipher.Apply(buf);
      }
      if flags.compress {
        var inflated := cfg.layers.inflate(buf);
        if inflated.None? {
          return None;
        }
        buf := inflated.value;
      }
      if cfg.useRohc {
        var ip := cfg.layers.rohc.decompress(buf);
        if ip.None? {
          Note(RohcWarning(at));
          return None;
        }
        buf := ip.value;
      }
      return Some(buf);
    }

    /** Emits an event that is no delivery. */
    ghost method Note(e: Event)
      requires Valid() && !e.Delivered?
      modifies this`log
      ensures Valid() && log == old(log) + [e]
    {
      DeliveriesSnoc(log, e);
      log := log + [e];
    }

    static lemma {:induction false} DeliveriesSnoc(log: seq<Event>, e: Event)
      ensures Deliveries(log + [e]) == Deliveries(log) + if e.Delivered? then [e.clear] else []
    {
      if log == [] {
        assert [e][1..] == [];
      } else {
        DeliveriesSnoc(log[1..], e);
        assert (log + [e])[1..] == log[1..] + [e];
      }
    }

    /** The AEAD layer of `recoverClearPayload`. */
    method OpenLayer(f: Frame, ghost at: nat) returns (payload: Option<Bytes>)
      requires Valid()
      modifies this`replayWindows, this`seen, this`footprint, this`log, footprint
      ensures Valid() && fresh(footprint - old(footprint))
      ensures var o := OpenFrame(cfg, old(seen), f, at);
        payload == o.payload && seen == o.seen && log == old(log) + o.log
    {
      if !f.FlagBits().aead {
        return Some(f.wire);
      }
      if cfg.aeadKey.None? {
        Note(Dropped(at, AeadNoKey));
        return None;
      }
      if |f.wire| < NONCE_LEN + TAG_LEN {
        Note(Dropped(at, AeadShort));
        return None;
      }
      var ok := CheckNumber(f.Addr(), f.wire[..NONCE_LEN]);
      if !ok {
        Note(Dropped(at, AeadReplay));
        return None;
      }
      payload := OpenAead(cfg, f);
      if payload.None? {
        Note(Dropped(at, AeadTagMismatch));
      }
    }

    /** `recoverClearPayload`. */
    method RecoverClearPayload(f: Frame, ghost at: nat) returns (clear: Option<Bytes>)
      requires Valid()
      modifies this`replayWindows, this`seen, this`footprint, this`log, footprint
      ensures Valid() && fresh(footprint - old(footprint))
      ensures var r := Recover(cfg, old(seen), f, at);
        clear == r.clear && seen == r.seen && log == old(log) + r.log
    {
      RecoverInTwo(cfg, seen, f, at);
      ghost var r, before := Recover(cfg, seen, f, at), log;
      var payload := OpenLayer(f, at);
      if payload.None? {
        return None;
      }
      assert log == before;
      clear := UndoLayers(f.FlagBits(), payload.value, at);
    }

    /** The AEAD layer, and then the layers below it. */
    static lemma RecoverInTwo(cfg: Config, seen: Seen, f: Frame, at: nat)
      requires cfg.Valid()
      ensures
        var o, r := OpenFrame(cfg, seen, f, at), Recover(cfg, seen, f, at);
        if o.payload.None? then r == Recovery(None, o.log, o.seen)
        else o.log == [] && r == TunnelModel.Settle(Unwind(cfg, f.FlagBits(), o.payload.value), o.seen, at)
    {
    }

    /** `deliverToTun`. */
    method DeliverToTun(f: Frame, ip: Bytes, ghost at: nat)
      requires Valid()
      modifies this`written, this`log
      ensures Valid() && log == old(log) + [Delivered(at, f, ip)]
    {
      DeliveriesSnoc(log, Delivered(at, f, ip));
      written := written + [ip];
      log := log + [Delivered(at, f, ip)];
    }

    /** The body of the receive loop on the rest of the buffer; 0 where the source breaks. */
    method TakeOneTurn(rest: Bytes, ghost at: nat, ghost turns: Turns) returns (skip: nat)
      requires Valid() && Implements(turns, cfg)
      modifies this`replayWindows, this`seen, this`footprint, this`log, this`written, footprint
      ensures Valid() && fresh(footprint - old(footprint))
      ensures StreamParser.TurnLeaves(turns(old(seen), rest, at), old(seen), old(log), skip, seen, log)
    {
      assert turns(seen, rest, at) == TakeTurn(cfg, seen, rest, at);
      var res := Decode(rest);
      if res.ShortHeader? || res.ShortFrame? {
        return 0;
      }
      if res.InvalidSize? {
        return 1;
      }
      var f := res.frame;
      if f.Addr() != cfg.localAddr {
        Note(Dropped(at, AddrMismatch(f.Addr())));
        return res.consumed;
      }
      ghost var before, r := log, Recover(cfg, seen, f, at);
      var clear := RecoverClearPayload(f, at);
      skip := FinishTurn(f, res.consumed, clear, at, before, r);
    }

    /** The end of a turn on a frame for the local address. */
    method FinishTurn(f: Frame, consumed: nat, clear: Option<Bytes>,
                      ghost at: nat, ghost before: seq<Event>, ghost r: Recovery) returns (skip: nat)
      requires Valid() && clear == r.clear && seen == r.seen && log == before + r.log
      modifies this`log, this`written
      ensures Valid()
      ensures var t := Conclude(f, consumed, r, at); skip == t.skip && seen == t.seen && log == before + t.log
    {
      if clear.None? {
        return 1;
      }
      if !f.FlagBits().aead && !VerifyCrc(f.addrFlags, clear.value, f.claimedCrc) {
        Note(Dropped(at, CrcMismatch));
        return 1;
      }
      DeliverToTun(f, clear.value, at);
      return consumed;
    }

    /** The receiver this object is once the first `i` bytes of the buffer are consumed. */
    ghost function Ahead(i: nat): Receiver
      requires i <= |rxBuffer|
      reads this
    {
      Receiver(rxBuffer[i..], position + i, seen, log)
    }

    /** One iteration of the receive loop. */
    method Iterate(i: nat, ghost turns: Turns, ghost run: Receiver -> Receiver) returns (skip: nat)
      requires Valid() && i <= |rxBuffer| && Implements(turns, cfg) && Progresses(turns)
      requires StreamParser.Runs(run, turns)
      modifies this`replayWindows, this`seen, this`footprint, this`log, this`written, footprint
      ensures Valid() && fresh(footprint - old(footprint)) && i + skip <= |rxBuffer|
      ensures run(old(Ahead(i))) == run(Ahead(i + skip))
      ensures skip == 0 ==> run(Ahead(i)) == Ahead(i)
    {
      ghost var t := turns(seen, rxBuffer[i..], position + i);
      skip := TakeOneTurn(rxBuffer[i..], position + i, turns);
      StreamParser.TurnGoesOn(turns, rxBuffer[i..], position + i, old(seen), old(log), t, skip, seen, log);
      StreamParser.DropDrop(rxBuffer, i, skip);
    }

    /** The receive loop: how many bytes are consumed, and what the receiver then is. */
    method ConsumeFrames(ghost turns: Turns, ghost run: Receiver -> Receiver) returns (i: nat)
      requires Valid() && Implements(turns, cfg) && Progresses(turns) && StreamParser.Runs(run, turns)
      modifies this`replayWindows, this`seen, this`footprint, this`log, this`written, footprint
      ensures Valid() && fresh(footprint - old(footprint)) && i <= |rxBuffer|
      ensures Ahead(i) == run(old(State()))
    {
      i := 0;
      assert rxBuffer[0..] == rxBuffer;
      while i < |rxBuffer|
        invariant Valid() && fresh(footprint - old(footprint)) && i <= |rxBuffer|
        invariant run(Ahead(i)) == run(old(State()))
      {
        var skip := Iterate(i, turns, run);
        if skip == 0 {
          break;
        }
        i := i + skip;
      }
      EmptyBufferWaits(turns, run, Ahead(i));
    }

    /** `onSerialBytes`: the object does what the receive loop of the model does. */
    method OnSerialBytes(chunk: Bytes)
      requires Valid()
      modifies this`rxBuffer, this`position, this`replayWindows, this`seen, this`footprint, this`log
      modifies this`written, footprint
      ensures Valid() && fresh(footprint - old(footprint))
      ensures Progresses(TurnsOf(cfg))
      ensures State() == Feed(TurnsOf(cfg), old(State()), chunk)
    {
      ghost var turns := SomeTurns(cfg);
      ghost var run := StreamParser.SomeRun(turns);
      RunsAgree(turns, cfg, Append(State(), chunk));
      rxBuffer := rxBuffer + chunk;
      var i := ConsumeFrames(turns, run);
      rxBuffer := rxBuffer[i..];
      position := position + i;
    }

    lemma EmptyBufferWaits(turns: Turns, run: Receiver -> Receiver, r: Receiver)
      requires cfg.Valid() && Implements(turns, cfg) && Progresses(turns) && StreamParser.Runs(run, turns)
      ensures r.buffer == [] ==> run(r) == r
    {
      if r.buffer == [] {
        assert TakeTurn(cfg, r.seen, r.buffer, r.at).Wait?;
        StreamParser.RunWaits(turns, r);
      }
    }
  }
}
