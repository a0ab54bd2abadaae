/** What the tunnel of src/net/Ip2LoraTunnel.ts does, as functions of its inputs: the layering of an
    outgoing packet, the recovery of a received frame, and the resynchronising stream parser.

    Received events carry their position in the byte stream, so that statements about disjoint
    ranges can be made; the parser's decisions do not depend on it.
*/
module TunnelModel {
  import opened Bytes
  import opened ReplayBitmap
  import opened Ip2LoraCodec
  import opened AeadCodec
  import Xor = XorCiphers

  /** ROHC as a pair of functions, failing where the library throws. */
  datatype Rohc = Rohc(compress: Bytes -> Option<Bytes>, decompress: Bytes -> Option<Bytes>)

  /** The library code below the tunnel. */
  datatype Layers = Layers(deflate: Bytes -> Bytes, inflate: Bytes -> Option<Bytes>, aead: Aead, rohc: Rohc) {
    /** Each decoder inverts its encoder; nothing else is assumed. */
    ghost predicate Lawful() {
      && (forall x: Bytes :: inflate(deflate(x)) == Some(x))
      && (forall x: Bytes :: rohc.compress(x).Some? ==> rohc.decompress(rohc.compress(x).value) == Some(x))
      && aead.Lawful()
    }
  }

  datatype Config = Config(localAddr: nat, maxFrame: nat, cipherKey: Option<Bytes>, aeadKey: Option<Bytes>,
                           useZlib: bool, useRohc: bool, layers: Layers) {
    /** What the source's constructor checks, and a positive segment size. */
    predicate Valid() {
      && localAddr < 16 && maxFrame > 0
      && (cipherKey.Some? ==> cipherKey.value != [])
      && (aeadKey.Some? ==> |aeadKey.value| == KEY_LEN)
    }
  }

  // ---------- sending ----------

  /** `stripTunPiHeader`. Reading past the end of a buffer gives 0 after a shift. */
  function StripTunPiHeader(buf: Bytes): Option<Bytes> {
    if buf == [] then None
    else if buf[0] / 16 == 4 || buf[0] / 16 == 6 then Some(buf)
    else if |buf| > 4 && buf[4] / 16 == 4 then Some(buf[4..])
    else None
  }

  /** The IPv4 packet a chunk from the TUN device holds, if any. */
  function Ipv4Of(chunk: Bytes): (r: Option<Bytes>)
    ensures r.Some? ==> r.value != []
  {
    var ip := StripTunPiHeader(chunk);
    if ip.None? || ip.value[0] / 16 != 4 then None else ip
  }

  /** The low nibble of the last octet of the destination (offset 19, section 3.1 of RFC 791); a
      packet too short to hold it is addressed to 0. */
  function AddrOf(ip: Bytes): (a: nat)
    ensures a < 16
  {
    if |ip| > 19 then ip[19] as nat % 16 else 0
  }

  function Compressed(cfg: Config, clear: Bytes): bool {
    cfg.useZlib && |cfg.layers.deflate(clear)| < |clear|
  }

  function Masked(cfg: Config, clear: Bytes): Bytes
    requires cfg.Valid()
  {
    var w := if Compressed(cfg, clear) then cfg.layers.deflate(clear) else clear;
    if cfg.cipherKey.Some? then Xor.Mask(cfg.cipherKey.value, w) else w
  }

  function WireFlags(cfg: Config, clear: Bytes): Flags {
    Flags(Compressed(cfg, clear), cfg.cipherKey.Some?, cfg.aeadKey.Some?)
  }

  function WirePayload(cfg: Config, counter: nat, addr: nat, clear: Bytes): Bytes
    requires cfg.Valid() && addr < 16
  {
    var w := Masked(cfg, clear);
    if cfg.aeadKey.None? then w
    else
      var nonce := Nonce(counter);
      var s := cfg.layers.aead.seal(cfg.aeadKey.value, nonce, w, [PackAddrFlags(addr, WireFlags(cfg, clear))]);
      nonce + s.ciphertext + s.tag
  }

  /** What becomes of a chunk from the TUN device. */
  datatype Outgoing = NotIpv4 | RohcFailed | TooLarge | Framed(frame: Bytes)

  /** The payload the outer layers work on: the packet, or its ROHC form. */
  function ClearPayload(cfg: Config, ip: Bytes): Option<Bytes> {
    if cfg.useRohc then cfg.layers.rohc.compress(ip) else Some(ip)
  }

  function Outgo(cfg: Config, counter: nat, chunk: Bytes): Outgoing
    requires cfg.Valid()
  {
    var ip := Ipv4Of(chunk);
    if ip.None? then NotIpv4
    else
      var clear := ClearPayload(cfg, ip.value);
      if clear.None? then RohcFailed
      else
        var addr := AddrOf(ip.value);
        var r := Encode(addr, WireFlags(cfg, clear.value), WirePayload(cfg, counter, addr, clear.value), clear.value);
        if r.Encoded? then Framed(r.bytes) else TooLarge
  }

  /** A nonce is spent on every packet that reaches the AEAD layer, framed or not. */
  function CounterNext(cfg: Config, counter: nat, chunk: Bytes): nat {
    var ip := Ipv4Of(chunk);
    if cfg.aeadKey.Some? && ip.Some? && ClearPayload(cfg, ip.value).Some? then NextCounter(counter) else counter
  }

  // ---------- receiving ----------

  datatype DropReason = AddrMismatch(got: nat) | AeadNoKey | AeadShort | AeadReplay | AeadTagMismatch | CrcMismatch

  datatype Event =
    | Dropped(at: nat, reason: DropReason)
    | RohcWarning(at: nat)
    | Delivered(at: nat, frame: Frame, clear: Bytes)

  /** The numbers accepted so far, for each address a replay window exists for. */
  type Seen = map<nat, set<nat>>

  ghost function SeenFrom(seen: Seen, addr: nat): set<nat> {
    if addr in seen then seen[addr] else {}
  }

  /** The layers below the AEAD, undone in reverse order. */
  datatype Unwound = Clear(bytes: Bytes) | Lost | LostInRohc

  function Unwind(cfg: Config, flags: Flags, buf: Bytes): Unwound
    requires cfg.Valid()
  {
    if flags.cipher && cfg.cipherKey.None? then Lost
    else
      var plain := if flags.cipher then Xor.Mask(cfg.cipherKey.value, buf) else buf;
      var inflated := if flags.compress then cfg.layers.inflate(plain) else Some(plain);
      if inflated.None? then Lost
      else if cfg.useRohc then
        match cfg.layers.rohc.decompress(inflated.value)
        case None => LostInRohc
        case Some(ip) => Clear(ip)
      else Clear(inflated.value)
  }

  function OpenAead(cfg: Config, f: Frame): Option<Bytes>
    requires cfg.aeadKey.Some? && |f.wire| >= NONCE_LEN + TAG_LEN
  {
    var n := |f.wire|;
    cfg.layers.aead.open(cfg.aeadKey.value, f.wire[..NONCE_LEN], f.wire[NONCE_LEN..n - TAG_LEN],
                         f.wire[n - TAG_LEN..], [f.addrFlags])
  }

  /** The number an AEAD frame carries. */
  function FrameNumber(f: Frame): nat
    requires |f.wire| >= NONCE_LEN
  {
    SeqOf(f.wire[..NONCE_LEN])
  }

  datatype Recovery = Recovery(clear: Option<Bytes>, log: seq<Event>, seen: Seen)

  ghost function Settle(u: Unwound, seen: Seen, at: nat): Recovery {
    match u
    case Clear(bytes) => Recovery(Some(bytes), [], seen)
    case Lost => Recovery(None, [], seen)
    case LostInRohc => Recovery(None, [RohcWarning(at)], seen)
  }

  datatype Opened = Opened(payload: Option<Bytes>, log: seq<Event>, seen: Seen)

  /** The AEAD layer of `recoverClearPayload`. The window moves before the tag is checked. */
  ghost function OpenFrame(cfg: Config, seen: Seen, f: Frame, at: nat): Opened {
    if !f.FlagBits().aead then Opened(Some(f.wire), [], seen)
    else if cfg.aeadKey.None? then Opened(None, [Dropped(at, AeadNoKey)], seen)
    else if |f.wire| < NONCE_LEN + TAG_LEN then Opened(None, [Dropped(at, AeadShort)], seen)
    else
      var before := SeenFrom(seen, f.Addr());
      var after := seen[f.Addr() := Accept(before, FrameNumber(f))];
      if !IsFresh(before, FrameNumber(f)) then Opened(None, [Dropped(at, AeadReplay)], after)
      else
        var plain := OpenAead(cfg, f);
        Opened(plain, if plain.None? then [Dropped(at, AeadTagMismatch)] else [], after)
  }

  /** `recoverClearPayload`. */
  ghost function Recover(cfg: Config, seen: Seen, f: Frame, at: nat): Recovery
    requires cfg.Valid()
  {
    var o := OpenFrame(cfg, seen, f, at);
    if o.payload.None? then Recovery(None, o.log, o.seen)
    else Settle(Unwind(cfg, f.FlagBits(), o.payload.value), o.seen, at)
  }

  /** One turn of the receive loop: wait for more bytes, or advance. */
  datatype Turn = Wait | Advance(skip: nat, log: seq<Event>, seen: Seen)

  /** The end of a turn on a frame for the local address, once its layers have been undone or not. */
  ghost function Conclude(f: Frame, consumed: nat, r: Recovery, at: nat): Turn {
    if r.clear.None? then Advance(1, r.log, r.seen)
    else if !f.FlagBits().aead && !VerifyCrc(f.addrFlags, r.clear.value, f.claimedCrc) then
      Advance(1, r.log + [Dropped(at, CrcMismatch)], r.seen)
    else Advance(consumed, r.log + [Delivered(at, f, r.clear.value)], r.seen)
  }

  ghost function TakeTurn(cfg: Config, seen: Seen, s: Bytes, at: nat): (t: Turn)
    requires cfg.Valid()
    ensures t.Advance? ==> 1 <= t.skip <= |s|
  {
    match Decode(s)
    case ShortHeader => Wait
    case ShortFrame => Wait
    case InvalidSize => Advance(1, [], seen)
    case Decoded(f, consumed) =>
      if f.Addr() != cfg.localAddr then Advance(consumed, [Dropped(at, AddrMismatch(f.Addr()))], seen)
      else Conclude(f, consumed, Recover(cfg, seen, f, at), at)
  }

  /** The turns of a receiver as one function value: the parser below is the same for any turns. */
  type Turns = (Seen, Bytes, nat) -> Turn

  ghost function TurnsOf(cfg: Config): Turns
    requires cfg.Valid()
  {
    (seen: Seen, s: Bytes, at: nat) => TakeTurn(cfg, seen, s, at)
  }

  ghost predicate Progresses(turns: Turns) {
    forall seen: Seen, s: Bytes, at: nat :: turns(seen, s, at).Advance? ==> 1 <= turns(seen, s, at).skip <= |s|
  }

  /** The receiver: the bytes not consumed yet, the stream position of the first of them, the
      windows, and everything that has been emitted. */
  datatype Receiver = Receiver(buffer: Bytes, at: nat, seen: Seen, log: seq<Event>)

  const START: Receiver := Receiver([], 0, map[], [])

  ghost function AfterTurn(r: Receiver, t: Turn): Receiver
    requires t.Advance? && t.skip <= |r.buffer|
  {
    Receiver(r.buffer[t.skip..], r.at + t.skip, t.seen, r.log + t.log)
  }

  /** The receive loop: turns until one waits. */
  ghost function Run(turns: Turns, r: Receiver): Receiver
    requires Progresses(turns)
    decreases |r.buffer|
  {
    var t := turns(r.seen, r.buffer, r.at);
    if t.Wait? then r else Run(turns, AfterTurn(r, t))
  }

  ghost function Append(r: Receiver, chunk: Bytes): Receiver {
    r.(buffer := r.buffer + chunk)
  }

  /** `onSerialBytes`. */
  ghost function Feed(turns: Turns, r: Receiver, chunk: Bytes): Receiver
    requires Progresses(turns)
  {
    Run(turns, Append(r, chunk))
  }

  ghost function FeedChunks(turns: Turns, r: Receiver, chunks: seq<Bytes>): Receiver
    requires Progresses(turns)
    decreases chunks
  {
    if chunks == [] then r else FeedChunks(turns, Feed(turns, r, chunks[0]), chunks[1..])
  }

  /** The packets written to the TUN device. */
  ghost function Deliveries(log: seq<Event>): seq<Bytes> {
    if log == [] then []
    else (if log[0].Delivered? then [log[0].clear] else []) + Deliveries(log[1..])
  }
}
