/** What a chunk from the TUN device becomes, byte for byte: which packet it holds, where it goes, and
    what its frame looks like on the wire.
*/
module TunnelWire {
  import opened Bytes
  import opened Ip2LoraCodec
  import opened AeadCodec
  import opened TunnelModel
  import Crc = Crc16Xmodem
  import Xor = XorCiphers

  // ---------- the packet and its destination ----------

  /** A packet on its own, by its version nibble. */
  predicate IsBare(chunk: Bytes) {
    chunk != [] && chunk[0] / 16 == 4
  }

  /** A packet behind the four bytes a TUN device may put in front, unless these look like IPv4 or IPv6. */
  predicate IsPrefixed(chunk: Bytes) {
    |chunk| > 4 && chunk[0] / 16 != 4 && chunk[0] / 16 != 6 && chunk[4] / 16 == 4
  }

  predicate HoldsPacket(chunk: Bytes) {
    IsBare(chunk) || IsPrefixed(chunk)
  }

  function PacketIn(chunk: Bytes): Bytes
    requires HoldsPacket(chunk)
  {
    if IsBare(chunk) then chunk else chunk[4..]
  }

  /** The low nibble of the last octet of the destination: byte 19 of the chunk, or byte 23 behind a
      header; 0 when the chunk is too short to hold it. */
  function DestinationOf(chunk: Bytes): (a: nat)
    requires HoldsPacket(chunk)
    ensures a < 16
  {
    var i := if IsBare(chunk) then 19 else 23;
    if i < |chunk| then chunk[i] as nat % 16 else 0
  }

  lemma PacketExactly(chunk: Bytes)
    ensures Ipv4Of(chunk).Some? <==> HoldsPacket(chunk)
    ensures HoldsPacket(chunk) ==> Ipv4Of(chunk) == Some(PacketIn(chunk))
    ensures HoldsPacket(chunk) ==> AddrOf(PacketIn(chunk)) == DestinationOf(chunk)
  {
  }

  /** Whatever four bytes stand in front, IPv4 and IPv6 aside, the packet behind them is found, and goes
      where it would go on its own. */
  lemma HeaderIsStripped(header: Bytes, ip: Bytes)
    requires |header| == 4 && header[0] / 16 != 4 && header[0] / 16 != 6 && IsBare(ip)
    ensures HoldsPacket(header + ip) && PacketIn(header + ip) == ip
    ensures DestinationOf(header + ip) == DestinationOf(ip)
  {
    assert (header + ip)[4] == ip[0];
    if |ip| > 19 { assert (header + ip)[23] == ip[19]; }
  }

  // ---------- the frame ----------

  predicate HasFlag(f: Frame, mask: nat)
    requires mask > 0
  {
    f.addrFlags as nat / mask % 2 == 1
  }

  /** The nonce a counter value gives: four zeros, and eight bytes with the lowest first. */
  predicate IsNonce(nonce: Bytes, counter: nat) {
    && |nonce| == 12 && nonce[..4] == [0, 0, 0, 0]
    && forall i :: 0 <= i < 8 ==> nonce[4 + i] as nat == counter / Pow256(i) % 256
  }

  /** Compression is used exactly when it is on and makes the payload shorter. */
  predicate IsCompression(cfg: Config, clear: Bytes, flag: bool, w: Bytes) {
    var z := cfg.layers.deflate(clear);
    && (flag <==> cfg.useZlib && |z| < |clear|)
    && w == if flag then z else clear
  }

  predicate IsCiphering(cfg: Config, w: Bytes, flag: bool, m: Bytes)
    requires cfg.Valid()
  {
    && (flag <==> cfg.cipherKey.Some?)
    && m == if flag then Xor.Mask(cfg.cipherKey.value, w) else w
  }

  /** Sealed under the nonce of this counter value, with the addr|flags byte as associated data. */
  ghost predicate IsSealing(cfg: Config, counter: nat, m: Bytes, flag: bool, f: Frame) {
    && (flag <==> cfg.aeadKey.Some?)
    && (!flag ==> f.wire == m)
    && (flag ==> exists nonce :: IsNonce(nonce, counter) && IsSealed(cfg, nonce, m, f))
  }

  predicate IsSealed(cfg: Config, nonce: Bytes, m: Bytes, f: Frame)
    requires cfg.aeadKey.Some?
  {
    var s := cfg.layers.aead.seal(cfg.aeadKey.value, nonce, m, [f.addrFlags]);
    f.wire == nonce + s.ciphertext + s.tag
  }

  /** The payload of a frame is the clear payload compressed, then masked, then sealed, and its flags say
      which of these were done. */
  ghost predicate IsLayered(cfg: Config, counter: nat, clear: Bytes, f: Frame)
    requires cfg.Valid()
  {
    exists w, m ::
      && IsCompression(cfg, clear, HasFlag(f, 0x80), w)
      && IsCiphering(cfg, w, HasFlag(f, 0x40), m)
      && IsSealing(cfg, counter, m, HasFlag(f, 0x20), f)
  }

  /** The frame of a chunk: addressed to the destination, with the layers above and a checksum over the
      addr|flags byte and the clear payload. */
  ghost predicate IsFrameOf(cfg: Config, counter: nat, chunk: Bytes, f: Frame)
    requires cfg.Valid() && HoldsPacket(chunk) && RohcAccepts(cfg, chunk)
  {
    && f.addrFlags as nat % 16 == DestinationOf(chunk) && !HasFlag(f, 0x10)
    && IsLayered(cfg, counter, ClearIn(cfg, chunk), f)
    && f.claimedCrc == Crc.Crc([f.addrFlags] + ClearIn(cfg, chunk))
  }

  predicate RohcAccepts(cfg: Config, chunk: Bytes)
    requires HoldsPacket(chunk)
  {
    cfg.useRohc ==> cfg.layers.rohc.compress(PacketIn(chunk)).Some?
  }

  /** The packet, or its ROHC form. */
  function ClearIn(cfg: Config, chunk: Bytes): Bytes
    requires HoldsPacket(chunk) && RohcAccepts(cfg, chunk)
  {
    if cfg.useRohc then cfg.layers.rohc.compress(PacketIn(chunk)).value else PacketIn(chunk)
  }

  lemma NonceExactly(counter: nat)
    ensures IsNonce(Nonce(counter), counter)
  {
    forall i | 0 <= i < 8 ensures Nonce(counter)[4 + i] as nat == counter / Pow256(i) % 256 {
      LittleEndianDigit(counter, 8, i);
    }
  }

  lemma PayloadExactly(cfg: Config, counter: nat, addr: nat, clear: Bytes, crc: nat)
    requires cfg.Valid() && addr < 16
    ensures
      var a := PackAddrFlags(addr, WireFlags(cfg, clear));
      var f := Frame(a, WirePayload(cfg, counter, addr, clear), crc);
      && IsLayered(cfg, counter, clear, f) && !HasFlag(f, 0x10) && a as nat % 16 == addr
  {
    var a := PackAddrFlags(addr, WireFlags(cfg, clear));
    var f := Frame(a, WirePayload(cfg, counter, addr, clear), crc);
    PackedBits(addr, WireFlags(cfg, clear), f);
    NonceExactly(counter);
    var w := if Compressed(cfg, clear) then cfg.layers.deflate(clear) else clear;
    assert IsCompression(cfg, clear, HasFlag(f, 0x80), w);
    assert IsCiphering(cfg, w, HasFlag(f, 0x40), Masked(cfg, clear));
    assert IsSealing(cfg, counter, Masked(cfg, clear), HasFlag(f, 0x20), f);
  }

  lemma PackedBits(addr: nat, flags: Flags, f: Frame)
    requires addr < 16 && f.addrFlags == PackAddrFlags(addr, flags)
    ensures HasFlag(f, 0x80) == flags.compress && HasFlag(f, 0x40) == flags.cipher && HasFlag(f, 0x20) == flags.aead
    ensures !HasFlag(f, 0x10) && f.addrFlags as nat % 16 == addr
  {
    UnpackPack(addr, flags);
    PackUnpack(f.addrFlags);
    assert f == Frame(PackAddrFlags(addr, flags), f.wire, f.claimedCrc);
    var g := Frame(f.addrFlags, [], 0);
    assert g.Addr() == addr && g.FlagBits() == flags;
  }

  /** Every exit of `onTunPacket`: no packet in the chunk; ROHC refuses it; a payload above 65534 bytes;
      and otherwise the bytes of the frame of the chunk, and no more. */
  lemma OutgoingExactly(cfg: Config, counter: nat, chunk: Bytes)
    requires cfg.Valid()
    ensures var out := Outgo(cfg, counter, chunk);
      && (out.NotIpv4? <==> !HoldsPacket(chunk))
      && (HoldsPacket(chunk) ==> (out.RohcFailed? <==> !RohcAccepts(cfg, chunk)))
      && (HoldsPacket(chunk) && RohcAccepts(cfg, chunk) ==>
            exists f :: IsFrameOf(cfg, counter, chunk, f) && IsSent(out, f))
  {
    PacketExactly(chunk);
    if HoldsPacket(chunk) && RohcAccepts(cfg, chunk) {
      var f := FrameIsBuilt(cfg, counter, chunk);
    }
  }

  /** A frame with a payload of up to 65534 bytes is what is sent, byte for byte; a longer one is an error. */
  predicate IsSent(out: Outgoing, f: Frame) {
    if |f.wire| > 65534 then out.TooLarge?
    else out.Framed? && LiesAt(out.frame, f) && |out.frame| == |f.wire| + 5
  }

  lemma FrameIsBuilt(cfg: Config, counter: nat, chunk: Bytes) returns (f: Frame)
    requires cfg.Valid() && HoldsPacket(chunk) && RohcAccepts(cfg, chunk)
    ensures IsFrameOf(cfg, counter, chunk, f) && IsSent(Outgo(cfg, counter, chunk), f)
  {
    PacketExactly(chunk);
    var addr, clear := DestinationOf(chunk), ClearIn(cfg, chunk);
    var a := PackAddrFlags(addr, WireFlags(cfg, clear));
    var wire := WirePayload(cfg, counter, addr, clear);
    f := Frame(a, wire, Crc.Crc([a] + clear));
    PayloadExactly(cfg, counter, addr, clear, f.claimedCrc);
    EncodeExactly(addr, WireFlags(cfg, clear), wire, clear);
    EncodedByte(addr, WireFlags(cfg, clear));
    var r := Encode(addr, WireFlags(cfg, clear), wire, clear);
    assert Outgo(cfg, counter, chunk) == if r.Encoded? then Framed(r.bytes) else TooLarge;
  }

  lemma EncodedByte(addr: nat, flags: Flags)
    requires addr < 16
    ensures PackAddrFlags(addr, flags) as int
         == addr + (if flags.compress then 128 else 0) + (if flags.cipher then 64 else 0)
            + (if flags.aead then 32 else 0)
  {
  }

  /** Every packet that reaches the cipher spends one number, framed or not; nothing else does. */
  lemma NumbersAreSpent(cfg: Config, counter: nat, chunk: Bytes)
    requires cfg.Valid()
    ensures CounterNext(cfg, counter, chunk)
         == if cfg.aeadKey.Some? && HoldsPacket(chunk) && RohcAccepts(cfg, chunk)
            then (counter + 1) % 0x1_0000_0000_0000_0000 else counter
  {
    PacketExactly(chunk);
  }
}
