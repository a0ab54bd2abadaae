/** Inputs on which the tunnel fails: a small lawful set of library functions, nodes that use it, one
    IPv4 packet, and what becomes of the packet.
*/
module TunnelExamples {
  import Bits
  import opened Bytes
  import opened Ip2LoraCodec
  import opened AeadCodec
  import opened TunnelModel
  import opened TunnelReceive
  import opened TunnelSend
  import opened TunnelLoss
  import Crc = Crc16Xmodem
  import EndToEnd

  function Fill(n: nat, x: byte): (r: Bytes)
    ensures |r| == n && forall i :: 0 <= i < n ==> r[i] == x
  {
    seq(n, i => x)
  }

  /** A cipher that hides nothing and whose only tag is zeros. */
  function Seal(key: Bytes, nonce: Bytes, plain: Bytes, aad: Bytes): Sealed {
    Sealed(plain, Fill(TAG_LEN, 0))
  }

  function Open(key: Bytes, nonce: Bytes, ciphertext: Bytes, tag: Bytes, aad: Bytes): Option<Bytes> {
    if tag == Fill(TAG_LEN, 0) then Some(ciphertext) else None
  }

  /** Flips the last transmitted bit. Applied twice it gives the data back. */
  function FlipLastBit(s: Bytes): (r: Bytes)
    ensures |r| == |s|
  {
    if s == [] then [] else s[|s| - 1 := XorByte(s[|s| - 1], 1)]
  }

  function Flip(s: Bytes): Option<Bytes> {
    Some(FlipLastBit(s))
  }

  function Same(s: Bytes): Bytes {
    s
  }

  function Stored(s: Bytes): Option<Bytes> {
    Some(s)
  }

  /** No compression, the cipher above, and a ROHC that flips a bit. */
  function Library(): Layers {
    Layers(Same, Stored, Aead(Seal, Open), Rohc(Flip, Flip))
  }

  function Node(addr: nat, aead: bool, rohc: bool): Config {
    Config(addr, 255, None, if aead then Some(Fill(KEY_LEN, 0)) else None, false, rohc, Library())
  }

  /** A header without options, from nobody to a host whose last octet is 1. */
  function Packet(): Bytes {
    [0x45] + Fill(18, 0) + [1]
  }

  lemma FlipIsInvolution(s: Bytes)
    ensures FlipLastBit(FlipLastBit(s)) == s
  {
    if s != [] { FlippedByte(s[|s| - 1], 0); }
  }

  lemma FlippedByte(x: byte, i: nat)
    ensures Bits.Bit(XorByte(x, 1) as nat, i) == (Bits.Bit(x as nat, i) != (i == 0))
    ensures XorByte(XorByte(x, 1), 1) == x
  {
    Bits.XorCancels(x as nat, 1);
    Bits.ZipBit(Bits.XorOp, x as nat, 1, i);
    Bits.PowBit(0, i);
  }

  lemma LibraryIsLawful()
    ensures Library().Lawful()
  {
    forall x: Bytes ensures FlipLastBit(FlipLastBit(x)) == x { FlipIsInvolution(x); }
  }

  lemma NodesAreCompatible(m: nat, n: nat, aead: bool, rohc: bool)
    requires m < 16 && n < 16
    ensures Compatible(Node(m, aead, rohc), Node(n, aead, rohc))
  {
    LibraryIsLawful();
  }

  lemma PacketIsFramed(addr: nat, counter: nat, aead: bool, rohc: bool)
    requires addr < 16
    ensures Ipv4Of(Packet()) == Some(Packet()) && AddrOf(Packet()) == 1
    ensures Outgo(Node(addr, aead, rohc), counter, Packet()).Framed?
  {
    LibraryIsLawful();
    FramedExactly(Node(addr, aead, rohc), counter, Packet());
  }

  // ---------- ROHC without AEAD ----------

  /** The checksum of a flipped packet is never that of the packet. */
  lemma FlipChangesChecksum(b: byte, ip: Bytes)
    requires ip != []
    ensures Crc.Crc([b] + FlipLastBit(ip)) != Crc.Crc([b] + ip)
  {
    var x, y, n := [b] + FlipLastBit(ip), [b] + ip, |ip|;
    FlippedByte(ip[n - 1], 0);
    assert forall k :: 0 <= k < n ==> x[k] == y[k];
    assert x[n] == XorByte(y[n], 1);
    assert Bits.Bit(x[n] as nat, 0) != Bits.Bit(y[n] as nat, 0);
    forall j: nat | j < 8 * |x| && !(8 * n - 8 <= j < 8 * n + 8)
      ensures Crc.MessageBit(x, j) == Crc.MessageBit(y, j)
    {
      FlippedByte(ip[n - 1], 7 - j % 8);
    }
    Crc.BurstIsDetected(x, y, 8 * n - 8);
  }

  /** With this ROHC and no AEAD no packet survives. */
  lemma NoPacketSurvives(addr: nat, ip: Bytes)
    requires addr < 16 && ip != []
    ensures !CrcSurvives(Node(addr, false, true), ip)
  {
    var cfg := Node(addr, false, true);
    FlipChangesChecksum(PackAddrFlags(AddrOf(ip), WireFlags(cfg, FlipLastBit(ip))), ip);
  }

  lemma PacketHasPhantom(counter: nat)
    ensures
      var a := Node(2, false, true);
      && Outgo(a, counter, Packet()).Framed? && AddrOf(Packet()) == 1 && Ipv4Of(Packet()) == Some(Packet())
      && |Outgo(a, counter, Packet()).frame| == 25 && PhantomSize(FrameAt(a, counter, Packet())) == 0x100
  {
    var a := Node(2, false, true);
    PacketIsFramed(2, counter, false, true);
    FramedIsFrameOf(a, counter, Packet(), []);
    DecodedBytes(Outgo(a, counter, Packet()).frame + []);
  }

  /** Two nodes that agree on everything, with ROHC on and AEAD off: the packet is framed, and the whole
      run on the frame delivers nothing. */
  lemma RohcWithoutAeadLosesPacket(counter: nat)
    requires counter < UINT64_RANGE
    ensures
      var a, b := Node(2, false, true), Node(1, false, true);
      && Compatible(a, b) && Progresses(TurnsOf(b))
      && Outgo(a, counter, Packet()).Framed? && AddrOf(Packet()) == b.localAddr && !CrcSurvives(a, Packet())
      && Deliveries(Run(TurnsOf(b), Given(Outgo(a, counter, Packet()).frame)).log) == []
  {
    NodesAreCompatible(2, 1, false, true);
    PacketHasPhantom(counter);
    NoPacketSurvives(2, Packet());
    EndToEnd.LonePacketArrivesExactly(Node(2, false, true), Node(1, false, true), counter, Packet());
  }

  // ---------- AEAD ----------

  lemma NodesSend(addr: nat, number: nat)
    requires addr < 16 && number < UINT64_RANGE
    ensures SendsTo(Node(addr, true, false), Node(1, true, false), number, Packet())
  {
    NodesAreCompatible(addr, 1, true, false);
    PacketIsFramed(addr, number, true, false);
  }

  /** Two senders whose counters meet: the second packet is refused, whoever sent the first. */
  lemma SendersClash(number: nat, at: nat)
    requires number < UINT64_RANGE
    ensures
      var a, c, b := Node(2, true, false), Node(3, true, false), Node(1, true, false);
      var first := Sending(a, number, Packet());
      && SendsTo(a, b, number, Packet()) && SendsTo(c, b, number, Packet()) && AllSendTo([first], b)
      && var t := TakeTurn(b, SeenAfterAll(b, [first]), Outgo(c, number, Packet()).frame, at);
         t.Advance? && Deliveries(t.log) == []
  {
    var b, first, next := Node(1, true, false), Sending(Node(2, true, false), number, Packet()),
      Sending(Node(3, true, false), number, Packet());
    NodesSend(2, number);
    NodesSend(3, number);
    SendersShareOneWindow(b, [first], next, [], at);
    var frame := Outgo(next.from, number, Packet()).frame;
    assert frame + [] == frame && [first][0].number == number;
  }

  /** A frame with the highest number there is, whose tag does not match. */
  function BadFrame(): Frame {
    Frame(0x21, Nonce(UINT64_RANGE - 1) + Fill(TAG_LEN, 1), 0)
  }

  /** What the receiver reads off such a frame. */
  lemma BadFrameFields()
    ensures
      var f := BadFrame();
      && |f.wire| == NONCE_LEN + TAG_LEN && FrameNumber(f) == UINT64_RANGE - 1
      && f.wire[|f.wire| - TAG_LEN..] != Fill(TAG_LEN, 0) && f.Addr() == 1 && f.FlagBits().aead
  {
    var wire := BadFrame().wire;
    NonceCarriesCounter(UINT64_RANGE - 1);
    assert wire[..NONCE_LEN] == Nonce(UINT64_RANGE - 1);
    assert wire[|wire| - TAG_LEN..] == Fill(TAG_LEN, 1);
    assert Fill(TAG_LEN, 1)[0] != Fill(TAG_LEN, 0)[0];
  }

  lemma BadFrameDecodes()
    ensures Decode(FrameBytes(0x21, BadFrame().wire, 0)) == Decoded(BadFrame(), FrameLength(BadFrame()))
  {
    var wire := BadFrame().wire;
    var s := FrameBytes(0x21, wire, 0);
    DecodeFrameBytes(0x21, wire, 0, []);
    assert s + [] == s;
  }

  lemma BadFrameIsUnauthentic()
    ensures StartsUnauthentic(Node(1, true, false), map[], FrameBytes(0x21, BadFrame().wire, 0), BadFrame())
    ensures FrameNumber(BadFrame()) == UINT64_RANGE - 1
  {
    BadFrameDecodes();
    BadFrameFields();
    WrongTagIsUnauthentic(FrameBytes(0x21, BadFrame().wire, 0), BadFrame());
  }

  lemma WrongTagIsUnauthentic(s: Bytes, f: Frame)
    requires Decode(s) == Decoded(f, FrameLength(f)) && f.Addr() == 1 && f.FlagBits().aead
    requires |f.wire| >= NONCE_LEN + TAG_LEN && f.wire[|f.wire| - TAG_LEN..] != Fill(TAG_LEN, 0)
    ensures StartsUnauthentic(Node(1, true, false), map[], s, f)
  {
  }

  lemma ShutsOutLoneFrame(a: Config, b: Config, r: Receiver, f: Frame, chunks: seq<Bytes>,
                          counter: nat, chunk: Bytes, at: nat)
    requires StartsUnauthentic(b, r.seen, r.buffer, f) && SendsTo(a, b, counter, chunk)
    requires counter + 64 <= FrameNumber(f)
    ensures Progresses(TurnsOf(b))
    ensures RefusedAsReplay(b, FeedChunks(TurnsOf(b), Feed(TurnsOf(b), r, []), chunks).seen,
                            Outgo(a, counter, chunk).frame, at)
  {
    var frame := Outgo(a, counter, chunk).frame;
    assert frame + [] == frame;
    BadTagShutsOut(a, b, r, f, chunks, counter, chunk, [], at);
  }

  /** One such frame, and every packet a genuine sender numbers before the last 64 is refused, for as
      long as the tunnel lives and whatever else it receives. */
  lemma BadFrameSilencesSender(number: nat, chunks: seq<Bytes>, at: nat)
    requires number + 64 < UINT64_RANGE
    ensures
      var a, b := Node(2, true, false), Node(1, true, false);
      var r := Given(FrameBytes(0x21, BadFrame().wire, 0));
      && SendsTo(a, b, number, Packet()) && Progresses(TurnsOf(b))
      && RefusedAsReplay(b, FeedChunks(TurnsOf(b), Feed(TurnsOf(b), r, []), chunks).seen,
                         Outgo(a, number, Packet()).frame, at)
  {
    NodesSend(2, number);
    BadFrameIsUnauthentic();
    ShutsOutLoneFrame(Node(2, true, false), Node(1, true, false), Given(FrameBytes(0x21, BadFrame().wire, 0)),
                      BadFrame(), chunks, number, Packet(), at);
  }
}
