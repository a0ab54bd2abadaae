/** The air frame of src/frame/Ip2LoraCodec.ts:

      [u16 LE size][addr|flags][wire payload, size - 1 bytes][u16 LE crc]

    where the checksum covers the addr|flags byte and the clear payload.
*/
module Ip2LoraCodec {
  import opened Bytes
  import Crc = Crc16Xmodem

  const MIN_FRAME_SIZE: nat := 5

  datatype Flags = Flags(compress: bool, cipher: bool, aead: bool)

  /** The fields of a decoded frame; `addr` and `flags` are read off the addr|flags byte. */
  datatype Frame = Frame(addrFlags: byte, wire: Bytes, claimedCrc: nat) {
    function Addr(): nat {
      addrFlags as nat % 16
    }

    function FlagBits(): Flags {
      Flags(addrFlags as nat / 0x80 % 2 == 1, addrFlags as nat / 0x40 % 2 == 1, addrFlags as nat / 0x20 % 2 == 1)
    }
  }

  datatype EncodeResult = Encoded(bytes: Bytes) | AddrOutOfRange | PayloadTooLarge

  datatype DecodeResult = ShortHeader | InvalidSize | ShortFrame | Decoded(frame: Frame, consumed: nat)

  function PackAddrFlags(addr: nat, flags: Flags): byte
    requires addr < 16
  {
    (addr
     + (if flags.compress then 0x80 else 0)
     + (if flags.cipher then 0x40 else 0)
     + (if flags.aead then 0x20 else 0)) as byte
  }

  function FrameBytes(addrFlags: byte, wire: Bytes, crc: nat): Bytes {
    LittleEndian(|wire| + 1, 2) + [addrFlags] + wire + LittleEndian(crc, 2)
  }

  function Encode(addr: int, flags: Flags, wire: Bytes, clear: Bytes): EncodeResult {
    if addr < 0 || addr > 15 then AddrOutOfRange
    else if |wire| + 1 > 0xffff then PayloadTooLarge
    else
      var addrFlags := PackAddrFlags(addr, flags);
      Encoded(FrameBytes(addrFlags, wire, Crc.Crc([addrFlags] + clear)))
  }

  /** `encodeFrame`: fills the output buffer front to back. */
  method EncodeFrame(addr: int, flags: Flags, wire: Bytes, clear: Bytes) returns (r: EncodeResult)
    ensures r == Encode(addr, flags, wire, clear)
  {
    if addr < 0 || addr > 15 {
      return AddrOutOfRange;
    }
    var sizeField := |wire| + 1;
    if sizeField > 0xffff {
      return PayloadTooLarge;
    }
    var addrFlags := addr;
    if flags.compress { addrFlags := addrFlags + 0x80; }
    if flags.cipher { addrFlags := addrFlags + 0x40; }
    if flags.aead { addrFlags := addrFlags + 0x20; }
    var crc := Crc.Compute([addrFlags as byte] + clear);

    var out := new byte[MIN_FRAME_SIZE + |wire|];
    out[0] := (sizeField % 256) as byte;
    out[1] := (sizeField / 256 % 256) as byte;
    out[2] := addrFlags as byte;
    forall k | 0 <= k < |wire| {
      out[3 + k] := wire[k];
    }
    var p := 3 + |wire|;
    out[p] := (crc % 256) as byte;
    out[p + 1] := (crc / 256 % 256) as byte;
    TwoByteField(sizeField);
    TwoByteField(crc);
    assert out[..] == FrameBytes(addrFlags as byte, wire, crc);
    r := Encoded(out[..]);
  }

  function Decode(input: Bytes): DecodeResult {
    if |input| < MIN_FRAME_SIZE then ShortHeader
    else
      var sizeField := U16(input[0], input[1]);
      if sizeField < 1 then InvalidSize
      else if |input| < 2 + sizeField + 2 then ShortFrame
      else
        Decoded(
          Frame(input[2], input[3..2 + sizeField], U16(input[2 + sizeField], input[3 + sizeField])),
          2 + sizeField + 2)
  }

  predicate VerifyCrc(addrFlags: byte, clear: Bytes, claimed: nat) {
    Crc.Crc([addrFlags] + clear) == claimed
  }

  // ---------- frames are a self-delimiting code ----------

  lemma TwoByteField(n: nat)
    ensures LittleEndian(n, 2) == [(n % 256) as byte, (n / 256 % 256) as byte]
  {
    assert LittleEndian(n / 256, 1) == [(n / 256 % 256) as byte] + LittleEndian(n / 256 / 256, 0);
  }

  /** `s` starts with the frame `f`, byte by byte: size, addr|flags, payload, checksum. */
  predicate LiesAt(s: Bytes, f: Frame) {
    && |s| >= |f.wire| + 5
    && s[0] as nat + 256 * s[1] as nat == |f.wire| + 1
    && s[2] == f.addrFlags && s[3..3 + |f.wire|] == f.wire
    && s[3 + |f.wire|] as nat + 256 * s[4 + |f.wire|] as nat == f.claimedCrc
  }

  /** Decoding, in terms of the bytes: too short for a header; a size of zero; too short for the size; or
      exactly the frame that lies there. */
  lemma DecodeExactly(s: Bytes)
    ensures Decode(s).ShortHeader? <==> |s| < 5
    ensures Decode(s).InvalidSize? <==> |s| >= 5 && s[0] == 0 && s[1] == 0
    ensures Decode(s).ShortFrame? <==>
              |s| >= 5 && 0 < s[0] as nat + 256 * s[1] as nat && |s| < s[0] as nat + 256 * s[1] as nat + 4
    ensures forall f :: LiesAt(s, f) <==> Decode(s) == Decoded(f, |f.wire| + 5)
    ensures Decode(s).Decoded? ==> Decode(s).consumed == |Decode(s).frame.wire| + 5
  {
  }

  /** Encoding, in terms of the bytes. */
  lemma EncodeExactly(addr: int, flags: Flags, wire: Bytes, clear: Bytes)
    ensures Encode(addr, flags, wire, clear).AddrOutOfRange? <==> !(0 <= addr <= 15)
    ensures Encode(addr, flags, wire, clear).PayloadTooLarge? <==> 0 <= addr <= 15 && |wire| > 65534
    ensures Encode(addr, flags, wire, clear).Encoded? ==>
      var bytes := Encode(addr, flags, wire, clear).bytes;
      && |bytes| == |wire| + 5
      && bytes[2] as int == addr + (if flags.compress then 128 else 0) + (if flags.cipher then 64 else 0)
                            + (if flags.aead then 32 else 0)
      && LiesAt(bytes, Frame(bytes[2], wire, Crc.Crc([bytes[2]] + clear)))
  {
    if Encode(addr, flags, wire, clear).Encoded? {
      var a := PackAddrFlags(addr, flags);
      DecodeFrameBytes(a, wire, Crc.Crc([a] + clear), []);
      var bytes := Encode(addr, flags, wire, clear).bytes;
      assert bytes + [] == bytes;
      DecodeExactly(bytes);
    }
  }

  /** The unused bit 0x10 of the addr|flags byte changes neither the address nor the flags. */
  lemma UnusedBitIsIgnored(b: byte, wire: Bytes, crc: nat)
    requires b as nat % 32 < 16
    ensures Frame(b, wire, crc).Addr() == Frame(b + 16, wire, crc).Addr()
    ensures Frame(b, wire, crc).FlagBits() == Frame(b + 16, wire, crc).FlagBits()
  {
  }

  lemma DecodeFrameBytes(addrFlags: byte, wire: Bytes, crc: nat, rest: Bytes)
    requires |wire| + 1 <= 0xffff && crc < 0x1_0000
    ensures |FrameBytes(addrFlags, wire, crc)| == |wire| + MIN_FRAME_SIZE
    ensures Decode(FrameBytes(addrFlags, wire, crc) + rest)
         == Decoded(Frame(addrFlags, wire, crc), |FrameBytes(addrFlags, wire, crc)|)
  {
    var n := |wire| + 1;
    var lo, hi, c0, c1 := (n % 256) as byte, (n / 256 % 256) as byte, (crc % 256) as byte, (crc / 256 % 256) as byte;
    TwoByteField(n);
    TwoByteField(crc);
    FrameLayout([lo, hi], addrFlags, wire, [c0, c1], rest);
    FieldValue(n);
    FieldValue(crc);
  }

  lemma FieldValue(n: nat)
    requires n < 0x1_0000
    ensures U16((n % 256) as byte, (n / 256 % 256) as byte) == n
  {
  }

  /** Where the fields of a frame lie. */
  lemma FrameLayout(size: Bytes, addrFlags: byte, wire: Bytes, crc: Bytes, rest: Bytes)
    requires |size| == |crc| == 2
    ensures var s, n := size + [addrFlags] + wire + crc + rest, |wire| + 1;
      && |s| == n + 4 + |rest| && s[0] == size[0] && s[1] == size[1] && s[2] == addrFlags
      && s[3..2 + n] == wire && s[2 + n] == crc[0] && s[3 + n] == crc[1]
  {
  }

  /** Whatever follows an encoded frame, decoding gives back its address, its flags, its payload
      and the checksum of its clear payload, and consumes exactly the frame. */
  lemma DecodeUndoesEncode(addr: int, flags: Flags, wire: Bytes, clear: Bytes, rest: Bytes)
    requires Encode(addr, flags, wire, clear).Encoded?
    ensures
      var bytes := Encode(addr, flags, wire, clear).bytes;
      && Decode(bytes + rest).Decoded?
      && var Decoded(frame, consumed) := Decode(bytes + rest);
      && consumed == |bytes| && frame.Addr() == addr && frame.FlagBits() == flags && frame.wire == wire
      && frame.addrFlags == PackAddrFlags(addr, flags)
      && frame.claimedCrc == Crc.Crc([frame.addrFlags] + clear)
  {
    var addrFlags := PackAddrFlags(addr, flags);
    UnpackPack(addr, flags);
    DecodeFrameBytes(addrFlags, wire, Crc.Crc([addrFlags] + clear), rest);
  }

  lemma UnpackPack(addr: nat, flags: Flags)
    requires addr < 16
    ensures forall wire, crc ::
      var f := Frame(PackAddrFlags(addr, flags), wire, crc); f.Addr() == addr && f.FlagBits() == flags
  {
    PackedFields(addr, if flags.compress then 1 else 0, if flags.cipher then 1 else 0, if flags.aead then 1 else 0);
  }

  lemma PackedFields(addr: nat, compress: nat, cipher: nat, aead: nat)
    requires addr < 16 && compress <= 1 && cipher <= 1 && aead <= 1
    ensures
      var n := addr + 0x80 * compress + 0x40 * cipher + 0x20 * aead;
      n % 16 == addr && n / 0x80 % 2 == compress && n / 0x40 % 2 == cipher && n / 0x20 % 2 == aead
  {
    var n := addr + 0x80 * compress + 0x40 * cipher + 0x20 * aead;
    assert n / 0x80 == compress;
    assert n / 0x40 == 2 * compress + cipher;
    assert n / 0x20 == 4 * compress + 2 * cipher + aead;
  }

  /** Re-encoding a decoded frame reproduces its size, addr|flags and payload bytes exactly when
      the unused bit 0x10 of the addr|flags byte is clear. */
  lemma EncodeUndoesDecode(input: Bytes, clear: Bytes)
    requires Decode(input).Decoded?
    ensures
      var Decoded(frame, consumed) := Decode(input);
      var r := Encode(frame.Addr(), frame.FlagBits(), frame.wire, clear);
      && r.Encoded? && |r.bytes| == consumed <= |input|
      && (r.bytes[..consumed - 2] == input[..consumed - 2] <==> frame.addrFlags as nat / 0x10 % 2 == 0)
      && (VerifyCrc(frame.addrFlags, clear, frame.claimedCrc) && frame.addrFlags as nat / 0x10 % 2 == 0
          ==> r.bytes == input[..consumed])
  {
    var Decoded(frame, consumed) := Decode(input);
    var a := PackAddrFlags(frame.Addr(), frame.FlagBits());
    PackUnpack(frame.addrFlags);
    DecodedBytes(input);
    FramesDiffer(a, frame.addrFlags, frame.wire, Crc.Crc([a] + clear), frame.claimedCrc);
    assert input[..consumed][..consumed - 2] == input[..consumed - 2];
  }

  /** A decoded frame was laid out as frames are. */
  lemma DecodedBytes(input: Bytes)
    requires Decode(input).Decoded?
    ensures
      var Decoded(f, consumed) := Decode(input);
      && consumed == |f.wire| + MIN_FRAME_SIZE <= |input| && |f.wire| + 1 <= 0xffff && f.claimedCrc < 0x1_0000
      && input[..consumed] == FrameBytes(f.addrFlags, f.wire, f.claimedCrc)
  {
    var Decoded(f, consumed) := Decode(input);
    var n := U16(input[0], input[1]);
    assert |f.wire| == n - 1;
    FieldBytes(input[0], input[1]);
    FieldBytes(input[2 + n], input[3 + n]);
    Reassemble(input, n);
  }

  lemma FieldBytes(lo: byte, hi: byte)
    ensures LittleEndian(U16(lo, hi), 2) == [lo, hi]
  {
    TwoByteField(U16(lo, hi));
  }

  lemma Reassemble(input: Bytes, n: nat)
    requires n >= 1 && n + 4 <= |input|
    ensures input[..n + 4]
      == [input[0], input[1]] + [input[2]] + input[3..2 + n] + [input[2 + n], input[3 + n]]
  {
  }

  lemma FramesDiffer(a: byte, b: byte, wire: Bytes, crc: nat, crc': nat)
    ensures
      var x, y, n := FrameBytes(a, wire, crc), FrameBytes(b, wire, crc'), |wire| + 3;
      && |x| == |y| == n + 2
      && (x[..n] == y[..n] <==> a == b)
      && (a == b && crc == crc' ==> x == y)
  {
    var x, y, n := FrameBytes(a, wire, crc), FrameBytes(b, wire, crc'), |wire| + 3;
    assert x[..n] == LittleEndian(|wire| + 1, 2) + [a] + wire;
    assert y[..n] == LittleEndian(|wire| + 1, 2) + [b] + wire;
    assert x[..n][2] == a && y[..n][2] == b;
  }

  lemma PackUnpack(b: byte)
    ensures var f := Frame(b, [], 0); PackAddrFlags(f.Addr(), f.FlagBits()) == b <==> b as nat / 0x10 % 2 == 0
  {
  }

  /** A verdict on a prefix of the stream is the verdict on the stream. */
  lemma DecodeIsStable(s: Bytes, t: Bytes)
    requires Decode(s).Decoded? || Decode(s).InvalidSize?
    ensures Decode(s + t) == Decode(s)
  {
    if Decode(s).Decoded? {
      var n := U16(s[0], s[1]);
      assert (s + t)[3..2 + n] == s[3..2 + n];
    }
  }

  lemma UndecidedIsShort(s: Bytes)
    requires Decode(s).ShortHeader? || Decode(s).ShortFrame?
    ensures |s| <= 65538
  {
  }

  /** Corrupting the addr|flags byte and clear payload within 16 consecutive bits is always caught
      by the checksum of the original. */
  lemma CorruptionIsRejected(a: byte, clear: Bytes, a': byte, clear': Bytes, start: int)
    requires Crc.DifferInBurst([a] + clear, [a'] + clear', start)
    ensures VerifyCrc(a, clear, Crc.Crc([a] + clear))
    ensures !VerifyCrc(a', clear', Crc.Crc([a] + clear))
  {
    Crc.BurstIsDetected([a] + clear, [a'] + clear', start);
  }

  // ---------- segmentation ----------

  /** The pieces of at most `max` bytes a frame is cut into. */
  function Segments(frame: Bytes, max: nat): seq<Bytes>
    requires max > 0
  {
    if frame == [] then []
    else if |frame| <= max then [frame]
    else [frame[..max]] + Segments(frame[max..], max)
  }

  lemma {:induction false} SegmentsPartitionFrame(frame: Bytes, max: nat)
    requires max > 0
    ensures Concat(Segments(frame, max)) == frame
    ensures forall i :: 0 <= i < |Segments(frame, max)| ==> 1 <= |Segments(frame, max)[i]| <= max
    ensures forall i :: 0 <= i < |Segments(frame, max)| - 1 ==> |Segments(frame, max)[i]| == max
  {
    if |frame| > max {
      SegmentsPartitionFrame(frame[max..], max);
      var tail := Segments(frame[max..], max);
      var all := Segments(frame, max);
      assert all == [frame[..max]] + tail && all[1..] == tail;
      assert forall i :: 1 <= i < |all| ==> all[i] == tail[i - 1];
    } else if frame != [] {
      assert Concat([frame]) == frame + Concat([]);
    }
  }
}
