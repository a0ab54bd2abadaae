/** The firmware's side of the UDP link (firmware/helionet/src/main.cpp): its native 64-bit replay
    window, the authentication in `pumpBridge` and the datagram layout of `sendToHost`.
*/
module FirmwareUdp {
  import opened Bits
  import opened Bytes
  import opened UdpAuth
  import RB = ReplayBitmap

  /** The receive buffer of `pumpBridge`; a longer datagram is cut off. */
  const RX_BUF: nat := 1500

  /** `peerSessionSeen`, `peerSessionId`, `peerHighestSeq` and `peerReplayBitmap`. */
  datatype Peer = Peer(seen: bool, sessionId: nat, highestSeq: nat, bitmap: nat)

  datatype PeerVerdict = PeerVerdict(ok: bool, next: Peer)

  const NO_PEER: Peer := Peer(false, 0, 0, 0)

  /** `udpReplayAccept` on u32 arguments. The left shift is a u64 shift: it drops what leaves the
      64 bits. */
  function ReplayAccept(p: Peer, session: nat, num: nat): PeerVerdict {
    if !p.seen || session != p.sessionId then PeerVerdict(true, Peer(true, session, num, 1))
    else if num > p.highestSeq then
      var shift := num - p.highestSeq;
      var bitmap := if shift >= 64 then 1 else Or(Low(Shl(p.bitmap, shift), 64), 1);
      PeerVerdict(true, p.(highestSeq := num, bitmap := bitmap))
    else
      var delta := p.highestSeq - num;
      if delta >= 64 then PeerVerdict(false, p)
      else if And(p.bitmap, Shl(1, delta)) != 0 then PeerVerdict(false, p)
      else PeerVerdict(true, p.(bitmap := Or(p.bitmap, Shl(1, delta))))
  }

  datatype Pumped = DropShort | DropMac | DropReplay | Fed(payload: Bytes)

  datatype PumpResult = PumpResult(outcome: Pumped, next: Peer)

  /** One datagram through `pumpBridge`, with a key installed; `Fed` holds the bytes handed to the
      command parser. */
  function Pump(hmac: Hmac, key: Bytes, p: Peer, datagram: Bytes): PumpResult {
    var buf := if |datagram| > RX_BUF then datagram[..RX_BUF] else datagram;
    if |buf| < OVERHEAD then PumpResult(DropShort, p)
    else
      var session, num := FromLittleEndian(buf[..4]), FromLittleEndian(buf[4..8]);
      var payload := buf[HDR_LEN..HDR_LEN + (|buf| - OVERHEAD)];
      var gotTag := buf[HDR_LEN + |payload|..];
      if gotTag != Tag(hmac, key, buf[..4], num, payload) then PumpResult(DropMac, p)
      else
        var v := ReplayAccept(p, session, num);
        PumpResult(if v.ok then Fed(payload) else DropReplay, v.next)
  }

  class Bridge {
    var peerSessionSeen: bool
    var peerSessionId: nat
    var peerHighestSeq: nat
    var peerReplayBitmap: nat
    var mySessionId: nat
    var myOutSeq: nat

    ghost function State(): Peer
      reads this
    {
      Peer(peerSessionSeen, peerSessionId, peerHighestSeq, peerReplayBitmap)
    }

    constructor (session: nat)
      ensures State() == NO_PEER && mySessionId == session && myOutSeq == 0
    {
      peerSessionSeen, peerSessionId, peerHighestSeq, peerReplayBitmap := false, 0, 0, 0;
      mySessionId, myOutSeq := session, 0;
    }

    method UdpReplayAccept(session: nat, num: nat) returns (ok: bool)
      modifies this
      ensures PeerVerdict(ok, State()) == ReplayAccept(old(State()), session, num)
      ensures mySessionId == old(mySessionId) && myOutSeq == old(myOutSeq)
    {
      if !peerSessionSeen || session != peerSessionId {
        peerSessionId, peerSessionSeen, peerHighestSeq, peerReplayBitmap := session, true, num, 1;
        return true;
      }
      if num > peerHighestSeq {
        var shift := num - peerHighestSeq;
        peerReplayBitmap := if shift >= 64 then 1 else Or(Low(Shl(peerReplayBitmap, shift), 64), 1);
        peerHighestSeq := num;
        return true;
      }
      var delta := peerHighestSeq - num;
      if delta >= 64 {
        return false;
      }
      var mask := Shl(1, delta);
      if And(peerReplayBitmap, mask) != 0 {
        return false;
      }
      peerReplayBitmap := Or(peerReplayBitmap, mask);
      return true;
    }

    method PumpBridge(hmac: Hmac, key: Bytes, datagram: Bytes) returns (outcome: Pumped)
      modifies this
      ensures PumpResult(outcome, State()) == Pump(hmac, key, old(State()), datagram)
      ensures mySessionId == old(mySessionId) && myOutSeq == old(myOutSeq)
    {
      var buf := if |datagram| > RX_BUF then datagram[..RX_BUF] else datagram;
      if |buf| < OVERHEAD {
        return DropShort;
      }
      var session, num := FromLittleEndian(buf[..4]), FromLittleEndian(buf[4..8]);
      var payloadLen := |buf| - OVERHEAD;
      var payload := buf[HDR_LEN..HDR_LEN + payloadLen];
      var wantTag := Tag(hmac, key, buf[..4], num, payload);
      if buf[HDR_LEN + payloadLen..] != wantTag {
        return DropMac;
      }
      var ok := UdpReplayAccept(session, num);
      outcome := if ok then Fed(payload) else DropReplay;
    }

    /** The UDP half of `sendToHost`: the same layout as the host's, under a u32 counter. */
    method SendToHost(hmac: Hmac, key: Bytes, data: Bytes) returns (datagram: Bytes)
      modifies this
      ensures datagram == Layout(hmac, key, LittleEndian(mySessionId, 4), old(myOutSeq), data)
      ensures IsTagged(hmac, key, datagram) && U32At(datagram, 0) == mySessionId % 0x1_0000_0000
      ensures IsDatagram(datagram, datagram[..4], old(myOutSeq), data)
      ensures myOutSeq == (old(myOutSeq) + 1) % UINT32_RANGE
      ensures mySessionId == old(mySessionId) && State() == old(State())
    {
      var session, num := LittleEndian(mySessionId, 4), myOutSeq;
      myOutSeq := (myOutSeq + 1) % UINT32_RANGE;
      datagram := session + LittleEndian(num, 4) + data + Tag(hmac, key, session, num, data);
      LayoutExactly(hmac, key, session, num, data);
      FourByteRoundTrip(mySessionId);
      assert forall i :: 0 <= i < 4 ==> datagram[i] == session[i];
    }
  }

  /** What `pumpBridge` makes of a datagram, of which it reads 1500 bytes: too short below 24; a bad tag
      unless the last 16 are the HMAC of all the others; and otherwise the payload between header and tag
      goes to the parser exactly when the window accepts the session and the number in front of it. */
  lemma PumpExactly(hmac: Hmac, key: Bytes, p: Peer, datagram: Bytes)
    ensures
      var d := if |datagram| <= 1500 then datagram else datagram[..1500];
      var r := Pump(hmac, key, p, datagram);
      && (r.outcome.DropShort? <==> |d| < 24)
      && (r.outcome.DropMac? <==> |d| >= 24 && !IsTagged(hmac, key, d))
      && (!IsTagged(hmac, key, d) ==> r.next == p)
      && (IsTagged(hmac, key, d) ==>
            var v := ReplayAccept(p, U32At(d, 0), U32At(d, 4));
            r == PumpResult(if v.ok then Fed(d[8..|d| - 16]) else DropReplay, v.next))
  {
    var d := if |datagram| <= 1500 then datagram else datagram[..1500];
    if |d| >= 24 {
      FourByteField(d, 0);
      FourByteField(d, 4);
      FieldRoundTrip(d[4..8]);
      assert d[..4] + d[4..8] + d[8..|d| - 16] == d[..|d| - 16];
    }
  }

  // ---------- both windows are the same machine ----------

  /** The two windows are in the same state: same session, same greatest number, same bitmap. */
  ghost predicate Same(h: SessionWindow, p: Peer) {
    if p.seen then
      && h.session.Some? && |h.session.value| == 4 && FromLittleEndian(h.session.value) == p.sessionId
      && h.window == RB.Window(p.highestSeq, p.bitmap)
    else h == UdpAuth.NO_SESSION
  }

  /** Masking a bigint to 64 bits after the shift and bit-or is the native truncating shift. */
  lemma MaskedShiftIsNativeShift(bitmap: nat, shift: nat)
    ensures And(Or(Shl(bitmap, shift), 1), Pow2(64) - 1) == Or(Low(Shl(bitmap, shift), 64), 1)
  {
    var x, y := And(Or(Shl(bitmap, shift), 1), Pow2(64) - 1), Or(Low(Shl(bitmap, shift), 64), 1);
    forall i: nat ensures Bit(x, i) == Bit(y, i) {
      RB.SlideBits(bitmap, shift, i);
      ZipBit(OrOp, Low(Shl(bitmap, shift), 64), 1, i);
      LowBit(Shl(bitmap, shift), 64, i);
      ShlBit(bitmap, shift, i);
      RB.OneBit(i);
    }
    SameBits(x, y);
  }

  lemma SessionIdsAgree(a: Bytes, b: Bytes)
    requires |a| == |b| == 4
    ensures FromLittleEndian(a) == FromLittleEndian(b) <==> a == b
  {
    FieldRoundTrip(a);
    FieldRoundTrip(b);
  }

  /** From equal states, on a 4-byte session read as u32 little-endian and a u32 number, the two
      implementations give the same verdict and reach equal states. */
  lemma SameVerdict(h: SessionWindow, p: Peer, session: Bytes, num: nat)
    requires Same(h, p) && |session| == 4 && num < UINT32_RANGE
    ensures CheckSession(h, session, num).ok == ReplayAccept(p, FromLittleEndian(session), num).ok
    ensures Same(CheckSession(h, session, num).next, ReplayAccept(p, FromLittleEndian(session), num).next)
  {
    if p.seen {
      SessionIdsAgree(h.session.value, session);
      if num > p.highestSeq { MaskedShiftIsNativeShift(p.bitmap, num - p.highestSeq); }
    }
  }

  function AfterPeers(p: Peer, run: seq<Presented>): Peer {
    if run == [] then p
    else
      var last := run[|run| - 1];
      ReplayAccept(AfterPeers(p, run[..|run| - 1]), FromLittleEndian(last.session), last.num).next
  }

  /** Over every trace of packets the firmware's window and the host's window agree, packet for
      packet and state for state. */
  lemma {:induction false} WindowsAgree(run: seq<Presented>, next: Presented)
    requires forall p :: p in run + [next] ==> |p.session| == 4 && p.num < UINT32_RANGE
    ensures Same(AfterSessions(UdpAuth.NO_SESSION, run), AfterPeers(NO_PEER, run))
    ensures CheckSession(AfterSessions(UdpAuth.NO_SESSION, run), next.session, next.num).ok
         == ReplayAccept(AfterPeers(NO_PEER, run), FromLittleEndian(next.session), next.num).ok
  {
    assert next in run + [next];
    if run != [] {
      var init, last := run[..|run| - 1], run[|run| - 1];
      assert run == init + [last];
      forall p | p in init + [last] ensures p in run + [next] {}
      WindowsAgree(init, last);
      SameVerdict(AfterSessions(UdpAuth.NO_SESSION, init), AfterPeers(NO_PEER, init), last.session, last.num);
    }
    SameVerdict(AfterSessions(UdpAuth.NO_SESSION, run), AfterPeers(NO_PEER, run), next.session, next.num);
  }
}
