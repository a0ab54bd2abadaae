/** The authenticated datagram channel between host and firmware, in either direction: one sender
    numbering its packets, and a network that drops, duplicates, delays and reorders them and may
    inject datagrams that do not authenticate.
*/
module UdpChannel {
  import opened Bytes
  import opened ReplayBitmap
  import opened UdpAuth
  import Firmware = FirmwareUdp

  datatype Received = Received(payload: Option<Bytes>, next: SessionWindow)

  /** The authentication and replay part of the host's `onUdpMessage`. */
  function Receive(hmac: Hmac, key: Bytes, w: SessionWindow, datagram: Bytes): Received {
    var u := Unwrap(hmac, key, datagram);
    if !u.Authentic? then Received(None, w)
    else
      var v := CheckSession(w, u.packet.session, u.packet.num);
      Received(if v.ok then Some(u.packet.payload) else None, v.next)
  }

  /** One arrival: the `i`-th packet sent, or something else off the network. */
  datatype Arrival = Packet(i: nat) | Junk(datagram: Bytes)

  /** The sequence number of the `i`-th packet. */
  function Number(i: nat): (n: nat)
    ensures n < UINT32_RANGE
    ensures i < UINT32_RANGE ==> n == i
  {
    i % UINT32_RANGE
  }

  datatype Channel = Channel(hmac: Hmac, key: Bytes, session: Bytes, payloads: seq<Bytes>) {
    /** A key and a session the sender takes. Any number of packets: the counter may wrap. */
    ghost predicate Valid() {
      |key| == KEY_LEN && |session| == 4
    }

    /** The datagram that arrives; the sender's `k`-th packet carries `k` modulo 2^32. */
    function Datagram(a: Arrival): Bytes
      requires a.Packet? ==> a.i < |payloads|
    {
      match a
      case Packet(i) => Layout(hmac, key, session, Number(i), payloads[i])
      case Junk(d) => d
    }

    /** A schedule: every arrival is a packet that was sent or fails authentication. */
    ghost predicate Schedule(arrivals: seq<Arrival>) {
      forall k :: 0 <= k < |arrivals| ==>
        match arrivals[k]
        case Packet(i) => i < |payloads|
        case Junk(d) => !Unwrap(hmac, key, d).Authentic?
    }

    ghost function HostAfter(arrivals: seq<Arrival>): SessionWindow
      requires Schedule(arrivals)
    {
      if arrivals == [] then NO_SESSION
      else
        var n := |arrivals| - 1;
        Receive(hmac, key, HostAfter(arrivals[..n]), Datagram(arrivals[n])).next
    }

    /** What the host hands up for the `k`-th arrival. */
    ghost function HandedUp(arrivals: seq<Arrival>, k: nat): Option<Bytes>
      requires Schedule(arrivals) && k < |arrivals|
    {
      Receive(hmac, key, HostAfter(arrivals[..k]), Datagram(arrivals[k])).payload
    }

    ghost function FirmwareAfter(arrivals: seq<Arrival>): Firmware.Peer
      requires Schedule(arrivals)
    {
      if arrivals == [] then Firmware.NO_PEER
      else
        var n := |arrivals| - 1;
        Firmware.Pump(hmac, key, FirmwareAfter(arrivals[..n]), Datagram(arrivals[n])).next
    }

    /** What the firmware feeds its parser for the `k`-th arrival. */
    ghost function FedToParser(arrivals: seq<Arrival>, k: nat): Firmware.Pumped
      requires Schedule(arrivals) && k < |arrivals|
    {
      Firmware.Pump(hmac, key, FirmwareAfter(arrivals[..k]), Datagram(arrivals[k])).outcome
    }

    /** The sequence numbers of the genuine packets among the arrivals. */
    ghost function Genuine(arrivals: seq<Arrival>): seq<nat> {
      if arrivals == [] then []
      else
        var n := |arrivals| - 1;
        Genuine(arrivals[..n]) + if arrivals[n].Packet? then [Number(arrivals[n].i)] else []
    }
  }

  lemma ReceiveGenuine(c: Channel, w: SessionWindow, i: nat)
    requires c.Valid() && i < |c.payloads|
    ensures
      var v := CheckSession(w, c.session, Number(i));
      Receive(c.hmac, c.key, w, c.Datagram(Packet(i)))
        == Received(if v.ok then Some(c.payloads[i]) else None, v.next)
  {
    UnwrapUndoesWrap(c.hmac, c.key, c.session, Number(i), c.payloads[i]);
  }

  lemma PrefixIsSchedule(c: Channel, arrivals: seq<Arrival>, k: nat)
    requires c.Schedule(arrivals) && k <= |arrivals|
    ensures c.Schedule(arrivals[..k])
  {
  }

  /** The window of a receiver that has met the numbers `g` of one session and nothing else. */
  ghost function OneSession(session: Bytes, g: seq<nat>): SessionWindow {
    if g == [] then NO_SESSION else SessionWindow(Some(session), After(Unset, g))
  }

  lemma OneSessionStep(session: Bytes, g: seq<nat>, i: nat)
    requires |session| == 4 && i < UINT32_RANGE
    ensures CheckSession(OneSession(session, g), session, i).next == OneSession(session, g + [i])
    ensures CheckSession(OneSession(session, g), session, i).ok <==> IsFresh(Accepted(g), i)
  {
    AfterOneMore(g, i);
    if g == [] {
      assert Accepted([]) == {};
    } else {
      LaterInSession(session, After(Unset, g), i);
      WindowRefinesSet(g, i);
    }
  }

  lemma LaterInSession(session: Bytes, w: Window, i: nat)
    requires |session| == 4 && i < UINT32_RANGE
    ensures var v := Check(w, i);
      CheckSession(SessionWindow(Some(session), w), session, i)
        == SessionVerdict(v.ok, SessionWindow(Some(session), v.window))
  {
  }

  lemma AfterOneMore(g: seq<nat>, i: nat)
    ensures After(Unset, g + [i]) == Check(After(Unset, g), i).window
  {
    assert (g + [i])[..|g|] == g;
  }

  /** The receiver's window is the window of the genuine arrivals alone. */
  lemma {:induction false} HostStateTracksGenuine(c: Channel, arrivals: seq<Arrival>)
    requires c.Valid() && c.Schedule(arrivals)
    ensures c.HostAfter(arrivals) == OneSession(c.session, c.Genuine(arrivals))
  {
    if arrivals != [] {
      var n := |arrivals| - 1;
      HostStateTracksGenuine(c, arrivals[..n]);
      if arrivals[n].Packet? {
        ReceiveGenuine(c, c.HostAfter(arrivals[..n]), arrivals[n].i);
        OneSessionStep(c.session, c.Genuine(arrivals[..n]), Number(arrivals[n].i));
      } else {
        assert c.Genuine(arrivals) == c.Genuine(arrivals[..n]);
      }
    }
  }

  /** A number is among the genuine ones exactly when some genuine packet carries it. */
  lemma {:induction false} GenuineMembers(c: Channel, arrivals: seq<Arrival>, n: nat)
    ensures n in c.Genuine(arrivals)
      <==> exists j :: 0 <= j < |arrivals| && arrivals[j].Packet? && Number(arrivals[j].i) == n
  {
    if arrivals != [] {
      var last := |arrivals| - 1;
      var init := arrivals[..last];
      GenuineMembers(c, init, n);
      if n in c.Genuine(init) {
        var j :| 0 <= j < last && init[j].Packet? && Number(init[j].i) == n;
        assert arrivals[j].Packet? && Number(arrivals[j].i) == n;
      }
      if j :| 0 <= j < |arrivals| && arrivals[j].Packet? && Number(arrivals[j].i) == n {
        if j < last { assert init[j].Packet? && Number(init[j].i) == n; }
      }
    }
  }

  /** Arrival `k` is a genuine packet whose number is that of no genuine packet before it, and less
      than 64 behind each of theirs. */
  ghost predicate IsTimelyFirst(arrivals: seq<Arrival>, k: nat)
    requires k < |arrivals|
  {
    && arrivals[k].Packet?
    && forall j :: 0 <= j < k && arrivals[j].Packet? ==>
         Number(arrivals[j].i) != Number(arrivals[k].i) && Number(arrivals[j].i) < Number(arrivals[k].i) + 64
  }

  lemma FreshIsTimely(c: Channel, arrivals: seq<Arrival>, k: nat)
    requires k < |arrivals| && arrivals[k].Packet?
    ensures IsFresh(Accepted(c.Genuine(arrivals[..k])), Number(arrivals[k].i)) <==> IsTimelyFirst(arrivals, k)
  {
    var g, num := c.Genuine(arrivals[..k]), Number(arrivals[k].i);
    FreshExactly(g, num);
    if IsTimelyFirst(arrivals, k) {
      forall n | n in g ensures n != num && n < num + 64 {
        GenuineMembers(c, arrivals[..k], n);
        var j :| 0 <= j < k && arrivals[..k][j].Packet? && Number(arrivals[..k][j].i) == n;
        assert arrivals[j].Packet?;
      }
    }
    forall j | 0 <= j < k && arrivals[j].Packet? ensures Number(arrivals[j].i) in g {
      GenuineMembers(c, arrivals[..k], Number(arrivals[j].i));
      assert arrivals[..k][j].Packet?;
    }
  }

  /** For any number of packets and any schedule: an arrival hands up its payload, byte for byte,
      if and only if it is genuine and its number is new and less than 64 behind those of all genuine
      packets before it. Everything else hands up nothing. */
  lemma HandedUpExactly(c: Channel, arrivals: seq<Arrival>, k: nat)
    requires c.Valid() && c.Schedule(arrivals) && k < |arrivals|
    ensures c.HandedUp(arrivals, k)
      == if IsTimelyFirst(arrivals, k) then Some(c.payloads[arrivals[k].i]) else None
  {
    PrefixIsSchedule(c, arrivals, k);
    HostStateTracksGenuine(c, arrivals[..k]);
    if arrivals[k].Packet? {
      ReceiveGenuine(c, c.HostAfter(arrivals[..k]), arrivals[k].i);
      OneSessionStep(c.session, c.Genuine(arrivals[..k]), Number(arrivals[k].i));
      FreshIsTimely(c, arrivals, k);
    }
  }

  /** Safety and tolerance over every schedule: a packet is handed up at most once, nothing is handed
      up but packets that were sent, and, as long as the counter has not wrapped, a packet is handed
      up on its first arrival whenever it is less than 64 behind every packet that arrived before. */
  lemma ChannelSafetyAndTolerance(c: Channel, arrivals: seq<Arrival>)
    requires c.Valid() && c.Schedule(arrivals)
    ensures forall j, k | 0 <= j < k < |arrivals| && arrivals[j] == arrivals[k] && c.HandedUp(arrivals, j).Some?
              :: c.HandedUp(arrivals, k).None?
    ensures forall k | 0 <= k < |arrivals| && c.HandedUp(arrivals, k).Some?
              :: arrivals[k].Packet? && c.HandedUp(arrivals, k).value == c.payloads[arrivals[k].i]
    ensures |c.payloads| <= UINT32_RANGE ==>
              forall k | 0 <= k < |arrivals| && arrivals[k].Packet?
                :: (c.HandedUp(arrivals, k).Some?
                    <==> forall j :: 0 <= j < k && arrivals[j].Packet? ==>
                           arrivals[j] != arrivals[k] && arrivals[j].i < arrivals[k].i + 64)
  {
    forall k | 0 <= k < |arrivals|
      ensures c.HandedUp(arrivals, k)
        == if IsTimelyFirst(arrivals, k) then Some(c.payloads[arrivals[k].i]) else None
    {
      HandedUpExactly(c, arrivals, k);
    }
    forall j, k | 0 <= j < k < |arrivals| && arrivals[j] == arrivals[k] && c.HandedUp(arrivals, j).Some?
      ensures !IsTimelyFirst(arrivals, k)
    {
      assert arrivals[j].Packet?;
    }
  }

  /** The counter wraps, but the window does not follow: once the packet numbered 2^32 - 1 has
      arrived, none of the 2^32 - 64 packets after it is ever handed up. */
  lemma WrapIsNotTolerated(c: Channel, arrivals: seq<Arrival>, j: nat, k: nat)
    requires c.Valid() && c.Schedule(arrivals) && j < k < |arrivals|
    requires arrivals[j] == Packet(UINT32_RANGE - 1)
    requires arrivals[k].Packet? && UINT32_RANGE <= arrivals[k].i < 2 * UINT32_RANGE - 64
    ensures c.HandedUp(arrivals, k).None?
  {
    HandedUpExactly(c, arrivals, k);
    assert Number(arrivals[k].i) == arrivals[k].i - UINT32_RANGE;
    assert arrivals[j].Packet? && !(Number(arrivals[j].i) < Number(arrivals[k].i) + 64);
  }

  // ---------- the firmware receives what the host would ----------

  lemma PumpIsReceive(hmac: Hmac, key: Bytes, w: SessionWindow, p: Firmware.Peer, datagram: Bytes)
    requires Firmware.Same(w, p) && |key| == KEY_LEN && |datagram| <= Firmware.RX_BUF
    ensures
      var r, f := Receive(hmac, key, w, datagram), Firmware.Pump(hmac, key, p, datagram);
      && Firmware.Same(r.next, f.next)
      && (if r.payload.Some? then f.outcome == Firmware.Fed(r.payload.value) else !f.outcome.Fed?)
  {
    if |datagram| >= OVERHEAD {
      var n := |datagram| - TAG_LEN;
      assert HDR_LEN + (|datagram| - OVERHEAD) == n;
      ThirtyTwoBits();
      FromLittleEndianBound(datagram[4..8]);
      Firmware.SameVerdict(w, p, datagram[..4], FromLittleEndian(datagram[4..8]));
    }
  }

  lemma {:induction false} FirmwareStateAgrees(c: Channel, arrivals: seq<Arrival>)
    requires c.Valid() && c.Schedule(arrivals)
    requires forall k :: 0 <= k < |arrivals| ==> |c.Datagram(arrivals[k])| <= Firmware.RX_BUF
    ensures Firmware.Same(c.HostAfter(arrivals), c.FirmwareAfter(arrivals))
  {
    if arrivals != [] {
      var n := |arrivals| - 1;
      FirmwareStateAgrees(c, arrivals[..n]);
      PumpIsReceive(c.hmac, c.key, c.HostAfter(arrivals[..n]), c.FirmwareAfter(arrivals[..n]), c.Datagram(arrivals[n]));
    }
  }

  /** On every schedule of datagrams that fit its buffer, the firmware feeds its parser exactly what
      the host would have handed up. */
  lemma FirmwareFeedsWhatHostHandsUp(c: Channel, arrivals: seq<Arrival>, k: nat)
    requires c.Valid() && c.Schedule(arrivals) && k < |arrivals|
    requires forall j :: 0 <= j < |arrivals| ==> |c.Datagram(arrivals[j])| <= Firmware.RX_BUF
    ensures c.HandedUp(arrivals, k).Some? ==> c.FedToParser(arrivals, k) == Firmware.Fed(c.HandedUp(arrivals, k).value)
    ensures c.HandedUp(arrivals, k).None? ==> !c.FedToParser(arrivals, k).Fed?
  {
    PrefixIsSchedule(c, arrivals, k);
    FirmwareStateAgrees(c, arrivals[..k]);
    PumpIsReceive(c.hmac, c.key, c.HostAfter(arrivals[..k]), c.FirmwareAfter(arrivals[..k]), c.Datagram(arrivals[k]));
  }
}
