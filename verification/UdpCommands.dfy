/** Commands over the datagram channel: the host puts one framed command into each datagram, and the
    board feeds what `pumpBridge` accepts to its command parser.
*/
module UdpCommands {
  import opened Bytes
  import opened UdpAuth
  import opened UdpChannel
  import P = FirmwareParser
  import Firmware = FirmwareUdp

  /** The channel of a host that sends these commands. */
  function Sender(hmac: Hmac, key: Bytes, session: Bytes, commands: seq<P.Command>): Channel {
    Channel(hmac, key, session, seq(|commands|, i requires 0 <= i < |commands| => P.Framed(commands[i])))
  }

  /** The board's parser after the arrivals, and the commands it has dispatched. */
  ghost function BoardAfter(c: Channel, arrivals: seq<Arrival>): P.Parsed
    requires c.Schedule(arrivals)
  {
    if arrivals == [] then P.Parsed(P.Idle, [])
    else
      var n := |arrivals| - 1;
      var before := BoardAfter(c, arrivals[..n]);
      match c.FedToParser(arrivals, n)
      case Fed(payload) =>
        var p := P.Feed(before.state, payload);
        P.Parsed(p.state, before.commands + p.commands)
      case _ => before
  }

  /** The commands of the timely first arrivals, in order of arrival. */
  ghost function TimelyCommands(commands: seq<P.Command>, arrivals: seq<Arrival>): seq<P.Command>
    requires forall k :: 0 <= k < |arrivals| && arrivals[k].Packet? ==> arrivals[k].i < |commands|
  {
    if arrivals == [] then []
    else
      var n := |arrivals| - 1;
      TimelyCommands(commands, arrivals[..n])
      + if IsTimelyFirst(arrivals, n) then [commands[arrivals[n].i]] else []
  }

  /** Every command has a body the parser takes, and no arrival is longer than the board's buffer. */
  ghost predicate Deliverable(c: Channel, commands: seq<P.Command>, arrivals: seq<Arrival>) {
    && c.Valid() && c == Sender(c.hmac, c.key, c.session, commands) && c.Schedule(arrivals)
    && (forall i :: 0 <= i < |commands| ==> P.Fits(commands[i]))
    && (forall k :: 0 <= k < |arrivals| && arrivals[k].Junk? ==> |arrivals[k].datagram| <= Firmware.RX_BUF)
  }

  lemma DatagramsFit(c: Channel, commands: seq<P.Command>, arrivals: seq<Arrival>)
    requires Deliverable(c, commands, arrivals)
    ensures forall k :: 0 <= k < |arrivals| ==> |c.Datagram(arrivals[k])| <= Firmware.RX_BUF
  {
    forall k | 0 <= k < |arrivals| ensures |c.Datagram(arrivals[k])| <= Firmware.RX_BUF {
      if arrivals[k].Packet? {
        assert c.payloads[arrivals[k].i] == P.Framed(commands[arrivals[k].i]);
        assert P.Fits(commands[arrivals[k].i]);
      }
    }
  }

  /** Over any schedule the board dispatches exactly the commands of the timely first arrivals, in order
      of arrival, and its parser is idle after each. */
  lemma {:induction false} BoardDispatchesTimelyCommands(c: Channel, commands: seq<P.Command>, arrivals: seq<Arrival>)
    requires Deliverable(c, commands, arrivals)
    ensures BoardAfter(c, arrivals) == P.Parsed(P.Idle, TimelyCommands(commands, arrivals))
  {
    if arrivals != [] {
      var n := |arrivals| - 1;
      BoardDispatchesTimelyCommands(c, commands, arrivals[..n]);
      DatagramsFit(c, commands, arrivals);
      FirmwareFeedsWhatHostHandsUp(c, arrivals, n);
      HandedUpExactly(c, arrivals, n);
      var earlier := TimelyCommands(commands, arrivals[..n]);
      assert earlier + [] == earlier;
      if IsTimelyFirst(arrivals, n) {
        var command := commands[arrivals[n].i];
        assert c.payloads[arrivals[n].i] == P.Framed(command);
        P.CommandRoundTrip(command);
      }
    }
  }
}
