/** The whole way of a packet: tunnel A, the framing of its host, the board's command parser, the air,
    the other board's printing, the other host's splitter, and tunnel B.
*/
module EndToEnd {
  import opened Bytes
  import opened Ip2LoraCodec
  import opened AeadCodec
  import opened TunnelModel
  import opened TunnelReceive
  import opened TunnelSend
  import opened TunnelLoss
  import opened TunnelRuns
  import opened StreamParser
  import P = FirmwareParser
  import S = FrameLogSplitters

  // ---------- from tunnel A to the air ----------

  /** The segments tunnel A gives to `sendRadioFrame`, in order. */
  function SegmentsSent(a: Config, counter: nat, chunks: seq<Bytes>): seq<Bytes>
    requires a.Valid()
    decreases chunks
  {
    if chunks == [] then []
    else
      var out := Outgo(a, counter, chunks[0]);
      (if out.Framed? then Segments(out.frame, a.maxFrame) else [])
      + SegmentsSent(a, CounterNext(a, counter, chunks[0]), chunks[1..])
  }

  lemma {:induction false} SegmentsCarryStream(a: Config, counter: nat, chunks: seq<Bytes>)
    requires a.Valid()
    ensures Concat(SegmentsSent(a, counter, chunks)) == Stream(a, counter, chunks)
    ensures forall i :: 0 <= i < |SegmentsSent(a, counter, chunks)| ==>
              1 <= |SegmentsSent(a, counter, chunks)[i]| <= a.maxFrame
    decreases chunks
  {
    if chunks != [] {
      var out, next := Outgo(a, counter, chunks[0]), CounterNext(a, counter, chunks[0]);
      SegmentsCarryStream(a, next, chunks[1..]);
      var head := if out.Framed? then Segments(out.frame, a.maxFrame) else [];
      var rest := SegmentsSent(a, next, chunks[1..]);
      if out.Framed? { SegmentsPartitionFrame(out.frame, a.maxFrame); }
      ConcatAppend(head, rest);
      assert SegmentsSent(a, counter, chunks) == head + rest;
    }
  }

  /** What A's board puts on the air: every segment is framed for the serial link, and the board's
      parser dispatches and transmits what it finds in the byte stream. */
  function OnTheAir(a: Config, counter: nat, chunks: seq<Bytes>): seq<Bytes>
    requires a.Valid()
  {
    P.Transmitted(P.Feed(P.Idle, P.FramedAll(P.Sends(SegmentsSent(a, counter, chunks)))).commands)
  }

  lemma AirCarriesSegments(a: Config, counter: nat, chunks: seq<Bytes>)
    requires a.Valid() && a.maxFrame <= P.MAX_PAYLOAD
    ensures OnTheAir(a, counter, chunks) == SegmentsSent(a, counter, chunks)
  {
    SegmentsCarryStream(a, counter, chunks);
    P.SegmentsReachTheAir(SegmentsSent(a, counter, chunks));
  }

  // ---------- from the air to tunnel B ----------

  /** The packets B's board receives without error. */
  function GoodPackets(items: seq<S.Item>): seq<Bytes> {
    if items == [] then []
    else
      (match items[0]
       case Noise(_) => []
       case LogLine(_) => []
       case Received(r) => if S.GoodLength(r) && r.status == 0 then [r.packet] else [])
      + GoodPackets(items[1..])
  }

  /** The `data` events among what the splitter emits. */
  function DataEvents(events: seq<S.Event>): seq<Bytes> {
    if events == [] then []
    else (if events[0].Frame? then [events[0].frame] else []) + DataEvents(events[1..])
  }

  lemma {:induction false} DataEventsAppend(x: seq<S.Event>, y: seq<S.Event>)
    ensures DataEvents(x + y) == DataEvents(x) + DataEvents(y)
  {
    if x == [] {
      assert x + y == y;
    } else {
      DataEventsAppend(x[1..], y);
      ConcatTail(x, y);
      ConcatAssociates(if x[0].Frame? then [x[0].frame] else [], DataEvents(x[1..]), DataEvents(y));
    }
  }

  lemma ItemData(item: S.Item)
    ensures DataEvents(S.Expected(item))
      == match item
         case Noise(_) => []
         case LogLine(_) => []
         case Received(r) => if S.GoodLength(r) && r.status == 0 then [r.packet] else []
  {
    var e := S.Expected(item);
    if e != [] {
      assert DataEvents([]) == [];
      if |e| == 2 {
        assert e[1..] == [e[1]] && [e[1]][1..] == [];
      } else {
        assert e[1..] == [];
      }
    }
  }

  lemma {:induction false} ExpectedData(items: seq<S.Item>)
    ensures DataEvents(S.ExpectedAll(items)) == GoodPackets(items)
  {
    if items != [] {
      ItemData(items[0]);
      ExpectedData(items[1..]);
      DataEventsAppend(S.Expected(items[0]), S.ExpectedAll(items[1..]));
    }
  }

  /** Tunnel B after its serial port has delivered these chunks. */
  ghost function TunnelAfter(b: Config, serial: seq<Bytes>): Receiver
    requires b.Valid()
  {
    Received(b, DataEvents(S.FeedChunks(S.Scan, serial).events))
  }

  /** What B's board hears is what is on the air, and this is how it reaches B's host: among other
      lines, and in any chunks. */
  ghost predicate LinkCarries(air: seq<Bytes>, items: seq<S.Item>, serial: seq<Bytes>) {
    && (forall i :: 0 <= i < |items| ==> S.Printable(items[i]))
    && GoodPackets(items) == air && Concat(serial) == S.PrintedAll(items)
  }

  /** B's host hands its tunnel the packets off the air, in order, whatever the board prints in
      between and however the serial stream is chunked. */
  lemma SerialCarriesPackets(air: seq<Bytes>, items: seq<S.Item>, serial: seq<Bytes>)
    requires LinkCarries(air, items, serial)
    ensures DataEvents(S.FeedChunks(S.Scan, serial).events) == air
    ensures S.FeedChunks(S.Scan, serial).state == S.Scan
  {
    S.SplitterUndoesPrinterInChunks(items, serial);
    ExpectedData(items);
  }

  /** B's tunnel meets the frames of A as one stream. */
  lemma TunnelMeetsStream(a: Config, b: Config, counter: nat, chunks: seq<Bytes>,
                          items: seq<S.Item>, serial: seq<Bytes>)
    requires a.Valid() && b.Valid() && a.maxFrame <= P.MAX_PAYLOAD
    requires LinkCarries(OnTheAir(a, counter, chunks), items, serial)
    ensures Progresses(TurnsOf(b))
    ensures TunnelAfter(b, serial) == Run(TurnsOf(b), Given(Stream(a, counter, chunks)))
  {
    SerialCarriesPackets(OnTheAir(a, counter, chunks), items, serial);
    AirCarriesSegments(a, counter, chunks);
    SegmentsCarryStream(a, counter, chunks);
    ReceivedIsOneRun(b, OnTheAir(a, counter, chunks));
  }

  /** B can undo what A does, A's segments fit the board, A's counter does not wrap, and without AEAD the
      checksums survive ROHC (which they do whenever it is off). */
  ghost predicate CanTalk(a: Config, b: Config, counter: nat, chunks: seq<Bytes>) {
    && Compatible(a, b) && a.maxFrame <= P.MAX_PAYLOAD
    && (a.aeadKey.Some? ==> counter + |chunks| <= UINT64_RANGE)
    && AllSurvive(a, chunks)
  }

  /** End to end, over an air link that delivers in order: for any chunks from A's TUN device, tunnel B
      writes exactly the framed packets whose address is B's, unchanged and in order, and is left with
      an empty buffer. Boards may print other lines around the frames and the serial stream may be
      chunked in any way. */
  lemma PacketsArrive(a: Config, b: Config, counter: nat, chunks: seq<Bytes>, items: seq<S.Item>, serial: seq<Bytes>)
    requires CanTalk(a, b, counter, chunks) && LinkCarries(OnTheAir(a, counter, chunks), items, serial)
    ensures Deliveries(TunnelAfter(b, serial).log) == SentTo(a, counter, chunks, b.localAddr)
    ensures TunnelAfter(b, serial).buffer == []
  {
    TunnelMeetsStream(a, b, counter, chunks, items, serial);
    StreamIsDelivered(a, b, counter, chunks, Given(Stream(a, counter, chunks)));
    NothingBefore(SentTo(a, counter, chunks, b.localAddr));
  }

  lemma NothingBefore(packets: seq<Bytes>)
    ensures Deliveries([]) + packets == packets
  {
  }

  /** ROHC without AEAD: the turn at a packet's first byte delivers it if and only if the checksum A
      computed over its ROHC form is the checksum of the packet itself. */
  lemma LonePacketTurn(a: Config, b: Config, counter: nat, chunk: Bytes)
    requires Compatible(a, b) && Outgo(a, counter, chunk).Framed? && counter < UINT64_RANGE
    requires AddrOf(Ipv4Of(chunk).value) == b.localAddr
    ensures
      var ip, frame := Ipv4Of(chunk).value, Outgo(a, counter, chunk).frame;
      var t := TakeTurn(b, map[], frame, 0);
      && t.Advance?
      && (CrcSurvives(a, ip) ==> Deliveries(t.log) == [ip] && t.skip == |frame|)
      && (!CrcSurvives(a, ip) ==> Deliveries(t.log) == [] && t.skip == 1)
      && (DeliversAt(t.log, 0, 0) <==> CrcSurvives(a, ip))
  {
    var ip, frame := Ipv4Of(chunk).value, Outgo(a, counter, chunk).frame;
    assert frame + [] == frame;
    OwnFrameTurn(a, b, counter, chunk, [], map[], 0);
    OneDelivery(0, FrameOf(a, counter, ip, ClearPayload(a, ip).value), ip);
    NoDelivery(0, CrcMismatch);
  }

  /** The whole run on a lone packet. If its checksum survives, it is delivered and nothing is left over.
      Otherwise the receiver has dropped one byte and goes on with the rest of the frame; unless a
      phantom frame fits into that, it delivers nothing and keeps all of it. Either way the run delivers
      something at the first byte of the frame if and only if the checksum survives. */
  lemma LonePacketArrivesExactly(a: Config, b: Config, counter: nat, chunk: Bytes)
    requires Compatible(a, b) && Outgo(a, counter, chunk).Framed? && counter < UINT64_RANGE
    requires AddrOf(Ipv4Of(chunk).value) == b.localAddr
    ensures Progresses(TurnsOf(b))
    ensures
      var ip, frame := Ipv4Of(chunk).value, Outgo(a, counter, chunk).frame;
      var after := Run(TurnsOf(b), Given(frame));
      var t := TakeTurn(b, map[], frame, 0);
      && (DeliversAt(after.log, 0, 0) <==> CrcSurvives(a, ip))
      && if CrcSurvives(a, ip) then Deliveries(after.log) == [ip] && after.buffer == []
      else
        && t.Advance? && t.skip == 1 <= |frame| && Deliveries(t.log) == []
        && after == Run(TurnsOf(b), AfterTurn(Given(frame), t))
        && (|frame| < PhantomSize(FrameAt(a, counter, chunk)) + 5 ==>
              Deliveries(after.log) == [] && after.buffer == frame[1..])
  {
    var turns := SomeTurns(b);
    var frame := Outgo(a, counter, chunk).frame;
    var r := Given(frame);
    assert turns(map[], frame, 0) == TakeTurn(b, map[], frame, 0);
    LonePacketTurn(a, b, counter, chunk);
    var t := turns(map[], frame, 0);
    var next := AfterTurn(r, t);
    FirstTurnDecides(b, turns, r, 0);
    RunTurn(turns, r, t);
    RunsAgree(turns, b, r);
    RunsAgree(turns, b, next);
    assert [] + t.log == t.log;
    if next.buffer == [] || |frame| < PhantomSize(FrameAt(a, counter, chunk)) + 5 {
      LonePacketWaits(a, b, turns, counter, chunk, next);
    }
  }

  lemma LonePacketWaits(a: Config, b: Config, turns: Turns, counter: nat, chunk: Bytes, next: Receiver)
    requires b.Valid() && a.Valid() && Implements(turns, b) && Progresses(turns) && Outgo(a, counter, chunk).Framed?
    requires
      var frame := Outgo(a, counter, chunk).frame;
      || next.buffer == []
      || (frame != [] && next.buffer == frame[1..] && |frame| < PhantomSize(FrameAt(a, counter, chunk)) + 5)
    ensures Run(turns, next) == next
  {
    LonePacketRest(a, b, counter, chunk, next);
    assert turns(next.seen, next.buffer, next.at) == TakeTurn(b, next.seen, next.buffer, next.at);
    RunWaits(turns, next);
  }

  /** Nothing is left to do on an empty buffer, or one byte into a frame shorter than its phantom. */
  lemma LonePacketRest(a: Config, b: Config, counter: nat, chunk: Bytes, next: Receiver)
    requires b.Valid() && a.Valid() && Outgo(a, counter, chunk).Framed?
    requires
      var frame := Outgo(a, counter, chunk).frame;
      || next.buffer == []
      || (frame != [] && next.buffer == frame[1..] && |frame| < PhantomSize(FrameAt(a, counter, chunk)) + 5)
    ensures TakeTurn(b, next.seen, next.buffer, next.at).Wait?
  {
    if next.buffer != [] {
      var frame := Outgo(a, counter, chunk).frame;
      assert frame + [] == frame;
      FramedIsFrameOf(a, counter, chunk, []);
      DecodedBytes(frame);
      PhantomWaits(frame, FrameAt(a, counter, chunk));
    }
  }
}
