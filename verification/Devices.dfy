/** The two host devices as objects: `HelionetDevice` behind a serial port and `WiFiUdpDevice`
    behind a socket. Timers, sockets and promises are outside; what they deliver are parameters and
    what they are given is recorded.
*/
module Devices {
  import opened Bytes
  import S = FrameLogSplitters
  import R = ReplyExtraction
  import U = UdpAuth
  import C = UdpChannel
  import D = DecimalText

  datatype DeviceMode = Normal | Configuring | Info

  class HelionetDevice {
    var mode: DeviceMode
    var configBuffer: Bytes
    var infoBuffer: Bytes
    const splitter: S.FrameLogSplitter
    /** The waiters resolved so far: an empty text for a configuration, the text behind `INFO` for a
        query. */
    var replies: seq<Bytes>

    ghost predicate Valid()
      reads this, splitter
    {
      splitter.Valid()
    }

    ghost function Mode(): R.Mode
      reads this
    {
      match mode
      case Normal => R.Normal
      case Configuring => R.Configuring(configBuffer)
      case Info => R.Querying(infoBuffer)
    }

    constructor ()
      ensures Valid() && Mode() == R.Normal && replies == [] && fresh(splitter)
      ensures splitter.State() == S.Scan && splitter.events == []
    {
      mode, configBuffer, infoBuffer, replies := Normal, [], [], [];
      splitter := new S.FrameLogSplitter();
    }

    /** The state part of `sendConfigOnce`. */
    method AwaitConfigOk()
      modifies this
      ensures Mode() == R.Configuring([]) && replies == old(replies)
    {
      mode := Configuring;
      configBuffer := [];
    }

    /** The state part of `info`. */
    method AwaitInfo()
      modifies this
      ensures Mode() == R.Querying([]) && replies == old(replies)
    {
      mode := Info;
      infoBuffer := [];
    }

    /** Gives the splitter its share, unless that is empty. */
    method Pass(data: Bytes)
      requires Valid()
      modifies splitter
      ensures Valid()
      ensures splitter.State() == S.Feed(old(splitter.State()), data).state
      ensures splitter.events == old(splitter.events) + S.Feed(old(splitter.State()), data).events
    {
      if |data| > 0 { splitter.FeedChunk(data); }
    }

    method PassTwo(before: Bytes, after: Bytes)
      requires Valid()
      modifies splitter
      ensures Valid()
      ensures splitter.State() == S.Feed(old(splitter.State()), before + after).state
      ensures splitter.events == old(splitter.events) + S.Feed(old(splitter.State()), before + after).events
    {
      S.FeedAppend(splitter.State(), before, after);
      Pass(before);
      Pass(after);
    }

    /** How a chunk must leave the device, from the mode and splitter state it met. */
    twostate predicate Handled(chunk: Bytes)
      requires old(Valid()) && Valid()
      reads this, splitter
    {
      var e := R.OnData(old(Mode()), chunk);
      var f := S.Feed(old(splitter.State()), Concat(e.passed));
      && Mode() == e.mode
      && splitter.State() == f.state && splitter.events == old(splitter.events) + f.events
      && replies == old(replies) + if e.reply.Some? then [e.reply.value] else []
    }

    /** `onSerialData` while a configuration is being awaited. */
    method OnConfigData(chunk: Bytes)
      requires Valid() && mode == Configuring
      modifies this, splitter
      ensures Valid() && Handled(chunk)
    {
      configBuffer := configBuffer + chunk;
      var idx := R.IndexOf(configBuffer, R.ConfigOk(), 0);
      if idx.Some? {
        var before, after := configBuffer[..idx.value], configBuffer[idx.value + 9..];
        configBuffer := [];
        mode := Normal;
        replies := replies + [[]];
        R.TwoParts(before, after);
        PassTwo(before, after);
      }
    }

    /** `onSerialData` while an info query is being awaited. */
    method OnInfoData(chunk: Bytes)
      requires Valid() && mode == Info
      modifies this, splitter
      ensures Valid() && Handled(chunk)
    {
      infoBuffer := infoBuffer + chunk;
      ghost var e := R.OnData(old(Mode()), chunk);
      var magicIdx := R.IndexOf(infoBuffer, R.InfoMagic(), 0);
      if magicIdx.None? {
        if |infoBuffer| > R.INFO_NOISE_LIMIT {
          assert e == R.Extracted(R.Querying([]), R.NonEmpty(infoBuffer), None);
          assert infoBuffer[..|infoBuffer|] == infoBuffer && infoBuffer[|infoBuffer|..] == [];
          ForwardNoise(|infoBuffer|);
        } else {
          assert e == R.Extracted(R.Querying(infoBuffer), [], None);
        }
        return;
      }
      var m := magicIdx.value;
      var nlIdx := R.IndexOf(infoBuffer, [R.NEWLINE], m + 4);
      if nlIdx.None? {
        assert e == R.Extracted(R.Querying(infoBuffer[m..]), R.NonEmpty(infoBuffer[..m]), None);
        ForwardNoise(m);
        return;
      }
      var n := nlIdx.value;
      R.NewlineAt(infoBuffer, n);
      assert e == R.Extracted(R.Normal, R.NonEmpty(infoBuffer[..m]) + R.NonEmpty(infoBuffer[n + 1..]),
                              Some(infoBuffer[m + 4..n]));
      CompleteInfo(m, n);
    }

    /** Passes the first `n` held-back bytes on. */
    method ForwardNoise(n: nat)
      requires Valid() && n <= |infoBuffer|
      modifies this`infoBuffer, splitter
      ensures Valid() && infoBuffer == old(infoBuffer)[n..]
      ensures
        var f := S.Feed(old(splitter.State()), Concat(R.NonEmpty(old(infoBuffer)[..n])));
        splitter.State() == f.state && splitter.events == old(splitter.events) + f.events
    {
      if n > 0 {
        R.TwoParts(infoBuffer[..n], []);
        Pass(infoBuffer[..n]);
        infoBuffer := infoBuffer[n..];
      }
    }

    /** The reply between the magic and the newline is complete. */
    method CompleteInfo(m: nat, n: nat)
      requires Valid() && m + 4 <= n < |infoBuffer|
      modifies this, splitter
      ensures Valid() && Mode() == R.Normal && replies == old(replies) + [old(infoBuffer)[m + 4..n]]
      ensures
        var b := old(infoBuffer);
        var f := S.Feed(old(splitter.State()), Concat(R.NonEmpty(b[..m]) + R.NonEmpty(b[n + 1..])));
        splitter.State() == f.state && splitter.events == old(splitter.events) + f.events
    {
      var before, after := infoBuffer[..m], infoBuffer[n + 1..];
      replies := replies + [infoBuffer[m + 4..n]];
      infoBuffer := [];
      mode := Normal;
      R.TwoParts(before, after);
      PassTwo(before, after);
    }

    /** `onSerialData`: each chunk does what `ReplyExtraction.OnData` says, and what is passed on
        goes through the splitter. */
    method OnSerialData(chunk: Bytes)
      requires Valid()
      modifies this, splitter
      ensures Valid() && Handled(chunk)
    {
      if mode == Configuring {
        OnConfigData(chunk);
      } else if mode == Info {
        OnInfoData(chunk);
      } else {
        assert Concat([chunk]) == chunk;
        Pass(chunk);
      }
    }
  }

  /** What a serial device emits over a run of chunks: its modes and the splitter's events. */
  datatype SerialRun = SerialRun(mode: R.Mode, fed: S.Fed)

  function OnSerialChunks(mode: R.Mode, st: S.State, chunks: seq<Bytes>): SerialRun
    decreases chunks
  {
    if chunks == [] then SerialRun(mode, S.Fed(st, []))
    else
      var e := R.OnData(mode, chunks[0]);
      var f := S.Feed(st, Concat(e.passed));
      var rest := OnSerialChunks(e.mode, f.state, chunks[1..]);
      SerialRun(rest.mode, S.Fed(rest.fed.state, f.events + rest.fed.events))
  }

  /** The splitter sees one stream: what is passed on, run through it, is all that is emitted. */
  lemma {:induction false} SplitterSeesOneStream(mode: R.Mode, st: S.State, chunks: seq<Bytes>)
    ensures var r := R.OnChunks(mode, chunks);
      OnSerialChunks(mode, st, chunks) == SerialRun(r.mode, S.Feed(st, r.passed))
    decreases chunks
  {
    if chunks != [] {
      var e := R.OnData(mode, chunks[0]);
      var p := Concat(e.passed);
      SplitterSeesOneStream(e.mode, S.Feed(st, p).state, chunks[1..]);
      S.FeedAppend(st, p, R.OnChunks(e.mode, chunks[1..]).passed);
    }
  }

  /** A configuration answered while the board keeps printing log lines and received frames: the
      reply is lifted out, and the events are exactly those of the items printed around it, wherever
      the reply falls between two items and however the stream is chunked. */
  lemma ConfigDoesNotDisturb(before: seq<S.Item>, after: seq<S.Item>, chunks: seq<Bytes>)
    requires AllPrintable(before + after)
    requires Concat(chunks) == S.PrintedAll(before) + R.ConfigOk() + S.PrintedAll(after)
    requires R.FirstAt(Concat(chunks), R.ConfigOk(), |S.PrintedAll(before)|)
    ensures OnSerialChunks(R.Configuring([]), S.Scan, chunks)
         == SerialRun(R.Normal, S.Fed(S.Scan, S.ExpectedAll(before + after)))
  {
    var s, i := Concat(chunks), |S.PrintedAll(before)|;
    assert [] + s == s;
    R.ConfigReplyIsLifted([], chunks, i);
    assert s[..i] == S.PrintedAll(before) && s[i + 9..] == S.PrintedAll(after);
    LiftedBetweenItems(R.Configuring([]), before, after, chunks);
  }

  /** The same for an info query, as long as at most 4093 bytes are printed before the reply. */
  lemma InfoDoesNotDisturb(before: seq<S.Item>, text: Bytes, after: seq<S.Item>, chunks: seq<Bytes>)
    requires AllPrintable(before + after) && R.NEWLINE !in text && |S.PrintedAll(before)| + 3 <= R.INFO_NOISE_LIMIT
    requires Concat(chunks) == S.PrintedAll(before) + InfoReply(text) + S.PrintedAll(after)
    requires R.FirstAt(Concat(chunks), R.InfoMagic(), |S.PrintedAll(before)|)
    ensures OnSerialChunks(R.Querying([]), S.Scan, chunks)
         == SerialRun(R.Normal, S.Fed(S.Scan, S.ExpectedAll(before + after)))
    ensures R.OnChunks(R.Querying([]), chunks).replies == [text]
  {
    InfoBetween(S.PrintedAll(before), text, S.PrintedAll(after), chunks);
    LiftedBetweenItems(R.Querying([]), before, after, chunks);
  }

  function InfoReply(text: Bytes): Bytes {
    R.InfoMagic() + text + [R.NEWLINE]
  }

  lemma InfoBetween(x: Bytes, text: Bytes, y: Bytes, chunks: seq<Bytes>)
    requires Concat(chunks) == x + InfoReply(text) + y && |x| + 3 <= R.INFO_NOISE_LIMIT
    requires R.FirstAt(Concat(chunks), R.InfoMagic(), |x|) && R.NEWLINE !in text
    ensures R.OnChunks(R.Querying([]), chunks) == R.Run(R.Normal, x + y, [text])
  {
    ReplyFields(Concat(chunks), x, text, y);
    InfoIsLifted(x, text, y, chunks);
    LiftedText(x, text, y, chunks);
  }

  lemma ReplyFields(s: Bytes, x: Bytes, text: Bytes, y: Bytes)
    requires s == x + InfoReply(text) + y
    ensures ReplyLies(s, x, text, y)
  {
    CutBetween(x, R.InfoMagic(), text, [R.NEWLINE], y);
    var n := |x| + 4 + |text|;
    assert s[n..n + 1][0] == s[n];
  }

  /** The fields of a stream with a reply between `x` and `y`. */
  ghost predicate ReplyLies(s: Bytes, x: Bytes, text: Bytes, y: Bytes) {
    var m, n := |x|, |x| + 4 + |text|;
    n < |s| && s[..m] == x && s[m + 4..n] == text && s[n] == R.NEWLINE && s[n + 1..] == y
  }

  lemma LiftedText(x: Bytes, text: Bytes, y: Bytes, chunks: seq<Bytes>)
    requires ReplyLies(Concat(chunks), x, text, y) && R.LiftsReply([], chunks, |x|, |x| + 4 + |text|)
    ensures R.OnChunks(R.Querying([]), chunks) == R.Run(R.Normal, x + y, [text])
  {
    assert [] + Concat(chunks) == Concat(chunks);
  }

  lemma InfoIsLifted(x: Bytes, text: Bytes, y: Bytes, chunks: seq<Bytes>)
    requires R.FirstAt(Concat(chunks), R.InfoMagic(), |x|) && |x| + 3 <= R.INFO_NOISE_LIMIT && R.NEWLINE !in text
    requires ReplyLies(Concat(chunks), x, text, y)
    ensures R.LiftsReply([], chunks, |x|, |x| + 4 + |text|)
  {
    FirstNewline(Concat(chunks), x, text, y);
    R.InfoIsConservedExactly(|x|);
  }

  lemma FirstNewline(s: Bytes, x: Bytes, text: Bytes, y: Bytes)
    requires R.FirstAt(s, R.InfoMagic(), |x|) && R.NEWLINE !in text && ReplyLies(s, x, text, y)
    ensures R.HasReply(s, |x|, |x| + 4 + |text|)
  {
    var m := |x| + 4;
    forall j | m <= j < m + |text| ensures s[j] != R.NEWLINE {
      assert s[j] == text[j - m];
    }
  }

  lemma CutBetween(x: Bytes, a: Bytes, text: Bytes, b: Bytes, y: Bytes)
    ensures
      var s, m, n := x + (a + text + b) + y, |x| + |a|, |x| + |a| + |text|;
      s[..|x|] == x && s[m..n] == text && s[n..n + |b|] == b && s[n + |b|..] == y
  {
  }

  predicate AllPrintable(items: seq<S.Item>) {
    forall i :: 0 <= i < |items| ==> S.Printable(items[i])
  }

  lemma LiftedBetweenItems(mode: R.Mode, before: seq<S.Item>, after: seq<S.Item>, chunks: seq<Bytes>)
    requires AllPrintable(before + after)
    requires R.OnChunks(mode, chunks).mode == R.Normal
    requires R.OnChunks(mode, chunks).passed == S.PrintedAll(before) + S.PrintedAll(after)
    ensures OnSerialChunks(mode, S.Scan, chunks)
         == SerialRun(R.Normal, S.Fed(S.Scan, S.ExpectedAll(before + after)))
  {
    SplitterSeesOneStream(mode, S.Scan, chunks);
    S.PrintedAppend(before, after);
    S.SplitterUndoesPrinter(before + after);
  }

  // ---------- replies that are none ----------

  lemma FirstOccurrence(x: Bytes, needle: Bytes, y: Bytes)
    requires needle != [] && needle[0] !in x
    ensures R.FirstAt(x + needle + y, needle, |x|)
  {
    var s := x + needle + y;
    assert s[|x|..|x| + |needle|] == needle;
    forall j | 0 <= j < |x| ensures !At(s, needle, j) {
      R.OccurrenceMatches(s, needle, j, 0);
      assert s[j] == x[j];
    }
  }

  /** A received packet that starts with `CONFIG_OK` is taken for the reply, under any chunking: the host
      is told so, the nine bytes are missing from the packet, and the board's own answer is taken for
      its last nine. */
  lemma PacketIsTakenForReply(r: S.Reception, y: Bytes, chunks: seq<Bytes>)
    requires r.packet == R.ConfigOk() + y && |r.packet| <= 255 && r.status == 0 && S.Printable(S.Received(r))
    requires Code('C') !in r.rssi && Code('C') !in r.snr
    requires Concat(chunks) == S.PrintedReception(r) + R.ConfigOk()
    ensures OnSerialChunks(R.Configuring([]), S.Scan, chunks)
         == SerialRun(R.Normal, S.Fed(S.Scan, [S.Log(S.RxevLine(r)), S.Frame(y + R.ConfigOk())]))
    ensures S.Expected(S.Received(r)) == [S.Log(S.RxevLine(r)), S.Frame(R.ConfigOk() + y)]
  {
    var line := S.RxevLine(r) + [S.NEWLINE];
    LineHasNoC(r);
    TakenFromPacket(line, y, chunks);
    SplitterSeesOneStream(R.Configuring([]), S.Scan, chunks);
    var shifted := r.(packet := y + R.ConfigOk());
    assert S.RxevLine(shifted) == S.RxevLine(r);
    S.ReceptionRoundTrip(shifted);
  }

  lemma TakenFromPacket(line: Bytes, y: Bytes, chunks: seq<Bytes>)
    requires Code('C') !in line && Concat(chunks) == line + (R.ConfigOk() + y) + R.ConfigOk()
    ensures R.OnChunks(R.Configuring([]), chunks) == R.Run(R.Normal, line + (y + R.ConfigOk()), [[]])
  {
    var s := Concat(chunks);
    assert s == line + R.ConfigOk() + (y + R.ConfigOk());
    assert R.ConfigOk()[0] == Code('C');
    FirstOccurrence(line, R.ConfigOk(), y + R.ConfigOk());
    assert [] + s == s;
    R.ConfigReplyIsLifted([], chunks, |line|);
    assert s[..|line|] == line && s[|line| + 9..] == y + R.ConfigOk();
  }

  lemma LineHasNoC(r: S.Reception)
    requires Code('C') !in r.rssi && Code('C') !in r.snr
    ensures Code('C') !in S.RxevLine(r) + [S.NEWLINE]
  {
    D.DecimalRoundTrip(|r.packet|);
    D.DecimalRoundTrip(if r.status < 0 then -r.status else r.status);
    assert Code('C') !in D.Decimal(|r.packet|);
    assert Code('C') !in D.SignedDecimal(r.status);
    assert Code('C') !in S.RxevPrefix() && Code('C') !in Ascii(" st=");
    assert Code('C') !in Ascii(" rssi=") && Code('C') !in Ascii(" snr=");
  }

  /** A log line that starts with `INFO` is taken for the reply to a query, under any chunking: the query
      is answered with the rest of that line, and the real answer becomes part of a log line. */
  lemma LineIsTakenForInfo(u: Bytes, v: Bytes, chunks: seq<Bytes>)
    requires S.OneLine(u) && S.OneLine(v)
    requires Concat(chunks) == S.Printed(S.LogLine(R.InfoMagic() + u)) + InfoReply(v)
    ensures OnSerialChunks(R.Querying([]), S.Scan, chunks)
         == SerialRun(R.Normal, S.Fed(S.Scan, [S.Log(S.Line(R.InfoMagic() + v))]))
    ensures R.OnChunks(R.Querying([]), chunks).replies == [u]
  {
    TakenFromLine(u, v, chunks);
    SplitterSeesOneStream(R.Querying([]), S.Scan, chunks);
    InfoLineAnnouncesNothing(v);
    S.OneLineAppend(R.InfoMagic(), v);
    ReplyAsLine(v);
    S.HashLine(R.InfoMagic() + v);
  }

  lemma ReplyAsLine(v: Bytes)
    ensures S.Line(R.InfoMagic() + v) + [S.NEWLINE] == [S.HASH] + InfoReply(v)
  {
  }

  lemma TakenFromLine(u: Bytes, v: Bytes, chunks: seq<Bytes>)
    requires S.OneLine(u) && Concat(chunks) == S.Line(R.InfoMagic() + u) + [S.NEWLINE] + InfoReply(v)
    ensures R.OnChunks(R.Querying([]), chunks) == R.Run(R.Normal, [S.HASH] + InfoReply(v), [u])
  {
    ReplyAsLine(u);
    assert Concat(chunks) == [S.HASH] + R.InfoMagic() + (u + [R.NEWLINE] + InfoReply(v));
    assert R.InfoMagic()[0] == Code('I');
    FirstOccurrence([S.HASH], R.InfoMagic(), u + [R.NEWLINE] + InfoReply(v));
    InfoBetween([S.HASH], u, InfoReply(v), chunks);
  }

  lemma InfoLineAnnouncesNothing(v: Bytes)
    ensures S.Announced(S.Line(R.InfoMagic() + v)) == 0
  {
    var line := S.Line(R.InfoMagic() + v);
    assert line[1] == Code('I') && S.RxevPrefix()[1] == Code('r');
  }

  // ---------- the device behind a socket ----------

  /** The `error` events of `onUdpMessage`. */
  datatype UdpError = Unauthentic(why: U.UnwrapResult) | Replayed(session: Bytes, num: nat)

  /** What `onUdpMessage` works on: the replay window, the mode, the `data` events emitted, the number of
      configuration waiters resolved, and the `error` events emitted. */
  datatype UdpHost = UdpHost(window: U.SessionWindow, mode: R.Mode, emitted: seq<Bytes>, replies: nat,
                             errors: seq<UdpError>)

  function AfterPayload(h: UdpHost, payload: Bytes): UdpHost {
    if payload == [] then h
    else
      var e := R.OnData(h.mode, payload);
      h.(mode := e.mode, emitted := h.emitted + e.passed, replies := h.replies + if e.reply.Some? then 1 else 0)
  }

  /** `onUdpMessage`. */
  function AfterMessage(hmac: U.Hmac, key: Bytes, h: UdpHost, msg: Bytes): UdpHost {
    var u := U.Unwrap(hmac, key, msg);
    if !u.Authentic? then h.(errors := h.errors + [Unauthentic(u)])
    else
      var v := U.CheckSession(h.window, u.packet.session, u.packet.num);
      if !v.ok then h.(window := v.next, errors := h.errors + [Replayed(u.packet.session, u.packet.num)])
      else AfterPayload(h.(window := v.next), u.packet.payload)
  }

  class WiFiUdpDevice {
    const hmac: U.Hmac
    const authKey: Bytes
    const mySession: Bytes
    const peerReplay: U.Seq32ReplayWindow
    var outSeq: nat
    var mode: DeviceMode
    var configBuffer: Bytes
    /** The `data` events emitted, the configuration waiters resolved, the `error` events emitted. */
    var emitted: seq<Bytes>
    var replies: nat
    var errors: seq<UdpError>
    /** What the socket was given, and the payloads it was made of. */
    var wire: seq<Bytes>
    ghost var payloads: seq<Bytes>

    /** What is on the wire is the sender's half of the channel. */
    ghost predicate Valid()
      reads this
    {
      && |authKey| == U.KEY_LEN && |mySession| == 4 && mode != Info
      && outSeq == C.Number(|payloads|) && IsWireOf(wire, payloads)
    }

    ghost function Mode(): R.Mode
      reads this
    {
      if mode == Configuring then R.Configuring(configBuffer) else R.Normal
    }

    ghost function Host(): UdpHost
      reads this, peerReplay
    {
      UdpHost(peerReplay.State(), Mode(), emitted, replies, errors)
    }

    /** The constructor; it refuses a key that is not 32 bytes long. */
    static method Create(hmac: U.Hmac, authKey: Bytes, session: Bytes) returns (d: WiFiUdpDevice?)
      requires |session| == 4
      ensures d == null <==> |authKey| != U.KEY_LEN
      ensures d != null ==>
                && fresh(d) && fresh(d.peerReplay) && d.Valid() && d.wire == []
                && d.Host() == UdpHost(U.NO_SESSION, R.Normal, [], 0, [])
    {
      if |authKey| != U.KEY_LEN {
        d := null;
      } else {
        d := new WiFiUdpDevice(hmac, authKey, session);
      }
    }

    constructor (hmac: U.Hmac, authKey: Bytes, session: Bytes)
      requires |authKey| == U.KEY_LEN && |session| == 4
      ensures fresh(peerReplay) && Valid() && wire == []
      ensures Host() == UdpHost(U.NO_SESSION, R.Normal, [], 0, [])
    {
      this.hmac, this.authKey, mySession := hmac, authKey, session;
      peerReplay := new U.Seq32ReplayWindow();
      outSeq, mode, configBuffer, emitted, replies, errors, wire, payloads := 0, Normal, [], [], 0, [], [], [];
    }

    method AwaitConfigOk()
      requires Valid()
      modifies this
      ensures Valid() && Host() == old(Host()).(mode := R.Configuring([]))
      ensures wire == old(wire) && payloads == old(payloads)
    {
      mode := Configuring;
      configBuffer := [];
    }

    /** `sendUdp`. */
    method SendUdp(payload: Bytes)
      requires Valid()
      modifies this
      ensures Valid() && payloads == old(payloads) + [payload]
      ensures |wire| == |old(wire)| + 1 && wire[..|old(wire)|] == old(wire)
      ensures Host() == old(Host())
    {
      var num := outSeq;
      U.NextNumber(|payloads|);
      outSeq := (outSeq + 1) % U.UINT32_RANGE;
      var w := U.WrapUdp(hmac, authKey, mySession, num, payload);
      WireGrows(wire, payloads, payload);
      wire := wire + [w.datagram];
      payloads := payloads + [payload];
    }

    lemma WireGrows(wire: seq<Bytes>, payloads: seq<Bytes>, payload: Bytes)
      requires IsWireOf(wire, payloads)
      ensures IsWireOf(wire + [U.Layout(hmac, authKey, mySession, C.Number(|payloads|), payload)], payloads + [payload])
    {
    }

    /** Packet `i` is on the wire as the channel numbers it. */
    ghost predicate IsWireOf(wire: seq<Bytes>, payloads: seq<Bytes>) {
      && |wire| == |payloads|
      && forall i :: 0 <= i < |wire| ==>
           wire[i] == C.Channel(hmac, authKey, mySession, payloads).Datagram(C.Packet(i))
    }

    /** `onUdpMessage`: what authenticates and is fresh goes on, everything else is an error. */
    method OnUdpMessage(msg: Bytes)
      requires Valid()
      modifies this, peerReplay
      ensures Valid() && wire == old(wire) && payloads == old(payloads)
      ensures Host() == AfterMessage(hmac, authKey, old(Host()), msg)
    {
      var u := U.Unwrap(hmac, authKey, msg);
      if !u.Authentic? {
        errors := errors + [Unauthentic(u)];
        return;
      }
      var ok := peerReplay.Check(u.packet.session, u.packet.num);
      if !ok {
        errors := errors + [Replayed(u.packet.session, u.packet.num)];
        return;
      }
      OnPayload(u.packet.payload);
    }

    method OnPayload(payload: Bytes)
      requires Valid()
      modifies this
      ensures Valid() && wire == old(wire) && payloads == old(payloads)
      ensures Host() == AfterPayload(old(Host()), payload)
    {
      if |payload| == 0 {
        return;
      }
      if mode == Configuring {
        OnConfigPayload(payload);
        return;
      }
      emitted := emitted + [payload];
    }

    method OnConfigPayload(payload: Bytes)
      requires Valid() && mode == Configuring && payload != []
      modifies this
      ensures Valid() && wire == old(wire) && payloads == old(payloads)
      ensures Host() == AfterPayload(old(Host()), payload)
    {
      configBuffer := configBuffer + payload;
      ghost var e := R.OnData(old(Mode()), payload);
      var idx := R.IndexOf(configBuffer, R.ConfigOk(), 0);
      if idx.Some? {
        var before, after := configBuffer[..idx.value], configBuffer[idx.value + 9..];
        assert e == R.Extracted(R.Normal, R.NonEmpty(before) + R.NonEmpty(after), Some([]));
        configBuffer := [];
        EmitNonEmpty(before);
        mode := Normal;
        replies := replies + 1;
        EmitNonEmpty(after);
        ConcatAssociates(old(emitted), R.NonEmpty(before), R.NonEmpty(after));
      } else {
        assert e == R.Extracted(R.Configuring(configBuffer), [], None);
      }
    }

    method EmitNonEmpty(data: Bytes)
      modifies this`emitted
      ensures emitted == old(emitted) + R.NonEmpty(data)
    {
      if |data| > 0 { emitted := emitted + [data]; }
    }
  }

  // ---------- reply extraction over the datagram channel ----------

  /** The payloads handed up, empty ones aside, from arrival `m` on. */
  ghost function Payloads(c: C.Channel, arrivals: seq<C.Arrival>, m: nat): seq<Bytes>
    requires c.Schedule(arrivals)
  {
    if |arrivals| <= m then []
    else
      var n := |arrivals| - 1;
      var p := c.HandedUp(arrivals, n);
      Payloads(c, arrivals[..n], m) + if p.Some? && p.value != [] then [p.value] else []
  }

  /** The device that was `h` when arrival `m` came, after all of them. */
  ghost function AfterArrivals(c: C.Channel, h: UdpHost, arrivals: seq<C.Arrival>, m: nat): UdpHost
    requires c.Schedule(arrivals)
  {
    if |arrivals| <= m then h
    else
      var n := |arrivals| - 1;
      AfterMessage(c.hmac, c.key, AfterArrivals(c, h, arrivals[..n], m), c.Datagram(arrivals[n]))
  }

  /** How a device must stand after a run of payloads. */
  ghost predicate HasTaken(h: UdpHost, payloads: seq<Bytes>, later: UdpHost) {
    var run := R.OnChunks(h.mode, payloads);
    && later.mode == run.mode && later.replies == h.replies + |run.replies|
    && Concat(later.emitted) == Concat(h.emitted) + run.passed
  }

  lemma TakesOneMore(h: UdpHost, payloads: seq<Bytes>, later: UdpHost, payload: Bytes)
    requires HasTaken(h, payloads, later) && payload != []
    ensures HasTaken(h, payloads + [payload], AfterPayload(later, payload))
  {
    var e, run := R.OnData(later.mode, payload), R.OnChunks(h.mode, payloads);
    R.OneMoreChunk(h.mode, payloads, payload);
    ConcatAppend(later.emitted, e.passed);
    ConcatAssociates(Concat(h.emitted), run.passed, Concat(e.passed));
  }

  /** Over any schedule the device extracts replies from the payloads handed up as from a serial stream:
      duplicates, datagrams that do not authenticate and empty payloads change nothing. */
  lemma {:induction false} DeviceFollowsChannel(c: C.Channel, h: UdpHost, arrivals: seq<C.Arrival>, m: nat)
    requires c.Schedule(arrivals) && m <= |arrivals| && h.window == c.HostAfter(arrivals[..m])
    ensures AfterArrivals(c, h, arrivals, m).window == c.HostAfter(arrivals)
    ensures HasTaken(h, Payloads(c, arrivals, m), AfterArrivals(c, h, arrivals, m))
    decreases |arrivals|
  {
    if |arrivals| == m {
      assert arrivals[..m] == arrivals;
    } else {
      var n := |arrivals| - 1;
      assert arrivals[..n][..m] == arrivals[..m];
      DeviceFollowsChannel(c, h, arrivals[..n], m);
      DeviceTakesArrival(c, h, arrivals, m);
    }
  }

  lemma DeviceTakesArrival(c: C.Channel, h: UdpHost, arrivals: seq<C.Arrival>, m: nat)
    requires c.Schedule(arrivals) && m < |arrivals|
    requires var init := arrivals[..|arrivals| - 1];
      && AfterArrivals(c, h, init, m).window == c.HostAfter(init)
      && HasTaken(h, Payloads(c, init, m), AfterArrivals(c, h, init, m))
    ensures AfterArrivals(c, h, arrivals, m).window == c.HostAfter(arrivals)
    ensures HasTaken(h, Payloads(c, arrivals, m), AfterArrivals(c, h, arrivals, m))
  {
    var n := |arrivals| - 1;
    var init := arrivals[..n];
    var g := AfterArrivals(c, h, init, m);
    MessageIsReceived(c.hmac, c.key, g, c.Datagram(arrivals[n]));
    TakesWhatIsHandedUp(h, Payloads(c, init, m), g, c.HandedUp(arrivals, n),
                        AfterMessage(c.hmac, c.key, g, c.Datagram(arrivals[n])));
  }

  /** A message does to the device what the channel's receiver makes of it. */
  lemma MessageIsReceived(hmac: U.Hmac, key: Bytes, g: UdpHost, msg: Bytes)
    ensures
      var r, later := C.Receive(hmac, key, g.window, msg), AfterMessage(hmac, key, g, msg);
      && later.window == r.next
      && SameTraffic(later, if r.payload.Some? then AfterPayload(g, r.payload.value) else g)
  {
  }

  /** Windows and errors aside, the devices are the same. */
  predicate SameTraffic(x: UdpHost, y: UdpHost) {
    x.mode == y.mode && x.emitted == y.emitted && x.replies == y.replies
  }

  lemma TakesWhatIsHandedUp(h: UdpHost, payloads: seq<Bytes>, g: UdpHost, p: Option<Bytes>, later: UdpHost)
    requires HasTaken(h, payloads, g)
    requires SameTraffic(later, if p.Some? then AfterPayload(g, p.value) else g)
    ensures HasTaken(h, payloads + if p.Some? && p.value != [] then [p.value] else [], later)
  {
    assert payloads + [] == payloads;
    if p.Some? && p.value != [] { TakesOneMore(h, payloads, g, p.value); }
  }

  /** The error arrival `n` gives rise to, if any: a replay for a genuine packet that is no timely first, and
      for everything else whether it is too short or does not match its tag. */
  ghost function ErrorAt(c: C.Channel, arrivals: seq<C.Arrival>, n: nat): seq<UdpError>
    requires n < |arrivals|
  {
    match arrivals[n]
    case Packet(i) => if C.IsTimelyFirst(arrivals, n) then [] else [Replayed(c.session, C.Number(i))]
    case Junk(d) => [Unauthentic(if |d| < 24 then U.TooShort else U.TagMismatch)]
  }

  /** Those from arrival `m` on. */
  ghost function ErrorsOf(c: C.Channel, arrivals: seq<C.Arrival>, m: nat): seq<UdpError> {
    if |arrivals| <= m then []
    else ErrorsOf(c, arrivals[..|arrivals| - 1], m) + ErrorAt(c, arrivals, |arrivals| - 1)
  }

  /** Over any schedule the device emits exactly these errors, in order. */
  lemma {:induction false} ErrorsExactly(c: C.Channel, h: UdpHost, arrivals: seq<C.Arrival>, m: nat)
    requires c.Valid() && c.Schedule(arrivals) && m <= |arrivals| && h.window == c.HostAfter(arrivals[..m])
    ensures AfterArrivals(c, h, arrivals, m).errors == h.errors + ErrorsOf(c, arrivals, m)
    decreases |arrivals|
  {
    if |arrivals| == m {
      assert h.errors + [] == h.errors;
    } else {
      var init := arrivals[..|arrivals| - 1];
      assert init[..m] == arrivals[..m];
      WindowFollows(c, h, init, m);
      ErrorsExactly(c, h, init, m);
      ErrorsStep(c, h, arrivals, m, AfterArrivals(c, h, init, m), ErrorsOf(c, init, m));
    }
  }

  lemma WindowFollows(c: C.Channel, h: UdpHost, arrivals: seq<C.Arrival>, m: nat)
    requires c.Schedule(arrivals) && m <= |arrivals| && h.window == c.HostAfter(arrivals[..m])
    ensures AfterArrivals(c, h, arrivals, m).window == c.HostAfter(arrivals)
  {
    DeviceFollowsChannel(c, h, arrivals, m);
  }

  lemma ErrorsStep(c: C.Channel, h: UdpHost, arrivals: seq<C.Arrival>, m: nat, g: UdpHost, errors: seq<UdpError>)
    requires c.Valid() && c.Schedule(arrivals) && m < |arrivals|
    requires var n := |arrivals| - 1;
      && g == AfterArrivals(c, h, arrivals[..n], m) && errors == ErrorsOf(c, arrivals[..n], m)
      && g.window == c.HostAfter(arrivals[..n]) && g.errors == h.errors + errors
    ensures AfterArrivals(c, h, arrivals, m).errors == h.errors + ErrorsOf(c, arrivals, m)
  {
    var n := |arrivals| - 1;
    OneError(c, g, arrivals, n);
    ConcatAssociates(h.errors, errors, ErrorAt(c, arrivals, n));
  }

  lemma OneError(c: C.Channel, g: UdpHost, arrivals: seq<C.Arrival>, n: nat)
    requires c.Valid() && c.Schedule(arrivals) && n < |arrivals| && g.window == c.HostAfter(arrivals[..n])
    ensures AfterMessage(c.hmac, c.key, g, c.Datagram(arrivals[n])).errors == g.errors + ErrorAt(c, arrivals, n)
  {
    C.HandedUpExactly(c, arrivals, n);
    match arrivals[n] {
      case Packet(i) =>
        U.UnwrapUndoesWrap(c.hmac, c.key, c.session, C.Number(i), c.payloads[i]);
        C.ReceiveGenuine(c, g.window, i);
        assert g.errors + [] == g.errors;
      case Junk(d) => U.UnwrapExactly(c.hmac, c.key, d);
    }
  }

  /** A configuration over UDP, begun anywhere in a session and answered in time: over any schedule the
      data emitted from then on are the payloads handed up minus the first `CONFIG_OK`, in order, one
      waiter is resolved, and the device is back to normal. */
  lemma UdpReplyIsLifted(c: C.Channel, h: UdpHost, arrivals: seq<C.Arrival>, m: nat, i: nat)
    requires c.Schedule(arrivals) && m <= |arrivals| && h.window == c.HostAfter(arrivals[..m])
    requires h.mode == R.Configuring([]) && R.FirstAt(Concat(Payloads(c, arrivals, m)), R.ConfigOk(), i)
    ensures
      var s, later := Concat(Payloads(c, arrivals, m)), AfterArrivals(c, h, arrivals, m);
      && i + 9 <= |s| && Concat(later.emitted) == Concat(h.emitted) + (s[..i] + s[i + 9..])
      && later.mode == R.Normal && later.replies == h.replies + 1
  {
    var payloads := Payloads(c, arrivals, m);
    DeviceFollowsChannel(c, h, arrivals, m);
    assert [] + Concat(payloads) == Concat(payloads);
    R.ConfigReplyIsLifted([], payloads, i);
  }

  /** Until the reply is there, nothing is emitted and nothing is lost. */
  lemma UdpConfigWaits(c: C.Channel, h: UdpHost, arrivals: seq<C.Arrival>, m: nat)
    requires c.Schedule(arrivals) && m <= |arrivals| && h.window == c.HostAfter(arrivals[..m])
    requires h.mode == R.Configuring([])
    requires R.IndexOf(Concat(Payloads(c, arrivals, m)), R.ConfigOk(), 0).None?
    ensures
      var s, later := Concat(Payloads(c, arrivals, m)), AfterArrivals(c, h, arrivals, m);
      && Concat(later.emitted) == Concat(h.emitted) && later.mode == R.Configuring(s) && later.replies == h.replies
  {
    var payloads := Payloads(c, arrivals, m);
    DeviceFollowsChannel(c, h, arrivals, m);
    assert [] + Concat(payloads) == Concat(payloads);
    R.ConfigWaits([], payloads);
  }
}
