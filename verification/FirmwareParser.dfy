/** The firmware's command parser (`feedParser`, `resetParser`, `handleSendBody` of
    firmware/helionet/src/main.cpp) and the host framing it undoes (src/device/HelionetDevice.ts):

      [command][u16 LE length][body]
*/
module FirmwareParser {
  import opened Bytes

  const CMD_SEND: byte := 0x01
  const CMD_CONFIG: byte := 0x02
  const CMD_DISPLAY: byte := 0x03
  const CMD_INFO: byte := 0x04
  const MAX_PAYLOAD: nat := 255
  const IN_BUF_SIZE: nat := 259

  /** A command as the host sends it and as the firmware dispatches it. */
  datatype Command = Send(body: Bytes) | Config(body: Bytes) | Display(body: Bytes) | Info

  datatype State =
    | Idle
    | NeedLen(cmd: byte)
    | NeedLenHi(cmd: byte, lo: byte)
    | NeedBody(cmd: byte, len: nat, have: Bytes)

  datatype Parsed = Parsed(state: State, commands: seq<Command>)

  predicate IsCommand(b: byte) {
    b == CMD_SEND || b == CMD_CONFIG || b == CMD_DISPLAY || b == CMD_INFO
  }

  function Dispatch(cmd: byte, body: Bytes): seq<Command> {
    if cmd == CMD_SEND then [Send(body)]
    else if cmd == CMD_CONFIG then [Config(body)]
    else if cmd == CMD_DISPLAY then [Display(body)]
    else []
  }

  function FeedByte(st: State, b: byte): Parsed {
    match st
    case Idle => Parsed(if IsCommand(b) then NeedLen(b) else Idle, [])
    case NeedLen(cmd) => Parsed(NeedLenHi(cmd, b), [])
    case NeedLenHi(cmd, lo) =>
      var len := U16(lo, b);
      if cmd == CMD_INFO && len == 0 then Parsed(Idle, [Info])
      else if len == 0 || len > IN_BUF_SIZE then Parsed(Idle, [])
      else Parsed(NeedBody(cmd, len, []), [])
    case NeedBody(cmd, len, have) =>
      if |have| + 1 >= len then Parsed(Idle, Dispatch(cmd, have + [b]))
      else Parsed(NeedBody(cmd, len, have + [b]), [])
  }

  function Feed(st: State, bytes: Bytes): Parsed
    decreases bytes
  {
    if bytes == [] then Parsed(st, [])
    else
      var first := FeedByte(st, bytes[0]);
      var rest := Feed(first.state, bytes[1..]);
      Parsed(rest.state, first.commands + rest.commands)
  }

  /** There is room for the byte that is read next, and the length fits the buffer. */
  predicate InBounds(st: State) {
    st.NeedBody? ==> |st.have| < st.len <= IN_BUF_SIZE
  }

  datatype ParseState = Idling | NeedingLen | NeedingBody

  class CommandParser {
    var pState: ParseState
    var pCmd: byte
    var pLen: nat
    var pLenLo: byte
    var pHave: nat
    const pBuf: array<byte>
    /** The handlers called so far, with their bodies. */
    var commands: seq<Command>

    ghost predicate Valid()
      reads this, pBuf
    {
      && pBuf.Length == IN_BUF_SIZE
      && (pState == NeedingLen ==> pHave <= 1)
      && (pState == NeedingBody ==> pHave < pLen <= IN_BUF_SIZE)
    }

    ghost function State(): State
      requires Valid()
      reads this, pBuf
    {
      match pState
      case Idling => Idle
      case NeedingLen => if pHave == 0 then NeedLen(pCmd) else NeedLenHi(pCmd, pLenLo)
      case NeedingBody => NeedBody(pCmd, pLen, pBuf[..pHave])
    }

    constructor ()
      ensures Valid() && State() == Idle && commands == [] && fresh(pBuf)
    {
      pState, pCmd, pLen, pLenLo, pHave, commands := Idling, 0, 0, 0, 0, [];
      pBuf := new byte[IN_BUF_SIZE];
    }

    method ResetParser()
      requires pBuf.Length == IN_BUF_SIZE
      modifies this
      ensures Valid() && State() == Idle && commands == old(commands)
    {
      pState := Idling;
      pHave := 0;
    }

    /** `feedParser`. The buffer write is within bounds whatever has been received: `Valid` holds
        from construction on and every call keeps it. */
    method FeedParser(b: byte)
      requires Valid()
      modifies this, pBuf
      ensures Valid()
      ensures State() == FeedByte(old(State()), b).state
      ensures commands == old(commands) + FeedByte(old(State()), b).commands
    {
      match pState
      case Idling =>
        if IsCommand(b) {
          pCmd, pState, pHave := b, NeedingLen, 0;
        }
      case NeedingLen =>
        if pHave == 0 {
          pLenLo, pHave := b, 1;
        } else {
          pLen := U16(pLenLo, b);
          pHave := 0;
          if pCmd == CMD_INFO && pLen == 0 {
            commands := commands + [Info];
            ResetParser();
          } else if pLen == 0 || pLen > IN_BUF_SIZE {
            ResetParser();
          } else {
            pState := NeedingBody;
          }
        }
      case NeedingBody =>
        pBuf[pHave] := b;
        pHave := pHave + 1;
        assert pBuf[..pHave] == old(pBuf[..pHave]) + [b];
        if pHave >= pLen {
          commands := commands + Dispatch(pCmd, pBuf[..pLen]);
          ResetParser();
        }
    }
  }

  // ---------- host framing ----------

  function CommandByte(c: Command): byte {
    match c
    case Send(_) => CMD_SEND
    case Config(_) => CMD_CONFIG
    case Display(_) => CMD_DISPLAY
    case Info => CMD_INFO
  }

  function Body(c: Command): Bytes {
    match c
    case Send(body) => body
    case Config(body) => body
    case Display(body) => body
    case Info => []
  }

  /** The host's `wrapped` buffer. */
  function Framed(c: Command): Bytes {
    [CommandByte(c)] + LittleEndian(|Body(c)|, 2) + Body(c)
  }

  function FramedAll(cs: seq<Command>): Bytes {
    if cs == [] then [] else Framed(cs[0]) + FramedAll(cs[1..])
  }

  /** `doSendFrame` and its siblings: allocate, then write the command, the length and the body. No
      buffer where writing the length throws. */
  method Wrap(c: Command) returns (r: Option<Bytes>)
    ensures r == if |Body(c)| <= 0xffff then Some(Framed(c)) else None
  {
    var body := Body(c);
    var wrapped := new byte[3 + |body|];
    wrapped[0] := CommandByte(c);
    if |body| > 0xffff {
      return None;
    }
    var len := LittleEndian(|body|, 2);
    wrapped[1], wrapped[2] := len[0], len[1];
    forall i | 0 <= i < |body| {
      wrapped[3 + i] := body[i];
    }
    assert wrapped[..] == [CommandByte(c)] + len + body;
    r := Some(wrapped[..]);
  }

  predicate Fits(c: Command) {
    c.Info? || 1 <= |Body(c)| <= IN_BUF_SIZE
  }

  lemma {:induction false} FeedAppend(st: State, a: Bytes, b: Bytes)
    ensures var r, t := Feed(st, a), Feed(Feed(st, a).state, b);
      Feed(st, a + b) == Parsed(t.state, r.commands + t.commands)
    decreases a
  {
    if a == [] {
      assert a + b == b;
    } else {
      var first := FeedByte(st, a[0]);
      FeedAppend(first.state, a[1..], b);
      ConcatTail(a, b);
      var r := Feed(first.state, a[1..]);
      ConcatAssociates(first.commands, r.commands, Feed(r.state, b).commands);
    }
  }

  lemma {:induction false} BodyIsCollected(cmd: byte, have: Bytes, body: Bytes)
    requires body != []
    ensures Feed(NeedBody(cmd, |have| + |body|, have), body) == Parsed(Idle, Dispatch(cmd, have + body))
    decreases body
  {
    if |body| == 1 {
      assert body[1..] == [] && have + [body[0]] == have + body;
    } else {
      BodyIsCollected(cmd, have + [body[0]], body[1..]);
      assert have + [body[0]] + body[1..] == have + body;
    }
  }

  lemma HeaderIsRead(cmd: byte, len: nat)
    requires IsCommand(cmd) && len <= 0xffff
    ensures Feed(Idle, [cmd] + LittleEndian(len, 2))
         == FeedByte(NeedLenHi(cmd, (len % 256) as byte), (len / 256) as byte)
    ensures U16((len % 256) as byte, (len / 256) as byte) == len
  {
    var lo, hi := (len % 256) as byte, (len / 256) as byte;
    assert LittleEndian(len / 256, 1) == [hi] + LittleEndian(len / 256 / 256, 0);
    assert [cmd] + LittleEndian(len, 2) == [cmd] + [lo] + [hi];
    FeedOne(Idle, cmd);
    FeedOne(NeedLen(cmd), lo);
    FeedOne(NeedLenHi(cmd, lo), hi);
    FeedAppend(Idle, [cmd], [lo]);
    FeedAppend(Idle, [cmd] + [lo], [hi]);
  }

  lemma FeedOne(st: State, b: byte)
    ensures Feed(st, [b]) == FeedByte(st, b)
  {
    assert [b][1..] == [];
    var r := FeedByte(st, b);
    assert r.commands + [] == r.commands;
  }

  lemma BodyRoundTrip(cmd: byte, body: Bytes)
    requires IsCommand(cmd) && 1 <= |body| <= IN_BUF_SIZE
    ensures Feed(Idle, [cmd] + LittleEndian(|body|, 2) + body) == Parsed(Idle, Dispatch(cmd, body))
  {
    HeaderOpensBody(cmd, |body|);
    FeedAppend(Idle, [cmd] + LittleEndian(|body|, 2), body);
    BodyIsCollected(cmd, [], body);
    assert [] + body == body;
    var commands := Dispatch(cmd, body);
    assert [] + commands == commands;
  }

  lemma HeaderOpensBody(cmd: byte, len: nat)
    requires IsCommand(cmd) && 1 <= len <= IN_BUF_SIZE
    ensures Feed(Idle, [cmd] + LittleEndian(len, 2)) == Parsed(NeedBody(cmd, len, []), [])
  {
    HeaderIsRead(cmd, len);
  }

  lemma CommandRoundTrip(c: Command)
    requires Fits(c)
    ensures Feed(Idle, Framed(c)) == Parsed(Idle, [c])
  {
    if c.Info? {
      HeaderIsRead(CMD_INFO, 0);
      assert Framed(c) == [CMD_INFO] + LittleEndian(0, 2);
    } else {
      BodyRoundTrip(CommandByte(c), Body(c));
    }
  }

  /** Feeding the concatenated frames of commands that fit dispatches exactly those commands and
      returns to idle. */
  lemma {:induction false} ParserUndoesFraming(cs: seq<Command>)
    requires forall i :: 0 <= i < |cs| ==> Fits(cs[i])
    ensures Feed(Idle, FramedAll(cs)) == Parsed(Idle, cs)
  {
    if cs != [] {
      CommandRoundTrip(cs[0]);
      ParserUndoesFraming(cs[1..]);
      FeedAppend(Idle, Framed(cs[0]), FramedAll(cs[1..]));
      assert cs == [cs[0]] + cs[1..];
    }
  }

  // ---------- noise between commands ----------

  /** No byte that opens a command. */
  predicate IsNoise(bytes: Bytes) {
    forall i :: 0 <= i < |bytes| ==> !(1 <= bytes[i] <= 4)
  }

  /** An idle parser ignores noise. */
  lemma {:induction false} NoiseIsIgnored(noise: Bytes, rest: Bytes)
    requires IsNoise(noise)
    ensures Feed(Idle, noise + rest) == Feed(Idle, rest)
    decreases noise
  {
    if noise == [] {
      assert noise + rest == rest;
    } else {
      ConcatTail(noise, rest);
      NoiseIsIgnored(noise[1..], rest);
      var r := Feed(Idle, rest);
      assert [] + r.commands == r.commands;
    }
  }

  /** Commands with noise before, between and behind them. */
  function FramedInNoise(cs: seq<Command>, noise: seq<Bytes>): Bytes
    requires |noise| == |cs| + 1
  {
    if cs == [] then noise[0] else noise[0] + (Framed(cs[0]) + FramedInNoise(cs[1..], noise[1..]))
  }

  /** The parser finds exactly the commands, whatever noise is around them. */
  lemma {:induction false} ParserFindsFrames(cs: seq<Command>, noise: seq<Bytes>)
    requires |noise| == |cs| + 1 && forall i :: 0 <= i < |cs| ==> Fits(cs[i])
    requires forall i :: 0 <= i < |noise| ==> IsNoise(noise[i])
    ensures Feed(Idle, FramedInNoise(cs, noise)) == Parsed(Idle, cs)
    decreases cs
  {
    if cs == [] {
      NoiseIsIgnored(noise[0], []);
      assert noise[0] + [] == noise[0];
    } else {
      var rest := FramedInNoise(cs[1..], noise[1..]);
      NoiseIsIgnored(noise[0], Framed(cs[0]) + rest);
      CommandRoundTrip(cs[0]);
      ParserFindsFrames(cs[1..], noise[1..]);
      FeedAppend(Idle, Framed(cs[0]), rest);
      assert cs == [cs[0]] + cs[1..];
    }
  }

  /** What the three header bytes of any command lead to. */
  lemma HeaderExactly(cmd: byte, lo: byte, hi: byte)
    requires 1 <= cmd <= 4
    ensures var len := lo as nat + 256 * hi as nat;
      Feed(Idle, [cmd] + [lo] + [hi])
        == if cmd == 4 && len == 0 then Parsed(Idle, [Info])
           else if 1 <= len <= 259 then Parsed(NeedBody(cmd, len, []), [])
           else Parsed(Idle, [])
  {
    FeedOne(Idle, cmd);
    FeedOne(NeedLen(cmd), lo);
    FeedOne(NeedLenHi(cmd, lo), hi);
    FeedAppend(Idle, [cmd], [lo]);
    FeedAppend(Idle, [cmd] + [lo], [hi]);
  }

  /** A body is read to its length and dispatched under its command byte; INFO takes none, so a body sent
      with it is read and dropped. */
  lemma BodyExactly(cmd: byte, body: Bytes)
    requires 1 <= cmd <= 4 && 1 <= |body| <= 259
    ensures Feed(NeedBody(cmd, |body|, []), body)
         == Parsed(Idle, if cmd == 1 then [Send(body)] else if cmd == 2 then [Config(body)]
                         else if cmd == 3 then [Display(body)] else [])
  {
    BodyIsCollected(cmd, [], body);
    assert [] + body == body;
  }

  /** The host's frames, byte for byte. */
  lemma FramedExactly(c: Command)
    requires |Body(c)| <= 0xffff
    ensures
      var code: byte := match c case Send(_) => 1 case Config(_) => 2 case Display(_) => 3 case Info => 4;
      Framed(c) == [code, (|Body(c)| % 256) as byte, (|Body(c)| / 256) as byte] + Body(c)
  {
    LittleEndianFields(|Body(c)|);
  }

  /** Whatever arrives, the buffer index stays in bounds and only bodies of 1..259 bytes are
      dispatched. */
  lemma {:induction false} ParserStaysInBounds(st: State, bytes: Bytes)
    requires InBounds(st)
    ensures InBounds(Feed(st, bytes).state)
    ensures forall c :: c in Feed(st, bytes).commands ==> Fits(c)
    decreases bytes
  {
    if bytes != [] { ParserStaysInBounds(FeedByte(st, bytes[0]).state, bytes[1..]); }
  }

  /** One framed command dispatches exactly itself if and only if it fits. */
  lemma RoundTripNeedsFit(c: Command)
    requires |Body(c)| <= 0xffff
    ensures Feed(Idle, Framed(c)).commands == [c] <==> c.Info? || 1 <= |Body(c)| <= 259
  {
    ParserStaysInBounds(Idle, Framed(c));
    if Fits(c) {
      CommandRoundTrip(c);
    } else {
      var r := Feed(Idle, Framed(c)).commands;
      assert forall i :: 0 <= i < |r| ==> r[i] != c;
    }
  }

  // ---------- what goes on the air ----------

  /** The packets `handleSendBody` transmits. */
  function Transmitted(cs: seq<Command>): seq<Bytes> {
    if cs == [] then []
    else (if cs[0].Send? && 1 <= |cs[0].body| <= MAX_PAYLOAD then [cs[0].body] else []) + Transmitted(cs[1..])
  }

  function Sends(packets: seq<Bytes>): seq<Command> {
    seq(|packets|, i requires 0 <= i < |packets| => Send(packets[i]))
  }

  lemma {:induction false} SendsAreTransmitted(packets: seq<Bytes>)
    requires forall i :: 0 <= i < |packets| ==> 1 <= |packets[i]| <= MAX_PAYLOAD
    ensures Transmitted(Sends(packets)) == packets
  {
    if packets != [] {
      SendsAreTransmitted(packets[1..]);
      assert Sends(packets)[1..] == Sends(packets[1..]);
      assert packets == [packets[0]] + packets[1..];
    }
  }

  /** Radio frames of 1..255 bytes handed to the host go on the air unchanged and in order. */
  lemma SegmentsReachTheAir(packets: seq<Bytes>)
    requires forall i :: 0 <= i < |packets| ==> 1 <= |packets[i]| <= MAX_PAYLOAD
    ensures Feed(Idle, FramedAll(Sends(packets))).state == Idle
    ensures Transmitted(Feed(Idle, FramedAll(Sends(packets))).commands) == packets
  {
    ParserUndoesFraming(Sends(packets));
    SendsAreTransmitted(packets);
  }

  lemma {:induction false} TransmittedAreShort(cs: seq<Command>)
    ensures forall p :: p in Transmitted(cs) ==> 1 <= |p| <= MAX_PAYLOAD
  {
    if cs != [] { TransmittedAreShort(cs[1..]); }
  }

  lemma {:induction false} TransmittedAppend(a: seq<Command>, b: seq<Command>)
    ensures Transmitted(a + b) == Transmitted(a) + Transmitted(b)
  {
    if a == [] {
      assert a + b == b;
    } else {
      TransmittedAppend(a[1..], b);
      ConcatTail(a, b);
      ConcatAssociates(if a[0].Send? && 1 <= |a[0].body| <= MAX_PAYLOAD then [a[0].body] else [],
                       Transmitted(a[1..]), Transmitted(b));
    }
  }

  /** Nothing but a SEND of 1..255 bytes goes on the air, and that as it is, wherever it comes. */
  lemma TransmittedExactly(before: seq<Command>, c: Command, after: seq<Command>)
    ensures Transmitted(before + [c] + after)
         == Transmitted(before)
            + (match c
               case Send(body) => if 1 <= |body| <= 255 then [body] else []
               case _ => [])
            + Transmitted(after)
  {
    TransmittedAppend(before + [c], after);
    TransmittedAppend(before, [c]);
    assert [c][1..] == [];
  }

  /** A single radio frame handed to the host goes on the air, as the only one, if and only if it has
      1..255 bytes. */
  lemma FrameReachesTheAirExactly(packet: Bytes)
    requires |packet| <= 0xffff
    ensures Transmitted(Feed(Idle, Framed(Send(packet))).commands) == [packet] <==> 1 <= |packet| <= 255
  {
    var cs := Feed(Idle, Framed(Send(packet))).commands;
    TransmittedAreShort(cs);
    if 1 <= |packet| <= MAX_PAYLOAD {
      CommandRoundTrip(Send(packet));
      assert [Send(packet)][1..] == [];
    } else {
      var t := Transmitted(cs);
      assert forall i :: 0 <= i < |t| ==> t[i] in t;
    }
  }
}
