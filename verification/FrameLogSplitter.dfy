/** `FrameLogSplitter` of src/device/HelionetDevice.ts, and the firmware printer it undoes
    (`emitReceivedFrame` of firmware/helionet/src/main.cpp).

    Characters of a log line are the bytes they came from (`String.fromCharCode`).
*/
module FrameLogSplitters {
  import opened Bytes
  import opened DecimalText

  const HASH: byte := 0x23
  const NEWLINE: byte := 0x0a

  datatype Event = Log(line: Bytes) | Frame(frame: Bytes)

  datatype State = Scan | InLog(line: Bytes) | FrameBody(remaining: int, buf: Bytes)

  datatype Fed = Fed(state: State, events: seq<Event>)

  function RxevPrefix(): Bytes { Ascii("#rxev n=") }

  function StatusZero(): Bytes { Ascii(" st=0") }

  predicate StartsWith(s: Bytes, prefix: Bytes) {
    |prefix| <= |s| && s[..|prefix|] == prefix
  }

  /** `line.match(/^#rxev n=(\d+) st=0/)` and `parseInt` of the group. */
  function MatchRxev(line: Bytes): Option<nat> {
    if !StartsWith(line, RxevPrefix()) then None
    else
      var s := line[8..];
      var d := DigitRun(s);
      DigitRunIsDigits(s);
      if d > 0 && StartsWith(s[d..], StatusZero()) then Some(ParseDecimal(s[..d])) else None
  }

  /** The length of the frame a log line announces, 0 when it announces none. */
  function Announced(line: Bytes): nat {
    match MatchRxev(line)
    case Some(n) => if n <= 255 then n else 0
    case None => 0
  }

  function FeedByte(st: State, b: byte): Fed {
    match st
    case FrameBody(remaining, buf) =>
      if remaining == 1 then Fed(Scan, [Frame(buf + [b])])
      else Fed(FrameBody(remaining - 1, buf + [b]), [])
    case InLog(line) =>
      if b == NEWLINE then
        Fed(if Announced(line) > 0 then FrameBody(Announced(line), []) else Scan, [Log(line)])
      else Fed(InLog(line + [b]), [])
    case Scan =>
      if b == HASH then Fed(InLog([HASH]), []) else Fed(Scan, [])
  }

  function Feed(st: State, chunk: Bytes): Fed
    decreases chunk
  {
    if chunk == [] then Fed(st, [])
    else
      var first := FeedByte(st, chunk[0]);
      var rest := Feed(first.state, chunk[1..]);
      Fed(rest.state, first.events + rest.events)
  }

  datatype Mode = Scanning | ReadingLog | ReadingFrame

  class FrameLogSplitter {
    var mode: Mode
    var logLine: Bytes
    var frameRemaining: int
    var frameBuf: Bytes
    /** What `onLog` and `onFrame` have been called with, in order. */
    var events: seq<Event>

    ghost predicate Valid()
      reads this
    {
      if mode == ReadingFrame then frameRemaining > 0 else frameBuf == []
    }

    ghost function State(): State
      reads this
    {
      match mode
      case Scanning => Scan
      case ReadingLog => InLog(logLine)
      case ReadingFrame => FrameBody(frameRemaining, frameBuf)
    }

    constructor ()
      ensures Valid() && State() == Scan && events == []
    {
      mode, logLine, frameRemaining, frameBuf, events := Scanning, [], 0, [], [];
    }

    /** The body of the loop: one byte. */
    method Take(b: byte)
      requires Valid()
      modifies this
      ensures Valid()
      ensures State() == FeedByte(old(State()), b).state
      ensures events == old(events) + FeedByte(old(State()), b).events
    {
      if mode == ReadingFrame {
        frameBuf := frameBuf + [b];
        frameRemaining := frameRemaining - 1;
        if frameRemaining == 0 {
          var f := frameBuf;
          frameBuf := [];
          mode := Scanning;
          events := events + [Frame(f)];
        }
      } else if mode == ReadingLog {
        if b == NEWLINE {
          var line := logLine;
          logLine := [];
          events := events + [Log(line)];
          var m := MatchRxev(line);
          if m.Some? && 0 < m.value <= 255 {
            frameRemaining := m.value;
            mode := ReadingFrame;
          } else {
            mode := Scanning;
          }
        } else {
          logLine := logLine + [b];
        }
      } else if b == HASH {
        mode := ReadingLog;
        logLine := [HASH];
      }
    }

    method FeedChunk(chunk: Bytes)
      requires Valid()
      modifies this
      ensures Valid()
      ensures State() == Feed(old(State()), chunk).state
      ensures events == old(events) + Feed(old(State()), chunk).events
    {
      for i := 0 to |chunk|
        invariant Valid()
        invariant State() == Feed(old(State()), chunk[..i]).state
        invariant events == old(events) + Feed(old(State()), chunk[..i]).events
      {
        FeedSnoc(old(State()), chunk[..i], chunk[i]);
        assert chunk[..i + 1] == chunk[..i] + [chunk[i]];
        Take(chunk[i]);
      }
      assert chunk[..|chunk|] == chunk;
    }
  }

  // ---------- chunking ----------

  /** Feeding two chunks is feeding their concatenation. */
  lemma {:induction false} FeedAppend(st: State, a: Bytes, b: Bytes)
    ensures var r, t := Feed(st, a), Feed(Feed(st, a).state, b);
      Feed(st, a + b) == Fed(t.state, r.events + t.events)
    decreases a
  {
    if a == [] {
      assert a + b == b;
    } else {
      var first := FeedByte(st, a[0]);
      FeedAppend(first.state, a[1..], b);
      ConcatTail(a, b);
      var r := Feed(first.state, a[1..]);
      ConcatAssociates(first.events, r.events, Feed(r.state, b).events);
    }
  }

  lemma FeedSnoc(st: State, a: Bytes, b: byte)
    ensures var r, t := Feed(st, a), FeedByte(Feed(st, a).state, b);
      Feed(st, a + [b]) == Fed(t.state, r.events + t.events)
  {
    FeedAppend(st, a, [b]);
    assert [b][1..] == [];
    var t := FeedByte(Feed(st, a).state, b);
    assert t.events + [] == t.events;
  }

  function FeedChunks(st: State, chunks: seq<Bytes>): Fed
    decreases chunks
  {
    if chunks == [] then Fed(st, [])
    else
      var first := Feed(st, chunks[0]);
      var rest := FeedChunks(first.state, chunks[1..]);
      Fed(rest.state, first.events + rest.events)
  }

  /** How the serial port cuts the stream does not matter. */
  lemma {:induction false} ChunkingDoesNotMatter(st: State, chunks: seq<Bytes>)
    ensures FeedChunks(st, chunks) == Feed(st, Concat(chunks))
    decreases chunks
  {
    if chunks != [] {
      ChunkingDoesNotMatter(Feed(st, chunks[0]).state, chunks[1..]);
      FeedAppend(st, chunks[0], Concat(chunks[1..]));
    }
  }

  // ---------- what the pattern means ----------

  lemma MatchAfterDigits(digits: Bytes, rest: Bytes)
    requires digits != [] && AllDigits(digits) && rest != [] && !IsDigit(rest[0])
    ensures MatchRxev(RxevPrefix() + digits + rest)
      == if StartsWith(rest, StatusZero()) then Some(ParseDecimal(digits)) else None
  {
    var line := RxevPrefix() + digits + rest;
    assert line[8..] == digits + rest;
    DigitRunIs(digits, rest);
    assert line[8..][|digits|..] == rest;
    assert line[8..][..|digits|] == digits;
  }

  /** The pattern matches exactly the lines that read `#rxev n=`, at least one digit, ` st=0`, and
      then anything; the group is the digits. */
  lemma MatchRxevIsPattern(line: Bytes)
    ensures forall digits, tail
              | digits != [] && AllDigits(digits) && line == RxevPrefix() + digits + (StatusZero() + tail)
              :: MatchRxev(line) == Some(ParseDecimal(digits))
    ensures MatchRxev(line).Some? ==> exists digits, tail ::
              digits != [] && AllDigits(digits) && line == RxevPrefix() + digits + (StatusZero() + tail)
  {
    forall digits, tail | digits != [] && AllDigits(digits) && line == RxevPrefix() + digits + (StatusZero() + tail)
      ensures MatchRxev(line) == Some(ParseDecimal(digits))
    {
      MatchAfterDigits(digits, StatusZero() + tail);
    }
    if MatchRxev(line).Some? {
      var s := line[8..];
      var d := DigitRun(s);
      DigitRunIsDigits(s);
      assert line == RxevPrefix() + s[..d] + (StatusZero() + s[d..][5..]);
    }
  }

  /** A line announces a frame exactly when it matches with a number from 1 to 255. */
  lemma AnnouncedExactly(line: Bytes)
    ensures Announced(line) > 0 ==> 1 <= Announced(line) <= 255 && MatchRxev(line) == Some(Announced(line))
    ensures MatchRxev(line).Some? && 1 <= MatchRxev(line).value <= 255 ==> Announced(line) == MatchRxev(line).value
  {
  }

  // ---------- the printer ----------

  /** A radio reception as `emitReceivedFrame` sees it: the packet, the status of `readData`, and
      the text `%.1f` gives for signal strength and signal-to-noise ratio. */
  datatype Reception = Reception(packet: Bytes, status: int, rssi: Bytes, snr: Bytes)

  predicate OneLine(s: Bytes) {
    forall i :: 0 <= i < |s| ==> s[i] != NEWLINE
  }

  function RxevLine(r: Reception): Bytes {
    RxevPrefix() + Decimal(|r.packet|) + Ascii(" st=") + SignedDecimal(r.status)
      + (Ascii(" rssi=") + r.rssi + Ascii(" snr=") + r.snr)
  }

  function BadLenLine(r: Reception): Bytes {
    Ascii("#rxev bad-len=") + Decimal(|r.packet|)
  }

  predicate GoodLength(r: Reception) {
    1 <= |r.packet| <= 255
  }

  function PrintedReception(r: Reception): Bytes {
    if !GoodLength(r) then BadLenLine(r) + [NEWLINE]
    else RxevLine(r) + [NEWLINE] + if r.status == 0 then r.packet else []
  }

  class SerialOut {
    var written: Bytes

    constructor ()
      ensures written == []
    {
      written := [];
    }

    method EmitReceivedFrame(r: Reception)
      modifies this
      ensures written == old(written) + PrintedReception(r)
    {
      var len := |r.packet|;
      if len == 0 || len > 255 {
        written := written + (BadLenLine(r) + [NEWLINE]);
        return;
      }
      written := written + (RxevLine(r) + [NEWLINE]);
      if r.status == 0 {
        written := written + r.packet;
      }
    }
  }

  /** What the board may write: noise without `#`, log lines, receptions. */
  datatype Item = Noise(bytes: Bytes) | LogLine(text: Bytes) | Received(reception: Reception)

  function Line(text: Bytes): Bytes { [HASH] + text }

  /** Log lines stay on one line and do not announce a frame by themselves. */
  predicate Printable(item: Item) {
    match item
    case Noise(bytes) => HASH !in bytes
    case LogLine(text) => OneLine(text) && Announced(Line(text)) == 0
    case Received(r) => OneLine(r.rssi) && OneLine(r.snr)
  }

  function Printed(item: Item): Bytes {
    match item
    case Noise(bytes) => bytes
    case LogLine(text) => Line(text) + [NEWLINE]
    case Received(r) => PrintedReception(r)
  }

  function Expected(item: Item): seq<Event> {
    match item
    case Noise(bytes) => []
    case LogLine(text) => [Log(Line(text))]
    case Received(r) =>
      if !GoodLength(r) then [Log(BadLenLine(r))]
      else [Log(RxevLine(r))] + if r.status == 0 then [Frame(r.packet)] else []
  }

  function PrintedAll(items: seq<Item>): Bytes {
    if items == [] then [] else Printed(items[0]) + PrintedAll(items[1..])
  }

  function ExpectedAll(items: seq<Item>): seq<Event> {
    if items == [] then [] else Expected(items[0]) + ExpectedAll(items[1..])
  }

  lemma {:induction false} PrintedAppend(a: seq<Item>, b: seq<Item>)
    ensures PrintedAll(a + b) == PrintedAll(a) + PrintedAll(b)
  {
    if a == [] {
      assert a + b == b;
    } else {
      PrintedAppend(a[1..], b);
      ConcatTail(a, b);
      ConcatAssociates(Printed(a[0]), PrintedAll(a[1..]), PrintedAll(b));
    }
  }

  lemma {:induction false} NoiseIsDropped(bytes: Bytes)
    requires HASH !in bytes
    ensures Feed(Scan, bytes) == Fed(Scan, [])
  {
    if bytes != [] { NoiseIsDropped(bytes[1..]); }
  }

  lemma {:induction false} LineIsLogged(line: Bytes, more: Bytes)
    requires OneLine(more)
    ensures Feed(InLog(line), more + [NEWLINE]) == FeedByte(InLog(line + more), NEWLINE)
    decreases more
  {
    if more == [] {
      FeedSnoc(InLog(line), [], NEWLINE);
      assert line + more == line;
    } else {
      LineIsLogged(line + [more[0]], more[1..]);
      assert (more + [NEWLINE])[1..] == more[1..] + [NEWLINE];
      assert line + [more[0]] + more[1..] == line + more;
    }
  }

  lemma {:induction false} BodyIsCollected(buf: Bytes, body: Bytes)
    requires body != []
    ensures Feed(FrameBody(|body|, buf), body) == Fed(Scan, [Frame(buf + body)])
    decreases body
  {
    if |body| == 1 {
      assert body[1..] == [];
      assert buf + [body[0]] == buf + body;
    } else {
      BodyIsCollected(buf + [body[0]], body[1..]);
      assert buf + [body[0]] + body[1..] == buf + body;
    }
  }

  /** A whole `#` line from scan mode: logged, and then scan mode again exactly when it announces no
      frame. */
  lemma HashLine(text: Bytes)
    requires OneLine(text)
    ensures Feed(Scan, Line(text) + [NEWLINE])
      == Fed(if Announced(Line(text)) > 0 then FrameBody(Announced(Line(text)), []) else Scan, [Log(Line(text))])
  {
    LineIsLogged([HASH], text);
    assert (Line(text) + [NEWLINE])[1..] == text + [NEWLINE];
  }

  lemma DecimalIsOneLine(n: nat)
    ensures OneLine(Decimal(n))
  {
    DecimalRoundTrip(n);
  }

  lemma OneLineAppend(a: Bytes, b: Bytes)
    requires OneLine(a) && OneLine(b)
    ensures OneLine(a + b)
  {
  }

  lemma RxevLineIsOneLine(r: Reception)
    requires OneLine(r.rssi) && OneLine(r.snr)
    ensures OneLine(RxevLine(r))
  {
    DecimalIsOneLine(|r.packet|);
    DecimalIsOneLine(if r.status < 0 then -r.status else r.status);
    var head := RxevPrefix() + Decimal(|r.packet|) + Ascii(" st=");
    OneLineAppend(RxevPrefix(), Decimal(|r.packet|));
    OneLineAppend(RxevPrefix() + Decimal(|r.packet|), Ascii(" st="));
    OneLineAppend(head, SignedDecimal(r.status));
    OneLineAppend(Ascii(" rssi="), r.rssi);
    OneLineAppend(Ascii(" rssi=") + r.rssi, Ascii(" snr="));
    OneLineAppend(Ascii(" rssi=") + r.rssi + Ascii(" snr="), r.snr);
    OneLineAppend(head + SignedDecimal(r.status), Ascii(" rssi=") + r.rssi + Ascii(" snr=") + r.snr);
  }

  /** The line announces the packet's length exactly when the printed status is zero, and nothing
      otherwise: `st=0` is matched as a prefix, and no other status prints with a leading zero. */
  lemma RxevLineAnnounces(r: Reception)
    ensures MatchRxev(RxevLine(r)) == if r.status == 0 then Some(|r.packet|) else None
  {
    var digits, status := Decimal(|r.packet|), SignedDecimal(r.status);
    DecimalRoundTrip(|r.packet|);
    DecimalRoundTrip(if r.status < 0 then -r.status else r.status);
    var rest := Ascii(" st=") + status + (Ascii(" rssi=") + r.rssi + Ascii(" snr=") + r.snr);
    assert RxevLine(r) == RxevPrefix() + digits + rest;
    MatchAfterDigits(digits, rest);
    StatusIsZero(status, Ascii(" rssi=") + r.rssi + Ascii(" snr=") + r.snr);
  }

  lemma StatusIsZero(status: Bytes, tail: Bytes)
    requires status != []
    ensures StartsWith(Ascii(" st=") + status + tail, StatusZero()) <==> status[0] == 48
  {
    var rest := Ascii(" st=") + status + tail;
    assert rest[..5] == Ascii(" st=") + [status[0]];
    assert StatusZero() == Ascii(" st=") + [48];
    assert rest[..5][4] == status[0] && StatusZero()[4] == 48;
  }

  lemma BadLenAnnouncesNothing(r: Reception)
    ensures Announced(BadLenLine(r)) == 0 && OneLine(BadLenLine(r))
  {
    DecimalIsOneLine(|r.packet|);
    OneLineAppend(Ascii("#rxev bad-len="), Decimal(|r.packet|));
    assert BadLenLine(r)[..8][6] == Code('b') && RxevPrefix()[6] == Code('n');
  }

  lemma ReceptionRoundTrip(r: Reception)
    requires Printable(Received(r))
    ensures Feed(Scan, PrintedReception(r)) == Fed(Scan, Expected(Received(r)))
  {
    if !GoodLength(r) {
      BadLenAnnouncesNothing(r);
      assert BadLenLine(r) == Line(BadLenLine(r)[1..]);
      HashLine(BadLenLine(r)[1..]);
    } else {
      RxevLineIsOneLine(r);
      RxevLineAnnounces(r);
      assert RxevLine(r) == Line(RxevLine(r)[1..]);
      HashLine(RxevLine(r)[1..]);
      if r.status == 0 {
        FeedAppend(Scan, RxevLine(r) + [NEWLINE], r.packet);
        BodyIsCollected([], r.packet);
        assert [] + r.packet == r.packet;
      } else {
        assert RxevLine(r) + [NEWLINE] + [] == RxevLine(r) + [NEWLINE];
      }
    }
  }

  /** The splitter undoes the board's printing: it emits exactly the lines and frames, in order, and
      ends in scan mode. */
  lemma {:induction false} SplitterUndoesPrinter(items: seq<Item>)
    requires forall i :: 0 <= i < |items| ==> Printable(items[i])
    ensures Feed(Scan, PrintedAll(items)) == Fed(Scan, ExpectedAll(items))
  {
    if items != [] {
      var item := items[0];
      match item {
        case Noise(bytes) => NoiseIsDropped(bytes);
        case LogLine(text) => HashLine(text);
        case Received(r) => ReceptionRoundTrip(r);
      }
      SplitterUndoesPrinter(items[1..]);
      FeedAppend(Scan, Printed(item), PrintedAll(items[1..]));
    }
  }

  /** The same under any chunking of the serial stream. */
  lemma SplitterUndoesPrinterInChunks(items: seq<Item>, chunks: seq<Bytes>)
    requires forall i :: 0 <= i < |items| ==> Printable(items[i])
    requires Concat(chunks) == PrintedAll(items)
    ensures FeedChunks(Scan, chunks) == Fed(Scan, ExpectedAll(items))
  {
    ChunkingDoesNotMatter(Scan, chunks);
    SplitterUndoesPrinter(items);
  }

  // ---------- printed lines, byte for byte ----------

  lemma Literals()
    ensures Ascii("#rxev n=") == [35, 114, 120, 101, 118, 32, 110, 61] && Ascii(" st=") == [32, 115, 116, 61]
    ensures Ascii(" rssi=") == [32, 114, 115, 115, 105, 61] && Ascii(" snr=") == [32, 115, 110, 114, 61]
    ensures Ascii(" st=0") == [32, 115, 116, 61, 48]
    ensures Ascii("#rxev bad-len=") == [35, 114, 120, 101, 118, 32, 98, 97, 100, 45, 108, 101, 110, 61]
  {
  }

  /** What is printed for a reception: the length, the status with its sign, signal strength before
      signal-to-noise ratio, a newline, and the packet behind it if the status is zero; for a length outside
      1..255 a line with that length alone. */
  lemma PrintedExactly(r: Reception)
    ensures
      var digits := Decimal(if r.status < 0 then -r.status else r.status);
      var status := if r.status < 0 then [45] + digits else digits;
      PrintedReception(r)
        == if 1 <= |r.packet| <= 255
           then [35, 114, 120, 101, 118, 32, 110, 61] + Decimal(|r.packet|) + [32, 115, 116, 61] + status
                + [32, 114, 115, 115, 105, 61] + r.rssi + [32, 115, 110, 114, 61] + r.snr + [10]
                + (if r.status == 0 then r.packet else [])
           else [35, 114, 120, 101, 118, 32, 98, 97, 100, 45, 108, 101, 110, 61] + Decimal(|r.packet|) + [10]
  {
    Literals();
    var head := Ascii("#rxev n=") + Decimal(|r.packet|) + Ascii(" st=") + SignedDecimal(r.status);
    ConcatAssociates(head, Ascii(" rssi=") + r.rssi + Ascii(" snr="), r.snr);
    ConcatAssociates(head, Ascii(" rssi=") + r.rssi, Ascii(" snr="));
    ConcatAssociates(head, Ascii(" rssi="), r.rssi);
  }
}
