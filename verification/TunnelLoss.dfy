/** What the tunnel's receiver loses: the packets of other senders, of a wrapped counter and behind a
    number nobody sent, and the bytes behind a frame it refuses.
*/
module TunnelLoss {
  import opened Bytes
  import opened ReplayBitmap
  import opened Ip2LoraCodec
  import opened AeadCodec
  import opened TunnelModel
  import opened StreamParser
  import opened TunnelReceive
  import opened TunnelSend

  // ---------- one window for all senders ----------

  /** A frame of some sender. */
  datatype Sending = Sending(from: Config, number: nat, chunk: Bytes)

  ghost predicate AllSendTo(sendings: seq<Sending>, b: Config) {
    forall i :: 0 <= i < |sendings| ==> SendsTo(sendings[i].from, b, sendings[i].number, sendings[i].chunk)
  }

  function Numbers(sendings: seq<Sending>): (r: seq<nat>)
    ensures |r| == |sendings|
  {
    seq(|sendings|, i requires 0 <= i < |sendings| => sendings[i].number)
  }

  /** The windows of a fresh receiver that has taken a turn on each of these frames. */
  ghost function SeenAfterAll(b: Config, sendings: seq<Sending>): Seen
    requires b.Valid() && AllSendTo(sendings, b)
  {
    if sendings == [] then map[]
    else
      var last := sendings[|sendings| - 1];
      var before := SeenAfterAll(b, sendings[..|sendings| - 1]);
      var t := TakeTurn(b, before, Outgo(last.from, last.number, last.chunk).frame, 0);
      if t.Advance? then t.seen else map[]
  }

  lemma {:induction false} AllShareOneSet(b: Config, sendings: seq<Sending>)
    requires b.Valid() && AllSendTo(sendings, b)
    ensures SeenFrom(SeenAfterAll(b, sendings), b.localAddr) == Accepted(Numbers(sendings))
  {
    if sendings != [] {
      var init, last := sendings[..|sendings| - 1], sendings[|sendings| - 1];
      AllShareOneSet(b, init);
      TurnAccepts(last, b, SeenAfterAll(b, init));
      assert Numbers(sendings)[..|sendings| - 1] == Numbers(init);
    }
  }

  lemma TurnAccepts(s: Sending, b: Config, seen: Seen)
    requires SendsTo(s.from, b, s.number, s.chunk)
    ensures
      var t := TakeTurn(b, seen, Outgo(s.from, s.number, s.chunk).frame, 0);
      t.Advance? && SeenFrom(t.seen, b.localAddr) == Accept(SeenFrom(seen, b.localAddr), s.number)
  {
    var frame := Outgo(s.from, s.number, s.chunk).frame;
    assert frame + [] == frame;
    GenuineFrameTurn(s.from, b, s.number, s.chunk, [], seen, 0);
  }

  /** The receiver keeps its window under its own address, so all senders share it. After turns at the
      first bytes of frames of any senders, the turn at the first byte of the next one of any sender
      delivers it if and only if its number is none of theirs and less than 64 behind each. */
  lemma SendersShareOneWindow(b: Config, sendings: seq<Sending>, next: Sending, rest: Bytes, at: nat)
    requires b.Valid() && AllSendTo(sendings, b) && SendsTo(next.from, b, next.number, next.chunk)
    ensures
      var t := TakeTurn(b, SeenAfterAll(b, sendings), Outgo(next.from, next.number, next.chunk).frame + rest, at);
      && t.Advance?
      && Deliveries(t.log) ==
         if forall i :: 0 <= i < |sendings| ==>
              sendings[i].number != next.number && sendings[i].number < next.number + 64
         then [Ipv4Of(next.chunk).value] else []
  {
    var numbers := Numbers(sendings);
    AllShareOneSet(b, sendings);
    FreshExactly(numbers, next.number);
    assert forall i :: 0 <= i < |sendings| ==> sendings[i].number == numbers[i] && numbers[i] in numbers;
    GenuineFrameTurn(next.from, b, next.number, next.chunk, rest, SeenAfterAll(b, sendings), at);
    OneDelivery(at, FrameAt(next.from, next.number, next.chunk), Ipv4Of(next.chunk).value);
    NoDelivery(at, AeadReplay);
  }

  // ---------- numbers are never forgotten ----------

  /** Whatever is received, a number once accepted stays accepted. */
  lemma NumbersAreKept(b: Config, r: Receiver, chunks: seq<Bytes>, n: nat)
    requires b.Valid() && n in SeenFrom(r.seen, b.localAddr)
    requires chunks == [] ==> Quiet(TurnsOf(b), r)
    ensures Progresses(TurnsOf(b)) && n in SeenFrom(FeedChunks(TurnsOf(b), r, chunks).seen, b.localAddr)
  {
    var turns := TurnsOf(b);
    ChunkingDoesNotMatter(b, r, chunks);
    var kept := (x: Receiver) => n in SeenFrom(x.seen, b.localAddr);
    forall x: Receiver | kept(x) && !Quiet(turns, x) ensures kept(AfterTurn(x, turns(x.seen, x.buffer, x.at))) {
      TurnDeliversOnce(b, x.seen, x.buffer, x.at);
    }
    RunKeeps(turns, kept, Append(r, Concat(chunks)));
  }

  ghost predicate RefusedAsReplay(b: Config, seen: Seen, s: Bytes, at: nat)
    requires b.Valid()
  {
    var t := TakeTurn(b, seen, s, at);
    t.Advance? && t.skip == 1 && t.log == [Dropped(at, AeadReplay)]
  }

  /** A receiver that has accepted a number refuses, from then on and whatever else it receives, every
      genuine frame whose number is 64 or more behind. */
  lemma StaleForGood(a: Config, b: Config, r: Receiver, chunks: seq<Bytes>, n: nat,
                     counter: nat, chunk: Bytes, rest: Bytes, at: nat)
    requires SendsTo(a, b, counter, chunk) && n in SeenFrom(r.seen, b.localAddr) && counter + 64 <= n
    requires chunks == [] ==> Quiet(TurnsOf(b), r)
    ensures Progresses(TurnsOf(b))
    ensures RefusedAsReplay(b, FeedChunks(TurnsOf(b), r, chunks).seen, Outgo(a, counter, chunk).frame + rest, at)
  {
    NumbersAreKept(b, r, chunks, n);
    var later := FeedChunks(TurnsOf(b), r, chunks).seen;
    GenuineFrameTurn(a, b, counter, chunk, rest, later, at);
  }

  // ---------- the counter wraps, the window does not ----------

  /** Once the frame numbered 2^64 - 1 has been delivered, none of the next 2^64 - 64 nonces is ever
      accepted, whatever is received in between. */
  lemma WrapIsNotTolerated(a: Config, b: Config, first: Bytes, r: Receiver, chunks: seq<Bytes>,
                           k: nat, chunk: Bytes, rest: Bytes, at: nat)
    requires SendsTo(a, b, UINT64_RANGE - 1, first) && FreshFor(a, r.seen, b.localAddr, UINT64_RANGE - 1)
    requires r.buffer == Outgo(a, UINT64_RANGE - 1, first).frame
    requires 1 <= k <= UINT64_RANGE - 64 && SendsTo(a, b, CounterAfter(UINT64_RANGE - 1, k), chunk)
    ensures Progresses(TurnsOf(b))
    ensures Deliveries(Feed(TurnsOf(b), r, []).log) == Deliveries(r.log) + [Ipv4Of(first).value]
    ensures RefusedAsReplay(b, FeedChunks(TurnsOf(b), Feed(TurnsOf(b), r, []), chunks).seen,
                            Outgo(a, CounterAfter(UINT64_RANGE - 1, k), chunk).frame + rest, at)
  {
    WrappedCounter(k);
    var after := LastNumberIsTaken(a, b, first, r);
    StaleForGood(a, b, after, chunks, UINT64_RANGE - 1, CounterAfter(UINT64_RANGE - 1, k), chunk, rest, at);
  }

  lemma WrappedCounter(k: nat)
    requires 1 <= k <= UINT64_RANGE
    ensures CounterAfter(UINT64_RANGE - 1, k) == k - 1
  {
    CounterWraps(UINT64_RANGE - 1, k);
  }

  /** The run on a lone frame with a fresh number. */
  lemma LastNumberIsTaken(a: Config, b: Config, first: Bytes, r: Receiver) returns (after: Receiver)
    requires SendsTo(a, b, UINT64_RANGE - 1, first) && FreshFor(a, r.seen, b.localAddr, UINT64_RANGE - 1)
    requires r.buffer == Outgo(a, UINT64_RANGE - 1, first).frame
    ensures Progresses(TurnsOf(b)) && after == Feed(TurnsOf(b), r, []) && Quiet(TurnsOf(b), after)
    ensures UINT64_RANGE - 1 in SeenFrom(after.seen, b.localAddr)
    ensures Deliveries(after.log) == Deliveries(r.log) + [Ipv4Of(first).value]
  {
    TurnsProgress(b);
    assert r.buffer + [] == r.buffer;
    GenuineFrameTurn(a, b, UINT64_RANGE - 1, first, [], r.seen, r.at);
    var t := TakeTurn(b, r.seen, r.buffer, r.at);
    RunTurn(TurnsOf(b), r, t);
    after := AfterTurn(r, t);
    assert after.buffer == [];
    RunWaits(TurnsOf(b), after);
    OneDelivery(r.at, FrameAt(a, UINT64_RANGE - 1, first), Ipv4Of(first).value);
    DeliveriesAppend(r.log, t.log);
  }

  // ---------- the window moves before the tag is checked ----------

  /** `s` starts with an AEAD frame for the receiver, long enough to be opened and with a fresh number,
      whose tag does not match. */
  ghost predicate StartsUnauthentic(b: Config, seen: Seen, s: Bytes, f: Frame) {
    && b.Valid() && b.aeadKey.Some? && Decode(s) == Decoded(f, FrameLength(f)) && f.Addr() == b.localAddr
    && f.FlagBits().aead && |f.wire| >= NONCE_LEN + TAG_LEN
    && IsFresh(SeenFrom(seen, b.localAddr), FrameNumber(f)) && OpenAead(b, f).None?
  }

  /** A frame that does not authenticate is dropped, and its number is burnt. */
  lemma BadTagTurn(b: Config, seen: Seen, s: Bytes, f: Frame, at: nat)
    requires StartsUnauthentic(b, seen, s, f)
    ensures TakeTurn(b, seen, s, at)
         == Advance(1, [Dropped(at, AeadTagMismatch)],
                    seen[b.localAddr := SeenFrom(seen, b.localAddr) + {FrameNumber(f)}])
  {
  }

  /** After the turn on a frame that does not authenticate, the turn at the first byte of a genuine frame
      that was fresh before delivers it if and only if its number is another one and less than 64 behind. */
  lemma BurntNumber(a: Config, b: Config, seen: Seen, s: Bytes, f: Frame,
                    counter: nat, chunk: Bytes, rest: Bytes, at: nat)
    requires StartsUnauthentic(b, seen, s, f) && SendsTo(a, b, counter, chunk)
    requires IsFresh(SeenFrom(seen, b.localAddr), counter)
    ensures
      var frame, after := Outgo(a, counter, chunk).frame, TakeTurn(b, seen, s, 0).seen;
      var t := TakeTurn(b, after, frame + rest, at);
      && t.Advance?
      && if FrameNumber(f) != counter && FrameNumber(f) < counter + 64
         then t.skip == |frame| && t.log == [Delivered(at, FrameAt(a, counter, chunk), Ipv4Of(chunk).value)]
         else t.skip == 1 && t.log == [Dropped(at, AeadReplay)]
  {
    BadTagTurn(b, seen, s, f, 0);
    GenuineFrameTurn(a, b, counter, chunk, rest, TakeTurn(b, seen, s, 0).seen, at);
  }

  /** One frame with a high number and a tag that does not match shuts out, for good and whatever else is
      received, every genuine frame 64 or more behind it. With number 2^64 - 1 these are all but the last
      64 numbers. */
  lemma BadTagShutsOut(a: Config, b: Config, r: Receiver, f: Frame, chunks: seq<Bytes>,
                        counter: nat, chunk: Bytes, rest: Bytes, at: nat)
    requires StartsUnauthentic(b, r.seen, r.buffer, f) && SendsTo(a, b, counter, chunk)
    requires counter + 64 <= FrameNumber(f)
    ensures Progresses(TurnsOf(b))
    ensures RefusedAsReplay(b, FeedChunks(TurnsOf(b), Feed(TurnsOf(b), r, []), chunks).seen,
                            Outgo(a, counter, chunk).frame + rest, at)
  {
    TurnsProgress(b);
    var turns := TurnsOf(b);
    BadTagTurn(b, r.seen, r.buffer, f, r.at);
    var t := TakeTurn(b, r.seen, r.buffer, r.at);
    var next := AfterTurn(r, t);
    RunTurn(turns, r, t);
    assert r.buffer + [] == r.buffer && next.buffer + [] == next.buffer;
    assert Feed(turns, r, []) == Feed(turns, next, []);
    assert FeedChunks(turns, next, [[]]) == Feed(turns, next, []);
    NumbersAreKept(b, next, [[]], FrameNumber(f));
    RunLeavesQuiet(turns, next);
    StaleForGood(a, b, Feed(turns, r, []), chunks, FrameNumber(f), counter, chunk, rest, at);
  }

  // ---------- what lies behind a refused frame ----------

  /** The size field the receiver reads one byte into a frame: the high byte of the frame's own size,
      and its addr|flags byte. */
  function PhantomSize(f: Frame): nat {
    (|f.wire| + 1) / 256 % 256 + 256 * f.addrFlags as nat
  }

  /** The frame the receiver finds one byte into the frame `f` that `s` starts with: the first byte of
      the payload is its addr|flags byte. */
  function Phantom(s: Bytes, f: Frame): Frame
    requires f.wire != [] && 0 < PhantomSize(f) && PhantomSize(f) + 5 <= |s|
  {
    var n := PhantomSize(f);
    Frame(f.wire[0], s[4..3 + n], U16(s[3 + n], s[4 + n]))
  }

  lemma PhantomDecodes(s: Bytes, f: Frame)
    requires Decode(s) == Decoded(f, FrameLength(f)) && f.wire != [] && PhantomSize(f) > 0
    ensures Decode(s[1..])
         == if |s| < PhantomSize(f) + 5 then ShortFrame else Decoded(Phantom(s, f), PhantomSize(f) + 4)
  {
    PhantomHeader(s, f);
    var n := PhantomSize(f);
    if |s| >= n + 5 {
      assert s[1..][3..2 + n] == s[4..3 + n];
    }
  }

  /** One byte into a frame, the receiver waits until the phantom frame is whole. Unless the first byte of
      the payload holds its own address, it then skips all of it. */
  lemma PhantomTurn(b: Config, s: Bytes, f: Frame, seen: Seen, at: nat)
    requires b.Valid() && Decode(s) == Decoded(f, FrameLength(f))
    requires f.wire != [] && f.wire[0] as nat % 16 != b.localAddr && PhantomSize(f) > 0
    ensures TakeTurn(b, seen, s[1..], at)
      == if |s| - 1 < PhantomSize(f) + 4 then Wait
         else Advance(PhantomSize(f) + 4, [Dropped(at, AddrMismatch(f.wire[0] as nat % 16))], seen)
  {
    PhantomDecodes(s, f);
  }

  /** If that byte holds the receiver's own address, it waits for the same bytes and then takes the phantom
      for a frame of its own. */
  lemma OwnPhantomTurn(b: Config, s: Bytes, f: Frame, seen: Seen, at: nat)
    requires b.Valid() && Decode(s) == Decoded(f, FrameLength(f))
    requires f.wire != [] && f.wire[0] as nat % 16 == b.localAddr && PhantomSize(f) > 0
    ensures TakeTurn(b, seen, s[1..], at)
      == if |s| - 1 < PhantomSize(f) + 4 then Wait
         else
           var p := Phantom(s, f);
           Conclude(p, PhantomSize(f) + 4, Recover(b, seen, p, at), at)
  {
    PhantomDecodes(s, f);
  }

  /** For a receiver with address 0 and no ROHC, the phantom of an AEAD frame carries no flags: once it is
      whole, its bytes are delivered as a packet if they happen to pass the checksum, and else the
      receiver goes on one byte further. */
  lemma AddressZeroTurn(b: Config, s: Bytes, f: Frame, seen: Seen, at: nat)
    requires b.Valid() && b.localAddr == 0 && !b.useRohc && Decode(s) == Decoded(f, FrameLength(f))
    requires f.wire != [] && f.wire[0] == 0 && PhantomSize(f) > 0
    ensures TakeTurn(b, seen, s[1..], at)
      == if |s| - 1 < PhantomSize(f) + 4 then Wait
         else
           var p := Phantom(s, f);
           if VerifyCrc(0, p.wire, p.claimedCrc) then Advance(PhantomSize(f) + 4, [Delivered(at, p, p.wire)], seen)
           else Advance(1, [Dropped(at, CrcMismatch)], seen)
  {
    OwnPhantomTurn(b, s, f, seen, at);
    if |s| - 1 >= PhantomSize(f) + 4 {
      NoFlags(b, Phantom(s, f), seen, at);
    }
  }

  lemma NoFlags(b: Config, p: Frame, seen: Seen, at: nat)
    requires b.Valid() && !b.useRohc && p.addrFlags == 0
    ensures Recover(b, seen, p, at) == Recovery(Some(p.wire), [], seen) && !p.FlagBits().aead
  {
    assert p.FlagBits() == Flags(false, false, false);
  }

  /** One byte into a frame shorter than its phantom there is nothing to decide yet, whoever it is for. */
  lemma PhantomWaits(s: Bytes, f: Frame)
    requires Decode(s) == Decoded(f, FrameLength(f)) && |s| < PhantomSize(f) + 5
    ensures Decode(s[1..]).ShortHeader? || Decode(s[1..]).ShortFrame?
  {
    PhantomHeader(s, f);
  }

  /** A receiver of any address that refuses a frame shorter than its phantom stops one byte into it. */
  lemma RefusalWaits(b: Config, turns: Turns, r: Receiver, f: Frame)
    requires b.Valid() && Implements(turns, b) && Progresses(turns)
    requires Decode(r.buffer) == Decoded(f, FrameLength(f)) && |r.buffer| < PhantomSize(f) + 5
    requires turns(r.seen, r.buffer, r.at).Advance? && turns(r.seen, r.buffer, r.at).skip == 1
    ensures Run(turns, r) == AfterTurn(r, turns(r.seen, r.buffer, r.at))
  {
    var t := turns(r.seen, r.buffer, r.at);
    var next := AfterTurn(r, t);
    PhantomWaits(r.buffer, f);
    assert turns(next.seen, next.buffer, next.at) == TakeTurn(b, next.seen, next.buffer, next.at);
    RunTurn(turns, r, t);
    RunWaits(turns, next);
  }

  lemma PhantomHeader(s: Bytes, f: Frame)
    requires Decode(s) == Decoded(f, FrameLength(f))
    ensures |s| >= 5 && U16(s[1..][0], s[1..][1]) == PhantomSize(f)
    ensures f.wire != [] ==> |s| >= 6 && s[1..][2] == f.wire[0]
  {
    var n := U16(s[0], s[1]);
    assert n == |f.wire| + 1 && f.wire == s[3..2 + n];
    HighByte(s[0], s[1]);
  }

  lemma HighByte(lo: byte, hi: byte)
    ensures U16(lo, hi) / 256 % 256 == hi as nat
  {
  }

  /** The receiver refuses an AEAD frame with the padding a nonce starts with, for whatever reason. */
  ghost predicate Refuses(b: Config, turns: Turns, r: Receiver, f: Frame) {
    && b.Valid() && Decode(r.buffer) == Decoded(f, FrameLength(f))
    && f.FlagBits().aead && f.wire != [] && f.wire[0] == 0
    && turns(r.seen, r.buffer, r.at).Advance? && turns(r.seen, r.buffer, r.at).skip == 1
  }

  /** Where a receiver goes on behind a turn that skips one byte and a phantom of `n` bytes: nowhere
      until the phantom is whole, and then behind it. */
  ghost function BehindPhantom(r: Receiver, t: Turn, n: nat, drop: Event): Receiver
    requires t.Advance? && t.skip == 1 <= |r.buffer|
  {
    if |r.buffer| - 1 < n then AfterTurn(r, t)
    else Receiver(r.buffer[1 + n..], r.at + 1 + n, t.seen, r.log + t.log + [drop])
  }

  lemma AfterPhantom(r: Receiver, t: Turn, n: nat, drop: Event)
    requires t.Advance? && t.skip == 1 <= |r.buffer| && n <= |r.buffer| - 1
    ensures AfterTurn(AfterTurn(r, t), Advance(n, [drop], t.seen)) == BehindPhantom(r, t, n, drop)
  {
    DropDrop(r.buffer, 1, n);
  }

  /** A turn that skips one byte, and behind it a turn that waits for `n` bytes and then drops them. */
  ghost predicate MeetsPhantom(turns: Turns, r: Receiver, t: Turn, n: nat, drop: Event)
    requires Progresses(turns)
  {
    && t == turns(r.seen, r.buffer, r.at) && t.Advance? && t.skip == 1
    && turns(t.seen, r.buffer[1..], r.at + 1) == if |r.buffer| - 1 < n then Wait else Advance(n, [drop], t.seen)
  }

  lemma SkipsPhantom(turns: Turns, r: Receiver, t: Turn, n: nat, drop: Event)
    requires Progresses(turns) && MeetsPhantom(turns, r, t, n, drop)
    ensures Run(turns, r) == Run(turns, BehindPhantom(r, t, n, drop))
    ensures |r.buffer| - 1 < n ==> Run(turns, r) == BehindPhantom(r, t, n, drop)
  {
    RunTurn(turns, r, t);
    if |r.buffer| - 1 < n {
      RunWaits(turns, AfterTurn(r, t));
    } else {
      AfterPhantom(r, t, n, drop);
      RunTurn(turns, AfterTurn(r, t), Advance(n, [drop], t.seen));
    }
  }

  lemma RefusalMeetsPhantom(b: Config, turns: Turns, r: Receiver, f: Frame)
    requires b.Valid() && b.localAddr != 0 && Implements(turns, b) && Progresses(turns) && Refuses(b, turns, r, f)
    ensures PhantomSize(f) >= 0x2000
    ensures MeetsPhantom(turns, r, turns(r.seen, r.buffer, r.at), PhantomSize(f) + 4,
                         Dropped(r.at + 1, AddrMismatch(0)))
  {
    AeadFlagIsHigh(f);
    var t := turns(r.seen, r.buffer, r.at);
    PhantomTurn(b, r.buffer, f, t.seen, r.at + 1);
    assert turns(t.seen, r.buffer[1..], r.at + 1) == TakeTurn(b, t.seen, r.buffer[1..], r.at + 1);
  }

  /** A refused AEAD frame costs more than itself: the receiver reads a phantom frame of at least 8196
      bytes one byte into it, delivers nothing until that many bytes have come, and skips them, unless
      its address is 0. */
  lemma RefusalSwallows(b: Config, turns: Turns, r: Receiver, f: Frame)
    requires b.Valid() && b.localAddr != 0 && Implements(turns, b) && Progresses(turns) && Refuses(b, turns, r, f)
    ensures PhantomSize(f) >= 0x2000
    ensures
      var n, drop := PhantomSize(f) + 4, Dropped(r.at + 1, AddrMismatch(0));
      var next := BehindPhantom(r, turns(r.seen, r.buffer, r.at), n, drop);
      Run(turns, r) == Run(turns, next) && (|r.buffer| < 1 + n ==> Run(turns, r) == next)
  {
    RefusalMeetsPhantom(b, turns, r, f);
    SkipsPhantom(turns, r, turns(r.seen, r.buffer, r.at), PhantomSize(f) + 4, Dropped(r.at + 1, AddrMismatch(0)));
  }

  lemma AeadFlagIsHigh(f: Frame)
    requires f.FlagBits().aead
    ensures PhantomSize(f) >= 0x2000
  {
  }

  /** A genuine frame whose number is stale swallows what follows it. */
  lemma StaleFrameSwallows(a: Config, b: Config, counter: nat, chunk: Bytes, rest: Bytes, r: Receiver)
    requires SendsTo(a, b, counter, chunk) && !IsFresh(SeenFrom(r.seen, b.localAddr), counter)
    requires r.buffer == Outgo(a, counter, chunk).frame + rest
    ensures Refuses(b, TurnsOf(b), r, FrameAt(a, counter, chunk))
  {
    GenuineFrameTurn(a, b, counter, chunk, rest, r.seen, r.at);
    GenuineHeader(a, b, counter, chunk, rest);
  }

  lemma GenuineHeader(a: Config, b: Config, counter: nat, chunk: Bytes, rest: Bytes)
    requires SendsTo(a, b, counter, chunk)
    ensures
      var f := FrameAt(a, counter, chunk);
      && Decode(Outgo(a, counter, chunk).frame + rest) == Decoded(f, FrameLength(f))
      && f.FlagBits().aead && f.wire != [] && f.wire[0] == 0
  {
    var ip := Ipv4Of(chunk).value;
    var clear := ClearPayload(a, ip).value;
    FramedIsFrameOf(a, counter, chunk, rest);
    DecodedBytes(Outgo(a, counter, chunk).frame + rest);
    UnpackPack(AddrOf(ip), WireFlags(a, clear));
    assert Nonce(counter)[0] == 0;
  }

  /** A frame that does not authenticate swallows what follows it, if its nonce is padded as nonces are. */
  lemma BadTagFrameSwallows(b: Config, r: Receiver, f: Frame)
    requires StartsUnauthentic(b, r.seen, r.buffer, f) && f.wire[0] == 0
    ensures Refuses(b, TurnsOf(b), r, f)
  {
    BadTagTurn(b, r.seen, r.buffer, f, r.at);
  }

  /** The genuine frame behind one that has burnt its number swallows what follows it too: its number is burnt. */
  lemma BurntFrameSwallows(a: Config, b: Config, r: Receiver, f: Frame,
                           counter: nat, chunk: Bytes, rest: Bytes, at: nat)
    requires StartsUnauthentic(b, r.seen, r.buffer, f)
    requires SendsTo(a, b, counter, chunk) && FrameNumber(f) == counter
    ensures
      var burnt := TakeTurn(b, r.seen, r.buffer, r.at).seen;
      var x := Receiver(Outgo(a, counter, chunk).frame + rest, at, burnt, r.log);
      Refuses(b, TurnsOf(b), x, FrameAt(a, counter, chunk))
  {
    BadTagTurn(b, r.seen, r.buffer, f, r.at);
    var burnt := TakeTurn(b, r.seen, r.buffer, r.at).seen;
    StaleFrameSwallows(a, b, counter, chunk, rest, Receiver(Outgo(a, counter, chunk).frame + rest, at, burnt, r.log));
  }

  /** A frame that arrives twice delivers its packet once, and the second copy swallows everything up to
      more than 8 KB behind its first byte. */
  lemma DuplicateSwallows(a: Config, b: Config, counter: nat, chunk: Bytes, rest: Bytes, r: Receiver)
    requires SendsTo(a, b, counter, chunk) && IsFresh(SeenFrom(r.seen, b.localAddr), counter)
    requires
      var frame := Outgo(a, counter, chunk).frame;
      && r.buffer == frame + (frame + rest)
      && |frame + rest| < PhantomSize(FrameAt(a, counter, chunk)) + 5
    ensures Progresses(TurnsOf(b)) && PhantomSize(FrameAt(a, counter, chunk)) >= 0x2000
    ensures
      var after := Run(TurnsOf(b), r);
      && Deliveries(after.log) == Deliveries(r.log) + [Ipv4Of(chunk).value]
      && after.buffer == (Outgo(a, counter, chunk).frame + rest)[1..]
  {
    TurnsProgress(b);
    var frame, f, ip := Outgo(a, counter, chunk).frame, FrameAt(a, counter, chunk), Ipv4Of(chunk).value;
    GenuineFrameTurn(a, b, counter, chunk, frame + rest, r.seen, r.at);
    var t := TakeTurn(b, r.seen, r.buffer, r.at);
    RunTurn(TurnsOf(b), r, t);
    var mid := AfterTurn(r, t);
    assert mid.buffer == frame + rest;
    StaleFrameSwallows(a, b, counter, chunk, rest, mid);
    GenuineFrameTurn(a, b, counter, chunk, rest, mid.seen, mid.at);
    AeadFlagIsHigh(f);
    RefusalWaits(b, TurnsOf(b), mid, f);
    OneDelivery(r.at, f, ip);
    NoDelivery(mid.at, AeadReplay);
    DeliveriesAppend(r.log, t.log);
    DeliveriesAppend(mid.log, [Dropped(mid.at, AeadReplay)]);
    assert Deliveries(r.log) + [ip] + [] == Deliveries(r.log) + [ip];
  }
}
