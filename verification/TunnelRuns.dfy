/** What the tunnel's receiver delivers over whole runs: of frames of many senders end to end, behind a
    frame it refuses, and behind numbers it has accepted.
*/
module TunnelRuns {
  import opened Bytes
  import opened ReplayBitmap
  import opened Ip2LoraCodec
  import opened AeadCodec
  import opened TunnelModel
  import opened StreamParser
  import opened TunnelReceive
  import opened TunnelSend
  import opened TunnelLoss

  // ---------- runs only add, and only from here on ----------

  /** `y` is `x` some turns later: its log goes on, with events from positions at or behind `x`. */
  ghost predicate Follows(x: Receiver, y: Receiver) {
    && x.at <= y.at && |x.log| <= |y.log| && y.log[..|x.log|] == x.log
    && forall i :: |x.log| <= i < |y.log| ==> x.at <= y.log[i].at
  }

  lemma EventsAreHere(b: Config, seen: Seen, s: Bytes, at: nat)
    requires b.Valid() && TakeTurn(b, seen, s, at).Advance?
    ensures var log := TakeTurn(b, seen, s, at).log; forall i :: 0 <= i < |log| ==> log[i].at == at
  {
    var d := Decode(s);
    if d.Decoded? && d.frame.Addr() == b.localAddr {
      var r := Recover(b, seen, d.frame, at);
      RecoverySummary(b, seen, d.frame, at);
      forall i | 0 <= i < |r.log| ensures r.log[i].at == at {
        assert r.log[i] in r.log;
      }
    }
  }

  lemma FollowsAfterTurn(r: Receiver, x: Receiver, t: Turn)
    requires Follows(r, x) && t.Advance? && t.skip <= |x.buffer|
    requires forall i :: 0 <= i < |t.log| ==> t.log[i].at == x.at
    ensures Follows(r, AfterTurn(x, t))
  {
    var log := x.log + t.log;
    assert log[..|r.log|] == x.log[..|r.log|];
    forall i | |r.log| <= i < |log| ensures r.at <= log[i].at {
      if i >= |x.log| { assert log[i] == t.log[i - |x.log|]; }
    }
  }

  lemma RunFollows(b: Config, turns: Turns, r: Receiver)
    requires b.Valid() && Implements(turns, b) && Progresses(turns)
    ensures Follows(r, Run(turns, r))
  {
    var follows := (x: Receiver) => Follows(r, x);
    forall x: Receiver | follows(x) && !Quiet(turns, x) ensures follows(AfterTurn(x, turns(x.seen, x.buffer, x.at))) {
      assert turns(x.seen, x.buffer, x.at) == TakeTurn(b, x.seen, x.buffer, x.at);
      EventsAreHere(b, x.seen, x.buffer, x.at);
      FollowsAfterTurn(r, x, turns(x.seen, x.buffer, x.at));
    }
    assert r.log[..|r.log|] == r.log;
    RunKeeps(turns, follows, r);
  }

  /** From entry `k` of the log on, something is delivered at a position. */
  ghost predicate DeliversAt(log: seq<Event>, k: nat, at: nat) {
    exists i :: k <= i < |log| && log[i].Delivered? && log[i].at == at
  }

  /** Whether a run delivers at its start is decided by its first turn. */
  lemma FirstTurnDecides(b: Config, turns: Turns, r: Receiver, k: nat)
    requires b.Valid() && Implements(turns, b) && Progresses(turns) && k <= |r.log|
    requires turns(r.seen, r.buffer, r.at).Advance?
    requires forall i :: k <= i < |r.log| ==> !r.log[i].Delivered?
    ensures DeliversAt(Run(turns, r).log, k, r.at) <==> DeliversAt(turns(r.seen, r.buffer, r.at).log, 0, r.at)
  {
    var t := turns(r.seen, r.buffer, r.at);
    var next := AfterTurn(r, t);
    RunTurn(turns, r, t);
    RunFollows(b, turns, next);
    DeliveriesOfFirstTurn(r, t, Run(turns, r), k);
  }

  lemma DeliveriesOfFirstTurn(r: Receiver, t: Turn, later: Receiver, k: nat)
    requires t.Advance? && 1 <= t.skip <= |r.buffer| && k <= |r.log| && Follows(AfterTurn(r, t), later)
    requires forall i :: k <= i < |r.log| ==> !r.log[i].Delivered?
    ensures DeliversAt(later.log, k, r.at) <==> DeliversAt(t.log, 0, r.at)
  {
    var log := r.log + t.log;
    assert later.log[..|log|] == log;
    if DeliversAt(later.log, k, r.at) {
      var i :| k <= i < |later.log| && later.log[i].Delivered? && later.log[i].at == r.at;
      assert i < |log| && log[i] == later.log[i];
      assert t.log[i - |r.log|] == log[i];
    }
    if DeliversAt(t.log, 0, r.at) {
      var i :| 0 <= i < |t.log| && t.log[i].Delivered? && t.log[i].at == r.at;
      assert log[|r.log| + i] == t.log[i] && later.log[|r.log| + i] == log[|r.log| + i];
    }
  }

  // ---------- frames of many senders, end to end ----------

  /** The frames, end to end. */
  ghost function FramesOf(b: Config, sendings: seq<Sending>): Bytes
    requires AllSendTo(sendings, b)
  {
    if sendings == [] then []
    else
      var s := sendings[0];
      Outgo(s.from, s.number, s.chunk).frame + FramesOf(b, sendings[1..])
  }

  ghost function PacketsOf(b: Config, sendings: seq<Sending>): (packets: seq<Bytes>)
    requires AllSendTo(sendings, b)
    ensures |packets| == |sendings|
  {
    if sendings == [] then [] else [Ipv4Of(sendings[0].chunk).value] + PacketsOf(b, sendings[1..])
  }

  /** Each number is fresh after those before it. */
  ghost predicate InOrder(known: set<nat>, numbers: seq<nat>)
    decreases numbers
  {
    numbers != [] ==> IsFresh(known, numbers[0]) && InOrder(known + {numbers[0]}, numbers[1..])
  }

  /** How many numbers come before the first that is not fresh. */
  ghost function FreshPrefix(known: set<nat>, numbers: seq<nat>): (p: nat)
    ensures p <= |numbers|
    ensures p == |numbers| <==> InOrder(known, numbers)
    decreases numbers
  {
    if numbers == [] || !IsFresh(known, numbers[0]) then 0
    else 1 + FreshPrefix(known + {numbers[0]}, numbers[1..])
  }

  /** Numbers are in order exactly when each differs from, and is less than 64 behind, every number known
      and every number before it. */
  lemma {:induction false} InOrderExactly(known: set<nat>, numbers: seq<nat>)
    ensures InOrder(known, numbers)
      <==> && (forall a, k :: a in known && 0 <= k < |numbers| ==> a != numbers[k] && a < numbers[k] + 64)
           && (forall j, k :: 0 <= j < k < |numbers| ==> numbers[j] != numbers[k] && numbers[j] < numbers[k] + 64)
    decreases numbers
  {
    if numbers != [] {
      var first, rest := numbers[0], numbers[1..];
      InOrderExactly(known + {first}, rest);
      assert forall k :: 1 <= k < |numbers| ==> numbers[k] == rest[k - 1];
      assert forall k :: 0 <= k < |rest| ==> rest[k] == numbers[k + 1];
    }
  }

  lemma {:induction false} PrefixIsInOrder(known: set<nat>, numbers: seq<nat>)
    ensures
      var p := FreshPrefix(known, numbers);
      && InOrder(known, numbers[..p])
      && (p < |numbers| ==> !IsFresh(known + Members(numbers[..p]), numbers[p]))
    decreases numbers
  {
    var p := FreshPrefix(known, numbers);
    if p > 0 {
      var first, rest := numbers[0], numbers[1..];
      PrefixIsInOrder(known + {first}, rest);
      assert numbers[..p][0] == first && numbers[..p][1..] == rest[..p - 1];
      MembersOfHead(known, numbers[..p]);
    } else {
      assert Members(numbers[..0]) == {} && known + {} == known;
    }
  }

  ghost function Members(numbers: seq<nat>): set<nat> {
    set n | n in numbers
  }

  lemma MembersOfHead(known: set<nat>, numbers: seq<nat>)
    requires numbers != []
    ensures known + {numbers[0]} + Members(numbers[1..]) == known + Members(numbers)
  {
    assert numbers == [numbers[0]] + numbers[1..];
  }

  /** The frame at the head of the buffer is taken, if its number is fresh. */
  lemma HeadIsDelivered(b: Config, turns: Turns, s: Sending, rest: Bytes, r: Receiver) returns (next: Receiver)
    requires b.Valid() && Implements(turns, b) && Progresses(turns) && SendsTo(s.from, b, s.number, s.chunk)
    requires r.buffer == Outgo(s.from, s.number, s.chunk).frame + rest
    requires IsFresh(SeenFrom(r.seen, b.localAddr), s.number)
    ensures Run(turns, r) == Run(turns, next) && next.buffer == rest
    ensures SeenFrom(next.seen, b.localAddr) == SeenFrom(r.seen, b.localAddr) + {s.number}
    ensures Deliveries(next.log) == Deliveries(r.log) + [Ipv4Of(s.chunk).value]
  {
    var ip := Ipv4Of(s.chunk).value;
    GenuineFrameTurn(s.from, b, s.number, s.chunk, rest, r.seen, r.at);
    assert turns(r.seen, r.buffer, r.at) == TakeTurn(b, r.seen, r.buffer, r.at);
    var t := turns(r.seen, r.buffer, r.at);
    RunTurn(turns, r, t);
    next := AfterTurn(r, t);
    OneDelivery(r.at, FrameAt(s.from, s.number, s.chunk), ip);
    DeliveriesAppend(r.log, t.log);
  }

  /** Frames whose numbers are in order are all taken, whoever sent them. */
  lemma {:induction false} FramesAreTaken(b: Config, turns: Turns, sendings: seq<Sending>, rest: Bytes, r: Receiver)
    returns (next: Receiver)
    requires b.Valid() && Implements(turns, b) && Progresses(turns) && AllSendTo(sendings, b)
    requires r.buffer == FramesOf(b, sendings) + rest
    requires InOrder(SeenFrom(r.seen, b.localAddr), Numbers(sendings))
    ensures Run(turns, r) == Run(turns, next) && next.buffer == rest
    ensures SeenFrom(next.seen, b.localAddr) == SeenFrom(r.seen, b.localAddr) + Members(Numbers(sendings))
    ensures Deliveries(next.log) == Deliveries(r.log) + PacketsOf(b, sendings)
    decreases |sendings|
  {
    if sendings == [] {
      next := r;
      assert [] + rest == rest && Deliveries(r.log) + [] == Deliveries(r.log);
    } else {
      var s, tail := sendings[0], sendings[1..];
      assert Numbers(sendings)[0] == s.number && Numbers(sendings)[1..] == Numbers(tail);
      ConcatAssociates(Outgo(s.from, s.number, s.chunk).frame, FramesOf(b, tail), rest);
      var mid := HeadIsDelivered(b, turns, s, FramesOf(b, tail) + rest, r);
      next := FramesAreTaken(b, turns, tail, rest, mid);
      MembersOfHead(SeenFrom(r.seen, b.localAddr), Numbers(sendings));
      ConcatAssociates(Deliveries(r.log), [Ipv4Of(s.chunk).value], PacketsOf(b, tail));
    }
  }

  lemma {:induction false} FramesSplit(b: Config, sendings: seq<Sending>, p: nat)
    requires AllSendTo(sendings, b) && p <= |sendings|
    ensures FramesOf(b, sendings) == FramesOf(b, sendings[..p]) + FramesOf(b, sendings[p..])
  {
    if p == 0 {
      assert sendings[0..] == sendings;
      assert [] + FramesOf(b, sendings) == FramesOf(b, sendings);
    } else {
      var s := sendings[0];
      FramesSplit(b, sendings[1..], p - 1);
      assert sendings[..p][1..] == sendings[1..][..p - 1] && sendings[1..][p - 1..] == sendings[p..];
      ConcatAssociates(Outgo(s.from, s.number, s.chunk).frame, FramesOf(b, sendings[..p][1..]),
                       FramesOf(b, sendings[p..]));
    }
  }

  /** What has become of a receiver: where it delivered these packets and what is in its buffer. */
  ghost predicate Ends(b: Config, r: Receiver, packets: seq<Bytes>, left: Bytes)
    requires b.Valid()
  {
    && Progresses(TurnsOf(b))
    && Deliveries(Run(TurnsOf(b), r).log) == Deliveries(r.log) + packets
    && Run(TurnsOf(b), r).buffer == left
  }

  /** For any receiver state and any list of frames of any senders, end to end: if each number differs
      from and is less than 64 behind all those before it, every packet is delivered, in order, and
      nothing is left over. */
  lemma ManySendersDeliver(b: Config, sendings: seq<Sending>, r: Receiver)
    requires b.Valid() && AllSendTo(sendings, b) && r.buffer == FramesOf(b, sendings)
    requires InOrder(SeenFrom(r.seen, b.localAddr), Numbers(sendings))
    ensures Ends(b, r, PacketsOf(b, sendings), [])
  {
    var turns := SomeTurns(b);
    assert FramesOf(b, sendings) + [] == FramesOf(b, sendings);
    var next := FramesAreTaken(b, turns, sendings, [], r);
    assert turns(next.seen, next.buffer, next.at) == TakeTurn(b, next.seen, next.buffer, next.at);
    RunWaits(turns, next);
    RunsAgree(turns, b, r);
  }

  /** The first frame with a stale number stops the run, as long as its phantom is longer than what
      follows: the packets before it are delivered, and nothing of what follows. */
  lemma StaleFrameStops(b: Config, before: seq<Sending>, s: Sending, rest: Bytes, r: Receiver)
    requires b.Valid() && AllSendTo(before, b) && SendsTo(s.from, b, s.number, s.chunk)
    requires InOrder(SeenFrom(r.seen, b.localAddr), Numbers(before))
    requires !IsFresh(SeenFrom(r.seen, b.localAddr) + Members(Numbers(before)), s.number)
    requires
      var behind := Outgo(s.from, s.number, s.chunk).frame + rest;
      && r.buffer == FramesOf(b, before) + behind
      && |behind| < PhantomSize(FrameAt(s.from, s.number, s.chunk)) + 5
    ensures Ends(b, r, PacketsOf(b, before), (Outgo(s.from, s.number, s.chunk).frame + rest)[1..])
  {
    var turns := SomeTurns(b);
    var behind := Outgo(s.from, s.number, s.chunk).frame + rest;
    var mid := FramesAreTaken(b, turns, before, behind, r);
    GenuineFrameTurn(s.from, b, s.number, s.chunk, rest, mid.seen, mid.at);
    GenuineHeader(s.from, b, s.number, s.chunk, rest);
    assert turns(mid.seen, mid.buffer, mid.at) == TakeTurn(b, mid.seen, mid.buffer, mid.at);
    RefusalWaits(b, turns, mid, FrameAt(s.from, s.number, s.chunk));
    RunsAgree(turns, b, r);
    NoDelivery(mid.at, AeadReplay);
    DeliveriesAppend(mid.log, [Dropped(mid.at, AeadReplay)]);
    assert Deliveries(mid.log) + [] == Deliveries(mid.log);
  }

  /** On at most 0x2000 bytes of frames of any senders, the packets delivered are exactly those before
      the first stale number; so all of them are if and only if the numbers are in order. */
  lemma ManySendersExactly(b: Config, sendings: seq<Sending>, r: Receiver)
    requires b.Valid() && AllSendTo(sendings, b) && r.buffer == FramesOf(b, sendings) && |r.buffer| <= 0x2000
    ensures Progresses(TurnsOf(b))
    ensures
      var known, delivered := SeenFrom(r.seen, b.localAddr), Deliveries(Run(TurnsOf(b), r).log);
      && delivered == Deliveries(r.log) + PacketsOf(b, sendings[..FreshPrefix(known, Numbers(sendings))])
      && (delivered == Deliveries(r.log) + PacketsOf(b, sendings) <==> InOrder(known, Numbers(sendings)))
  {
    var known, numbers := SeenFrom(r.seen, b.localAddr), Numbers(sendings);
    var p := FreshPrefix(known, numbers);
    PrefixIsInOrder(known, numbers);
    assert numbers[..p] == Numbers(sendings[..p]);
    FramesSplit(b, sendings, p);
    if p == |sendings| {
      assert sendings[..p] == sendings;
      ManySendersDeliver(b, sendings, r);
    } else {
      StopsAt(b, sendings, p, r);
    }
  }

  lemma StopsAt(b: Config, sendings: seq<Sending>, p: nat, r: Receiver)
    requires b.Valid() && AllSendTo(sendings, b) && p < |sendings|
    requires r.buffer == FramesOf(b, sendings[..p]) + FramesOf(b, sendings[p..]) && |r.buffer| <= 0x2000
    requires InOrder(SeenFrom(r.seen, b.localAddr), Numbers(sendings[..p]))
    requires !IsFresh(SeenFrom(r.seen, b.localAddr) + Members(Numbers(sendings[..p])), sendings[p].number)
    ensures Ends(b, r, PacketsOf(b, sendings[..p]), FramesOf(b, sendings[p..])[1..])
  {
    var s := sendings[p];
    var rest := FramesOf(b, sendings[p..][1..]);
    assert sendings[p..][0] == s;
    PhantomIsLong(s, b);
    StaleFrameStops(b, sendings[..p], s, rest, r);
  }

  lemma PhantomIsLong(s: Sending, b: Config)
    requires SendsTo(s.from, b, s.number, s.chunk)
    ensures PhantomSize(FrameAt(s.from, s.number, s.chunk)) >= 0x2000
  {
    GenuineHeader(s.from, b, s.number, s.chunk, []);
    AeadFlagIsHigh(FrameAt(s.from, s.number, s.chunk));
  }

  /** A frame that comes twice hides what comes after it, though its number be fresh. */
  lemma DuplicateHidesNext(b: Config, s: Sending, next: Sending, r: Receiver)
    requires b.Valid() && AllSendTo([s, s, next], b) && IsFresh(SeenFrom(r.seen, b.localAddr), s.number)
    requires r.buffer == FramesOf(b, [s, s, next]) && |r.buffer| <= 0x2000
    ensures Progresses(TurnsOf(b))
    ensures Deliveries(Run(TurnsOf(b), r).log) == Deliveries(r.log) + [Ipv4Of(s.chunk).value]
  {
    var known, numbers := SeenFrom(r.seen, b.localAddr), Numbers([s, s, next]);
    assert numbers[1..][0] == s.number;
    assert FreshPrefix(known + {s.number}, numbers[1..]) == 0;
    ManySendersExactly(b, [s, s, next], r);
    assert [s, s, next][..1] == [s] && [s][1..] == [];
  }

  // ---------- behind a frame that does not authenticate ----------

  /** Nothing that starts before the end of the phantom is delivered, whatever its number: from a frame
      that does not authenticate, the run delivers nothing at all while the phantom is not whole, and
      afterwards only from behind it. */
  lemma BadTagIsBarren(b: Config, r: Receiver, f: Frame)
    requires StartsUnauthentic(b, r.seen, r.buffer, f) && f.wire[0] == 0
    ensures Progresses(TurnsOf(b)) && PhantomSize(f) >= 0x2000
    ensures
      var after, n := Run(TurnsOf(b), r), PhantomSize(f) + 5;
      && (|r.buffer| < n ==> Deliveries(after.log) == Deliveries(r.log) && after.buffer == r.buffer[1..])
      && (b.localAddr != 0 ==>
            forall at :: r.at <= at < r.at + n ==> !DeliversAt(after.log, |r.log|, at))
  {
    var turns := SomeTurns(b);
    AeadFlagIsHigh(f);
    BadTagTurn(b, r.seen, r.buffer, f, r.at);
    assert turns(r.seen, r.buffer, r.at) == TakeTurn(b, r.seen, r.buffer, r.at);
    RunsAgree(turns, b, r);
    if |r.buffer| < PhantomSize(f) + 5 {
      RefusalWaits(b, turns, r, f);
      NoDelivery(r.at, AeadTagMismatch);
      DeliveriesAppend(r.log, [Dropped(r.at, AeadTagMismatch)]);
      assert Deliveries(r.log) + [] == Deliveries(r.log);
    }
    if b.localAddr != 0 { BarrenUpToPhantom(b, turns, r, f); }
  }

  lemma BarrenUpToPhantom(b: Config, turns: Turns, r: Receiver, f: Frame)
    requires b.Valid() && b.localAddr != 0 && Implements(turns, b) && Progresses(turns) && Refuses(b, turns, r, f)
    requires forall i :: 0 <= i < |turns(r.seen, r.buffer, r.at).log| ==>
               !turns(r.seen, r.buffer, r.at).log[i].Delivered?
    ensures forall at :: r.at <= at < r.at + PhantomSize(f) + 5 ==> !DeliversAt(Run(turns, r).log, |r.log|, at)
  {
    var t, n, drop := turns(r.seen, r.buffer, r.at), PhantomSize(f) + 4, Dropped(r.at + 1, AddrMismatch(0));
    RefusalSwallows(b, turns, r, f);
    var next := BehindPhantom(r, t, n, drop);
    RunFollows(b, turns, next);
    var later := Run(turns, r).log;
    assert forall i :: |r.log| <= i < |next.log| ==> !next.log[i].Delivered?;
    assert forall i :: |r.log| <= i < |next.log| ==> later[i] == later[..|next.log|][i];
  }

  /** A genuine frame that starts right behind the phantom of a frame that does not authenticate, and was
      fresh before, is delivered by the run if and only if its number is not the burnt one and less than
      64 behind it. */
  lemma BurntNumberRun(a: Config, b: Config, r: Receiver, f: Frame, head: Bytes,
                       counter: nat, chunk: Bytes, rest: Bytes)
    requires StartsUnauthentic(b, r.seen, r.buffer, f) && f.wire[0] == 0 && b.localAddr != 0
    requires SendsTo(a, b, counter, chunk) && IsFresh(SeenFrom(r.seen, b.localAddr), counter)
    requires r.buffer == head + (Outgo(a, counter, chunk).frame + rest) && |head| == PhantomSize(f) + 5
    ensures Progresses(TurnsOf(b))
    ensures DeliversAt(Run(TurnsOf(b), r).log, |r.log|, r.at + |head|)
      <==> FrameNumber(f) != counter && FrameNumber(f) < counter + 64
  {
    var turns := SomeTurns(b);
    RunsAgree(turns, b, r);
    var next := BehindBadTag(b, turns, r, f);
    assert r.buffer[|head|..] == Outgo(a, counter, chunk).frame + rest;
    GenuineFrameRun(a, b, turns, counter, chunk, rest, next, |r.log|);
    OneMoreKnown(SeenFrom(r.seen, b.localAddr), FrameNumber(f), counter);
  }

  lemma OneMoreKnown(known: set<nat>, m: nat, n: nat)
    requires IsFresh(known, n)
    ensures IsFresh(known + {m}, n) <==> m != n && m < n + 64
  {
  }

  /** A run from a genuine frame delivers at that frame if and only if its number is fresh. */
  lemma GenuineFrameRun(a: Config, b: Config, turns: Turns, counter: nat, chunk: Bytes, rest: Bytes,
                        r: Receiver, k: nat)
    requires b.Valid() && Implements(turns, b) && Progresses(turns) && SendsTo(a, b, counter, chunk)
    requires r.buffer == Outgo(a, counter, chunk).frame + rest
    requires k <= |r.log| && forall i :: k <= i < |r.log| ==> !r.log[i].Delivered?
    ensures DeliversAt(Run(turns, r).log, k, r.at) <==> IsFresh(SeenFrom(r.seen, b.localAddr), counter)
  {
    GenuineFrameTurn(a, b, counter, chunk, rest, r.seen, r.at);
    assert turns(r.seen, r.buffer, r.at) == TakeTurn(b, r.seen, r.buffer, r.at);
    var t := turns(r.seen, r.buffer, r.at);
    assert |t.log| == 1 && t.log[0].at == r.at;
    assert t.log[0].Delivered? <==> IsFresh(SeenFrom(r.seen, b.localAddr), counter);
    FirstTurnDecides(b, turns, r, k);
  }

  /** The receiver behind the phantom of a frame that does not authenticate. */
  lemma BehindBadTag(b: Config, turns: Turns, r: Receiver, f: Frame) returns (next: Receiver)
    requires b.Valid() && Implements(turns, b) && Progresses(turns)
    requires StartsUnauthentic(b, r.seen, r.buffer, f) && f.wire[0] == 0 && b.localAddr != 0
    requires |r.buffer| >= PhantomSize(f) + 5
    ensures Run(turns, r) == Run(turns, next)
    ensures next.buffer == r.buffer[PhantomSize(f) + 5..] && next.at == r.at + PhantomSize(f) + 5
    ensures SeenFrom(next.seen, b.localAddr) == SeenFrom(r.seen, b.localAddr) + {FrameNumber(f)}
    ensures |r.log| <= |next.log| && forall i :: |r.log| <= i < |next.log| ==> !next.log[i].Delivered?
  {
    BadTagTurn(b, r.seen, r.buffer, f, r.at);
    assert turns(r.seen, r.buffer, r.at) == TakeTurn(b, r.seen, r.buffer, r.at);
    RefusalSwallows(b, turns, r, f);
    next := BehindPhantom(r, turns(r.seen, r.buffer, r.at), PhantomSize(f) + 4, Dropped(r.at + 1, AddrMismatch(0)));
  }

  // ---------- behind a number once accepted ----------

  /** From entry `k` of the log on, every AEAD delivery carries another number than `n`, and one that is
      less than 64 behind it. */
  ghost predicate NoneStale(log: seq<Event>, k: nat, n: nat) {
    forall i :: k <= i < |log| && IsAeadDelivery(log[i]) ==>
      FrameNumber(log[i].frame) != n && n < FrameNumber(log[i].frame) + 64
  }

  lemma TurnDeliversFresh(b: Config, seen: Seen, s: Bytes, at: nat, n: nat)
    requires b.Valid() && TakeTurn(b, seen, s, at).Advance? && n in SeenFrom(seen, b.localAddr)
    ensures n in SeenFrom(TakeTurn(b, seen, s, at).seen, b.localAddr) && NoneStale(TakeTurn(b, seen, s, at).log, 0, n)
  {
    TurnDeliversOnce(b, seen, s, at);
    var d := Decode(s);
    if d.Decoded? && d.frame.Addr() == b.localAddr {
      var r := Recover(b, seen, d.frame, at);
      RecoverySummary(b, seen, d.frame, at);
      if r.clear.Some? && d.frame.FlagBits().aead { RecoveredIsFresh(b, seen, d.frame, at); }
      forall i | 0 <= i < |r.log| ensures !r.log[i].Delivered? {
        assert r.log[i] in r.log;
      }
    }
  }

  lemma RecoveredIsFresh(b: Config, seen: Seen, f: Frame, at: nat)
    requires b.Valid() && Recover(b, seen, f, at).clear.Some? && IsAead(f)
    ensures IsFresh(SeenFrom(seen, f.Addr()), FrameNumber(f))
  {
  }

  /** Once a number has been accepted, no run on any bytes delivers an AEAD frame with that number or one
      that is 64 or more behind it. */
  lemma StaleIsNeverDelivered(b: Config, r: Receiver, chunks: seq<Bytes>, n: nat)
    requires b.Valid() && n in SeenFrom(r.seen, b.localAddr)
    requires chunks == [] ==> Quiet(TurnsOf(b), r)
    ensures Progresses(TurnsOf(b)) && NoneStale(FeedChunks(TurnsOf(b), r, chunks).log, |r.log|, n)
  {
    var turns := TurnsOf(b);
    ChunkingDoesNotMatter(b, r, chunks);
    var none := (x: Receiver) =>
      n in SeenFrom(x.seen, b.localAddr) && |r.log| <= |x.log| && NoneStale(x.log, |r.log|, n);
    forall x: Receiver | none(x) && !Quiet(turns, x) ensures none(AfterTurn(x, turns(x.seen, x.buffer, x.at))) {
      TurnDeliversFresh(b, x.seen, x.buffer, x.at, n);
    }
    RunKeeps(turns, none, Append(r, Concat(chunks)));
  }
}
