/** The resynchronising receive loop, for any turns: chunking, where it stops, and induction over its
    turns.
*/
module StreamParser {
  import opened Bytes
  import opened TunnelModel

  /** A turn taken on a prefix of the stream is the turn taken on the stream. */
  ghost predicate Stable(turns: Turns) {
    forall seen: Seen, s: Bytes, t: Bytes, at: nat ::
      turns(seen, s, at).Advance? ==> turns(seen, s + t, at) == turns(seen, s, at)
  }

  /** A receiver that has nothing left to do. */
  ghost predicate Quiet(turns: Turns, r: Receiver) {
    turns(r.seen, r.buffer, r.at).Wait?
  }

  lemma {:induction false} RunLeavesQuiet(turns: Turns, r: Receiver)
    requires Progresses(turns)
    ensures Quiet(turns, Run(turns, r))
    decreases |r.buffer|
  {
    if !Quiet(turns, r) { RunLeavesQuiet(turns, AfterTurn(r, turns(r.seen, r.buffer, r.at))); }
  }

  lemma RunTurn(turns: Turns, r: Receiver, t: Turn)
    requires Progresses(turns) && t == turns(r.seen, r.buffer, r.at) && t.Advance?
    ensures Run(turns, r) == Run(turns, AfterTurn(r, t))
  {
  }

  lemma RunWaits(turns: Turns, r: Receiver)
    requires Progresses(turns) && Quiet(turns, r)
    ensures Run(turns, r) == r
  {
  }

  /** `run` is the receive loop on these turns. The trigger keeps `Run` out of proofs that only need
      `run`. */
  ghost predicate Runs(run: Receiver -> Receiver, turns: Turns)
    requires Progresses(turns)
  {
    forall r: Receiver {:trigger Run(turns, r)} :: run(r) == Run(turns, r)
  }

  lemma SomeRun(turns: Turns) returns (run: Receiver -> Receiver)
    requires Progresses(turns)
    ensures Runs(run, turns)
  {
    run := (r: Receiver) => if Progresses(turns) then Run(turns, r) else r;
  }

  /** What a turn leaves: nothing changed where it waits, its log and windows where it advances. */
  ghost predicate TurnLeaves(t: Turn, seen: Seen, log: seq<Event>, skip: nat, seen': Seen, log': seq<Event>) {
    if t.Wait? then skip == 0 && seen' == seen && log' == log
    else skip == t.skip && seen' == t.seen && log' == log + t.log
  }

  /** `next`, `skip` bytes on, has the same future as `r`, and none when nothing was skipped. */
  ghost predicate GoesOn(turns: Turns, r: Receiver, skip: nat, next: Receiver)
    requires Progresses(turns)
  {
    Run(turns, r) == Run(turns, next) && (skip == 0 ==> Run(turns, next) == next)
  }

  lemma TurnGoesOn(turns: Turns, buffer: Bytes, at: nat, seen: Seen, log: seq<Event>,
                   t: Turn, skip: nat, seen': Seen, log': seq<Event>)
    requires Progresses(turns) && t == turns(seen, buffer, at) && TurnLeaves(t, seen, log, skip, seen', log')
    ensures skip <= |buffer|
    ensures GoesOn(turns, Receiver(buffer, at, seen, log), skip, Receiver(buffer[skip..], at + skip, seen', log'))
  {
    var r := Receiver(buffer, at, seen, log);
    if t.Wait? {
      assert buffer[0..] == buffer;
      RunWaits(turns, r);
    } else {
      RunTurn(turns, r, t);
    }
  }

  lemma DropDrop(s: Bytes, j: nat, k: nat)
    requires j + k <= |s|
    ensures s[j..][k..] == s[j + k..]
  {
  }

  lemma AppendAfterTurn(r: Receiver, t: Turn, chunk: Bytes)
    requires t.Advance? && t.skip <= |r.buffer|
    ensures AfterTurn(Append(r, chunk), t) == Append(AfterTurn(r, t), chunk)
  {
    assert (r.buffer + chunk)[t.skip..] == r.buffer[t.skip..] + chunk;
  }

  /** Running with more bytes behind is running without them and going on when they come. */
  lemma {:induction false} RunResumes(turns: Turns, r: Receiver, chunk: Bytes)
    requires Progresses(turns) && Stable(turns)
    ensures Run(turns, Append(r, chunk)) == Run(turns, Append(Run(turns, r), chunk))
    decreases |r.buffer|
  {
    if !Quiet(turns, r) {
      var t := turns(r.seen, r.buffer, r.at);
      AppendAfterTurn(r, t, chunk);
      RunResumes(turns, AfterTurn(r, t), chunk);
    }
  }

  lemma AppendTwice(r: Receiver, a: Bytes, b: Bytes)
    ensures Append(Append(r, a), b) == Append(r, a + b)
  {
    assert r.buffer + a + b == r.buffer + (a + b);
  }

  lemma FeedTwice(turns: Turns, r: Receiver, a: Bytes, b: Bytes)
    requires Progresses(turns) && Stable(turns)
    ensures Feed(turns, Feed(turns, r, a), b) == Feed(turns, r, a + b)
  {
    RunResumes(turns, Append(r, a), b);
    AppendTwice(r, a, b);
  }

  lemma FeedNothing(turns: Turns, r: Receiver)
    requires Progresses(turns) && Quiet(turns, r)
    ensures Feed(turns, r, []) == r
  {
    assert r.buffer + [] == r.buffer;
  }

  /** From any state, feeding a stream in any split leaves the receiver as feeding it in one call
      does. (Splitting into no chunk at all is no call; a quiet receiver does not mind.) */
  lemma {:induction false} ChunksAreOneStream(turns: Turns, r: Receiver, chunks: seq<Bytes>)
    requires Progresses(turns) && Stable(turns) && (chunks == [] ==> Quiet(turns, r))
    ensures FeedChunks(turns, r, chunks) == Feed(turns, r, Concat(chunks))
    decreases chunks
  {
    if chunks == [] {
      FeedNothing(turns, r);
    } else {
      RunLeavesQuiet(turns, Append(r, chunks[0]));
      ChunksAreOneStream(turns, Feed(turns, r, chunks[0]), chunks[1..]);
      FeedTwice(turns, r, chunks[0], Concat(chunks[1..]));
    }
  }

  /** Every turn that advances from a state with the property leads to one with it. */
  ghost predicate TurnsKeep(turns: Turns, property: Receiver -> bool)
    requires Progresses(turns)
  {
    forall r: Receiver :: property(r) && !Quiet(turns, r) ==> property(AfterTurn(r, turns(r.seen, r.buffer, r.at)))
  }

  /** What every turn keeps, the loop keeps. */
  lemma {:induction false} RunKeeps(turns: Turns, property: Receiver -> bool, r: Receiver)
    requires Progresses(turns) && TurnsKeep(turns, property) && property(r)
    ensures property(Run(turns, r))
    decreases |r.buffer|
  {
    if !Quiet(turns, r) { RunKeeps(turns, property, AfterTurn(r, turns(r.seen, r.buffer, r.at))); }
  }
}
