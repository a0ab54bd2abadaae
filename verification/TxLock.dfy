/** The `txLock` promise chain of both host devices (src/device/HelionetDevice.ts).

    A send builds `next = txLock.then(write)` and then sets `txLock = next.catch(() => undefined)`:
    it waits for the promise that was the lock when it was called, and its own outcome, good or bad,
    settles the new lock. A configuration write only awaits the lock and never becomes it.
*/
module TxLock {
  import opened Bytes

  datatype Status = Waiting | Running | Settled(ok: bool)

  /** An operation; `waitsOn` is the operation whose settling released the lock it waits for. */
  datatype Op = Op(joins: bool, waitsOn: Option<nat>, status: Status)

  /** `starts` lists the sends whose write has begun, in the order in which they began. */
  datatype Device = Device(ops: seq<Op>, txLock: Option<nat>, starts: seq<nat>)

  const IDLE: Device := Device([], None, [])

  /** What may happen next: a call of `sendRadioFrame` or `setDisplayText`, an attempt of
      `sendConfig`, a write beginning, or a write completing or failing after any delay. */
  datatype Event = CallSend | CallConfig | Start(k: nat) | Settle(k: nat, ok: bool)

  predicate Released(d: Device, lock: Option<nat>) {
    lock.None? || (lock.value < |d.ops| && d.ops[lock.value].status.Settled?)
  }

  predicate Enabled(d: Device, e: Event) {
    match e
    case CallSend => true
    case CallConfig => true
    case Start(k) => k < |d.ops| && d.ops[k].status.Waiting? && Released(d, d.ops[k].waitsOn)
    case Settle(k, ok) => k < |d.ops| && d.ops[k].status.Running?
  }

  function Happen(d: Device, e: Event): Device
    requires Enabled(d, e)
  {
    match e
    case CallSend => d.(ops := d.ops + [Op(true, d.txLock, Waiting)], txLock := Some(|d.ops|))
    case CallConfig => d.(ops := d.ops + [Op(false, d.txLock, Waiting)])
    case Start(k) =>
      d.(ops := d.ops[k := d.ops[k].(status := Running)],
         starts := if d.ops[k].joins then d.starts + [k] else d.starts)
    case Settle(k, ok) => d.(ops := d.ops[k := d.ops[k].(status := Settled(ok))])
  }

  /** `d` is where the events lead from the idle device, each enabled when it happens. */
  ghost predicate Leads(events: seq<Event>, d: Device) {
    if events == [] then d == IDLE
    else
      var n := |events| - 1;
      exists c: Device :: Leads(events[..n], c) && Enabled(c, events[n]) && d == Happen(c, events[n])
  }

  predicate IsSend(d: Device, k: int) {
    0 <= k < |d.ops| && d.ops[k].joins
  }

  /** The latest send before `k`, if any. */
  predicate IsPreviousSend(d: Device, lock: Option<nat>, k: nat)
    requires k <= |d.ops|
  {
    match lock
    case None => forall j :: 0 <= j < k ==> !IsSend(d, j)
    case Some(p) => p < k && IsSend(d, p) && forall j :: p < j < k ==> !IsSend(d, j)
  }

  ghost predicate Invariant(d: Device) {
    && IsPreviousSend(d, d.txLock, |d.ops|)
    && (forall k :: 0 <= k < |d.ops| ==> IsPreviousSend(d, d.ops[k].waitsOn, k))
    && (forall j, k :: 0 <= j < k < |d.ops| && IsSend(d, j) && !d.ops[k].status.Waiting? ==> d.ops[j].status.Settled?)
    && (forall i :: 0 <= i < |d.starts| ==> IsSend(d, d.starts[i]) && !d.ops[d.starts[i]].status.Waiting?)
    && (forall i, j :: 0 <= i < j < |d.starts| ==> d.starts[i] < d.starts[j])
    && (forall k :: IsSend(d, k) && !d.ops[k].status.Waiting? ==> k in d.starts)
  }

  lemma SendsSettleInOrder(d: Device, k: nat)
    requires Invariant(d) && k < |d.ops| && Released(d, d.ops[k].waitsOn)
    ensures forall j :: 0 <= j < k && IsSend(d, j) ==> d.ops[j].status.Settled?
  {
    if d.ops[k].waitsOn.Some? {
      var p := d.ops[k].waitsOn.value;
      forall j | 0 <= j < k && IsSend(d, j) ensures d.ops[j].status.Settled? {
        assert j <= p;
      }
    }
  }

  lemma CallKeepsInvariant(d: Device, e: Event)
    requires Invariant(d) && (e.CallSend? || e.CallConfig?)
    ensures Invariant(Happen(d, e))
  {
    var c := Happen(d, e);
    forall k | 0 <= k <= |d.ops| ensures IsPreviousSend(c, c.ops[k].waitsOn, k) {
      var lock := if k < |d.ops| then d.ops[k].waitsOn else d.txLock;
      assert IsPreviousSend(d, lock, k);
      assert forall j :: 0 <= j < k ==> (IsSend(c, j) <==> IsSend(d, j));
    }
    assert forall j :: 0 <= j < |d.ops| ==> (IsSend(c, j) <==> IsSend(d, j));
  }

  lemma StartKeepsInvariant(d: Device, k: nat)
    requires Invariant(d) && Enabled(d, Start(k))
    ensures Invariant(Happen(d, Start(k)))
  {
    var c := Happen(d, Start(k));
    SendsSettleInOrder(d, k);
    assert forall j :: IsSend(c, j) <==> IsSend(d, j);
    forall i: nat, lock | i <= |d.ops| && IsPreviousSend(d, lock, i) ensures IsPreviousSend(c, lock, i) {
    }
    if d.ops[k].joins {
      forall i | 0 <= i < |d.starts| ensures d.starts[i] < k {
        assert IsSend(d, d.starts[i]) && !d.ops[d.starts[i]].status.Waiting?;
      }
      assert c.starts[|d.starts|] == k;
      forall m | IsSend(c, m) && !c.ops[m].status.Waiting? ensures m in c.starts {
        assert m != k ==> m in d.starts;
      }
    }
  }

  lemma SettleKeepsInvariant(d: Device, k: nat, ok: bool)
    requires Invariant(d) && Enabled(d, Settle(k, ok))
    ensures Invariant(Happen(d, Settle(k, ok)))
  {
    var c := Happen(d, Settle(k, ok));
    assert forall j :: IsSend(c, j) <==> IsSend(d, j);
    forall i: nat, lock | i <= |d.ops| && IsPreviousSend(d, lock, i) ensures IsPreviousSend(c, lock, i) {
    }
  }

  lemma {:induction false} InvariantHolds(events: seq<Event>, d: Device)
    requires Leads(events, d)
    ensures Invariant(d)
  {
    if events != [] {
      var n := |events| - 1;
      var c :| Leads(events[..n], c) && Enabled(c, events[n]) && d == Happen(c, events[n]);
      InvariantHolds(events[..n], c);
      match events[n] {
        case CallSend => CallKeepsInvariant(c, CallSend);
        case CallConfig => CallKeepsInvariant(c, CallConfig);
        case Start(k) => StartKeepsInvariant(c, k);
        case Settle(k, ok) => SettleKeepsInvariant(c, k, ok);
      }
    }
  }

  /** For every interleaving of calls, completions, failures and delays: the writes of sends begin in
      call order without leaving one out, and no two of them are ever under way together. */
  lemma SendsAreSerialised(events: seq<Event>, d: Device)
    requires Leads(events, d)
    ensures forall i, j :: 0 <= i < j < |d.starts| ==> d.starts[i] < d.starts[j]
    ensures forall j, k :: 0 <= j < k && IsSend(d, j) && k in d.starts ==> j in d.starts
    ensures forall j, k ::
              IsSend(d, j) && IsSend(d, k) && d.ops[j].status.Running? && d.ops[k].status.Running? ==> j == k
  {
    InvariantHolds(events, d);
  }

  /** A rejected write never blocks what comes after it: whenever no send is under way, the first
      waiting send may start, whatever became of the earlier ones. */
  lemma RejectionNeverBlocks(events: seq<Event>, d: Device, k: nat)
    requires Leads(events, d) && IsSend(d, k) && d.ops[k].status.Waiting?
    requires forall j :: IsSend(d, j) ==> !d.ops[j].status.Running?
    requires forall j :: 0 <= j < k && IsSend(d, j) ==> !d.ops[j].status.Waiting?
    ensures Enabled(d, Start(k))
  {
    InvariantHolds(events, d);
    assert IsPreviousSend(d, d.ops[k].waitsOn, k);
  }

  /** Configuration writes are outside the queue: a send may start while one is under way. */
  lemma ConfigurationMayOverlap()
    ensures exists events, d ::
              && Leads(events, d) && |d.ops| == 2 && !d.ops[0].joins && d.ops[1].joins
              && d.ops[0].status.Running? && d.ops[1].status.Running?
  {
    var e1 := [] + [CallConfig];
    var e2 := e1 + [Start(0)];
    var e3 := e2 + [CallSend];
    var a := Happen(IDLE, CallConfig);
    var b := Happen(a, Start(0));
    var c := Happen(b, CallSend);
    LeadsOn([], IDLE, CallConfig);
    LeadsOn(e1, a, Start(0));
    LeadsOn(e2, b, CallSend);
    LeadsOn(e3, c, Start(1));
    assert Leads(e3 + [Start(1)], Happen(c, Start(1)));
  }

  lemma LeadsOn(events: seq<Event>, d: Device, e: Event)
    requires Leads(events, d) && Enabled(d, e)
    ensures Leads(events + [e], Happen(d, e))
  {
    assert (events + [e])[..|events|] == events;
  }

  // ---------- when a send and a configuration overlap ----------

  /** In every reachable state an operation that has started, send or configuration, finds every send
      called before it settled. */
  lemma StartedAfterSends(events: seq<Event>, d: Device)
    requires Leads(events, d)
    ensures forall j, k ::
              0 <= j < k < |d.ops| && IsSend(d, j) && !d.ops[k].status.Waiting? ==> d.ops[j].status.Settled?
  {
    InvariantHolds(events, d);
  }

  /** A configuration and a send are under way together. */
  predicate Overlap(d: Device, c: nat, k: nat) {
    && c < |d.ops| && !d.ops[c].joins && d.ops[c].status.Running?
    && k < |d.ops| && d.ops[k].joins && d.ops[k].status.Running?
  }

  predicate IsPending(d: Device, c: int) {
    0 <= c < |d.ops| && !d.ops[c].joins && !d.ops[c].status.Settled?
  }

  /** Events in which every send is called while no configuration is pending. */
  ghost predicate Careful(events: seq<Event>, d: Device) {
    if events == [] then d == IDLE
    else
      var n := |events| - 1;
      exists c: Device ::
        && Careful(events[..n], c) && Enabled(c, events[n]) && d == Happen(c, events[n])
        && (events[n].CallSend? ==> forall i :: !IsPending(c, i))
  }

  lemma {:induction false} CarefulIsReachable(events: seq<Event>, d: Device)
    requires Careful(events, d)
    ensures Leads(events, d)
    ensures forall c, k :: 0 <= c < k && IsSend(d, k) ==> !IsPending(d, c)
  {
    if events != [] {
      var n := |events| - 1;
      var c: Device :| Careful(events[..n], c) && Enabled(c, events[n]) && d == Happen(c, events[n])
        && (events[n].CallSend? ==> forall i :: !IsPending(c, i));
      CarefulIsReachable(events[..n], c);
      assert forall i :: 0 <= i < |c.ops| && IsPending(d, i) ==> IsPending(c, i);
      assert forall i :: 0 <= i < |c.ops| ==> (IsSend(d, i) <==> IsSend(c, i));
    }
  }

  /** If every send is called while no configuration is pending, none is ever under way beside one. */
  lemma CarefulCallsNeverOverlap(events: seq<Event>, d: Device, c: nat, k: nat)
    requires Careful(events, d)
    ensures !Overlap(d, c, k)
  {
    CarefulIsReachable(events, d);
    StartedAfterSends(events, d);
    if Overlap(d, c, k) {
      assert IsSend(d, k) && IsPending(d, c);
    }
  }

  /** `later` is `d` with only sends before `k` gone further, and those before `j` all settled. */
  ghost predicate Drained(d: Device, later: Device, j: nat, k: nat) {
    && |later.ops| == |d.ops|
    && (forall i :: 0 <= i < |d.ops| ==>
          && later.ops[i].joins == d.ops[i].joins && later.ops[i].waitsOn == d.ops[i].waitsOn
          && (i >= k || !d.ops[i].joins ==> later.ops[i].status == d.ops[i].status))
    && (forall i :: 0 <= i < j && IsSend(later, i) ==> later.ops[i].status.Settled?)
  }

  /** The sends before `k` can all be brought to an end, one after the other. */
  lemma {:induction false} SendsCanBeDrained(events: seq<Event>, d: Device, j: nat, k: nat)
    returns (more: seq<Event>, later: Device)
    requires Leads(events, d) && j <= k <= |d.ops| && Drained(d, d, j, k)
    ensures Leads(events + more, later) && Drained(d, later, k, k)
    decreases k - j
  {
    if j == k {
      more, later := [], d;
      assert events + [] == events;
    } else {
      var first, next := SettleSend(events, d, j, k);
      more, later := SendsCanBeDrained(events + first, next, j + 1, k);
      assert events + first + more == events + (first + more);
      more := first + more;
    }
  }

  /** The first send that is not settled yet can be started, if it is waiting, and settled. */
  lemma SettleSend(events: seq<Event>, d: Device, j: nat, k: nat) returns (more: seq<Event>, later: Device)
    requires Leads(events, d) && j < k <= |d.ops| && Drained(d, d, j, k)
    ensures Leads(events + more, later) && Drained(d, later, j + 1, k) && Drained(later, later, j + 1, k)
  {
    more, later := [], d;
    assert events + [] == events;
    if IsSend(d, j) && !d.ops[j].status.Settled? {
      if d.ops[j].status.Waiting? { more, later := StartOne(events, [], d, j, j); }
      more, later := SettleOne(events, more, later, j);
    }
    assert forall i :: 0 <= i < |d.ops| ==> (IsSend(later, i) <==> IsSend(d, i));
  }

  lemma SettleOne(events: seq<Event>, before: seq<Event>, d: Device, j: nat) returns (more: seq<Event>, later: Device)
    requires Leads(events + before, d) && j < |d.ops| && d.ops[j].status.Running?
    ensures Leads(events + more, later) && later.ops == d.ops[j := d.ops[j].(status := Settled(true))]
  {
    LeadsOn(events + before, d, Settle(j, true));
    assert events + before + [Settle(j, true)] == events + (before + [Settle(j, true)]);
    more, later := before + [Settle(j, true)], Happen(d, Settle(j, true));
  }

  /** From every reachable state with a pending configuration and a send that waits: some continuation
      has both under way if and only if the send was called after the configuration. */
  lemma OverlapExactly(events: seq<Event>, d: Device, c: nat, k: nat)
    requires Leads(events, d) && IsPending(d, c) && IsSend(d, k) && d.ops[k].status.Waiting?
    ensures (exists more, later :: Leads(events + more, later) && Overlap(later, c, k)) <==> c < k
  {
    if more, later :| Leads(events + more, later) && Overlap(later, c, k) {
      StartedAfterSends(events + more, later);
      assert IsSend(later, k);
    }
    if c < k {
      var more, later := BothCanRun(events, d, c, k);
    }
  }

  lemma BothCanRun(events: seq<Event>, d: Device, c: nat, k: nat) returns (more: seq<Event>, later: Device)
    requires Leads(events, d) && IsPending(d, c) && IsSend(d, k) && d.ops[k].status.Waiting? && c < k
    ensures Leads(events + more, later) && Overlap(later, c, k)
  {
    more, later := SendsCanBeDrained(events, d, 0, k);
    InvariantHolds(events + more, later);
    if later.ops[c].status.Waiting? {
      more, later := StartOne(events, more, later, c, k);
    }
    InvariantHolds(events + more, later);
    more, later := StartOne(events, more, later, k, k);
  }

  /** An operation up to `k` that still waits can start when the sends before `k` are settled. */
  lemma StartOne(events: seq<Event>, before: seq<Event>, d: Device, c: nat, k: nat)
    returns (more: seq<Event>, later: Device)
    requires Leads(events + before, d) && c <= k < |d.ops| && d.ops[c].status.Waiting?
    requires forall i :: 0 <= i < k && IsSend(d, i) ==> d.ops[i].status.Settled?
    ensures Leads(events + more, later) && |later.ops| == |d.ops|
    ensures later.ops == d.ops[c := d.ops[c].(status := Running)]
    ensures forall i :: 0 <= i < k && IsSend(later, i) && i != c ==> later.ops[i].status.Settled?
  {
    InvariantHolds(events + before, d);
    assert IsPreviousSend(d, d.ops[c].waitsOn, c);
    LeadsOn(events + before, d, Start(c));
    assert events + before + [Start(c)] == events + (before + [Start(c)]);
    more, later := before + [Start(c)], Happen(d, Start(c));
  }
}
