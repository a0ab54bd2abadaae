/** The authenticated datagrams of src/frame/UdpAuth.ts and their session replay window.

      [session, 4 bytes][u32 LE sequence number][payload][tag, 16 bytes]
*/
module UdpAuth {
  import opened Bits
  import opened Bytes
  import opened ReplayBitmap

  const KEY_LEN: nat := 32
  const TAG_LEN: nat := 16
  const HDR_LEN: nat := 8
  const OVERHEAD: nat := 24
  const UINT32_RANGE: nat := 0x1_0000_0000

  type Digest = d: Bytes | |d| == 32 witness seq(32, i => 0)

  /** HMAC-SHA256 (section 2 of RFC 2104) of a key and a message, uninterpreted. */
  type Hmac = (Bytes, Bytes) -> Digest

  /** The digest truncated to 16 bytes (section 5 of RFC 2104). */
  function Tag(hmac: Hmac, key: Bytes, session: Bytes, num: nat, payload: Bytes): (t: Bytes)
    ensures |t| == TAG_LEN
  {
    hmac(key, session + LittleEndian(num, 4) + payload)[..TAG_LEN]
  }

  /** The last 16 bytes are the first 16 of the HMAC over everything in front of them: session, number and
      payload. */
  predicate IsTagged(hmac: Hmac, key: Bytes, d: Bytes) {
    |d| >= 24 && d[|d| - 16..] == hmac(key, d[..|d| - 16])[..16]
  }

  /** Where the fields of a datagram lie. */
  predicate IsDatagram(d: Bytes, session: Bytes, num: nat, payload: Bytes) {
    && |d| == |payload| + 24 && d[..4] == session
    && U32At(d, 4) == num % 0x1_0000_0000 && d[8..|d| - 16] == payload
  }

  datatype WrapResult = Wrapped(datagram: Bytes) | KeyLength | SessionLength

  function Layout(hmac: Hmac, key: Bytes, session: Bytes, num: nat, payload: Bytes): Bytes {
    session + LittleEndian(num, 4) + payload + Tag(hmac, key, session, num, payload)
  }

  /** `wrapUdp`: allocates the datagram and fills it field by field. */
  method WrapUdp(hmac: Hmac, key: Bytes, session: Bytes, num: nat, payload: Bytes) returns (r: WrapResult)
    ensures |key| != KEY_LEN ==> r == KeyLength
    ensures |key| == KEY_LEN && |session| != 4 ==> r == SessionLength
    ensures |key| == KEY_LEN && |session| == 4 ==> r == Wrapped(Layout(hmac, key, session, num, payload))
    ensures r.Wrapped? ==> IsTagged(hmac, key, r.datagram) && IsDatagram(r.datagram, session, num, payload)
  {
    if |key| != KEY_LEN {
      return KeyLength;
    }
    if |session| != 4 {
      return SessionLength;
    }
    var out := new byte[OVERHEAD + |payload|];
    var numField, tag := LittleEndian(num, 4), Tag(hmac, key, session, num, payload);
    forall i | 0 <= i < 4 {
      out[i] := session[i];
    }
    forall i | 0 <= i < 4 {
      out[4 + i] := numField[i];
    }
    forall i | 0 <= i < |payload| {
      out[HDR_LEN + i] := payload[i];
    }
    forall i | 0 <= i < TAG_LEN {
      out[HDR_LEN + |payload| + i] := tag[i];
    }
    assert out[..] == session + numField + payload + tag;
    LayoutExactly(hmac, key, session, num, payload);
    r := Wrapped(out[..]);
  }

  datatype Unwrapped = Unwrapped(session: Bytes, num: nat, payload: Bytes)

  datatype UnwrapResult = Authentic(packet: Unwrapped) | BadKey | TooShort | TagMismatch

  /** `unwrapUdp`. */
  function Unwrap(hmac: Hmac, key: Bytes, datagram: Bytes): UnwrapResult {
    if |key| != KEY_LEN then BadKey
    else if |datagram| < OVERHEAD then TooShort
    else
      var session, num := datagram[..4], FromLittleEndian(datagram[4..8]);
      var payload, tag := datagram[HDR_LEN..|datagram| - TAG_LEN], datagram[|datagram| - TAG_LEN..];
      if tag != Tag(hmac, key, session, num, payload) then TagMismatch
      else Authentic(Unwrapped(session, num, payload))
  }

  // ---------- the session window ----------

  datatype SessionWindow = SessionWindow(session: Option<Bytes>, window: Window)

  datatype SessionVerdict = SessionVerdict(ok: bool, next: SessionWindow)

  const NO_SESSION: SessionWindow := SessionWindow(None, Unset)

  /** `Seq32ReplayWindow.check`: a new session starts a new window. */
  function CheckSession(w: SessionWindow, session: Bytes, num: nat): SessionVerdict {
    if |session| != 4 then SessionVerdict(false, w)
    else if w.session != Some(session) then
      SessionVerdict(true, SessionWindow(Some(session), Window(num % UINT32_RANGE, 1)))
    else
      var v := Check(w.window, num % UINT32_RANGE);
      SessionVerdict(v.ok, SessionWindow(w.session, v.window))
  }

  class Seq32ReplayWindow {
    var session: Option<Bytes>
    var highest: nat
    var bitmap: nat

    ghost function State(): SessionWindow
      reads this
    {
      SessionWindow(session, if session.None? then Unset else Window(highest, bitmap))
    }

    constructor ()
      ensures State() == NO_SESSION
    {
      session, highest, bitmap := None, 0, 0;
    }

    method Check(peer: Bytes, num: nat) returns (ok: bool)
      modifies this
      ensures SessionVerdict(ok, State()) == CheckSession(old(State()), peer, num)
    {
      if |peer| != 4 {
        return false;
      }
      var s := num % UINT32_RANGE;
      if session.None? || session.value != peer {
        session, highest, bitmap := Some(peer), s, 1;
        return true;
      }
      if s > highest {
        var shift := s - highest;
        bitmap := if shift >= 64 then 1 else And(Or(Shl(bitmap, shift), 1), Pow2(64) - 1);
        highest := s;
        return true;
      }
      var delta := highest - s;
      if delta >= 64 {
        return false;
      }
      var mask := Shl(1, delta);
      if And(bitmap, mask) != 0 {
        return false;
      }
      bitmap := Or(bitmap, mask);
      return true;
    }
  }

  // ---------- what the window does over a run of packets ----------

  datatype Presented = Presented(session: Bytes, num: nat)

  function AfterSessions(w: SessionWindow, run: seq<Presented>): SessionWindow {
    if run == [] then w
    else
      var last := run[|run| - 1];
      CheckSession(AfterSessions(w, run[..|run| - 1]), last.session, last.num).next
  }

  /** The session of the last well-formed packet. */
  ghost function CurrentSession(run: seq<Presented>): Option<Bytes> {
    if run == [] then None
    else if |run[|run| - 1].session| == 4 then Some(run[|run| - 1].session)
    else CurrentSession(run[..|run| - 1])
  }

  /** The numbers presented since the session last changed. */
  ghost function CurrentRun(run: seq<Presented>): seq<nat> {
    if run == [] then []
    else
      var init, last := run[..|run| - 1], run[|run| - 1];
      if |last.session| != 4 then CurrentRun(init)
      else if CurrentSession(init) != Some(last.session) then [last.num % UINT32_RANGE]
      else CurrentRun(init) + [last.num % UINT32_RANGE]
  }

  /** After any packets, the session window is a window that was fresh when the session last
      changed. Returning to an earlier session is a change like any other. */
  lemma {:induction false} SessionChangeStartsOver(run: seq<Presented>)
    ensures AfterSessions(NO_SESSION, run) == SessionWindow(CurrentSession(run), After(Unset, CurrentRun(run)))
  {
    if run != [] {
      var init, last := run[..|run| - 1], run[|run| - 1];
      SessionChangeStartsOver(init);
      var num := last.num % UINT32_RANGE;
      assert [num][..0] == [];
      assert (CurrentRun(init) + [num])[..|CurrentRun(init)|] == CurrentRun(init);
    }
  }

  /** The verdict on the next packet: well-formed, and of a new session or fresh among the numbers
      accepted since the session last changed. */
  lemma SessionVerdictIsFreshness(run: seq<Presented>, next: Presented)
    ensures CheckSession(AfterSessions(NO_SESSION, run), next.session, next.num).ok
      <==> |next.session| == 4
           && (CurrentSession(run) != Some(next.session)
               || IsFresh(Accepted(CurrentRun(run)), next.num % UINT32_RANGE))
  {
    SessionChangeStartsOver(run);
    WindowRefinesSet(CurrentRun(run), next.num % UINT32_RANGE);
  }

  /** "At most once" does not survive a session change: a packet accepted before the change is
      accepted again after it. */
  lemma SessionChangeForgets(a: Bytes, b: Bytes, num: nat)
    requires |a| == |b| == 4 && a != b
    ensures
      var once := [Presented(a, num)];
      && CheckSession(NO_SESSION, a, num).ok
      && !CheckSession(AfterSessions(NO_SESSION, once), a, num).ok
      && CheckSession(AfterSessions(NO_SESSION, once + [Presented(b, num)]), a, num).ok
  {
    var p, q := Presented(a, num), Presented(b, num);
    SessionVerdictIsFreshness([p], p);
    assert CurrentRun([p]) == [num % UINT32_RANGE];
    assert [num % UINT32_RANGE][..0] == [];
    assert ([p] + [q])[1] == q;
    SessionVerdictIsFreshness([p] + [q], p);
  }

  // ---------- wrapping ----------

  lemma NextNumber(n: nat)
    ensures (n % UINT32_RANGE + 1) % UINT32_RANGE == (n + 1) % UINT32_RANGE
  {
  }

  lemma ThirtyTwoBits()
    ensures Pow256(4) == UINT32_RANGE
  {
  }

  lemma LayoutExactly(hmac: Hmac, key: Bytes, session: Bytes, num: nat, payload: Bytes)
    requires |session| == 4
    ensures var d := Layout(hmac, key, session, num, payload);
      IsTagged(hmac, key, d) && IsDatagram(d, session, num, payload)
  {
    var d := Layout(hmac, key, session, num, payload);
    var field, tag := LittleEndian(num, 4), Tag(hmac, key, session, num, payload);
    assert d[..|d| - 16] == session + field + payload && d[|d| - 16..] == tag;
    assert d[..4] == session && d[4..8] == field && d[8..|d| - 16] == payload;
    FourByteRoundTrip(num);
    assert forall i :: 0 <= i < 4 ==> d[4 + i] == d[4..8][i];
  }

  /** Under a key of 32 bytes a datagram authenticates if and only if it has at least 24 bytes and its last
      16 are the HMAC of all the others; its fields are then read off where they lie. */
  lemma UnwrapExactly(hmac: Hmac, key: Bytes, d: Bytes)
    ensures var u := Unwrap(hmac, key, d);
      && (u.BadKey? <==> |key| != 32)
      && (u.TooShort? <==> |key| == 32 && |d| < 24)
      && (u.Authentic? <==> |key| == 32 && IsTagged(hmac, key, d))
      && (u.Authentic? ==> IsDatagram(d, u.packet.session, u.packet.num, u.packet.payload))
      && (u.Authentic? ==> u.packet.num < 0x1_0000_0000)
  {
    if |d| >= 24 {
      FourByteField(d, 4);
      FieldRoundTrip(d[4..8]);
      assert d[..4] + d[4..8] + d[8..|d| - 16] == d[..|d| - 16];
    }
  }

  /** Unwrapping a datagram wrapped under the same key gives back its session, its number as a u32
      and its payload. */
  lemma UnwrapUndoesWrap(hmac: Hmac, key: Bytes, session: Bytes, num: nat, payload: Bytes)
    requires |key| == KEY_LEN && |session| == 4 && num < UINT32_RANGE
    ensures Unwrap(hmac, key, Layout(hmac, key, session, num, payload)) == Authentic(Unwrapped(session, num, payload))
  {
    var d := Layout(hmac, key, session, num, payload);
    assert d[..4] == session;
    assert d[4..8] == LittleEndian(num, 4);
    assert d[HDR_LEN..|d| - TAG_LEN] == payload;
    assert d[|d| - TAG_LEN..] == Tag(hmac, key, session, num, payload);
    ThirtyTwoBits();
    LittleEndianRoundTrip(num, 4);
  }

  /** Every datagram that unwraps is the wrapping of what it unwraps to. */
  lemma WrapUndoesUnwrap(hmac: Hmac, key: Bytes, datagram: Bytes)
    requires Unwrap(hmac, key, datagram).Authentic?
    ensures var p := Unwrap(hmac, key, datagram).packet;
      |p.session| == 4 && p.num < UINT32_RANGE && datagram == Layout(hmac, key, p.session, p.num, p.payload)
  {
    var p := Unwrap(hmac, key, datagram).packet;
    ThirtyTwoBits();
    FromLittleEndianBound(datagram[4..8]);
    FieldRoundTrip(datagram[4..8]);
    var tag := datagram[|datagram| - TAG_LEN..];
    assert datagram == datagram[..4] + datagram[4..8] + p.payload + tag;
  }
}
