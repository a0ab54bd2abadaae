/** How the host lifts `CONFIG_OK` and `INFO...\n` out of the byte stream from the board
    (`onSerialData` of src/device/HelionetDevice.ts, the second half of `onUdpMessage` of
    src/device/WiFiUdpDevice.ts), for queries answered before their timeout.
*/
module ReplyExtraction {
  import opened Bytes

  const NEWLINE: byte := 0x0a

  /** Noise held back while no `INFO` has been seen is flushed beyond this length. */
  const INFO_NOISE_LIMIT: nat := 4096

  function ConfigOk(): (r: Bytes)
    ensures |r| == 9
  {
    Ascii("CONFIG_OK")
  }

  function InfoMagic(): (r: Bytes)
    ensures |r| == 4
  {
    Ascii("INFO")
  }

  /** `buffer.indexOf(needle, from)`, with None for -1. */
  function IndexOf(s: Bytes, needle: Bytes, from: nat): (r: Option<nat>)
    ensures r.Some? ==> from <= r.value && At(s, needle, r.value)
    ensures r.Some? ==> forall i :: from <= i < r.value ==> !At(s, needle, i)
    ensures r.None? ==> forall i :: from <= i ==> !At(s, needle, i)
    decreases |s| - from
  {
    if from + |needle| > |s| then None
    else if s[from..from + |needle|] == needle then Some(from)
    else if from == |s| then None
    else IndexOf(s, needle, from + 1)
  }

  datatype Mode = Normal | Configuring(buffer: Bytes) | Querying(buffer: Bytes)

  /** The mode after a chunk, the buffers passed on in order, and the reply lifted out, if any. */
  datatype Extracted = Extracted(mode: Mode, passed: seq<Bytes>, reply: Option<Bytes>)

  function NonEmpty(s: Bytes): seq<Bytes> {
    if s == [] then [] else [s]
  }

  function OnData(mode: Mode, chunk: Bytes): Extracted {
    match mode
    case Normal => Extracted(Normal, [chunk], None)
    case Configuring(buffer) =>
      var b := buffer + chunk;
      (match IndexOf(b, ConfigOk(), 0)
       case None => Extracted(Configuring(b), [], None)
       case Some(i) => Extracted(Normal, NonEmpty(b[..i]) + NonEmpty(b[i + 9..]), Some([])))
    case Querying(buffer) =>
      var b := buffer + chunk;
      (match IndexOf(b, InfoMagic(), 0)
       case None =>
         if |b| > INFO_NOISE_LIMIT then Extracted(Querying([]), [b], None)
         else Extracted(Querying(b), [], None)
       case Some(m) =>
         match IndexOf(b, [NEWLINE], m + 4)
         case None => Extracted(Querying(b[m..]), NonEmpty(b[..m]), None)
         case Some(n) => Extracted(Normal, NonEmpty(b[..m]) + NonEmpty(b[n + 1..]), Some(b[m + 4..n])))
  }

  /** A run over chunks: final mode, everything passed on, every reply lifted out. */
  datatype Run = Run(mode: Mode, passed: Bytes, replies: seq<Bytes>)

  function OnChunks(mode: Mode, chunks: seq<Bytes>): Run
    decreases chunks
  {
    if chunks == [] then Run(mode, [], [])
    else
      var first := OnData(mode, chunks[0]);
      var rest := OnChunks(first.mode, chunks[1..]);
      Run(rest.mode, Concat(first.passed) + rest.passed,
          (if first.reply.Some? then [first.reply.value] else []) + rest.replies)
  }

  lemma RunStep(mode: Mode, chunks: seq<Bytes>, first: Extracted, rest: Run)
    requires chunks != [] && OnData(mode, chunks[0]) == first && OnChunks(first.mode, chunks[1..]) == rest
    ensures OnChunks(mode, chunks) == Run(rest.mode, Concat(first.passed) + rest.passed,
              (if first.reply.Some? then [first.reply.value] else []) + rest.replies)
  {
  }

  lemma {:induction false} OneMoreChunk(mode: Mode, chunks: seq<Bytes>, chunk: Bytes)
    ensures
      var run := OnChunks(mode, chunks);
      var e := OnData(run.mode, chunk);
      OnChunks(mode, chunks + [chunk])
        == Run(e.mode, run.passed + Concat(e.passed),
               run.replies + if e.reply.Some? then [e.reply.value] else [])
    decreases chunks
  {
    if chunks == [] {
      var e := OnData(mode, chunk);
      assert [] + [chunk] == [chunk] && [chunk][1..] == [];
      RunStep(mode, [chunk], e, Run(e.mode, [], []));
    } else {
      var first := OnData(mode, chunks[0]);
      OneMoreChunk(first.mode, chunks[1..], chunk);
      assert (chunks + [chunk])[1..] == chunks[1..] + [chunk];
      RunStep(mode, chunks + [chunk], first, OnChunks(first.mode, chunks[1..] + [chunk]));
      RunStep(mode, chunks, first, OnChunks(first.mode, chunks[1..]));
      var rest := OnChunks(first.mode, chunks[1..]);
      var last := OnData(rest.mode, chunk);
      ConcatAssociates(Concat(first.passed), rest.passed, Concat(last.passed));
      ConcatAssociates(if first.reply.Some? then [first.reply.value] else [], rest.replies,
                       if last.reply.Some? then [last.reply.value] else []);
    }
  }

  // ---------- CONFIG_OK ----------

  lemma TwoParts(a: Bytes, b: Bytes)
    ensures Concat(NonEmpty(a) + NonEmpty(b)) == a + b
    ensures Concat(NonEmpty(a)) == a
  {
    ConcatAppend(NonEmpty(a), NonEmpty(b));
    assert Concat([a]) == a + Concat([]);
    assert Concat([b]) == b + Concat([]);
  }

  lemma {:induction false} NormalPassesAll(chunks: seq<Bytes>)
    ensures OnChunks(Normal, chunks) == Run(Normal, Concat(chunks), [])
  {
    if chunks != [] {
      NormalPassesAll(chunks[1..]);
      assert Concat([chunks[0]]) == chunks[0] + Concat([]);
    }
  }

  /** An occurrence within a prefix is an occurrence in the whole. */
  lemma PrefixOccurrence(s: Bytes, t: Bytes, needle: Bytes, i: nat)
    requires i + |needle| <= |s|
    ensures At(s + t, needle, i) <==> At(s, needle, i)
  {
    assert (s + t)[i..i + |needle|] == s[i..i + |needle|];
  }

  /** `needle` first occurs in `s` at `i`. */
  ghost predicate FirstAt(s: Bytes, needle: Bytes, i: nat) {
    At(s, needle, i) && forall j :: 0 <= j < i ==> !At(s, needle, j)
  }

  lemma FirstInPrefix(s: Bytes, t: Bytes, needle: Bytes, i: nat)
    requires FirstAt(s, needle, i)
    ensures FirstAt(s + t, needle, i)
  {
    PrefixOccurrence(s, t, needle, i);
    forall j | 0 <= j < i ensures !At(s + t, needle, j) {
      PrefixOccurrence(s, t, needle, j);
    }
  }

  lemma FirstIsUnique(s: Bytes, needle: Bytes, i: nat, j: nat)
    requires FirstAt(s, needle, i) && FirstAt(s, needle, j)
    ensures i == j
  {
  }

  /** From a configuration with `buffer` held back, the chunks pass on everything but the nine bytes
      at `i`, and the device is back to normal. */
  ghost predicate LiftsConfigOk(buffer: Bytes, chunks: seq<Bytes>, i: nat) {
    var s := buffer + Concat(chunks);
    i + 9 <= |s| && OnChunks(Configuring(buffer), chunks) == Run(Normal, s[..i] + s[i + 9..], [[]])
  }

  /** While waiting for `CONFIG_OK`, under any chunking: the stream minus the first `CONFIG_OK` is
      passed on, in order, and the device is back to normal. */
  lemma {:induction false} ConfigReplyIsLifted(buffer: Bytes, chunks: seq<Bytes>, i: nat)
    requires IndexOf(buffer, ConfigOk(), 0).None?
    requires FirstAt(buffer + Concat(chunks), ConfigOk(), i)
    ensures LiftsConfigOk(buffer, chunks, i)
    decreases chunks
  {
    assert buffer + [] == buffer;
    if chunks != [] {
      var b, t := buffer + chunks[0], Concat(chunks[1..]);
      assert buffer + Concat(chunks) == b + t;
      if IndexOf(b, ConfigOk(), 0).None? {
        ConfigReplyIsLifted(b, chunks[1..], i);
      } else {
        ConfigCompletes(buffer, chunks, i);
      }
    }
  }

  lemma ConfigCompletes(buffer: Bytes, chunks: seq<Bytes>, i: nat)
    requires chunks != [] && IndexOf(buffer + chunks[0], ConfigOk(), 0).Some?
    requires FirstAt(buffer + Concat(chunks), ConfigOk(), i)
    ensures LiftsConfigOk(buffer, chunks, i)
  {
    var b, t := buffer + chunks[0], Concat(chunks[1..]);
    assert buffer + Concat(chunks) == b + t;
    var first := ConfigChunk(buffer, chunks[0], t, i);
    NormalPassesAll(chunks[1..]);
    RunStep(Configuring(buffer), chunks, first, Run(Normal, t, []));
  }

  /** The chunk that completes the reply. */
  lemma ConfigChunk(buffer: Bytes, chunk: Bytes, t: Bytes, i: nat) returns (first: Extracted)
    requires IndexOf(buffer + chunk, ConfigOk(), 0).Some? && FirstAt(buffer + chunk + t, ConfigOk(), i)
    ensures OnData(Configuring(buffer), chunk) == first && first.mode == Normal && first.reply == Some([])
    ensures var s := buffer + chunk + t;
      i + 9 <= |s| && Concat(first.passed) + t == s[..i] + s[i + 9..]
  {
    var b := buffer + chunk;
    ConfigDone(b, t, i);
    first := Extracted(Normal, NonEmpty(b[..i]) + NonEmpty(b[i + 9..]), Some([]));
  }

  lemma ConfigDone(b: Bytes, t: Bytes, i: nat)
    requires IndexOf(b, ConfigOk(), 0).Some? && FirstAt(b + t, ConfigOk(), i)
    ensures IndexOf(b, ConfigOk(), 0) == Some(i) && i + 9 <= |b|
    ensures Concat(NonEmpty(b[..i]) + NonEmpty(b[i + 9..])) + t == (b + t)[..i] + (b + t)[i + 9..]
  {
    var k := IndexOf(b, ConfigOk(), 0).value;
    FirstInPrefix(b, t, ConfigOk(), k);
    FirstIsUnique(b + t, ConfigOk(), i, k);
    TwoParts(b[..i], b[i + 9..]);
    Splice(b, t, i, i + 9);
  }

  /** Cutting a stretch out of a prefix cuts it out of the whole. */
  lemma Splice(b: Bytes, t: Bytes, m: nat, n: nat)
    requires m <= n <= |b|
    ensures b[..m] + b[n..] + t == (b + t)[..m] + (b + t)[n..]
  {
    assert (b + t)[..m] == b[..m] && (b + t)[n..] == b[n..] + t;
  }

  /** Without a `CONFIG_OK` nothing is passed on and nothing is lost: it is all in the buffer. */
  lemma {:induction false} ConfigWaits(buffer: Bytes, chunks: seq<Bytes>)
    requires IndexOf(buffer + Concat(chunks), ConfigOk(), 0).None?
    ensures OnChunks(Configuring(buffer), chunks) == Run(Configuring(buffer + Concat(chunks)), [], [])
    decreases chunks
  {
    if chunks == [] {
      assert buffer + Concat(chunks) == buffer;
    } else {
      var b, t := buffer + chunks[0], Concat(chunks[1..]);
      assert buffer + Concat(chunks) == b + t;
      var k := IndexOf(b, ConfigOk(), 0);
      if k.Some? { PrefixOccurrence(b, t, ConfigOk(), k.value); }
      ConfigWaits(b, chunks[1..]);
    }
  }

  // ---------- INFO ----------

  /** The first `INFO` of the stream is at `m`, and the first newline behind it at `n`. */
  ghost predicate HasReply(s: Bytes, m: nat, n: nat) {
    && FirstAt(s, InfoMagic(), m)
    && m + 4 <= n < |s| && s[n] == NEWLINE
    && forall j :: m + 4 <= j < n ==> s[j] != NEWLINE
  }

  lemma NewlineAt(s: Bytes, i: nat)
    ensures At(s, [NEWLINE], i) <==> i < |s| && s[i] == NEWLINE
  {
    if i < |s| { assert s[i..i + 1] == [s[i]]; }
  }

  /** What is forwarded in front of `INFO` does not change where the reply is. */
  lemma ReplyShifts(s: Bytes, m: nat, n: nat)
    requires HasReply(s, m, n)
    ensures HasReply(s[m..], 0, n - m)
    ensures s[m..][n - m + 1..] == s[n + 1..] && s[m..][4..n - m] == s[m + 4..n]
  {
    assert s[m..][0..4] == s[m..m + 4];
  }

  lemma MagicInPrefix(b: Bytes, t: Bytes, m: nat, n: nat)
    requires HasReply(b + t, m, n)
    ensures var k := IndexOf(b, InfoMagic(), 0);
      if k.Some? then k.value == m && m + 4 <= |b| else |b| < m + 4
  {
    var k := IndexOf(b, InfoMagic(), 0);
    if k.Some? {
      FirstInPrefix(b, t, InfoMagic(), k.value);
      FirstIsUnique(b + t, InfoMagic(), m, k.value);
    } else if |b| >= m + 4 {
      PrefixOccurrence(b, t, InfoMagic(), m);
    }
  }

  lemma NewlineInPrefix(b: Bytes, t: Bytes, m: nat, n: nat)
    requires HasReply(b + t, m, n) && m + 4 <= |b|
    ensures IndexOf(b, [NEWLINE], m + 4) == if n < |b| then Some(n) else None
  {
    var k := IndexOf(b, [NEWLINE], m + 4);
    NewlineAt(b, n);
    if k.Some? { NewlineAt(b, k.value); }
    assert forall j :: 0 <= j < |b| ==> (b + t)[j] == b[j];
  }

  /** From a query with `buffer` held back, the chunks pass on everything but the reply between `m`
      and the newline at `n`, the text between is the reply, and the device is back to normal. */
  ghost predicate LiftsReply(buffer: Bytes, chunks: seq<Bytes>, m: nat, n: nat) {
    var s := buffer + Concat(chunks);
    && m + 4 <= n < |s|
    && OnChunks(Querying(buffer), chunks) == Run(Normal, s[..m] + s[n + 1..], [s[m + 4..n]])
  }

  /** The whole reply is in the buffer. */
  lemma InfoCompletes(buffer: Bytes, chunks: seq<Bytes>, m: nat, n: nat)
    requires chunks != [] && HasReply(buffer + Concat(chunks), m, n) && n < |buffer| + |chunks[0]|
    ensures LiftsReply(buffer, chunks, m, n)
  {
    var b, t := buffer + chunks[0], Concat(chunks[1..]);
    assert buffer + Concat(chunks) == b + t;
    InfoDone(buffer, chunks[0], t, m, n);
    InfoCut(b, t, m, n);
    NormalPassesAll(chunks[1..]);
    RunStep(Querying(buffer), chunks,
      Extracted(Normal, NonEmpty(b[..m]) + NonEmpty(b[n + 1..]), Some(b[m + 4..n])), Run(Normal, t, []));
  }

  lemma InfoDone(buffer: Bytes, chunk: Bytes, t: Bytes, m: nat, n: nat)
    requires HasReply(buffer + chunk + t, m, n) && n < |buffer| + |chunk|
    ensures var b := buffer + chunk;
      OnData(Querying(buffer), chunk)
        == Extracted(Normal, NonEmpty(b[..m]) + NonEmpty(b[n + 1..]), Some(b[m + 4..n]))
  {
    MagicInPrefix(buffer + chunk, t, m, n);
    NewlineInPrefix(buffer + chunk, t, m, n);
  }

  lemma InfoCut(b: Bytes, t: Bytes, m: nat, n: nat)
    requires m + 4 <= n < |b|
    ensures Concat(NonEmpty(b[..m]) + NonEmpty(b[n + 1..])) + t == (b + t)[..m] + (b + t)[n + 1..]
    ensures [b[m + 4..n]] + [] == [(b + t)[m + 4..n]]
  {
    TwoParts(b[..m], b[n + 1..]);
    Splice(b, t, m, n + 1);
    assert (b + t)[m + 4..n] == b[m + 4..n];
  }

  /** The reply is not complete yet: noise in front of the magic is forwarded, the rest is kept. */
  lemma InfoContinues(buffer: Bytes, chunks: seq<Bytes>, m: nat, n: nat)
    requires chunks != [] && HasReply(buffer + Concat(chunks), m, n) && m + 3 <= INFO_NOISE_LIMIT
    requires |buffer| + |chunks[0]| <= n
    ensures var b := buffer + chunks[0];
      var k := if |b| < m + 4 then 0 else m;
      && k <= |b| && buffer + Concat(chunks) == b + Concat(chunks[1..])
      && OnData(Querying(buffer), chunks[0]) == Extracted(Querying(b[k..]), NonEmpty(b[..k]), None)
  {
    var b, t := buffer + chunks[0], Concat(chunks[1..]);
    assert buffer + Concat(chunks) == b + t;
    MagicInPrefix(b, t, m, n);
    if |b| >= m + 4 {
      NewlineInPrefix(b, t, m, n);
    } else {
      assert b[0..] == b;
    }
  }

  /** With at most 4093 bytes of noise in front, the reply is lifted under any chunking. */
  lemma {:induction false} InfoReplyIsLifted(buffer: Bytes, chunks: seq<Bytes>, m: nat, n: nat)
    requires HasReply(buffer + Concat(chunks), m, n) && m + 3 <= INFO_NOISE_LIMIT
    requires |buffer| <= n
    ensures LiftsReply(buffer, chunks, m, n)
    decreases chunks
  {
    var k, held := InfoTurn(buffer, chunks, m, n);
    if !LiftsReply(buffer, chunks, m, n) {
      InfoReplyIsLifted(held, chunks[1..], m - k, n - k);
    }
  }

  /** A chunk either completes the reply or leaves it to the chunks behind it. */
  lemma InfoTurn(buffer: Bytes, chunks: seq<Bytes>, m: nat, n: nat) returns (k: nat, held: Bytes)
    requires HasReply(buffer + Concat(chunks), m, n) && m + 3 <= INFO_NOISE_LIMIT
    requires |buffer| <= n
    ensures LiftsReply(buffer, chunks, m, n)
      || (chunks != [] && k <= m && k <= n && |held| <= n - k
          && HasReply(held + Concat(chunks[1..]), m - k, n - k)
          && (LiftsReply(held, chunks[1..], m - k, n - k) ==> LiftsReply(buffer, chunks, m, n)))
  {
    assert chunks != [];
    if n < |buffer| + |chunks[0]| {
      InfoCompletes(buffer, chunks, m, n);
      k, held := 0, [];
    } else {
      k, held := InfoStep(buffer, chunks, m, n);
    }
  }

  /** One chunk that does not complete the reply: `k` bytes of noise are forwarded, `held` is kept. */
  lemma InfoStep(buffer: Bytes, chunks: seq<Bytes>, m: nat, n: nat) returns (k: nat, held: Bytes)
    requires chunks != [] && HasReply(buffer + Concat(chunks), m, n) && m + 3 <= INFO_NOISE_LIMIT
    requires |buffer| + |chunks[0]| <= n
    ensures k <= m && k <= n && |held| <= n - k
    ensures HasReply(held + Concat(chunks[1..]), m - k, n - k)
    ensures LiftsReply(held, chunks[1..], m - k, n - k) ==> LiftsReply(buffer, chunks, m, n)
  {
    InfoContinues(buffer, chunks, m, n);
    var b, t := buffer + chunks[0], Concat(chunks[1..]);
    k := if |b| < m + 4 then 0 else m;
    held := b[k..];
    InfoForwards(b, t, m, n, k);
    if LiftsReply(held, chunks[1..], m - k, n - k) { InfoResumes(buffer, chunks, held, m, n, k); }
  }

  ghost predicate Resumes(buffer: Bytes, chunks: seq<Bytes>, held: Bytes, m: nat, n: nat, k: nat) {
    && chunks != [] && k <= m && m + 4 <= n && k <= |buffer + chunks[0]|
    && n < |buffer + Concat(chunks)| && n - k < |held + Concat(chunks[1..])|
    && var b := buffer + chunks[0];
       var s, u := buffer + Concat(chunks), held + Concat(chunks[1..]);
       && OnData(Querying(buffer), chunks[0]) == Extracted(Querying(held), NonEmpty(b[..k]), None)
       && Concat(NonEmpty(b[..k])) + (u[..m - k] + u[n - k + 1..]) == s[..m] + s[n + 1..]
       && [] + [u[m - k + 4..n - k]] == [s[m + 4..n]]
  }

  lemma InfoResumes(buffer: Bytes, chunks: seq<Bytes>, held: Bytes, m: nat, n: nat, k: nat)
    requires Resumes(buffer, chunks, held, m, n, k)
    requires LiftsReply(held, chunks[1..], m - k, n - k)
    ensures LiftsReply(buffer, chunks, m, n)
  {
    var u := held + Concat(chunks[1..]);
    RunStep(Querying(buffer), chunks, Extracted(Querying(held), NonEmpty((buffer + chunks[0])[..k]), None),
      Run(Normal, u[..m - k] + u[n - k + 1..], [u[m - k + 4..n - k]]));
  }

  /** Forwarding the first `k` bytes, none of them part of the reply, leaves the same reply. */
  lemma InfoForwards(b: Bytes, t: Bytes, m: nat, n: nat, k: nat)
    requires HasReply(b + t, m, n) && (k == 0 || k == m) && k <= |b| <= n
    ensures var s, u := b + t, b[k..] + t;
      && HasReply(u, m - k, n - k)
      && Concat(NonEmpty(b[..k])) + (u[..m - k] + u[n - k + 1..]) == s[..m] + s[n + 1..]
      && [] + [u[m - k + 4..n - k]] == [s[m + 4..n]]
  {
    var s, u := b + t, b[k..] + t;
    assert u == s[k..];
    if k == m { ReplyShifts(s, m, n); } else { assert u == s; }
    TwoParts(b[..k], []);
    assert b[..k] + u[..m - k] == s[..m];
    assert u[n - k + 1..] == s[n + 1..];
    assert u[m - k + 4..n - k] == s[m + 4..n];
    assert b[..k] + (u[..m - k] + u[n - k + 1..]) == b[..k] + u[..m - k] + u[n - k + 1..];
  }

  /** Every stream with its reply behind `m` bytes of noise is conserved, however it is chunked. */
  ghost predicate ConservesBehindNoise(m: nat) {
    forall n: nat, chunks: seq<Bytes> :: HasReply(Concat(chunks), m, n) ==> LiftsReply([], chunks, m, n)
  }

  function Zeros(n: nat): (r: Bytes)
    ensures |r| == n && forall i :: 0 <= i < n ==> r[i] == 0
  {
    seq(n, i => 0)
  }

  lemma OccurrenceMatches(s: Bytes, needle: Bytes, i: nat, k: nat)
    requires k < |needle|
    ensures At(s, needle, i) ==> i + k < |s| && s[i + k] == needle[k]
  {
    if At(s, needle, i) { assert s[i..i + |needle|][k] == s[i + k]; }
  }

  /** A chunk that ends inside the magic, behind more noise than the limit, is flushed as noise. */
  lemma FlushSplitsMagic(m: nat)
    requires m + 3 > INFO_NOISE_LIMIT
    ensures
      var chunks := [Zeros(m) + Ascii("INF"), Ascii("O\n")];
      && HasReply(Concat(chunks), m, m + 4)
      && OnChunks(Querying([]), chunks) == Run(Querying(Ascii("O\n")), Zeros(m) + Ascii("INF"), [])
  {
    var a, b := Zeros(m) + Ascii("INF"), Ascii("O\n");
    SplitMagicStream(m, a, b);
    forall j: nat ensures !At(a, InfoMagic(), j) && !At(b, InfoMagic(), j) {
      OccurrenceMatches(a, InfoMagic(), j, 3);
      OccurrenceMatches(b, InfoMagic(), j, 3);
    }
    assert [] + a == a && [] + b == b;
    assert OnData(Querying([]), a) == Extracted(Querying([]), [a], None);
    assert OnData(Querying([]), b) == Extracted(Querying(b), [], None);
    assert OnChunks(Querying([]), [b]) == Run(Querying(b), [], []) by {
      assert [b][1..] == [];
    }
    assert [a, b][1..] == [b];
    assert Concat([a]) == a + Concat([]);
  }

  lemma SplitMagicStream(m: nat, a: Bytes, b: Bytes)
    requires a == Zeros(m) + Ascii("INF") && b == Ascii("O\n")
    ensures HasReply(Concat([a, b]), m, m + 4)
  {
    var s := a + b;
    assert [a, b][1..] == [b] && Concat([b]) == b + Concat([]);
    assert Concat([a, b]) == s;
    assert s[m..m + 4] == InfoMagic();
    forall j | 0 <= j < m ensures !At(s, InfoMagic(), j) {
      OccurrenceMatches(s, InfoMagic(), j, 0);
    }
  }

  /** An info query conserves every stream under every chunking exactly when at most 4093 bytes of
      noise precede the reply: with more, a chunk may end inside the magic and be flushed. */
  lemma InfoIsConservedExactly(m: nat)
    ensures ConservesBehindNoise(m) <==> m <= 4093
  {
    if m + 3 <= INFO_NOISE_LIMIT {
      forall n: nat, chunks: seq<Bytes> | HasReply(Concat(chunks), m, n)
        ensures LiftsReply([], chunks, m, n)
      {
        assert [] + Concat(chunks) == Concat(chunks);
        InfoReplyIsLifted([], chunks, m, n);
      }
    } else {
      FlushSplitsMagic(m);
    }
  }

  // ---------- any stream at all ----------

  /** The two words, byte for byte. */
  lemma ReplyWords()
    ensures ConfigOk() == [67, 79, 78, 70, 73, 71, 95, 79, 75] && InfoMagic() == [73, 78, 70, 79]
  {
  }

  /** Nothing is lost or invented: either the query still waits and everything is passed on or held back,
      or one reply, from `INFO` to a newline, has been cut out and its text returned. */
  ghost predicate Conserves(stream: Bytes, run: Run) {
    if run.mode.Querying? then run.passed + run.mode.buffer == stream && run.replies == []
    else run.mode.Normal? && exists x, text, y :: CutOut(stream, run, x, text, y)
  }

  predicate CutOut(stream: Bytes, run: Run, x: Bytes, text: Bytes, y: Bytes) {
    && stream == x + (Ascii("INFO") + text + [10]) + y
    && run.passed == x + y && run.replies == [text]
  }

  lemma CutBehind(p: Bytes, stream: Bytes, run: Run, x: Bytes, text: Bytes, y: Bytes)
    requires CutOut(stream, run, x, text, y)
    ensures CutOut(p + stream, Run(run.mode, p + run.passed, run.replies), p + x, text, y)
  {
    var cut := Ascii("INFO") + text + [10];
    ConcatAssociates(p, x, y);
    ConcatAssociates(p, x, cut);
    ConcatAssociates(p, x + cut, y);
  }

  lemma ConservesBehind(p: Bytes, stream: Bytes, run: Run)
    requires Conserves(stream, run)
    ensures Conserves(p + stream, Run(run.mode, p + run.passed, run.replies))
  {
    if run.mode.Querying? {
      ConcatAssociates(p, run.passed, run.mode.buffer);
    } else {
      var x, text, y :| CutOut(stream, run, x, text, y);
      CutBehind(p, stream, run, x, text, y);
    }
  }

  /** What one chunk does to a query: it still waits, and nothing is lost, or the reply is cut out. */
  lemma QueryStep(buffer: Bytes, chunk: Bytes)
    ensures StepConserves(buffer + chunk, OnData(Querying(buffer), chunk))
  {
    var b, e := buffer + chunk, OnData(Querying(buffer), chunk);
    var k := IndexOf(b, InfoMagic(), 0);
    if k.None? {
      NoiseStep(b, e);
    } else {
      var n := IndexOf(b, [NEWLINE], k.value + 4);
      if n.None? {
        MagicStep(b, k.value, e);
      } else {
        NewlineAt(b, n.value);
        ReplyIsCut(b, k.value, n.value, e);
      }
    }
  }

  /** A step conserves what the query holds, and holds no more than 4096 bytes without the magic. */
  ghost predicate StepConserves(b: Bytes, e: Extracted) {
    && Conserves(b, Run(e.mode, Concat(e.passed), if e.reply.Some? then [e.reply.value] else []))
    && (e.mode.Querying? ==> |e.mode.buffer| <= 4096 || exists m :: At(e.mode.buffer, InfoMagic(), m))
  }

  lemma NoiseStep(b: Bytes, e: Extracted)
    requires e == if |b| > 4096 then Extracted(Querying([]), [b], None) else Extracted(Querying(b), [], None)
    ensures StepConserves(b, e)
  {
    assert Concat([b]) == b + Concat([]);
    assert b + [] == b && [] + b == b;
  }

  lemma MagicStep(b: Bytes, m: nat, e: Extracted)
    requires At(b, InfoMagic(), m) && e == Extracted(Querying(b[m..]), NonEmpty(b[..m]), None)
    ensures StepConserves(b, e)
  {
    TwoParts(b[..m], []);
    assert b[..m] + b[m..] == b;
    assert At(b[m..], InfoMagic(), 0);
  }

  lemma ReplyIsCut(b: Bytes, m: nat, n: nat, e: Extracted)
    requires At(b, InfoMagic(), m) && m + 4 <= n < |b| && b[n] == NEWLINE
    requires e == Extracted(Normal, NonEmpty(b[..m]) + NonEmpty(b[n + 1..]), Some(b[m + 4..n]))
    ensures CutOut(b, Run(Normal, Concat(e.passed), [b[m + 4..n]]), b[..m], b[m + 4..n], b[n + 1..])
    ensures StepConserves(b, e)
  {
    TwoParts(b[..m], b[n + 1..]);
    assert b[m..m + 4] == InfoMagic();
    assert b == b[..m] + (b[m..m + 4] + b[m + 4..n] + [b[n]]) + b[n + 1..];
    assert CutOut(b, Run(e.mode, Concat(e.passed), [e.reply.value]), b[..m], b[m + 4..n], b[n + 1..]);
  }

  /** Over any chunks whatsoever a query conserves the stream. */
  lemma {:induction false} QueryConserves(buffer: Bytes, chunks: seq<Bytes>)
    ensures Conserves(buffer + Concat(chunks), OnChunks(Querying(buffer), chunks))
    decreases chunks
  {
    if chunks == [] {
      assert buffer + [] == buffer && [] + buffer == buffer;
    } else {
      var e := OnData(Querying(buffer), chunks[0]);
      var t := Concat(chunks[1..]);
      QueryStep(buffer, chunks[0]);
      ConcatAssociates(buffer, chunks[0], t);
      RunStep(Querying(buffer), chunks, e, OnChunks(e.mode, chunks[1..]));
      if e.mode.Querying? {
        QueryConserves(e.mode.buffer, chunks[1..]);
        ConservesBehind(Concat(e.passed), e.mode.buffer + t, OnChunks(e.mode, chunks[1..]));
        ConcatAssociates(Concat(e.passed), e.mode.buffer, t);
        var rest := OnChunks(e.mode, chunks[1..]);
        assert [] + rest.replies == rest.replies;
      } else {
        NormalPassesAll(chunks[1..]);
        CutBefore(buffer + chunks[0], t, e);
      }
    }
  }

  lemma CutBefore(b: Bytes, t: Bytes, e: Extracted)
    requires e.mode == Normal
      && Conserves(b, Run(Normal, Concat(e.passed), if e.reply.Some? then [e.reply.value] else []))
    ensures Conserves(b + t, Run(Normal, Concat(e.passed) + t, (if e.reply.Some? then [e.reply.value] else []) + []))
  {
    var run := Run(Normal, Concat(e.passed), if e.reply.Some? then [e.reply.value] else []);
    var x, text, y :| CutOut(b, run, x, text, y);
    ConcatAssociates(x, y, t);
    ConcatAssociates(x + (Ascii("INFO") + text + [10]), y, t);
    assert CutOut(b + t, Run(Normal, run.passed + t, run.replies + []), x, text, y + t);
  }
}
