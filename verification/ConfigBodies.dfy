/** Length-prefixed configuration bodies: the builders of src/device/HelionetDevice.ts and the
    handlers of firmware/helionet/src/main.cpp that read them back.
*/
module ConfigBodies {
  import opened Bytes
  import P = FirmwareParser

  const HTTP_CRED_MAX: nat := 64
  const UDP_AUTH_KEY_LEN: nat := 32

  function TagBytes(tag: string): Bytes
    requires |tag| == 2 && Latin1(tag)
  {
    Ascii(tag)
  }

  /** A field of at most 255 bytes behind its length. */
  function Field(s: Bytes): Bytes
    requires |s| <= 255
  {
    [|s| as byte] + s
  }

  // ---------- the host's builders ----------

  function WifiBody(ssid: Bytes, pass: Bytes, host: Bytes): Option<Bytes> {
    if |ssid| > 255 || |pass| > 255 || |host| > 255 then None
    else Some(TagBytes("WC") + Field(ssid) + Field(pass) + Field(host))
  }

  function HttpBody(user: Bytes, pass: Bytes): Option<Bytes> {
    if |user| == 0 || |user| > 64 || |pass| == 0 || |pass| > 64 then None
    else Some(TagBytes("HA") + Field(user) + Field(pass))
  }

  function KeyBody(key: Bytes): Option<Bytes> {
    if |key| != UDP_AUTH_KEY_LEN then None else Some(TagBytes("AK") + key)
  }

  method CopyAt(src: Bytes, dst: array<byte>, off: nat)
    requires off + |src| <= dst.Length
    modifies dst
    ensures dst[off..off + |src|] == src
    ensures dst[..off] == old(dst[..off])
  {
    forall i | 0 <= i < |src| {
      dst[off + i] := src[i];
    }
  }

  /** Writes one length byte and the bytes behind it, and returns the new offset. */
  method PutField(src: Bytes, dst: array<byte>, off: nat) returns (next: nat)
    requires |src| <= 255 && off + 1 + |src| <= dst.Length
    modifies dst
    ensures next == off + 1 + |src|
    ensures dst[..next] == old(dst[..off]) + Field(src)
  {
    dst[off] := |src| as byte;
    assert dst[..off] == old(dst[..off]);
    CopyAt(src, dst, off + 1);
    next := off + 1 + |src|;
    assert dst[..off] == dst[..off + 1][..off];
    assert dst[off] == dst[..off + 1][off];
    assert dst[..next] == dst[..off + 1] + dst[off + 1..next];
  }

  /** `buildWifiConfigBody`; no body where the source throws. */
  method BuildWifiConfigBody(ssid: Bytes, pass: Bytes, host: Bytes) returns (r: Option<Bytes>)
    ensures r == WifiBody(ssid, pass, host)
  {
    if |ssid| > 255 || |pass| > 255 || |host| > 255 {
      return None;
    }
    var body := new byte[2 + 1 + |ssid| + 1 + |pass| + 1 + |host|];
    CopyAt(TagBytes("WC"), body, 0);
    var off := 2;
    assert body[..off] == TagBytes("WC");
    off := PutField(ssid, body, off);
    off := PutField(pass, body, off);
    off := PutField(host, body, off);
    assert body[..] == body[..off];
    r := Some(body[..]);
  }

  /** `buildHttpAuthBody`. */
  method BuildHttpAuthBody(user: Bytes, pass: Bytes) returns (r: Option<Bytes>)
    ensures r == HttpBody(user, pass)
  {
    if |user| == 0 || |user| > 64 || |pass| == 0 || |pass| > 64 {
      return None;
    }
    var body := new byte[2 + 1 + |user| + 1 + |pass|];
    CopyAt(TagBytes("HA"), body, 0);
    var off := 2;
    assert body[..off] == TagBytes("HA");
    off := PutField(user, body, off);
    off := PutField(pass, body, off);
    assert body[..] == body[..off];
    r := Some(body[..]);
  }

  /** `buildUdpAuthKeyBody`. */
  method BuildUdpAuthKeyBody(key: Bytes) returns (r: Option<Bytes>)
    ensures r == KeyBody(key)
  {
    if |key| != UDP_AUTH_KEY_LEN {
      return None;
    }
    var body := new byte[2 + 32];
    CopyAt(TagBytes("AK"), body, 0);
    CopyAt(key, body, 2);
    assert body[..] == body[..2] + body[2..34];
    r := Some(body[..]);
  }

  // ---------- the firmware's handlers ----------

  datatype Effect =
    | NoEffect
    | SetTx(settings: Bytes)
    | SetRx(settings: Bytes)
    | Retune(freq: Bytes)
    | InstallWifi(ssid: Bytes, pass: Bytes, host: Bytes)
    | InstallHttp(user: Bytes, pass: Bytes)
    | InstallKey(key: Bytes)

  /** What a body does to the board, and whether it answers CONFIG_OK. */
  datatype Outcome = Outcome(effect: Effect, replied: bool)

  /** `handleWifiConfig`. Every read is within the body, whatever it holds. */
  method HandleWifiConfig(body: Bytes, defaultHost: Bytes) returns (e: Effect)
    ensures e == WifiEffect(body, defaultHost)
  {
    if |body| < 3 {
      return NoEffect;
    }
    var off := 0;
    var ssidLen := body[off] as nat;
    off := off + 1;
    if off + ssidLen + 1 > |body| {
      return NoEffect;
    }
    var ssid := body[off..off + ssidLen];
    off := off + ssidLen;
    var passLen := body[off] as nat;
    off := off + 1;
    if off + passLen + 1 > |body| {
      return NoEffect;
    }
    var pass := body[off..off + passLen];
    off := off + passLen;
    var hostLen := body[off] as nat;
    off := off + 1;
    if off + hostLen > |body| {
      return NoEffect;
    }
    var host := if hostLen > 0 then body[off..off + hostLen] else defaultHost;
    e := InstallWifi(ssid, pass, host);
  }

  /** `handleHttpAuthConfig`. */
  method HandleHttpAuthConfig(body: Bytes) returns (e: Effect)
    ensures e == HttpEffect(body)
  {
    if |body| < 2 {
      return NoEffect;
    }
    var off := 0;
    var userLen := body[off] as nat;
    off := off + 1;
    if userLen == 0 || userLen > HTTP_CRED_MAX || off + userLen + 1 > |body| {
      return NoEffect;
    }
    var user := body[off..off + userLen];
    off := off + userLen;
    var passLen := body[off] as nat;
    off := off + 1;
    if passLen == 0 || passLen > HTTP_CRED_MAX || off + passLen > |body| {
      return NoEffect;
    }
    e := InstallHttp(user, body[off..off + passLen]);
  }

  /** The first field of a body and what is behind it. */
  function TakeField(s: Bytes): Option<(Bytes, Bytes)> {
    if s == [] || 1 + s[0] as nat > |s| then None
    else Some((s[1..1 + s[0] as nat], s[1 + s[0] as nat..]))
  }

  function WifiEffect(body: Bytes, defaultHost: Bytes): Effect {
    var a := TakeField(body);
    if a.None? then NoEffect
    else
      var b := TakeField(a.value.1);
      if b.None? then NoEffect
      else
        var c := TakeField(b.value.1);
        if c.None? then NoEffect
        else InstallWifi(a.value.0, b.value.0, if c.value.0 == [] then defaultHost else c.value.0)
  }

  function HttpEffect(body: Bytes): Effect {
    var a := TakeField(body);
    if a.None? || a.value.0 == [] || |a.value.0| > HTTP_CRED_MAX then NoEffect
    else
      var b := TakeField(a.value.1);
      if b.None? || b.value.0 == [] || |b.value.0| > HTTP_CRED_MAX then NoEffect
      else InstallHttp(a.value.0, b.value.0)
  }

  function KeyEffect(body: Bytes): Effect {
    if |body| != UDP_AUTH_KEY_LEN then NoEffect else InstallKey(body)
  }

  predicate HasTag(body: Bytes, tag: string)
    requires |tag| == 2 && Latin1(tag)
  {
    |body| >= 2 && body[0] == Code(tag[0]) && body[1] == Code(tag[1])
  }

  /** `handleConfigBody` of a build with the WiFi bridge. The three credential commands are refused
      over UDP; over USB they are answered even when their body does not parse. */
  function HandleConfigBody(body: Bytes, onUdp: bool, defaultHost: Bytes): (o: Outcome)
    ensures onUdp ==> !o.effect.InstallWifi? && !o.effect.InstallHttp? && !o.effect.InstallKey?
    ensures o.effect != NoEffect ==> o.replied
  {
    if |body| < 2 then Outcome(NoEffect, false)
    else if HasTag(body, "TC") && |body| >= 20 then Outcome(SetTx(body[2..20]), true)
    else if HasTag(body, "RC") && |body| >= 20 then Outcome(SetRx(body[2..20]), true)
    else if HasTag(body, "Tc") && |body| >= 6 then Outcome(Retune(body[2..6]), true)
    else if HasTag(body, "WC") then
      if onUdp then Outcome(NoEffect, false) else Outcome(WifiEffect(body[2..], defaultHost), true)
    else if HasTag(body, "AK") then
      if onUdp then Outcome(NoEffect, false) else Outcome(KeyEffect(body[2..]), true)
    else if HasTag(body, "HA") then
      if onUdp then Outcome(NoEffect, false) else Outcome(HttpEffect(body[2..]), true)
    else Outcome(NoEffect, false)
  }

  // ---------- round trips ----------

  lemma TakeFieldUndoesField(s: Bytes, rest: Bytes)
    requires |s| <= 255
    ensures TakeField(Field(s) + rest) == Some((s, rest))
  {
    var body := Field(s) + rest;
    assert body[1..1 + |s|] == s && body[1 + |s|..] == rest;
  }

  /** Whatever is taken was there, behind its length. */
  lemma FieldUndoesTakeField(body: Bytes)
    requires TakeField(body).Some?
    ensures var (s, rest) := TakeField(body).value; |s| <= 255 && body == Field(s) + rest
  {
    var (s, rest) := TakeField(body).value;
    assert body == [body[0]] + s + rest;
  }

  /** The firmware installs WiFi credentials from exactly the bodies that hold three fields, with
      anything behind them; an empty host stands for the default. */
  lemma WifiEffectIsThreeFields(ssid: Bytes, pass: Bytes, host: Bytes, rest: Bytes, defaultHost: Bytes)
    requires |ssid| <= 255 && |pass| <= 255 && |host| <= 255
    ensures WifiEffect(Field(ssid) + (Field(pass) + (Field(host) + rest)), defaultHost)
         == InstallWifi(ssid, pass, if host == [] then defaultHost else host)
  {
    TakeFieldUndoesField(host, rest);
    TakeFieldUndoesField(pass, Field(host) + rest);
    TakeFieldUndoesField(ssid, Field(pass) + (Field(host) + rest));
  }

  lemma WifiInstallsOnlyFields(body: Bytes, defaultHost: Bytes)
    requires WifiEffect(body, defaultHost).InstallWifi?
    ensures
      var e := WifiEffect(body, defaultHost);
      && |e.ssid| <= 255 && |e.pass| <= 255
      && exists host, rest ::
           && |host| <= 255
           && body == Field(e.ssid) + (Field(e.pass) + (Field(host) + rest))
           && e.host == if host == [] then defaultHost else host
  {
    var a := TakeField(body).value;
    var b := TakeField(a.1).value;
    var c := TakeField(b.1).value;
    FieldUndoesTakeField(body);
    FieldUndoesTakeField(a.1);
    FieldUndoesTakeField(b.1);
    assert body == Field(a.0) + (Field(b.0) + (Field(c.0) + c.1));
  }

  /** The firmware installs HTTP credentials from exactly the bodies that hold two fields of 1..64
      bytes, with anything behind them. */
  lemma HttpEffectIsTwoFields(body: Bytes, user: Bytes, pass: Bytes)
    ensures HttpEffect(body) == InstallHttp(user, pass)
      <==> 1 <= |user| <= 64 && 1 <= |pass| <= 64 && exists rest :: body == Field(user) + (Field(pass) + rest)
  {
    if HttpEffect(body) == InstallHttp(user, pass) {
      FieldUndoesTakeField(body);
      FieldUndoesTakeField(TakeField(body).value.1);
      assert body == Field(user) + (Field(pass) + TakeField(TakeField(body).value.1).value.1);
    }
    if 1 <= |user| <= 64 && 1 <= |pass| <= 64 && exists rest :: body == Field(user) + (Field(pass) + rest) {
      var rest :| body == Field(user) + (Field(pass) + rest);
      TakeFieldUndoesField(pass, rest);
      TakeFieldUndoesField(user, Field(pass) + rest);
    }
  }

  lemma TagSelectsHandler(rest: Bytes, defaultHost: Bytes)
    ensures HandleConfigBody(TagBytes("WC") + rest, false, defaultHost) == Outcome(WifiEffect(rest, defaultHost), true)
    ensures HandleConfigBody(TagBytes("HA") + rest, false, defaultHost) == Outcome(HttpEffect(rest), true)
    ensures HandleConfigBody(TagBytes("AK") + rest, false, defaultHost) == Outcome(KeyEffect(rest), true)
  {
    TagIsFound("WC", rest);
    TagIsFound("HA", rest);
    TagIsFound("AK", rest);
  }

  lemma TagIsFound(tag: string, rest: Bytes)
    requires |tag| == 2 && Latin1(tag)
    ensures var body := TagBytes(tag) + rest;
      |body| >= 2 && body[0] == Code(tag[0]) && body[1] == Code(tag[1]) && body[2..] == rest
  {
  }

  /** Settings are taken from the 18 or 4 bytes behind their tag, over USB and over UDP, whatever follows;
      "TC" is for transmission, "RC" for reception, "Tc" retunes. */
  lemma SettingsExactly(settings: Bytes, freq: Bytes, rest: Bytes, onUdp: bool, defaultHost: Bytes)
    requires |settings| == 18 && |freq| == 4
    ensures HandleConfigBody([0x54, 0x43] + settings + rest, onUdp, defaultHost) == Outcome(SetTx(settings), true)
    ensures HandleConfigBody([0x52, 0x43] + settings + rest, onUdp, defaultHost) == Outcome(SetRx(settings), true)
    ensures HandleConfigBody([0x54, 0x63] + freq + rest, onUdp, defaultHost) == Outcome(Retune(freq), true)
  {
    assert ([0x54, 0x43] + settings + rest)[2..20] == settings;
    assert ([0x52, 0x43] + settings + rest)[2..20] == settings;
    assert ([0x54, 0x63] + freq + rest)[2..6] == freq;
  }

  /** With fewer bytes they do nothing and are not answered. */
  lemma ShortSettingsAreIgnored(settings: Bytes, freq: Bytes, onUdp: bool, defaultHost: Bytes)
    requires |settings| < 18 && |freq| < 4
    ensures HandleConfigBody([0x54, 0x43] + settings, onUdp, defaultHost) == Outcome(NoEffect, false)
    ensures HandleConfigBody([0x52, 0x43] + settings, onUdp, defaultHost) == Outcome(NoEffect, false)
    ensures HandleConfigBody([0x54, 0x63] + freq, onUdp, defaultHost) == Outcome(NoEffect, false)
  {
  }

  /** Credentials are refused over UDP and answered over USB even when they do not parse; a key must have 32
      bytes. */
  lemma CredentialsExactly(rest: Bytes, defaultHost: Bytes)
    ensures HandleConfigBody([0x57, 0x43] + rest, false, defaultHost) == Outcome(WifiEffect(rest, defaultHost), true)
    ensures HandleConfigBody([0x48, 0x41] + rest, false, defaultHost) == Outcome(HttpEffect(rest), true)
    ensures HandleConfigBody([0x41, 0x4b] + rest, false, defaultHost)
         == Outcome(if |rest| == 32 then InstallKey(rest) else NoEffect, true)
    ensures HandleConfigBody([0x57, 0x43] + rest, true, defaultHost) == Outcome(NoEffect, false)
    ensures HandleConfigBody([0x48, 0x41] + rest, true, defaultHost) == Outcome(NoEffect, false)
    ensures HandleConfigBody([0x41, 0x4b] + rest, true, defaultHost) == Outcome(NoEffect, false)
  {
    assert ([0x57, 0x43] + rest)[2..] == rest;
    assert ([0x48, 0x41] + rest)[2..] == rest;
    assert ([0x41, 0x4b] + rest)[2..] == rest;
  }

  /** Any other body does nothing and is not answered. */
  lemma OtherTagsAreIgnored(body: Bytes, onUdp: bool, defaultHost: Bytes)
    requires |body| >= 2 ==>
      body[..2] !in {[0x54, 0x43], [0x52, 0x43], [0x54, 0x63], [0x57, 0x43], [0x48, 0x41], [0x41, 0x4b]}
    ensures HandleConfigBody(body, onUdp, defaultHost) == Outcome(NoEffect, false)
  {
    if |body| >= 2 { assert body[..2] == [body[0], body[1]]; }
  }

  /** The builders' bodies, byte for byte. */
  lemma BuiltExactly(a: Bytes, b: Bytes, c: Bytes)
    ensures WifiBody(a, b, c)
         == if |a| > 255 || |b| > 255 || |c| > 255 then None
            else Some([0x57, 0x43, |a| as byte] + a + [|b| as byte] + b + [|c| as byte] + c)
    ensures HttpBody(a, b)
         == if 1 <= |a| <= 64 && 1 <= |b| <= 64 then Some([0x48, 0x41, |a| as byte] + a + [|b| as byte] + b) else None
    ensures KeyBody(a) == if |a| == 32 then Some([0x41, 0x4b] + a) else None
  {
    assert TagBytes("WC") == [0x57, 0x43] && TagBytes("HA") == [0x48, 0x41] && TagBytes("AK") == [0x41, 0x4b];
    if |a| <= 255 && |b| <= 255 {
      assert TagBytes("WC") + Field(a) == [0x57, 0x43, |a| as byte] + a;
      assert TagBytes("HA") + Field(a) == [0x48, 0x41, |a| as byte] + a;
      ConcatAssociates([0x57, 0x43, |a| as byte] + a, [|b| as byte], b);
      ConcatAssociates([0x48, 0x41, |a| as byte] + a, [|b| as byte], b);
      if |c| <= 255 { ConcatAssociates([0x57, 0x43, |a| as byte] + a + [|b| as byte] + b, [|c| as byte], c); }
    }
  }

  /** A framed body arrives at the board's configuration handler, over USB. */
  function Delivered(body: Bytes, defaultHost: Bytes): seq<Outcome> {
    Outcomes(P.Feed(P.Idle, P.Framed(P.Config(body))).commands, defaultHost)
  }

  function Outcomes(cs: seq<P.Command>, defaultHost: Bytes): seq<Outcome> {
    if cs == [] then []
    else (if cs[0].Config? then [HandleConfigBody(cs[0].body, false, defaultHost)] else [])
         + Outcomes(cs[1..], defaultHost)
  }

  lemma OneOutcome(body: Bytes, defaultHost: Bytes)
    requires 1 <= |body| <= P.IN_BUF_SIZE
    ensures Delivered(body, defaultHost) == [HandleConfigBody(body, false, defaultHost)]
  {
    P.CommandRoundTrip(P.Config(body));
    var cs := [P.Config(body)];
    assert cs[1..] == [] && Outcomes(cs[1..], defaultHost) == [];
  }

  /** WiFi credentials the builder accepts reach the board as the one dispatched command exactly
      when the fields total at most 254 bytes, and then the board installs those fields and answers. */
  lemma WifiReachesBoard(ssid: Bytes, pass: Bytes, host: Bytes, defaultHost: Bytes)
    requires WifiBody(ssid, pass, host).Some?
    ensures
      var body := WifiBody(ssid, pass, host).value;
      && (P.Feed(P.Idle, P.Framed(P.Config(body))).commands == [P.Config(body)]
          <==> |ssid| + |pass| + |host| <= 254)
      && (|ssid| + |pass| + |host| <= 254 ==>
            Delivered(body, defaultHost)
            == [Outcome(InstallWifi(ssid, pass, if host == [] then defaultHost else host), true)])
  {
    var body := WifiBody(ssid, pass, host).value;
    WifiBodyEffect(ssid, pass, host, defaultHost);
    P.RoundTripNeedsFit(P.Config(body));
    if |ssid| + |pass| + |host| <= 254 { OneOutcome(body, defaultHost); }
  }

  lemma WifiBodyEffect(ssid: Bytes, pass: Bytes, host: Bytes, defaultHost: Bytes)
    requires WifiBody(ssid, pass, host).Some?
    ensures
      var body := WifiBody(ssid, pass, host).value;
      && |body| == 5 + |ssid| + |pass| + |host|
      && HandleConfigBody(body, false, defaultHost)
         == Outcome(InstallWifi(ssid, pass, if host == [] then defaultHost else host), true)
  {
    var body := WifiBody(ssid, pass, host).value;
    var fields := Field(ssid) + (Field(pass) + (Field(host) + []));
    assert Field(host) + [] == Field(host);
    ConcatAssociates(TagBytes("WC") + Field(ssid), Field(pass), Field(host));
    ConcatAssociates(TagBytes("WC"), Field(ssid), Field(pass) + Field(host));
    TagSelectsHandler(fields, defaultHost);
    WifiEffectIsThreeFields(ssid, pass, host, [], defaultHost);
  }

  /** HTTP credentials the builder accepts are installed as given. */
  lemma HttpReachesBoard(user: Bytes, pass: Bytes, defaultHost: Bytes)
    requires HttpBody(user, pass).Some?
    ensures Delivered(HttpBody(user, pass).value, defaultHost) == [Outcome(InstallHttp(user, pass), true)]
  {
    HttpBodyEffect(user, pass, defaultHost);
    OneOutcome(HttpBody(user, pass).value, defaultHost);
  }

  lemma HttpBodyEffect(user: Bytes, pass: Bytes, defaultHost: Bytes)
    requires HttpBody(user, pass).Some?
    ensures
      var body := HttpBody(user, pass).value;
      && |body| == 4 + |user| + |pass|
      && HandleConfigBody(body, false, defaultHost) == Outcome(InstallHttp(user, pass), true)
  {
    var fields := Field(user) + (Field(pass) + []);
    assert Field(pass) + [] == Field(pass);
    ConcatAssociates(TagBytes("HA"), Field(user), Field(pass));
    TagSelectsHandler(fields, defaultHost);
    TakeFieldUndoesField(pass, []);
    TakeFieldUndoesField(user, Field(pass) + []);
  }

  /** A key the builder accepts is installed as given. */
  lemma KeyReachesBoard(key: Bytes, defaultHost: Bytes)
    requires KeyBody(key).Some?
    ensures Delivered(KeyBody(key).value, defaultHost) == [Outcome(InstallKey(key), true)]
  {
    var body := KeyBody(key).value;
    OneOutcome(body, defaultHost);
    TagSelectsHandler(key, defaultHost);
  }

  /** The settings every tunnel start sends reach the board and are answered. */
  lemma SettingsReachBoard(settings: Bytes, defaultHost: Bytes)
    requires |settings| == 18
    ensures Delivered([0x54, 0x43] + settings, defaultHost) == [Outcome(SetTx(settings), true)]
    ensures Delivered([0x52, 0x43] + settings, defaultHost) == [Outcome(SetRx(settings), true)]
  {
    SettingsExactly(settings, [0, 0, 0, 0], [], false, defaultHost);
    assert [0x54, 0x43] + settings + [] == [0x54, 0x43] + settings;
    assert [0x52, 0x43] + settings + [] == [0x52, 0x43] + settings;
    OneOutcome([0x54, 0x43] + settings, defaultHost);
    OneOutcome([0x52, 0x43] + settings, defaultHost);
  }
}
