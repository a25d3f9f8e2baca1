/** The sessions that local clients open with the device, as a state machine over values: authentication,
    heartbeats, expiry, and the dispatch of protected requests. */
module SessionSpec {
  import Bits
  import opened Bytes
  import M = CoapMessage
  import K = KeyStore

  const CHECKSUM_LEN := 6        // PK_DN_CHECKSUM_LEN
  const HEART_EXPIRE := 120000
  const SEED := 0xFF
  const ACCESSKEY_LEN := 13      // prefix, two characters, sequence number

  type Checksum = s: seq<byte> | |s| == 6 witness [0, 0, 0, 0, 0, 0]
  datatype Addr = Addr(host: string, port: u16)

  /** The digests the program calls; nothing is assumed about them. */
  datatype Digests = Digests(hmac: (string, string) -> string, sessionKey: (string, string) -> string,
                             device: string -> Checksum, path: string -> seq<byte>)

  datatype Session = Session(addr: Addr, sessionId: int, pkdn: Checksum, randomKey: string, sessionKey: string,
                             authed: nat, heart: nat)

  /** A protected resource: one path by its checksum, or every path that starts like the filter. */
  datatype Resource = Normal(sum: seq<byte>, pkdn: Checksum, cb: int) | Filter(filter: string, pkdn: Checksum, cb: int)

  /** The fields of an authentication request; None where the payload has no such field. */
  datatype AuthRequest = AuthRequest(parsed: bool, accessKey: Option<string>, randomKey: Option<string>,
                                     sign: Option<string>, prodKey: Option<string>, deviceName: Option<string>)

  /** A protected request: the value of option 71 (0 when absent) and the bytes of the observe option.
      `junk` is what the variable holds into which the observe value is read. */
  datatype Request = Request(path: string, sessionId: u32, observe: Option<seq<byte>>, junk: u32, payloadLen: u16, alloc: bool)

  datatype Output =
    | AuthReply(to: Addr, code: int, sessionId: int)
    | HeartReply(to: Addr, known: bool)
    | Unauthorized(to: Addr)
    | Observed(to: Addr, path: string)
    | Called(from: Addr, cb: int, sessionId: int, device: Checksum, key: string)

  /** A session id handed out to an address for a device; `device` is the checksum as a C string. */
  datatype Grant = Grant(addr: Addr, device: seq<byte>, sessionId: int)

  /** What authentication looks keys up in. */
  datatype Keys = Keys(store: K.Store, groups: seq<K.Key>, revocation: Option<string>)

  /** `grants` and `log` are history. */
  datatype Table = Table(keys: Keys, sessions: seq<Session>, seed: int, grants: seq<Grant>, log: seq<Output>)

  function Initial(groups: seq<K.Key>): Table {
    Table(Keys(K.Store([], 0), groups, None), [], SEED, [], [])
  }

  datatype Event =
    | AddKey(key: K.Key, allocKey: bool)
    | RemoveKey(prefix: string)
    | SetRevocation(seqlist: Option<string>)
    | Auth(from: Addr, req: AuthRequest, random: string, now: nat)
    | Heart(from: Addr, now: nat)
    | Timer(now: nat)
    | Receive(from: Addr, msg: Request)

  // ----- comparing checksums -----

  /** strncmp on two arrays finds no difference. */
  predicate StrncmpEqual(a: seq<byte>, b: seq<byte>, n: nat)
    requires n <= |a| && n <= |b|
  {
    n == 0 || (a[0] == b[0] && (a[0] == 0 || StrncmpEqual(a[1..], b[1..], n - 1)))
  }

  /** The array as a C string. */
  function CStr(s: seq<byte>): seq<byte> {
    if s == [] || s[0] == 0 then [] else [s[0]] + CStr(s[1..])
  }

  /** The comparison sees a checksum only up to its first zero byte. */
  lemma {:induction false} StrncmpSeesCStr(a: seq<byte>, b: seq<byte>)
    requires |a| == |b|
    ensures StrncmpEqual(a, b, |a|) <==> CStr(a) == CStr(b)
  {
    if a != [] {
      StrncmpSeesCStr(a[1..], b[1..]);
      assert |a[1..]| == |a| - 1;
      if a[0] != 0 && b[0] != 0 {
        assert CStr(a)[0] == a[0] && CStr(a)[1..] == CStr(a[1..]);
        assert CStr(b)[0] == b[0] && CStr(b)[1..] == CStr(b[1..]);
      }
    }
  }

  /** The comparison takes one checksum for the other. */
  predicate SameSum(a: Checksum, b: Checksum) {
    StrncmpEqual(a, b, CHECKSUM_LEN)
  }

  predicate Matches(s: Session, addr: Addr, ck: Checksum) {
    addr == s.addr && SameSum(s.pkdn, ck)
  }

  function Find(sessions: seq<Session>, addr: Addr, ck: Checksum): (i: nat)
    ensures i <= |sessions| && (i < |sessions| ==> Matches(sessions[i], addr, ck))
    ensures forall j :: 0 <= j < i ==> !Matches(sessions[j], addr, ck)
  {
    if sessions == [] || Matches(sessions[0], addr, ck) then 0 else 1 + Find(sessions[1..], addr, ck)
  }

  // ----- authentication -----

  datatype Judgement = Granted(token: string) | Refused(code: int)

  predicate WellFormedKey(req: AuthRequest) {
    req.parsed && req.accessKey.Some? && |req.accessKey.value| == ACCESSKEY_LEN
  }

  predicate Present(field: Option<string>) {
    field.Some? && field.value != []
  }

  /** What the key lookup says of a request; requests without a proper key are not looked up. */
  function VerdictOf(keys: Keys, req: AuthRequest): K.Verdict {
    if !WellFormedKey(req) then K.ListEmpty
    else K.VerdictOn(keys.revocation, keys.store.keys, keys.groups, req.accessKey.value[..8], req.accessKey.value[10..])
  }

  function Judge(d: Digests, req: AuthRequest, v: K.Verdict): Judgement {
    if !WellFormedKey(req) then Refused(200)
    else match v
      case Revoked => Refused(501)
      case UnmatchedPrefix => Refused(502)
      case ListEmpty => Refused(504)
      case Legal(secret) =>
        var token := d.hmac(req.accessKey.value, secret);
        if !Present(req.randomKey) then Refused(503)
        else if req.sign != Some(d.hmac(req.randomKey.value, token)) then Refused(506)
        else if !Present(req.prodKey) || !Present(req.deviceName) then Refused(503)
        else Granted(token)
  }

  /** What is left of a string in a buffer of `size` characters with its terminator. */
  function Fit(s: string, size: nat): string
    requires size > 0
  {
    if |s| < size then s else s[..size - 1]
  }

  function DeviceSum(d: Digests, req: AuthRequest): Checksum
    requires Present(req.prodKey) && Present(req.deviceName)
  {
    d.device(Fit(req.prodKey.value + req.deviceName.value, 100))
  }

  function GrantStep(d: Digests, t: Table, from: Addr, req: AuthRequest, token: string, random: string, now: nat): Table
    requires Present(req.prodKey) && Present(req.deviceName) && Present(req.randomKey)
  {
    var ck := DeviceSum(d, req);
    var i := Find(t.sessions, from, ck);
    var known := i < |t.sessions|;
    var all := if known then t.sessions else t.sessions + [Session(from, t.seed + 1, ck, random, "", 0, 0)];
    var s := all[i];
    var key := d.sessionKey(Fit(req.randomKey.value + s.randomKey, 40), token);
    Table(t.keys, all[i := s.(sessionKey := key, authed := now, heart := now)],
          if known then t.seed else t.seed + 1,
          t.grants + [Grant(from, CStr(ck), s.sessionId)],
          t.log + [AuthReply(from, 200, s.sessionId)])
  }

  function AuthStep(d: Digests, t: Table, from: Addr, req: AuthRequest, random: string, now: nat): Table {
    match Judge(d, req, VerdictOf(t.keys, req))
    case Refused(code) => t.(log := t.log + [AuthReply(from, code, 0)])
    case Granted(token) => GrantStep(d, t, from, req, token, random, now)
  }

  // ----- heartbeat and expiry -----

  predicate Beats(s: Session, from: Addr) {
    s.sessionId != 0 && s.addr == from
  }

  function Beaten(sessions: seq<Session>, from: Addr, now: nat): (r: seq<Session>)
    ensures |r| == |sessions|
    ensures forall i :: 0 <= i < |r| ==> r[i] == if Beats(sessions[i], from) then sessions[i].(heart := now) else sessions[i]
  {
    if sessions == [] then []
    else [if Beats(sessions[0], from) then sessions[0].(heart := now) else sessions[0]] + Beaten(sessions[1..], from, now)
  }

  predicate SomeBeats(sessions: seq<Session>, from: Addr) {
    exists i :: 0 <= i < |sessions| && Beats(sessions[i], from)
  }

  function HeartStep(t: Table, from: Addr, now: nat): Table {
    if t.sessions == [] then t
    else t.(sessions := Beaten(t.sessions, from, now), log := t.log + [HeartReply(from, SomeBeats(t.sessions, from))])
  }

  predicate Stale(s: Session, tick: nat) {
    s.sessionId != 0 && s.heart + HEART_EXPIRE < tick
  }

  function Fresh(sessions: seq<Session>, tick: nat): seq<Session> {
    if sessions == [] then []
    else (if Stale(sessions[0], tick) then [] else [sessions[0]]) + Fresh(sessions[1..], tick)
  }

  // ----- protected resources -----

  /** What a resource is registered with; `alloc` tells whether its memory can be had. */
  datatype Registration = Registration(prodKey: string, deviceName: string, path: string, cb: int, alloc: bool)

  /** The path holds the text "/#" somewhere. */
  predicate IsFilter(path: string) {
    |path| >= 2 && ((path[0] == '/' && path[1] == '#') || IsFilter(path[1..]))
  }

  predicate SumTaken(rs: seq<Resource>, sum: seq<byte>) {
    exists i :: 0 <= i < |rs| && rs[i].Normal? && rs[i].sum == sum
  }

  /** A plain path is registered once; its device's checksum comes from the digest that authentication uses. */
  function Register(d: Digests, rs: seq<Resource>, g: Registration): seq<Resource> {
    var ck := d.device(Fit(g.prodKey + g.deviceName, 100));
    if !g.alloc || (!IsFilter(g.path) && SumTaken(rs, d.path(g.path))) then rs
    else if IsFilter(g.path) then rs + [Filter(g.path, ck, g.cb)]
    else rs + [Normal(d.path(g.path), ck, g.cb)]
  }

  /** The resources of a program that made these registrations in turn. */
  function Registered(d: Digests, gs: seq<Registration>): seq<Resource> {
    if gs == [] then [] else Register(d, Registered(d, gs[..|gs| - 1]), gs[|gs| - 1])
  }

  // ----- protected requests -----

  predicate Serves(r: Resource, d: Digests, path: string) {
    match r
    case Normal(sum, _, _) => sum == d.path(path)
    case Filter(filter, _, _) => filter != [] && filter[..|filter| - 1] <= path
  }

  function ResourceOf(rs: seq<Resource>, d: Digests, path: string): (i: nat)
    ensures i <= |rs| && (i < |rs| ==> Serves(rs[i], d, path))
    ensures forall j :: 0 <= j < i ==> !Serves(rs[j], d, path)
  {
    if rs == [] || Serves(rs[0], d, path) then 0 else 1 + ResourceOf(rs[1..], d, path)
  }

  /** The observe value is ORed into what the variable held before. */
  predicate ObserveIsZero(v: seq<byte>, junk: u32) {
    M.ReadInto(junk, v) == 0
  }

  /** A request to observe is sure to be noticed exactly if its value is sent as the empty string. */
  lemma ObserveNoticedExactly(v: seq<byte>)
    ensures (forall junk: u32 :: ObserveIsZero(v, junk)) <==> |v| == 0 || |v| > 4
  {
    var one: u32 := 1;
    assert M.ReadInto(one, v) % 2 == 1 || |v| == 0 || |v| > 4 by { Bits.OrHalves(one, M.UintValue(v)); }
    assert 0 < |v| <= 4 ==> !ObserveIsZero(v, one);
  }

  function Dispatch(d: Digests, rs: seq<Resource>, sessions: seq<Session>, from: Addr, m: Request): seq<Output> {
    var r := ResourceOf(rs, d, m.path);
    if r == |rs| then []
    else
      var i := Find(sessions, from, rs[r].pkdn);
      if i == |sessions| || sessions[i].sessionId != m.sessionId then [Unauthorized(from)]
      else
        (if m.observe.Some? && ObserveIsZero(m.observe.value, m.junk) then [Observed(from, m.path)] else [])
        + (if m.payloadLen < 256 || m.alloc
           then [Called(from, rs[r].cb, m.sessionId, rs[r].pkdn, sessions[i].sessionKey)] else [])
  }

  // ----- runs -----

  function Step(d: Digests, rs: seq<Resource>, t: Table, e: Event): Table {
    match e
    case AddKey(key, alloc) => t.(keys := t.keys.(store := K.AddStep(t.keys.store, key, alloc).0))
    case RemoveKey(prefix) => t.(keys := t.keys.(store := K.RemoveStep(t.keys.store, prefix)))
    case SetRevocation(seqlist) =>
      t.(keys := t.keys.(revocation := if seqlist.Some? && seqlist.value != [] then seqlist else None))
    case Auth(from, req, random, now) => AuthStep(d, t, from, req, random, now)
    case Heart(from, now) => HeartStep(t, from, now)
    case Timer(now) => t.(sessions := Fresh(t.sessions, now))
    case Receive(from, msg) => t.(log := t.log + Dispatch(d, rs, t.sessions, from, msg))
  }

  function Run(d: Digests, rs: seq<Resource>, t: Table, es: seq<Event>): Table
    decreases |es|
  {
    if es == [] then t else Run(d, rs, Step(d, rs, t, es[0]), es[1..])
  }
}
