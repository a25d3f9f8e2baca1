/** What every run of the session table keeps, how long a session lives, and what a callback proves about
    its caller. */
module SessionRuns {
  import opened Bytes
  import opened SessionSpec
  import K = KeyStore

  // ----- the invariant -----

  /** One session for an address and a device; ids ascend along the list and stay above the seed's start. */
  predicate Sound(sessions: seq<Session>, seed: int) {
    && SEED <= seed
    && (forall i :: 0 <= i < |sessions| ==> SEED < sessions[i].sessionId <= seed)
    && (forall i, j :: 0 <= i < j < |sessions| ==> sessions[i].sessionId < sessions[j].sessionId)
    && (forall i, j :: 0 <= i < j < |sessions| ==> !SameKey(sessions[i], sessions[j]))
  }

  predicate SameKey(a: Session, b: Session) {
    a.addr == b.addr && CStr(a.pkdn) == CStr(b.pkdn)
  }

  predicate SameIdentity(a: Session, b: Session) {
    a.addr == b.addr && a.pkdn == b.pkdn && a.sessionId == b.sessionId
  }

  lemma SoundByIdentity(a: seq<Session>, b: seq<Session>, seed: int)
    requires Sound(a, seed) && |a| == |b| && forall i :: 0 <= i < |a| ==> SameIdentity(a[i], b[i])
    ensures Sound(b, seed)
  {
  }

  lemma FindSeesKeys(sessions: seq<Session>, addr: Addr, ck: Checksum)
    ensures var i := Find(sessions, addr, ck);
            && (i < |sessions| ==> sessions[i].addr == addr && CStr(sessions[i].pkdn) == CStr(ck))
            && forall j :: 0 <= j < i ==> sessions[j].addr != addr || CStr(sessions[j].pkdn) != CStr(ck)
  {
    forall j | 0 <= j < |sessions|
      ensures Matches(sessions[j], addr, ck) <==> sessions[j].addr == addr && CStr(sessions[j].pkdn) == CStr(ck)
    {
      StrncmpSeesCStr(sessions[j].pkdn, ck);
    }
  }

  lemma AppendSound(sessions: seq<Session>, seed: int, s: Session)
    requires Sound(sessions, seed) && s.sessionId == seed + 1
    requires forall j :: 0 <= j < |sessions| ==> !SameKey(sessions[j], s)
    ensures Sound(sessions + [s], seed + 1)
  {
  }

  lemma GrantSound(d: Digests, t: Table, from: Addr, req: AuthRequest, token: string, random: string, now: nat)
    requires Sound(t.sessions, t.seed) && Present(req.prodKey) && Present(req.deviceName) && Present(req.randomKey)
    ensures var t' := GrantStep(d, t, from, req, token, random, now); Sound(t'.sessions, t'.seed)
  {
    var ck := DeviceSum(d, req);
    var i := Find(t.sessions, from, ck);
    var ss := GrantStep(d, t, from, req, token, random, now).sessions;
    FindSeesKeys(t.sessions, from, ck);
    hide Sound, CStr, DeviceSum, SameSum;
    if i < |t.sessions| {
      SoundByIdentity(t.sessions, ss, t.seed);
    } else {
      var s := Session(from, t.seed + 1, ck, random, "", 0, 0);
      AppendSound(t.sessions, t.seed, s);
      SoundByIdentity(t.sessions + [s], ss, t.seed + 1);
    }
  }

  /** Expiry keeps the order and takes away exactly the stale sessions. */
  lemma {:induction false} FreshPartitions(sessions: seq<Session>, tick: nat)
    ensures forall s :: s in Fresh(sessions, tick) <==> s in sessions && !Stale(s, tick)
  {
    if sessions != [] {
      FreshPartitions(sessions[1..], tick);
      assert sessions == [sessions[0]] + sessions[1..];
    }
  }

  /** The first session stands apart from the rest, and the rest is sound. */
  lemma SoundCons(s: Session, rest: seq<Session>, seed: int)
    ensures Sound([s] + rest, seed) <==>
            Sound(rest, seed) && SEED < s.sessionId <= seed
            && forall r :: r in rest ==> s.sessionId < r.sessionId && !SameKey(s, r)
  {
    hide SameKey, CStr, Sound;
    if Sound([s] + rest, seed) { SoundUncons(s, rest, seed); }
    if Sound(rest, seed) && SEED < s.sessionId <= seed
      && forall r :: r in rest ==> s.sessionId < r.sessionId && !SameKey(s, r) {
      SoundPrepend(s, rest, seed);
    }
  }

  lemma SoundUncons(s: Session, rest: seq<Session>, seed: int)
    requires Sound([s] + rest, seed)
    ensures Sound(rest, seed) && SEED < s.sessionId <= seed
    ensures forall r :: r in rest ==> s.sessionId < r.sessionId && !SameKey(s, r)
  {
    hide SameKey, CStr;
    var all := [s] + rest;
    assert all[0] == s && forall i :: 0 <= i < |rest| ==> rest[i] == all[i + 1];
  }

  lemma SoundPrepend(s: Session, rest: seq<Session>, seed: int)
    requires Sound(rest, seed) && SEED < s.sessionId <= seed
    requires forall r :: r in rest ==> s.sessionId < r.sessionId && !SameKey(s, r)
    ensures Sound([s] + rest, seed)
  {
    hide SameKey, CStr;
    var all := [s] + rest;
    forall i, j | 0 <= i < j < |all| ensures all[i].sessionId < all[j].sessionId && !SameKey(all[i], all[j]) {
      assert all[j] == rest[j - 1] && rest[j - 1] in rest;
      assert i > 0 ==> all[i] == rest[i - 1];
    }
    forall i | 0 <= i < |all| ensures SEED < all[i].sessionId <= seed {
      assert i > 0 ==> all[i] == rest[i - 1];
    }
  }

  lemma {:induction false} FreshSound(sessions: seq<Session>, seed: int, tick: nat)
    requires Sound(sessions, seed)
    ensures Sound(Fresh(sessions, tick), seed)
  {
    if sessions != [] {
      hide Sound, SameKey;
      var rest := sessions[1..];
      assert sessions == [sessions[0]] + rest;
      SoundCons(sessions[0], rest, seed);
      FreshSound(rest, seed, tick);
      FreshPartitions(rest, tick);
      SoundCons(sessions[0], Fresh(rest, tick), seed);
    }
  }

  lemma StepSound(d: Digests, rs: seq<Resource>, t: Table, e: Event)
    requires Sound(t.sessions, t.seed)
    ensures var t' := Step(d, rs, t, e); Sound(t'.sessions, t'.seed) && t.seed <= t'.seed
  {
    match e
    case Auth(from, req, random, now) =>
      match Judge(d, req, VerdictOf(t.keys, req)) {
        case Refused(_) =>
        case Granted(token) => GrantSound(d, t, from, req, token, random, now);
      }
    case Heart(from, now) =>
      if t.sessions != [] {
        SoundByIdentity(t.sessions, Beaten(t.sessions, from, now), t.seed);
      }
    case Timer(now) =>
      FreshSound(t.sessions, t.seed, now);
    case _ =>
  }

  /** After every run: one session per address and device, ids ascending, all above 255 and up to the seed. */
  lemma {:induction false} RunSound(d: Digests, rs: seq<Resource>, t: Table, es: seq<Event>)
    requires Sound(t.sessions, t.seed)
    ensures var t' := Run(d, rs, t, es);
            && Sound(t'.sessions, t'.seed) && t.seed <= t'.seed
            && forall i :: 0 <= i < |t'.sessions| ==> 255 < t'.sessions[i].sessionId <= t'.seed
    decreases |es|
  {
    if es != [] {
      StepSound(d, rs, t, es[0]);
      RunSound(d, rs, Step(d, rs, t, es[0]), es[1..]);
    }
  }

  /** After the timer every session was heard of at most the expiry time ago, and nothing else went. */
  lemma TimerLeavesFresh(d: Digests, rs: seq<Resource>, t: Table, now: nat)
    requires Sound(t.sessions, t.seed)
    ensures forall s :: s in Step(d, rs, t, Timer(now)).sessions <==> s in t.sessions && s.heart + 120000 >= now
  {
    FreshPartitions(t.sessions, now);
    assert forall s :: s in t.sessions ==> s.sessionId != 0;
  }

  // ----- how long a session lives -----

  predicate Live(sessions: seq<Session>, id: int) {
    exists i :: 0 <= i < |sessions| && sessions[i].sessionId == id
  }

  /** The time at which the session of this key was last heard of after the event. */
  function Heard(d: Digests, keys: Keys, e: Event, addr: Addr, device: seq<byte>, last: nat): nat {
    match e
    case Auth(from, req, _, now) =>
      if Judge(d, req, VerdictOf(keys, req)).Granted? && from == addr && CStr(DeviceSum(d, req)) == device then now else last
    case Heart(from, now) => if from == addr then now else last
    case _ => last
  }

  /** No timer of the run comes more than the expiry time after the session was last heard of. */
  predicate KeptAlive(d: Digests, rs: seq<Resource>, t: Table, es: seq<Event>, addr: Addr, device: seq<byte>, last: nat)
    decreases |es|
  {
    es == []
    || ((es[0].Timer? ==> es[0].now <= last + 120000)
        && KeptAlive(d, rs, Step(d, rs, t, es[0]), es[1..], addr, device, Heard(d, t.keys, es[0], addr, device, last)))
  }

  lemma GrantedHasFields(d: Digests, req: AuthRequest, v: K.Verdict)
    requires Judge(d, req, v).Granted?
    ensures Present(req.prodKey) && Present(req.deviceName) && Present(req.randomKey) && WellFormedKey(req)
  {
  }

  /** The session at position `k` survives a step, with its new hearing time, exactly if the step is not
      a timer that finds it stale. */
  lemma StepMoves(d: Digests, rs: seq<Resource>, t: Table, e: Event, k: nat) returns (k': nat)
    requires Sound(t.sessions, t.seed) && k < |t.sessions|
    ensures var s, ss := t.sessions[k], Step(d, rs, t, e).sessions;
            if e.Timer? && e.now > s.heart + HEART_EXPIRE then !Live(ss, s.sessionId)
            else k' < |ss| && SameIdentity(s, ss[k']) && ss[k'].heart == Heard(d, t.keys, e, s.addr, CStr(s.pkdn), s.heart)
  {
    hide Judge, VerdictOf, DeviceSum;
    k' := k;
    match e {
      case Auth(from, req, random, now) =>
        if Judge(d, req, VerdictOf(t.keys, req)).Granted? {
          GrantedHasFields(d, req, VerdictOf(t.keys, req));
          OthersKeepKey(t, from, DeviceSum(d, req), k);
        }
      case Timer(now) => k' := TimerMoves(t, now, k);
      case _ =>
    }
  }

  /** Authentication finds the session of its own key, and leaves the others alone. */
  lemma OthersKeepKey(t: Table, from: Addr, ck: Checksum, k: nat)
    requires Sound(t.sessions, t.seed) && k < |t.sessions|
    ensures var s := t.sessions[k]; Find(t.sessions, from, ck) == k <==> from == s.addr && CStr(ck) == CStr(s.pkdn)
  {
    FindSeesKeys(t.sessions, from, ck);
    var i := Find(t.sessions, from, ck);
    if i < |t.sessions| && i != k {
      assert SameKey(t.sessions[if i < k then i else k], t.sessions[if i < k then k else i])
             <==> SameKey(t.sessions[i], t.sessions[k]);
    }
  }

  lemma TimerMoves(t: Table, now: nat, k: nat) returns (k': nat)
    requires Sound(t.sessions, t.seed) && k < |t.sessions|
    ensures var s, ss := t.sessions[k], Fresh(t.sessions, now);
            if now > s.heart + HEART_EXPIRE then !Live(ss, s.sessionId) else k' < |ss| && ss[k'] == s
  {
    var s, ss := t.sessions[k], Fresh(t.sessions, now);
    FreshPartitions(t.sessions, now);
    k' := k;
    if !Stale(s, now) {
      k' :| 0 <= k' < |ss| && ss[k'] == s;
    } else {
      forall j | 0 <= j < |ss| ensures ss[j].sessionId != s.sessionId {
        assert ss[j] in t.sessions && ss[j] != s;
      }
    }
  }

  /** An id that is not in the table is not reissued. */
  lemma StepForgets(d: Digests, rs: seq<Resource>, t: Table, e: Event, id: int)
    requires Sound(t.sessions, t.seed) && id <= t.seed && !Live(t.sessions, id)
    ensures var t' := Step(d, rs, t, e); !Live(t'.sessions, id) && id <= t'.seed
  {
    var t' := Step(d, rs, t, e);
    StepSound(d, rs, t, e);
    match e
    case Timer(now) =>
      FreshPartitions(t.sessions, now);
      forall j | 0 <= j < |t'.sessions| ensures t'.sessions[j].sessionId != id {
        assert t'.sessions[j] in t.sessions;
      }
    case _ =>
  }

  lemma {:induction false} RunForgets(d: Digests, rs: seq<Resource>, t: Table, es: seq<Event>, id: int)
    requires Sound(t.sessions, t.seed) && id <= t.seed && !Live(t.sessions, id)
    ensures !Live(Run(d, rs, t, es).sessions, id)
    decreases |es|
  {
    if es != [] {
      StepSound(d, rs, t, es[0]);
      StepForgets(d, rs, t, es[0], id);
      RunForgets(d, rs, Step(d, rs, t, es[0]), es[1..], id);
    }
  }

  /** A session is alive after a run exactly if no timer came more than 120000 ms after it was last heard
      of, by a heartbeat from its address or a renewed authentication of its key. */
  lemma {:induction false} AliveExactly(d: Digests, rs: seq<Resource>, t: Table, es: seq<Event>, k: nat)
    requires Sound(t.sessions, t.seed) && k < |t.sessions|
    ensures var s := t.sessions[k];
            Live(Run(d, rs, t, es).sessions, s.sessionId) <==> KeptAlive(d, rs, t, es, s.addr, CStr(s.pkdn), s.heart)
    decreases |es|
  {
    var s := t.sessions[k];
    if es != [] {
      hide Step, Heard;
      var t1 := Step(d, rs, t, es[0]);
      StepSound(d, rs, t, es[0]);
      var k1 := StepMoves(d, rs, t, es[0], k);
      if es[0].Timer? && es[0].now > s.heart + HEART_EXPIRE {
        RunForgets(d, rs, t1, es[1..], s.sessionId);
      } else {
        AliveExactly(d, rs, t1, es[1..], k1);
      }
    }
  }

  // ----- which checksums the comparison tells apart -----

  lemma SameSumSeesCStr(a: Checksum, b: Checksum)
    ensures SameSum(a, b) <==> CStr(a) == CStr(b)
  {
    StrncmpSeesCStr(a, b);
  }

  /** No zero among the first five bytes. */
  predicate Clear(a: Checksum) {
    forall i :: 0 <= i < 5 ==> a[i] != 0
  }

  lemma {:induction false} CStrOfClear(a: seq<byte>, b: seq<byte>)
    requires |a| == |b| && (forall i :: 0 <= i < |a| - 1 ==> a[i] != 0) && CStr(a) == CStr(b)
    ensures a == b
  {
    if |a| == 1 {
      assert a[1..] == [] && b[1..] == [];
    } else if |a| > 1 {
      assert CStr(a)[0] == a[0] && CStr(a)[1..] == CStr(a[1..]);
      assert b[0] != 0 && CStr(b)[0] == b[0] && CStr(b)[1..] == CStr(b[1..]);
      CStrOfClear(a[1..], b[1..]);
      assert a == [a[0]] + a[1..] && b == [b[0]] + b[1..];
    }
  }

  /** Another checksum that the comparison takes for this one: the byte after the first zero is changed. */
  function Twin(a: Checksum): (b: Checksum)
    requires !Clear(a)
    ensures b != a && SameSum(b, a)
  {
    var last := a[..5] + [(a[5] as int + 1) % 0x100];
    TwinMatches(a, last);
    last
  }

  lemma TwinMatches(a: Checksum, b: Checksum)
    requires !Clear(a) && b == a[..5] + [(a[5] as int + 1) % 0x100]
    ensures b != a && SameSum(b, a)
  {
    assert b[5] != a[5];
    var i :| 0 <= i < 5 && a[i] == 0;
    StrncmpStops(b, a, i);
  }

  lemma {:induction false} StrncmpStops(b: seq<byte>, a: seq<byte>, i: nat)
    requires |a| == |b| && i < |a| - 1 && a[i] == 0 && b[..i + 1] == a[..i + 1]
    ensures StrncmpEqual(b, a, |a|)
  {
    assert b[0] == b[..i + 1][0] == a[0];
    if i > 0 {
      assert a[1..][..i] == a[..i + 1][1..] && b[1..][..i] == b[..i + 1][1..];
      StrncmpStops(b[1..], a[1..], i - 1);
    }
  }

  /** The comparison tells a checksum from every other one exactly if it has no zero among its first five
      bytes. */
  lemma ChecksumIsToldApartExactly(a: Checksum)
    ensures (forall b: Checksum :: SameSum(b, a) ==> b == a) <==> Clear(a)
  {
    if Clear(a) {
      forall b: Checksum | SameSum(b, a) ensures b == a {
        StrncmpSeesCStr(b, a);
        CStrOfClear(a, b);
      }
    } else {
      var b := Twin(a);
      assert SameSum(b, a) && b != a;
    }
  }

  // ----- what a callback proves -----

  predicate Entitled(s: Session, from: Addr, ck: Checksum, id: int) {
    Matches(s, from, ck) && s.sessionId == id
  }

  /** A protected request reaches the callback of its resource exactly if it carries the id of the live
      session of its address whose checksum matches that resource's, and there is memory for its payload;
      it is refused exactly if the resource exists and the id is not that one.  If the resource's checksum
      has no zero among its first five bytes, the session is one for the resource's own checksum. */
  lemma DispatchExactly(d: Digests, rs: seq<Resource>, t: Table, from: Addr, m: Request, r: nat)
    requires Sound(t.sessions, t.seed) && r == ResourceOf(rs, d, m.path) < |rs|
    ensures var out := Dispatch(d, rs, t.sessions, from, m);
            var entitled := exists s :: s in t.sessions && Entitled(s, from, rs[r].pkdn, m.sessionId);
            && (Unauthorized(from) in out <==> !entitled)
            && ((exists o :: o in out && o.Called?) <==> entitled && (m.payloadLen < 256 || m.alloc))
            && (m.sessionId <= SEED ==> !entitled)
    ensures Clear(rs[r].pkdn) ==>
              forall s :: s in t.sessions && Entitled(s, from, rs[r].pkdn, m.sessionId) ==> s.pkdn == rs[r].pkdn
  {
    var i := Find(t.sessions, from, rs[r].pkdn);
    var out := Dispatch(d, rs, t.sessions, from, m);
    FindIsOnly(t, from, rs[r].pkdn);
    ChecksumIsToldApartExactly(rs[r].pkdn);
    hide SameSum, CStr;
    if i < |t.sessions| && t.sessions[i].sessionId == m.sessionId {
      assert t.sessions[i] in t.sessions && Entitled(t.sessions[i], from, rs[r].pkdn, m.sessionId);
      var head := if m.observe.Some? && ObserveIsZero(m.observe.value, m.junk) then [Observed(from, m.path)] else [];
      assert Unauthorized(from) !in head;
      if m.payloadLen < 256 || m.alloc {
        var called := Called(from, rs[r].cb, m.sessionId, rs[r].pkdn, t.sessions[i].sessionKey);
        assert out == head + [called] && out[|head|] == called && called in out;
      } else {
        assert out == head + [];
      }
    } else {
      assert out == [Unauthorized(from)] && out[0] == Unauthorized(from);
    }
  }

  lemma FindIsOnly(t: Table, from: Addr, ck: Checksum)
    requires Sound(t.sessions, t.seed)
    ensures var i := Find(t.sessions, from, ck);
            forall s :: s in t.sessions && Matches(s, from, ck) ==> i < |t.sessions| && s == t.sessions[i]
  {
    var i := Find(t.sessions, from, ck);
    FindSeesKeys(t.sessions, from, ck);
    forall s | s in t.sessions && Matches(s, from, ck) ensures i < |t.sessions| && s == t.sessions[i] {
      var j :| 0 <= j < |t.sessions| && t.sessions[j] == s;
      StrncmpSeesCStr(s.pkdn, ck);
      assert i < j ==> SameKey(t.sessions[i], t.sessions[j]);
    }
  }

  /** The history is sound: every session and every callback goes back to a grant, and a session id is
      granted for one address and one device only. */
  predicate Witnessed(t: Table) {
    && (forall i :: 0 <= i < |t.sessions| ==>
          Grant(t.sessions[i].addr, CStr(t.sessions[i].pkdn), t.sessions[i].sessionId) in t.grants)
    && (forall c :: c in t.log && c.Called? ==> Grant(c.from, CStr(c.device), c.sessionId) in t.grants)
    && (forall g :: g in t.grants ==> g.sessionId <= t.seed)
    && (forall g, h :: g in t.grants && h in t.grants && g.sessionId == h.sessionId ==> g == h)
  }

  lemma GrantWitnessed(d: Digests, t: Table, from: Addr, req: AuthRequest, token: string, random: string, now: nat)
    requires Sound(t.sessions, t.seed) && Witnessed(t)
    requires Present(req.prodKey) && Present(req.deviceName) && Present(req.randomKey)
    ensures Witnessed(GrantStep(d, t, from, req, token, random, now))
  {
    var ck := DeviceSum(d, req);
    FindSeesKeys(t.sessions, from, ck);
  }

  lemma FreshWitnessed(t: Table, now: nat)
    requires Witnessed(t)
    ensures Witnessed(t.(sessions := Fresh(t.sessions, now)))
  {
    hide Stale, Fresh, CStr;
    FreshPartitions(t.sessions, now);
    var ss := Fresh(t.sessions, now);
    forall i | 0 <= i < |ss| ensures Grant(ss[i].addr, CStr(ss[i].pkdn), ss[i].sessionId) in t.grants {
      assert ss[i] in t.sessions;
    }
  }

  lemma DispatchWitnessed(d: Digests, rs: seq<Resource>, t: Table, from: Addr, m: Request)
    requires Witnessed(t)
    ensures Witnessed(t.(log := t.log + Dispatch(d, rs, t.sessions, from, m)))
  {
    hide CStr, SameSum;
    var r := ResourceOf(rs, d, m.path);
    if r < |rs| {
      FindSeesKeys(t.sessions, from, rs[r].pkdn);
    }
  }

  lemma BeatenWitnessed(t: Table, from: Addr, now: nat)
    requires Witnessed(t)
    ensures Witnessed(HeartStep(t, from, now))
  {
    hide CStr, Beats;
  }

  lemma StepWitnessed(d: Digests, rs: seq<Resource>, t: Table, e: Event)
    requires Sound(t.sessions, t.seed) && Witnessed(t)
    ensures Witnessed(Step(d, rs, t, e))
  {
    match e
    case Auth(from, req, random, now) =>
      match Judge(d, req, VerdictOf(t.keys, req)) {
        case Refused(_) =>
        case Granted(token) => GrantWitnessed(d, t, from, req, token, random, now);
      }
    case Heart(from, now) => BeatenWitnessed(t, from, now);
    case Timer(now) => FreshWitnessed(t, now);
    case Receive(from, msg) => DispatchWitnessed(d, rs, t, from, msg);
    case _ =>
  }

  lemma {:induction false} RunWitnessed(d: Digests, rs: seq<Resource>, t: Table, es: seq<Event>)
    requires Sound(t.sessions, t.seed) && Witnessed(t)
    ensures Witnessed(Run(d, rs, t, es))
    decreases |es|
  {
    if es != [] {
      StepSound(d, rs, t, es[0]);
      StepWitnessed(d, rs, t, es[0]);
      RunWitnessed(d, rs, Step(d, rs, t, es[0]), es[1..]);
    }
  }

  /** The secret is the one stored, now, under the prefix of the access key. */
  predicate StoredUnder(keys: Keys, prefix: string, secret: string) {
    exists k :: k in keys.store.keys + keys.groups && k.prefix == prefix && k.secret == secret
  }

  /** The event is an authentication by this address that the program has reason to grant: the access key's
      prefix is stored, its sequence number is in none of the revoked blocks of three, and the random key is
      signed with the token made from the stored secret. */
  ghost predicate Authenticates(d: Digests, keys: Keys, e: Event, from: Addr) {
    && e.Auth? && e.from == from
    && WellFormedKey(e.req) && Present(e.req.randomKey) && Present(e.req.prodKey) && Present(e.req.deviceName)
    && var ak := e.req.accessKey.value;
    && |ak| == 13 && !K.InBlocks(keys.revocation, ak[10..])
    && exists secret :: StoredUnder(keys, ak[..8], secret)
                        && e.req.sign == Some(d.hmac(e.req.randomKey.value, d.hmac(ak, secret)))
  }

  /** What the judgement says about the key store. */
  lemma GrantedMeansStored(d: Digests, keys: Keys, e: Event)
    requires e.Auth? && Judge(d, e.req, VerdictOf(keys, e.req)).Granted?
    ensures Authenticates(d, keys, e, e.from)
  {
    var ak := e.req.accessKey.value;
    var v := VerdictOf(keys, e.req);
    K.BlocksAre(keys.revocation, ak[10..]);
    hide K.InBlocks, K.IsRevoked;
    var i, g := K.Find(keys.store.keys, ak[..8]), K.Find(keys.groups, ak[..8]);
    var all := keys.store.keys + keys.groups;
    if i < |keys.store.keys| {
      assert all[i] == keys.store.keys[i];
    } else {
      assert all[|keys.store.keys| + g] == keys.groups[g];
    }
    assert StoredUnder(keys, ak[..8], v.secret);
  }

  /** The `i`-th event of the run authenticates the address, at the state the run is then in, for a device
      whose checksum is `ck`. */
  ghost predicate AuthenticatedBy(d: Digests, rs: seq<Resource>, t: Table, es: seq<Event>, i: nat, from: Addr, ck: Checksum) {
    && i < |es|
    && Authenticates(d, Run(d, rs, t, es[..i]).keys, es[i], from)
    && DeviceSum(d, es[i].req) == ck
  }

  lemma {:induction false} GrantsAreEarned(d: Digests, rs: seq<Resource>, t: Table, es: seq<Event>, g: Grant) returns (i: nat)
    requires g in Run(d, rs, t, es).grants && g !in t.grants
    ensures i < |es| && es[i].Auth? && Present(es[i].req.prodKey) && Present(es[i].req.deviceName)
    ensures AuthenticatedBy(d, rs, t, es, i, g.addr, DeviceSum(d, es[i].req)) && CStr(DeviceSum(d, es[i].req)) == g.device
    decreases |es|
  {
    hide Judge, Authenticates, CStr;
    var e, t1 := es[0], Step(d, rs, t, es[0]);
    if g in t1.grants {
      i := 0;
      assert es[..0] == [] && Judge(d, e.req, VerdictOf(t.keys, e.req)).Granted?;
      GrantedHasFields(d, e.req, VerdictOf(t.keys, e.req));
      FindSeesKeys(t.sessions, e.from, DeviceSum(d, e.req));
      GrantedMeansStored(d, t.keys, e);
    } else {
      i := GrantsAreEarned(d, rs, t1, es[1..], g);
      assert es[1..][i] == es[i + 1] && es[..i + 1][1..] == es[1..][..i] && es[..i + 1][0] == e;
      i := i + 1;
    }
  }

  /** In every run from the start, a callback of a protected resource is preceded by an authentication from
      the same address, with a key stored and not revoked at that time, for a device whose checksum the
      comparison takes for that of the resource. */
  lemma CallbackNeedsAuthentication(d: Digests, rs: seq<Resource>, groups: seq<K.Key>, es: seq<Event>, c: Output)
    returns (i: nat, ck: Checksum)
    requires c in Run(d, rs, Initial(groups), es).log && c.Called?
    ensures AuthenticatedBy(d, rs, Initial(groups), es, i, c.from, ck) && SameSum(ck, c.device)
    ensures Clear(c.device) ==> ck == c.device
  {
    hide AuthenticatedBy, Run, Step, DeviceSum, SameSum, CStr, Clear;
    RunWitnessed(d, rs, Initial(groups), es);
    i := GrantsAreEarned(d, rs, Initial(groups), es, Grant(c.from, CStr(c.device), c.sessionId));
    ck := DeviceSum(d, es[i].req);
    SameSumSeesCStr(ck, c.device);
    ChecksumIsToldApartExactly(c.device);
  }

  /** Every callback for this checksum, in every run of every program with such digests and resources, is
      preceded by an authentication of its address for the very same checksum. */
  ghost predicate Guarded(ck: Checksum) {
    forall d, gs, groups, es, c :: c in Run(d, Registered(d, gs), Initial(groups), es).log && c.Called? && c.device == ck ==>
      exists i :: AuthenticatedBy(d, Registered(d, gs), Initial(groups), es, i, c.from, ck)
  }

  const KEY := K.Key("abcdefgh", "secret", 0)
  const CLIENT := Addr("10.0.0.2", 5683)
  const AUTH_REQUEST := AuthRequest(true, Some("abcdefgh00123"), Some("r"), Some("m"), Some("pk"), Some("dn"))

  /** The client's device, dn of pk, has checksum `b`; every other has checksum `a`. */
  function TwoDevices(a: Checksum, b: Checksum): Digests {
    Digests((m, k) => "m", (m, k) => "key", p => if p == "pkdn" then b else a, p => [1, 0, 0, 0, 0])
  }

  /** The resource belongs to another device. */
  const SCENE_RESOURCE := Registration("pk2", "dn2", "/any", 5, true)
  const SCENE_REQUEST := Request("/any", 256, None, 0, 0, true)

  function SceneEvents(): seq<Event> {
    [AddKey(KEY, true), Auth(CLIENT, AUTH_REQUEST, "x", 0), Receive(CLIENT, SCENE_REQUEST)]
  }

  lemma SceneIsRegistered(a: Checksum, b: Checksum)
    ensures Registered(TwoDevices(a, b), [SCENE_RESOURCE]) == [Normal([1, 0, 0, 0, 0], a, 5)]
    ensures Fit("pk" + "dn", 100) == "pkdn"
  {
    var gs, path := [SCENE_RESOURCE], SCENE_RESOURCE.path;
    assert path[1..] == "any" && "any"[1..] == "ny" && "ny"[1..] == "y";
    assert !IsFilter("y") && !IsFilter("ny") && !IsFilter("any") && !IsFilter(path);
    assert gs[..0] == [] && |"pk2" + "dn2"| == 6 && |"pkdn"| == 4;
    assert Registered(TwoDevices(a, b), gs[..0]) == [];
    assert [] + [Normal([1, 0, 0, 0, 0], a, 5)] == [Normal([1, 0, 0, 0, 0], a, 5)];
  }

  /** A client that has authenticated for a device of checksum `b` only reaches the callback of a resource
      that is registered for another device, of checksum `a`, if the comparison takes one for the other. */
  lemma MatchingChecksumReachesCallback(a: Checksum, b: Checksum)
    requires SameSum(b, a)
    ensures var d := TwoDevices(a, b);
            Called(CLIENT, 5, 256, a, "key") in Run(d, Registered(d, [SCENE_RESOURCE]), Initial([]), SceneEvents()).log
  {
    hide SameSum, CStr, Registered;
    SceneIsRegistered(a, b);
    var d, rs, es := TwoDevices(a, b), [Normal([1, 0, 0, 0, 0], a, 5)], SceneEvents();
    var t0 := Initial([]);
    var t1 := Step(d, rs, t0, es[0]);
    KeyIsAdded();
    assert t1.keys == Keys(K.Store([KEY], 1), [], None);
    var t2 := Step(d, rs, t1, es[1]);
    SceneIsGranted(d, t1.keys);
    assert Find(t1.sessions, CLIENT, b) == 0 && t1.sessions == [];
    assert t2.sessions == [Session(CLIENT, 256, b, "x", "key", 0, 0)];
    assert Matches(t2.sessions[0], CLIENT, a) && Find(t2.sessions, CLIENT, a) == 0;
    assert ResourceOf(rs, d, "/any") == 0;
    var t3 := Step(d, rs, t2, es[2]);
    assert Called(CLIENT, 5, 256, a, "key") in t3.log by {
      assert t3.log[|t3.log| - 1] == Called(CLIENT, 5, 256, a, "key");
    }
    RunOfThree(d, rs, t0, es);
  }

  lemma KeyIsAdded()
    ensures K.AddStep(K.Store([], 0), KEY, true).0 == K.Store([KEY], 1)
  {
    assert |"abcdefgh"| == 8;
    K.AddOnGood(K.Store([], 0), KEY, true);
    assert [] + [KEY] == [KEY];
  }

  lemma SceneIsGranted(d: Digests, keys: Keys)
    requires keys == Keys(K.Store([KEY], 1), [], None)
    requires d.hmac == ((m: string, k: string) => "m")
    ensures VerdictOf(keys, AUTH_REQUEST) == K.Legal("secret")
    ensures Judge(d, AUTH_REQUEST, K.Legal("secret")) == Granted("m")
  {
    assert |"abcdefgh00123"| == 13 && "abcdefgh00123"[..8] == "abcdefgh";
    assert K.Find([KEY], "abcdefgh") == 0;
  }

  lemma RunOfThree(d: Digests, rs: seq<Resource>, t: Table, es: seq<Event>)
    requires |es| == 3
    ensures Run(d, rs, t, es) == Step(d, rs, Step(d, rs, Step(d, rs, t, es[0]), es[1]), es[2])
  {
    hide Step;
    var t1 := Step(d, rs, t, es[0]);
    assert Run(d, rs, t1, es[1..]) == Run(d, rs, Step(d, rs, t1, es[1]), es[1..][1..]);
    assert es[1..][1..] == [es[2]] && [es[2]][1..] == [];
    var t2 := Step(d, rs, t1, es[1]);
    assert Run(d, rs, t2, [es[2]]) == Run(d, rs, Step(d, rs, t2, es[2]), []);
  }

  /** A resource is guarded against clients of other devices exactly if its checksum has no zero among its
      first five bytes. */
  lemma GuardedExactly(a: Checksum)
    ensures Guarded(a) <==> Clear(a)
  {
    hide Run, AuthenticatedBy, SameSum, Registered;
    if Clear(a) {
      forall d, gs, groups, es, c | c in Run(d, Registered(d, gs), Initial(groups), es).log && c.Called? && c.device == a
        ensures exists i :: AuthenticatedBy(d, Registered(d, gs), Initial(groups), es, i, c.from, a)
      {
        var i, ck := CallbackNeedsAuthentication(d, Registered(d, gs), groups, es, c);
      }
    } else {
      var b := Twin(a);
      var d := TwoDevices(a, b);
      MatchingChecksumReachesCallback(a, b);
      forall i: nat ensures !AuthenticatedBy(d, Registered(d, [SCENE_RESOURCE]), Initial([]), SceneEvents(), i, CLIENT, a) {
        OnlyDeviceIs(a, b, Registered(d, [SCENE_RESOURCE]), i);
      }
    }
  }

  lemma OnlyDeviceIs(a: Checksum, b: Checksum, rs: seq<Resource>, i: nat)
    requires a != b
    ensures !AuthenticatedBy(TwoDevices(a, b), rs, Initial([]), SceneEvents(), i, CLIENT, a)
  {
    hide Run, Registered;
    SceneIsRegistered(a, b);
  }

  /** The same with two checksums that differ in all but the zero and what stands before it. */
  lemma OtherDeviceReachesCallback()
    ensures var a, b: Checksum := [0, 2, 2, 2, 2, 2], [0, 1, 1, 1, 1, 1];
            var d := TwoDevices(a, b);
            Called(CLIENT, 5, 256, a, "key") in Run(d, Registered(d, [SCENE_RESOURCE]), Initial([]), SceneEvents()).log
  {
    MatchingChecksumReachesCallback([0, 2, 2, 2, 2, 2], [0, 1, 1, 1, 1, 1]);
  }

  // ----- authentications that fail -----

  /** An authentication that gives no session is still answered with code 200 exactly if its payload has
      no parameters or no access key of the right length. */
  lemma EmptyOkExactly(d: Digests, t: Table, from: Addr, req: AuthRequest, random: string, now: nat)
    requires Sound(t.sessions, t.seed)
    ensures var t' := AuthStep(d, t, from, req, random, now);
            var reply := t'.log[|t.log|];
            && |t'.log| == |t.log| + 1 && reply.AuthReply? && reply.to == from
            && (reply.sessionId == 0 <==> t'.sessions == t.sessions && t'.grants == t.grants)
            && (reply.code == 200 && reply.sessionId == 0 <==> !WellFormedKey(req))
  {
    hide CStr, SameSum;
    if Judge(d, req, VerdictOf(t.keys, req)).Granted? {
      FindSeesKeys(t.sessions, from, DeviceSum(d, req));
      var t' := AuthStep(d, t, from, req, random, now);
      assert |t'.grants| == |t.grants| + 1;
    }
  }

  /** An authentication without parameters is answered 200 and gets no session. */
  lemma UnparsedIsAnsweredOk(d: Digests)
    ensures AuthStep(d, Initial([]), CLIENT, AuthRequest(false, None, None, None, None, None), "x", 0)
         == Initial([]).(log := [AuthReply(CLIENT, 200, 0)])
  {
    assert [] + [AuthReply(CLIENT, 200, 0)] == [AuthReply(CLIENT, 200, 0)];
  }
}
