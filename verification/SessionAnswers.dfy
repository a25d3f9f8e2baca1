/** What a client gets for each of its messages, said in terms of the message and the state it meets: the
    codes of an authentication, the session it leaves, the answer to a heartbeat, and which callback of
    which resource a protected request reaches. */
module SessionAnswers {
  import opened Bytes
  import opened SessionSpec
  import opened SessionRuns
  import K = KeyStore
  import M = CoapMessage

  // ----- authentication -----

  /** The secret that the program goes by for this access key: no block of the revocation list is its
      sequence number, and its prefix is that of a plain key, or else of a group key beside plain ones. */
  ghost predicate InForce(keys: Keys, ak: string, secret: string)
    requires |ak| == 13
  {
    && !K.InBlocks(keys.revocation, ak[10..]) && keys.store.keys != []
    && (K.FirstHas(keys.store.keys, ak[..8], secret)
        || (K.Absent(keys.store.keys, ak[..8]) && K.FirstHas(keys.groups, ak[..8], secret)))
  }

  /** The refusals, with their codes. */
  lemma AuthIsRefused(d: Digests, t: Table, from: Addr, req: AuthRequest, random: string, now: nat, secret: string, code: int)
    requires
      if !(req.parsed && req.accessKey.Some? && |req.accessKey.value| == 13) then code == 200
      else
        var ak := req.accessKey.value;
        if K.InBlocks(t.keys.revocation, ak[10..]) then code == 501
        else if t.keys.store.keys == [] then code == 504
        else if K.Absent(t.keys.store.keys, ak[..8]) && K.Absent(t.keys.groups, ak[..8]) then code == 502
        else
          && InForce(t.keys, ak, secret)
          && if req.randomKey == None || req.randomKey == Some("") then code == 503
             else if req.sign != Some(d.hmac(req.randomKey.value, d.hmac(ak, secret))) then code == 506
             else code == 503 && (req.prodKey == None || req.prodKey == Some("") || req.deviceName == None || req.deviceName == Some(""))
    ensures AuthStep(d, t, from, req, random, now) == t.(log := t.log + [AuthReply(from, code, 0)])
  {
    if WellFormedKey(req) { VerdictIs(t.keys, req, secret); }
    hide K.InBlocks, K.FirstHas, K.Absent, VerdictOf;
  }

  lemma VerdictIs(keys: Keys, req: AuthRequest, secret: string)
    requires req.accessKey.Some? && |req.accessKey.value| == 13 && req.parsed
    ensures var ak, v := req.accessKey.value, VerdictOf(keys, req);
            && (v == K.Revoked <==> K.InBlocks(keys.revocation, ak[10..]))
            && (v == K.ListEmpty <==> !K.InBlocks(keys.revocation, ak[10..]) && keys.store.keys == [])
            && (v == K.UnmatchedPrefix <==> && !K.InBlocks(keys.revocation, ak[10..]) && keys.store.keys != []
                                            && K.Absent(keys.store.keys, ak[..8]) && K.Absent(keys.groups, ak[..8]))
            && (v == K.Legal(secret) <==> InForce(keys, ak, secret))
  {
    var ak := req.accessKey.value;
    K.VerdictExactly(keys.revocation, keys.store.keys, keys.groups, ak[..8], ak[10..], secret);
    hide K.InBlocks, K.FirstHas, K.Absent, K.VerdictOn;
  }

  /** The key of a session: the client's random key and then the server's, cut to 39 characters, digested
      with the token that the stored secret gives for the access key. */
  function SessionKeyOf(d: Digests, client: string, server: string, ak: string, secret: string): string {
    var both := client + server;
    d.sessionKey(if |both| <= 39 then both else both[..39], d.hmac(ak, secret))
  }

  /** The granting: one session, found by its position, is made or renewed, and its id is the answer. */
  lemma AuthIsGranted(d: Digests, t: Table, from: Addr, req: AuthRequest, random: string, now: nat, secret: string) returns (k: nat)
    requires Sound(t.sessions, t.seed)
    requires req.parsed && req.accessKey.Some? && |req.accessKey.value| == 13 && InForce(t.keys, req.accessKey.value, secret)
    requires Present(req.randomKey) && Present(req.prodKey) && Present(req.deviceName)
    requires req.sign == Some(d.hmac(req.randomKey.value, d.hmac(req.accessKey.value, secret)))
    ensures var t', ck := AuthStep(d, t, from, req, random, now), DeviceSum(d, req);
            && k < |t'.sessions| && t'.keys == t.keys
            && var s := t'.sessions[k];
            && s.addr == from && CStr(s.pkdn) == CStr(ck)
            && s.sessionKey == SessionKeyOf(d, req.randomKey.value, s.randomKey, req.accessKey.value, secret)
            && s.authed == s.heart == now
            && t'.log == t.log + [AuthReply(from, 200, s.sessionId)]
            && (forall j :: 0 <= j < |t.sessions| && j != k ==> j < |t'.sessions| && t'.sessions[j] == t.sessions[j])
            && if k < |t.sessions| then
                 && |t'.sessions| == |t.sessions| && t'.seed == t.seed
                 && s.sessionId == t.sessions[k].sessionId && s.randomKey == t.sessions[k].randomKey && s.pkdn == t.sessions[k].pkdn
               else
                 && |t'.sessions| == |t.sessions| + 1 && t'.seed == t.seed + 1 == s.sessionId
                 && s.randomKey == random && s.pkdn == ck
                 && forall j :: 0 <= j < |t.sessions| ==> t.sessions[j].addr != from || CStr(t.sessions[j].pkdn) != CStr(ck)
  {
    VerdictIs(t.keys, req, secret);
    hide K.InBlocks, K.FirstHas, K.Absent, VerdictOf, CStr, SameSum, DeviceSum, Sound;
    var ck := DeviceSum(d, req);
    FindSeesKeys(t.sessions, from, ck);
    k := Find(t.sessions, from, ck);
  }

  /** The device's checksum is the digest of product key and device name, cut to 99 characters. */
  lemma DeviceSumIs(d: Digests, req: AuthRequest)
    requires Present(req.prodKey) && Present(req.deviceName)
    ensures var both := req.prodKey.value + req.deviceName.value;
            DeviceSum(d, req) == d.device(if |both| <= 99 then both else both[..99])
  {
  }

  /** A revocation list that has been set is in force: an authentication with a sequence number in one of its
      blocks is refused with code 501. */
  lemma RevocationIsInForce(d: Digests, rs: seq<Resource>, t: Table, l: string, i: nat, from: Addr, req: AuthRequest, random: string, now: nat)
    requires req.parsed && req.accessKey.Some? && |req.accessKey.value| == 13
    requires 3 * i + 3 <= |l| && l[3 * i..3 * i + 3] == req.accessKey.value[10..]
    ensures var t1 := Step(d, rs, t, SetRevocation(Some(l)));
            Step(d, rs, t1, Auth(from, req, random, now)) == t1.(log := t.log + [AuthReply(from, 501, 0)])
  {
    AuthIsRefused(d, Step(d, rs, t, SetRevocation(Some(l))), from, req, random, now, "", 501);
  }

  /** Keys are added and removed as the key store does it, and nothing else changes. */
  lemma KeyEventsReachStore(d: Digests, rs: seq<Resource>, t: Table, k: K.Key, alloc: bool)
    ensures Step(d, rs, t, AddKey(k, alloc)) == t.(keys := t.keys.(store := K.Step(t.keys.store, K.Add(k, alloc))))
    ensures Step(d, rs, t, RemoveKey(k.prefix)) == t.(keys := t.keys.(store := K.Step(t.keys.store, K.Remove(k.prefix))))
  {
  }

  // ----- heartbeat -----

  /** A heartbeat renews every session of its address and no other; the answer tells whether there was one;
      without any session there is no answer. */
  lemma HeartAnswers(t: Table, from: Addr, now: nat)
    requires Sound(t.sessions, t.seed)
    ensures var t' := HeartStep(t, from, now);
            && t' == t.(sessions := t'.sessions, log := t'.log) && |t'.sessions| == |t.sessions|
            && (forall i :: 0 <= i < |t.sessions| ==>
                  t'.sessions[i] == if t.sessions[i].addr == from then t.sessions[i].(heart := now) else t.sessions[i])
            && t'.log == if t.sessions == [] then t.log else t.log + [HeartReply(from, exists s :: s in t.sessions && s.addr == from)]
  {
    assert forall s :: s in t.sessions ==> s.sessionId != 0;
    if s :| s in t.sessions && s.addr == from {
      var i :| 0 <= i < |t.sessions| && t.sessions[i] == s;
      assert Beats(t.sessions[i], from);
    }
    if i :| 0 <= i < |t.sessions| && Beats(t.sessions[i], from) {
      assert t.sessions[i] in t.sessions && t.sessions[i].addr == from;
    }
  }

  // ----- protected resources -----

  /** The path holds "/#" somewhere. */
  lemma {:induction false} FilterExactly(path: string)
    ensures IsFilter(path) <==> exists i :: 0 <= i < |path| - 1 && path[i] == '/' && path[i + 1] == '#'
  {
    if |path| >= 2 {
      FilterExactly(path[1..]);
      if i :| 0 <= i < |path| - 1 && path[i] == '/' && path[i + 1] == '#' {
        if i > 0 { assert path[1..][i - 1] == '/' && path[1..][i] == '#'; }
      }
      if i :| 0 <= i < |path| - 2 && path[1..][i] == '/' && path[1..][i + 1] == '#' {
        assert path[i + 1] == '/' && path[i + 1 + 1] == '#';
      }
    }
  }

  /** A registration adds its resource at the end, with its callback and the checksum that authentication
      computes for the same device, unless memory is short or its plain path is there already. */
  lemma RegisterAdds(d: Digests, rs: seq<Resource>, g: Registration, req: AuthRequest)
    requires Present(req.prodKey) && Present(req.deviceName) && req.prodKey.value == g.prodKey && req.deviceName.value == g.deviceName
    ensures var ck, filter := DeviceSum(d, req), exists i :: 0 <= i < |g.path| - 1 && g.path[i] == '/' && g.path[i + 1] == '#';
            Register(d, rs, g)
            == if !g.alloc then rs
               else if filter then rs + [Filter(g.path, ck, g.cb)]
               else if exists i :: 0 <= i < |rs| && rs[i].Normal? && rs[i].sum == d.path(g.path) then rs
               else rs + [Normal(d.path(g.path), ck, g.cb)]
  {
    FilterExactly(g.path);
  }

  /** A plain resource serves the paths of its digest; one registered as "prefix/#" serves exactly the paths
      that start with "prefix/". */
  lemma ServesExactly(d: Digests, path: string, lead: string, ck: Checksum, cb: int, sum: seq<byte>)
    ensures Serves(Normal(sum, ck, cb), d, path) <==> sum == d.path(path)
    ensures Serves(Filter(lead + "#", ck, cb), d, path) <==> |lead| <= |path| && path[..|lead|] == lead
  {
    var f := lead + "#";
    assert f[..|f| - 1] == lead;
  }

  // ----- protected requests -----

  /** A request for a path that no resource serves has no effect. */
  lemma UnservedIsDropped(d: Digests, rs: seq<Resource>, sessions: seq<Session>, from: Addr, m: Request)
    requires forall i :: 0 <= i < |rs| ==> !Serves(rs[i], d, m.path)
    ensures Dispatch(d, rs, sessions, from, m) == []
  {
  }

  /** A request is for the first resource that serves its path.  With the id of the session of its address
      whose checksum compares equal to that of this resource, it runs this resource's callback with the key
      of this session, if there is memory, and is entered as an observer first if it asks for that; without
      such a session it is refused. */
  lemma DispatchAnswers(d: Digests, rs: seq<Resource>, t: Table, from: Addr, m: Request, r: nat)
    requires Sound(t.sessions, t.seed) && r < |rs| && Serves(rs[r], d, m.path) && forall j :: 0 <= j < r ==> !Serves(rs[j], d, m.path)
    ensures forall s :: s in t.sessions && s.addr == from && CStr(s.pkdn) == CStr(rs[r].pkdn) && s.sessionId == m.sessionId ==>
              Dispatch(d, rs, t.sessions, from, m)
              == (if m.observe.Some? && M.ReadInto(m.junk, m.observe.value) == 0 then [Observed(from, m.path)] else [])
                 + (if m.payloadLen < 256 || m.alloc then [Called(from, rs[r].cb, m.sessionId, rs[r].pkdn, s.sessionKey)] else [])
    ensures (forall s :: s in t.sessions ==> s.addr != from || CStr(s.pkdn) != CStr(rs[r].pkdn) || s.sessionId != m.sessionId) ==>
              Dispatch(d, rs, t.sessions, from, m) == [Unauthorized(from)]
  {
    assert ResourceOf(rs, d, m.path) == r;
    var ck := rs[r].pkdn;
    FindIsOnly(t, from, ck);
    FindSeesKeys(t.sessions, from, ck);
    forall s | s in t.sessions && s.addr == from && CStr(s.pkdn) == CStr(ck) ensures Matches(s, from, ck) {
      SameSumSeesCStr(s.pkdn, ck);
    }
    hide Sound, CStr, SameSum, Serves, ResourceOf;
  }
}
