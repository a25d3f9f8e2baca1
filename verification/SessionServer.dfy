/** The session table as the program keeps it; every method is one step of the state machine. */
module SessionServer {
  import opened Bytes
  import opened SessionSpec
  import K = KeyStore

  /** alcs_resource_register_secure: the list is walked for a plain path with the same checksum. */
  method RegisterSecure(d: Digests, resources: seq<Resource>, g: Registration) returns (list: seq<Resource>)
    ensures list == Register(d, resources, g)
  {
    list := resources;
    if !g.alloc {
      return;
    }
    var filter := IsFilter(g.path);
    var sum, dup := d.path(g.path), false;
    for i := 0 to |resources|
      invariant dup <==> !filter && SumTaken(resources[..i], sum)
    {
      assert resources[..i + 1] == resources[..i] + [resources[i]];
      if !filter && resources[i].Normal? && resources[i].sum == sum {
        dup := true;
        assert resources[..i + 1][i] == resources[i];
      } else {
        assert forall j :: 0 <= j < i ==> resources[..i + 1][j] == resources[..i][j];
      }
    }
    assert resources[..|resources|] == resources;
    if !dup {
      var ck := d.device(Fit(g.prodKey + g.deviceName, 100));
      list := resources + [if filter then Filter(g.path, ck, g.cb) else Normal(sum, ck, g.cb)];
    }
  }

  /** The walk of a heartbeat has passed `i` sessions. */
  ghost predicate Beating(was: seq<Session>, list: seq<Session>, i: nat, found: bool, remote: Addr, now: nat) {
    && i <= |list| == |was|
    && (forall j :: 0 <= j < |was| ==> list[j] == if j < i then Beaten(was, remote, now)[j] else was[j])
    && (found <==> exists j :: 0 <= j < i && Beats(was[j], remote))
  }

  lemma BeatingStarts(was: seq<Session>, remote: Addr, now: nat)
    ensures Beating(was, was, 0, false, remote, now)
  {
  }

  lemma BeatingMoves(was: seq<Session>, list: seq<Session>, i: nat, found: bool, remote: Addr, now: nat)
    requires Beating(was, list, i, found, remote, now) && i < |was|
    ensures if Beats(list[i], remote) then Beating(was, list[i := list[i].(heart := now)], i + 1, true, remote, now)
            else Beating(was, list, i + 1, found, remote, now)
  {
  }

  lemma BeatingEnds(was: seq<Session>, list: seq<Session>, found: bool, remote: Addr, now: nat)
    requires Beating(was, list, |was|, found, remote, now)
    ensures list == Beaten(was, remote, now) && found == SomeBeats(was, remote)
  {
  }

  /** The walk that drops stale sessions, with `seen` of them looked at and `kept` left. */
  ghost predicate Expiring(l0: seq<Session>, seen: nat, kept: seq<Session>, tick: nat) {
    seen <= |l0| && |kept| <= seen && kept + Fresh(l0[seen..], tick) == Fresh(l0, tick)
  }

  lemma ExpiringStarts(l0: seq<Session>, tick: nat)
    ensures Expiring(l0, 0, [], tick) && Boundary(l0, [], l0, 0)
  {
    assert l0[0..] == l0 && [] + Fresh(l0, tick) == Fresh(l0, tick) && [] + l0 == l0;
  }

  lemma ExpiringStep(l0: seq<Session>, seen: nat, kept: seq<Session>, tick: nat)
    requires Expiring(l0, seen, kept, tick) && seen < |l0|
    ensures Expiring(l0, seen + 1, if Stale(l0[seen], tick) then kept else kept + [l0[seen]], tick)
  {
    var rest := l0[seen..];
    assert rest[0] == l0[seen] && rest[1..] == l0[seen + 1..];
    assert kept + ([l0[seen]] + Fresh(rest[1..], tick)) == kept + [l0[seen]] + Fresh(rest[1..], tick);
    assert kept + ([] + Fresh(rest[1..], tick)) == kept + Fresh(rest[1..], tick);
  }

  lemma ExpiringEnds(l0: seq<Session>, kept: seq<Session>, tick: nat)
    requires Expiring(l0, |l0|, kept, tick)
    ensures kept == Fresh(l0, tick)
  {
    assert l0[|l0|..] == [] && kept + [] == kept;
  }

  class Server {
    const auth: K.AuthList
    var sessions: seq<Session>
    var sessionid_seed: int
    var sent: seq<Output>
    ghost var grants: seq<Grant>

    ghost function Value(): Table
      reads this, auth
    {
      Table(Keys(auth.Value(), auth.lst_svr_group, auth.revocation), sessions, sessionid_seed, grants, sent)
    }

    constructor Init(list: K.AuthList)
      requires list.Value() == K.Store([], 0) && list.revocation == None
      ensures Value() == Initial(list.lst_svr_group) && auth == list
    {
      auth := list;
      sessions, sessionid_seed, sent, grants := [], SEED, [], [];
    }

    method GetSessionByChecksum(addr: Addr, ck: Checksum) returns (i: nat)
      ensures i == Find(sessions, addr, ck)
    {
      i := 0;
      while i < |sessions|
        invariant i <= Find(sessions, addr, ck)
      {
        if Matches(sessions[i], addr, ck) {
          return;
        }
        i := i + 1;
      }
    }

    /** Opens the session of a verified request, or renews the one it finds. */
    method OpenSession(d: Digests, from: Addr, req: AuthRequest, token: string, random: string, now: nat)
      requires Present(req.prodKey) && Present(req.deviceName) && Present(req.randomKey)
      modifies this
      ensures Value() == GrantStep(d, old(Value()), from, req, token, random, now)
    {
      var ck := DeviceSum(d, req);
      var i := GetSessionByChecksum(from, ck);
      if i == |sessions| {
        sessionid_seed := sessionid_seed + 1;
        sessions := sessions + [Session(from, sessionid_seed, ck, random, "", 0, 0)];
      }
      var s := sessions[i];
      var key := d.sessionKey(Fit(req.randomKey.value + s.randomKey, 40), token);
      sessions := sessions[i := s.(sessionKey := key, authed := now, heart := now)];
      sent := sent + [AuthReply(from, 200, s.sessionId)];
      grants := grants + [Grant(from, CStr(ck), s.sessionId)];
    }

    /** alcs_rec_auth: the checks in their order, and the reply. */
    method RecAuth(d: Digests, from: Addr, req: AuthRequest, random: string, now: nat)
      modifies this
      ensures Value() == AuthStep(d, old(Value()), from, req, random, now)
    {
      if !req.parsed || req.accessKey.None? || |req.accessKey.value| != ACCESSKEY_LEN {
        sent := sent + [AuthReply(from, 200, 0)];
        return;
      }
      var accesskey := req.accessKey.value;
      var item := auth.IsLegalKey(accesskey[..8], accesskey[10..]);
      match item {
        case Revoked =>
          sent := sent + [AuthReply(from, 501, 0)];
        case UnmatchedPrefix =>
          sent := sent + [AuthReply(from, 502, 0)];
        case ListEmpty =>
          sent := sent + [AuthReply(from, 504, 0)];
        case Legal(secret) =>
          var token := d.hmac(accesskey, secret);
          if !Present(req.randomKey) {
            sent := sent + [AuthReply(from, 503, 0)];
            return;
          }
          var expected := d.hmac(req.randomKey.value, token);
          if req.sign.None? || req.sign.value != expected {
            sent := sent + [AuthReply(from, 506, 0)];
            return;
          }
          if !Present(req.prodKey) || !Present(req.deviceName) {
            sent := sent + [AuthReply(from, 503, 0)];
            return;
          }
          OpenSession(d, from, req, token, random, now);
      }
    }

    method RecHeartBeat(remote: Addr, now: nat)
      modifies this
      ensures Value() == HeartStep(old(Value()), remote, now)
    {
      if sessions == [] {
        return;
      }
      hide Beaten, Beating, SomeBeats;
      ghost var was := sessions;
      var i, found := 0, false;
      BeatingStarts(was, remote, now);
      while i < |sessions|
        invariant sessionid_seed == old(sessionid_seed) && sent == old(sent) && grants == old(grants)
        invariant i <= |sessions| == |was| && Beating(was, sessions, i, found, remote, now)
      {
        BeatingMoves(was, sessions, i, found, remote, now);
        if sessions[i].sessionId != 0 && sessions[i].addr == remote {
          sessions := sessions[i := sessions[i].(heart := now)];
          found := true;
        }
        i := i + 1;
      }
      BeatingEnds(was, sessions, found, remote, now);
      sent := sent + [HeartReply(remote, found)];
    }

    method OnAuthTimer(tick: nat)
      modifies this
      ensures Value() == old(Value()).(sessions := Fresh(old(sessions), tick))
    {
      hide Fresh, Boundary, Expiring;
      ghost var l0, seen := sessions, 0;
      ghost var kept: seq<Session> := [];
      ExpiringStarts(l0, tick);
      var i := 0;
      while i < |sessions|
        invariant i == |kept| <= seen <= |l0|
        invariant Boundary(sessions, kept, l0, seen) && Expiring(l0, seen, kept, tick)
        invariant sessionid_seed == old(sessionid_seed) && sent == old(sent) && grants == old(grants)
        decreases |l0| - seen
      {
        AtBoundary(sessions, kept, l0, seen);
        ExpiringStep(l0, seen, kept, tick);
        ghost var list := sessions;
        if sessions[i].sessionId != 0 && sessions[i].heart + HEART_EXPIRE < tick {
          sessions := sessions[..i] + sessions[i + 1..];
          assert list[..i] + [] == list[..i];
          BoundaryMoves(list, sessions, kept, l0, seen, None);
        } else {
          assert list == list[..i] + [list[i]] + list[i + 1..];
          BoundaryMoves(list, sessions, kept, l0, seen, Some(list[i]));
          kept := kept + [list[i]];
          i := i + 1;
        }
        seen := seen + 1;
      }
      AtBoundary(sessions, kept, l0, seen);
      ExpiringEnds(l0, kept, tick);
    }

    /** recv_msg_handler. */
    method RecvMsg(d: Digests, resources: seq<Resource>, remote: Addr, message: Request)
      modifies this
      ensures Value() == old(Value()).(log := old(sent) + Dispatch(d, resources, old(sessions), remote, message))
    {
      var r := 0;
      while r < |resources|
        invariant r <= ResourceOf(resources, d, message.path)
      {
        if Serves(resources[r], d, message.path) {
          break;
        }
        r := r + 1;
      }
      assert r == ResourceOf(resources, d, message.path);
      if r == |resources| {
        return;
      }
      var node := resources[r];
      var i := GetSessionByChecksum(remote, node.pkdn);
      if i == |sessions| || sessions[i].sessionId != message.sessionId {
        sent := sent + [Unauthorized(remote)];
        return;
      }
      if message.observe.Some? && ObserveIsZero(message.observe.value, message.junk) {
        sent := sent + [Observed(remote, message.path)];
      }
      if message.payloadLen < 256 || message.alloc {
        sent := sent + [Called(remote, node.cb, message.sessionId, node.pkdn, sessions[i].sessionKey)];
      }
    }
  }
}
