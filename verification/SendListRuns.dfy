/** Properties of whole runs of the reliable-send list. */
module SendListRuns {
  import opened Bytes
  import opened SendListSpec

  const TOKENS := 0x1_0000_0000

  // ----- the invariant -----

  /** The token of the k-th request. */
  function TokenOf(k: nat): (t: seq<byte>)
    ensures |t| == 4
  {
    TokenBytes((INIT_TOKEN + k) % TOKENS)
  }

  /** The message id of the k-th request: 1 to 65534 in turn, and 1 for ever after. */
  function IdOf(k: nat): u16 {
    if k < 65534 then k + 1 else 1
  }

  lemma TokenOfInjective(j: nat, k: nat)
    requires j < TOKENS && k < TOKENS && TokenOf(j) == TokenOf(k)
    ensures j == k
  {
    TokenRoundTrip((INIT_TOKEN + j) % TOKENS);
    TokenRoundTrip((INIT_TOKEN + k) % TOKENS);
  }

  /** The requests were given the identifiers in order. */
  ghost predicate Numbered(requests: seq<Request>) {
    && |requests| <= TOKENS
    && forall k :: 0 <= k < |requests| ==> requests[k].token == TokenOf(k) && requests[k].msgid == IdOf(k)
  }

  /** The token, handler and user data are those of one and the same request. */
  ghost predicate Issued(requests: seq<Request>, token: seq<byte>, resp: Option<int>, user: int) {
    exists k :: 0 <= k < |requests| && requests[k].token == token && requests[k].resp == resp && requests[k].user == user
  }

  /** The request that the node was listed for. */
  function RequestOf(n: Node): Request {
    Request(n.token, n.msgid, n.resp, n.user)
  }

  ghost predicate IssuedToken(requests: seq<Request>, token: seq<byte>) {
    exists k :: 0 <= k < |requests| && requests[k].token == token
  }

  function Power2(n: nat): nat {
    if n == 0 then 1 else 2 * Power2(n - 1)
  }

  /** A listed node either is a confirmable request retransmitted at most twice so far, waiting no
      longer than its current interval of 2^(retransmissions + 1) cycles, or is not confirmable. */
  predicate Shaped(n: Node) {
    || (n.retrans <= 2 && n.timeoutVal as int == Power2(n.retrans + 1) && n.timeout <= n.timeoutVal)
    || (n.retrans == MAX_RETRY_COUNT && n.timeout as int <= MAX_TRANSMISSION_SPAN)
  }

  ghost predicate Distinct(list: seq<Node>) {
    forall i, j :: 0 <= i < j < |list| ==> list[i].token != list[j].token
  }

  ghost predicate Listed(requests: seq<Request>, list: seq<Node>) {
    forall i :: 0 <= i < |list| ==>
      && Shaped(list[i]) && list[i].token != []
      && RequestOf(list[i]) in requests
  }

  /** Each handler call belongs to a request, no request is answered twice, no answered one is listed. */
  ghost predicate Answered(requests: seq<Request>, list: seq<Node>, log: seq<Output>) {
    && (forall i :: 0 <= i < |log| && log[i].Called? ==> Issued(requests, log[i].token, Some(log[i].resp), log[i].user))
    && (forall i, j :: 0 <= i < j < |log| && log[i].Called? && log[j].Called? ==> log[i].token != log[j].token)
    && (forall i, j :: 0 <= i < |log| && log[i].Called? && 0 <= j < |list| ==> log[i].token != list[j].token)
  }

  ghost predicate Good(c: Ctx) {
    && !Refuses(c.layout)
    && c.count == |c.list| % 0x100
    && Numbered(c.requests)
    && c.coapToken == (INIT_TOKEN + |c.requests|) % TOKENS
    && c.messageId == (if |c.requests| < 65534 then |c.requests| + 1 else MAX_MESSAGE_ID)
    && Distinct(c.list)
    && Listed(c.requests, c.list)
    && Answered(c.requests, c.list, c.log)
  }

  // ----- the steps keep it -----

  lemma FreshIsShaped(con: bool, resp: Option<int>, user: int, msgid: u16, token: seq<byte>)
    ensures Shaped(FreshNode(con, resp, user, msgid, token))
  {
    assert Power2(1) == 2 * Power2(0);
  }

  lemma NewTokenIsNew(requests: seq<Request>)
    requires Numbered(requests) && |requests| < TOKENS
    ensures !IssuedToken(requests, TokenOf(|requests|))
  {
    forall k | 0 <= k < |requests| ensures requests[k].token != TokenOf(|requests|) {
      if requests[k].token == TokenOf(|requests|) { TokenOfInjective(k, |requests|); }
    }
  }

  lemma IssuedLater(requests: seq<Request>, r: Request, token: seq<byte>, resp: Option<int>, user: int)
    requires Issued(requests, token, resp, user)
    ensures Issued(requests + [r], token, resp, user) && IssuedToken(requests, token)
  {
    var k :| 0 <= k < |requests| && requests[k].token == token && requests[k].resp == resp && requests[k].user == user;
    assert (requests + [r])[k] == requests[k];
  }

  /** A further request changes nothing for the listed and the answered ones. */
  lemma HistoryGrows(requests: seq<Request>, r: Request, list: seq<Node>, log: seq<Output>)
    requires Listed(requests, list) && Answered(requests, list, log)
    ensures Listed(requests + [r], list) && Answered(requests + [r], list, log)
    ensures forall i :: 0 <= i < |list| ==> IssuedToken(requests, list[i].token)
    ensures forall i :: 0 <= i < |log| && log[i].Called? ==> IssuedToken(requests, log[i].token)
  {
    forall i | 0 <= i < |list|
      ensures RequestOf(list[i]) in requests + [r] && IssuedToken(requests, list[i].token)
    {
      var k :| 0 <= k < |requests| && requests[k] == RequestOf(list[i]);
      assert (requests + [r])[k] == RequestOf(list[i]);
    }
    forall i | 0 <= i < |log| && log[i].Called?
      ensures Issued(requests + [r], log[i].token, Some(log[i].resp), log[i].user) && IssuedToken(requests, log[i].token)
    {
      IssuedLater(requests, r, log[i].token, Some(log[i].resp), log[i].user);
    }
  }

  /** A node with a token that no other node carries and no call was made for can be listed. */
  lemma ListGrows(requests: seq<Request>, list: seq<Node>, log: seq<Output>, n: Node)
    requires Distinct(list) && Listed(requests, list) && Answered(requests, list, log)
    requires Shaped(n) && n.token != [] && RequestOf(n) in requests
    requires forall i :: 0 <= i < |list| ==> list[i].token != n.token
    requires forall i :: 0 <= i < |log| && log[i].Called? ==> log[i].token != n.token
    ensures Distinct(list + [n]) && Listed(requests, list + [n]) && Answered(requests, list + [n], log)
  {
  }

  lemma NumberedGrows(requests: seq<Request>, r: Request)
    requires Numbered(requests) && |requests| < TOKENS && r.token == TokenOf(|requests|) && r.msgid == IdOf(|requests|)
    ensures Numbered(requests + [r])
  {
    hide TokenOf, IdOf;
  }

  lemma SendKeeps(c: Ctx, s: Send)
    requires Good(c) && |c.requests| < TOKENS
    ensures Good(SendStep(c, s))
  {
    hide Listed, Answered, Distinct, Shaped, Issued, IssuedToken, TokenBytes, Numbered;
    var k := |c.requests|;
    var token, msgid := TokenBytes(c.coapToken), IssuedId(c.messageId);
    assert token == TokenOf(k) && msgid == IdOf(k);
    NumberedGrows(c.requests, Request(token, msgid, s.resp, s.user));
    var r, n := Request(token, msgid, s.resp, s.user), FreshNode(s.con, s.resp, s.user, msgid, token);
    NewTokenIsNew(c.requests);
    HistoryGrows(c.requests, r, c.list, c.log);
    FreshIsShaped(s.con, s.resp, s.user, msgid, token);
    assert (c.requests + [r])[k] == r == RequestOf(n);
    ListGrows(c.requests + [r], c.list, c.log, n);
    TokenSum(k);
  }

  lemma TokenSum(k: nat)
    ensures ((INIT_TOKEN + k) % TOKENS + 1) % TOKENS == (INIT_TOKEN + (k + 1)) % TOKENS
  {
  }

  lemma {:induction false} AcknowledgeShape(list: seq<Node>, msgid: u16)
    ensures var l := Acknowledge(list, msgid);
            |l| == |list| && forall i :: 0 <= i < |l| ==> l[i] == list[i] || (list[i].msgid == msgid && l[i] == list[i].(acked := true))
  {
    if list != [] && list[0].msgid != msgid {
      AcknowledgeShape(list[1..], msgid);
    }
  }

  lemma AckKeeps(c: Ctx, msgid: u16)
    requires Good(c)
    ensures Good(c.(list := Acknowledge(c.list, msgid)))
  {
    hide Numbered, Issued, Acknowledge;
    var l := Acknowledge(c.list, msgid);
    AcknowledgeShape(c.list, msgid);
    assert forall i :: 0 <= i < |l| ==> RequestOf(l[i]) == RequestOf(c.list[i]) && (Shaped(l[i]) <==> Shaped(c.list[i]));
    hide Shaped, RequestOf;
  }

  lemma ListShrinks(requests: seq<Request>, list: seq<Node>, log: seq<Output>, i: nat)
    requires Distinct(list) && Listed(requests, list) && Answered(requests, list, log) && i < |list|
    ensures var l := list[..i] + list[i + 1..];
            && Distinct(l) && Listed(requests, l) && Answered(requests, l, log)
            && forall j :: 0 <= j < |l| ==> l[j].token != list[i].token
  {
    var l := list[..i] + list[i + 1..];
    assert forall j :: 0 <= j < |l| ==> l[j] == if j < i then list[j] else list[j + 1];
  }

  /** A call for a token that is neither listed nor called before. */
  lemma CallLogged(requests: seq<Request>, list: seq<Node>, log: seq<Output>, o: Output)
    requires Answered(requests, list, log)
    requires o.Called? ==> && Issued(requests, o.token, Some(o.resp), o.user)
                           && (forall j :: 0 <= j < |list| ==> list[j].token != o.token)
                           && (forall j :: 0 <= j < |log| && log[j].Called? ==> log[j].token != o.token)
    ensures Answered(requests, list, log + [o])
  {
  }

  lemma TokensApart(requests: seq<Request>, list: seq<Node>, log: seq<Output>, i: nat)
    requires Listed(requests, list) && Answered(requests, list, log) && i < |list|
    ensures forall j :: 0 <= j < |log| && log[j].Called? ==> log[j].token != list[i].token
    ensures Issued(requests, list[i].token, list[i].resp, list[i].user)
  {
    var r := RequestOf(list[i]);
    assert r in requests;
    var k :| 0 <= k < |requests| && requests[k] == r;
  }

  /** The ACK for a response calls nobody. */
  lemma AckLogged(requests: seq<Request>, list: seq<Node>, log: seq<Output>, ack: seq<Output>)
    requires Answered(requests, list, log) && (ack == [] || (|ack| == 1 && ack[0].EmptyAck?))
    ensures Answered(requests, list, log + ack)
  {
    hide Answered;
    if ack == [] { assert log + [] == log; } else { CallLogged(requests, list, log, ack[0]); assert ack == [ack[0]]; }
  }

  /** The node leaves the list and its handler is called. */
  lemma NodeAnswered(requests: seq<Request>, list: seq<Node>, log: seq<Output>, i: nat)
    requires Distinct(list) && Listed(requests, list) && Answered(requests, list, log) && i < |list|
    ensures var n, l := list[i], list[..i] + list[i + 1..];
            var call := if n.resp.Some? then [Called(n.token, n.resp.value, n.user)] else [];
            Distinct(l) && Listed(requests, l) && Answered(requests, l, log + call)
  {
    hide Distinct, Listed, Answered, Issued;
    var n, l := list[i], list[..i] + list[i + 1..];
    TokensApart(requests, list, log, i);
    ListShrinks(requests, list, log, i);
    if n.resp.Some? { CallLogged(requests, l, log, Called(n.token, n.resp.value, n.user)); } else { assert log + [] == log; }
  }

  lemma CountDown(n: nat)
    requires n > 0
    ensures (n % 0x100 - 1) % 0x100 == (n - 1) % 0x100
  {
  }

  lemma GoodParts(c: Ctx)
    requires Good(c)
    ensures c.count == |c.list| % 0x100
    ensures Distinct(c.list) && Listed(c.requests, c.list) && Answered(c.requests, c.list, c.log)
  {
  }

  /** A good state with another list of as many nodes as it counts, and another log, is good. */
  lemma StaysGood(c: Ctx, d: Ctx)
    requires Good(c) && d == c.(list := d.list, count := d.count, log := d.log)
    requires d.count == |d.list| % 0x100
    requires Distinct(d.list) && Listed(d.requests, d.list) && Answered(d.requests, d.list, d.log)
    ensures Good(d)
  {
    hide Distinct, Numbered, Listed, Answered;
  }

  lemma ResponseKeeps(c: Ctx, m: Received)
    requires Good(c)
    ensures Good(ResponseStep(c, m))
  {
    GoodParts(c);
    hide Good, Distinct, Numbered, Listed, Answered, Matches;
    var ack := if m.mtype == TYPE_CON then [EmptyAck(m.msgid)] else [];
    AckLogged(c.requests, c.list, c.log, ack);
    var i := Position(c.list, m.token);
    if i < |c.list| {
      NodeAnswered(c.requests, c.list, c.log + ack, i);
      CountDown(|c.list|);
    }
    StaysGood(c, ResponseStep(c, m));
  }

  lemma CycleKeepsShape(n: Node)
    requires Shaped(n)
    ensures CycleNode(n).Some? ==> Shaped(CycleNode(n).value) && RequestOf(CycleNode(n).value) == RequestOf(n)
  {
    assert Power2(1) == 2 * Power2(0) && Power2(2) == 2 * Power2(1) && Power2(3) == 2 * Power2(2) && Power2(4) == 2 * Power2(3);
  }

  lemma {:induction false} CycleListKeeps(requests: seq<Request>, list: seq<Node>)
    requires Distinct(list) && Listed(requests, list)
    ensures Distinct(CycleList(list)) && Listed(requests, CycleList(list))
    ensures forall n :: n in CycleList(list) ==> exists i :: 0 <= i < |list| && list[i].token == n.token
  {
    hide CycleNode, Shaped, Listed, Distinct;
    if list != [] {
      var rest, l := list[1..], CycleList(list[1..]);
      FirstApart(requests, list);
      CycleListKeeps(requests, rest);
      CycleKeepsShape(list[0]);
      NodeInFront(requests, list, CycleNode(list[0]), l);
    }
  }

  lemma FirstApart(requests: seq<Request>, list: seq<Node>)
    requires list != [] && Distinct(list) && Listed(requests, list)
    ensures Distinct(list[1..]) && Listed(requests, list[1..])
    ensures Shaped(list[0]) && list[0].token != [] && RequestOf(list[0]) in requests
  {
    hide Shaped, RequestOf;
  }

  /** What has become of the rest, with what has become of the first node in front. */
  lemma NodeInFront(requests: seq<Request>, list: seq<Node>, r: Option<Node>, l: seq<Node>)
    requires list != [] && Distinct(list) && Listed(requests, list) && Distinct(l) && Listed(requests, l)
    requires forall n :: n in l ==> exists i :: 0 <= i < |list[1..]| && list[1..][i].token == n.token
    requires r.Some? ==> Shaped(r.value) && RequestOf(r.value) == RequestOf(list[0])
    ensures var all := (match r case None => [] case Some(n) => [n]) + l;
            && Distinct(all) && Listed(requests, all)
            && forall n :: n in all ==> exists i :: 0 <= i < |list| && list[i].token == n.token
  {
    hide Shaped;
    forall n | n in l ensures n.token != list[0].token && exists i :: 0 <= i < |list| && list[i].token == n.token {
      var i :| 0 <= i < |list[1..]| && list[1..][i].token == n.token;
      assert list[i + 1].token == n.token;
    }
    assert forall i :: 0 <= i < |l| ==> l[i] in l;
  }

  lemma {:induction false} CycleLogCallsNobody(list: seq<Node>)
    ensures forall i :: 0 <= i < |CycleLog(list)| ==> CycleLog(list)[i].Resent?
  {
    if list != [] { CycleLogCallsNobody(list[1..]); }
  }

  lemma TickKeeps(c: Ctx)
    requires Good(c)
    ensures Good(TickStep(c))
  {
    hide Distinct, Listed, Numbered, Answered, CycleList, CycleLog;
    CycleListKeeps(c.requests, c.list);
    CycleLogCallsNobody(c.list);
    NobodyCalled(c.requests, c.list, c.log, CycleList(c.list), CycleLog(c.list));
  }

  /** Retransmissions answer nobody, and no new token is listed. */
  lemma NobodyCalled(requests: seq<Request>, list: seq<Node>, log: seq<Output>, l: seq<Node>, more: seq<Output>)
    requires Answered(requests, list, log)
    requires forall i :: 0 <= i < |more| ==> more[i].Resent?
    requires forall n :: n in l ==> exists i :: 0 <= i < |list| && list[i].token == n.token
    ensures Answered(requests, l, log + more)
  {
    hide Issued;
    assert forall i :: 0 <= i < |log + more| && (log + more)[i].Called? ==> i < |log| && (log + more)[i] == log[i];
    forall i, j | 0 <= i < |log| && log[i].Called? && 0 <= j < |l| ensures log[i].token != l[j].token {
      assert l[j] in l;
    }
  }

  lemma StepKeeps(c: Ctx, e: Event)
    requires Good(c) && |c.requests| + (if e.DoSend? then 1 else 0) <= TOKENS
    ensures Good(Step(c, e))
    ensures |Step(c, e).requests| == |c.requests| + if e.DoSend? then 1 else 0
  {
    match e
    case DoSend(s) => SendKeeps(c, s);
    case Receive(m) =>
      if IsAck(m) { AckKeeps(c, m.msgid); } else if IsResponse(m) { ResponseKeeps(c, m); }
    case Tick => TickKeeps(c);
  }

  lemma {:induction false} RunKeeps(c: Ctx, es: seq<Event>)
    requires Good(c) && |c.requests| + Sends(es) <= TOKENS
    ensures Good(Run(c, es)) && |Run(c, es).requests| == |c.requests| + Sends(es)
    decreases |es|
  {
    if es != [] {
      StepKeeps(c, es[0]);
      RunKeeps(Step(c, es[0]), es[1..]);
    }
  }

  // ----- response correlation (RFC 7252 section 5.3.2) -----

  /** In every run with at most 2^32 requests: outstanding tokens are distinct, every handler call was
      made with the handler and user data of the request that was sent with that token, no request's
      handler is called twice, and the counter is the list length modulo 256. */
  lemma ResponseCorrelation(es: seq<Event>)
    requires Sends(es) <= TOKENS
    ensures var c := Run(Initial, es);
            && Distinct(c.list)
            && (forall i :: 0 <= i < |c.log| && c.log[i].Called? ==>
                  Issued(c.requests, c.log[i].token, Some(c.log[i].resp), c.log[i].user))
            && (forall i, j :: 0 <= i < j < |c.log| && c.log[i].Called? && c.log[j].Called? ==> c.log[i].token != c.log[j].token)
            && (forall j, k :: 0 <= j < k < |c.requests| ==> c.requests[j].token != c.requests[k].token)
            && c.count == |c.list| % 0x100
  {
    RunKeeps(Initial, es);
    var rs := Run(Initial, es).requests;
    forall j, k | 0 <= j < k < |rs| ensures rs[j].token != rs[k].token {
      if rs[j].token == rs[k].token { TokenOfInjective(j, k); }
    }
  }

  /** A response, of code class 2 to 5, runs exactly the handler of the listed request with its token and
      takes that request, and no other, off the list; without such a request it changes neither.  A
      confirmable one is acknowledged. */
  lemma ResponseRunsItsRequest(c: Ctx, m: Received)
    requires Good(c) && 2 <= m.code / 32 <= 5
    ensures var d := ReceiveStep(c, m);
            var log := c.log + if m.mtype == 0 then [EmptyAck(m.msgid)] else [];
            && (forall i :: 0 <= i < |c.list| && c.list[i].token == m.token ==>
                  && d.list == c.list[..i] + c.list[i + 1..]
                  && d.log == log + if c.list[i].resp.Some? then [Called(m.token, c.list[i].resp.value, c.list[i].user)] else [])
            && ((forall i :: 0 <= i < |c.list| ==> c.list[i].token != m.token) ==> d.list == c.list && d.log == log)
  {
    forall i | 0 <= i < |c.list| && c.list[i].token == m.token ensures Position(c.list, m.token) == i {
      PositionOf(c.list, i);
    }
  }

  /** A send enters the list exactly if the message fits, the network takes it, there is memory and `count`
      lies before `maxcount`: then one node is added, with the identifiers just issued, the caller's handler
      and user data, and the timers of its kind. */
  lemma SendListsExactly(c: Ctx, s: Send)
    ensures var d := SendStep(c, s);
            && |d.requests| == |c.requests| + 1
            && if s.fits && s.written && s.alloc && c.layout.countAt < c.layout.maxcountAt then
                 && |d.list| == |c.list| + 1 && d.list[..|c.list|] == c.list && d.count == (c.count + 1) % 0x100
                 && var n := d.list[|c.list|];
                 && RequestOf(n) == d.requests[|c.requests|] && n.user == s.user && n.resp == s.resp && !n.acked
                 && (if s.con then n.retrans == 0 && n.timeout == n.timeoutVal == 2 else n.retrans == 4 && n.timeout == 10)
               else d.list == c.list && d.count == c.count
  {
  }

  /** Messages of other classes, and acknowledgements of other types, change nothing. */
  lemma OthersChangeNothing(c: Ctx, m: Received)
    requires !(2 <= m.code / 32 <= 5) && !(m.mtype == 2 && m.code == 0)
    ensures ReceiveStep(c, m) == c
  {
  }

  /** The identifiers of a run: its k-th request, from 0 on, has the token 01020304 + k modulo 2^32, least
      significant byte first, and the message id k + 1, or 1 when the ids have run out. */
  lemma IdentifiersInRun(es: seq<Event>, k: nat)
    requires Sends(es) <= 0x1_0000_0000 && k < |Run(Initial, es).requests|
    ensures var r := Run(Initial, es).requests[k];
            && |r.token| == 4
            && BigEndian([r.token[3], r.token[2], r.token[1], r.token[0]]) == (0x0102_0304 + k) % 0x1_0000_0000
            && r.msgid == if k < 65534 then k + 1 else 1
  {
    RunKeeps(Initial, es);
    var v: u32 := (0x0102_0304 + k) % 0x1_0000_0000;
    TokenRoundTrip(v);
    var t := TokenBytes(v);
    ShortBigEndian([t[3], t[2], t[1], t[0]]);
  }

  /** In a list of distinct tokens every node is found under its token. */
  lemma PositionOf(list: seq<Node>, i: nat)
    requires Distinct(list) && i < |list| && list[i].token != []
    ensures Position(list, list[i].token) == i
  {
    assert Matches(list[i], list[i].token);
    assert Position(list, list[i].token) <= i;
  }

  /** Two requests of a run are given the same message id exactly when the ids have run out. */
  lemma MessageIdsRepeat(es: seq<Event>, j: nat, k: nat)
    requires Sends(es) <= TOKENS && j < k < |Run(Initial, es).requests|
    ensures var rs := Run(Initial, es).requests;
            rs[j].msgid == rs[k].msgid <==> k >= 65534 && (j == 0 || j >= 65534)
  {
    RunKeeps(Initial, es);
  }

  /** The ids do run out: the first request and the 65535th share the id 1. */
  lemma FirstIdReturns(es: seq<Event>)
    requires 65535 <= Sends(es) <= TOKENS
    ensures var rs := Run(Initial, es).requests; |rs| >= 65535 && rs[0].msgid == rs[65534].msgid == 1
  {
    RunKeeps(Initial, es);
  }

  // ----- the maximum of the list -----

  /** Requests that the network takes, or that it does not. */
  function Requests(n: nat, written: bool): (es: seq<Event>)
    ensures |es| == n
  {
    if n == 0 then [] else [DoSend(Send(true, None, 0, true, written, true))] + Requests(n - 1, written)
  }

  lemma {:induction false} RequestsInARow(c: Ctx, n: nat, written: bool)
    ensures var d := Run(c, Requests(n, written));
            && |d.list| == |c.list| + (if written && !Refuses(c.layout) then n else 0)
            && (!written ==> d.list == c.list)
            && d.layout == c.layout && d.maxcount == c.maxcount && Sends(Requests(n, written)) == n
    decreases n
  {
    if n > 0 {
      var es := Requests(n, written);
      assert es[1..] == Requests(n - 1, written);
      RequestsInARow(Step(c, es[0]), n - 1, written);
    }
  }

  /** The test lets every request into the list exactly if the compiler puts `count` before `maxcount`;
      the configured maximum has no part in it. */
  lemma ListIsNotCappedExactly(layout: Layout, maxcount: byte)
    ensures (forall n: nat :: |Run(Start(layout, maxcount), Requests(n, true)).list| == n) <==> layout.countAt < layout.maxcountAt
  {
    forall n: nat
      ensures |Run(Start(layout, maxcount), Requests(n, true)).list| == if Refuses(layout) then 0 else n
    {
      RequestsInARow(Start(layout, maxcount), n, true);
    }
    var one: nat := 1;
    assert Refuses(layout) ==> |Run(Start(layout, maxcount), Requests(one, true)).list| != one;
  }

  /** As the header declares them, the list grows beyond every configured maximum. */
  lemma ListExceedsMaximum(maxcount: byte)
    ensures |Run(Start(DECLARED, maxcount), Requests(maxcount as int + 1, true)).list| == maxcount as int + 1
  {
    RequestsInARow(Start(DECLARED, maxcount), maxcount as int + 1, true);
  }
}
