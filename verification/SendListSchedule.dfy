/** The retransmission schedule of a request (RFC 7252 sections 4.2 and 4.8), first for one node seen
    through the timer cycles, then for a node inside any run. */
module SendListSchedule {
  import opened Bytes
  import opened SendListSpec
  import opened SendListRuns

  // ----- one node -----

  /** One cycle of one node, whatever its state: it waits; or it leaves, because it has been sent four times
      or its next interval would exceed ten cycles; or it is retransmitted with the interval doubled; or,
      being acknowledged, it stays as it is. */
  lemma CycleNodeCases(n: Node)
    ensures Resends(n) <==> n.timeout == 0 && n.retrans < 4 && !n.acked
    ensures n.timeout > 0 ==> CycleNode(n) == Some(n.(timeout := n.timeout - 1))
    ensures n.timeout == 0 && n.retrans >= 4 ==> CycleNode(n) == None
    ensures n.timeout == 0 && n.retrans < 4 && n.acked ==> CycleNode(n) == Some(n)
    ensures n.timeout == 0 && n.retrans < 4 && !n.acked ==>
              var t: u16 := n.timeoutVal * 2 % 0x1_0000;
              CycleNode(n) == if t > 10 || n.retrans == 3 then None
                              else Some(n.(timeout := t, timeoutVal := t, retrans := n.retrans + 1))
  {
  }

  /** The node after k timer cycles, unless it has left the list. */
  function After(n: Node, k: nat): Option<Node>
    decreases k
  {
    if k == 0 then Some(n)
    else match CycleNode(n) case None => None case Some(m) => After(m, k - 1)
  }

  /** How often the node is retransmitted in k timer cycles. */
  function Retransmissions(n: Node, k: nat): nat
    decreases k
  {
    if k == 0 then 0
    else (if Resends(n) then 1 else 0) + match CycleNode(n) case None => 0 case Some(m) => Retransmissions(m, k - 1)
  }

  /** The node is retransmitted in its k-th timer cycle. */
  predicate ResentAt(n: Node, k: nat) {
    k > 0 && After(n, k - 1).Some? && Resends(After(n, k - 1).value)
  }

  lemma {:induction false} AfterNext(n: Node, k: nat)
    ensures After(n, k + 1) == match After(n, k) case None => None case Some(m) => CycleNode(m)
    ensures Retransmissions(n, k + 1) == Retransmissions(n, k) + if ResentAt(n, k + 1) then 1 else 0
    decreases k
  {
    if k > 0 {
      match CycleNode(n)
      case None => assert After(n, k).None?;
      case Some(m) => AfterNext(m, k - 1);
    }
  }

  /** The closed form: a confirmable request after k cycles without an ACK. */
  function ConAfter(n: Node, k: nat): Option<Node> {
    if k < 3 then Some(n.(timeout := 2 - k, timeoutVal := 2, retrans := 0))
    else if k < 8 then Some(n.(timeout := 7 - k, timeoutVal := 4, retrans := 1))
    else if k < 17 then Some(n.(timeout := 16 - k, timeoutVal := 8, retrans := 2))
    else None
  }

  /** A confirmable request that is not acknowledged is retransmitted in its 3rd, 8th and 17th cycle
      and in no other, and leaves the list in the 17th; the retry limit of 4 is never what ends it. */
  lemma {:induction false} ConSchedule(n: Node, k: nat)
    requires n == FreshNode(true, n.resp, n.user, n.msgid, n.token)
    ensures After(n, k) == ConAfter(n, k)
    ensures Retransmissions(n, k) == (if k >= 3 then 1 else 0) + (if k >= 8 then 1 else 0) + (if k >= 17 then 1 else 0)
    ensures ResentAt(n, k + 1) <==> k + 1 in {3, 8, 17}
    ensures After(n, k).Some? ==> After(n, k).value.retrans < MAX_RETRY_COUNT - 1
  {
    hide CycleNode, Resends;
    ConStep(n, k);
    if k > 0 {
      ConSchedule(n, k - 1);
      AfterNext(n, k - 1);
      ConStep(n, k - 1);
    }
  }

  lemma ConStep(n: Node, k: nat)
    requires n == FreshNode(true, n.resp, n.user, n.msgid, n.token)
    ensures match ConAfter(n, k)
            case None => ConAfter(n, k + 1) == None
            case Some(m) => CycleNode(m) == ConAfter(n, k + 1) && (Resends(m) <==> k + 1 in {3, 8, 17})
    ensures ConAfter(n, 0) == Some(n)
  {
  }

  /** A request that is not confirmable is never retransmitted and leaves in the 11th cycle, whether
      acknowledged or not. */
  lemma {:induction false} NonSchedule(n: Node, k: nat)
    requires n.(acked := false) == FreshNode(false, n.resp, n.user, n.msgid, n.token)
    ensures After(n, k) == if k <= 10 then Some(n.(timeout := 10 - k)) else None
    ensures Retransmissions(n, k) == 0
  {
    if k > 0 {
      NonSchedule(n, k - 1);
      AfterNext(n, k - 1);
    }
  }

  /** An acknowledged confirmable request is never retransmitted and never leaves by time. */
  lemma {:induction false} AckedSchedule(n: Node, k: nat)
    requires Shaped(n) && n.acked && n.retrans < MAX_RETRY_COUNT
    ensures After(n, k) == Some(n.(timeout := if n.timeout as int <= k then 0 else n.timeout - k))
    ensures Retransmissions(n, k) == 0
  {
    assert Power2(1) == 2 * Power2(0) && Power2(2) == 2 * Power2(1) && Power2(3) == 2 * Power2(2);
    if k > 0 {
      AckedSchedule(n, k - 1);
      AfterNext(n, k - 1);
    }
  }

  // ----- a node inside a run -----

  function Find(list: seq<Node>, token: seq<byte>): Option<Node> {
    var i := Position(list, token);
    if i < |list| then Some(list[i]) else None
  }

  /** How many retransmissions of the token the log holds. */
  function ResentCount(log: seq<Output>, token: seq<byte>): nat {
    if log == [] then 0 else (if log[0] == Resent(token) then 1 else 0) + ResentCount(log[1..], token)
  }

  lemma {:induction false} ResentCountAppend(a: seq<Output>, b: seq<Output>, token: seq<byte>)
    ensures ResentCount(a + b, token) == ResentCount(a, token) + ResentCount(b, token)
  {
    if a == [] {
      assert a + b == b;
    } else {
      assert (a + b)[1..] == a[1..] + b;
      ResentCountAppend(a[1..], b, token);
    }
  }

  lemma NotFound(list: seq<Node>, token: seq<byte>)
    ensures Find(list, token) == None <==> forall i :: 0 <= i < |list| ==> !Matches(list[i], token)
  {
  }

  lemma CycleKeepsToken(n: Node)
    ensures CycleNode(n).Some? ==> CycleNode(n).value.token == n.token
  {
  }

  lemma FirstIsOnly(list: seq<Node>, token: seq<byte>)
    requires list != [] && Distinct(list) && list[0].token == token
    ensures Find(list[1..], token) == None
  {
    var rest := list[1..];
    forall i | 0 <= i < |rest| ensures rest[i].token != token { assert rest[i] == list[i + 1]; }
    NotFound(rest, token);
  }

  lemma {:induction false} FoundInCycle(list: seq<Node>, token: seq<byte>)
    requires Distinct(list) && token != []
    ensures Find(CycleList(list), token) == match Find(list, token) case None => None case Some(n) => CycleNode(n)
  {
    hide CycleNode;
    if list != [] {
      var rest := list[1..];
      FoundInCycle(rest, token);
      CycleKeepsToken(list[0]);
      var head := match CycleNode(list[0]) case None => [] case Some(n) => [n];
      FindAppend(head, CycleList(rest), token);
      assert list == [list[0]] + rest;
      FindAppend([list[0]], rest, token);
      if list[0].token == token { FirstIsOnly(list, token); }
    }
  }

  lemma {:induction false} ResentInCycle(list: seq<Node>, token: seq<byte>)
    requires Distinct(list) && token != []
    ensures ResentCount(CycleLog(list), token) == if Find(list, token).Some? && Resends(Find(list, token).value) then 1 else 0
  {
    hide Resends;
    if list != [] {
      var rest := list[1..];
      ResentInCycle(rest, token);
      var out := if Resends(list[0]) then [Resent(list[0].token)] else [];
      ResentCountAppend(out, CycleLog(rest), token);
      assert list == [list[0]] + rest;
      FindAppend([list[0]], rest, token);
      if list[0].token == token { FirstIsOnly(list, token); }
    }
  }

  /** One cycle moves the node of a token, and retransmits it when that is due. */
  lemma FindInCycle(list: seq<Node>, token: seq<byte>)
    requires Distinct(list) && token != []
    ensures Find(CycleList(list), token) == match Find(list, token) case None => None case Some(n) => CycleNode(n)
    ensures ResentCount(CycleLog(list), token) == if Find(list, token).Some? && Resends(Find(list, token).value) then 1 else 0
  {
    FoundInCycle(list, token);
    ResentInCycle(list, token);
  }

  lemma FindAppend(a: seq<Node>, b: seq<Node>, token: seq<byte>)
    requires |a| <= 1
    ensures Find(a + b, token) == if |a| == 1 && Matches(a[0], token) then Some(a[0]) else Find(b, token)
  {
    if a == [] { assert a + b == b; } else { assert (a + b)[1..] == b; }
  }

  lemma {:induction false} FindInAcknowledged(list: seq<Node>, msgid: u16, token: seq<byte>)
    requires Find(list, token).None? || Find(list, token).value.msgid != msgid || Find(list, token).value.acked
    ensures Find(Acknowledge(list, msgid), token) == Find(list, token)
  {
    if list != [] {
      assert list == [list[0]] + list[1..];
      FindAppend([list[0]], list[1..], token);
      if list[0].msgid == msgid {
        FindAppend([list[0].(acked := true)], list[1..], token);
        if Matches(list[0], token) { assert list[0].(acked := true) == list[0]; }
      } else {
        FindAppend([list[0]], Acknowledge(list[1..], msgid), token);
        if !Matches(list[0], token) { FindInAcknowledged(list[1..], msgid, token); }
      }
    }
  }

  lemma {:induction false} FindInGrown(list: seq<Node>, n: Node, token: seq<byte>)
    requires n.token != token
    ensures Find(list + [n], token) == Find(list, token)
  {
    if list == [] {
      assert list + [n] == [n];
    } else {
      assert (list + [n])[1..] == list[1..] + [n];
      FindInGrown(list[1..], n, token);
      assert list == [list[0]] + list[1..] && list + [n] == [list[0]] + (list[1..] + [n]);
      FindAppend([list[0]], list[1..], token);
      FindAppend([list[0]], list[1..] + [n], token);
    }
  }

  lemma {:induction false} FindInShrunk(list: seq<Node>, i: nat, token: seq<byte>)
    requires i < |list| && list[i].token != token
    ensures Find(list[..i] + list[i + 1..], token) == Find(list, token)
  {
    assert list == [list[0]] + list[1..];
    FindAppend([list[0]], list[1..], token);
    if i == 0 {
      assert list[..0] + list[1..] == list[1..];
    } else {
      var l := list[1..];
      assert list[..i] + list[i + 1..] == [list[0]] + (l[..i - 1] + l[i..]);
      FindAppend([list[0]], l[..i - 1] + l[i..], token);
      FindInShrunk(l, i - 1, token);
    }
  }

  /** The event concerns the given request: a first ACK with its message id or a response with its token. */
  predicate Concerns(e: Event, n: Node) {
    e.Receive? && ((IsAck(e.m) && e.m.msgid == n.msgid && !n.acked) || (!IsAck(e.m) && IsResponse(e.m) && e.m.token == n.token))
  }

  predicate Undisturbed(es: seq<Event>, n: Node) {
    forall i :: 0 <= i < |es| ==> !Concerns(es[i], n)
  }

  /** One event that does not concern a listed request moves it on by at most one cycle. */
  lemma StepMoves(c: Ctx, e: Event, n: Node)
    requires Good(c) && |c.requests| + (if e.DoSend? then 1 else 0) <= TOKENS
    requires Find(c.list, n.token) == Some(n) && n.token != [] && !Concerns(e, n)
    ensures Find(Step(c, e).list, n.token) == if e.Tick? then CycleNode(n) else Some(n)
    ensures ResentCount(Step(c, e).log, n.token)
         == ResentCount(c.log, n.token) + if e.Tick? && Resends(n) then 1 else 0
  {
    match e
    case DoSend(s) =>
      var i := Position(c.list, n.token);
      assert Issued(c.requests, n.token, n.resp, n.user);
      NewTokenDiffers(c, n);
      FindInGrown(c.list, FreshNode(s.con, s.resp, s.user, IssuedId(c.messageId), TokenBytes(c.coapToken)), n.token);
    case Receive(m) =>
      if IsAck(m) {
        FindInAcknowledged(c.list, m.msgid, n.token);
      } else if IsResponse(m) {
        ResponseElsewhere(c, m, n.token);
      }
    case Tick =>
      FindInCycle(c.list, n.token);
      ResentCountAppend(c.log, CycleLog(c.list), n.token);
  }

  lemma NewTokenDiffers(c: Ctx, n: Node)
    requires Good(c) && |c.requests| < TOKENS && Issued(c.requests, n.token, n.resp, n.user)
    ensures TokenBytes(c.coapToken) != n.token
  {
    NewTokenIsNew(c.requests);
    IssuedLater(c.requests, Request(n.token, 0, None, 0), n.token, n.resp, n.user);
    assert TokenBytes(c.coapToken) == TokenOf(|c.requests|);
  }

  lemma ResponseElsewhere(c: Ctx, m: Received, token: seq<byte>)
    requires m.token != token
    ensures Find(ResponseStep(c, m).list, token) == Find(c.list, token)
    ensures ResentCount(ResponseStep(c, m).log, token) == ResentCount(c.log, token)
  {
    hide Find;
    var ack := if m.mtype == TYPE_CON then [EmptyAck(m.msgid)] else [];
    ResentCountAppend(c.log, ack, token);
    assert ResentCount(ack, token) == 0;
    var i := Position(c.list, m.token);
    if i < |c.list| {
      FindInShrunk(c.list, i, token);
      var call := if c.list[i].resp.Some? then [Called(c.list[i].token, c.list[i].resp.value, c.list[i].user)] else [];
      ResentCountAppend(c.log + ack, call, token);
      assert ResentCount(call, token) == 0;
    }
  }

  /** A request that has left the list does not come back and is not retransmitted. */
  lemma {:induction false} GoneStaysGone(c: Ctx, es: seq<Event>, token: seq<byte>)
    requires Good(c) && |c.requests| + Sends(es) <= TOKENS
    requires IssuedToken(c.requests, token) && token != [] && Find(c.list, token) == None
    ensures Find(Run(c, es).list, token) == None
    ensures ResentCount(Run(c, es).log, token) == ResentCount(c.log, token)
    decreases |es|
  {
    if es != [] {
      StepKeeps(c, es[0]);
      var d := Step(c, es[0]);
      GoneStep(c, es[0], token);
      GoneStaysGone(d, es[1..], token);
    }
  }

  lemma GoneSend(c: Ctx, s: Send, token: seq<byte>)
    requires Good(c) && |c.requests| < TOKENS
    requires IssuedToken(c.requests, token) && token != [] && Find(c.list, token) == None
    ensures Find(SendStep(c, s).list, token) == None && IssuedToken(SendStep(c, s).requests, token)
    ensures ResentCount(SendStep(c, s).log, token) == ResentCount(c.log, token)
  {
    NewTokenIsNew(c.requests);
    assert TokenBytes(c.coapToken) == TokenOf(|c.requests|);
    FindInGrown(c.list, FreshNode(s.con, s.resp, s.user, IssuedId(c.messageId), TokenBytes(c.coapToken)), token);
    var k :| 0 <= k < |c.requests| && c.requests[k].token == token;
    assert SendStep(c, s).requests[k] == c.requests[k];
  }

  lemma ResponseToNobody(c: Ctx, m: Received)
    requires Find(c.list, m.token) == None
    ensures ResponseStep(c, m).list == c.list && ResponseStep(c, m).requests == c.requests
    ensures ResentCount(ResponseStep(c, m).log, m.token) == ResentCount(c.log, m.token)
  {
    assert Position(c.list, m.token) == |c.list|;
    var ack := if m.mtype == TYPE_CON then [EmptyAck(m.msgid)] else [];
    ResentCountAppend(c.log, ack, m.token);
    assert ResentCount(ack, m.token) == 0;
  }

  lemma GoneStep(c: Ctx, e: Event, token: seq<byte>)
    requires Good(c) && |c.requests| + (if e.DoSend? then 1 else 0) <= TOKENS
    requires IssuedToken(c.requests, token) && token != [] && Find(c.list, token) == None
    ensures Find(Step(c, e).list, token) == None && IssuedToken(Step(c, e).requests, token)
    ensures ResentCount(Step(c, e).log, token) == ResentCount(c.log, token)
  {
    hide Find;
    match e
    case DoSend(s) => GoneSend(c, s, token);
    case Receive(m) =>
      if IsAck(m) {
        FindInAcknowledged(c.list, m.msgid, token);
      } else if IsResponse(m) {
        if m.token == token { ResponseToNobody(c, m); } else { ResponseElsewhere(c, m, token); }
      }
    case Tick =>
      FindInCycle(c.list, token);
      ResentCountAppend(c.log, CycleLog(c.list), token);
  }

  /** A listed request that no event concerns goes through a run exactly as through its timer cycles:
      other requests, their ACKs and responses make no difference to it. */
  lemma {:induction false} RunMoves(c: Ctx, es: seq<Event>, n: Node)
    requires Good(c) && |c.requests| + Sends(es) <= TOKENS
    requires Find(c.list, n.token) == Some(n) && n.token != [] && Undisturbed(es, n)
    ensures Find(Run(c, es).list, n.token) == After(n, Ticks(es))
    ensures ResentCount(Run(c, es).log, n.token) == ResentCount(c.log, n.token) + Retransmissions(n, Ticks(es))
    decreases |es|
  {
    hide Good, Concerns, CycleNode, Step;
    if es != [] {
      var e, rest, d := es[0], es[1..], Step(c, es[0]);
      StepKeeps(c, e);
      StepMoves(c, e, n);
      assert forall i :: 0 <= i < |rest| ==> rest[i] == es[i + 1];
      if !e.Tick? {
        RunMoves(d, rest, n);
      } else if CycleNode(n).Some? {
        var m := CycleNode(n).value;
        StillUndisturbed(rest, n);
        RunMoves(d, rest, m);
      } else {
        TokenIssued(c, n);
        GoneStaysGone(d, rest, n.token);
      }
    }
  }

  lemma StillUndisturbed(es: seq<Event>, n: Node)
    requires Undisturbed(es, n)
    ensures CycleNode(n).Some? ==> Undisturbed(es, CycleNode(n).value)
  {
  }

  lemma TokenIssued(c: Ctx, n: Node)
    requires Good(c) && Find(c.list, n.token) == Some(n)
    ensures IssuedToken(Step(c, Tick).requests, n.token)
  {
    var i := Position(c.list, n.token);
    var k :| 0 <= k < |c.requests| && c.requests[k] == RequestOf(c.list[i]);
    IssuedLater(c.requests, Request([], 0, None, 0), n.token, n.resp, n.user);
  }

  // ----- the schedule inside any run -----

  /** The node a successful send leaves at the end of the list. */
  lemma SentIsFound(c: Ctx, s: Send)
    requires Good(c) && |c.requests| < TOKENS && s.fits && s.written && s.alloc
    ensures var n := FreshNode(s.con, s.resp, s.user, IssuedId(c.messageId), TokenBytes(c.coapToken));
            Good(SendStep(c, s)) && Find(SendStep(c, s).list, n.token) == Some(n)
    ensures ResentCount(SendStep(c, s).log, TokenBytes(c.coapToken)) == ResentCount(c.log, TokenBytes(c.coapToken))
  {
    SendKeeps(c, s);
    PositionOf(SendStep(c, s).list, |c.list|);
  }

  /** Whatever else happens in the run: a confirmable request that is neither acknowledged nor answered
      is listed for sixteen timer cycles and is gone from the seventeenth on, and has been retransmitted
      once from the 3rd cycle on, twice from the 8th and three times from the 17th. */
  lemma ConInRun(c: Ctx, s: Send, es: seq<Event>)
    requires Good(c) && |c.requests| + 1 + Sends(es) <= TOKENS
    requires s.con && s.fits && s.written && s.alloc
    requires Undisturbed(es, FreshNode(true, s.resp, s.user, IssuedId(c.messageId), TokenBytes(c.coapToken)))
    ensures var n := FreshNode(true, s.resp, s.user, IssuedId(c.messageId), TokenBytes(c.coapToken));
            var d, t := Run(SendStep(c, s), es), Ticks(es);
            && Find(d.list, n.token) == ConAfter(n, t)
            && ResentCount(d.log, n.token) == ResentCount(c.log, n.token)
               + (if t >= 3 then 1 else 0) + (if t >= 8 then 1 else 0) + (if t >= 17 then 1 else 0)
  {
    var n := FreshNode(true, s.resp, s.user, IssuedId(c.messageId), TokenBytes(c.coapToken));
    SentIsFound(c, s);
    RunMoves(SendStep(c, s), es, n);
    ConSchedule(n, Ticks(es));
  }

  /** A request that is not confirmable is listed for ten cycles and never retransmitted. */
  lemma NonInRun(c: Ctx, s: Send, es: seq<Event>)
    requires Good(c) && |c.requests| + 1 + Sends(es) <= TOKENS
    requires !s.con && s.fits && s.written && s.alloc
    requires Undisturbed(es, FreshNode(false, s.resp, s.user, IssuedId(c.messageId), TokenBytes(c.coapToken)))
    ensures var n := FreshNode(false, s.resp, s.user, IssuedId(c.messageId), TokenBytes(c.coapToken));
            var d, t := Run(SendStep(c, s), es), Ticks(es);
            && Find(d.list, n.token) == (if t <= 10 then Some(n.(timeout := 10 - t)) else None)
            && ResentCount(d.log, n.token) == ResentCount(c.log, n.token)
  {
    hide Good, Find, Run, ResentCount, Undisturbed, TokenBytes, IssuedId;
    var n := FreshNode(false, s.resp, s.user, IssuedId(c.messageId), TokenBytes(c.coapToken));
    SentIsFound(c, s);
    RunMoves(SendStep(c, s), es, n);
    NonSchedule(n, Ticks(es));
  }

  /** An acknowledged confirmable request stays listed through every run without a response that
      carries its token, however long, and is never retransmitted again. */
  lemma AckedInRun(c: Ctx, es: seq<Event>, n: Node)
    requires Good(c) && |c.requests| + Sends(es) <= TOKENS
    requires Find(c.list, n.token) == Some(n) && n.acked && n.retrans < MAX_RETRY_COUNT
    requires forall i :: 0 <= i < |es| && es[i].Receive? && 2 <= es[i].m.code / 32 <= 5 ==> es[i].m.token != n.token
    ensures Find(Run(c, es).list, n.token).Some?
    ensures ResentCount(Run(c, es).log, n.token) == ResentCount(c.log, n.token)
  {
    var i := Position(c.list, n.token);
    assert Shaped(c.list[i]);
    RunMoves(c, es, n);
    AckedSchedule(n, Ticks(es));
  }

  // ----- acknowledgements -----

  /** The position of the first node with the message id, or the length of the list. */
  function FirstWithId(list: seq<Node>, msgid: u16): (i: nat)
    ensures i <= |list| && (i < |list| ==> list[i].msgid == msgid)
    ensures forall j :: 0 <= j < i ==> list[j].msgid != msgid
  {
    if list == [] || list[0].msgid == msgid then 0 else 1 + FirstWithId(list[1..], msgid)
  }

  lemma {:induction false} AcknowledgeFirst(list: seq<Node>, msgid: u16)
    ensures var i := FirstWithId(list, msgid);
            Acknowledge(list, msgid) == if i < |list| then list[i := list[i].(acked := true)] else list
  {
    if list != [] {
      AcknowledgeFirst(list[1..], msgid);
      assert list == [list[0]] + list[1..];
    }
  }

  /** An empty acknowledgement is a message of type 2 and code 0.00.  It marks the first node of its id, and
      changes nothing else. */
  lemma AckMarksFirst(c: Ctx, m: Received)
    requires m.mtype == 2 && m.code == 0
    ensures var i := FirstWithId(c.list, m.msgid);
            ReceiveStep(c, m) == if i < |c.list| then c.(list := c.list[i := c.list[i].(acked := true)]) else c
  {
    AcknowledgeFirst(c.list, m.msgid);
  }

  /** An acknowledgement marks a listed node that carries its message id exactly if no node before it
      carries the same one; all other nodes it leaves as they were. */
  lemma AckMarksExactly(c: Ctx, m: Received, i: nat)
    requires m.mtype == 2 && m.code == 0 && i < |c.list| && c.list[i].msgid == m.msgid && !c.list[i].acked
    ensures var l := ReceiveStep(c, m).list;
            && |l| == |c.list|
            && (l[i] == c.list[i].(acked := true) <==> forall j :: 0 <= j < i ==> c.list[j].msgid != m.msgid)
            && (forall j :: 0 <= j < |l| && c.list[j].msgid != m.msgid ==> l[j] == c.list[j])
  {
    AcknowledgeFirst(c.list, m.msgid);
    var f := FirstWithId(c.list, m.msgid);
    assert f <= i;
  }

  /** As long as the ids last, two listed requests have different ones. */
  lemma IdsAreDistinct(c: Ctx, i: nat, j: nat)
    requires Good(c) && |c.requests| <= 65534 && i < j < |c.list|
    ensures c.list[i].msgid != c.list[j].msgid
  {
    var k :| 0 <= k < |c.requests| && c.requests[k] == RequestOf(c.list[i]);
    var h :| 0 <= h < |c.requests| && c.requests[h] == RequestOf(c.list[j]);
    assert k != h;
  }

  /** In a run of at most 65534 requests an acknowledgement marks the request it names, and nothing else
      happens to any request. */
  lemma AckMarks(c: Ctx, m: Received, i: nat)
    requires Good(c) && |c.requests| <= 65534 && m.mtype == 2 && m.code == 0 && i < |c.list| && m.msgid == c.list[i].msgid
    ensures ReceiveStep(c, m).list == c.list[i := c.list[i].(acked := true)]
  {
    AcknowledgeFirst(c.list, m.msgid);
    var f := FirstWithId(c.list, m.msgid);
    if f < i {
      IdsAreDistinct(c, f, i);
    }
  }

  /** One request is listed, `n` are not written, one more is listed. */
  function FirstAndLast(n: nat): Ctx {
    var sent := Send(true, None, 0, true, true, true);
    SendStep(Run(SendStep(Initial, sent), Requests(n, false)), sent)
  }

  /** Then ids come back: with 65533 or more requests between the two, the acknowledgement of the last
      request marks the first one, which is still waiting. */
  lemma AckMarksAnother(n: nat)
    requires 65533 <= n <= TOKENS - 2
    ensures var c := FirstAndLast(n);
            && Good(c) && |c.list| == 2 && |c.requests| == n + 2 && c.list[1].msgid == c.requests[n + 1].msgid == 1
            && var l := ReceiveStep(c, Received(TYPE_ACK, CODE_EMPTY, 1, [])).list;
            l == [c.list[0].(acked := true), c.list[1]] && !l[1].acked
  {
    hide Run, Requests, Good;
    var sent := Send(true, None, 0, true, true, true);
    InitialIsGood();
    var c1 := SendStep(Initial, sent);
    SendKeeps(Initial, sent);
    RequestsInARow(c1, n, false);
    RunKeeps(c1, Requests(n, false));
    var c2 := Run(c1, Requests(n, false));
    IdsOfGood(c2);
    SendKeeps(c2, sent);
    var c := SendStep(c2, sent);
    assert c.list == [c1.list[0], FreshNode(true, None, 0, 1, TokenBytes(c2.coapToken))];
    AcknowledgeFirst(c.list, 1);
    assert FirstWithId(c.list, 1) == 0;
  }

  lemma InitialIsGood()
    ensures Good(Initial)
  {
  }

  lemma IdsOfGood(c: Ctx)
    requires Good(c)
    ensures c.messageId == (if |c.requests| < 65534 then |c.requests| + 1 else MAX_MESSAGE_ID) && !Refuses(c.layout)
  {
  }
}
