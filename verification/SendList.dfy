/** The reliable-send list of the cloud CoAP context, updated in place. */
module SendList {
  import opened Bytes
  import opened SendListSpec

  class Context {
    const layout: Layout
    const maxcount: byte
    var message_id: u16
    var coap_token: u32
    var sendlist: seq<Node>
    var count: byte
    ghost var requests: seq<Request>
    ghost var log: seq<Output>

    ghost function View(): Ctx
      reads this
    {
      Ctx(layout, maxcount, sendlist, count, message_id, coap_token, requests, log)
    }

    constructor Create(at: Layout, max: byte)
      ensures View() == Start(at, max)
    {
      layout, maxcount := at, max;
      message_id, coap_token, sendlist, count := 1, INIT_TOKEN, [], 0;
      requests, log := [], [];
    }

    method MessageIdGen() returns (id: u16)
      modifies this`message_id
      ensures id == IssuedId(old(message_id)) && message_id == NextId(old(message_id))
    {
      if message_id == MAX_MESSAGE_ID {
        id := 1;
      } else {
        id := message_id;
        message_id := message_id + 1;
      }
    }

    method GetCoapToken() returns (token: seq<byte>)
      modifies this`coap_token
      ensures token == TokenBytes(old(coap_token)) && coap_token == (old(coap_token) + 1) % 0x1_0000_0000
    {
      var value := coap_token;
      token := [value % 0x100, value / 0x100 % 0x100, value / 0x1_0000 % 0x100, value / 0x100_0000];
      coap_token := (coap_token as int + 1) % 0x1_0000_0000;
    }

    /** Builds and sends one request; requests carry a method code, so a written one is listed. */
    method SendRequest(s: Send)
      modifies this
      ensures View() == SendStep(old(View()), s)
    {
      var msgid := MessageIdGen();
      var token := GetCoapToken();
      requests := requests + [Request(token, msgid, s.resp, s.user)];
      if s.fits && s.written {
        ListAdd(s, msgid, token);
      }
    }

    method ListAdd(s: Send, msgid: u16, token: seq<byte>)
      modifies this`sendlist, this`count
      ensures if s.alloc && !Refuses(layout) then sendlist == old(sendlist) + [FreshNode(s.con, s.resp, s.user, msgid, token)]
                           && count == (old(count) + 1) % 0x100
              else sendlist == old(sendlist) && count == old(count)
    {
      if s.alloc {
        var node := Node(s.user, s.resp, msgid, token, false, 0, 0, ACK_TIMEOUT);
        if s.con {
          node := node.(timeout := node.timeoutVal, retrans := 0);
        } else {
          node := node.(timeout := MAX_TRANSMISSION_SPAN, retrans := MAX_RETRY_COUNT);
        }
        if layout.countAt >= layout.maxcountAt {
          return;
        }
        sendlist := sendlist + [node];
        count := (count as int + 1) % 0x100;
      }
    }

    method AckMessageHandle(m: Received)
      modifies this`sendlist
      ensures sendlist == Acknowledge(old(sendlist), m.msgid)
    {
      var i := 0;
      while i < |sendlist|
        invariant i <= |sendlist| && sendlist == old(sendlist)
        invariant forall j :: 0 <= j < i ==> sendlist[j].msgid != m.msgid
      {
        if sendlist[i].msgid == m.msgid {
          AcknowledgeAt(sendlist, i, m.msgid);
          sendlist := sendlist[i := sendlist[i].(acked := true)];
          return;
        }
        i := i + 1;
      }
      AcknowledgeNone(sendlist, m.msgid);
    }

    method RespMessageHandle(m: Received)
      modifies this`sendlist, this`count, this`log
      ensures View() == ResponseStep(old(View()), m)
    {
      if m.mtype == TYPE_CON {
        log := log + [EmptyAck(m.msgid)];
      }
      var i := 0;
      while i < |sendlist|
        invariant i <= Position(sendlist, m.token) && sendlist == old(sendlist) && count == old(count)
        invariant log == old(log) + if m.mtype == TYPE_CON then [EmptyAck(m.msgid)] else []
      {
        var node := sendlist[i];
        if |node.token| != 0 && node.token == m.token {
          assert i == Position(sendlist, m.token);
          if node.resp.Some? {
            log := log + [Called(node.token, node.resp.value, node.user)];
          }
          sendlist := sendlist[..i] + sendlist[i + 1..];
          count := (count as int - 1) % 0x100;
          return;
        }
        i := i + 1;
      }
    }

    method MessageHandle(m: Received)
      modifies this`sendlist, this`count, this`log
      ensures View() == ReceiveStep(old(View()), m)
    {
      if IsAck(m) {
        AckMessageHandle(m);
      } else if IsResponse(m) {
        RespMessageHandle(m);
      }
    }

    /** Handles the messages that arrive before the read times out, at most `readcount` of them unless
        that is 0. */
    method MessageRecv(arrivals: seq<Received>, readcount: nat)
      modifies this`sendlist, this`count, this`log
      ensures View() == Run(old(View()), Receives(if readcount == 0 || |arrivals| < readcount then arrivals else arrivals[..readcount]))
    {
      ghost var c0 := View();
      var i := 0;
      var count_ := readcount;
      while i < |arrivals|
        invariant i <= |arrivals|
        invariant readcount == 0 || count_ == readcount - i > 0
        invariant requests == c0.requests && message_id == c0.messageId && coap_token == c0.coapToken
        invariant View() == Run(c0, Receives(arrivals[..i]))
      {
        MessageHandle(arrivals[i]);
        ReceivesAppend(arrivals, i);
        RunAppend(c0, Receives(arrivals[..i]), Receive(arrivals[i]));
        i := i + 1;
        if readcount != 0 {
          count_ := count_ - 1;
          if count_ == 0 {
            assert i == readcount;
            assert arrivals[..readcount] == if |arrivals| < readcount then arrivals else arrivals[..readcount];
            return;
          }
        }
      }
      assert arrivals[..i] == arrivals;
    }

    /** One node's turn in the walk: None when it leaves the list. */
    static method WalkNode(n: Node) returns (next: Option<Node>, resent: bool)
      ensures next == CycleNode(n) && resent == Resends(n)
    {
      var node := n;
      resent := false;
      if node.timeout == 0 {
        if node.retrans < MAX_RETRY_COUNT && !node.acked {
          node := node.(timeout := node.timeoutVal as int * 2 % 0x1_0000);
          node := node.(timeoutVal := node.timeout);
          node := node.(retrans := node.retrans + 1);
          resent := true;
        }
        if node.timeout > MAX_TRANSMISSION_SPAN || node.retrans >= MAX_RETRY_COUNT {
          return None, resent;
        }
      } else {
        node := node.(timeout := node.timeout - 1);
      }
      return Some(node), resent;
    }

    /** One turn of the walk: the node at `i` is unlinked or stays. */
    method Turn(i: nat) returns (next: Option<Node>)
      requires i < |sendlist|
      modifies this`sendlist, this`count, this`log
      ensures next == CycleNode(old(sendlist)[i])
      ensures sendlist == old(sendlist)[..i] + (if next.Some? then [next.value] else []) + old(sendlist)[i + 1..]
      ensures count == if next.Some? then old(count) else OneLess(old(count))
      ensures log == if Resends(old(sendlist)[i]) then old(log) + [Resent(old(sendlist)[i].token)] else old(log)
    {
      hide CycleNode, Resends, OneLess;
      var resent;
      next, resent := WalkNode(sendlist[i]);
      if resent {
        log := log + [Resent(sendlist[i].token)];
      }
      if next.None? {
        sendlist := sendlist[..i] + sendlist[i + 1..];
        count := OneLess(count);
      } else {
        sendlist := sendlist[..i] + [next.value] + sendlist[i + 1..];
      }
    }

    /** The walk of the timer cycle. */
    method Walk()
      modifies this`sendlist, this`count, this`log
      ensures View() == TickStep(old(View()))
    {
      hide CycleList, CycleLog, Walked, CycleNode, Resends, CountLess, OneLess, TickStep, Boundary;
      ghost var l0, g0, n0, c0 := sendlist, log, count, View();
      ghost var k, gone := 0, 0;             // nodes seen, nodes removed
      ghost var done: seq<Node> := [];       // nodes kept
      var i := 0;                            // position in the shrinking list
      WalkStart(l0, g0);
      CountOneLess(count, 0);
      while i < |sendlist|
        invariant k <= |l0| && i == |done| && k == i + gone
        invariant Boundary(sendlist, done, l0, k)
        invariant Walked(l0, k, done, g0, log)
        invariant count == CountLess(n0, gone)
        decreases |l0| - k
      {
        ghost var list := sendlist;
        AtBoundary(sendlist, done, l0, k);
        WalkStep(l0, k, done, g0, log);
        CountOneLess(n0, gone);
        var next := Turn(i);
        BoundaryMoves(list, sendlist, done, l0, k, next);
        if next.None? {
          gone := gone + 1;
        } else {
          done := done + [next.value];
          i := i + 1;
        }
        k := k + 1;
      }
      AtBoundary(sendlist, done, l0, k);
      WalkEnd(l0, done, g0, log);
      WalkIsTick(c0, View());
    }

    /** The timer cycle: what has arrived is handled, then the list is walked. */
    method Cycle(arrivals: seq<Received>)
      modifies this`sendlist, this`count, this`log
      ensures View() == Run(old(View()), Receives(arrivals) + [Tick])
    {
      ghost var c0 := View();
      MessageRecv(arrivals, 0);
      Walk();
      RunAppend(c0, Receives(arrivals), Tick);
    }
  }

  lemma {:induction false} AcknowledgeAt(list: seq<Node>, i: nat, msgid: u16)
    requires i < |list| && list[i].msgid == msgid && forall j :: 0 <= j < i ==> list[j].msgid != msgid
    ensures Acknowledge(list, msgid) == list[i := list[i].(acked := true)]
  {
    if i > 0 {
      assert forall j :: 0 <= j < i - 1 ==> list[1..][j] == list[j + 1];
      AcknowledgeAt(list[1..], i - 1, msgid);
    }
  }

  lemma {:induction false} AcknowledgeNone(list: seq<Node>, msgid: u16)
    requires forall j :: 0 <= j < |list| ==> list[j].msgid != msgid
    ensures Acknowledge(list, msgid) == list
  {
    if list != [] {
      assert forall j :: 0 <= j < |list| - 1 ==> list[1..][j] == list[j + 1];
      AcknowledgeNone(list[1..], msgid);
    }
  }

  /** The counter, an 8-bit number, after `n` removals. */
  function CountLess(count: byte, n: nat): byte {
    (count - n) % 0x100
  }

  lemma CountOneLess(count: byte, n: nat)
    ensures CountLess(count, 0) == count
    ensures OneLess(CountLess(count, n)) == CountLess(count, n + 1)
  {
  }

  lemma CountIs(count: byte, n: nat)
    ensures CountLess(count, n) == (count - n) % 0x100
  {
  }

  /** The state of the walk with `k` nodes of `l0` seen and `done` kept. */
  ghost predicate Walked(l0: seq<Node>, k: nat, done: seq<Node>, g0: seq<Output>, log: seq<Output>) {
    && k <= |l0|
    && done + CycleList(l0[k..]) == CycleList(l0)
    && log + CycleLog(l0[k..]) == g0 + CycleLog(l0)
  }

  lemma WalkStart(l0: seq<Node>, g0: seq<Output>)
    ensures Walked(l0, 0, [], g0, g0) && Boundary(l0, [], l0, 0)
  {
    assert l0[0..] == l0 && [] + l0 == l0 && [] + CycleList(l0) == CycleList(l0);
  }

  lemma WalkStep(l0: seq<Node>, k: nat, done: seq<Node>, g0: seq<Output>, log: seq<Output>)
    requires Walked(l0, k, done, g0, log) && k < |l0|
    ensures var out := if Resends(l0[k]) then log + [Resent(l0[k].token)] else log;
            match CycleNode(l0[k])
            case None => Walked(l0, k + 1, done, g0, out)
            case Some(n) => Walked(l0, k + 1, done + [n], g0, out)
  {
    var rest := l0[k..];
    assert rest[0] == l0[k] && rest[1..] == l0[k + 1..];
    assert log + ([Resent(l0[k].token)] + CycleLog(rest[1..])) == log + [Resent(l0[k].token)] + CycleLog(rest[1..]);
    assert log + ([] + CycleLog(rest[1..])) == log + CycleLog(rest[1..]);
    match CycleNode(l0[k]) {
      case None => assert done + ([] + CycleList(rest[1..])) == done + CycleList(rest[1..]);
      case Some(n) => assert done + ([n] + CycleList(rest[1..])) == done + [n] + CycleList(rest[1..]);
    }
  }

  lemma WalkIsTick(c: Ctx, d: Ctx)
    requires d.list == CycleList(c.list) && d.log == c.log + CycleLog(c.list)
    requires d.count == CountLess(c.count, |c.list| - |d.list|)
    requires d == c.(list := d.list, log := d.log, count := d.count)
    ensures d == TickStep(c)
  {
    hide CycleLog;
    CountIs(c.count, |c.list| - |d.list|);
  }

  lemma WalkEnd(l0: seq<Node>, done: seq<Node>, g0: seq<Output>, log: seq<Output>)
    requires Walked(l0, |l0|, done, g0, log)
    ensures done == CycleList(l0) && log == g0 + CycleLog(l0)
  {
    assert l0[|l0|..] == [] && done + [] == done && log + [] == log;
  }

  function Receives(ms: seq<Received>): (es: seq<Event>)
    ensures |es| == |ms| && forall i :: 0 <= i < |es| ==> es[i] == Receive(ms[i])
  {
    if ms == [] then [] else [Receive(ms[0])] + Receives(ms[1..])
  }

  lemma ReceivesAppend(ms: seq<Received>, i: nat)
    requires i < |ms|
    ensures Receives(ms[..i + 1]) == Receives(ms[..i]) + [Receive(ms[i])]
  {
  }

  lemma {:induction false} RunAppend(c: Ctx, es: seq<Event>, e: Event)
    ensures Run(c, es + [e]) == Step(Run(c, es), e)
    decreases |es|
  {
    if es == [] {
      assert (es + [e])[1..] == [];
    } else {
      assert (es + [e])[1..] == es[1..] + [e];
      RunAppend(Step(c, es[0]), es[1..], e);
    }
  }
}
