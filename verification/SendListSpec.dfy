/** The reliable-send list as a state machine over values (RFC 7252 sections 4.2, 4.4, 4.8, 5.3.1, 5.3.2). */
module SendListSpec {
  import opened Bytes

  const TYPE_CON := 0
  const TYPE_ACK := 2
  const CODE_EMPTY := 0
  const MAX_MESSAGE_ID: u16 := 65535
  const MAX_RETRY_COUNT := 4
  const ACK_TIMEOUT := 2
  const MAX_TRANSMISSION_SPAN := 10
  const LIST_MAX_ITEM: byte := 10
  const INIT_TOKEN: u32 := 0x0102_0304

  /** A request waiting for its response; `user` and `resp` stand for the user data and the handler. */
  datatype Node = Node(user: int, resp: Option<int>, msgid: u16, token: seq<byte>, acked: bool,
                       retrans: nat, timeout: u16, timeoutVal: u16)

  /** What the context does to the outside: a retransmission, an empty ACK, a handler call. */
  datatype Output = Resent(token: seq<byte>) | EmptyAck(msgid: u16) | Called(token: seq<byte>, resp: int, user: int)

  /** A request handed to the API, with the identifiers it was given. */
  datatype Request = Request(token: seq<byte>, msgid: u16, resp: Option<int>, user: int)

  /** Where the compiler puts the two counters of the list. */
  datatype Layout = Layout(countAt: nat, maxcountAt: nat)

  /** In the header `count` is declared before `maxcount`; both are bytes. */
  const DECLARED := Layout(0, 1)

  /** The context; `requests` and `log` are its history. */
  datatype Ctx = Ctx(layout: Layout, maxcount: byte, list: seq<Node>, count: byte, messageId: u16, coapToken: u32,
                     requests: seq<Request>, log: seq<Output>)

  function Start(layout: Layout, maxcount: byte): Ctx {
    Ctx(layout, maxcount, [], 0, 1, INIT_TOKEN, [], [])
  }

  /** The context as the API creates it. */
  const Initial := Start(DECLARED, LIST_MAX_ITEM)

  /** The test before a node is listed.  It compares the addresses of the two counters. */
  predicate Refuses(layout: Layout) {
    layout.countAt >= layout.maxcountAt
  }

  /** The header fields of a received message that the list looks at. */
  datatype Received = Received(mtype: int, code: int, msgid: u16, token: seq<byte>)

  /** The environment's part in a send: whether the message fits, whether the network took it, whether
      there is memory for the node. */
  datatype Send = Send(con: bool, resp: Option<int>, user: int, fits: bool, written: bool, alloc: bool)

  datatype Event = DoSend(s: Send) | Receive(m: Received) | Tick

  // ----- identifiers -----

  function TokenBytes(v: u32): (t: seq<byte>)
    ensures |t| == 4
  {
    [v % 0x100, v / 0x100 % 0x100, v / 0x1_0000 % 0x100, v / 0x100_0000]
  }

  function TokenValue(t: seq<byte>): u32
    requires |t| == 4
  {
    t[3] as int * 0x100_0000 + t[2] as int * 0x1_0000 + t[1] as int * 0x100 + t[0] as int
  }

  lemma TokenRoundTrip(v: u32)
    ensures TokenValue(TokenBytes(v)) == v
  {
    assert v / 0x1_0000 == v / 0x100 / 0x100 && v / 0x100_0000 == v / 0x100 / 0x100 / 0x100;
  }

  function NextId(id: u16): u16 {
    if id == MAX_MESSAGE_ID then id else id + 1
  }

  function IssuedId(id: u16): u16 {
    if id == MAX_MESSAGE_ID then 1 else id
  }

  // ----- sending -----

  function FreshNode(con: bool, resp: Option<int>, user: int, msgid: u16, token: seq<byte>): Node {
    if con then Node(user, resp, msgid, token, false, 0, ACK_TIMEOUT, ACK_TIMEOUT)
    else Node(user, resp, msgid, token, false, MAX_RETRY_COUNT, MAX_TRANSMISSION_SPAN, ACK_TIMEOUT)
  }

  /** One API request: identifiers are taken first; the node enters the list only when the message was
      written. */
  function SendStep(c: Ctx, s: Send): Ctx {
    var token, msgid := TokenBytes(c.coapToken), IssuedId(c.messageId);
    var c1 := c.(messageId := NextId(c.messageId), coapToken := (c.coapToken + 1) % 0x1_0000_0000,
                 requests := c.requests + [Request(token, msgid, s.resp, s.user)]);
    if s.fits && s.written && s.alloc && !Refuses(c.layout) then
      c1.(list := c.list + [FreshNode(s.con, s.resp, s.user, msgid, token)], count := (c.count + 1) % 0x100)
    else c1
  }

  // ----- receiving -----

  predicate IsAck(m: Received) { m.code == CODE_EMPTY && m.mtype == TYPE_ACK }
  predicate IsResponse(m: Received) { 0x40 <= m.code < 0xC0 }

  /** The first node with the message id is marked. */
  function Acknowledge(list: seq<Node>, msgid: u16): seq<Node> {
    if list == [] then []
    else if list[0].msgid == msgid then [list[0].(acked := true)] + list[1..]
    else [list[0]] + Acknowledge(list[1..], msgid)
  }

  predicate Matches(n: Node, token: seq<byte>) { n.token != [] && n.token == token }

  /** The position of the first node that carries the token, or the length of the list. */
  function Position(list: seq<Node>, token: seq<byte>): (i: nat)
    ensures i <= |list| && (i < |list| ==> Matches(list[i], token))
    ensures forall j :: 0 <= j < i ==> !Matches(list[j], token)
  {
    if list == [] || Matches(list[0], token) then 0 else 1 + Position(list[1..], token)
  }

  function ResponseStep(c: Ctx, m: Received): Ctx {
    var log := c.log + if m.mtype == TYPE_CON then [EmptyAck(m.msgid)] else [];
    var i := Position(c.list, m.token);
    if i == |c.list| then c.(log := log)
    else
      var n := c.list[i];
      c.(list := c.list[..i] + c.list[i + 1..], count := (c.count - 1) % 0x100,
         log := log + if n.resp.Some? then [Called(n.token, n.resp.value, n.user)] else [])
  }

  function ReceiveStep(c: Ctx, m: Received): Ctx {
    if IsAck(m) then c.(list := Acknowledge(c.list, m.msgid))
    else if IsResponse(m) then ResponseStep(c, m)
    else c
  }

  // ----- the timer cycle -----

  /** What the cycle makes of one node: None when it leaves the list. */
  function CycleNode(n: Node): (r: Option<Node>)
    ensures r.Some? ==> SameRequest(r.value, n)
  {
    if n.timeout == 0 then
      var n1 := if Resends(n) then
                  var t := n.timeoutVal * 2 % 0x1_0000;
                  n.(timeout := t, timeoutVal := t, retrans := n.retrans + 1)
                else n;
      if n1.timeout > MAX_TRANSMISSION_SPAN || n1.retrans >= MAX_RETRY_COUNT then None else Some(n1)
    else Some(n.(timeout := n.timeout - 1))
  }

  predicate SameRequest(m: Node, n: Node) {
    m.token == n.token && m.msgid == n.msgid && m.acked == n.acked && m.resp == n.resp && m.user == n.user
  }

  predicate Resends(n: Node) {
    n.timeout == 0 && n.retrans < MAX_RETRY_COUNT && !n.acked
  }

  function CycleList(list: seq<Node>): (r: seq<Node>)
    ensures |r| <= |list|
  {
    if list == [] then []
    else (match CycleNode(list[0]) case None => [] case Some(n) => [n]) + CycleList(list[1..])
  }

  function CycleLog(list: seq<Node>): seq<Output> {
    if list == [] then []
    else (if Resends(list[0]) then [Resent(list[0].token)] else []) + CycleLog(list[1..])
  }

  function TickStep(c: Ctx): Ctx {
    var l := CycleList(c.list);
    c.(list := l, count := (c.count - (|c.list| - |l|)) % 0x100, log := c.log + CycleLog(c.list))
  }

  function Step(c: Ctx, e: Event): Ctx {
    match e
    case DoSend(s) => SendStep(c, s)
    case Receive(m) => ReceiveStep(c, m)
    case Tick => TickStep(c)
  }

  function Run(c: Ctx, es: seq<Event>): Ctx
    decreases |es|
  {
    if es == [] then c else Run(Step(c, es[0]), es[1..])
  }

  function Sends(es: seq<Event>): nat {
    if es == [] then 0 else (if es[0].DoSend? then 1 else 0) + Sends(es[1..])
  }

  function Ticks(es: seq<Event>): nat {
    if es == [] then 0 else (if es[0].Tick? then 1 else 0) + Ticks(es[1..])
  }
}
