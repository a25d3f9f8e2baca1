/** The cache of outstanding requests, the bounded queue of user events, and the reply handling between
    them.  Each method is one call under its lock. */
module MessageCache {
  import opened Bytes

  const CACHE_MAX := 50          // CONFIG_MSGCACHE_QUEUE_MAXLEN
  const TIMEOUT_MS := 10000      // DM_MSG_CACHE_TIMEOUT_MS_DEFAULT
  const CODE_TIMEOUT := 100000   // IOTX_DM_ERR_CODE_TIMEOUT

  datatype Entry = Entry(msgid: int, devid: int, kind: int, ctime: nat)
  datatype UserEvent = UserEvent(kind: int, id: int, code: int, devid: int)
  datatype Status = Success | Fail | InvalidParameter | NoMemory

  // ----- one tick -----

  /** The entry as the tick leaves it: a creation time in the future is pulled back to now. */
  function Pulled(e: Entry, now: nat): Entry {
    if now < e.ctime then e.(ctime := now) else e
  }

  predicate Overdue(e: Entry, now: nat) {
    now - Pulled(e, now).ctime >= TIMEOUT_MS
  }

  function Remaining(list: seq<Entry>, now: nat): seq<Entry> {
    if list == [] then []
    else (if Overdue(list[0], now) then [] else [Pulled(list[0], now)]) + Remaining(list[1..], now)
  }

  function Expired(list: seq<Entry>, now: nat): seq<Entry> {
    if list == [] then []
    else (if Overdue(list[0], now) then [list[0]] else []) + Expired(list[1..], now)
  }

  function TimeoutEvent(e: Entry): UserEvent {
    UserEvent(e.kind, e.msgid, CODE_TIMEOUT, e.devid)
  }

  function TimeoutEvents(es: seq<Entry>): seq<UserEvent> {
    if es == [] then [] else [TimeoutEvent(es[0])] + TimeoutEvents(es[1..])
  }

  /** What the user is told of an entry that timed out: its kind, its id, the code of a timeout and the device
      it was stored with. */
  lemma {:induction false} TimeoutEventsTell(es: seq<Entry>)
    ensures |TimeoutEvents(es)| == |es|
    ensures forall i :: 0 <= i < |es| ==>
              var u := TimeoutEvents(es)[i];
              u.kind == es[i].kind && u.id == es[i].msgid && u.code == 100000 && u.devid == es[i].devid
  {
    if es != [] { TimeoutEventsTell(es[1..]); }
  }

  /** Events offered to the queue one by one; a full queue drops them. */
  function Offered(queue: seq<UserEvent>, es: seq<UserEvent>, max: int): seq<UserEvent>
    decreases |es|
  {
    if es == [] then queue
    else Offered(if |queue| >= max then queue else queue + [es[0]], es[1..], max)
  }

  /** The queue takes events until it is full: a prefix of what is offered, in order. */
  lemma {:induction false} OfferedIsPrefix(queue: seq<UserEvent>, es: seq<UserEvent>, max: int)
    requires |queue| <= max
    ensures var room := max - |queue|;
            Offered(queue, es, max) == queue + if |es| <= room then es else es[..room]
    decreases |es|
  {
    if es == [] {
      assert queue + [] == queue;
    } else if |queue| >= max {
      OfferedIsPrefix(queue, es[1..], max);
      assert queue + es[..0] == queue;
      assert queue + es[1..][..0] == queue;
    } else {
      var q := queue + [es[0]];
      OfferedIsPrefix(q, es[1..], max);
      var room := max - |queue|;
      if |es| <= room {
        assert q + es[1..] == queue + es;
      } else {
        assert q + es[1..][..room - 1] == queue + es[..room];
      }
    }
  }

  /** After a tick every remaining entry is younger than the timeout, even if the clock went backwards. */
  lemma {:induction false} TickLeavesYoung(list: seq<Entry>, now: nat)
    ensures forall e :: e in Remaining(list, now) ==> e.ctime <= now < e.ctime + 10000
  {
    if list != [] { TickLeavesYoung(list[1..], now); }
  }

  function PulledAll(list: seq<Entry>, now: nat): (r: seq<Entry>)
    ensures |r| == |list| && forall i :: 0 <= i < |list| ==> r[i] == Pulled(list[i], now)
  {
    if list == [] then [] else [Pulled(list[0], now)] + PulledAll(list[1..], now)
  }

  /** The first list is what is left of the second when some of its elements are crossed out. */
  predicate IsSublist(a: seq<Entry>, b: seq<Entry>) {
    a == [] || (b != [] && if a[0] == b[0] then IsSublist(a[1..], b[1..]) else IsSublist(a, b[1..]))
  }

  /** A tick takes away exactly the entries created at least the timeout ago, keeps the order on both
      sides, and loses and doubles nothing. */
  lemma TickPartitions(list: seq<Entry>, now: nat)
    ensures IsSublist(Remaining(list, now), PulledAll(list, now)) && IsSublist(Expired(list, now), list)
    ensures multiset(PulledAll(list, now)) == multiset(Remaining(list, now)) + multiset(PulledAll(Expired(list, now), now))
    ensures forall e :: e in Expired(list, now) <==> e in list && e.ctime + 10000 <= now
    ensures forall e :: e in Remaining(list, now) ==> e.ctime + 10000 > now
    ensures forall i :: 0 <= i < |list| ==>
              PulledAll(list, now)[i] == if now < list[i].ctime then list[i].(ctime := now) else list[i]
  {
    hide IsSublist, PulledAll, Remaining, Expired;
    TickKeepsOrder(list, now);
    TickKeepsCounts(list, now);
    TickDivides(list, now);
  }

  lemma {:induction false} TickKeepsOrder(list: seq<Entry>, now: nat)
    ensures IsSublist(Remaining(list, now), PulledAll(list, now)) && IsSublist(Expired(list, now), list)
  {
    if list != [] {
      var first, rest := list[0], list[1..];
      TickKeepsOrder(rest, now);
      assert list == [first] + rest;
      if Overdue(first, now) {
        assert Remaining(list, now) == Remaining(rest, now) && Expired(list, now) == [first] + Expired(rest, now);
        SublistSkips(Remaining(rest, now), Pulled(first, now), PulledAll(rest, now));
        SublistBoth(first, Expired(rest, now), rest);
      } else {
        assert Expired(list, now) == Expired(rest, now) && Remaining(list, now) == [Pulled(first, now)] + Remaining(rest, now);
        SublistSkips(Expired(rest, now), first, rest);
        SublistBoth(Pulled(first, now), Remaining(rest, now), PulledAll(rest, now));
      }
    }
  }

  lemma SublistBoth(x: Entry, a: seq<Entry>, b: seq<Entry>)
    requires IsSublist(a, b)
    ensures IsSublist([x] + a, [x] + b)
  {
    assert ([x] + a)[1..] == a && ([x] + b)[1..] == b;
  }

  lemma Unfolded(list: seq<Entry>, now: nat)
    requires list != []
    ensures PulledAll(list, now) == [Pulled(list[0], now)] + PulledAll(list[1..], now)
    ensures Remaining(list, now)
         == if Overdue(list[0], now) then Remaining(list[1..], now)
            else [Pulled(list[0], now)] + Remaining(list[1..], now)
    ensures PulledAll(Expired(list, now), now)
         == if Overdue(list[0], now) then [Pulled(list[0], now)] + PulledAll(Expired(list[1..], now), now)
            else PulledAll(Expired(list[1..], now), now)
  {
    assert [list[0]] + Expired(list[1..], now) != [];
    assert ([list[0]] + Expired(list[1..], now))[1..] == Expired(list[1..], now);
    assert [] + Expired(list[1..], now) == Expired(list[1..], now);
  }

  lemma {:induction false} TickKeepsCounts(list: seq<Entry>, now: nat)
    ensures multiset(PulledAll(list, now)) == multiset(Remaining(list, now)) + multiset(PulledAll(Expired(list, now), now))
  {
    if list == [] {
      assert PulledAll([], now) == [] && Remaining([], now) == [] && Expired([], now) == [];
    } else {
      TickKeepsCounts(list[1..], now);
      Unfolded(list, now);
      CountsWith(Pulled(list[0], now), PulledAll(list[1..], now), Remaining(list[1..], now), PulledAll(Expired(list[1..], now), now));
    }
  }

  lemma CountsWith(x: Entry, all: seq<Entry>, kept: seq<Entry>, gone: seq<Entry>)
    requires multiset(all) == multiset(kept) + multiset(gone)
    ensures multiset([x] + all) == multiset([x] + kept) + multiset(gone) == multiset(kept) + multiset([x] + gone)
  {
    assert multiset([x] + all) == multiset{x} + multiset(all);
    assert multiset([x] + kept) == multiset{x} + multiset(kept);
    assert multiset([x] + gone) == multiset{x} + multiset(gone);
  }

  lemma {:induction false} TickDivides(list: seq<Entry>, now: nat)
    ensures forall e :: e in Expired(list, now) <==> e in list && e.ctime + TIMEOUT_MS <= now
    ensures forall e :: e in Remaining(list, now) ==> e.ctime + TIMEOUT_MS > now
  {
    if list != [] {
      TickDivides(list[1..], now);
      assert list == [list[0]] + list[1..];
    }
  }

  /** One more element in front of the longer list does no harm. */
  lemma {:induction false} SublistSkips(a: seq<Entry>, x: Entry, b: seq<Entry>)
    requires IsSublist(a, b)
    ensures IsSublist(a, [x] + b)
    decreases |a| + |b|, 1
  {
    assert ([x] + b)[1..] == b;
    if a != [] && a[0] == x {
      SublistTail(a, b);
    }
  }

  lemma {:induction false} SublistTail(a: seq<Entry>, b: seq<Entry>)
    requires a != [] && IsSublist(a, b)
    ensures IsSublist(a[1..], b)
    decreases |a| + |b|, 0
  {
    assert b == [b[0]] + b[1..];
    if a[0] == b[0] {
      SublistSkips(a[1..], b[0], b[1..]);
    } else {
      SublistTail(a, b[1..]);
      SublistSkips(a[1..], b[0], b[1..]);
    }
  }

  // ----- lookup -----

  function IndexOf(list: seq<Entry>, msgid: int): (i: nat)
    ensures i <= |list| && (i < |list| ==> list[i].msgid == msgid)
    ensures forall j :: 0 <= j < i ==> list[j].msgid != msgid
  {
    if list == [] || list[0].msgid == msgid then 0 else 1 + IndexOf(list[1..], msgid)
  }

  function Without(list: seq<Entry>, msgid: int): seq<Entry> {
    var i := IndexOf(list, msgid);
    if i < |list| then list[..i] + list[i + 1..] else list
  }

  // ----- the event queue -----

  class EventQueue {
    const max_size: int
    var size: int
    var message_list: seq<UserEvent>

    predicate Valid()
      reads this
    {
      size == |message_list| <= max_size
    }

    constructor Init(max: nat)
      ensures Valid() && message_list == [] && max_size == max
    {
      max_size, size, message_list := max, 0, [];
    }

    method Insert(data: Option<UserEvent>, alloc: bool) returns (st: Status)
      requires Valid()
      modifies this
      ensures Valid()
      ensures st == if data.None? then InvalidParameter
                    else if |old(message_list)| >= max_size then Fail
                    else if !alloc then NoMemory else Success
      ensures message_list == if st == Success then old(message_list) + [data.value] else old(message_list)
    {
      if data.None? {
        return InvalidParameter;
      }
      if size >= max_size {
        return Fail;
      }
      if !alloc {
        return NoMemory;
      }
      size := size + 1;
      message_list := message_list + [data.value];
      return Success;
    }

    method Next() returns (st: Status, data: Option<UserEvent>)
      requires Valid()
      modifies this
      ensures Valid()
      ensures if old(message_list) == [] then st == Fail && data == None && message_list == []
              else st == Success && data.Some? && old(message_list) == [data.value] + message_list
    {
      if message_list == [] {
        return Fail, None;
      }
      var first := message_list[0];
      message_list := message_list[1..];
      size := size - 1;
      return Success, Some(first);
    }
  }

  // ----- the cache -----

  class Cache {
    var dmc_list: seq<Entry>
    var dmc_list_size: int

    predicate Valid()
      reads this
    {
      dmc_list_size == |dmc_list|
    }

    constructor Init()
      ensures Valid() && dmc_list == []
    {
      dmc_list, dmc_list_size := [], 0;
    }

    method Insert(msgid: int, devid: int, kind: int, now: nat, alloc: bool) returns (st: Status)
      requires Valid()
      modifies this
      ensures Valid()
      ensures st == if |old(dmc_list)| >= 50 then Fail else if !alloc then NoMemory else Success
      ensures dmc_list == if st == Success then old(dmc_list) + [Entry(msgid, devid, kind, now)] else old(dmc_list)
    {
      if dmc_list_size >= CACHE_MAX {
        return Fail;
      }
      if !alloc {
        return NoMemory;
      }
      dmc_list := dmc_list + [Entry(msgid, devid, kind, now)];
      dmc_list_size := dmc_list_size + 1;
      return Success;
    }

    method Search(msgid: int) returns (st: Status, node: Option<Entry>)
      requires Valid()
      ensures var i := IndexOf(dmc_list, msgid);
              if msgid <= 0 then st == InvalidParameter && node == None
              else if i < |dmc_list| then st == Success && node == Some(dmc_list[i])
              else st == Fail && node == None
    {
      if msgid <= 0 {
        return InvalidParameter, None;
      }
      var i := 0;
      while i < |dmc_list|
        invariant i <= IndexOf(dmc_list, msgid)
      {
        if dmc_list[i].msgid == msgid {
          assert i == IndexOf(dmc_list, msgid);
          return Success, Some(dmc_list[i]);
        }
        i := i + 1;
      }
      return Fail, None;
    }

    method Remove(msgid: int) returns (st: Status)
      requires Valid()
      modifies this
      ensures Valid()
      ensures dmc_list == Without(old(dmc_list), msgid)
      ensures st == if IndexOf(old(dmc_list), msgid) < |old(dmc_list)| then Success else Fail
    {
      var i := 0;
      while i < |dmc_list|
        invariant i <= IndexOf(dmc_list, msgid) && dmc_list == old(dmc_list) && Valid()
      {
        if dmc_list[i].msgid == msgid {
          assert i == IndexOf(dmc_list, msgid);
          dmc_list := dmc_list[..i] + dmc_list[i + 1..];
          dmc_list_size := dmc_list_size - 1;
          return Success;
        }
        i := i + 1;
      }
      return Fail;
    }

    /** The timeout walk.  A timeout event that the queue does not take is lost, its entry still goes. */
    method Tick(now: nat, queue: EventQueue)
      requires Valid() && queue.Valid()
      modifies this, queue
      ensures Valid() && queue.Valid()
      ensures dmc_list == Remaining(old(dmc_list), now)
      ensures queue.message_list == Offered(old(queue.message_list), TimeoutEvents(Expired(old(dmc_list), now)), queue.max_size)
    {
      hide Remaining, Expired, TimeoutEvents, Offered, Ticked, Boundary;
      ghost var l0, q0, k, done := dmc_list, queue.message_list, 0, [];
      TickStart(l0, q0, now, queue.max_size);
      var i := 0;
      while i < |dmc_list|
        invariant Valid() && queue.Valid()
        invariant k <= |l0| && i == |done| <= k && Boundary(dmc_list, done, l0, k)
        invariant Ticked(l0, k, done, q0, queue.message_list, now, queue.max_size)
        decreases |l0| - k
      {
        AtBoundary(dmc_list, done, l0, k);
        TickOne(l0, k, done, q0, queue.message_list, now, queue.max_size);
        ghost var list := dmc_list;
        var node, front, back := dmc_list[i], dmc_list[..i], dmc_list[i + 1..];
        if now < node.ctime {
          node := node.(ctime := now);
        }
        if now - node.ctime >= TIMEOUT_MS {
          var st := queue.Insert(Some(UserEvent(node.kind, node.msgid, CODE_TIMEOUT, node.devid)), true);
          dmc_list := front + back;
          dmc_list_size := dmc_list_size - 1;
          assert front + [] == front;
          BoundaryMoves(list, dmc_list, done, l0, k, None);
        } else {
          dmc_list := front + [node] + back;
          BoundaryMoves(list, dmc_list, done, l0, k, Some(node));
          done := done + [node];
          i := i + 1;
        }
        k := k + 1;
      }
      AtBoundary(dmc_list, done, l0, k);
      TickDone(l0, done, q0, queue.message_list, now, queue.max_size);
    }
  }

  /** The state of the timeout walk with `k` entries seen and `done` kept. */
  ghost predicate Ticked(l0: seq<Entry>, k: nat, done: seq<Entry>, q0: seq<UserEvent>, q: seq<UserEvent>, now: nat, max: int) {
    && k <= |l0|
    && done + Remaining(l0[k..], now) == Remaining(l0, now)
    && Offered(q, TimeoutEvents(Expired(l0[k..], now)), max) == Offered(q0, TimeoutEvents(Expired(l0, now)), max)
  }

  lemma TickStart(l0: seq<Entry>, q0: seq<UserEvent>, now: nat, max: int)
    ensures Ticked(l0, 0, [], q0, q0, now, max) && Boundary(l0, [], l0, 0)
  {
    assert l0[0..] == l0 && [] + l0 == l0 && [] + Remaining(l0, now) == Remaining(l0, now);
  }

  lemma TickOne(l0: seq<Entry>, k: nat, done: seq<Entry>, q0: seq<UserEvent>, q: seq<UserEvent>, now: nat, max: int)
    requires Ticked(l0, k, done, q0, q, now, max) && k < |l0|
    ensures if Overdue(l0[k], now)
            then Ticked(l0, k + 1, done, q0, if |q| >= max then q else q + [TimeoutEvent(l0[k])], now, max)
            else Ticked(l0, k + 1, done + [Pulled(l0[k], now)], q0, q, now, max)
  {
    var rest := l0[k..];
    var tail := rest[1..];
    assert rest[0] == l0[k] && tail == l0[k + 1..];
    if Overdue(l0[k], now) {
      assert Remaining(rest, now) == Remaining(tail, now);
      var es := TimeoutEvents(Expired(rest, now));
      assert Expired(rest, now)[1..] == Expired(tail, now);
      assert es[0] == TimeoutEvent(l0[k]) && es[1..] == TimeoutEvents(Expired(tail, now));
    } else {
      assert done + ([Pulled(l0[k], now)] + Remaining(tail, now)) == done + [Pulled(l0[k], now)] + Remaining(tail, now);
      assert Expired(rest, now) == Expired(tail, now);
    }
  }

  lemma TickDone(l0: seq<Entry>, done: seq<Entry>, q0: seq<UserEvent>, q: seq<UserEvent>, now: nat, max: int)
    requires Ticked(l0, |l0|, done, q0, q, now, max)
    ensures done == Remaining(l0, now) && q == Offered(q0, TimeoutEvents(Expired(l0, now)), max)
  {
    assert l0[|l0|..] == [] && done + [] == done;
  }

  // ----- replies -----

  /** The cache-gated reply handlers: they differ only in the event kind and the payload text. */
  method HandleReply(cache: Cache, queue: EventQueue, id: int, code: int, kind: int, alloc: bool) returns (st: Status)
    requires cache.Valid() && queue.Valid()
    modifies queue
    ensures queue.Valid()
    ensures var i := IndexOf(cache.dmc_list, id);
            if id <= 0 || i == |cache.dmc_list| then
              st == Fail && queue.message_list == old(queue.message_list)
            else if !alloc then
              st == NoMemory && queue.message_list == old(queue.message_list)
            else
              && st == (if |old(queue.message_list)| < queue.max_size then Success else Fail)
              && queue.message_list
                 == Offered(old(queue.message_list), [UserEvent(kind, id, code, cache.dmc_list[i].devid)], queue.max_size)
  {
    var res, node := cache.Search(id);
    if res != Success {
      return Fail;
    }
    var devid := node.value.devid;
    if !alloc {
      return NoMemory;
    }
    res := queue.Insert(Some(UserEvent(kind, id, code, devid)), true);
    if res != Success {
      return Fail;
    }
    return Success;
  }

  /** dm_msg_proc_*_reply: the handler, whose result is not looked at, then the removal. */
  method ProcessReply(cache: Cache, queue: EventQueue, id: int, code: int, kind: int, alloc: bool)
    requires cache.Valid() && queue.Valid()
    modifies cache, queue
    ensures cache.Valid() && queue.Valid()
    ensures cache.dmc_list == Without(old(cache.dmc_list), id)
    ensures var i := IndexOf(old(cache.dmc_list), id);
            if id > 0 && i < |old(cache.dmc_list)| && alloc then
              queue.message_list
              == Offered(old(queue.message_list), [UserEvent(kind, id, code, old(cache.dmc_list)[i].devid)], queue.max_size)
            else
              queue.message_list == old(queue.message_list)
  {
    var st := HandleReply(cache, queue, id, code, kind, alloc);
    st := cache.Remove(id);
  }
}
