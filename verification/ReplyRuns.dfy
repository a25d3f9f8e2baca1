/** Threads working on the request cache and the event queue at the grain of the two locks.

    An insert tests the size before it takes the cache lock.  A reply searches, reads the device of what
    it has found, sends its event and removes: the search hands out a pointer and gives up the lock, so
    the entry may be gone when it is read.  A tick keeps the cache lock while it walks the list.  All
    interleavings of these steps are runs of the machine below. */
module ReplyRuns {
  import opened MessageCache

  const QUEUE_MAX := 50   // CONFIG_DISPATCH_QUEUE_MAXLEN

  /** Where a thread stands between its critical sections. */
  datatype Thread =
    | Idle
    | Admitted(entry: Entry)                  // insert: the size test was passed, the lock not yet taken
    | Found(id: int, code: int, kind: int)    // reply: the search has handed out a pointer to the entry
    | Ready(id: int, event: UserEvent)        // reply: the device has been read through the pointer
    | Finishing(finished: int, hit: bool)     // reply: about to remove the entry
    | Walking(now: nat, at: nat)              // tick: holds the cache lock

  /** `inserted` records the device of every id ever handed to insert, `added` the ids that reached the
      cache, `enqueued` every event the queue ever took, `dequeued` every event handed to the user, `lost`
      every event that a full queue dropped. */
  datatype State = State(threads: seq<Thread>, cache: seq<Entry>, queue: seq<UserEvent>,
                         inserted: map<int, int>, added: set<int>,
                         enqueued: seq<UserEvent>, dequeued: seq<UserEvent>, lost: seq<UserEvent>)

  function Initial(threads: nat): State {
    State(seq(threads, _ => Idle), [], [], map[], {}, [], [], [])
  }

  datatype Action =
    | InsertTest(t: nat, entry: Entry)
    | InsertAdd(t: nat)
    | ReplySearch(t: nat, id: int, code: int, kind: int)
    | ReplyRead(t: nat, junk: int)
    | ReplySend(t: nat)
    | ReplyRemove(t: nat)
    | TickBegin(t: nat, now: nat)
    | TickNode(t: nat)
    | TickEnd(t: nat)
    | UserNext

  /** `junk` is what the memory of a freed entry holds where its device was; it may be anything. */
  function DeviceRead(s: State, id: int, junk: int): int {
    var i := IndexOf(s.cache, id);
    if i < |s.cache| then s.cache[i].devid else junk
  }

  predicate Locked(s: State) {
    exists t :: 0 <= t < |s.threads| && s.threads[t].Walking?
  }

  /** The action can happen now: its thread stands at the right place and the lock it takes is free.
      Request ids are positive and never reused. */
  predicate Enabled(s: State, a: Action) {
    match a
    case InsertTest(t, e) => t < |s.threads| && s.threads[t].Idle? && e.msgid > 0 && e.msgid !in s.inserted
    case InsertAdd(t) => t < |s.threads| && s.threads[t].Admitted? && !Locked(s)
    case ReplySearch(t, id, code, kind) => t < |s.threads| && s.threads[t].Idle? && !Locked(s)
    case ReplyRead(t, junk) => t < |s.threads| && s.threads[t].Found?
    case ReplySend(t) => t < |s.threads| && s.threads[t].Ready?
    case ReplyRemove(t) => t < |s.threads| && s.threads[t].Finishing? && !Locked(s)
    case TickBegin(t, now) => t < |s.threads| && s.threads[t].Idle? && !Locked(s)
    case TickNode(t) => t < |s.threads| && s.threads[t].Walking? && s.threads[t].at < |s.cache|
    case TickEnd(t) => t < |s.threads| && s.threads[t].Walking? && s.threads[t].at >= |s.cache|
    case UserNext => s.queue != []
  }

  function Enqueue(s: State, e: UserEvent): State {
    if |s.queue| >= QUEUE_MAX then s.(lost := s.lost + [e])
    else s.(queue := s.queue + [e], enqueued := s.enqueued + [e])
  }

  function Set(s: State, t: nat, p: Thread): State
    requires t < |s.threads|
  {
    s.(threads := s.threads[t := p])
  }

  function Next(s: State, a: Action): State
    requires Enabled(s, a)
  {
    match a
    case InsertTest(t, e) =>
      var u := s.(inserted := s.inserted[e.msgid := e.devid]);
      if |s.cache| >= CACHE_MAX then u else Set(u, t, Admitted(e))
    case InsertAdd(t) =>
      var e := s.threads[t].entry;
      Set(s.(cache := s.cache + [e], added := s.added + {e.msgid}), t, Idle)
    case ReplySearch(t, id, code, kind) =>
      var i := IndexOf(s.cache, id);
      Set(s, t, if id > 0 && i < |s.cache| then Found(id, code, kind) else Finishing(id, false))
    case ReplyRead(t, junk) =>
      var p := s.threads[t];
      Set(s, t, Ready(p.id, UserEvent(p.kind, p.id, p.code, DeviceRead(s, p.id, junk))))
    case ReplySend(t) =>
      Set(Enqueue(s, s.threads[t].event), t, Finishing(s.threads[t].id, true))
    case ReplyRemove(t) =>
      Set(s.(cache := Without(s.cache, s.threads[t].finished)), t, Idle)
    case TickBegin(t, now) =>
      Set(s, t, Walking(now, 0))
    case TickNode(t) =>
      var now, i := s.threads[t].now, s.threads[t].at;
      var e := s.cache[i];
      if Overdue(e, now) then
        Enqueue(s.(cache := s.cache[..i] + s.cache[i + 1..]), TimeoutEvent(e))
      else Set(s.(cache := s.cache[i := Pulled(e, now)]), t, Walking(now, i + 1))
    case TickEnd(t) =>
      Set(s, t, Idle)
    case UserNext =>
      s.(queue := s.queue[1..], dequeued := s.dequeued + [s.queue[0]])
  }

  ghost predicate IsRun(s: State, acts: seq<Action>)
    decreases |acts|
  {
    acts == [] || (Enabled(s, acts[0]) && IsRun(Next(s, acts[0]), acts[1..]))
  }

  function Run(s: State, acts: seq<Action>): State
    requires IsRun(s, acts)
    decreases |acts|
  {
    if acts == [] then s else Run(Next(s, acts[0]), acts[1..])
  }

  // ----- bounds -----

  function AdmittedCount(ts: seq<Thread>): nat {
    if ts == [] then 0 else (if ts[0].Admitted? then 1 else 0) + AdmittedCount(ts[1..])
  }

  lemma {:induction false} AdmittedUpdate(ts: seq<Thread>, t: nat, p: Thread)
    requires t < |ts|
    ensures AdmittedCount(ts[t := p])
         == AdmittedCount(ts) - (if ts[t].Admitted? then 1 else 0) + (if p.Admitted? then 1 else 0)
  {
    if t == 0 {
      assert ts[0 := p][1..] == ts[1..];
    } else {
      assert ts[t := p][1..] == ts[1..][t - 1 := p];
      AdmittedUpdate(ts[1..], t - 1, p);
    }
  }

  lemma {:induction false} AdmittedAtMost(ts: seq<Thread>)
    ensures AdmittedCount(ts) <= |ts|
  {
    if ts != [] { AdmittedAtMost(ts[1..]); }
  }

  /** The queue is a FIFO of at most fifty events, and the cache with the inserts already admitted
      exceeds its maximum by less than the number of threads. */
  ghost predicate Bounded(s: State) {
    && |s.queue| <= QUEUE_MAX
    && s.enqueued == s.dequeued + s.queue
    && (|s.threads| > 0 ==> |s.cache| + AdmittedCount(s.threads) <= CACHE_MAX + |s.threads| - 1)
  }

  lemma EnqueueKeepsOrder(s: State, e: UserEvent)
    requires |s.queue| <= QUEUE_MAX && s.enqueued == s.dequeued + s.queue
    ensures var d := Enqueue(s, e); |d.queue| <= QUEUE_MAX && d.enqueued == d.dequeued + d.queue
  {
    assert s.dequeued + (s.queue + [e]) == s.enqueued + [e];
  }

  lemma StepKeepsBounds(s: State, a: Action)
    requires Bounded(s) && Enabled(s, a)
    ensures Bounded(Next(s, a)) && |Next(s, a).threads| == |s.threads|
  {
    hide AdmittedCount, DeviceRead, IndexOf, Overdue, Pulled, TimeoutEvent, Locked;
    AdmittedAtMost(s.threads);
    match a {
      case InsertTest(t, e) =>
        AdmittedUpdate(s.threads, t, Admitted(e));
        AdmittedAtMost(s.threads[t := Admitted(e)]);
      case InsertAdd(t) => AdmittedUpdate(s.threads, t, Idle);
      case ReplySearch(t, id, code, kind) => AdmittedUpdate(s.threads, t, Next(s, a).threads[t]);
      case ReplyRead(t, junk) => AdmittedUpdate(s.threads, t, Next(s, a).threads[t]);
      case ReplySend(t) =>
        AdmittedUpdate(s.threads, t, Next(s, a).threads[t]);
        EnqueueKeepsOrder(s, s.threads[t].event);
      case ReplyRemove(t) => AdmittedUpdate(s.threads, t, Idle);
      case TickBegin(t, now) => AdmittedUpdate(s.threads, t, Next(s, a).threads[t]);
      case TickNode(t) =>
        AdmittedUpdate(s.threads, t, Walking(s.threads[t].now, s.threads[t].at + 1));
        EnqueueKeepsOrder(s, TimeoutEvent(s.cache[s.threads[t].at]));
      case TickEnd(t) => AdmittedUpdate(s.threads, t, Idle);
      case UserNext => assert s.dequeued + s.queue == s.dequeued + [s.queue[0]] + s.queue[1..];
    }
  }

  lemma {:induction false} RunKeepsBounds(s: State, acts: seq<Action>)
    requires Bounded(s) && IsRun(s, acts)
    ensures Bounded(Run(s, acts)) && |Run(s, acts).threads| == |s.threads|
    decreases |acts|
  {
    if acts != [] {
      StepKeepsBounds(s, acts[0]);
      RunKeepsBounds(Next(s, acts[0]), acts[1..]);
    }
  }

  lemma {:induction false} NobodyAdmitted(ts: seq<Thread>)
    requires forall t :: 0 <= t < |ts| ==> !ts[t].Admitted?
    ensures AdmittedCount(ts) == 0
  {
    if ts != [] { NobodyAdmitted(ts[1..]); }
  }

  /** Under any interleaving of n threads the cache holds at most n - 1 entries more than its maximum,
      and the queue is a FIFO that never exceeds its own. */
  lemma ConcurrentBounds(n: nat, acts: seq<Action>)
    requires n > 0 && IsRun(Initial(n), acts)
    ensures var s := Run(Initial(n), acts);
            && |s.cache| <= 50 + n - 1
            && |s.queue| <= 50
            && s.enqueued == s.dequeued + s.queue
  {
    NobodyAdmitted(Initial(n).threads);
    RunKeepsBounds(Initial(n), acts);
  }

  // ----- one outcome per request -----

  function Outcomes(es: seq<UserEvent>, id: int): nat {
    if es == [] then 0 else (if es[0].id == id then 1 else 0) + Outcomes(es[1..], id)
  }

  lemma {:induction false} OutcomesAppend(es: seq<UserEvent>, e: UserEvent, id: int)
    ensures Outcomes(es + [e], id) == Outcomes(es, id) + if e.id == id then 1 else 0
  {
    if es == [] {
      assert (es + [e])[1..] == [];
    } else {
      assert (es + [e])[1..] == es[1..] + [e];
      OutcomesAppend(es[1..], e, id);
    }
  }

  /** The thread has found the entry of this request and has not yet sent its event. */
  predicate Pending(p: Thread, id: int) {
    (p.Found? || p.Ready?) && p.id == id
  }

  /** The thread has found the entry of this request and has not yet removed it. */
  predicate Replying(p: Thread, id: int) {
    Pending(p, id) || (p.Finishing? && p.hit && p.finished == id)
  }

  predicate SomeoneReplying(s: State, id: int) {
    exists t :: 0 <= t < |s.threads| && Replying(s.threads[t], id)
  }

  /** The action starts an outcome for the request while a reply to it is still being handled: a second
      reply finds the entry, or the tick times it out. */
  predicate Overlaps(s: State, a: Action, id: int) {
    match a
    case ReplySearch(t, i, code, kind) =>
      i == id && id > 0 && IndexOf(s.cache, id) < |s.cache| && SomeoneReplying(s, id)
    case TickNode(t) =>
      && t < |s.threads| && s.threads[t].Walking? && s.threads[t].at < |s.cache|
      && s.cache[s.threads[t].at].msgid == id && Overdue(s.cache[s.threads[t].at], s.threads[t].now)
      && SomeoneReplying(s, id)
    case _ => false
  }

  /** No step of the run overlaps a reply to the request. */
  ghost predicate Serial(s: State, acts: seq<Action>, id: int)
    requires IsRun(s, acts)
    decreases |acts|
  {
    acts == [] || (!Overlaps(s, acts[0], id) && Serial(Next(s, acts[0]), acts[1..], id))
  }

  function PendingCount(ts: seq<Thread>, id: int): nat {
    if ts == [] then 0 else (if Pending(ts[0], id) then 1 else 0) + PendingCount(ts[1..], id)
  }

  lemma {:induction false} PendingUpdate(ts: seq<Thread>, t: nat, p: Thread, id: int)
    requires t < |ts|
    ensures PendingCount(ts[t := p], id)
         == PendingCount(ts, id) - (if Pending(ts[t], id) then 1 else 0) + (if Pending(p, id) then 1 else 0)
  {
    if t == 0 {
      assert ts[0 := p][1..] == ts[1..];
    } else {
      assert ts[t := p][1..] == ts[1..][t - 1 := p];
      PendingUpdate(ts[1..], t - 1, p, id);
    }
  }

  lemma {:induction false} PendingPositive(ts: seq<Thread>, id: int)
    ensures PendingCount(ts, id) > 0 <==> exists t :: 0 <= t < |ts| && Pending(ts[t], id)
  {
    if ts != [] {
      PendingPositive(ts[1..], id);
      if t :| 0 <= t < |ts| && Pending(ts[t], id) {
        if t > 0 { assert ts[1..][t - 1] == ts[t]; }
      }
      if t :| 0 <= t < |ts| - 1 && Pending(ts[1..][t], id) {
        assert ts[t + 1] == ts[1..][t];
      }
    }
  }

  /** Outcomes already in the queue's history and outcomes about to be sent. */
  function Due(s: State, id: int): nat {
    Outcomes(s.enqueued, id) + PendingCount(s.threads, id)
  }

  /** What every reachable state satisfies: cached entries and admitted inserts carry the device handed to
      insert for their id; ids in events were handed to insert; no id is cached twice or cached and
      admitted; what was cached or is admitted no more has reached the cache at some time. */
  ghost predicate Consistent(s: State) {
    && (forall i :: 0 <= i < |s.cache| ==> s.cache[i].msgid in s.inserted && s.inserted[s.cache[i].msgid] == s.cache[i].devid)
    && (forall i, j :: 0 <= i < j < |s.cache| ==> s.cache[i].msgid != s.cache[j].msgid)
    && (forall t :: 0 <= t < |s.threads| && s.threads[t].Admitted? ==>
          && s.threads[t].entry.msgid in s.inserted && s.inserted[s.threads[t].entry.msgid] == s.threads[t].entry.devid
          && (forall i :: 0 <= i < |s.cache| ==> s.cache[i].msgid != s.threads[t].entry.msgid))
    && (forall t, u :: 0 <= t < u < |s.threads| && s.threads[t].Admitted? && s.threads[u].Admitted? ==>
          s.threads[t].entry.msgid != s.threads[u].entry.msgid)
    && (forall t :: 0 <= t < |s.threads| ==>
          && (s.threads[t].Found? || s.threads[t].Ready? ==> s.threads[t].id in s.added)
          && (s.threads[t].Ready? ==> s.threads[t].event.id == s.threads[t].id)
          && (s.threads[t].Admitted? ==> s.threads[t].entry.msgid !in s.added))
    && (forall i :: 0 <= i < |s.cache| ==> s.cache[i].msgid in s.added)
    && (forall i :: 0 <= i < |s.enqueued| ==> s.enqueued[i].id in s.added)
    && (forall i :: 0 <= i < |s.lost| ==> s.lost[i].id in s.added)
    && (forall id :: id in s.added ==> id in s.inserted)
  }

  lemma WithoutShrinks(list: seq<Entry>, id: int)
    requires forall i, j :: 0 <= i < j < |list| ==> list[i].msgid != list[j].msgid
    ensures var l := Without(list, id);
            && (forall i :: 0 <= i < |l| ==> l[i].msgid != id)
            && (forall i, j :: 0 <= i < j < |l| ==> l[i].msgid != l[j].msgid)
            && (forall i :: 0 <= i < |l| ==> l[i] in list)
            && (forall i :: 0 <= i < |list| && list[i].msgid != id ==> list[i] in l)
  {
    var k := IndexOf(list, id);
    if k < |list| {
      var l := Without(list, id);
      assert forall i :: 0 <= i < |l| ==> l[i] == if i < k then list[i] else list[i + 1];
      assert forall i :: 0 <= i < |list| && i != k ==> list[i] == l[if i < k then i else i - 1];
    }
  }

  lemma RemovedAt(list: seq<Entry>, k: nat)
    requires k < |list| && forall i, j :: 0 <= i < j < |list| ==> list[i].msgid != list[j].msgid
    ensures list[..k] + list[k + 1..] == Without(list, list[k].msgid)
  {
    assert IndexOf(list, list[k].msgid) == k;
  }

  lemma EnqueueKeepsConsistent(s: State, e: UserEvent)
    requires Consistent(s) && e.id in s.added
    ensures Consistent(Enqueue(s, e))
  {
  }

  lemma ThreadMoves(s: State, t: nat, p: Thread)
    requires Consistent(s) && t < |s.threads| && !p.Admitted?
    requires p.Found? || p.Ready? ==> p.id in s.added
    requires p.Ready? ==> p.event.id == p.id
    ensures Consistent(Set(s, t, p))
  {
  }

  lemma CacheShrinks(s: State, l: seq<Entry>)
    requires Consistent(s)
    requires forall i :: 0 <= i < |l| ==> exists j :: 0 <= j < |s.cache| && l[i].msgid == s.cache[j].msgid && l[i].devid == s.cache[j].devid
    requires forall i, j :: 0 <= i < j < |l| ==> l[i].msgid != l[j].msgid
    ensures Consistent(s.(cache := l))
  {
  }

  lemma InsertIsAdmitted(s: State, t: nat, e: Entry)
    requires Consistent(s) && Enabled(s, InsertTest(t, e))
    ensures Consistent(Next(s, InsertTest(t, e)))
  {
    assert forall u :: 0 <= u < |s.threads| && s.threads[u].Admitted? ==> s.threads[u].entry.msgid != e.msgid;
    assert forall i :: 0 <= i < |s.cache| ==> s.cache[i].msgid != e.msgid;
  }

  lemma InsertIsAdded(s: State, t: nat)
    requires Consistent(s) && Enabled(s, InsertAdd(t))
    ensures Consistent(Next(s, InsertAdd(t)))
  {
  }

  lemma StepKeepsConsistent(s: State, a: Action)
    requires Consistent(s) && Enabled(s, a)
    ensures Consistent(Next(s, a))
  {
    match a {
      case InsertTest(t, e) => InsertIsAdmitted(s, t, e);
      case InsertAdd(t) => InsertIsAdded(s, t);
      case ReplySearch(t, id, code, kind) => ThreadMoves(s, t, Next(s, a).threads[t]);
      case ReplyRead(t, junk) => ThreadMoves(s, t, Next(s, a).threads[t]);
      case ReplySend(t) =>
        var e := s.threads[t].event;
        EnqueueKeepsConsistent(s, e);
        ThreadMoves(Enqueue(s, e), t, Finishing(s.threads[t].id, true));
      case ReplyRemove(t) =>
        RemoveKeepsConsistent(s, s.threads[t].finished);
        ThreadMoves(s.(cache := Without(s.cache, s.threads[t].finished)), t, Idle);
      case TickBegin(t, now) => ThreadMoves(s, t, Walking(now, 0));
      case TickNode(t) => TickNodeKeepsConsistent(s, t);
      case TickEnd(t) => ThreadMoves(s, t, Idle);
      case UserNext =>
    }
  }

  lemma RemoveKeepsConsistent(s: State, id: int)
    requires Consistent(s)
    ensures Consistent(s.(cache := Without(s.cache, id)))
  {
    WithoutShrinks(s.cache, id);
    CacheShrinks(s, Without(s.cache, id));
  }

  lemma DistinctAndKnown(s: State)
    requires Consistent(s)
    ensures forall i, j :: 0 <= i < j < |s.cache| ==> s.cache[i].msgid != s.cache[j].msgid
    ensures forall i :: 0 <= i < |s.cache| ==>
              s.cache[i].msgid in s.added && s.cache[i].msgid in s.inserted && s.inserted[s.cache[i].msgid] == s.cache[i].devid
  {
  }

  lemma TickNodeKeepsConsistent(s: State, t: nat)
    requires Consistent(s) && Enabled(s, TickNode(t))
    ensures Consistent(Next(s, TickNode(t)))
  {
    hide Consistent;
    var i, now := s.threads[t].at, s.threads[t].now;
    var e := s.cache[i];
    DistinctAndKnown(s);
    if Overdue(e, now) {
      RemovedAt(s.cache, i);
      RemoveKeepsConsistent(s, e.msgid);
      EnqueueKeepsConsistent(s.(cache := Without(s.cache, e.msgid)), TimeoutEvent(e));
    } else {
      var l := s.cache[i := Pulled(e, now)];
      assert forall j :: 0 <= j < |l| ==> l[j].msgid == s.cache[j].msgid && l[j].devid == s.cache[j].devid;
      CacheShrinks(s, l);
      ThreadMoves(s.(cache := l), t, Walking(now, i + 1));
    }
  }

  predicate Cached(s: State, id: int) {
    exists i :: 0 <= i < |s.cache| && s.cache[i].msgid == id
  }

  lemma {:induction false} OutcomesPositive(es: seq<UserEvent>, id: int)
    ensures Outcomes(es, id) > 0 ==> exists i :: 0 <= i < |es| && es[i].id == id
  {
    if es != [] && es[0].id != id && Outcomes(es, id) > 0 {
      OutcomesPositive(es[1..], id);
      var i :| 0 <= i < |es| - 1 && es[1..][i].id == id;
      assert es[i + 1].id == id;
    }
  }

  lemma UnknownIsNotDue(s: State, id: int)
    requires Consistent(s) && id !in s.inserted
    ensures Due(s, id) == 0
  {
    OutcomesPositive(s.enqueued, id);
    PendingPositive(s.threads, id);
  }

  /** While every step is serial for the request: it has at most one outcome, sent or about to be; and
      as long as its entry can still be found by somebody new, it has none. */
  ghost predicate Single(s: State, id: int) {
    && Due(s, id) <= 1
    && (Cached(s, id) && !SomeoneReplying(s, id) ==> Due(s, id) == 0)
    && (forall t :: 0 <= t < |s.threads| && s.threads[t].Admitted? && s.threads[t].entry.msgid == id ==> Due(s, id) == 0)
  }

  lemma EnqueueCounts(s: State, e: UserEvent, id: int)
    ensures var d := Enqueue(s, e);
            && Outcomes(d.enqueued, id) + Outcomes(d.lost, id)
               == Outcomes(s.enqueued, id) + Outcomes(s.lost, id) + (if e.id == id then 1 else 0)
            && Outcomes(d.enqueued, id) <= Outcomes(s.enqueued, id) + (if e.id == id then 1 else 0)
  {
    OutcomesAppend(s.enqueued, e, id);
    OutcomesAppend(s.lost, e, id);
  }

  /** The action starts an outcome for the request. */
  predicate Starts(s: State, a: Action, id: int)
    requires Enabled(s, a)
  {
    match a
    case ReplySearch(t, i, code, kind) => i == id && id > 0 && IndexOf(s.cache, id) < |s.cache|
    case TickNode(t) => s.cache[s.threads[t].at].msgid == id && Overdue(s.cache[s.threads[t].at], s.threads[t].now)
    case _ => false
  }

  /** Only thread `t` moves. */
  lemma MoveDue(s: State, d: State, t: nat, id: int)
    requires t < |s.threads| == |d.threads| && d.threads == s.threads[t := d.threads[t]] && d.enqueued == s.enqueued
    ensures Due(d, id) == Due(s, id) - (if Pending(s.threads[t], id) then 1 else 0) + (if Pending(d.threads[t], id) then 1 else 0)
  {
    PendingUpdate(s.threads, t, d.threads[t], id);
  }

  lemma SendDue(s: State, t: nat, id: int)
    requires Consistent(s) && Enabled(s, ReplySend(t))
    ensures var d := Next(s, ReplySend(t));
            && Due(d, id) + Outcomes(d.lost, id) == Due(s, id) + Outcomes(s.lost, id) && Due(d, id) <= Due(s, id)
            && |s.lost| <= |d.lost| && (|d.lost| == |s.lost| ==> d.lost == s.lost)
  {
    hide Outcomes, PendingCount;
    PendingUpdate(s.threads, t, Next(s, ReplySend(t)).threads[t], id);
    EnqueueCounts(s, s.threads[t].event, id);
  }

  lemma TickDue(s: State, t: nat, id: int)
    requires Enabled(s, TickNode(t))
    ensures var d, more := Next(s, TickNode(t)), if Starts(s, TickNode(t), id) then 1 else 0;
            && Due(d, id) + Outcomes(d.lost, id) == Due(s, id) + Outcomes(s.lost, id) + more && Due(d, id) <= Due(s, id) + more
            && |s.lost| <= |d.lost| && (|d.lost| == |s.lost| ==> d.lost == s.lost)
  {
    hide Outcomes, PendingCount, Overdue, Pulled;
    PendingUpdate(s.threads, t, Walking(s.threads[t].now, s.threads[t].at + 1), id);
    EnqueueCounts(s, TimeoutEvent(s.cache[s.threads[t].at]), id);
  }

  /** How an action changes the number of outcomes of a request. */
  lemma DueChanges(s: State, a: Action, id: int)
    requires Consistent(s) && Enabled(s, a)
    ensures var more := if Starts(s, a, id) then 1 else 0;
            && Due(Next(s, a), id) + Outcomes(Next(s, a).lost, id) == Due(s, id) + Outcomes(s.lost, id) + more
            && Due(Next(s, a), id) <= Due(s, id) + more
            && |s.lost| <= |Next(s, a).lost| && (|Next(s, a).lost| == |s.lost| ==> Next(s, a).lost == s.lost)
  {
    hide Outcomes, Due, DeviceRead, Without, Locked, Consistent;
    match a {
      case ReplySend(t) => SendDue(s, t, id);
      case TickNode(t) => TickDue(s, t, id);
      case UserNext => SameDue(s, Next(s, a), id);
      case _ => MoveDue(s, Next(s, a), a.t, id);
    }
  }

  lemma SameDue(s: State, d: State, id: int)
    requires s.threads == d.threads && s.enqueued == d.enqueued
    ensures Due(d, id) == Due(s, id)
  {
  }

  /** A step that starts no outcome, adds nobody to the admitted inserts, uncovers no cached entry. */
  lemma QuietStepKeepsSingle(s: State, d: State, id: int)
    requires Single(s, id) && Due(d, id) <= Due(s, id)
    requires Cached(d, id) && !SomeoneReplying(d, id) ==> Cached(s, id) && !SomeoneReplying(s, id)
    requires forall t :: 0 <= t < |d.threads| && d.threads[t].Admitted? && d.threads[t].entry.msgid == id ==>
      t < |s.threads| && s.threads[t] == d.threads[t]
    ensures Single(d, id)
  {
    hide Due, SomeoneReplying, Cached;
  }

  lemma InsertKeepsSingle(s: State, a: Action, id: int)
    requires Consistent(s) && Single(s, id) && Enabled(s, a) && (a.InsertTest? || a.InsertAdd?)
    ensures Single(Next(s, a), id)
  {
    hide Due;
    var d := Next(s, a);
    DueChanges(s, a, id);
    ReplyingElsewhere(s, d, a.t, id);
    if a.InsertTest? {
      if a.entry.msgid == id { UnknownIsNotDue(s, id); }
      assert Cached(d, id) == Cached(s, id);
    } else if Cached(d, id) && s.threads[a.t].entry.msgid != id {
      var i :| 0 <= i < |d.cache| && d.cache[i].msgid == id;
      assert s.cache[i].msgid == id;
    }
  }

  lemma SearchKeepsSingle(s: State, a: Action, id: int)
    requires Consistent(s) && Single(s, id) && Enabled(s, a) && a.ReplySearch? && !Overlaps(s, a, id)
    ensures Single(Next(s, a), id)
  {
    hide Due;
    var d := Next(s, a);
    DueChanges(s, a, id);
    if a.id == id && id > 0 && IndexOf(s.cache, id) < |s.cache| {
      assert s.cache[IndexOf(s.cache, id)].msgid == id && Cached(s, id);
      assert Replying(d.threads[a.t], id);
    } else {
      ReplyingElsewhere(s, d, a.t, id);
      QuietStepKeepsSingle(s, d, id);
    }
  }

  lemma RemoveKeepsSingle(s: State, a: Action, id: int)
    requires Consistent(s) && Single(s, id) && Enabled(s, a) && a.ReplyRemove?
    ensures Single(Next(s, a), id)
  {
    hide Due;
    var d, f := Next(s, a), s.threads[a.t].finished;
    DueChanges(s, a, id);
    WithoutShrinks(s.cache, f);
    if f != id {
      ReplyingElsewhere(s, d, a.t, id);
      StillCached(s, d, id);
    } else {
      assert !Cached(d, id);
    }
    QuietStepKeepsSingle(s, d, id);
  }

  lemma StillCached(s: State, d: State, id: int)
    requires forall i :: 0 <= i < |d.cache| ==> d.cache[i] in s.cache
    ensures Cached(d, id) ==> Cached(s, id)
  {
    if i :| 0 <= i < |d.cache| && d.cache[i].msgid == id {
      var j :| 0 <= j < |s.cache| && s.cache[j] == d.cache[i];
    }
  }

  lemma CachedAfterRemoval(list: seq<Entry>, k: nat, id: int)
    requires k < |list| && forall i, j :: 0 <= i < j < |list| ==> list[i].msgid != list[j].msgid
    ensures var l := list[..k] + list[k + 1..];
            (exists i :: 0 <= i < |l| && l[i].msgid == id) <==> id != list[k].msgid && exists i :: 0 <= i < |list| && list[i].msgid == id
  {
    var l := list[..k] + list[k + 1..];
    assert forall i :: 0 <= i < |l| ==> l[i] == if i < k then list[i] else list[i + 1];
    if i :| 0 <= i < |list| && list[i].msgid == id && i != k {
      assert l[if i < k then i else i - 1] == list[i];
    }
  }

  /** A tick that times out the entry it stands on: that entry is gone, and nothing else. */
  lemma TickTimesOut(s: State, t: nat, id: int)
    requires Consistent(s) && Enabled(s, TickNode(t)) && Overdue(s.cache[s.threads[t].at], s.threads[t].now)
    ensures var d, e := Next(s, TickNode(t)), s.cache[s.threads[t].at];
            && d.threads == s.threads && d.inserted == s.inserted
            && (Cached(d, id) <==> id != e.msgid && Cached(s, id))
            && d.enqueued == Enqueue(s, TimeoutEvent(e)).enqueued && d.lost == Enqueue(s, TimeoutEvent(e)).lost
  {
    DistinctAndKnown(s);
    hide Consistent;
    CachedAfterRemoval(s.cache, s.threads[t].at, id);
  }

  /** A tick that passes over the entry it stands on: no entry is gone. */
  lemma TickPasses(s: State, t: nat, id: int)
    requires Enabled(s, TickNode(t)) && !Overdue(s.cache[s.threads[t].at], s.threads[t].now)
    ensures var d := Next(s, TickNode(t));
            && d.threads == s.threads[t := Walking(s.threads[t].now, s.threads[t].at + 1)] && d.inserted == s.inserted
            && (Cached(d, id) <==> Cached(s, id))
            && d.enqueued == s.enqueued && d.lost == s.lost
  {
    var d := Next(s, TickNode(t));
    assert |d.cache| == |s.cache| && forall i :: 0 <= i < |d.cache| ==> d.cache[i].msgid == s.cache[i].msgid;
  }

  lemma TickNodeKeepsSingle(s: State, t: nat, id: int)
    requires Consistent(s) && Single(s, id) && Enabled(s, TickNode(t)) && !Overlaps(s, TickNode(t), id)
    ensures Single(Next(s, TickNode(t)), id)
  {
    hide Due, Consistent, Next, Cached, Overdue;
    var d, i := Next(s, TickNode(t)), s.threads[t].at;
    DueChanges(s, TickNode(t), id);
    if Overdue(s.cache[i], s.threads[t].now) {
      TickTimesOut(s, t, id);
      EntryIsCached(s, i);
      if s.cache[i].msgid != id { QuietStepKeepsSingle(s, d, id); } else { NotAdmitted(s, i); }
    } else {
      TickPasses(s, t, id);
      ReplyingElsewhere(s, d, t, id);
      QuietStepKeepsSingle(s, d, id);
    }
  }

  lemma EntryIsCached(s: State, i: nat)
    requires i < |s.cache|
    ensures Cached(s, s.cache[i].msgid)
  {
  }

  lemma NotAdmitted(s: State, i: nat)
    requires Consistent(s) && i < |s.cache|
    ensures forall t :: 0 <= t < |s.threads| && s.threads[t].Admitted? ==> s.threads[t].entry.msgid != s.cache[i].msgid
  {
  }

  lemma StepKeepsSingle(s: State, a: Action, id: int)
    requires Consistent(s) && Single(s, id) && Enabled(s, a) && !Overlaps(s, a, id)
    ensures Single(Next(s, a), id)
  {
    hide Due, Single;
    var d := Next(s, a);
    match a {
      case InsertTest(t, e) => InsertKeepsSingle(s, a, id);
      case InsertAdd(t) => InsertKeepsSingle(s, a, id);
      case ReplySearch(t, i, code, kind) => SearchKeepsSingle(s, a, id);
      case ReplyRead(t, junk) =>
        DueChanges(s, a, id);
        if s.threads[t].id == id {
          assert Replying(s.threads[t], id) && Replying(d.threads[t], id);
        } else {
          ReplyingElsewhere(s, d, t, id);
        }
        QuietStepKeepsSingle(s, d, id);
      case ReplySend(t) =>
        DueChanges(s, a, id);
        if s.threads[t].id == id { assert Replying(d.threads[t], id); } else { ReplyingElsewhere(s, d, t, id); }
        QuietStepKeepsSingle(s, d, id);
      case ReplyRemove(t) => RemoveKeepsSingle(s, a, id);
      case TickBegin(t, now) => DueChanges(s, a, id); ReplyingElsewhere(s, d, t, id); QuietStepKeepsSingle(s, d, id);
      case TickNode(t) => TickNodeKeepsSingle(s, t, id);
      case TickEnd(t) => DueChanges(s, a, id); ReplyingElsewhere(s, d, t, id); QuietStepKeepsSingle(s, d, id);
      case UserNext => DueChanges(s, a, id); QuietStepKeepsSingle(s, d, id);
    }
  }

  /** A step of a thread that is not replying to the request, before or after, leaves open who is. */
  lemma ReplyingElsewhere(s: State, d: State, t: nat, id: int)
    requires t < |s.threads| && d.threads == s.threads[t := if t < |d.threads| then d.threads[t] else Idle]
    requires !Replying(s.threads[t], id) && !Replying(d.threads[t], id)
    ensures SomeoneReplying(s, id) == SomeoneReplying(d, id)
  {
    if u :| 0 <= u < |s.threads| && Replying(s.threads[u], id) { assert Replying(d.threads[u], id); }
    if u :| 0 <= u < |d.threads| && Replying(d.threads[u], id) { assert Replying(s.threads[u], id); }
  }

  lemma {:induction false} RunKeepsSingle(s: State, acts: seq<Action>, id: int)
    requires IsRun(s, acts) && Consistent(s) && Single(s, id) && Serial(s, acts, id)
    ensures Consistent(Run(s, acts)) && Single(Run(s, acts), id)
    decreases |acts|
  {
    hide Consistent, Single, Overlaps, Enabled, Next;
    if acts != [] {
      StepKeepsConsistent(s, acts[0]);
      StepKeepsSingle(s, acts[0], id);
      RunKeepsSingle(Next(s, acts[0]), acts[1..], id);
    }
  }

  lemma {:induction false} RunKeepsConsistent(s: State, acts: seq<Action>)
    requires IsRun(s, acts) && Consistent(s)
    ensures Consistent(Run(s, acts))
    decreases |acts|
  {
    hide Consistent, Enabled, Next;
    if acts != [] {
      StepKeepsConsistent(s, acts[0]);
      RunKeepsConsistent(Next(s, acts[0]), acts[1..]);
    }
  }

  lemma InitialIsFine(n: nat, id: int)
    ensures Consistent(Initial(n)) && Single(Initial(n), id)
  {
    UnknownIsNotDue(Initial(n), id);
  }

  /** A reply about to remove the entry it has found has its outcome in the history, or lost. */
  ghost predicate Accounted(s: State) {
    forall t :: 0 <= t < |s.threads| && s.threads[t].Finishing? && s.threads[t].hit ==>
      Outcomes(s.enqueued, s.threads[t].finished) + Outcomes(s.lost, s.threads[t].finished) > 0
  }

  lemma StepKeepsAccounted(s: State, a: Action)
    requires Accounted(s) && Consistent(s) && Enabled(s, a)
    ensures Accounted(Next(s, a))
  {
    hide Outcomes, DeviceRead, Overdue, Pulled, Without, Locked;
    var d := Next(s, a);
    forall t | 0 <= t < |d.threads| && d.threads[t].Finishing? && d.threads[t].hit
      ensures Outcomes(d.enqueued, d.threads[t].finished) + Outcomes(d.lost, d.threads[t].finished) > 0
    {
      match a {
        case ReplySend(u) => EnqueueCounts(s, s.threads[u].event, d.threads[t].finished);
        case TickNode(u) => EnqueueCounts(s, TimeoutEvent(s.cache[s.threads[u].at]), d.threads[t].finished);
        case _ =>
      }
    }
  }

  lemma ReplyingIsDue(s: State, id: int)
    requires Accounted(s) && s.lost == [] && SomeoneReplying(s, id)
    ensures Due(s, id) > 0
  {
    PendingPositive(s.threads, id);
  }

  /** Without losses outcomes only accumulate, and an overlapping step makes a second one. */
  lemma {:induction false} OutcomesAccumulate(s: State, acts: seq<Action>, id: int)
    requires IsRun(s, acts) && Consistent(s) && Accounted(s) && Run(s, acts).lost == []
    ensures s.lost == []
    ensures Due(s, id) <= Due(Run(s, acts), id)
    ensures !Serial(s, acts, id) ==> Due(Run(s, acts), id) >= 2
    decreases |acts|
  {
    if acts != [] {
      var a, d := acts[0], Next(s, acts[0]);
      StepKeepsConsistent(s, a);
      StepKeepsAccounted(s, a);
      OutcomesAccumulate(d, acts[1..], id);
      StartsOutcome(s, a, id);
    }
  }

  lemma StartsOutcome(s: State, a: Action, id: int)
    requires Consistent(s) && Accounted(s) && Enabled(s, a) && Next(s, a).lost == []
    ensures s.lost == [] && Due(s, id) <= Due(Next(s, a), id)
    ensures Overlaps(s, a, id) ==> Due(Next(s, a), id) >= 2
  {
    DueChanges(s, a, id);
    if Overlaps(s, a, id) { ReplyingIsDue(s, id); }
  }

  /** At most one outcome per request: whatever the interleaving, a request has at most one outcome
      event, reply or timeout, if no step overlaps the handling of a reply to it. */
  lemma OneOutcome(n: nat, acts: seq<Action>, id: int)
    requires IsRun(Initial(n), acts) && Serial(Initial(n), acts, id)
    ensures Outcomes(Run(Initial(n), acts).enqueued, id) <= 1
  {
    InitialIsFine(n, id);
    RunKeepsSingle(Initial(n), acts, id);
  }

  /** And only then: in a run that loses no event and leaves no reply unsent, the request has at most
      one outcome exactly when no step overlaps the handling of a reply to it. */
  lemma OneOutcomeExactly(n: nat, acts: seq<Action>, id: int)
    requires IsRun(Initial(n), acts)
    requires var s := Run(Initial(n), acts);
             s.lost == [] && forall t :: 0 <= t < |s.threads| ==> !s.threads[t].Found? && !s.threads[t].Ready?
    ensures Outcomes(Run(Initial(n), acts).enqueued, id) <= 1 <==> Serial(Initial(n), acts, id)
  {
    InitialIsFine(n, id);
    var s := Run(Initial(n), acts);
    if Serial(Initial(n), acts, id) {
      OneOutcome(n, acts, id);
    } else {
      OutcomesAccumulate(Initial(n), acts, id);
      PendingPositive(s.threads, id);
    }
  }

  /** The request was inserted and its entry is gone, with no insert or reply under way for it. */
  ghost predicate Settled(s: State, id: int) {
    && id in s.inserted && !Cached(s, id)
    && forall t :: 0 <= t < |s.threads| ==>
         && (s.threads[t].Admitted? ==> s.threads[t].entry.msgid != id)
         && !Pending(s.threads[t], id)
  }

  lemma EnqueueCountsElse(s: State, e: UserEvent, id: int)
    requires e.id != id
    ensures var d := Enqueue(s, e); Outcomes(d.enqueued, id) == Outcomes(s.enqueued, id) && Outcomes(d.lost, id) == Outcomes(s.lost, id)
  {
    OutcomesAppend(s.enqueued, e, id);
    OutcomesAppend(s.lost, e, id);
  }

  /** Nothing cached that was not, no new insert and no new reply under way. */
  lemma SettledMoves(s: State, d: State, id: int)
    requires Settled(s, id) && d.inserted == s.inserted && |d.threads| == |s.threads|
    requires Cached(d, id) ==> Cached(s, id)
    requires forall t :: 0 <= t < |d.threads| ==> d.threads[t] == s.threads[t] || d.threads[t].Walking?
    ensures Settled(d, id)
  {
    hide Cached;
  }

  lemma TickNodeKeepsSettled(s: State, t: nat, id: int)
    requires Consistent(s) && Settled(s, id) && Enabled(s, TickNode(t))
    ensures var d := Next(s, TickNode(t));
            Settled(d, id) && Outcomes(d.enqueued, id) == Outcomes(s.enqueued, id) && Outcomes(d.lost, id) == Outcomes(s.lost, id)
  {
    hide Outcomes, Consistent, Settled, Next, Cached, Overdue;
    var d, i := Next(s, TickNode(t)), s.threads[t].at;
    NotSettledIfCached(s, i, id);
    EnqueueCountsElse(s, TimeoutEvent(s.cache[i]), id);
    if Overdue(s.cache[i], s.threads[t].now) { TickTimesOut(s, t, id); } else { TickPasses(s, t, id); }
    SettledMoves(s, d, id);
  }

  lemma NotSettledIfCached(s: State, i: nat, id: int)
    requires Settled(s, id) && i < |s.cache|
    ensures s.cache[i].msgid != id
  {
  }

  lemma StepKeepsSettled(s: State, a: Action, id: int)
    requires Consistent(s) && Settled(s, id) && Enabled(s, a)
    ensures Settled(Next(s, a), id) && Outcomes(Next(s, a).enqueued, id) == Outcomes(s.enqueued, id)
    ensures Outcomes(Next(s, a).lost, id) == Outcomes(s.lost, id)
  {
    hide Outcomes;
    var d := Next(s, a);
    match a {
      case ReplySearch(t, i, code, kind) =>
      case ReplySend(t) => EnqueueCountsElse(s, s.threads[t].event, id);
      case ReplyRemove(t) =>
        WithoutShrinks(s.cache, s.threads[t].finished);
        assert forall i :: 0 <= i < |d.cache| ==> d.cache[i] in s.cache;
      case TickNode(t) => TickNodeKeepsSettled(s, t, id);
      case _ =>
    }
  }

  /** A reply that comes after the timeout, or after another reply has been dealt with, enqueues
      nothing, whatever else happens. */
  lemma {:induction false} LateReplyIsSilent(s: State, acts: seq<Action>, id: int)
    requires IsRun(s, acts) && Consistent(s) && Settled(s, id)
    ensures Settled(Run(s, acts), id)
    ensures Outcomes(Run(s, acts).enqueued, id) == Outcomes(s.enqueued, id)
    ensures Outcomes(Run(s, acts).lost, id) == Outcomes(s.lost, id)
    decreases |acts|
  {
    hide Consistent, Settled, Next, Enabled;
    if acts != [] {
      StepKeepsConsistent(s, acts[0]);
      StepKeepsSettled(s, acts[0], id);
      LateReplyIsSilent(Next(s, acts[0]), acts[1..], id);
    }
  }

  /** The tick that takes an overdue entry away settles its request when nobody is replying to it. */
  lemma TimeoutSettles(s: State, t: nat)
    requires Consistent(s) && Enabled(s, TickNode(t))
    requires Overdue(s.cache[s.threads[t].at], s.threads[t].now)
    requires !SomeoneReplying(s, s.cache[s.threads[t].at].msgid)
    ensures Settled(Next(s, TickNode(t)), s.cache[s.threads[t].at].msgid)
  {
    hide Consistent;
    var i := s.threads[t].at;
    DistinctAndKnown(s);
    NotAdmitted(s, i);
    RemovedAt(s.cache, i);
    WithoutShrinks(s.cache, s.cache[i].msgid);
    assert forall u :: 0 <= u < |s.threads| ==> !Replying(s.threads[u], s.cache[i].msgid);
  }

  // ----- a call that runs alone -----

  /** What the tick walk still has to do from position i on, as a whole. */
  ghost predicate WalkedFrom(s: State, d: State, t: nat, now: nat, i: nat)
    requires i <= |s.cache| && t < |s.threads|
  {
    && d.cache == s.cache[..i] + Remaining(s.cache[i..], now)
    && d.queue == Offered(s.queue, TimeoutEvents(Expired(s.cache[i..], now)), QUEUE_MAX)
    && d.threads == s.threads[t := Idle]
  }

  lemma WalkedExpired(s: State, s1: State, d: State, t: nat, now: nat, i: nat)
    requires t < |s.threads| && i < |s.cache| && Overdue(s.cache[i], now)
    requires s1.threads == s.threads && s1.cache == s.cache[..i] + s.cache[i + 1..]
    requires s1.queue == if |s.queue| >= QUEUE_MAX then s.queue else s.queue + [TimeoutEvent(s.cache[i])]
    requires WalkedFrom(s1, d, t, now, i)
    ensures WalkedFrom(s, d, t, now, i)
  {
    var rest := s.cache[i..];
    assert rest[0] == s.cache[i] && rest[1..] == s.cache[i + 1..];
    assert s1.cache[..i] == s.cache[..i] && s1.cache[i..] == rest[1..];
    assert Remaining(rest, now) == Remaining(rest[1..], now);
    var es := TimeoutEvents(Expired(rest, now));
    assert Expired(rest, now)[1..] == Expired(rest[1..], now);
    assert es[0] == TimeoutEvent(s.cache[i]) && es[1..] == TimeoutEvents(Expired(rest[1..], now));
  }

  lemma WalkedKept(s: State, s1: State, d: State, t: nat, now: nat, i: nat)
    requires t < |s.threads| && i < |s.cache| && !Overdue(s.cache[i], now)
    requires s1.threads == s.threads[t := Walking(now, i + 1)] && s1.cache == s.cache[i := Pulled(s.cache[i], now)]
    requires s1.queue == s.queue && WalkedFrom(s1, d, t, now, i + 1)
    ensures WalkedFrom(s, d, t, now, i)
  {
    var rest := s.cache[i..];
    assert rest[0] == s.cache[i] && rest[1..] == s.cache[i + 1..];
    assert s1.cache[..i + 1] == s.cache[..i] + [Pulled(s.cache[i], now)] && s1.cache[i + 1..] == rest[1..];
    assert Expired(rest, now) == Expired(rest[1..], now);
  }

  lemma WalkedAll(s: State, t: nat, now: nat)
    requires t < |s.threads|
    ensures WalkedFrom(s, s.(threads := s.threads[t := Idle]), t, now, |s.cache|)
  {
    assert s.cache[|s.cache|..] == [] && s.cache[..|s.cache|] + [] == s.cache;
  }

  /** The steps of a tick, taken without interruption, are the tick of the cache as a whole. */
  lemma {:induction false} TickWalksAlone(s: State, t: nat, now: nat, i: nat) returns (acts: seq<Action>)
    requires t < |s.threads| && s.threads[t] == Walking(now, i) && i <= |s.cache|
    ensures IsRun(s, acts) && WalkedFrom(s, Run(s, acts), t, now, i)
    decreases |s.cache| - i
  {
    hide WalkedFrom, Overdue, Pulled;
    if i == |s.cache| {
      SingleAction(s, TickEnd(t));
      acts := [TickEnd(t)];
      WalkedAll(s, t, now);
    } else {
      var s1 := Next(s, TickNode(t));
      if Overdue(s.cache[i], now) {
        acts := TickWalksAlone(s1, t, now, i);
        WalkedExpired(s, s1, Run(s1, acts), t, now, i);
      } else {
        acts := TickWalksAlone(s1, t, now, i + 1);
        WalkedKept(s, s1, Run(s1, acts), t, now, i);
      }
      RunCons(s, TickNode(t), acts);
      acts := [TickNode(t)] + acts;
    }
  }

  lemma TickRunsAlone(s: State, t: nat, now: nat) returns (acts: seq<Action>)
    requires Enabled(s, TickBegin(t, now))
    ensures IsRun(s, acts)
    ensures Run(s, acts).cache == Remaining(s.cache, now)
    ensures Run(s, acts).queue == Offered(s.queue, TimeoutEvents(Expired(s.cache, now)), QUEUE_MAX)
  {
    var s1 := Next(s, TickBegin(t, now));
    acts := TickWalksAlone(s1, t, now, 0);
    RunCons(s, TickBegin(t, now), acts);
    acts := [TickBegin(t, now)] + acts;
    assert s1.cache[0..] == s.cache && [] + Remaining(s.cache, now) == Remaining(s.cache, now);
  }

  lemma FoundReplyRunsAlone(s: State, t: nat, id: int, code: int, kind: int, junk: int)
    requires Enabled(s, ReplySearch(t, id, code, kind)) && id > 0 && IndexOf(s.cache, id) < |s.cache|
    ensures var acts := [ReplySearch(t, id, code, kind)] + ([ReplyRead(t, junk)] + ([ReplySend(t)] + [ReplyRemove(t)]));
            && IsRun(s, acts)
            && Run(s, acts).cache == Without(s.cache, id)
            && Run(s, acts).queue
            == Offered(s.queue, [UserEvent(kind, id, code, s.cache[IndexOf(s.cache, id)].devid)], QUEUE_MAX)
  {
    var s1 := Next(s, ReplySearch(t, id, code, kind));
    var s2 := Next(s1, ReplyRead(t, junk));
    var s3 := Next(s2, ReplySend(t));
    assert forall u :: 0 <= u < |s3.threads| && u != t ==> s3.threads[u] == s.threads[u];
    assert !Locked(s3);
    SingleAction(s3, ReplyRemove(t));
    RunCons(s2, ReplySend(t), [ReplyRemove(t)]);
    RunCons(s1, ReplyRead(t, junk), [ReplySend(t)] + [ReplyRemove(t)]);
    RunCons(s, ReplySearch(t, id, code, kind), [ReplyRead(t, junk)] + ([ReplySend(t)] + [ReplyRemove(t)]));
  }

  lemma MissedReplyRunsAlone(s: State, t: nat, id: int, code: int, kind: int)
    requires Enabled(s, ReplySearch(t, id, code, kind)) && !(id > 0 && IndexOf(s.cache, id) < |s.cache|)
    ensures var acts := [ReplySearch(t, id, code, kind)] + [ReplyRemove(t)];
            IsRun(s, acts) && Run(s, acts).cache == Without(s.cache, id) && Run(s, acts).queue == s.queue
  {
    var s1 := Next(s, ReplySearch(t, id, code, kind));
    assert forall u :: 0 <= u < |s1.threads| && u != t ==> s1.threads[u] == s.threads[u];
    assert !Locked(s1);
    SingleAction(s1, ReplyRemove(t));
    RunCons(s, ReplySearch(t, id, code, kind), [ReplyRemove(t)]);
  }

  /** The steps of a reply, taken without interruption, are the reply as a whole, whether its search finds
      an entry or not. */
  lemma ReplyRunsAlone(s: State, t: nat, id: int, code: int, kind: int, junk: int) returns (acts: seq<Action>)
    requires Enabled(s, ReplySearch(t, id, code, kind))
    ensures IsRun(s, acts)
    ensures var i := IndexOf(s.cache, id);
            && Run(s, acts).cache == Without(s.cache, id)
            && Run(s, acts).queue
            == (if id > 0 && i < |s.cache| then Offered(s.queue, [UserEvent(kind, id, code, s.cache[i].devid)], QUEUE_MAX) else s.queue)
  {
    hide IsRun, Run, Enabled, Without, Offered;
    if id > 0 && IndexOf(s.cache, id) < |s.cache| {
      FoundReplyRunsAlone(s, t, id, code, kind, junk);
      acts := [ReplySearch(t, id, code, kind)] + ([ReplyRead(t, junk)] + ([ReplySend(t)] + [ReplyRemove(t)]));
    } else {
      MissedReplyRunsAlone(s, t, id, code, kind);
      acts := [ReplySearch(t, id, code, kind)] + [ReplyRemove(t)];
    }
  }

  // ----- a run that reaches the limit -----

  /** Only idle threads, and only ids up to `ids` handed out. */
  ghost predicate Quiet(s: State, n: nat, ids: nat) {
    && |s.threads| == n && (forall t :: 0 <= t < n ==> s.threads[t].Idle?)
    && forall id :: id in s.inserted ==> id <= ids
  }

  /** One thread alone can fill the cache up to its maximum. */
  lemma {:induction false} FillUp(n: nat, k: nat) returns (acts: seq<Action>)
    requires n > 0 && k < CACHE_MAX
    ensures IsRun(Initial(n), acts)
    ensures Quiet(Run(Initial(n), acts), n, k) && |Run(Initial(n), acts).cache| == k
  {
    if k == 0 {
      acts := [];
    } else {
      acts := FillUp(n, k - 1);
      var s, e := Run(Initial(n), acts), Entry(k, 0, 0, 0);
      var more := InsertOne(s, n, e);
      RunConcat(Initial(n), acts, more);
      acts := acts + more;
    }
  }

  lemma InsertOne(s: State, n: nat, e: Entry) returns (acts: seq<Action>)
    requires n > 0 && e.msgid > 0 && Quiet(s, n, e.msgid - 1) && |s.cache| < CACHE_MAX
    ensures IsRun(s, acts)
    ensures Quiet(Run(s, acts), n, e.msgid) && |Run(s, acts).cache| == |s.cache| + 1
  {
    var d := Next(s, InsertTest(0, e));
    assert forall t :: 1 <= t < n ==> d.threads[t].Idle?;
    SingleAction(d, InsertAdd(0));
    RunCons(s, InsertTest(0, e), [InsertAdd(0)]);
    acts := [InsertTest(0, e)] + [InsertAdd(0)];
  }

  /** All threads pass the size test before any of them takes the lock. */
  lemma {:induction false} AdmitAll(s: State, n: nat, ids: nat, k: nat) returns (acts: seq<Action>)
    requires Quiet(s, n, ids) && |s.cache| < CACHE_MAX && k <= n
    ensures IsRun(s, acts)
    ensures var d := Run(s, acts);
            && |d.threads| == n && d.cache == s.cache
            && (forall t :: 0 <= t < n ==> if t < k then d.threads[t].Admitted? else d.threads[t].Idle?)
            && (forall id :: id in d.inserted ==> id <= ids + k)
  {
    if k == 0 {
      acts := [];
    } else {
      acts := AdmitAll(s, n, ids, k - 1);
      var d := Run(s, acts);
      var a := InsertTest(k - 1, Entry(ids + k, 0, 0, 0));
      SingleAction(d, a);
      RunConcat(s, acts, [a]);
      acts := acts + [a];
    }
  }

  lemma {:induction false} AddAll(s: State, n: nat, k: nat) returns (acts: seq<Action>)
    requires |s.threads| == n && k <= n && forall t :: 0 <= t < n ==> s.threads[t].Admitted?
    ensures IsRun(s, acts)
    ensures var d := Run(s, acts);
            && |d.threads| == n && |d.cache| == |s.cache| + k
            && forall t :: 0 <= t < n ==> if t < k then d.threads[t].Idle? else d.threads[t].Admitted?
  {
    if k == 0 {
      acts := [];
    } else {
      acts := AddAll(s, n, k - 1);
      var d := Run(s, acts);
      SingleAction(d, InsertAdd(k - 1));
      RunConcat(s, acts, [InsertAdd(k - 1)]);
      acts := acts + [InsertAdd(k - 1)];
    }
  }

  /** The bound of ConcurrentBounds is reached: n threads can fill the cache n - 1 entries beyond its
      maximum. */
  lemma CacheOvershoots(n: nat) returns (acts: seq<Action>)
    requires n > 0
    ensures IsRun(Initial(n), acts) && |Run(Initial(n), acts).cache| == 50 + n - 1
  {
    var a1 := FillUp(n, CACHE_MAX - 1);
    var s1 := Run(Initial(n), a1);
    var a2 := AdmitAll(s1, n, CACHE_MAX - 1, n);
    var s2 := Run(s1, a2);
    var a3 := AddAll(s2, n, n);
    RunConcat(s1, a2, a3);
    RunConcat(Initial(n), a1, a2 + a3);
    acts := a1 + (a2 + a3);
  }

  lemma SingleAction(s: State, a: Action)
    requires Enabled(s, a)
    ensures IsRun(s, [a]) && Run(s, [a]) == Next(s, a)
  {
    assert [a][1..] == [];
  }

  lemma RunCons(s: State, a: Action, rest: seq<Action>)
    requires Enabled(s, a) && IsRun(Next(s, a), rest)
    ensures IsRun(s, [a] + rest) && Run(s, [a] + rest) == Run(Next(s, a), rest)
  {
    assert ([a] + rest)[1..] == rest;
  }

  /** One more action at the end of a run. */
  lemma RunSnoc(s: State, acts: seq<Action>, a: Action)
    requires IsRun(s, acts) && Enabled(Run(s, acts), a)
    ensures IsRun(s, acts + [a]) && Run(s, acts + [a]) == Next(Run(s, acts), a)
  {
    SingleAction(Run(s, acts), a);
    RunConcat(s, acts, [a]);
  }

  lemma {:induction false} RunConcat(s: State, a: seq<Action>, b: seq<Action>)
    requires IsRun(s, a) && IsRun(Run(s, a), b)
    ensures IsRun(s, a + b) && Run(s, a + b) == Run(Run(s, a), b)
    decreases |a|
  {
    if a == [] {
      assert a + b == b;
    } else {
      RunConcat(Next(s, a[0]), a[1..], b);
      assert a + b == [a[0]] + (a[1..] + b);
      RunCons(s, a[0], a[1..] + b);
    }
  }
}
