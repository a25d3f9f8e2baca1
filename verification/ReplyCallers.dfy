/** Who may insert, who may reply and who may tick: the divisions of work between threads under which every
    run is safe, and the runs that go wrong under any other. */
module ReplyCallers {
  import opened MessageCache
  import opened ReplyRuns
  import opened ReplyOutcomes

  /** The threads that insert requests, those that handle replies, and those that run the timeout tick.
      Fetching events is open to all. */
  datatype Parts = Parts(inserters: set<nat>, repliers: set<nat>, tickers: set<nat>)

  predicate Follows(acts: seq<Action>, parts: Parts) {
    forall i :: 0 <= i < |acts| ==> Allowed(acts[i], parts)
  }

  predicate Allowed(a: Action, parts: Parts) {
    && (a.InsertTest? ==> a.t in parts.inserters)
    && (a.ReplySearch? ==> a.t in parts.repliers)
    && (a.TickBegin? ==> a.t in parts.tickers)
  }

  /** No replies at all, or one thread for replies and ticks together. */
  predicate RepliesTickAlone(parts: Parts) {
    forall a, b :: a in parts.repliers && b in parts.repliers + parts.tickers ==> a == b
  }

  /** Nobody inserts, or no replies, or one thread for inserts and replies together. */
  predicate RepliesInsertAlone(parts: Parts) {
    forall a, b :: a in parts.repliers && b in parts.inserters ==> a == b
  }

  // ----- one thread is safe -----

  /** Nobody else is in the middle of a reply or a tick, and what was found is still there until its finder
      removes it. */
  ghost predicate Alone(s: State, parts: Parts) {
    && (forall t: nat :: t < |s.threads| && (s.threads[t].Found? || s.threads[t].Ready? || s.threads[t].Finishing?) ==> t in parts.repliers)
    && (forall t: nat :: t < |s.threads| && s.threads[t].Walking? ==> t in parts.tickers)
    && (forall t: nat :: t < |s.threads| && s.threads[t].Found? ==> Cached(s, s.threads[t].id))
  }

  lemma SoleReplier(parts: Parts, a: nat, b: nat)
    requires RepliesTickAlone(parts) && a in parts.repliers && b in parts.repliers + parts.tickers
    ensures a == b
  {
  }

  lemma FoundStaysCached(s: State, d: State, t: nat)
    requires Consistent(s) && t < |s.threads| && s.threads[t].Found? && Cached(s, s.threads[t].id)
    requires s.cache <= d.cache
    ensures Cached(d, s.threads[t].id)
  {
    var i :| 0 <= i < |s.cache| && s.cache[i].msgid == s.threads[t].id;
    assert d.cache[i] == s.cache[i];
  }

  lemma StepKeepsAlone(s: State, a: Action, parts: Parts)
    requires Consistent(s) && Alone(s, parts) && Enabled(s, a)
    requires RepliesTickAlone(parts) && Allowed(a, parts)
    ensures Alone(Next(s, a), parts)
  {
    hide Consistent, RepliesTickAlone;
    var d := Next(s, a);
    forall t: nat | t < |d.threads| && d.threads[t].Found?
      ensures Cached(d, d.threads[t].id)
    {
      if s.threads[t] == d.threads[t] {
        match a {
          case ReplyRemove(u) => SoleReplier(parts, t, u);
          case TickNode(u) => SoleReplier(parts, t, u);
          case _ => assert s.cache <= d.cache; FoundStaysCached(s, d, t);
        }
      } else {
        assert s.cache[IndexOf(s.cache, a.id)].msgid == a.id;
      }
    }
  }

  lemma AloneIsQuiet(s: State, a: Action, parts: Parts, id: int)
    requires Alone(s, parts) && Enabled(s, a)
    requires RepliesTickAlone(parts) && Allowed(a, parts)
    ensures !Overlaps(s, a, id)
    ensures a.ReplyRead? && s.threads[a.t].id == id ==> Cached(s, id)
  {
    hide RepliesTickAlone;
    if Overlaps(s, a, id) {
      var u: nat :| u < |s.threads| && Replying(s.threads[u], id);
      SoleReplier(parts, u, a.t);
    }
  }

  lemma {:induction false} RunIsQuiet(s: State, acts: seq<Action>, parts: Parts, id: int)
    requires IsRun(s, acts) && Consistent(s) && Alone(s, parts)
    requires RepliesTickAlone(parts) && Follows(acts, parts)
    ensures Serial(s, acts, id) && ReadsCached(s, acts, id)
    decreases |acts|
  {
    hide Consistent, Alone, RepliesTickAlone, Allowed, Overlaps, Enabled, Next;
    if acts != [] {
      StepKeepsConsistent(s, acts[0]);
      StepKeepsAlone(s, acts[0], parts);
      AloneIsQuiet(s, acts[0], parts, id);
      assert forall i :: 0 <= i < |acts| - 1 ==> acts[1..][i] == acts[i + 1];
      RunIsQuiet(Next(s, acts[0]), acts[1..], parts, id);
    }
  }

  // ----- two threads are not -----

  const ENTRY := Entry(7, 3, 1, 0)
  const FIRST := UserEvent(1, 7, 200, 3)
  const SECOND := UserEvent(1, 7, 200, 4)
  const TIMEOUT := UserEvent(1, 7, CODE_TIMEOUT, 3)

  function Idles(n: nat): seq<Thread> {
    seq(n, _ => Idle)
  }

  /** The request 7 was inserted for device 3. */
  function Scene(threads: seq<Thread>, cached: bool, sent: seq<UserEvent>): State {
    State(threads, if cached then [ENTRY] else [], sent, map[7 := 3], {7}, sent, [], [])
  }

  /** A run in which the threads keep to their parts, together with where it leads. */
  ghost predicate Leads(n: nat, acts: seq<Action>, parts: Parts, s: State) {
    IsRun(Initial(n), acts) && Run(Initial(n), acts) == s && Follows(acts, parts)
  }

  lemma LeadOn(n: nat, acts: seq<Action>, parts: Parts, s: State, a: Action, d: State)
    requires Leads(n, acts, parts, s)
    requires Enabled(s, a) && Allowed(a, parts) && Next(s, a) == d
    ensures Leads(n, acts + [a], parts, d)
  {
    RunSnoc(Initial(n), acts, a);
  }

  lemma RequestInserted(n: nat, a: nat, parts: Parts) returns (acts: seq<Action>)
    requires a < n && a in parts.inserters
    ensures Leads(n, acts, parts, Scene(Idles(n), true, []))
  {
    var s1 := State(Idles(n)[a := Admitted(ENTRY)], [], [], map[7 := 3], {}, [], [], []);
    assert Next(Initial(n), InsertTest(a, ENTRY)) == s1;
    LeadOn(n, [], parts, Initial(n), InsertTest(a, ENTRY), s1);
    assert s1.threads[a := Idle] == Idles(n) && [] + [ENTRY] == [ENTRY] && {} + {7} == {7};
    assert Next(s1, InsertAdd(a)) == Scene(Idles(n), true, []);
    LeadOn(n, [] + [InsertTest(a, ENTRY)], parts, s1, InsertAdd(a), Scene(Idles(n), true, []));
    acts := [] + [InsertTest(a, ENTRY)] + [InsertAdd(a)];
  }

  lemma SearchFinds(ts: seq<Thread>, t: nat, sent: seq<UserEvent>)
    requires t < |ts| && ts[t].Idle? && forall u :: 0 <= u < |ts| ==> !ts[u].Walking?
    ensures Enabled(Scene(ts, true, sent), ReplySearch(t, 7, 200, 1))
    ensures Next(Scene(ts, true, sent), ReplySearch(t, 7, 200, 1)) == Scene(ts[t := Found(7, 200, 1)], true, sent)
  {
    assert IndexOf([ENTRY], 7) == 0;
  }

  /** The reader finds device 3 in a cached entry and 4 in the memory of a freed one. */
  lemma ReadReads(ts: seq<Thread>, t: nat, cached: bool, sent: seq<UserEvent>)
    requires t < |ts| && ts[t] == Found(7, 200, 1)
    ensures Enabled(Scene(ts, cached, sent), ReplyRead(t, 4))
    ensures Next(Scene(ts, cached, sent), ReplyRead(t, 4)) == Scene(ts[t := Ready(7, if cached then FIRST else SECOND)], cached, sent)
  {
    assert IndexOf([ENTRY], 7) == 0;
  }

  lemma SendSends(ts: seq<Thread>, t: nat, cached: bool, sent: seq<UserEvent>, e: UserEvent)
    requires t < |ts| && ts[t] == Ready(7, e) && |sent| < 2
    ensures Enabled(Scene(ts, cached, sent), ReplySend(t))
    ensures Next(Scene(ts, cached, sent), ReplySend(t)) == Scene(ts[t := Finishing(7, true)], cached, sent + [e])
  {
  }

  /** Thread `a` has found the entry; then the tick of `b` times it out. */
  lemma TickTakesAway(n: nat, a: nat, b: nat, parts: Parts, before: seq<Action>) returns (acts: seq<Action>)
    requires a < n && b < n && a != b && b in parts.tickers
    requires Leads(n, before, parts, Scene(Idles(n)[a := Found(7, 200, 1)], true, []))
    ensures Leads(n, acts, parts, Scene(Idles(n)[a := Found(7, 200, 1)], false, [TIMEOUT]))
  {
    hide Leads;
    var ts := Idles(n)[a := Found(7, 200, 1)];
    var us := ts[b := Walking(TIMEOUT_MS, 0)];
    assert Next(Scene(ts, true, []), TickBegin(b, TIMEOUT_MS)) == Scene(us, true, []);
    LeadOn(n, before, parts, Scene(ts, true, []), TickBegin(b, TIMEOUT_MS), Scene(us, true, []));
    assert Overdue(ENTRY, TIMEOUT_MS) && [ENTRY][..0] + [ENTRY][1..] == [] && [] + [TIMEOUT] == [TIMEOUT];
    assert Next(Scene(us, true, []), TickNode(b)) == Scene(us, false, [TIMEOUT]);
    LeadOn(n, before + [TickBegin(b, TIMEOUT_MS)], parts, Scene(us, true, []), TickNode(b), Scene(us, false, [TIMEOUT]));
    assert us[b := Idle] == ts;
    LeadOn(n, before + [TickBegin(b, TIMEOUT_MS)] + [TickNode(b)], parts,
           Scene(us, false, [TIMEOUT]), TickEnd(b), Scene(ts, false, [TIMEOUT]));
    acts := before + [TickBegin(b, TIMEOUT_MS)] + [TickNode(b)] + [TickEnd(b)];
  }

  /** Thread `a` has found the entry; then a second reply runs to its end in thread `b`. */
  lemma ReplyTakesAway(n: nat, a: nat, b: nat, parts: Parts, before: seq<Action>) returns (acts: seq<Action>)
    requires a < n && b < n && a != b && b in parts.repliers
    requires Leads(n, before, parts, Scene(Idles(n)[a := Found(7, 200, 1)], true, []))
    ensures Leads(n, acts, parts, Scene(Idles(n)[a := Found(7, 200, 1)], false, [FIRST]))
  {
    hide Leads;
    var ts := Idles(n)[a := Found(7, 200, 1)];
    SearchFinds(ts, b, []);
    LeadOn(n, before, parts, Scene(ts, true, []), ReplySearch(b, 7, 200, 1), Scene(ts[b := Found(7, 200, 1)], true, []));
    acts := before + [ReplySearch(b, 7, 200, 1)];
    ReadReads(ts[b := Found(7, 200, 1)], b, true, []);
    assert ts[b := Found(7, 200, 1)][b := Ready(7, FIRST)] == ts[b := Ready(7, FIRST)];
    LeadOn(n, acts, parts, Scene(ts[b := Found(7, 200, 1)], true, []), ReplyRead(b, 4), Scene(ts[b := Ready(7, FIRST)], true, []));
    acts := acts + [ReplyRead(b, 4)];
    SendSends(ts[b := Ready(7, FIRST)], b, true, [], FIRST);
    assert ts[b := Ready(7, FIRST)][b := Finishing(7, true)] == ts[b := Finishing(7, true)] && [] + [FIRST] == [FIRST];
    LeadOn(n, acts, parts, Scene(ts[b := Ready(7, FIRST)], true, []), ReplySend(b), Scene(ts[b := Finishing(7, true)], true, [FIRST]));
    acts := acts + [ReplySend(b)];
    RemoveRemoves(ts[b := Finishing(7, true)], b, true, [FIRST]);
    assert ts[b := Finishing(7, true)][b := Idle] == ts;
    LeadOn(n, acts, parts, Scene(ts[b := Finishing(7, true)], true, [FIRST]), ReplyRemove(b), Scene(ts, false, [FIRST]));
    acts := acts + [ReplyRemove(b)];
  }

  lemma RemoveRemoves(ts: seq<Thread>, t: nat, hit: bool, sent: seq<UserEvent>)
    requires t < |ts| && ts[t] == Finishing(7, hit) && forall u :: 0 <= u < |ts| ==> !ts[u].Walking?
    ensures Enabled(Scene(ts, true, sent), ReplyRemove(t))
    ensures Next(Scene(ts, true, sent), ReplyRemove(t)) == Scene(ts[t := Idle], false, sent)
  {
    assert IndexOf([ENTRY], 7) == 0 && [ENTRY][..0] + [ENTRY][1..] == [];
  }

  /** Two outcomes for one request, the second with the device read from freed memory: between the search
      and the read of a reply in thread `a`, thread `b` times the entry out or handles another reply. */
  lemma TwoThreadsRace(n: nat, a: nat, b: nat, c: nat, parts: Parts) returns (acts: seq<Action>)
    requires a < n && b < n && c < n && a != b
    requires a in parts.repliers && b in parts.repliers + parts.tickers && c in parts.inserters
    ensures IsRun(Initial(n), acts) && Follows(acts, parts)
    ensures var s := Run(Initial(n), acts);
            Outcomes(s.enqueued, 7) == 2 && SomeWrong(s.enqueued, s.inserted, 7)
  {
    acts := RequestInserted(n, c, parts);
    SearchFinds(Idles(n), a, []);
    var ts := Idles(n)[a := Found(7, 200, 1)];
    LeadOn(n, acts, parts, Scene(Idles(n), true, []), ReplySearch(a, 7, 200, 1), Scene(ts, true, []));
    acts := acts + [ReplySearch(a, 7, 200, 1)];
    var e := if b in parts.tickers then TIMEOUT else FIRST;
    if b in parts.tickers {
      acts := TickTakesAway(n, a, b, parts, acts);
    } else {
      acts := ReplyTakesAway(n, a, b, parts, acts);
    }
    acts := LateReader(n, a, parts, acts, e);
  }

  lemma LateReader(n: nat, a: nat, parts: Parts, before: seq<Action>, e: UserEvent) returns (acts: seq<Action>)
    requires a < n && e.id == 7 && Leads(n, before, parts, Scene(Idles(n)[a := Found(7, 200, 1)], false, [e]))
    ensures IsRun(Initial(n), acts) && Follows(acts, parts)
    ensures var s := Run(Initial(n), acts);
            Outcomes(s.enqueued, 7) == 2 && SomeWrong(s.enqueued, s.inserted, 7)
  {
    var ts := Idles(n)[a := Found(7, 200, 1)];
    ReadReads(ts, a, false, [e]);
    LeadOn(n, before, parts, Scene(ts, false, [e]), ReplyRead(a, 4), Scene(ts[a := Ready(7, SECOND)], false, [e]));
    SendSends(ts[a := Ready(7, SECOND)], a, false, [e], SECOND);
    var d := Scene(ts[a := Ready(7, SECOND)][a := Finishing(7, true)], false, [e] + [SECOND]);
    LeadOn(n, before + [ReplyRead(a, 4)], parts, Scene(ts[a := Ready(7, SECOND)], false, [e]), ReplySend(a), d);
    acts := before + [ReplyRead(a, 4)] + [ReplySend(a)];
    OutcomesAppend([e], SECOND, 7);
    assert Outcomes([e], 7) == 1;
    assert Wrong(d.enqueued[1], d.inserted, 7);
  }

  // ----- the condition on the callers -----

  /** In every run in which the threads keep to their parts, every request has at most one outcome. */
  ghost predicate OneOutcomeAlways(n: nat, parts: Parts) {
    forall acts, id :: IsRun(Initial(n), acts) && Follows(acts, parts) ==>
      Outcomes(Run(Initial(n), acts).enqueued, id) <= 1
  }

  /** And every event carries the device stored for its request. */
  ghost predicate DeviceAlways(n: nat, parts: Parts) {
    forall acts, id :: IsRun(Initial(n), acts) && Follows(acts, parts) ==>
      !SomeWrong(Run(Initial(n), acts).enqueued, Run(Initial(n), acts).inserted, id)
  }

  /** And every request that has left the cache has its outcome sent, about to be sent, or lost to a full
      queue. */
  ghost predicate ServedAlways(n: nat, parts: Parts) {
    forall acts, id :: IsRun(Initial(n), acts) && Follows(acts, parts) ==> Served(Run(Initial(n), acts), id)
  }

  /** Which divisions of work keep requests from a second outcome, and events from a wrong device: those
      without inserts, those without replies, and those that leave all replies and ticks to one thread. */
  lemma CallersDecide(n: nat, parts: Parts)
    requires forall t :: t in parts.inserters + parts.repliers + parts.tickers ==> t < n
    ensures OneOutcomeAlways(n, parts) <==> parts.inserters == {} || RepliesTickAlone(parts)
    ensures DeviceAlways(n, parts) <==> parts.inserters == {} || RepliesTickAlone(parts)
  {
    hide Outcomes, SomeWrong;
    if parts.inserters == {} {
      forall acts, id | IsRun(Initial(n), acts) && Follows(acts, parts)
        ensures Outcomes(Run(Initial(n), acts).enqueued, id) <= 1
        ensures !SomeWrong(Run(Initial(n), acts).enqueued, Run(Initial(n), acts).inserted, id)
      {
        NothingInserted(n, acts, parts, id);
      }
    } else if RepliesTickAlone(parts) {
      forall acts, id | IsRun(Initial(n), acts) && Follows(acts, parts)
        ensures Outcomes(Run(Initial(n), acts).enqueued, id) <= 1
        ensures !SomeWrong(Run(Initial(n), acts).enqueued, Run(Initial(n), acts).inserted, id)
      {
        InitialIsFine(n, id);
        RunIsQuiet(Initial(n), acts, parts, id);
        OneOutcome(n, acts, id);
        DeviceIsStored(n, acts, id);
      }
    } else {
      var a, b :| a in parts.repliers && b in parts.repliers + parts.tickers && a != b;
      var c :| c in parts.inserters;
      assert {a, b, c} <= parts.inserters + parts.repliers + parts.tickers;
      assert a < n && b < n && c < n;
      var acts := TwoThreadsRace(n, a, b, c, parts);
    }
  }

  // ----- replies that come too early -----

  /** No reply that has found nothing stands before the removal of an id that is cached by now. */
  ghost predicate NoneEarly(s: State, parts: Parts) {
    && (forall t: nat :: t < |s.threads| && s.threads[t].Admitted? ==> t in parts.inserters && s.threads[t].entry.msgid > 0)
    && (forall i :: 0 <= i < |s.cache| ==> s.cache[i].msgid > 0)
    && (forall t: nat :: t < |s.threads| && s.threads[t].Finishing? && !s.threads[t].hit ==>
          t in parts.repliers && !Cached(s, s.threads[t].finished))
    && (parts.inserters == {} ==> s.added == {})
  }

  lemma SoleInserter(parts: Parts, a: nat, b: nat)
    requires RepliesInsertAlone(parts) && a in parts.repliers && b in parts.inserters
    ensures a == b
  {
  }

  /** The cached ids after any step but an insert are cached ids of before. */
  lemma NothingNewCached(s: State, a: Action)
    requires Enabled(s, a) && !a.InsertAdd?
    ensures forall i :: 0 <= i < |Next(s, a).cache| ==> Cached(s, Next(s, a).cache[i].msgid)
  {
  }

  lemma StepKeepsNoneEarly(s: State, a: Action, parts: Parts)
    requires NoneEarly(s, parts) && Enabled(s, a) && RepliesInsertAlone(parts) && Allowed(a, parts)
    ensures NoneEarly(Next(s, a), parts)
  {
    hide RepliesInsertAlone, DeviceRead, Overdue, Pulled, TimeoutEvent, Without;
    var d := Next(s, a);
    if a.InsertAdd? {
      forall t: nat | t < |s.threads| ensures !s.threads[t].Finishing? || s.threads[t].hit {
        if s.threads[t].Finishing? && !s.threads[t].hit { SoleInserter(parts, t, a.t); }
      }
    } else {
      NothingNewCached(s, a);
    }
  }

  lemma NoneEarlyOrphans(s: State, a: Action, parts: Parts, id: int)
    requires NoneEarly(s, parts)
    ensures !Orphans(s, a, id)
  {
  }

  lemma {:induction false} RunKeepsNoneEarly(s: State, acts: seq<Action>, parts: Parts, id: int)
    requires IsRun(s, acts) && Follows(acts, parts) && RepliesInsertAlone(parts)
    requires Consistent(s) && Accounted(s) && NoneEarly(s, parts) && Served(s, id)
    ensures Consistent(Run(s, acts)) && NoneEarly(Run(s, acts), parts) && Served(Run(s, acts), id)
    decreases |acts|
  {
    hide Consistent, Accounted, NoneEarly, Served, RepliesInsertAlone, Allowed, Orphans, Enabled, Next;
    if acts != [] {
      StepKeepsConsistent(s, acts[0]);
      StepKeepsAccounted(s, acts[0]);
      StepKeepsNoneEarly(s, acts[0], parts);
      NoneEarlyOrphans(s, acts[0], parts, id);
      StepServes(s, acts[0], id);
      assert forall i :: 0 <= i < |acts| - 1 ==> acts[1..][i] == acts[i + 1];
      RunKeepsNoneEarly(Next(s, acts[0]), acts[1..], parts, id);
    }
  }

  lemma NothingInserted(n: nat, acts: seq<Action>, parts: Parts, id: int)
    requires IsRun(Initial(n), acts) && Follows(acts, parts) && parts.inserters == {}
    ensures Outcomes(Run(Initial(n), acts).enqueued, id) == 0
    ensures !SomeWrong(Run(Initial(n), acts).enqueued, Run(Initial(n), acts).inserted, id)
  {
    InitialIsFine(n, id);
    RunKeepsNoneEarly(Initial(n), acts, parts, id);
    OutcomesPositive(Run(Initial(n), acts).enqueued, id);
  }

  /** Thread `a` has answered a reply to 7 with nothing, before thread `b` inserted the request; it has
      still to remove the id. */
  lemma EarlyReply(n: nat, a: nat, b: nat, parts: Parts) returns (acts: seq<Action>)
    requires a < n && b < n && a != b && a in parts.repliers && b in parts.inserters
    ensures Leads(n, acts, parts, Scene(Idles(n)[a := Finishing(7, false)], true, []))
    ensures Serial(Initial(n), acts, 7)
  {
    var ts := Idles(n)[a := Finishing(7, false)];
    var s1 := State(ts, [], [], map[], {}, [], [], []);
    var s2 := State(ts[b := Admitted(ENTRY)], [], [], map[7 := 3], {}, [], [], []);
    assert Next(Initial(n), ReplySearch(a, 7, 200, 1)) == s1;
    LeadOn(n, [], parts, Initial(n), ReplySearch(a, 7, 200, 1), s1);
    SerialSnoc(Initial(n), [], ReplySearch(a, 7, 200, 1), 7);
    acts := [] + [ReplySearch(a, 7, 200, 1)];
    assert Next(s1, InsertTest(b, ENTRY)) == s2;
    LeadOn(n, acts, parts, s1, InsertTest(b, ENTRY), s2);
    SerialSnoc(Initial(n), acts, InsertTest(b, ENTRY), 7);
    acts := acts + [InsertTest(b, ENTRY)];
    assert ts[b := Admitted(ENTRY)][b := Idle] == ts && [] + [ENTRY] == [ENTRY] && {} + {7} == {7};
    assert Next(s2, InsertAdd(b)) == Scene(ts, true, []);
    LeadOn(n, acts, parts, s2, InsertAdd(b), Scene(ts, true, []));
    SerialSnoc(Initial(n), acts, InsertAdd(b), 7);
    acts := acts + [InsertAdd(b)];
  }

  lemma {:induction false} SerialSnoc(s: State, acts: seq<Action>, a: Action, id: int)
    requires IsRun(s, acts) && Enabled(Run(s, acts), a)
    ensures IsRun(s, acts + [a])
    ensures Serial(s, acts + [a], id) <==> Serial(s, acts, id) && !Overlaps(Run(s, acts), a, id)
    decreases |acts|
  {
    RunSnoc(s, acts, a);
    if acts == [] {
      assert [] + [a] == [a] && [a][1..] == [];
    } else {
      assert (acts + [a])[1..] == acts[1..] + [a];
      SerialSnoc(Next(s, acts[0]), acts[1..], a, id);
    }
  }

  lemma NothingDue(ts: seq<Thread>)
    requires forall t :: 0 <= t < |ts| ==> ts[t].Idle?
    ensures 7 in Scene(ts, false, []).added && !Cached(Scene(ts, false, []), 7) && Total(Scene(ts, false, []), 7) == 0
  {
    PendingPositive(ts, 7);
  }

  /** A request without any outcome: thread `b` inserts it between the search of a reply and its removal in
      thread `a`, and the removal takes the new entry away. */
  lemma EarlyReplyDropsRequest(n: nat, a: nat, b: nat, parts: Parts) returns (acts: seq<Action>)
    requires a < n && b < n && a != b && a in parts.repliers && b in parts.inserters
    ensures IsRun(Initial(n), acts) && Follows(acts, parts)
    ensures var s := Run(Initial(n), acts); 7 in s.added && !Cached(s, 7) && Total(s, 7) == 0
  {
    acts := EarlyReply(n, a, b, parts);
    var ts := Idles(n)[a := Finishing(7, false)];
    RemoveRemoves(ts, a, false, []);
    LeadOn(n, acts, parts, Scene(ts, true, []), ReplyRemove(a), Scene(ts[a := Idle], false, []));
    acts := acts + [ReplyRemove(a)];
    NothingDue(ts[a := Idle]);
  }

  /** Which divisions of work leave no request without an outcome: those without inserts, those without
      replies, and those that leave both to one thread.  Ticks may run anywhere. */
  lemma CallersServe(n: nat, parts: Parts)
    requires forall t :: t in parts.inserters + parts.repliers ==> t < n
    ensures ServedAlways(n, parts) <==> RepliesInsertAlone(parts)
  {
    hide Total;
    if RepliesInsertAlone(parts) {
      forall acts, id | IsRun(Initial(n), acts) && Follows(acts, parts)
        ensures Served(Run(Initial(n), acts), id)
      {
        InitialIsFine(n, id);
        RunKeepsNoneEarly(Initial(n), acts, parts, id);
      }
    } else {
      var a, b :| a in parts.repliers && b in parts.inserters && a != b;
      assert {a, b} <= parts.inserters + parts.repliers;
      assert a < n && b < n;
      var acts := EarlyReplyDropsRequest(n, a, b, parts);
      assert !Served(Run(Initial(n), acts), 7);
    }
  }

  /** All three at once: a program that inserts requests and handles replies keeps them in every run exactly
      if a single thread inserts, replies and ticks. */
  lemma SafeCallersExactly(n: nat, parts: Parts)
    requires forall t :: t in parts.inserters + parts.repliers + parts.tickers ==> t < n
    requires parts.inserters != {} && parts.repliers != {}
    ensures OneOutcomeAlways(n, parts) && DeviceAlways(n, parts) && ServedAlways(n, parts)
            <==> exists t :: parts.inserters == {t} && parts.repliers == {t} && parts.tickers <= {t}
  {
    hide OneOutcomeAlways, DeviceAlways, ServedAlways;
    CallersDecide(n, parts);
    assert forall t :: t in parts.inserters + parts.repliers ==> t in parts.inserters + parts.repliers + parts.tickers;
    CallersServe(n, parts);
    if RepliesTickAlone(parts) && RepliesInsertAlone(parts) {
      var t :| t in parts.repliers;
      forall b | b in parts.tickers ensures b == t { assert b in parts.repliers + parts.tickers; }
      assert parts.inserters == {t} && parts.repliers == {t} && parts.tickers <= {t};
    }
  }

  /** A request whose only reply carries a wrong device, although nothing overlaps it: the reply that came
      before its entry frees the entry that the second one has found. */
  lemma EarlyReplyFreesEntry() returns (acts: seq<Action>)
    ensures IsRun(Initial(3), acts) && Serial(Initial(3), acts, 7)
    ensures var s := Run(Initial(3), acts); Outcomes(s.enqueued, 7) == 1 && SomeWrong(s.enqueued, s.inserted, 7)
  {
    acts := EarlyReply(3, 0, 1, Parts({1}, {0, 2}, {}));
    var ts := Idles(3)[0 := Finishing(7, false)];
    var us := ts[2 := Found(7, 200, 1)];
    SearchFinds(ts, 2, []);
    assert !SomeoneReplying(Scene(ts, true, []), 7);
    SerialSnoc(Initial(3), acts, ReplySearch(2, 7, 200, 1), 7);
    RunSnoc(Initial(3), acts, ReplySearch(2, 7, 200, 1));
    acts := acts + [ReplySearch(2, 7, 200, 1)];
    RemoveRemoves(us, 0, false, []);
    SerialSnoc(Initial(3), acts, ReplyRemove(0), 7);
    RunSnoc(Initial(3), acts, ReplyRemove(0));
    acts := acts + [ReplyRemove(0)];
    var vs := us[0 := Idle];
    ReadReads(vs, 2, false, []);
    SerialSnoc(Initial(3), acts, ReplyRead(2, 4), 7);
    RunSnoc(Initial(3), acts, ReplyRead(2, 4));
    acts := acts + [ReplyRead(2, 4)];
    SendSends(vs[2 := Ready(7, SECOND)], 2, false, [], SECOND);
    SerialSnoc(Initial(3), acts, ReplySend(2), 7);
    RunSnoc(Initial(3), acts, ReplySend(2));
    acts := acts + [ReplySend(2)];
    assert [] + [SECOND] == [SECOND] && Outcomes([SECOND], 7) == 1;
    assert Wrong([SECOND][0], map[7 := 3], 7);
  }
}
