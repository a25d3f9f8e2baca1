/** What the outcome of a request carries, and whether there is one at all. */
module ReplyOutcomes {
  import opened MessageCache
  import opened ReplyRuns

  // ----- the device in an event -----

  /** The device read through the pointer is the stored one, whatever freed memory may hold, exactly if the
      entry found is still cached when it is read. */
  lemma ReadIsStoredExactly(s: State, t: nat)
    requires Consistent(s) && t < |s.threads| && s.threads[t].Found?
    ensures var id := s.threads[t].id;
            (forall junk :: DeviceRead(s, id, junk) == s.inserted[id]) <==> Cached(s, id)
  {
    var id := s.threads[t].id;
    if Cached(s, id) {
      DistinctAndKnown(s);
    } else {
      assert DeviceRead(s, id, s.inserted[id] + 1) != s.inserted[id];
    }
  }

  /** Every read for the request finds its entry still cached. */
  ghost predicate ReadsCached(s: State, acts: seq<Action>, id: int)
    requires IsRun(s, acts)
    decreases |acts|
  {
    acts == []
    || ((acts[0].ReplyRead? && s.threads[acts[0].t].id == id ==> Cached(s, id))
        && ReadsCached(Next(s, acts[0]), acts[1..], id))
  }

  /** What is read from the freed entry of the request differs from the device that was stored there. */
  ghost predicate FreedDiffers(s: State, acts: seq<Action>, id: int)
    requires IsRun(s, acts)
    decreases |acts|
  {
    acts == []
    || ((acts[0].ReplyRead? && s.threads[acts[0].t].id == id && !Cached(s, id) && id in s.inserted ==> acts[0].junk != s.inserted[id])
        && FreedDiffers(Next(s, acts[0]), acts[1..], id))
  }

  /** The event is of this request and carries another device than the stored one. */
  predicate Wrong(e: UserEvent, inserted: map<int, int>, id: int) {
    e.id == id && id in inserted && e.devid != inserted[id]
  }

  predicate SomeWrong(es: seq<UserEvent>, inserted: map<int, int>, id: int) {
    exists i :: 0 <= i < |es| && Wrong(es[i], inserted, id)
  }

  /** An event with another device is about to be sent, in the history, or lost. */
  ghost predicate Tainted(s: State, id: int) {
    || (exists t :: 0 <= t < |s.threads| && s.threads[t].Ready? && Wrong(s.threads[t].event, s.inserted, id))
    || SomeWrong(s.enqueued, s.inserted, id)
    || SomeWrong(s.lost, s.inserted, id)
  }

  lemma SomeWrongAppend(es: seq<UserEvent>, e: UserEvent, inserted: map<int, int>, id: int)
    ensures SomeWrong(es + [e], inserted, id) <==> SomeWrong(es, inserted, id) || Wrong(e, inserted, id)
  {
    assert forall i :: 0 <= i < |es| ==> (es + [e])[i] == es[i];
    assert (es + [e])[|es|] == e;
  }

  /** A step that leaves the events alone and no wrong one about to be sent or taken back. */
  lemma TaintElsewhere(s: State, d: State, id: int)
    requires d.enqueued == s.enqueued && d.lost == s.lost
    requires id in s.added && id in s.inserted ==> id in d.inserted && d.inserted[id] == s.inserted[id]
    requires id !in s.added ==> forall i :: 0 <= i < |s.enqueued| ==> s.enqueued[i].id != id
    requires id !in s.added ==> forall i :: 0 <= i < |s.lost| ==> s.lost[i].id != id
    requires id in s.added ==> id in s.inserted
    requires forall t :: 0 <= t < |s.threads| && s.threads[t].Ready? && s.threads[t].event.id == id ==> id in s.added
    requires |d.threads| == |s.threads|
    requires forall t :: 0 <= t < |s.threads| ==> (s.threads[t].Ready? || d.threads[t].Ready?) ==> d.threads[t] == s.threads[t]
    ensures Tainted(d, id) <==> Tainted(s, id)
  {
  }

  lemma SentTaints(s: State, t: nat, id: int)
    requires Enabled(s, ReplySend(t))
    ensures Tainted(Next(s, ReplySend(t)), id) <==> Tainted(s, id)
  {
    var d, e := Next(s, ReplySend(t)), s.threads[t].event;
    SomeWrongAppend(s.enqueued, e, s.inserted, id);
    SomeWrongAppend(s.lost, e, s.inserted, id);
    hide SomeWrong, Wrong;
    assert forall u :: 0 <= u < |s.threads| && u != t ==> d.threads[u] == s.threads[u];
  }

  lemma TimeoutTaintsNothing(s: State, t: nat, id: int)
    requires Consistent(s) && Enabled(s, TickNode(t))
    ensures Tainted(Next(s, TickNode(t)), id) <==> Tainted(s, id)
  {
    hide Consistent;
    var d, e := Next(s, TickNode(t)), TimeoutEvent(s.cache[s.threads[t].at]);
    DistinctAndKnown(s);
    SomeWrongAppend(s.enqueued, e, s.inserted, id);
    SomeWrongAppend(s.lost, e, s.inserted, id);
    assert !Wrong(e, s.inserted, id);
    hide SomeWrong, Wrong;
    assert forall u :: 0 <= u < |s.threads| && s.threads[u].Ready? ==> d.threads[u] == s.threads[u];
    assert forall u :: 0 <= u < |s.threads| && d.threads[u].Ready? ==> d.threads[u] == s.threads[u];
  }

  lemma ReadTaints(s: State, t: nat, junk: int, id: int)
    requires Consistent(s) && Enabled(s, ReplyRead(t, junk))
    ensures var stale := s.threads[t].id == id && !Cached(s, id);
            && (Tainted(s, id) ==> Tainted(Next(s, ReplyRead(t, junk)), id))
            && (Tainted(Next(s, ReplyRead(t, junk)), id) ==> Tainted(s, id) || stale)
            && (stale && id in s.inserted && junk != s.inserted[id] ==> Tainted(Next(s, ReplyRead(t, junk)), id))
  {
    var d, p := Next(s, ReplyRead(t, junk)), s.threads[t];
    assert forall u :: 0 <= u < |s.threads| && u != t ==> d.threads[u] == s.threads[u];
    ReadIsStoredExactly(s, t);
    hide Consistent, SomeWrong;
    assert d.threads[t].event.devid == DeviceRead(s, p.id, junk) && d.threads[t].event.id == p.id;
  }

  lemma EventsAreAdded(s: State, id: int)
    requires Consistent(s)
    ensures id !in s.added ==> forall i :: 0 <= i < |s.enqueued| ==> s.enqueued[i].id != id
    ensures id !in s.added ==> forall i :: 0 <= i < |s.lost| ==> s.lost[i].id != id
    ensures id in s.added ==> id in s.inserted
    ensures forall t :: 0 <= t < |s.threads| && s.threads[t].Ready? && s.threads[t].event.id == id ==> id in s.added
  {
  }

  /** Wrong events come from stale reads only, and stay. */
  lemma StepTaints(s: State, a: Action, id: int)
    requires Consistent(s) && Enabled(s, a)
    ensures var stale := a.ReplyRead? && s.threads[a.t].id == id && !Cached(s, id);
            && (Tainted(s, id) ==> Tainted(Next(s, a), id))
            && (Tainted(Next(s, a), id) ==> Tainted(s, id) || stale)
            && (stale && id in s.inserted && a.junk != s.inserted[id] ==> Tainted(Next(s, a), id))
  {
    EventsAreAdded(s, id);
    hide Consistent, Tainted, Cached;
    match a {
      case ReplyRead(t, junk) => ReadTaints(s, t, junk, id);
      case ReplySend(t) => SentTaints(s, t, id);
      case TickNode(t) => TimeoutTaintsNothing(s, t, id);
      case _ => TaintElsewhere(s, Next(s, a), id);
    }
  }

  lemma {:induction false} RunTaints(s: State, acts: seq<Action>, id: int)
    requires IsRun(s, acts) && Consistent(s)
    ensures ReadsCached(s, acts, id) && !Tainted(s, id) ==> !Tainted(Run(s, acts), id)
    ensures FreedDiffers(s, acts, id) && (Tainted(s, id) || !ReadsCached(s, acts, id)) ==> Tainted(Run(s, acts), id)
    decreases |acts|
  {
    hide Consistent, Tainted, Next, Enabled, Cached;
    if acts != [] {
      StepKeepsConsistent(s, acts[0]);
      StepTaints(s, acts[0], id);
      if acts[0].ReplyRead? { FoundIsInserted(s, acts[0].t, acts[0].junk); }
      RunTaints(Next(s, acts[0]), acts[1..], id);
    }
  }

  lemma FoundIsInserted(s: State, t: nat, junk: int)
    requires Consistent(s) && Enabled(s, ReplyRead(t, junk))
    ensures s.threads[t].Found? && s.threads[t].id in s.inserted
  {
  }

  /** In a run in which every read for a request finds its entry still cached, every event of the request
      carries the device stored when it was inserted. */
  lemma DeviceIsStored(n: nat, acts: seq<Action>, id: int)
    requires IsRun(Initial(n), acts) && ReadsCached(Initial(n), acts, id)
    ensures !SomeWrong(Run(Initial(n), acts).enqueued, Run(Initial(n), acts).inserted, id)
  {
    InitialIsFine(n, id);
    RunTaints(Initial(n), acts, id);
  }

  /** And only then: in a run that loses no event and leaves no reply unsent, and in which freed memory does
      not happen to hold the old device, the events carry the stored device exactly if every read found
      its entry still cached. */
  lemma DeviceIsStoredExactly(n: nat, acts: seq<Action>, id: int)
    requires IsRun(Initial(n), acts) && FreedDiffers(Initial(n), acts, id)
    requires var s := Run(Initial(n), acts);
             s.lost == [] && forall t :: 0 <= t < |s.threads| ==> !s.threads[t].Ready?
    ensures !SomeWrong(Run(Initial(n), acts).enqueued, Run(Initial(n), acts).inserted, id)
            <==> ReadsCached(Initial(n), acts, id)
  {
    InitialIsFine(n, id);
    RunTaints(Initial(n), acts, id);
  }

  // ----- whether there is an outcome -----

  /** Outcomes sent, about to be sent, or lost. */
  function Total(s: State, id: int): nat {
    Due(s, id) + Outcomes(s.lost, id)
  }

  /** A reply whose search came before the entry takes the entry away before anybody else has found it. */
  predicate Orphans(s: State, a: Action, id: int) {
    && a.ReplyRemove? && a.t < |s.threads| && s.threads[a.t] == Finishing(id, false)
    && Cached(s, id) && Total(s, id) == 0
  }

  ghost predicate Orphaned(s: State, acts: seq<Action>, id: int)
    requires IsRun(s, acts)
    decreases |acts|
  {
    acts != [] && (Orphans(s, acts[0], id) || Orphaned(Next(s, acts[0]), acts[1..], id))
  }

  ghost predicate Served(s: State, id: int) {
    id in s.added && !Cached(s, id) ==> Total(s, id) > 0
  }

  lemma InsertKeepsCached(s: State, t: nat, id: int)
    requires Enabled(s, InsertAdd(t)) && Cached(s, id)
    ensures Cached(Next(s, InsertAdd(t)), id)
  {
    var i :| 0 <= i < |s.cache| && s.cache[i].msgid == id;
    assert Next(s, InsertAdd(t)).cache[i] == s.cache[i];
  }

  lemma RemovalKeepsCached(s: State, d: State, other: int, id: int)
    requires Consistent(s) && Cached(s, id) && other != id && d.cache == Without(s.cache, other)
    ensures Cached(d, id)
  {
    DistinctAndKnown(s);
    hide Consistent;
    WithoutShrinks(s.cache, other);
    var i :| 0 <= i < |s.cache| && s.cache[i].msgid == id;
    var j :| 0 <= j < |d.cache| && d.cache[j] == s.cache[i];
  }

  lemma TickKeepsCached(s: State, t: nat, id: int)
    requires Consistent(s) && Enabled(s, TickNode(t)) && Cached(s, id) && !Starts(s, TickNode(t), id)
    ensures Cached(Next(s, TickNode(t)), id)
  {
    var d, k := Next(s, TickNode(t)), s.threads[t].at;
    DistinctAndKnown(s);
    hide Consistent;
    if Overdue(s.cache[k], s.threads[t].now) {
      RemovedAt(s.cache, k);
      RemovalKeepsCached(s, d, s.cache[k].msgid, id);
    } else {
      var i :| 0 <= i < |s.cache| && s.cache[i].msgid == id;
      assert d.cache[i].msgid == id;
    }
  }

  /** An entry leaves the cache by a removal of its id or by its timeout. */
  lemma HowEntriesLeave(s: State, a: Action, id: int)
    requires Consistent(s) && Enabled(s, a) && Cached(s, id) && !Cached(Next(s, a), id)
    ensures (a.ReplyRemove? && s.threads[a.t].finished == id) || (a.TickNode? && Starts(s, a, id))
  {
    hide Consistent, Cached, Starts;
    match a {
      case InsertAdd(t) => InsertKeepsCached(s, t, id);
      case ReplyRemove(t) =>
        if s.threads[t].finished != id { RemovalKeepsCached(s, Next(s, a), s.threads[t].finished, id); }
      case TickNode(t) =>
        if !Starts(s, a, id) { TickKeepsCached(s, t, id); }
      case _ => SameCache(s, Next(s, a), id);
    }
  }

  lemma SameCache(s: State, d: State, id: int)
    requires s.cache == d.cache
    ensures Cached(s, id) == Cached(d, id)
  {
  }

  lemma NewlyAdded(s: State, a: Action, id: int)
    requires Enabled(s, a) && id in Next(s, a).added && id !in s.added
    ensures Cached(Next(s, a), id)
  {
    var d := Next(s, a);
    assert d.cache[|d.cache| - 1].msgid == id;
  }

  lemma StepServes(s: State, a: Action, id: int)
    requires Consistent(s) && Accounted(s) && Served(s, id) && Enabled(s, a) && !Orphans(s, a, id)
    ensures Served(Next(s, a), id)
  {
    hide Consistent, Outcomes, PendingCount, Cached, Starts;
    DueChanges(s, a, id);
    if id in Next(s, a).added && id !in s.added {
      NewlyAdded(s, a, id);
    } else if Cached(s, id) && !Cached(Next(s, a), id) {
      HowEntriesLeave(s, a, id);
    }
  }

  lemma OrphanIsSettled(s: State, a: Action, id: int)
    requires Consistent(s) && Enabled(s, a) && Orphans(s, a, id)
    ensures Settled(Next(s, a), id) && Total(Next(s, a), id) == 0 && id in s.added
  {
    DueChanges(s, a, id);
    PendingPositive(Next(s, a).threads, id);
    hide Outcomes, PendingCount;
    var i :| 0 <= i < |s.cache| && s.cache[i].msgid == id;
    DistinctAndKnown(s);
    NotAdmitted(s, i);
    WithoutShrinks(s.cache, id);
  }

  lemma SettledTotal(s: State, id: int)
    requires Settled(s, id)
    ensures Total(s, id) == Outcomes(s.enqueued, id) + Outcomes(s.lost, id)
  {
    PendingPositive(s.threads, id);
  }

  lemma {:induction false} RunServes(s: State, acts: seq<Action>, id: int)
    requires IsRun(s, acts) && Consistent(s) && Accounted(s) && Served(s, id)
    ensures !Orphaned(s, acts, id) ==> Served(Run(s, acts), id)
    ensures Orphaned(s, acts, id) ==> Total(Run(s, acts), id) == 0
    decreases |acts|
  {
    hide Consistent, Accounted, Served, Settled, Total, Orphans, Next, Enabled;
    if acts != [] {
      var d := Next(s, acts[0]);
      StepKeepsConsistent(s, acts[0]);
      if Orphans(s, acts[0], id) {
        OrphanIsSettled(s, acts[0], id);
        LateReplyIsSilent(d, acts[1..], id);
        SettledTotal(d, id);
        SettledTotal(Run(d, acts[1..]), id);
      } else {
        StepKeepsAccounted(s, acts[0]);
        StepServes(s, acts[0], id);
        RunServes(d, acts[1..], id);
      }
    }
  }

  /** At least one outcome: a request whose entry has left the cache has its outcome sent, about to be sent,
      or lost to a full queue, exactly if its entry was not taken away by a reply that had searched before
      the entry was there. */
  lemma LeavesWithOutcomeExactly(n: nat, acts: seq<Action>, id: int)
    requires IsRun(Initial(n), acts)
    requires id in Run(Initial(n), acts).added && !Cached(Run(Initial(n), acts), id)
    ensures Total(Run(Initial(n), acts), id) > 0 <==> !Orphaned(Initial(n), acts, id)
  {
    InitialIsFine(n, id);
    RunServes(Initial(n), acts, id);
  }
}
