/** Threads adding keys at the grain of the list lock: the test of the count comes before the lock, the
    removal of low priorities is a critical section of its own, and the key is appended in a third. */
module KeyStoreThreads {
  import opened KeyStore

  /** Where an adding thread stands. */
  datatype Adder = Idle | Counted(key: Key) | Thinned(key: Key)

  datatype State = State(adders: seq<Adder>, keys: seq<Key>)

  function Start(n: nat): State {
    State(seq(n, _ => Idle), [])
  }

  datatype Action =
    | Begin(t: nat, key: Key)
    | Thin(t: nat)
    | Append(t: nat, alloc: bool)
    | Drop(prefix: string)

  predicate Enabled(s: State, a: Action) {
    match a
    case Begin(t, k) => t < |s.adders| && s.adders[t].Idle?
    case Thin(t) => t < |s.adders| && s.adders[t].Counted?
    case Append(t, _) => t < |s.adders| && s.adders[t].Thinned?
    case Drop(_) => true
  }

  function Next(s: State, a: Action): State
    requires Enabled(s, a)
  {
    match a
    case Begin(t, k) =>
      if |s.keys| >= KEY_MAXCOUNT || |k.prefix| != KEYPREFIX_LEN then s
      else s.(adders := s.adders[t := Counted(k)])
    case Thin(t) =>
      var k := s.adders[t].key;
      State(s.adders[t := Thinned(k)], AtLeast(s.keys, k.priority))
    case Append(t, alloc) =>
      var k := s.adders[t].key;
      State(s.adders[t := Idle], if SomeAbove(s.keys, k.priority) || !alloc then s.keys else s.keys + [k])
    case Drop(prefix) =>
      var i := Find(s.keys, prefix);
      if i == |s.keys| then s else s.(keys := s.keys[..i] + s.keys[i + 1..])
  }

  ghost predicate IsRun(s: State, acts: seq<Action>)
    decreases |acts|
  {
    acts == [] || (Enabled(s, acts[0]) && IsRun(Next(s, acts[0]), acts[1..]))
  }

  function Run(s: State, acts: seq<Action>): State
    requires IsRun(s, acts)
    decreases |acts|
  {
    if acts == [] then s else Run(Next(s, acts[0]), acts[1..])
  }

  // ----- what all interleavings keep -----

  function Busy(adders: seq<Adder>): (n: nat)
    ensures n <= |adders|
  {
    if adders == [] then 0 else (if adders[0].Idle? then 0 else 1) + Busy(adders[1..])
  }

  lemma {:induction false} BusyUpdate(adders: seq<Adder>, t: nat, p: Adder)
    requires t < |adders|
    ensures Busy(adders[t := p]) == Busy(adders) - (if adders[t].Idle? then 0 else 1) + (if p.Idle? then 0 else 1)
  {
    if t == 0 {
      assert adders[0 := p][1..] == adders[1..];
    } else {
      assert adders[t := p][1..] == adders[1..][t - 1 := p];
      BusyUpdate(adders[1..], t - 1, p);
    }
  }

  predicate Ascending(keys: seq<Key>) {
    forall i, j :: 0 <= i < j < |keys| ==> keys[i].priority <= keys[j].priority
  }

  /** Priorities ascend along the list, and the keys with the adds under way exceed the maximum by less
      than the number of threads. */
  predicate Bounded(s: State) {
    && Ascending(s.keys)
    && (s.adders != [] ==> |s.keys| + Busy(s.adders) <= KEY_MAXCOUNT + |s.adders| - 1)
  }

  lemma {:induction false} AtLeastAscends(keys: seq<Key>, p: Priority)
    requires Ascending(keys)
    ensures Ascending(AtLeast(keys, p))
  {
    if keys != [] {
      var rest := AtLeast(keys[1..], p);
      AtLeastAscends(keys[1..], p);
      AtLeastKeeps(keys[1..], p);
      if keys[0].priority >= p {
        forall j | 0 <= j < |rest| ensures keys[0].priority <= rest[j].priority {
          assert rest[j] in keys[1..];
        }
      }
    }
  }

  lemma ThinKeepsBounds(s: State, t: nat)
    requires Bounded(s) && Enabled(s, Thin(t))
    ensures Bounded(Next(s, Thin(t)))
  {
    hide AtLeast, Ascending, Busy;
    BusyUpdate(s.adders, t, Thinned(s.adders[t].key));
    AtLeastAscends(s.keys, s.adders[t].key.priority);
    AtLeastKeeps(s.keys, s.adders[t].key.priority);
  }

  lemma AppendKeepsBounds(s: State, t: nat, alloc: bool)
    requires Bounded(s) && Enabled(s, Append(t, alloc))
    ensures Bounded(Next(s, Append(t, alloc)))
  {
    hide Busy;
    BusyUpdate(s.adders, t, Idle);
  }

  lemma StepKeepsBounds(s: State, a: Action)
    requires Bounded(s) && Enabled(s, a)
    ensures Bounded(Next(s, a)) && |Next(s, a).adders| == |s.adders|
  {
    hide AtLeast, Busy, SomeAbove, Find;
    match a {
      case Begin(t, k) => BusyUpdate(s.adders, t, Counted(k));
      case Thin(t) => ThinKeepsBounds(s, t);
      case Append(t, alloc) => AppendKeepsBounds(s, t, alloc);
      case Drop(prefix) =>
    }
  }

  /** However n threads add and others remove: the stored priorities ascend, and there are at most n - 1
      keys more than ten. */
  lemma {:induction false} ConcurrentAdds(s: State, acts: seq<Action>)
    requires Bounded(s) && IsRun(s, acts)
    ensures Bounded(Run(s, acts)) && |Run(s, acts).adders| == |s.adders|
    ensures s.adders != [] ==> |Run(s, acts).keys| <= 10 + |s.adders| - 1
    decreases |acts|
  {
    if acts != [] {
      StepKeepsBounds(s, acts[0]);
      ConcurrentAdds(Next(s, acts[0]), acts[1..]);
    }
  }

  lemma {:induction false} NobodyBusy(n: nat)
    ensures Busy(Start(n).adders) == 0
  {
    if n > 0 {
      NobodyBusy(n - 1);
      assert Start(n).adders[1..] == Start(n - 1).adders;
    }
  }

  // ----- one thread that adds -----

  /** With one adder the store holds one priority, and what its thinning has left is at or above the key it
      is about to append. */
  predicate Solo(s: State) {
    && |s.adders| <= 1 && OnePriority(s.keys)
    && (s.adders == [] ==> s.keys == [])
    && (s.adders != [] && s.adders[0].Thinned? ==>
          forall i :: 0 <= i < |s.keys| ==> s.keys[i].priority >= s.adders[0].key.priority)
  }

  lemma AppendKeepsSolo(keys: seq<Key>, k: Key)
    requires OnePriority(keys) && forall i :: 0 <= i < |keys| ==> keys[i].priority >= k.priority
    ensures !SomeAbove(keys, k.priority) ==> OnePriority(keys + [k])
  {
  }

  lemma StepKeepsSolo(s: State, a: Action)
    requires Solo(s) && Enabled(s, a)
    ensures Solo(Next(s, a))
  {
    hide AtLeast, Find;
    match a {
      case Thin(t) => AtLeastAllOrNone(s.keys, s.adders[0].key.priority);
      case Append(t, alloc) => AppendKeepsSolo(s.keys, s.adders[0].key);
      case _ =>
    }
  }

  lemma {:induction false} RunKeepsSolo(s: State, acts: seq<Action>)
    requires Solo(s) && IsRun(s, acts)
    ensures Solo(Run(s, acts))
    decreases |acts|
  {
    hide Solo;
    if acts != [] {
      StepKeepsSolo(s, acts[0]);
      RunKeepsSolo(Next(s, acts[0]), acts[1..]);
    }
  }

  // ----- more than one -----

  /** A run together with where it leads. */
  ghost predicate Leads(n: nat, acts: seq<Action>, s: State) {
    IsRun(Start(n), acts) && Run(Start(n), acts) == s
  }

  lemma {:induction false} RunSnoc(s: State, acts: seq<Action>, a: Action)
    requires IsRun(s, acts) && Enabled(Run(s, acts), a)
    ensures IsRun(s, acts + [a]) && Run(s, acts + [a]) == Next(Run(s, acts), a)
    decreases |acts|
  {
    if acts == [] {
      assert [] + [a] == [a] && [a][1..] == [];
    } else {
      assert (acts + [a])[1..] == acts[1..] + [a];
      RunSnoc(Next(s, acts[0]), acts[1..], a);
    }
  }

  lemma LeadOn(n: nat, acts: seq<Action>, s: State, a: Action, d: State)
    requires Leads(n, acts, s) && Enabled(s, a) && Next(s, a) == d
    ensures Leads(n, acts + [a], d)
  {
    RunSnoc(Start(n), acts, a);
  }

  const LOW := Key("abcdefgh", "low", 0)
  const HIGH := Key("ijklmnop", "high", 2)

  /** Thread `t` begins to add the key and thins the keys before it. */
  lemma BeginAndThin(n: nat, acts: seq<Action>, s: State, t: nat, k: Key) returns (more: seq<Action>)
    requires Leads(n, acts, s) && t < |s.adders| && s.adders[t].Idle?
    requires |s.keys| < KEY_MAXCOUNT && |k.prefix| == KEYPREFIX_LEN
    ensures Leads(n, more, State(s.adders[t := Thinned(k)], AtLeast(s.keys, k.priority)))
  {
    hide Leads;
    LeadOn(n, acts, s, Begin(t, k), s.(adders := s.adders[t := Counted(k)]));
    assert s.adders[t := Counted(k)][t := Thinned(k)] == s.adders[t := Thinned(k)];
    LeadOn(n, acts + [Begin(t, k)], s.(adders := s.adders[t := Counted(k)]), Thin(t),
           State(s.adders[t := Thinned(k)], AtLeast(s.keys, k.priority)));
    more := acts + [Begin(t, k)] + [Thin(t)];
  }

  /** Two threads can leave two priorities: the lower key is appended after the higher one has done its
      thinning. */
  lemma TwoPrioritiesMeet(n: nat) returns (acts: seq<Action>)
    requires n >= 2
    ensures IsRun(Start(n), acts) && !OnePriority(Run(Start(n), acts).keys)
  {
    var ts := Start(n).adders;
    acts := BeginAndThin(n, [], Start(n), 0, HIGH);
    var s1 := State(ts[0 := Thinned(HIGH)], []);
    acts := BeginAndThin(n, acts, s1, 1, LOW);
    var s2 := State(ts[0 := Thinned(HIGH)][1 := Thinned(LOW)], []);
    LeadOn(n, acts, s2, Append(1, true), Next(s2, Append(1, true)));
    var s3 := Next(s2, Append(1, true));
    acts := acts + [Append(1, true)];
    assert s3.keys == [LOW];
    LeadOn(n, acts, s3, Append(0, true), Next(s3, Append(0, true)));
    acts := acts + [Append(0, true)];
    assert Next(s3, Append(0, true)).keys == [LOW, HIGH];
    assert [LOW, HIGH][0].priority != [LOW, HIGH][1].priority;
  }

  /** One priority is kept in every run exactly if there are no two threads that add. */
  lemma OnePriorityExactly(n: nat)
    ensures (forall acts :: IsRun(Start(n), acts) ==> OnePriority(Run(Start(n), acts).keys)) <==> n <= 1
  {
    hide OnePriority;
    if n <= 1 {
      forall acts | IsRun(Start(n), acts) ensures OnePriority(Run(Start(n), acts).keys) {
        StartIsSolo(n);
        RunKeepsSolo(Start(n), acts);
      }
    } else {
      var acts := TwoPrioritiesMeet(n);
    }
  }

  lemma StartIsSolo(n: nat)
    requires n <= 1
    ensures Solo(Start(n))
  {
  }

  // ----- without interruption -----

  /** The steps of an add, taken without interruption, are the add as a whole, and a removal is the removal:
      the store's own operations, as one thread meets them. */
  lemma AddRunsAlone(s: State, t: nat, k: Key, alloc: bool)
    requires t < |s.adders| && s.adders[t].Idle? && |s.keys| < 0x100
    ensures var acts := if |s.keys| >= 10 || |k.prefix| != 8 then [Begin(t, k)] else [Begin(t, k)] + [Thin(t)] + [Append(t, alloc)];
            && IsRun(s, acts)
            && Run(s, acts) == State(s.adders, AddStep(Store(s.keys, |s.keys|), k, alloc).0.keys)
    ensures Next(s, Drop(k.prefix)) == State(s.adders, RemoveStep(Store(s.keys, |s.keys|), k.prefix).keys)
  {
    hide AtLeast, SomeAbove, Find;
    RunSnoc(s, [], Begin(t, k));
    assert [] + [Begin(t, k)] == [Begin(t, k)];
    if |s.keys| < 10 && |k.prefix| == 8 {
      RunSnoc(s, [Begin(t, k)], Thin(t));
      RunSnoc(s, [Begin(t, k)] + [Thin(t)], Append(t, alloc));
      assert s.adders[t := Counted(k)][t := Thinned(k)][t := Idle] == s.adders;
    }
  }

  // ----- the bound is reached -----

  /** The first `k` of n threads have thinned for the low key. */
  function Thinners(n: nat, k: nat): seq<Adder> {
    seq(n, i => if i < k then Thinned(LOW) else Idle)
  }

  function Lows(m: nat): seq<Key> {
    seq(m, _ => LOW)
  }

  lemma LowsStay(m: nat)
    ensures AtLeast(Lows(m), 0) == Lows(m) && !SomeAbove(Lows(m), 0)
  {
    AtLeastAllOrNone(Lows(m), 0);
  }

  /** Thread `t` appends its low key to others. */
  lemma AppendLow(n: nat, acts: seq<Action>, adders: seq<Adder>, m: nat, t: nat)
    requires Leads(n, acts, State(adders, Lows(m))) && t < |adders| && adders[t] == Thinned(LOW)
    ensures Leads(n, acts + [Append(t, true)], State(adders[t := Idle], Lows(m + 1)))
  {
    LowsStay(m);
    assert Lows(m) + [LOW] == Lows(m + 1);
    LeadOn(n, acts, State(adders, Lows(m)), Append(t, true), State(adders[t := Idle], Lows(m + 1)));
  }

  /** One thread alone fills the store up to its maximum. */
  lemma {:induction false} FillUp(n: nat, m: nat) returns (acts: seq<Action>)
    requires n > 0 && m <= KEY_MAXCOUNT
    ensures Leads(n, acts, State(Thinners(n, 0), Lows(m)))
  {
    if m == 0 {
      acts := [];
      assert Start(n) == State(Thinners(n, 0), Lows(0));
    } else {
      acts := FillUp(n, m - 1);
      var ts := Thinners(n, 0);
      LowsStay(m - 1);
      acts := BeginAndThin(n, acts, State(ts, Lows(m - 1)), 0, LOW);
      AppendLow(n, acts, ts[0 := Thinned(LOW)], m - 1, 0);
      assert ts[0 := Thinned(LOW)][0 := Idle] == ts;
      acts := acts + [Append(0, true)];
    }
  }

  /** All threads pass the test of the count before any of them appends. */
  lemma {:induction false} ThinAll(n: nat, k: nat) returns (acts: seq<Action>)
    requires k <= n && n > 0
    ensures Leads(n, acts, State(Thinners(n, k), Lows(KEY_MAXCOUNT - 1)))
  {
    if k == 0 {
      acts := FillUp(n, KEY_MAXCOUNT - 1);
    } else {
      acts := ThinAll(n, k - 1);
      LowsStay(KEY_MAXCOUNT - 1);
      acts := BeginAndThin(n, acts, State(Thinners(n, k - 1), Lows(KEY_MAXCOUNT - 1)), k - 1, LOW);
      assert Thinners(n, k - 1)[k - 1 := Thinned(LOW)] == Thinners(n, k);
    }
  }

  /** Then the threads from the last down to `k` append. */
  lemma {:induction false} AppendAll(n: nat, k: nat) returns (acts: seq<Action>)
    requires k <= n && n > 0
    ensures Leads(n, acts, State(Thinners(n, k), Lows(KEY_MAXCOUNT - 1 + n - k)))
    decreases n - k
  {
    if k == n {
      acts := ThinAll(n, n);
    } else {
      acts := AppendAll(n, k + 1);
      AppendLow(n, acts, Thinners(n, k + 1), KEY_MAXCOUNT - 1 + n - (k + 1), k);
      assert Thinners(n, k + 1)[k := Idle] == Thinners(n, k);
      acts := acts + [Append(k, true)];
    }
  }

  /** The bound of ConcurrentAdds is reached: n threads can store n - 1 keys more than ten. */
  lemma StoreOvershoots(n: nat) returns (acts: seq<Action>)
    requires n > 0
    ensures IsRun(Start(n), acts) && |Run(Start(n), acts).keys| == KEY_MAXCOUNT + n - 1
  {
    acts := AppendAll(n, 0);
  }

  /** How many keys the store can hold in the runs of n adding threads: exactly up to n - 1 more than ten. */
  lemma MaximumExactly(n: nat, m: nat)
    ensures (forall acts :: IsRun(Start(n), acts) ==> |Run(Start(n), acts).keys| <= m)
            <==> n == 0 || m >= 10 + n - 1
  {
    if n == 0 {
      forall acts | IsRun(Start(n), acts) ensures |Run(Start(n), acts).keys| == 0 {
        StartIsSolo(n);
        NobodyBusy(n);
        RunKeepsSolo(Start(n), acts);
        ConcurrentAdds(Start(n), acts);
      }
    } else {
      forall acts | IsRun(Start(n), acts) ensures |Run(Start(n), acts).keys| <= KEY_MAXCOUNT + n - 1 {
        NobodyBusy(n);
        ConcurrentAdds(Start(n), acts);
      }
      var acts := StoreOvershoots(n);
    }
  }
}
