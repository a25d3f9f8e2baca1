/** The store of server keys that local clients authenticate with: adding and removing by priority, and
    the lookup that decides whether an access key is legal. */
module KeyStore {
  import opened Bytes

  const KEY_MAXCOUNT := 10
  const KEYPREFIX_LEN := 8
  const KEYSEQ_LEN := 3

  /** LOCALDEFAULT, LOCALSETUP, FROMCLOUDSVR. */
  type Priority = x: int | 0 <= x < 3

  datatype Key = Key(prefix: string, secret: string, priority: Priority)
  datatype Status = Success | InvalidLength | Unsupported | MallocFailed
  datatype Store = Store(keys: seq<Key>, count: byte)
  datatype Event = Add(key: Key, alloc: bool) | Remove(prefix: string)

  // ----- one operation on the store, as a value -----

  function AtLeast(keys: seq<Key>, p: Priority): seq<Key> {
    if keys == [] then []
    else (if keys[0].priority < p then [] else [keys[0]]) + AtLeast(keys[1..], p)
  }

  predicate SomeAbove(keys: seq<Key>, p: Priority) {
    exists i :: 0 <= i < |keys| && keys[i].priority > p
  }

  function RemoveLow(s: Store, p: Priority): Store {
    var keys := AtLeast(s.keys, p);
    Store(keys, (s.count - (|s.keys| - |keys|)) % 0x100)
  }

  /** Low priorities are dropped before the new key is looked at again, so a failed allocation leaves the
      store already thinned. */
  function AddStep(s: Store, k: Key, alloc: bool): (Store, Status) {
    if s.count >= KEY_MAXCOUNT || |k.prefix| != KEYPREFIX_LEN then (s, InvalidLength)
    else
      var low := RemoveLow(s, k.priority);
      if SomeAbove(low.keys, k.priority) then (low, Unsupported)
      else if !alloc then (low, MallocFailed)
      else (Store(low.keys + [k], (low.count + 1) % 0x100), Success)
  }

  function Find(keys: seq<Key>, prefix: string): (i: nat)
    ensures i <= |keys| && (i < |keys| ==> keys[i].prefix == prefix)
    ensures forall j :: 0 <= j < i ==> keys[j].prefix != prefix
  {
    if keys == [] || keys[0].prefix == prefix then 0 else 1 + Find(keys[1..], prefix)
  }

  function RemoveStep(s: Store, prefix: string): Store {
    var i := Find(s.keys, prefix);
    if i == |s.keys| then s
    else Store(s.keys[..i] + s.keys[i + 1..], (s.count - 1) % 0x100)
  }

  function Step(s: Store, e: Event): Store {
    match e
    case Add(k, alloc) => AddStep(s, k, alloc).0
    case Remove(prefix) => RemoveStep(s, prefix)
  }

  function Run(s: Store, es: seq<Event>): Store
    decreases |es|
  {
    if es == [] then s else Run(Step(s, es[0]), es[1..])
  }

  // ----- what every run keeps -----

  predicate OnePriority(keys: seq<Key>) {
    forall i, j :: 0 <= i < |keys| && 0 <= j < |keys| ==> keys[i].priority == keys[j].priority
  }

  predicate Good(s: Store) {
    && OnePriority(s.keys)
    && s.count == |s.keys| <= KEY_MAXCOUNT
    && forall i :: 0 <= i < |s.keys| ==> |s.keys[i].prefix| == KEYPREFIX_LEN
  }

  lemma {:induction false} AtLeastKeeps(keys: seq<Key>, p: Priority)
    ensures |AtLeast(keys, p)| <= |keys|
    ensures forall k :: k in AtLeast(keys, p) <==> k in keys && k.priority >= p
  {
    if keys != [] {
      AtLeastKeeps(keys[1..], p);
      assert keys == [keys[0]] + keys[1..];
    }
  }

  /** On a store of one priority the thinning takes everything or nothing. */
  lemma {:induction false} AtLeastAllOrNone(keys: seq<Key>, p: Priority)
    requires OnePriority(keys)
    ensures AtLeast(keys, p) == if keys != [] && keys[0].priority < p then [] else keys
  {
    if keys != [] {
      AtLeastAllOrNone(keys[1..], p);
      assert keys == [keys[0]] + keys[1..];
      assert |keys| > 1 ==> keys[1].priority == keys[0].priority;
    }
  }

  predicate Outranks(k: Key, s: Store) {
    s.keys != [] && s.keys[0].priority < k.priority
  }

  /** On a good store the walks of an add come down to one comparison with the first key. */
  lemma AddOnGood(s: Store, k: Key, alloc: bool)
    requires Good(s)
    ensures AddStep(s, k, alloc)
            == if |s.keys| == KEY_MAXCOUNT || |k.prefix| != KEYPREFIX_LEN then (s, InvalidLength)
               else if s.keys != [] && s.keys[0].priority > k.priority then (s, Unsupported)
               else
                 var kept := if Outranks(k, s) then [] else s.keys;
                 if alloc then (Store(kept + [k], |kept| + 1), Success) else (Store(kept, |kept|), MallocFailed)
  {
    AtLeastAllOrNone(s.keys, k.priority);
    var low := AtLeast(s.keys, k.priority);
    if low != [] {
      assert SomeAbove(low, k.priority) <==> low[0].priority > k.priority;
    }
  }

  /** When an add is accepted, and what the store is then: the key joins its equals, or replaces the
      whole store when it outranks it. */
  lemma AddSucceedsExactly(s: Store, k: Key, alloc: bool)
    requires Good(s)
    ensures var (s', st) := AddStep(s, k, alloc);
            && (st == Success <==> |k.prefix| == 8 && |s.keys| < 10 && alloc
                                   && (s.keys == [] || s.keys[0].priority <= k.priority))
            && (st == InvalidLength <==> |k.prefix| != 8 || |s.keys| == 10)
            && (st == Unsupported <==> |k.prefix| == 8 && |s.keys| < 10 && s.keys != [] && s.keys[0].priority > k.priority)
            && (st == Success ==>
                  s'.keys == (if s.keys != [] && s.keys[0].priority < k.priority then [k] else s.keys + [k]))
  {
    hide AddStep, Good;
    AddOnGood(s, k, alloc);
    assert s.count == |s.keys| <= KEY_MAXCOUNT by { GoodCount(s); }
    assert [] + [k] == [k];
  }

  lemma GoodCount(s: Store)
    requires Good(s)
    ensures s.count == |s.keys| <= KEY_MAXCOUNT
  {
  }

  /** A refused add leaves the store as it was exactly if it is not one that memory fails for after it has
      outranked the stored keys: then the store is empty. */
  lemma RefusedAddUnchangedExactly(s: Store, k: Key, alloc: bool)
    requires Good(s) && AddStep(s, k, alloc).1 != Success
    ensures var s' := AddStep(s, k, alloc).0;
            && (s' == s <==> !(|k.prefix| == 8 && |s.keys| < 10 && !alloc && s.keys != [] && s.keys[0].priority < k.priority))
            && (s' == s || s' == Store([], 0))
  {
    hide AddStep, Good;
    AddOnGood(s, k, alloc);
    GoodCount(s);
  }

  /** Such a store, and such an add. */
  lemma RefusedAddEmpties()
    ensures var s := Store([Key("abcdefgh", "old", 0)], 1);
            Good(s) && AddStep(s, Key("ijklmnop", "new", 1), false) == (Store([], 0), MallocFailed)
  {
    var s := Store([Key("abcdefgh", "old", 0)], 1);
    assert |"abcdefgh"| == 8;
    assert Good(s);
    AddOnGood(s, Key("ijklmnop", "new", 1), false);
  }

  lemma AddKeeps(s: Store, k: Key, alloc: bool)
    requires Good(s)
    ensures Good(AddStep(s, k, alloc).0)
  {
    hide AddStep;
    AddOnGood(s, k, alloc);
  }

  lemma StepKeeps(s: Store, e: Event)
    requires Good(s)
    ensures Good(Step(s, e))
  {
    match e
    case Add(k, alloc) =>
      AddKeeps(s, k, alloc);
    case Remove(prefix) =>
  }

  /** After any sequence of adds and removes all stored keys have one priority, the counter is the length
      of the list, and there are at most ten. */
  lemma {:induction false} RunKeeps(s: Store, es: seq<Event>)
    requires Good(s)
    ensures var s' := Run(s, es); Good(s') && OnePriority(s'.keys) && s'.count == |s'.keys| <= 10
    decreases |es|
  {
    if es != [] {
      StepKeeps(s, es[0]);
      RunKeeps(Step(s, es[0]), es[1..]);
    }
  }

  predicate AddsOnly(es: seq<Event>) {
    forall i :: 0 <= i < |es| ==> es[i].Add? && es[i].alloc
  }

  /** As long as memory lasts, adds never lower the priority of the store and never empty it. */
  lemma {:induction false} AddsOnlyRaise(s: Store, es: seq<Event>)
    requires Good(s) && s.keys != [] && AddsOnly(es)
    ensures var s' := Run(s, es); s'.keys != [] && s'.keys[0].priority >= s.keys[0].priority
    decreases |es|
  {
    if es != [] {
      var s1 := Step(s, es[0]);
      AddSucceedsExactly(s, es[0].key, true);
      if AddStep(s, es[0].key, true).1 != Success {
        RefusedAddUnchangedExactly(s, es[0].key, true);
      }
      AddsOnlyRaise(s1, es[1..]);
    }
  }

  // ----- whether an access key is legal -----

  datatype Verdict = Legal(secret: string) | Revoked | UnmatchedPrefix | ListEmpty

  /** The sequence number stands in the revocation list, which is read in blocks of three. */
  predicate IsRevoked(revocation: string, keyseq: string)
    requires |keyseq| == KEYSEQ_LEN
  {
    |revocation| >= KEYSEQ_LEN
    && (revocation[..KEYSEQ_LEN] == keyseq || IsRevoked(revocation[KEYSEQ_LEN..], keyseq))
  }

  /** Revoked are exactly the sequence numbers that stand in one of the whole blocks of three. */
  lemma {:induction false} RevokedExactly(revocation: string, keyseq: string)
    requires |keyseq| == 3
    ensures IsRevoked(revocation, keyseq)
            <==> exists i: nat :: 3 * i + 3 <= |revocation| && revocation[3 * i..3 * i + 3] == keyseq
  {
    if |revocation| >= 3 {
      var rest := revocation[3..];
      RevokedExactly(rest, keyseq);
      if i: nat :| 3 * i + 3 <= |rest| && rest[3 * i..3 * i + 3] == keyseq {
        assert revocation[3 * (i + 1)..3 * (i + 1) + 3] == rest[3 * i..3 * i + 3];
      }
      if i: nat :| 3 * i + 3 <= |revocation| && revocation[3 * i..3 * i + 3] == keyseq {
        if i > 0 { assert rest[3 * (i - 1)..3 * (i - 1) + 3] == revocation[3 * i..3 * i + 3]; }
      }
      assert revocation[..3] == revocation[3 * 0..3 * 0 + 3];
    }
  }

  /** Group keys are looked at only when the list of plain keys is not empty. */
  function Lookup(keys: seq<Key>, groups: seq<Key>, prefix: string): Verdict {
    var i, g := Find(keys, prefix), Find(groups, prefix);
    if keys == [] then ListEmpty
    else if i < |keys| then Legal(keys[i].secret)
    else if g < |groups| then Legal(groups[g].secret)
    else UnmatchedPrefix
  }

  function VerdictOn(revocation: Option<string>, keys: seq<Key>, groups: seq<Key>, prefix: string, keyseq: string): Verdict
    requires |keyseq| == KEYSEQ_LEN
  {
    if revocation.Some? && IsRevoked(revocation.value, keyseq) then Revoked else Lookup(keys, groups, prefix)
  }

  /** No key has the prefix. */
  ghost predicate Absent(keys: seq<Key>, prefix: string) {
    forall i :: 0 <= i < |keys| ==> keys[i].prefix != prefix
  }

  /** The first key of the prefix has this secret. */
  ghost predicate FirstHas(keys: seq<Key>, prefix: string, secret: string) {
    exists i :: 0 <= i < |keys| && keys[i].prefix == prefix && keys[i].secret == secret && Absent(keys[..i], prefix)
  }

  ghost predicate InBlocks(revocation: Option<string>, keyseq: string) {
    revocation.Some? && exists i: nat :: 3 * i + 3 <= |revocation.value| && revocation.value[3 * i..3 * i + 3] == keyseq
  }

  /** The verdict, case by case: revocation comes before everything, plain keys before group keys, and group
      keys count only beside plain ones. */
  lemma VerdictExactly(revocation: Option<string>, keys: seq<Key>, groups: seq<Key>, prefix: string, keyseq: string, secret: string)
    requires |keyseq| == 3
    ensures var v := VerdictOn(revocation, keys, groups, prefix, keyseq);
            && (v == Revoked <==> InBlocks(revocation, keyseq))
            && (v == ListEmpty <==> !InBlocks(revocation, keyseq) && keys == [])
            && (v == UnmatchedPrefix <==> !InBlocks(revocation, keyseq) && keys != [] && Absent(keys, prefix) && Absent(groups, prefix))
            && (v == Legal(secret) <==> && !InBlocks(revocation, keyseq) && keys != []
                                        && (FirstHas(keys, prefix, secret)
                                            || (Absent(keys, prefix) && FirstHas(groups, prefix, secret))))
  {
    hide FirstHas, Absent, InBlocks, IsRevoked;
    BlocksAre(revocation, keyseq);
    FindIsFirst(keys, prefix, secret);
    FindIsFirst(groups, prefix, secret);
  }

  lemma BlocksAre(revocation: Option<string>, keyseq: string)
    requires |keyseq| == 3
    ensures revocation.Some? && IsRevoked(revocation.value, keyseq) <==> InBlocks(revocation, keyseq)
  {
    if revocation.Some? { RevokedExactly(revocation.value, keyseq); }
  }

  lemma FindIsFirst(keys: seq<Key>, prefix: string, secret: string)
    ensures var i := Find(keys, prefix);
            && (i == |keys| <==> Absent(keys, prefix))
            && (i < |keys| && keys[i].secret == secret <==> FirstHas(keys, prefix, secret))
  {
    var i := Find(keys, prefix);
    if i < |keys| { assert Absent(keys[..i], prefix); }
    if j :| 0 <= j < |keys| && keys[j].prefix == prefix && keys[j].secret == secret && Absent(keys[..j], prefix) {
      assert i <= j;
      if i < j { assert keys[..j][i].prefix == prefix; }
    }
  }

  lemma {:induction false} FindAppend(keys: seq<Key>, k: Key, prefix: string)
    ensures var i := Find(keys, prefix);
            Find(keys + [k], prefix) == if i < |keys| then i else if k.prefix == prefix then |keys| else |keys| + 1
  {
    if keys != [] && keys[0].prefix != prefix {
      FindAppend(keys[1..], k, prefix);
      assert (keys + [k])[1..] == keys[1..] + [k];
    }
  }

  /** A key just added is the one its prefix finds, unless an equal prefix of the same priority was stored
      before it: then the old secret stays in force.  Adding does not replace. */
  lemma AddedKeyIsFound(s: Store, groups: seq<Key>, k: Key)
    requires Good(s) && AddStep(s, k, true).1 == Success
    ensures var i := Find(s.keys, k.prefix);
            Lookup(AddStep(s, k, true).0.keys, groups, k.prefix)
            == Legal(if i < |s.keys| && s.keys[i].priority == k.priority then s.keys[i].secret else k.secret)
  {
    AddSucceedsExactly(s, k, true);
    FindAppend(s.keys, k, k.prefix);
    assert s.keys != [] && s.keys[0].priority < k.priority ==> Find([k], k.prefix) == 0;
  }

  /** A removed prefix finds nothing more among the keys unless it was stored twice; then the next one
      takes over. */
  lemma RemovedKeyIsGone(s: Store, prefix: string)
    requires Find(s.keys, prefix) < |s.keys|
    ensures var i, keys := Find(s.keys, prefix), RemoveStep(s, prefix).keys;
            && keys == s.keys[..i] + s.keys[i + 1..]
            && Find(keys, prefix) == i + Find(s.keys[i + 1..], prefix)
            && (Find(keys, prefix) < |keys| <==> exists j :: i < j < |s.keys| && s.keys[j].prefix == prefix)
  {
    var i := Find(s.keys, prefix);
    FindAfter(s.keys[..i], s.keys[i + 1..], prefix);
    var rest := s.keys[i + 1..];
    var f := Find(rest, prefix);
    if f < |rest| {
      assert s.keys[i + 1 + f].prefix == prefix;
    } else {
      forall j | i < j < |s.keys| ensures s.keys[j].prefix != prefix {
        assert rest[j - i - 1] == s.keys[j];
      }
    }
  }

  lemma {:induction false} FindAfter(front: seq<Key>, back: seq<Key>, prefix: string)
    requires forall j :: 0 <= j < |front| ==> front[j].prefix != prefix
    ensures Find(front + back, prefix) == |front| + Find(back, prefix)
  {
    if front == [] {
      assert front + back == back;
    } else {
      FindAfter(front[1..], back, prefix);
      assert (front + back)[1..] == front[1..] + back;
    }
  }

  // ----- the store as the program keeps it -----

  /** The walk that drops low priorities, with `seen` keys looked at and `kept` left. */
  ghost predicate Thinning(l0: seq<Key>, seen: nat, kept: seq<Key>, p: Priority, n0: byte, count: byte) {
    && seen <= |l0| && |kept| <= seen
    && kept + AtLeast(l0[seen..], p) == AtLeast(l0, p)
    && count == (n0 - (seen - |kept|)) % 0x100
  }

  lemma ThinningStarts(l0: seq<Key>, p: Priority, n0: byte)
    ensures Thinning(l0, 0, [], p, n0, n0) && Boundary(l0, [], l0, 0)
  {
    assert l0[0..] == l0 && [] + AtLeast(l0, p) == AtLeast(l0, p) && [] + l0 == l0;
  }

  lemma ThinningStep(l0: seq<Key>, seen: nat, kept: seq<Key>, p: Priority, n0: byte, count: byte)
    requires Thinning(l0, seen, kept, p, n0, count) && seen < |l0|
    ensures if l0[seen].priority < p then Thinning(l0, seen + 1, kept, p, n0, OneLess(count))
            else Thinning(l0, seen + 1, kept + [l0[seen]], p, n0, count)
  {
    var rest := l0[seen..];
    assert rest[0] == l0[seen] && rest[1..] == l0[seen + 1..];
    assert kept + ([l0[seen]] + AtLeast(rest[1..], p)) == kept + [l0[seen]] + AtLeast(rest[1..], p);
    assert kept + ([] + AtLeast(rest[1..], p)) == kept + AtLeast(rest[1..], p);
  }

  lemma ThinningEnds(l0: seq<Key>, kept: seq<Key>, p: Priority, n0: byte, count: byte)
    requires Thinning(l0, |l0|, kept, p, n0, count)
    ensures kept == AtLeast(l0, p) && count == (n0 - (|l0| - |kept|)) % 0x100
  {
    assert l0[|l0|..] == [] && kept + [] == kept;
  }

  class AuthList {
    var lst_svr: seq<Key>
    var svr_count: byte
    var lst_svr_group: seq<Key>
    var revocation: Option<string>

    ghost function Value(): Store
      reads this
    {
      Store(lst_svr, svr_count)
    }

    constructor Init()
      ensures Value() == Store([], 0) && Good(Value())
      ensures lst_svr_group == [] && revocation == None
    {
      lst_svr, svr_count, lst_svr_group, revocation := [], 0, [], None;
    }

    /** The walk that unlinks every key below `priority`. */
    method RemoveLowPriority(priority: Priority)
      modifies `lst_svr, `svr_count
      ensures Value() == RemoveLow(old(Value()), priority)
    {
      hide AtLeast, Boundary, Thinning, OneLess;
      ghost var l0, n0, seen := lst_svr, svr_count, 0;
      ghost var kept: seq<Key> := [];
      ThinningStarts(l0, priority, n0);
      var i := 0;
      while i < |lst_svr|
        invariant i == |kept| <= seen <= |l0|
        invariant Boundary(lst_svr, kept, l0, seen) && Thinning(l0, seen, kept, priority, n0, svr_count)
        decreases |l0| - seen
      {
        AtBoundary(lst_svr, kept, l0, seen);
        ThinningStep(l0, seen, kept, priority, n0, svr_count);
        ghost var list := lst_svr;
        if lst_svr[i].priority < priority {
          lst_svr := lst_svr[..i] + lst_svr[i + 1..];
          svr_count := OneLess(svr_count);
          assert list[..i] + [] == list[..i];
          BoundaryMoves(list, lst_svr, kept, l0, seen, None);
        } else {
          assert list == list[..i] + [list[i]] + list[i + 1..];
          BoundaryMoves(list, lst_svr, kept, l0, seen, Some(list[i]));
          kept := kept + [list[i]];
          i := i + 1;
        }
        seen := seen + 1;
      }
      AtBoundary(lst_svr, kept, l0, seen);
      ThinningEnds(l0, kept, priority, n0, svr_count);
    }

    method AddSvrKey(keyprefix: string, secret: string, priority: Priority, alloc: bool) returns (st: Status)
      modifies `lst_svr, `svr_count
      ensures (Value(), st) == AddStep(old(Value()), Key(keyprefix, secret, priority), alloc)
    {
      if svr_count >= KEY_MAXCOUNT || |keyprefix| != KEYPREFIX_LEN {
        return InvalidLength;
      }
      RemoveLowPriority(priority);
      var i := 0;
      while i < |lst_svr|
        invariant i <= |lst_svr|
        invariant forall j :: 0 <= j < i ==> lst_svr[j].priority <= priority
      {
        if lst_svr[i].priority > priority {
          return Unsupported;
        }
        i := i + 1;
      }
      if !alloc {
        return MallocFailed;
      }
      lst_svr := lst_svr + [Key(keyprefix, secret, priority)];
      svr_count := (svr_count + 1) % 0x100;
      return Success;
    }

    method RemoveSvrKey(keyprefix: string)
      modifies `lst_svr, `svr_count
      ensures Value() == RemoveStep(old(Value()), keyprefix)
    {
      var i := 0;
      while i < |lst_svr|
        invariant i <= Find(lst_svr, keyprefix)
      {
        if lst_svr[i].prefix == keyprefix {
          assert i == Find(lst_svr, keyprefix);
          lst_svr := lst_svr[..i] + lst_svr[i + 1..];
          svr_count := (svr_count - 1) % 0x100;
          return;
        }
        i := i + 1;
      }
    }

    method SetRevocation(seqlist: Option<string>)
      modifies `revocation
      ensures revocation == if seqlist.Some? && seqlist.value != [] then seqlist else None
    {
      revocation := None;
      if seqlist.Some? && |seqlist.value| > 0 {
        revocation := seqlist;
      }
    }

    method IsLegalKey(keyprefix: string, keyseq: string) returns (v: Verdict)
      requires |keyseq| == KEYSEQ_LEN
      ensures v == VerdictOn(revocation, lst_svr, lst_svr_group, keyprefix, keyseq)
    {
      if revocation.Some? {
        var r := revocation.value;
        var i := 0;
        assert r[0..] == r;
        while i < |r|
          invariant i <= |r| + KEYSEQ_LEN
          invariant IsRevoked(r, keyseq) <==> i <= |r| && IsRevoked(r[i..], keyseq)
        {
          if i + KEYSEQ_LEN <= |r| && r[i..i + KEYSEQ_LEN] == keyseq {
            assert r[i..][..KEYSEQ_LEN] == keyseq;
            return Revoked;
          }
          assert i + KEYSEQ_LEN <= |r| ==> r[i..][..KEYSEQ_LEN] == r[i..i + KEYSEQ_LEN] && r[i..][KEYSEQ_LEN..] == r[i + KEYSEQ_LEN..];
          i := i + KEYSEQ_LEN;
        }
      }
      if lst_svr == [] {
        return ListEmpty;
      }
      var k := 0;
      while k < |lst_svr|
        invariant k <= Find(lst_svr, keyprefix)
      {
        if lst_svr[k].prefix == keyprefix {
          assert k == Find(lst_svr, keyprefix);
          return Legal(lst_svr[k].secret);
        }
        k := k + 1;
      }
      k := 0;
      while k < |lst_svr_group|
        invariant k <= Find(lst_svr_group, keyprefix)
      {
        if lst_svr_group[k].prefix == keyprefix {
          assert k == Find(lst_svr_group, keyprefix);
          return Legal(lst_svr_group[k].secret);
        }
        k := k + 1;
      }
      return UnmatchedPrefix;
    }
  }
}
