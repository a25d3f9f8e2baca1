/** Subscribing to the topics of the device model: a loop that steps its index back to try an entry again,
    and gives it up after three failures. */
module SubscribeLoop {

  const RETRY_MAX := 3   // IOTX_DM_CLIENT_SUB_RETRY_MAX_COUNTS

  /** An entry of the topic table: whether its device type is wanted, and whether the filter drops it. */
  datatype Entry = Entry(matches: bool, filtered: bool)

  /** One call of the subscribe function, for the entry at `index`. */
  datatype Attempt = Attempt(index: nat, ok: bool)

  /** How often one entry is tried when `failed` tries failed before and the next call is number `n`. */
  function Tries(ok: nat -> bool, n: nat, failed: nat): (m: nat)
    requires failed <= RETRY_MAX
    ensures failed + m <= RETRY_MAX && (failed < RETRY_MAX ==> m >= 1)
    ensures forall c :: n <= c < n + m - 1 ==> !ok(c)
    ensures m > 0 && failed + m < RETRY_MAX ==> ok(n + m - 1)
    decreases RETRY_MAX - failed
  {
    if failed == RETRY_MAX then 0
    else if ok(n) then 1
    else 1 + Tries(ok, n + 1, failed + 1)
  }

  /** The calls `n`, ..., `n + m - 1`, all for one entry. */
  function Block(ok: nat -> bool, index: nat, n: nat, m: nat): (b: seq<Attempt>)
    ensures |b| == m && forall i :: 0 <= i < m ==> b[i] == Attempt(index, ok(n + i))
    decreases m
  {
    if m == 0 then [] else [Attempt(index, ok(n))] + Block(ok, index, n + 1, m - 1)
  }

  predicate Wanted(e: Entry) { e.matches && !e.filtered }

  /** All calls for the entries from `index` on: a block for every wanted entry, in order. */
  function Calls(entries: seq<Entry>, ok: nat -> bool, index: nat, n: nat): seq<Attempt>
    requires index <= |entries|
    decreases |entries| - index
  {
    if index == |entries| then []
    else if Wanted(entries[index]) then
      var m := Tries(ok, n, 0);
      Block(ok, index, n, m) + Calls(entries, ok, index + 1, n + m)
    else Calls(entries, ok, index + 1, n)
  }

  /** The table as the program runs through it: the first entry is taken whatever its device type, except
      in the raw-data build. */
  function Table(entries: seq<Entry>, solo: bool): seq<Entry> {
    if solo || entries == [] then entries else [entries[0].(matches := true)] + entries[1..]
  }

  // ----- what happens to each entry -----

  function ResultsOf(trace: seq<Attempt>, index: nat): seq<bool> {
    if trace == [] then []
    else (if trace[0].index == index then [trace[0].ok] else []) + ResultsOf(trace[1..], index)
  }

  lemma {:induction false} ResultsOfAppend(a: seq<Attempt>, b: seq<Attempt>, index: nat)
    ensures ResultsOf(a + b, index) == ResultsOf(a, index) + ResultsOf(b, index)
  {
    if a == [] {
      assert a + b == b && [] + ResultsOf(b, index) == ResultsOf(b, index);
    } else {
      ResultsOfAppend(a[1..], b, index);
      assert (a + b)[0] == a[0] && (a + b)[1..] == a[1..] + b;
      var head := if a[0].index == index then [a[0].ok] else [];
      assert head + (ResultsOf(a[1..], index) + ResultsOf(b, index)) == head + ResultsOf(a[1..], index) + ResultsOf(b, index);
    }
  }

  lemma {:induction false} ResultsOfBlock(ok: nat -> bool, k: nat, n: nat, m: nat, index: nat)
    ensures var r := ResultsOf(Block(ok, k, n, m), index);
            if k == index then |r| == m && forall i :: 0 <= i < m ==> r[i] == ok(n + i) else r == []
    decreases m
  {
    if m > 0 {
      ResultsOfBlock(ok, k, n + 1, m - 1, index);
      assert Block(ok, k, n, m)[1..] == Block(ok, k, n + 1, m - 1);
      if k == index {
        var r, rest := ResultsOf(Block(ok, k, n, m), index), ResultsOf(Block(ok, k, n + 1, m - 1), index);
        assert r == [ok(n)] + rest;
        forall i | 0 < i < m ensures r[i] == ok(n + i) {
          assert r[i] == rest[i - 1] == ok(n + 1 + (i - 1));
        }
      }
    }
  }

  /** The results of one entry: those of the first block, if it is its own, and those of the later calls. */
  lemma ResultsUnfold(entries: seq<Entry>, ok: nat -> bool, from: nat, n: nat, index: nat)
    requires from < |entries|
    ensures var m := if Wanted(entries[from]) then Tries(ok, n, 0) else 0;
            var later := ResultsOf(Calls(entries, ok, from + 1, n + m), index);
            var all := ResultsOf(Calls(entries, ok, from, n), index);
            if index == from then
              && |all| == m + |later|
              && (forall i :: 0 <= i < m ==> all[i] == ok(n + i))
            else all == later
  {
    hide ResultsOf, Tries, Block;
    if Wanted(entries[from]) {
      var m := Tries(ok, n, 0);
      var rest := Calls(entries, ok, from + 1, n + m);
      ResultsOfBlock(ok, from, n, m, index);
      ResultsOfAppend(Block(ok, from, n, m), rest, index);
      assert [] + ResultsOf(rest, index) == ResultsOf(rest, index);
    }
  }

  lemma {:induction false} NoCallsBefore(entries: seq<Entry>, ok: nat -> bool, from: nat, n: nat, index: nat)
    requires index < from <= |entries|
    ensures ResultsOf(Calls(entries, ok, from, n), index) == []
    decreases |entries| - from
  {
    if from < |entries| {
      NoCallsBefore(entries, ok, from + 1, n + if Wanted(entries[from]) then Tries(ok, n, 0) else 0, index);
      ResultsUnfold(entries, ok, from, n, index);
    }
  }

  /** Every wanted entry is tried once to three times; all tries but the last fail; it is given up only
      after three failures in a row.  Entries that are not wanted are not tried. */
  lemma {:induction false} EveryEntryServed(entries: seq<Entry>, ok: nat -> bool, from: nat, n: nat, index: nat)
    requires from <= index < |entries|
    ensures var r := ResultsOf(Calls(entries, ok, from, n), index);
            if entries[index].matches && !entries[index].filtered then
              && 1 <= |r| <= 3
              && (forall i :: 0 <= i < |r| - 1 ==> !r[i])
              && (r[|r| - 1] || |r| == 3)
            else r == []
    decreases |entries| - from
  {
    hide Calls, ResultsOf;
    var m := if Wanted(entries[from]) then Tries(ok, n, 0) else 0;
    ResultsUnfold(entries, ok, from, n, index);
    if from < index {
      EveryEntryServed(entries, ok, from + 1, n + m, index);
    } else {
      NoCallsBefore(entries, ok, from + 1, n + m, index);
    }
  }

  /** What the program's loops amount to for each topic: it is tried if the filter lets it through and its
      device type fits, the first one whatever its type unless only one type is built in; then once to three
      times, until a call succeeds. */
  lemma EveryTopicServed(entries: seq<Entry>, solo: bool, ok: nat -> bool, index: nat)
    requires index < |entries|
    ensures var r, e := ResultsOf(Calls(Table(entries, solo), ok, 0, 0), index), entries[index];
            if !e.filtered && (e.matches || (index == 0 && !solo)) then
              && 1 <= |r| <= 3
              && (forall i :: 0 <= i < |r| - 1 ==> !r[i])
              && (r[|r| - 1] || |r| == 3)
            else r == []
  {
    hide Calls, ResultsOf;
    EveryEntryServed(Table(entries, solo), ok, 0, 0, index);
  }

  /** The calls are for the entries from `from` on, in the order of the table, and the i-th of them has the
      result of call number n + i. */
  ghost predicate InOrder(calls: seq<Attempt>, ok: nat -> bool, from: nat, n: nat, size: nat) {
    && (forall i :: 0 <= i < |calls| ==> from <= calls[i].index < size && calls[i].ok == ok(n + i))
    && (forall i, j :: 0 <= i < j < |calls| ==> calls[i].index <= calls[j].index)
  }

  lemma {:induction false} CallsInOrder(entries: seq<Entry>, ok: nat -> bool, from: nat, n: nat)
    requires from <= |entries|
    ensures InOrder(Calls(entries, ok, from, n), ok, from, n, |entries|)
    decreases |entries| - from
  {
    hide InOrder;
    if from == |entries| {
      NoneInOrder(ok, from, n);
    } else {
      var m := if Wanted(entries[from]) then Tries(ok, n, 0) else 0;
      var rest := Calls(entries, ok, from + 1, n + m);
      CallsInOrder(entries, ok, from + 1, n + m);
      InOrderBehind(ok, from, n, m, rest, |entries|);
      assert Wanted(entries[from]) || Block(ok, from, n, m) + rest == rest;
    }
  }

  lemma NoneInOrder(ok: nat -> bool, from: nat, n: nat)
    ensures InOrder([], ok, from, n, from)
  {
  }

  lemma InOrderBehind(ok: nat -> bool, from: nat, n: nat, m: nat, rest: seq<Attempt>, size: nat)
    requires from < size && InOrder(rest, ok, from + 1, n + m, size)
    ensures InOrder(Block(ok, from, n, m) + rest, ok, from, n, size)
  {
    var calls := Block(ok, from, n, m) + rest;
    forall i | m <= i < |calls| ensures calls[i].ok == ok(n + i) && from < calls[i].index < size {
      assert calls[i] == rest[i - m] && n + m + (i - m) == n + i;
    }
  }

  // ----- the two loops -----

  /** The loop for the first entry: up to three rounds, each of which may end at the filter. */
  method SubscribeFirst(e: Entry, ok: nat -> bool) returns (trace: seq<Attempt>)
    ensures trace == if e.filtered then [] else Block(ok, 0, 0, Tries(ok, 0, 0))
  {
    trace := [];
    var fail_count := 0;
    while fail_count < RETRY_MAX
      invariant fail_count <= RETRY_MAX
      invariant if e.filtered then trace == []
                else |trace| == fail_count && Tries(ok, 0, 0) == fail_count + Tries(ok, fail_count, fail_count)
      invariant forall i :: 0 <= i < |trace| ==> trace[i] == Attempt(0, ok(i)) && !ok(i)
    {
      if !e.filtered {
        var n := |trace|;
        trace := trace + [Attempt(0, ok(n))];
        if ok(n) {
          break;
        }
      }
      fail_count := fail_count + 1;
    }
  }

  /** Where the loop stands: the calls made so far and those still due for the entry at `index`, which
      has failed `failed` times, and for the entries after it, are the calls wanted. */
  ghost predicate Ahead(table: seq<Entry>, ok: nat -> bool, goal: seq<Attempt>, trace: seq<Attempt>, index: nat, failed: nat) {
    && index <= |table| && failed <= RETRY_MAX
    && (failed > 0 ==> index < |table| && Wanted(table[index]))
    && goal == if failed == 0 then trace + Calls(table, ok, index, |trace|)
               else
                 var m := Tries(ok, |trace|, failed);
                 trace + Block(ok, index, |trace|, m) + Calls(table, ok, index + 1, |trace| + m)
  }

  lemma NothingLeft(ok: nat -> bool, trace: seq<Attempt>, index: nat)
    ensures Tries(ok, |trace|, RETRY_MAX) == 0 && trace + Block(ok, index, |trace|, 0) == trace
  {
  }

  lemma AheadMoves(table: seq<Entry>, ok: nat -> bool, goal: seq<Attempt>, trace: seq<Attempt>, index: nat, failed: nat)
    requires Ahead(table, ok, goal, trace, index, failed) && index < |table|
    ensures !Wanted(table[index]) || failed == RETRY_MAX ==> Ahead(table, ok, goal, trace, index + 1, 0)
    ensures Wanted(table[index]) && failed < RETRY_MAX ==>
              var t := trace + [Attempt(index, ok(|trace|))];
              if ok(|trace|) then Ahead(table, ok, goal, t, index + 1, 0) else Ahead(table, ok, goal, t, index, failed + 1)
  {
    hide Wanted, Block, Tries;
    var n := |trace|;
    if failed == RETRY_MAX {
      NothingLeft(ok, trace, index);
    } else if Wanted(table[index]) {
      var m := Tries(ok, n, failed);
      CallOne(ok, trace, index, failed, Calls(table, ok, index + 1, n + m));
    }
  }

  /** One call takes the first attempt off what is left of its block. */
  lemma CallOne(ok: nat -> bool, trace: seq<Attempt>, index: nat, failed: nat, rest: seq<Attempt>)
    requires failed < RETRY_MAX
    ensures var n := |trace|;
            var m := Tries(ok, n, failed);
            var t := trace + [Attempt(index, ok(n))];
            && trace + (Block(ok, index, n, m) + rest) == trace + Block(ok, index, n, m) + rest
            && trace + Block(ok, index, n, m) + rest
               == if ok(n) then t + rest else t + Block(ok, index, n + 1, m - 1) + rest
  {
    var n := |trace|;
    var m := Tries(ok, n, failed);
    assert Block(ok, index, n, m) == [Attempt(index, ok(n))] + Block(ok, index, n + 1, m - 1);
    assert trace + ([Attempt(index, ok(n))] + Block(ok, index, n + 1, m - 1))
           == trace + [Attempt(index, ok(n))] + Block(ok, index, n + 1, m - 1);
  }

  lemma AheadStarts(entries: seq<Entry>, solo: bool, ok: nat -> bool)
    requires entries != []
    ensures var table := Table(entries, solo);
            var goal := Calls(table, ok, 0, 0);
            if solo then Ahead(table, ok, goal, [], 0, 0)
            else Ahead(table, ok, goal, if entries[0].filtered then [] else Block(ok, 0, 0, Tries(ok, 0, 0)), 1, 0)
  {
    var goal := Calls(Table(entries, solo), ok, 0, 0);
    assert [] + goal == goal;
  }

  /** The loop over the remaining entries.  A failed entry puts the index back by one before the step of
      the loop moves it forward again. */
  method SubscribeAll(entries: seq<Entry>, solo: bool, ok: nat -> bool) returns (trace: seq<Attempt>)
    requires entries != []
    ensures trace == Calls(Table(entries, solo), ok, 0, 0)
  {
    hide Ahead, Calls, Tries, Block;
    ghost var table := Table(entries, solo);
    ghost var goal := Calls(table, ok, 0, 0);
    var index, fail_count := 0, 0;
    trace := [];
    if !solo {
      index := 1;
      trace := SubscribeFirst(entries[0], ok);
    }
    AheadStarts(entries, solo, ok);
    while index < |entries|
      invariant index <= |entries| && fail_count <= RETRY_MAX && (!solo ==> index > 0)
      invariant Ahead(table, ok, goal, trace, index, fail_count)
      decreases |entries| - index, RETRY_MAX - fail_count
    {
      AheadMoves(table, ok, goal, trace, index, fail_count);
      assert table[index] == entries[index];
      if !entries[index].matches {
        ForwardOnly(table, ok, goal, trace, index, fail_count);
        index := index + 1;
        continue;
      }
      if fail_count >= RETRY_MAX {
        fail_count := 0;
        index := index + 1;
        continue;
      }
      if entries[index].filtered {
        ForwardOnly(table, ok, goal, trace, index, fail_count);
        index := index + 1;
        continue;
      }
      var res := ok(|trace|);
      trace := trace + [Attempt(index, res)];
      if !res {
        index := index - 1;
        fail_count := fail_count + 1;
        index := index + 1;
        continue;
      }
      fail_count := 0;
      index := index + 1;
    }
    AheadEnds(table, ok, goal, trace, index, fail_count);
  }

  /** An entry that is not wanted has not failed before. */
  lemma ForwardOnly(table: seq<Entry>, ok: nat -> bool, goal: seq<Attempt>, trace: seq<Attempt>, index: nat, failed: nat)
    requires Ahead(table, ok, goal, trace, index, failed) && index < |table| && !Wanted(table[index])
    ensures failed == 0
  {
  }

  lemma AheadEnds(table: seq<Entry>, ok: nat -> bool, goal: seq<Attempt>, trace: seq<Attempt>, index: nat, failed: nat)
    requires Ahead(table, ok, goal, trace, index, failed) && index == |table|
    ensures trace == goal
  {
    assert trace + [] == trace;
  }
}
