/** The registry of the local device and its sub-devices: creation, destruction, the two lookups and the
    two ways to enumerate. */
module DeviceRegistry {
  import opened Bytes

  const PRODUCT_KEY_LEN := 20
  const DEVICE_NAME_LEN := 32
  const DEVICE_SECRET_LEN := 64
  const LOCAL_DEVID := 0

  datatype Node = Node(devid: int, devType: int, pk: string, dn: string, secret: string)
  datatype Status = Success | Fail | InvalidParameter | NoMemory
  datatype Registry = Registry(list: seq<Node>, next: int)
  datatype Event =
    | Create(devType: int, pk: Option<string>, dn: Option<string>, secret: Option<string>, alloc: bool)
    | Destroy(devid: int)

  function Initial(devType: int, pk: string, dn: string): Registry {
    Registry([Node(LOCAL_DEVID, devType, pk, dn, "")], LOCAL_DEVID + 1)
  }

  // ----- the operations, as values -----

  function ById(list: seq<Node>, devid: int): (i: nat)
    ensures i <= |list| && (i < |list| ==> list[i].devid == devid)
    ensures forall j :: 0 <= j < i ==> list[j].devid != devid
  {
    if list == [] || list[0].devid == devid then 0 else 1 + ById(list[1..], devid)
  }

  function ByName(list: seq<Node>, pk: string, dn: string): (i: nat)
    ensures i <= |list| && (i < |list| ==> list[i].pk == pk && list[i].dn == dn)
    ensures forall j :: 0 <= j < i ==> list[j].pk != pk || list[j].dn != dn
  {
    if list == [] || (list[0].pk == pk && list[0].dn == dn) then 0 else 1 + ByName(list[1..], pk, dn)
  }

  predicate Acceptable(pk: Option<string>, dn: Option<string>, secret: Option<string>) {
    && pk.Some? && dn.Some? && |pk.value| <= PRODUCT_KEY_LEN && |dn.value| <= DEVICE_NAME_LEN
    && (secret.Some? ==> |secret.value| <= DEVICE_SECRET_LEN)
  }

  /** The registry, the status, and the id written to the caller: that of the new device, or of the one
      that has the name already. */
  function CreateStep(r: Registry, e: Event): (Registry, Status, Option<int>)
    requires e.Create?
  {
    if !Acceptable(e.pk, e.dn, e.secret) then (r, InvalidParameter, None)
    else
      var i := ByName(r.list, e.pk.value, e.dn.value);
      if i < |r.list| then (r, Fail, Some(r.list[i].devid))
      else if !e.alloc then (r, NoMemory, None)
      else
        var node := Node(r.next, e.devType, e.pk.value, e.dn.value, if e.secret.Some? then e.secret.value else "");
        (Registry(r.list + [node], r.next + 1), Success, Some(r.next))
  }

  function DestroyStep(r: Registry, devid: int): (Registry, Status) {
    var i := ById(r.list, devid);
    if devid < 0 then (r, InvalidParameter)
    else if i == |r.list| || devid == LOCAL_DEVID then (r, Fail)
    else (r.(list := r.list[..i] + r.list[i + 1..]), Success)
  }

  /** The id after `devid` in the list. */
  function Next(list: seq<Node>, devid: int): Option<int> {
    var i := ById(list, devid);
    if devid >= 0 && i + 1 < |list| then Some(list[i + 1].devid) else None
  }

  function Step(r: Registry, e: Event): Registry {
    match e
    case Create(_, _, _, _, _) => CreateStep(r, e).0
    case Destroy(devid) => DestroyStep(r, devid).0
  }

  function Run(r: Registry, es: seq<Event>): Registry
    decreases |es|
  {
    if es == [] then r else Run(Step(r, es[0]), es[1..])
  }

  // ----- what every run keeps -----

  predicate Good(r: Registry) {
    && r.list != [] && r.list[0].devid == LOCAL_DEVID
    && (forall i, j :: 0 <= i < j < |r.list| ==> r.list[i].devid < r.list[j].devid)
    && (forall i :: 0 <= i < |r.list| ==> LOCAL_DEVID <= r.list[i].devid < r.next)
    && (forall i, j :: 0 <= i < j < |r.list| ==> r.list[i].pk != r.list[j].pk || r.list[i].dn != r.list[j].dn)
  }

  lemma StepKeeps(r: Registry, e: Event)
    requires Good(r)
    ensures var r' := Step(r, e); Good(r') && r.next <= r'.next && r'.list[0] == r.list[0]
  {
    match e
    case Create(_, _, _, _, _) =>
    case Destroy(devid) => DestroyKeeps(r, devid);
  }

  lemma DestroyKeeps(r: Registry, devid: int)
    requires Good(r)
    ensures var r' := DestroyStep(r, devid).0; Good(r') && r'.next == r.next && r'.list[0] == r.list[0]
  {
  }

  /** Over any run: ids ascend along the list, names are distinct, the local node stays first. */
  lemma {:induction false} RunKeeps(r: Registry, es: seq<Event>)
    requires Good(r)
    ensures var r' := Run(r, es); Good(r') && r.next <= r'.next && r'.list[0] == r.list[0]
    decreases |es|
  {
    if es != [] {
      StepKeeps(r, es[0]);
      RunKeeps(Step(r, es[0]), es[1..]);
    }
  }

  predicate Has(list: seq<Node>, devid: int) {
    exists i :: 0 <= i < |list| && list[i].devid == devid
  }

  lemma StepGone(r: Registry, e: Event, devid: int)
    requires Good(r) && devid < r.next && !Has(r.list, devid)
    ensures !Has(Step(r, e).list, devid)
  {
  }

  /** An id that was handed out and is no longer in the list is never handed out again. */
  lemma {:induction false} NeverReissued(r: Registry, es: seq<Event>, devid: int)
    requires Good(r) && devid < r.next && !Has(r.list, devid)
    ensures !Has(Run(r, es).list, devid)
    decreases |es|
  {
    if es != [] {
      StepKeeps(r, es[0]);
      StepGone(r, es[0], devid);
      NeverReissued(Step(r, es[0]), es[1..], devid);
    }
  }

  /** An id names the same device for as long as it lives: what stands under it after a run is what stood
      under it before, and it is gone only if a step of the run destroyed it. */
  lemma {:induction false} IdsAreStable(r: Registry, es: seq<Event>, i: nat)
    requires Good(r) && i < |r.list|
    ensures var r', devid := Run(r, es), r.list[i].devid;
            if devid != LOCAL_DEVID && Destroy(devid) in es then !Has(r'.list, devid) else r.list[i] in r'.list
    decreases |es|
  {
    if es != [] {
      var devid := r.list[i].devid;
      var r1 := Step(r, es[0]);
      assert es == [es[0]] + es[1..];
      StepKeeps(r, es[0]);
      if es[0] == Destroy(devid) && devid != LOCAL_DEVID {
        NeverReissued(r1, es[1..], devid);
      } else {
        var k := StepKeepsNode(r, es[0], i);
        IdsAreStable(r1, es[1..], k);
      }
    }
  }

  lemma StepKeepsNode(r: Registry, e: Event, i: nat) returns (k: nat)
    requires Good(r) && i < |r.list|
    requires r.list[i].devid == LOCAL_DEVID || e != Destroy(r.list[i].devid)
    ensures k < |Step(r, e).list| && Step(r, e).list[k] == r.list[i]
  {
    k := i;
    if e.Destroy? {
      var d := ById(r.list, e.devid);
      if e.devid > LOCAL_DEVID && d < i {
        k := i - 1;
      }
    }
  }

  /** A key of at most 20 characters, a name of at most 32, and a secret, if any, of at most 64. */
  lemma AcceptableExactly(pk: Option<string>, dn: Option<string>, secret: Option<string>)
    ensures Acceptable(pk, dn, secret)
       <==> pk.Some? && dn.Some? && |pk.value| <= 20 && |dn.value| <= 32 && (secret == None || |secret.value| <= 64)
  {
  }

  /** Creation succeeds exactly for acceptable names that are free, while memory lasts: it gives the device
      an id that no device ever had, and adds it at the end with the type, the names and the secret of the
      call. */
  lemma CreateExactly(r: Registry, e: Event)
    requires Good(r) && e.Create?
    ensures var (r', st, id) := CreateStep(r, e);
            && (st == InvalidParameter <==> !Acceptable(e.pk, e.dn, e.secret))
            && (st == Success <==> Acceptable(e.pk, e.dn, e.secret) && e.alloc
                                   && forall n :: n in r.list ==> n.pk != e.pk.value || n.dn != e.dn.value)
            && (st == Success ==> id == Some(r.next) && !Has(r.list, r.next) && |r'.list| == |r.list| + 1
                                  && r'.list[..|r.list|] == r.list && r'.next == r.next + 1
                                  && ById(r'.list, r.next) == ByName(r'.list, e.pk.value, e.dn.value) == |r.list|)
            && (st == Success ==>
                  var n := r'.list[|r.list|];
                  && n.devid == r.next && n.devType == e.devType && n.pk == e.pk.value && n.dn == e.dn.value
                  && n.secret == if e.secret.Some? then e.secret.value else "")
            && (st != Success ==> r' == r)
            && (st == Fail <==> Acceptable(e.pk, e.dn, e.secret)
                                && exists n :: n in r.list && n.pk == e.pk.value && n.dn == e.dn.value)
            && (st == Fail ==> forall n :: n in r.list && n.pk == e.pk.value && n.dn == e.dn.value ==> id == Some(n.devid))
  {
    if Acceptable(e.pk, e.dn, e.secret) {
      var i := ByName(r.list, e.pk.value, e.dn.value);
      if i < |r.list| {
        assert r.list[i] in r.list;
      } else if e.alloc {
        var list := CreateStep(r, e).0.list;
        assert list[|r.list|].devid == r.next && list[|r.list|].pk == e.pk.value && list[|r.list|].dn == e.dn.value;
        assert ById(list, r.next) == |r.list|;
      }
    }
  }

  /** Destroying takes the one device of the id off the list; it is refused for the local node, of id 0, and
      for ids that are not listed. */
  lemma DestroyExactly(r: Registry, devid: int)
    requires Good(r)
    ensures var (r', st) := DestroyStep(r, devid);
            && (st == InvalidParameter <==> devid < 0)
            && (st == Success <==> devid != 0 && Has(r.list, devid))
            && (st == Success ==> forall i :: 0 <= i < |r.list| && r.list[i].devid == devid ==>
                                    r' == Registry(r.list[..i] + r.list[i + 1..], r.next))
            && (st != Success ==> r' == r)
  {
    var k := ById(r.list, devid);
    if k < |r.list| {
      assert Has(r.list, devid);
      assert forall i :: 0 <= i < |r.list| && r.list[i].devid == devid ==> i == k;
    }
  }

  // ----- the two lookups -----

  /** Name to id and id to name are inverse to each other. */
  lemma LookupsAreInverse(r: Registry, devid: int, pk: string, dn: string)
    requires Good(r)
    ensures var i, n := ById(r.list, devid), ByName(r.list, pk, dn);
            (n < |r.list| && r.list[n].devid == devid) <==> (i < |r.list| && r.list[i].pk == pk && r.list[i].dn == dn)
  {
  }

  // ----- enumeration -----

  function Ids(list: seq<Node>): (s: seq<int>)
    ensures |s| == |list| && forall i :: 0 <= i < |list| ==> s[i] == list[i].devid
  {
    if list == [] then [] else [list[0].devid] + Ids(list[1..])
  }

  /** What a caller sees that asks for the next id until there is none. */
  function Visited(list: seq<Node>, devid: int): seq<int>
    requires Ascending(list)
    decreases |list| - ById(list, devid)
  {
    var n := Next(list, devid);
    if n.None? then [devid]
    else
      AtItsPlace(list, ById(list, devid) + 1);
      [devid] + Visited(list, n.value)
  }

  predicate Ascending(list: seq<Node>) {
    forall i, j :: 0 <= i < j < |list| ==> list[i].devid < list[j].devid
  }

  lemma AtItsPlace(list: seq<Node>, i: nat)
    requires Ascending(list) && i < |list|
    ensures ById(list, list[i].devid) == i
  {
    assert ById(list, list[i].devid) <= i;
  }

  lemma {:induction false} VisitedFrom(list: seq<Node>, i: nat)
    requires Ascending(list) && i < |list| && forall j :: i <= j < |list| ==> list[j].devid >= 0
    ensures Visited(list, list[i].devid) == Ids(list)[i..]
    decreases |list| - i
  {
    hide Ascending, ById, Ids;
    AtItsPlace(list, i);
    if i + 1 < |list| {
      assert Next(list, list[i].devid) == Some(list[i + 1].devid);
      VisitedFrom(list, i + 1);
      assert Ids(list)[i..] == [list[i].devid] + Ids(list)[i + 1..];
    }
  }

  /** Asking for the next id from the local node on visits every device exactly once, in order of
      creation. */
  lemma EveryDeviceOnce(r: Registry)
    requires Good(r)
    ensures var v := Visited(r.list, LOCAL_DEVID);
            && |v| == |r.list|
            && (forall d :: d in v <==> Has(r.list, d))
            && (forall i, j :: 0 <= i < j < |v| ==> v[i] < v[j])
  {
    VisitedFrom(r.list, 0);
    var v := Ids(r.list);
    assert v[0..] == v;
    forall d | Has(r.list, d) ensures d in v {
      var i :| 0 <= i < |r.list| && r.list[i].devid == d;
      assert v[i] == d;
    }
  }

  /** A walk during which the registry changes: `lists[i]` is what the i-th question finds. */
  predicate Walk(lists: seq<seq<Node>>, at: seq<int>) {
    && |at| == |lists| > 0
    && (forall i :: 0 <= i < |lists| ==> Ascending(lists[i]) && Has(lists[i], at[i]) && at[i] >= 0)
    && (forall i :: 0 <= i < |lists| - 1 ==> Next(lists[i], at[i]) == Some(at[i + 1]))
  }

  lemma NothingBetween(list: seq<Node>, devid: int, other: int)
    requires Ascending(list) && Has(list, devid) && devid >= 0 && Has(list, other) && other > devid
    ensures Next(list, devid).Some? && devid < Next(list, devid).value <= other
  {
    var i := ById(list, devid);
    var k :| 0 <= k < |list| && list[k].devid == other;
    assert i < k by { assert list[i].devid < list[k].devid; }
    assert i + 1 == k || list[i + 1].devid < list[k].devid;
  }

  /** Devices may come and go while somebody walks: as long as the one the walk stands on is still there,
      a walk that has come to its end has visited every device that stayed. */
  lemma {:induction false} WalkMeetsStayers(lists: seq<seq<Node>>, at: seq<int>, devid: int)
    requires Walk(lists, at) && Next(lists[|lists| - 1], at[|at| - 1]).None?
    requires devid >= at[0] && forall i :: 0 <= i < |lists| ==> Has(lists[i], devid)
    ensures devid in at
    decreases |lists|
  {
    if devid != at[0] {
      NothingBetween(lists[0], at[0], devid);
      WalkMeetsStayers(lists[1..], at[1..], devid);
    }
  }

  // ----- the registry as the program keeps it -----

  class Manager {
    var dev_list: seq<Node>
    var global_devid: int

    ghost function Value(): Registry
      reads this
    {
      Registry(dev_list, global_devid)
    }

    constructor Init(devType: int, pk: string, dn: string)
      requires |pk| <= PRODUCT_KEY_LEN && |dn| <= DEVICE_NAME_LEN
      ensures Value() == Initial(devType, pk, dn) == Registry([Node(0, devType, pk, dn, "")], 1) && Good(Value())
    {
      dev_list := [Node(LOCAL_DEVID, devType, pk, dn, "")];
      global_devid := LOCAL_DEVID + 1;
    }

    method SearchByDevid(devid: int) returns (i: nat)
      ensures i == ById(dev_list, devid)
    {
      i := 0;
      while i < |dev_list|
        invariant i <= ById(dev_list, devid)
      {
        if dev_list[i].devid == devid {
          return;
        }
        i := i + 1;
      }
    }

    method SearchByPkdn(pk: string, dn: string) returns (i: nat)
      ensures i == ByName(dev_list, pk, dn)
    {
      i := 0;
      while i < |dev_list|
        invariant i <= ByName(dev_list, pk, dn)
      {
        if dev_list[i].pk == pk && dev_list[i].dn == dn {
          return;
        }
        i := i + 1;
      }
    }

    method DeviceCreate(devType: int, pk: Option<string>, dn: Option<string>, secret: Option<string>, alloc: bool)
      returns (st: Status, devid: Option<int>)
      modifies this
      ensures (Value(), st, devid) == CreateStep(old(Value()), Create(devType, pk, dn, secret, alloc))
    {
      if pk.None? || dn.None? || |pk.value| > PRODUCT_KEY_LEN || |dn.value| > DEVICE_NAME_LEN {
        return InvalidParameter, None;
      }
      if secret.Some? && |secret.value| > DEVICE_SECRET_LEN {
        return InvalidParameter, None;
      }
      var i := SearchByPkdn(pk.value, dn.value);
      if i < |dev_list| {
        return Fail, Some(dev_list[i].devid);
      }
      if !alloc {
        return NoMemory, None;
      }
      var node := Node(global_devid, devType, pk.value, dn.value, if secret.Some? then secret.value else "");
      global_devid := global_devid + 1;
      dev_list := dev_list + [node];
      return Success, Some(node.devid);
    }

    method DeviceDestroy(devid: int) returns (st: Status)
      modifies this
      ensures (Value(), st) == DestroyStep(old(Value()), devid)
    {
      if devid < 0 {
        return InvalidParameter;
      }
      var i := SearchByDevid(devid);
      if i == |dev_list| || dev_list[i].devid == LOCAL_DEVID {
        return Fail;
      }
      dev_list := dev_list[..i] + dev_list[i + 1..];
      return Success;
    }

    method GetDevidByIndex(index: int) returns (st: Status, devid: Option<int>)
      ensures if index < 0 then st == InvalidParameter && devid == None
              else if index < |dev_list| then st == Success && devid == Some(Ids(dev_list)[index])
              else st == Fail && devid == None
    {
      if index < 0 {
        return InvalidParameter, None;
      }
      var i := 0;
      while i < |dev_list|
        invariant i <= index
      {
        if i == index {
          return Success, Some(dev_list[i].devid);
        }
        i := i + 1;
      }
      return Fail, None;
    }

    method GetNextDevid(devid: int) returns (st: Status, next: Option<int>)
      ensures next == Next(dev_list, devid)
      ensures st == if devid < 0 then InvalidParameter else if next.Some? then Success else Fail
    {
      if devid < 0 {
        return InvalidParameter, None;
      }
      var i, search: Option<Node> := 0, None;
      while i < |dev_list|
        invariant i <= |dev_list|
        invariant if search.None? then i <= ById(dev_list, devid)
                  else search.value.devid == devid && i == ById(dev_list, devid) + 1
      {
        if search.Some? && search.value.devid == devid {
          return Success, Some(dev_list[i].devid);
        }
        if dev_list[i].devid == devid {
          search := Some(dev_list[i]);
        }
        i := i + 1;
      }
      return Fail, None;
    }
  }
}
