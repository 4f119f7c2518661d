/** Indirect flow actions of a port (config.c): creation with given or automatic ids, undone when the
    driver refuses, and destruction by lists of ids. */
module IndirectActions {
  import opened Common
  import opened Registry

  /** An indirect action: its driver handle, absent only while it is being created, and its kind. */
  datatype Action = Action(handle: Option<nat>, kind: nat)

  datatype Outcome = Done | Einval | Enomem | DriverError

  /** What holds of a port's list between calls, beyond the list's own shape: no action has the id
      that asks for an automatic one, and every action has its handle. */
  ghost predicate Settled(items: seq<Item<Action>>) {
    forall i :: 0 <= i < |items| ==> items[i].id < UINT32_MAX && items[i].payload.handle.Some?
  }

  /** The automatic id: one above the newest. */
  function FreeId(items: seq<Item<Action>>): Option<nat> {
    if items == [] then Some(0)
    else if items[0].id == UINT32_MAX - 1 then None
    else Some(items[0].id + 1)
  }

  predicate InUse(items: seq<Item<Action>>, id: nat) {
    exists i :: 0 <= i < |items| && items[i].id == id
  }

  /** How many entries are newer than `id`. */
  function Newer(items: seq<Item<Action>>, id: nat): (k: nat)
    ensures k <= |items|
  {
    if items == [] || items[0].id <= id then 0 else 1 + Newer(items[1..], id)
  }

  /** `it` put where its id belongs. */
  function Inserted(items: seq<Item<Action>>, it: Item<Action>): seq<Item<Action>> {
    With(items, Newer(items, it.id), it)
  }

  ghost predicate DescendingItems(items: seq<Item<Action>>) {
    forall i, j :: 0 <= i < j < |items| ==> items[i].id > items[j].id
  }

  lemma {:induction false} NewerSplits(items: seq<Item<Action>>, id: nat)
    requires DescendingItems(items)
    ensures var k := Newer(items, id);
      && (forall i :: 0 <= i < k ==> items[i].id > id)
      && (forall i :: k <= i < |items| ==> items[i].id <= id)
      && (InUse(items, id) <==> k < |items| && items[k].id == id)
  {
    if items != [] && items[0].id > id {
      NewerSplits(items[1..], id);
      assert forall i :: 0 < i < |items| ==> items[i] == items[1..][i - 1];
    }
  }

  /** An automatic id is never in use. */
  lemma FreeIdIsFree(items: seq<Item<Action>>)
    requires DescendingItems(items) && Settled(items) && FreeId(items).Some?
    ensures !InUse(items, FreeId(items).value) && FreeId(items).value < UINT32_MAX
    ensures Newer(items, FreeId(items).value) == 0
  {
  }

  /** Undoing an insertion: destroying just the new id gives the old list back. */
  lemma {:induction false} InsertedUndone(items: seq<Item<Action>>, k: nat, it: Item<Action>,
           drop: (nat, Action, nat) -> bool)
    requires k <= |items| && (forall i :: 0 <= i < |items| ==> items[i].id != it.id)
    requires drop(it.id, it.payload, 0)
    ensures Kept(With(items, k, it), [it.id], drop) == items
  {
    var w := With(items, k, it);
    assert Removed(it, [it.id], drop);
    var last := |w| - 1;
    if k == |items| {
      assert w[..last] == items && w[last] == it;
      OthersKept(items, it.id, drop);
    } else {
      var init := items[..|items| - 1];
      assert w[..last] == With(init, k, it) && w[last] == items[|items| - 1];
      InsertedUndone(init, k, it, drop);
    }
  }

  lemma {:induction false} OthersKept(items: seq<Item<Action>>, id: nat, drop: (nat, Action, nat) -> bool)
    requires forall i :: 0 <= i < |items| ==> items[i].id != id
    ensures Kept(items, [id], drop) == items
  {
    if items != [] {
      OthersKept(items[..|items| - 1], id, drop);
    }
  }

  /** The id an allocation is for. */
  function Wanted(items: seq<Item<Action>>, id: nat): Option<nat> {
    if id == UINT32_MAX then FreeId(items) else Some(id)
  }

  /** One above the id in front, which is the largest. */
  ghost function NextId(items: seq<Item<Action>>): nat {
    if items == [] then 0 else items[0].id + 1
  }

  ghost predicate Exhausted(items: seq<Item<Action>>) {
    items != [] && items[0].id == 0xFFFF_FFFE
  }

  /** How an allocation ends, and the id it is for, on a settled list. */
  lemma AllocMeans(items: seq<Item<Action>>, id: nat, callocOk: bool)
    requires DescendingItems(items) && Settled(items) && id <= 0xFFFF_FFFF
    ensures var r := AllocOutcome(items, id, callocOk);
      && (r == Enomem <==> !callocOk || (id == 0xFFFF_FFFF && Exhausted(items)))
      && (r == Einval <==> callocOk && id != 0xFFFF_FFFF && exists it :: it in items && it.id == id)
      && (r == Done || r == Enomem || r == Einval)
      && (r == Done ==> Wanted(items, id) == Some(if id != 0xFFFF_FFFF then id else NextId(items)))
      && (r == Done ==> Wanted(items, id).value < UINT32_MAX && !InUse(items, Wanted(items, id).value))
  {
    hide InUse;
    if id == UINT32_MAX && FreeId(items).Some? {
      FreeIdIsFree(items);
    }
    UsedMeans(items, id);
  }

  lemma UsedMeans(items: seq<Item<Action>>, id: nat)
    ensures InUse(items, id) <==> exists it :: it in items && it.id == id
  {
  }

  /** How an allocation ends. */
  function AllocOutcome(items: seq<Item<Action>>, id: nat, callocOk: bool): Outcome {
    if Wanted(items, id).None? || !callocOk then Enomem
    else if InUse(items, Wanted(items, id).value) then Einval
    else Done
  }

  /** action_alloc: find the place of the id and link a fresh node in there. */
  method ActionAlloc(port: Port<Action>, id0: nat, callocOk: bool) returns (r: Outcome, pia: Node?<Action>)
    requires port.Valid() && Settled(Items(port.spine)) && id0 <= UINT32_MAX
    modifies port, port.spine
    ensures port.Valid() && r == AllocOutcome(old(Items(port.spine)), id0, callocOk)
    ensures r != Done ==> pia == null && port.spine == old(port.spine) && Items(port.spine) == old(Items(port.spine))
    ensures r == Done ==> pia != null && fresh(pia) && pia in port.spine && pia.payload == Action(None, 0)
    ensures r == Done ==> Some(pia.id) == Wanted(old(Items(port.spine)), id0)
    ensures r == Done ==> Items(port.spine) == Inserted(old(Items(port.spine)), Item(pia.id, Action(None, 0)))
    ensures forall n :: n in port.spine ==> n in old(port.spine) || n == pia
  {
    hide Items, Newer, InUse, FreeId, Inserted, Descending, Linked;
    pia := null;
    var id := PickId(port, id0);
    if id.None? {
      return Enomem, null;
    }
    if !callocOk {
      return Enomem, null;
    }
    pia := LinkNew(port, id.value);
    r := if pia == null then Einval else Done;
  }

  /** The id asked for, or the first one above all present. */
  method PickId(port: Port<Action>, id0: nat) returns (id: Option<nat>)
    requires port.Valid() && Settled(Items(port.spine)) && id0 <= UINT32_MAX
    ensures id == Wanted(Items(port.spine), id0)
    ensures id.Some? ==> id.value < UINT32_MAX
  {
    if id0 != UINT32_MAX {
      return Some(id0);
    }
    if port.head == null {
      return Some(0);
    }
    assert Items(port.spine)[0].id == port.head.id;
    if port.head.id == UINT32_MAX - 1 {
      return None;
    }
    return Some(port.head.id + 1);
  }

  /** A fresh node linked in where its id belongs, unless the id is taken. */
  method LinkNew(port: Port<Action>, id: nat) returns (pia: Node?<Action>)
    requires port.Valid() && id < UINT32_MAX
    modifies port, port.spine
    ensures port.Valid() && (pia == null <==> InUse(old(Items(port.spine)), id))
    ensures pia == null ==> port.spine == old(port.spine) && Items(port.spine) == old(Items(port.spine))
    ensures pia != null ==> fresh(pia) && pia in port.spine && pia.id == id && pia.payload == Action(None, 0)
    ensures pia != null ==> Items(port.spine) == Inserted(old(Items(port.spine)), Item(id, Action(None, 0)))
    ensures forall n :: n in port.spine ==> n in old(port.spine) || n == pia
  {
    hide Items, Newer, InUse;
    ghost var was := Items(port.spine);
    NewerSplits(was, id);
    ghost var k := Newer(was, id);
    var prev, cur := FindPlace(port, id, k);
    if cur != null && cur.id == id {
      return null;
    }
    pia := new Node(id, Action(None, 0));
    assert k > 0 ==> port.spine[k - 1] in port.spine;
    hide Descending, Linked;
    port.Insert(prev, pia, k);
  }

  /** while (*ppia && (*ppia)->id > id) ppia = &(*ppia)->next. */
  method FindPlace(port: Port<Action>, id: nat, ghost k: nat) returns (prev: Node?<Action>, cur: Node?<Action>)
    requires port.Valid() && k <= |port.spine|
    requires forall i :: 0 <= i < k ==> port.spine[i].id > id
    requires forall i :: k <= i < |port.spine| ==> port.spine[i].id <= id
    ensures prev == if k == 0 then null else port.spine[k - 1]
    ensures cur == if k < |port.spine| then port.spine[k] else null
  {
    prev, cur := null, port.head;
    ghost var i: nat := 0;
    while cur != null && cur.id > id
      invariant i <= k
      invariant prev == if i == 0 then null else port.spine[i - 1]
      invariant cur == if i < |port.spine| then port.spine[i] else null
      decreases |port.spine| - i
    {
      assert port.spine[i].next == if i + 1 < |port.spine| then port.spine[i + 1] else null;
      prev, cur, i := cur, cur.next, i + 1;
    }
  }

  ghost predicate Ok(port: Port<Action>)
    reads port, port.spine
  {
    port.Valid() && Settled(Items(port.spine))
  }

  lemma InsertedSettled(items: seq<Item<Action>>, it: Item<Action>)
    requires Settled(items) && it.id < UINT32_MAX && it.payload.handle.Some?
    ensures Settled(Inserted(items, it))
  {
  }

  lemma KeptSettled(items: seq<Item<Action>>, ids: seq<nat>, drop: (nat, Action, nat) -> bool)
    requires Settled(items)
    ensures Settled(Kept(items, ids, drop))
  {
    KeptMeaning(items, ids, drop);
    var kept := Kept(items, ids, drop);
    forall i | 0 <= i < |kept|
      ensures kept[i] in items
    {
      assert kept[i] in kept;
    }
  }

  lemma Placed(items: seq<Item<Action>>, it: Item<Action>, x: Action)
    ensures |Inserted(items, it)| == |items| + 1 && Inserted(items, it)[Newer(items, it.id)] == it
    ensures Inserted(items, it)[Newer(items, it.id) := Item(it.id, x)] == Inserted(items, Item(it.id, x))
  {
  }

  /** Destroying: `driverOk(id, i)` is the driver's answer to the attempt made for the i-th id of the
      request; an action without a handle is dropped without asking. */
  function DropRule(driverOk: (nat, nat) -> bool): (nat, Action, nat) -> bool {
    (id: nat, a: Action, i: nat) => a.handle.None? || driverOk(id, i)
  }

  /** An entry goes when one of the listed ids is its own and it has no handle or the driver's answer to that
      attempt is yes. */
  ghost predicate Goes(it: Item<Action>, ids: seq<nat>, driverOk: (nat, nat) -> bool) {
    exists i :: 0 <= i < |ids| && ids[i] == it.id && (it.payload.handle == None || driverOk(ids[i], i))
  }

  /** The driver says no to the first attempt at an entry that has a handle. */
  ghost predicate Complained(it: Item<Action>, ids: seq<nat>, driverOk: (nat, nat) -> bool) {
    exists i :: 0 <= i < |ids| && ids[i] == it.id && it.payload.handle != None && !driverOk(ids[i], i)
      && forall j :: 0 <= j < i ==> ids[j] != it.id
  }

  lemma RuleMeans(it: Item<Action>, ids: seq<nat>, driverOk: (nat, nat) -> bool)
    ensures Removed(it, ids, DropRule(driverOk)) <==> Goes(it, ids, driverOk)
    ensures Refused(it, ids, DropRule(driverOk)) <==> Complained(it, ids, driverOk)
  {
    hide Refused, FirstOf;
    FirstDecides(it, ids, DropRule(driverOk));
  }

  /** What a request leaves, and whether the driver complained, in those terms. */
  lemma DestroyMeans(items: seq<Item<Action>>, ids: seq<nat>, driverOk: (nat, nat) -> bool)
    ensures var kept := Kept(items, ids, DropRule(driverOk));
      forall it :: it in kept <==> it in items && !Goes(it, ids, driverOk)
    ensures AnyRefused(items, ids, DropRule(driverOk)) <==> exists it :: it in items && Complained(it, ids, driverOk)
  {
    hide *;
    var drop := DropRule(driverOk);
    AnyMeans(items, ids, drop);
    forall it
      ensures it in Kept(items, ids, drop) <==> it in items && !Goes(it, ids, driverOk)
      ensures it in items ==> (Refused(it, ids, drop) <==> Complained(it, ids, driverOk))
    {
      RuleMeans(it, ids, driverOk);
      KeptAt(items, ids, drop, it);
    }
  }

  method PortActionHandleDestroy(port: Port<Action>, portOk: bool, ids: seq<nat>, driverOk: (nat, nat) -> bool)
    returns (r: Outcome)
    requires port.Valid()
    modifies port, port.spine
    ensures port.Valid()
    ensures r == if !portOk then Einval
                 else if AnyRefused(old(Items(port.spine)), ids, DropRule(driverOk)) then DriverError else Done
    ensures Items(port.spine) ==
      if portOk then Kept(old(Items(port.spine)), ids, DropRule(driverOk)) else old(Items(port.spine))
    ensures forall it :: it in Items(port.spine) <==>
      it in old(Items(port.spine)) && !(portOk && Goes(it, ids, driverOk))
    ensures r == DriverError <==> portOk && exists it :: it in old(Items(port.spine)) && Complained(it, ids, driverOk)
    ensures old(Settled(Items(port.spine))) ==> Settled(Items(port.spine))
    ensures forall n :: n in port.spine ==> n in old(port.spine)
  {
    if !portOk {
      return Einval;
    }
    ghost var was := Items(port.spine);
    hide AnyRefused, Goes, Complained, Items;
    DestroyMeans(was, ids, driverOk);
    var refused := port.Destroy(ids, DropRule(driverOk));
    if Settled(was) {
      KeptSettled(was, ids, DropRule(driverOk));
    }
    r := if refused then DriverError else Done;
  }

  lemma InsertedHas(items: seq<Item<Action>>, it: Item<Action>, x: Item<Action>)
    ensures x in Inserted(items, it) <==> x in items || x == it
  {
    var k, w := Newer(items, it.id), Inserted(items, it);
    assert items == items[..k] + items[k..] && w == items[..k] + [it] + items[k..];
  }

  lemma InsertedAny(items: seq<Item<Action>>, it: Item<Action>)
    ensures forall x :: x in Inserted(items, it) <==> x in items || x == it
  {
    hide Inserted;
    forall x
      ensures x in Inserted(items, it) <==> x in items || x == it
    {
      InsertedHas(items, it, x);
    }
  }

  lemma PortDescends(port: Port<Action>)
    requires port.Valid()
    ensures DescendingItems(Items(port.spine))
  {
  }

  /** Creating: the new action has the id asked for or the next automatic one, which nothing on the
      list had; whenever creation fails the list is exactly what it was. */
  method PortActionHandleCreate(port: Port<Action>, portOk: bool, id0: nat, kind: nat,
           callocOk: bool, driver: Option<nat>)
    returns (r: Outcome, ghost id: Option<nat>)
    requires Ok(port) && id0 <= UINT32_MAX
    modifies port, port.spine
    ensures Ok(port) && id == Wanted(old(Items(port.spine)), id0)
    ensures r == if !portOk then Einval
                 else if AllocOutcome(old(Items(port.spine)), id0, callocOk) != Done
                   then AllocOutcome(old(Items(port.spine)), id0, callocOk)
                 else if driver.None? then DriverError else Done
    ensures r == Done ==> id.Some? && id.value < UINT32_MAX && !InUse(old(Items(port.spine)), id.value)
    ensures r == Done ==> forall it :: it in Items(port.spine) <==>
      it in old(Items(port.spine)) || it == Item(if id0 != 0xFFFF_FFFF then id0 else NextId(old(Items(port.spine))),
                                                 Action(driver, kind))
    ensures portOk ==> (r == Enomem <==> !callocOk || (id0 == 0xFFFF_FFFF && Exhausted(old(Items(port.spine)))))
    ensures portOk && callocOk ==>
      (r == Einval <==> id0 != 0xFFFF_FFFF && exists it :: it in old(Items(port.spine)) && it.id == id0)
    ensures Items(port.spine) ==
      if r == Done && id.Some? then Inserted(old(Items(port.spine)), Item(id.value, Action(driver, kind)))
                                 else old(Items(port.spine))
    ensures forall n :: n in port.spine ==> n in old(port.spine) || fresh(n)
  {
    hide Items, Inserted, Newer, InUse, Kept, With, DropRule, AllocOutcome, Wanted, Exhausted, NextId, Descending,
      DescendingItems, Goes, Complained, FreeId;
    ghost var was := Items(port.spine);
    PortDescends(port);
    AllocMeans(was, id0, callocOk);
    id := Wanted(was, id0);
    if !portOk {
      return Einval, id;
    }
    var pia;
    r, pia := ActionAlloc(port, id0, callocOk);
    if r != Done {
      return r, id;
    }
    Finish(port, pia, Action(driver, if driver.None? then 0 else kind), was);
    if driver.None? {
      ghost var it := Item(pia.id, Action(None, 0));
      assert forall i :: 0 <= i < |port.spine| ==> port.spine[i] in old(port.spine) || fresh(port.spine[i]);
      var _ := PortActionHandleDestroy(port, true, [pia.id], (_, _) => false);
      Undone(was, it, (_, _) => false);
      return DriverError, id;
    }
    InsertedSettled(was, Item(pia.id, Action(driver, kind)));
    InsertedAny(was, Item(pia.id, Action(driver, kind)));
  }

  /** The handle, and the kind with it, recorded in the node just linked in. */
  method Finish(port: Port<Action>, pia: Node<Action>, x: Action, ghost was: seq<Item<Action>>)
    requires port.Valid() && pia in port.spine && Items(port.spine) == Inserted(was, Item(pia.id, Action(None, 0)))
    modifies pia`payload
    ensures port.Valid() && Items(port.spine) == Inserted(was, Item(pia.id, x))
  {
    hide Inserted, Newer, Linked;
    ghost var k :| 0 <= k < |port.spine| && port.spine[k] == pia;
    Placed(was, Item(pia.id, Action(None, 0)), x);
    ghost var q := Newer(was, pia.id);
    assert Items(port.spine)[q].id == port.spine[q].id && Items(port.spine)[k].id == port.spine[k].id;
    assert k == q;
    port.SetPayload(pia, x, k);
  }

  lemma Undone(was: seq<Item<Action>>, it: Item<Action>, driverOk: (nat, nat) -> bool)
    requires !InUse(was, it.id) && it.payload.handle.None?
    ensures Kept(Inserted(was, it), [it.id], DropRule(driverOk)) == was
  {
    InsertedUndone(was, Newer(was, it.id), it, DropRule(driverOk));
  }
}
