/** Flow rules of a port (config.c): creation with rising ids, destruction by lists of ids, and the
    listing that sorts the rules through a second link. */
module FlowRules {
  import opened Common
  import opened Registry

  datatype Rule = Rule(group: nat, priority: nat, flow: nat)

  datatype Outcome = Done | Einval | Enomem | DriverError

  /** Creating: ids rise, so the new rule goes in front; a refusal changes nothing. */
  method PortFlowCreate(port: Port<Rule>, rule: Rule, newOk: bool, driver: Option<nat>)
    returns (r: Outcome)
    requires port.Valid()
    modifies port, port.spine
    ensures port.Valid()
    ensures var was := old(Items(port.spine));
      && r == (if was != [] && was[0].id == UINT32_MAX then Enomem
        else if !newOk || driver.None? then DriverError else Done)
      && Items(port.spine) == if r == Done && driver.Some?
        then [Item(if was == [] then 0 else was[0].id + 1, rule.(flow := driver.value))] + was
        else was
    ensures r != Done ==> port.spine == old(port.spine)
  {
    hide Items, Linked, Descending;
    ghost var was := Items(port.spine);
    FrontId(port);
    var id := 0;
    if port.head != null {
      if port.head.id == UINT32_MAX {
        return Enomem;
      }
      id := port.head.id + 1;
    }
    if !newOk || driver.None? {
      return DriverError;
    }
    var pf := new Node(id, rule.(flow := driver.value));
    InFront(port, id);
    port.Insert(null, pf, 0);
    assert With(was, 0, Item(id, pf.payload)) == [Item(id, pf.payload)] + was;
    r := Done;
  }

  lemma FrontId(port: Port<Rule>)
    requires port.Valid()
    ensures port.head == null <==> Items(port.spine) == []
    ensures port.head != null ==> port.head.id == Items(port.spine)[0].id && port.head in port.spine
  {
  }

  lemma InFront(port: Port<Rule>, id: nat)
    requires port.Valid() && (port.head != null ==> id > port.head.id)
    ensures forall i :: 0 <= i < |port.spine| ==> id > port.spine[i].id
  {
  }

  /** The driver's answers by id and place in the request. */
  function DropRule(driverOk: (nat, nat) -> bool): (nat, Rule, nat) -> bool {
    (id: nat, r: Rule, i: nat) => driverOk(id, i)
  }

  /** A rule goes when one of the listed ids is its own and the driver's answer to that attempt is yes. */
  ghost predicate Goes(it: Item<Rule>, ids: seq<nat>, driverOk: (nat, nat) -> bool) {
    exists i :: 0 <= i < |ids| && ids[i] == it.id && driverOk(ids[i], i)
  }

  /** The driver says no to the first attempt at a rule. */
  ghost predicate Complained(it: Item<Rule>, ids: seq<nat>, driverOk: (nat, nat) -> bool) {
    exists i :: 0 <= i < |ids| && ids[i] == it.id && !driverOk(ids[i], i) && forall j :: 0 <= j < i ==> ids[j] != it.id
  }

  lemma RuleMeans(it: Item<Rule>, ids: seq<nat>, driverOk: (nat, nat) -> bool)
    ensures Removed(it, ids, DropRule(driverOk)) <==> Goes(it, ids, driverOk)
    ensures Refused(it, ids, DropRule(driverOk)) <==> Complained(it, ids, driverOk)
  {
    hide Refused, FirstOf;
    FirstDecides(it, ids, DropRule(driverOk));
  }

  /** What a request leaves, and whether the driver complained, in those terms. */
  lemma DestroyMeans(items: seq<Item<Rule>>, ids: seq<nat>, driverOk: (nat, nat) -> bool)
    ensures var kept := Kept(items, ids, DropRule(driverOk));
      forall it :: it in kept <==> it in items && !Goes(it, ids, driverOk)
    ensures AnyRefused(items, ids, DropRule(driverOk)) <==> exists it :: it in items && Complained(it, ids, driverOk)
  {
    hide *;
    var drop := DropRule(driverOk);
    AnyMeans(items, ids, drop);
    forall it
      ensures it in Kept(items, ids, drop) <==> it in items && !Goes(it, ids, driverOk)
      ensures it in items ==> (Refused(it, ids, drop) <==> Complained(it, ids, driverOk))
    {
      RuleMeans(it, ids, driverOk);
      KeptAt(items, ids, drop, it);
    }
  }

  /** Destroying: exactly the listed rules go for which the driver agrees to some attempt. */
  method PortFlowDestroy(port: Port<Rule>, portOk: bool, ids: seq<nat>, driverOk: (nat, nat) -> bool)
    returns (r: Outcome)
    requires port.Valid()
    modifies port, port.spine
    ensures port.Valid()
    ensures r == if !portOk then Einval
                 else if AnyRefused(old(Items(port.spine)), ids, DropRule(driverOk)) then DriverError else Done
    ensures Items(port.spine) ==
      if portOk then Kept(old(Items(port.spine)), ids, DropRule(driverOk)) else old(Items(port.spine))
    ensures forall it :: it in Items(port.spine) <==>
      it in old(Items(port.spine)) && !(portOk && Goes(it, ids, driverOk))
    ensures r == DriverError <==> portOk && exists it :: it in old(Items(port.spine)) && Complained(it, ids, driverOk)
    ensures forall n :: n in port.spine ==> n in old(port.spine)
  {
    if !portOk {
      return Einval;
    }
    hide AnyRefused, Goes, Complained, Items;
    DestroyMeans(Items(port.spine), ids, driverOk);
    var refused := port.Destroy(ids, DropRule(driverOk));
    r := if refused then DriverError else Done;
  }

  // ---------- the listing ----------

  /** By group, then priority, then id. */
  predicate Before(a: Item<Rule>, b: Item<Rule>) {
    || a.payload.group < b.payload.group
    || (a.payload.group == b.payload.group && a.payload.priority < b.payload.priority)
    || (a.payload.group == b.payload.group && a.payload.priority == b.payload.priority && a.id < b.id)
  }

  predicate Sorted(items: seq<Item<Rule>>) {
    forall i, j :: 0 <= i < j < |items| ==> Before(items[i], items[j])
  }

  /** The rules of the groups asked for, all rules if none is named. */
  function InGroups(items: seq<Item<Rule>>, groups: seq<nat>): seq<Item<Rule>> {
    if items == [] then []
    else
      var init, last := items[..|items| - 1], items[|items| - 1];
      InGroups(init, groups) + if groups == [] || last.payload.group in groups then [last] else []
  }

  lemma WithoutFirst(s: seq<Item<Rule>>)
    requires s != []
    ensures s == [s[0]] + s[1..] && multiset(s) == multiset{s[0]} + multiset(s[1..])
  {
    assert s == [s[0]] + s[1..];
  }

  /** Two sorted sequences with the same entries are the same. */
  lemma {:induction false} SortedUnique(a: seq<Item<Rule>>, b: seq<Item<Rule>>)
    requires Sorted(a) && Sorted(b) && multiset(a) == multiset(b)
    ensures a == b
  {
    if a == [] {
      assert |multiset(b)| == 0;
    } else {
      hide Before;
      assert |b| == |multiset(a)|;
      SameFirst(a, b);
      WithoutFirst(a);
      WithoutFirst(b);
      assert multiset(a[1..]) == multiset(a) - multiset{a[0]};
      assert multiset(b[1..]) == multiset(b) - multiset{b[0]};
      SortedUnique(a[1..], b[1..]);
    }
  }

  lemma SameFirst(a: seq<Item<Rule>>, b: seq<Item<Rule>>)
    requires Sorted(a) && Sorted(b) && a != [] && b != []
    requires multiset(a) == multiset(b)
    ensures a[0] == b[0]
  {
    assert a[0] in multiset(b) && b[0] in multiset(a);
    var i :| 0 <= i < |b| && b[i] == a[0];
    var j :| 0 <= j < |a| && a[j] == b[0];
    assert i > 0 ==> Before(b[0], b[i]);
    assert j > 0 ==> Before(a[0], a[j]);
  }

  /** Inserting behind everything that comes before keeps the order. */
  lemma InsertSorted(out: seq<Item<Rule>>, k: nat, it: Item<Rule>)
    requires Sorted(out) && k <= |out|
    requires forall i :: 0 <= i < |out| ==> out[i].id != it.id
    requires forall i :: 0 <= i < k ==> Before(out[i], it)
    requires k < |out| ==> !Before(out[k], it)
    ensures Sorted(With(out, k, it)) && multiset(With(out, k, it)) == multiset(out) + multiset{it}
  {
    assert out == out[..k] + out[k..];
    assert forall i :: k <= i < |out| ==> Before(it, out[i]);
  }

  /** `out` is what following `tmp` from `first` visits. */
  ghost predicate TmpLinked(first: Node?<Rule>, out: seq<Node<Rule>>)
    reads out
  {
    && first == (if out == [] then null else out[0])
    && forall i {:trigger out[i].tmp} :: 0 <= i < |out| ==> out[i].tmp == if i + 1 < |out| then out[i + 1] else null
  }

  /** The inner loop: the place in the sorted list. */
  method FindTmpPlace(first: Node?<Rule>, pf: Node<Rule>, ghost out: seq<Node<Rule>>)
    returns (prev: Node?<Rule>, cur: Node?<Rule>, ghost k: nat)
    requires TmpLinked(first, out)
    ensures k <= |out| && prev == (if k == 0 then null else out[k - 1]) && cur == if k < |out| then out[k] else null
    ensures forall i :: 0 <= i < k ==> Before(Items(out)[i], Item(pf.id, pf.payload))
    ensures k < |out| ==> !Before(Items(out)[k], Item(pf.id, pf.payload))
  {
    prev, cur, k := null, first, 0;
    while cur != null
      invariant k <= |out| && prev == (if k == 0 then null else out[k - 1]) && cur == if k < |out| then out[k] else null
      invariant forall i :: 0 <= i < k ==> Before(Items(out)[i], Item(pf.id, pf.payload))
      decreases |out| - k
    {
      if !Before(Item(cur.id, cur.payload), Item(pf.id, pf.payload)) {
        break;
      }
      assert out[k].tmp == if k + 1 < |out| then out[k + 1] else null;
      prev, cur, k := cur, cur.tmp, k + 1;
    }
  }

  /** pf->tmp = *tmp; *tmp = pf. The rule list itself is not touched. */
  method LinkTmp(first: Node?<Rule>, prev: Node?<Rule>, cur: Node?<Rule>, pf: Node<Rule>,
                 ghost out: seq<Node<Rule>>, ghost k: nat)
    returns (first': Node<Rule>)
    requires TmpLinked(first, out) && Distinct(out) && pf !in out
    requires k <= |out| && prev == (if k == 0 then null else out[k - 1]) && cur == if k < |out| then out[k] else null
    modifies out`tmp, pf`tmp
    ensures TmpLinked(first', With(out, k, pf)) && Distinct(With(out, k, pf))
    ensures Items(With(out, k, pf)) == With(old(Items(out)), k, Item(pf.id, pf.payload))
  {
    hide Items, Distinct;
    ghost var was := Items(out);
    DistinctWith(out, k, pf);
    forall i | 0 <= i < |out| && prev == out[i]
      ensures i == k - 1
    {
      SamePlace(out, i, k - 1);
    }
    pf.tmp := cur;
    if prev == null {
      first' := pf;
    } else {
      first' := first;
      prev.tmp := pf;
    }
    ItemsWith(out, k, pf, was);
  }

  lemma DistinctWith(out: seq<Node<Rule>>, k: nat, pf: Node<Rule>)
    requires Distinct(out) && pf !in out && k <= |out|
    ensures Distinct(With(out, k, pf))
  {
  }

  lemma SamePlace(out: seq<Node<Rule>>, i: nat, j: nat)
    requires Distinct(out) && i < |out| && j < |out| && out[i] == out[j]
    ensures i == j
  {
  }

  /** One round of the outer loop for a rule of a wanted group. */
  method Place(first: Node?<Rule>, pf: Node<Rule>, ghost out: seq<Node<Rule>>, ghost port: Port<Rule>)
    returns (first': Node<Rule>, ghost out': seq<Node<Rule>>)
    requires TmpLinked(first, out) && Distinct(out) && pf !in out && Sorted(Items(out))
    requires forall n :: n in out ==> n.id != pf.id
    requires port.Valid()
    modifies out`tmp, pf`tmp
    ensures TmpLinked(first', out') && Distinct(out') && Sorted(Items(out'))
    ensures forall n :: n in out' <==> n == pf || n in out
    ensures multiset(Items(out')) == multiset(old(Items(out))) + multiset{Item(pf.id, pf.payload)}
    ensures port.Valid() && Items(port.spine) == old(Items(port.spine))
  {
    hide Sorted, Distinct, Descending, TmpLinked, Before;
    var prev, cur;
    ghost var k;
    prev, cur, k := FindTmpPlace(first, pf, out);
    InsertSorted(Items(out), k, Item(pf.id, pf.payload));
    HoldsBoth(out, k, pf);
    first' := LinkTmp(first, prev, cur, pf, out, k);
    out' := With(out, k, pf);
  }

  /** `out`, linked from `first`, is the sorted list of the wanted ones among the first `k` rules. */
  ghost predicate ListedSoFar(first: Node?<Rule>, out: seq<Node<Rule>>, port: Port<Rule>, k: nat, groups: seq<nat>)
    reads out, port, port.spine
  {
    && TmpLinked(first, out) && Distinct(out) && Sorted(Items(out)) && k <= |port.spine|
    && (forall n :: n in out ==> n in port.spine && (k < |port.spine| ==> n.id > port.spine[k].id))
    && multiset(Items(out)) == multiset(InGroups(Items(port.spine)[..k], groups))
  }

  /** One round of the outer loop. */
  method ListRound(first: Node?<Rule>, pf: Node<Rule>, groups: seq<nat>,
           ghost out: seq<Node<Rule>>, ghost port: Port<Rule>, ghost k: nat)
    returns (first': Node?<Rule>, ghost out': seq<Node<Rule>>)
    requires port.Valid() && ListedSoFar(first, out, port, k, groups) && k < |port.spine| && pf == port.spine[k]
    modifies port.spine`tmp
    ensures port.Valid() && Items(port.spine) == old(Items(port.spine))
    ensures ListedSoFar(first', out', port, k + 1, groups)
  {
    hide Sorted, Distinct, Descending, TmpLinked, InGroups, Before, Items, Linked;
    InGroupsStep(Items(port.spine), k, groups);
    if k + 1 < |port.spine| { NextBelow(port.spine, k); }
    assert pf in port.spine && forall i :: 0 <= i < |out| ==> out[i] in port.spine;
    first', out' := first, out;
    if groups == [] || pf.payload.group in groups {
      first', out' := Place(first, pf, out, port);
    }
  }

  /** The listing: the rules of the wanted groups in order, the rule list as before. */
  method PortFlowList(port: Port<Rule>, groups: seq<nat>) returns (printed: seq<Item<Rule>>)
    requires port.Valid()
    modifies port.spine`tmp
    ensures port.Valid() && Items(port.spine) == old(Items(port.spine))
    ensures Sorted(printed) && multiset(printed) == multiset(InGroups(Items(port.spine), groups))
    ensures forall it :: it in printed <==>
      it in Items(port.spine) && (groups == [] || it.payload.group in groups)
    ensures forall i, j :: 0 <= i < j < |printed| ==>
      var a, b := printed[i], printed[j];
      || a.payload.group < b.payload.group
      || (a.payload.group == b.payload.group && a.payload.priority < b.payload.priority)
      || (a.payload.group == b.payload.group && a.payload.priority == b.payload.priority && a.id < b.id)
  {
    hide *;
    printed := ListRules(port, groups);
    WantedAny(Items(port.spine), groups, printed);
    SortedMeans(printed);
  }

  lemma SortedMeans(printed: seq<Item<Rule>>)
    requires Sorted(printed)
    ensures forall i, j :: 0 <= i < j < |printed| ==>
      var a, b := printed[i], printed[j];
      || a.payload.group < b.payload.group
      || (a.payload.group == b.payload.group && a.payload.priority < b.payload.priority)
      || (a.payload.group == b.payload.group && a.payload.priority == b.payload.priority && a.id < b.id)
  {
  }

  method ListRules(port: Port<Rule>, groups: seq<nat>) returns (printed: seq<Item<Rule>>)
    requires port.Valid()
    modifies port.spine`tmp
    ensures port.Valid() && Items(port.spine) == old(Items(port.spine))
    ensures Sorted(printed) && multiset(printed) == multiset(InGroups(Items(port.spine), groups))
  {
    hide ListedSoFar, Descending, Items;
    var list: Node?<Rule>, pf := null, port.head;
    ghost var out, k: nat := [], 0;
    NoneYet(port, groups);
    while pf != null
      invariant port.Valid() && Items(port.spine) == old(Items(port.spine)) && k <= |port.spine|
      invariant pf == if k < |port.spine| then port.spine[k] else null
      invariant ListedSoFar(list, out, port, k, groups)
      decreases |port.spine| - k
    {
      list, out := ListRound(list, pf, groups, out, port, k);
      assert port.spine[k].next == if k + 1 < |port.spine| then port.spine[k + 1] else null;
      pf, k := pf.next, k + 1;
    }
    AllListed(list, out, port, groups);
    printed := Walk(list, out);
  }

  lemma {:induction false} WantedHas(items: seq<Item<Rule>>, groups: seq<nat>, it: Item<Rule>)
    ensures it in InGroups(items, groups) <==> it in items && (groups == [] || it.payload.group in groups)
  {
    if items != [] {
      WantedHas(items[..|items| - 1], groups, it);
      assert items == items[..|items| - 1] + [items[|items| - 1]];
    }
  }

  lemma WantedAny(items: seq<Item<Rule>>, groups: seq<nat>, printed: seq<Item<Rule>>)
    requires multiset(printed) == multiset(InGroups(items, groups))
    ensures forall it :: it in printed <==> it in items && (groups == [] || it.payload.group in groups)
  {
    hide InGroups;
    forall it
      ensures it in printed <==> it in items && (groups == [] || it.payload.group in groups)
    {
      WantedHas(items, groups, it);
      assert it in printed <==> it in multiset(printed);
      assert it in InGroups(items, groups) <==> it in multiset(InGroups(items, groups));
    }
  }

  lemma NoneYet(port: Port<Rule>, groups: seq<nat>)
    ensures ListedSoFar(null, [], port, 0, groups)
  {
  }

  lemma AllListed(first: Node?<Rule>, out: seq<Node<Rule>>, port: Port<Rule>, groups: seq<nat>)
    requires ListedSoFar(first, out, port, |port.spine|, groups)
    ensures TmpLinked(first, out) && Sorted(Items(out))
    ensures multiset(Items(out)) == multiset(InGroups(Items(port.spine), groups))
  {
    TakeAll(Items(port.spine));
  }

  lemma InGroupsStep(was: seq<Item<Rule>>, k: nat, groups: seq<nat>)
    requires k < |was|
    ensures InGroups(was[..k + 1], groups)
         == InGroups(was[..k], groups) + if groups == [] || was[k].payload.group in groups then [was[k]] else []
  {
    assert was[..k + 1][..k] == was[..k];
  }

  lemma NextBelow(spine: seq<Node<Rule>>, k: nat)
    requires Descending(spine) && k + 1 < |spine|
    ensures spine[k].id > spine[k + 1].id
  {
  }

  /** The printing loop. */
  method Walk(first: Node?<Rule>, ghost out: seq<Node<Rule>>) returns (printed: seq<Item<Rule>>)
    requires TmpLinked(first, out)
    ensures printed == Items(out)
  {
    printed := [];
    var pf := first;
    ghost var k: nat := 0;
    while pf != null
      invariant k <= |out| && pf == (if k < |out| then out[k] else null) && printed == Items(out)[..k]
      decreases |out| - k
    {
      assert out[k].tmp == if k + 1 < |out| then out[k + 1] else null;
      printed := printed + [Item(pf.id, pf.payload)];
      pf, k := pf.tmp, k + 1;
    }
  }
}
