/** The singly linked registries of config.c, edited through a pointer to the link: indirect actions
    and flow rules share the shape and the destroy loop. */
module Registry {
  import opened Common

  const UINT32_MAX := 0xFFFF_FFFF

  class Node<T> {
    const id: nat
    var payload: T
    var next: Node?<T>
    var tmp: Node?<T>  // second link, used while listing

    constructor (id: nat, payload: T)
      ensures this.id == id && this.payload == payload && next == null && tmp == null
    {
      this.id, this.payload, next, tmp := id, payload, null, null;
    }
  }

  /** `spine` is what following `next` from `first` visits. */
  ghost predicate Linked<T>(first: Node?<T>, spine: seq<Node<T>>)
    reads spine
  {
    && first == (if spine == [] then null else spine[0])
    && forall i {:trigger spine[i].next} :: 0 <= i < |spine| ==>
      spine[i].next == if i + 1 < |spine| then spine[i + 1] else null
  }

  /** Newest id first; in particular no id, and no node, occurs twice. */
  ghost predicate Descending<T>(spine: seq<Node<T>>) {
    forall i, j :: 0 <= i < j < |spine| ==> spine[i].id > spine[j].id
  }

  function With<A>(s: seq<A>, k: nat, x: A): seq<A>
    requires k <= |s|
  {
    s[..k] + [x] + s[k..]
  }

  function Without<A>(s: seq<A>, k: nat): seq<A>
    requires k < |s|
  {
    s[..k] + s[k + 1..]
  }

  lemma DescendingWith<T>(s: seq<Node<T>>, k: nat, n: Node<T>)
    requires Descending(s) && k <= |s|
    requires forall i :: 0 <= i < k ==> s[i].id > n.id
    requires forall i :: k <= i < |s| ==> n.id > s[i].id
    ensures Descending(With(s, k, n))
  {
  }

  lemma DescendingWithout<T>(s: seq<Node<T>>, k: nat)
    requires Descending(s) && k < |s|
    ensures Descending(Without(s, k))
  {
  }

  lemma SameNode<T>(s: seq<Node<T>>, i: nat, j: nat)
    requires Descending(s) && i < |s| && j < |s| && s[i] == s[j]
    ensures i == j
  {
  }

  datatype Item<T> = Item(id: nat, payload: T)

  /** The list as values. */
  ghost function Items<T>(spine: seq<Node<T>>): (r: seq<Item<T>>)
    reads spine
    ensures |r| == |spine| && forall i :: 0 <= i < |r| ==> r[i] == Item(spine[i].id, spine[i].payload)
  {
    seq(|spine|, i requires 0 <= i < |spine| reads spine => Item(spine[i].id, spine[i].payload))
  }

  /** Whether a destroy request removes an entry: `drop(id, payload, i)` is the outcome of the attempt
      made for the request's i-th id. */
  predicate Removed<T>(it: Item<T>, ids: seq<nat>, drop: (nat, T, nat) -> bool) {
    exists i :: 0 <= i < |ids| && ids[i] == it.id && drop(it.id, it.payload, i)
  }

  /** Whether some attempt at an entry fails: the attempts end with the first success. */
  predicate Refused<T>(it: Item<T>, ids: seq<nat>, drop: (nat, T, nat) -> bool) {
    exists i :: 0 <= i < |ids| && ids[i] == it.id && !drop(it.id, it.payload, i)
      && !Removed(it, ids[..i], drop)
  }

  /** Where an id is listed first. */
  function FirstOf(ids: seq<nat>, id: nat): (i: nat)
    requires id in ids
    ensures i < |ids| && ids[i] == id && forall j :: 0 <= j < i ==> ids[j] != id
  {
    if ids[0] == id then 0 else 1 + FirstOf(ids[1..], id)
  }

  /** As the attempts end with the first success, one fails exactly if the first one does. */
  lemma FirstDecides<T>(it: Item<T>, ids: seq<nat>, drop: (nat, T, nat) -> bool)
    ensures Refused(it, ids, drop) <==> it.id in ids && !drop(it.id, it.payload, FirstOf(ids, it.id))
  {
    if it.id in ids {
      var first := FirstOf(ids, it.id);
      assert !Removed(it, ids[..first], drop);
      forall i | first < i < |ids| && drop(it.id, it.payload, first)
        ensures Removed(it, ids[..i], drop)
      {
        assert ids[..i][first] == it.id;
      }
    }
  }

  predicate AnyRefused<T>(items: seq<Item<T>>, ids: seq<nat>, drop: (nat, T, nat) -> bool) {
    exists k :: 0 <= k < |items| && Refused(items[k], ids, drop)
  }

  lemma AnyMeans<T>(items: seq<Item<T>>, ids: seq<nat>, drop: (nat, T, nat) -> bool)
    ensures AnyRefused(items, ids, drop) <==> exists it :: it in items && Refused(it, ids, drop)
  {
    hide Refused;
  }

  lemma AnyRefusedStep<T>(items: seq<Item<T>>, j: nat, ids: seq<nat>, drop: (nat, T, nat) -> bool)
    requires j < |items|
    ensures AnyRefused(items[..j + 1], ids, drop) <==>
      AnyRefused(items[..j], ids, drop) || Refused(items[j], ids, drop)
  {
    hide Refused;
    assert items[..j + 1] == items[..j] + [items[j]];
    if AnyRefused(items[..j], ids, drop) {
      var k :| 0 <= k < |items[..j]| && Refused(items[..j][k], ids, drop);
      assert items[..j + 1][k] == items[..j][k];
    }
    assert items[..j + 1][j] == items[j];
  }

  lemma NoneRefused<T>(items: seq<Item<T>>, ids: seq<nat>, drop: (nat, T, nat) -> bool)
    ensures !AnyRefused(items[..0], ids, drop) && items[..|items|] == items
  {
  }

  lemma RemovedStep<T>(it: Item<T>, ids: seq<nat>, i: nat, drop: (nat, T, nat) -> bool)
    requires i < |ids|
    ensures Removed(it, ids[..i + 1], drop) <==>
      Removed(it, ids[..i], drop) || (ids[i] == it.id && drop(it.id, it.payload, i))
  {
    if Removed(it, ids[..i], drop) {
      var k :| 0 <= k < |ids[..i]| && ids[..i][k] == it.id && drop(it.id, it.payload, k);
      assert ids[..i + 1][k] == it.id;
    }
    if ids[i] == it.id && drop(it.id, it.payload, i) {
      assert ids[..i + 1][i] == it.id;
    }
    assert forall k :: 0 <= k < i ==> ids[..i + 1][k] == ids[..i][k];
  }

  /** What a destroy request leaves, in the old order. */
  function Kept<T>(items: seq<Item<T>>, ids: seq<nat>, drop: (nat, T, nat) -> bool): seq<Item<T>> {
    if items == [] then []
    else
      var init, last := items[..|items| - 1], items[|items| - 1];
      Kept(init, ids, drop) + if Removed(last, ids, drop) then [] else [last]
  }

  class Port<T> {
    var head: Node?<T>
    ghost var spine: seq<Node<T>>

    ghost predicate Valid()
      reads this, spine
    {
      Linked(head, spine) && Descending(spine) && forall n :: n in spine ==> n.id <= UINT32_MAX
    }

    constructor ()
      ensures Valid() && spine == []
    {
      head, spine := null, [];
    }

    /** *link = pia, pia->next = old *link, where the link is that of `prev` (or of the port). */
    method LinkIn(prev: Node?<T>, n: Node<T>, ghost k: nat)
      requires Valid() && k <= |spine| && n !in spine && n.id <= UINT32_MAX
      requires prev == if k == 0 then null else spine[k - 1]
      requires forall i :: 0 <= i < k ==> spine[i].id > n.id
      requires forall i :: k <= i < |spine| ==> n.id > spine[i].id
      modifies this, prev, n`next
      ensures Valid() && spine == old(With(spine, k, n))
      ensures forall m :: m in spine ==> m.payload == old(m.payload)
    {
      hide Descending;
      ghost var was := spine;
      DescendingWith(was, k, n);
      n.next := if prev == null then head else prev.next;
      if prev == null {
        head := n;
      } else {
        prev.next := n;
      }
      spine := With(was, k, n);
      forall i | 0 <= i < |was| && prev == was[i]
        ensures i == k - 1
      {
        SameNode(was, i, k - 1);
      }
    }

    /** LinkIn, seen on the values. */
    method Insert(prev: Node?<T>, n: Node<T>, ghost k: nat)
      requires Valid() && k <= |spine| && n !in spine && n.id <= UINT32_MAX
      requires prev == if k == 0 then null else spine[k - 1]
      requires forall i :: 0 <= i < k ==> spine[i].id > n.id
      requires forall i :: k <= i < |spine| ==> n.id > spine[i].id
      modifies this, prev, n`next
      ensures Valid() && n in spine && forall m :: m in spine ==> m == n || m in old(spine)
      ensures Items(spine) == old(With(Items(spine), k, Item(n.id, n.payload)))
      ensures n.payload == old(n.payload)
    {
      hide Items, Descending;
      ghost var s, was := spine, Items(spine);
      HoldsBoth(s, k, n);
      LinkIn(prev, n, k);
      ItemsWith(s, k, n, was);
    }

    method SetPayload(n: Node<T>, x: T, ghost k: nat)
      requires Valid() && k < |spine| && n == spine[k]
      modifies n`payload
      ensures Valid() && Items(spine) == old(Items(spine)[k := Item(n.id, x)])
    {
      n.payload := x;
      assert forall i :: 0 <= i < |spine| && spine[i] == n ==> i == k;
    }

    /** *link = node->next. */
    method Unlink(prev: Node?<T>, n: Node<T>, ghost k: nat)
      requires Valid() && k < |spine| && n == spine[k]
      requires prev == if k == 0 then null else spine[k - 1]
      modifies this, prev
      ensures Valid() && spine == old(Without(spine, k))
      ensures forall m :: m in spine ==> m in old(spine) && m.payload == old(m.payload)
    {
      hide Descending;
      ghost var was := spine;
      DescendingWithout(was, k);
      if prev == null {
        head := n.next;
      } else {
        prev.next := n.next;
      }
      spine := Without(was, k);
      forall i | 0 <= i < |was| && prev == was[i]
        ensures i == k - 1
      {
        SameNode(was, i, k - 1);
      }
    }

    /** Unlink, seen on the values, and what the link of `prev` then is. */
    method Drop(prev: Node?<T>, n: Node<T>, ghost k: nat) returns (cur: Node?<T>)
      requires Valid() && k < |spine| && n == spine[k]
      requires prev == if k == 0 then null else spine[k - 1]
      modifies this, prev
      ensures Valid() && |spine| == old(|spine|) - 1 && forall m :: m in spine ==> m in old(spine)
      ensures Items(spine) == old(Without(Items(spine), k))
      ensures prev == (if k == 0 then null else spine[k - 1]) && cur == if k < |spine| then spine[k] else null
    {
      hide Items, Descending;
      ghost var s, was := spine, Items(spine);
      Unlink(prev, n, k);
      assert forall i :: 0 <= i < |s| && i != k ==> s[i] in spine by { KeepsOthers(s, k); }
      ItemsWithout(s, k, was);
      assert k > 0 ==> spine[k - 1] == prev && spine[k - 1].next == if k < |spine| then spine[k] else null;
      cur := if prev == null then head else prev.next;
    }

    /** The inner loop of the destroy functions: the attempts on one node, up to the first success. */
    method TryDestroy(n: Node<T>, ids: seq<nat>, drop: (nat, T, nat) -> bool) returns (gone: bool, refused: bool)
      ensures gone == Removed(Item(n.id, n.payload), ids, drop)
      ensures refused == Refused(Item(n.id, n.payload), ids, drop)
    {
      ghost var it := Item(n.id, n.payload);
      var i := 0;
      refused := false;
      while i != |ids|
        invariant 0 <= i <= |ids|
        invariant forall j :: 0 <= j <= i ==> !Removed(it, ids[..j], drop)
        invariant refused <==> exists j :: 0 <= j < i && ids[j] == n.id
      {
        RemovedStep(it, ids, i, drop);
        if ids[i] == n.id {
          if drop(n.id, n.payload, i) {
            StopsAt(it, ids, i, drop);
            return true, refused;
          }
          refused := true;
        }
        i := i + 1;
      }
      assert ids[..i] == ids;
      NeverStops(it, ids, drop);
      return false, refused;
    }

    /** The destroy loop: exactly the listed entries for which some attempt succeeds go, the others
        stay as they are, in their order; told apart is whether any attempt failed. */
    method Destroy(ids: seq<nat>, drop: (nat, T, nat) -> bool) returns (refused: bool)
      requires Valid()
      modifies this, spine
      ensures Valid() && Items(spine) == Kept(old(Items(spine)), ids, drop)
      ensures refused == AnyRefused(old(Items(spine)), ids, drop)
      ensures forall n :: n in spine ==> n in old(spine)
    {
      hide Removed, Refused, AnyRefused, Kept, Items, Descending, Without, Partial;
      ghost var was, nodes := Items(spine), spine;
      var prev: Node?<T>, cur := null, head;
      ghost var k: nat, j: nat := 0, 0;
      PartialStart(was, ids, drop);
      NoneRefused(was, ids, drop);
      refused := false;
      while cur != null
        invariant Valid() && k <= |spine|
        invariant cur == (if k < |spine| then spine[k] else null)
        invariant prev == (if k == 0 then null else spine[k - 1])
        invariant Partial(Items(spine), k, was, j, ids, drop)
        invariant j <= |was| && refused == AnyRefused(was[..j], ids, drop)
        invariant forall n :: n in spine ==> n in nodes
        decreases |spine| - k
      {
        PartialStep(Items(spine), k, was, j, ids, drop);
        AnyRefusedStep(was, j, ids, drop);
        var gone, failed := TryDestroy(cur, ids, drop);
        refused := refused || failed;
        if gone {
          assert k > 0 ==> spine[k - 1] in spine;
          cur := Drop(prev, cur, k);
        } else {
          assert spine[k].next == if k + 1 < |spine| then spine[k + 1] else null;
          prev, cur := cur, cur.next;
          k := k + 1;
        }
        j := j + 1;
      }
      PartialEnd(Items(spine), k, was, j, ids, drop);
    }
  }

  lemma StopsAt<T>(it: Item<T>, ids: seq<nat>, i: nat, drop: (nat, T, nat) -> bool)
    requires i < |ids| && ids[i] == it.id && drop(it.id, it.payload, i)
    requires forall j :: 0 <= j <= i ==> !Removed(it, ids[..j], drop)
    ensures Removed(it, ids, drop)
    ensures Refused(it, ids, drop) <==> exists j :: 0 <= j < i && ids[j] == it.id
  {
    forall j | 0 <= j < i && ids[j] == it.id
      ensures !drop(it.id, it.payload, j)
    {
      RemovedStep(it, ids, j, drop);
    }
    forall j | i < j < |ids|
      ensures Removed(it, ids[..j], drop)
    {
      assert ids[..j][i] == it.id;
    }
  }

  lemma NeverStops<T>(it: Item<T>, ids: seq<nat>, drop: (nat, T, nat) -> bool)
    requires forall j :: 0 <= j <= |ids| ==> !Removed(it, ids[..j], drop)
    ensures !Removed(it, ids, drop)
    ensures Refused(it, ids, drop) <==> exists j :: 0 <= j < |ids| && ids[j] == it.id
  {
    assert ids[..|ids|] == ids;
    forall j | 0 <= j < |ids| && ids[j] == it.id
      ensures !drop(it.id, it.payload, j)
    {
      RemovedStep(it, ids, j, drop);
    }
  }

  /** Midway through a destroy request: of the old list `was`, the first `j` entries are dealt with
      and left the first `k` of the present list, the rest is as it was. */
  ghost predicate Partial<T>(items: seq<Item<T>>, k: nat, was: seq<Item<T>>, j: nat,
                             ids: seq<nat>, drop: (nat, T, nat) -> bool)
  {
    && k <= |items| && j <= |was| && items[k..] == was[j..]
    && items[..k] == Kept(was[..j], ids, drop)
  }

  lemma PartialStart<T>(was: seq<Item<T>>, ids: seq<nat>, drop: (nat, T, nat) -> bool)
    ensures Partial(was, 0, was, 0, ids, drop)
  {
    assert was[..0] == [];
  }

  lemma PartialStep<T>(items: seq<Item<T>>, k: nat, was: seq<Item<T>>, j: nat,
                       ids: seq<nat>, drop: (nat, T, nat) -> bool)
    requires Partial(items, k, was, j, ids, drop) && k < |items|
    ensures j < |was| && items[k] == was[j]
    ensures if Removed(items[k], ids, drop) then Partial(Without(items, k), k, was, j + 1, ids, drop)
            else Partial(items, k + 1, was, j + 1, ids, drop)
  {
    hide Kept, Removed;
    assert |items[k..]| == |was[j..]|;
    KeptStep(was, j, ids, drop);
    HeadOf(items, k, was, j);
    DropAt(items, k);
  }

  lemma PartialEnd<T>(items: seq<Item<T>>, k: nat, was: seq<Item<T>>, j: nat,
                      ids: seq<nat>, drop: (nat, T, nat) -> bool)
    requires Partial(items, k, was, j, ids, drop) && k == |items|
    ensures items == Kept(was, ids, drop) && j == |was|
  {
    hide Kept;
    assert |items[k..]| == |was[j..]|;
    assert items[..k] == items && was[..j] == was;
  }

  lemma ItemsWithout<T>(s: seq<Node<T>>, k: nat, was: seq<Item<T>>)
    requires k < |s| == |was| && forall i :: 0 <= i < |s| && i != k ==> was[i] == Item(s[i].id, s[i].payload)
    ensures Items(Without(s, k)) == Without(was, k)
  {
  }

  lemma ItemsWith<T>(s: seq<Node<T>>, k: nat, n: Node<T>, was: seq<Item<T>>)
    requires k <= |s| == |was| && forall i :: 0 <= i < |s| ==> was[i] == Item(s[i].id, s[i].payload)
    ensures Items(With(s, k, n)) == With(was, k, Item(n.id, n.payload))
  {
  }

  lemma HoldsBoth<T>(s: seq<Node<T>>, k: nat, n: Node<T>)
    requires k <= |s|
    ensures forall m :: m in With(s, k, n) <==> m == n || m in s
  {
    forall m | m in s
      ensures m in With(s, k, n)
    {
      var i :| 0 <= i < |s| && s[i] == m;
      assert With(s, k, n)[if i < k then i else i + 1] == m;
    }
    assert With(s, k, n)[k] == n;
  }

  lemma KeepsOthers<T>(s: seq<Node<T>>, k: nat)
    requires k < |s|
    ensures forall i :: 0 <= i < |s| && i != k ==> s[i] in Without(s, k)
  {
    forall i | 0 <= i < |s| && i != k
      ensures s[i] in Without(s, k)
    {
      assert Without(s, k)[if i < k then i else i - 1] == s[i];
    }
  }

  /** The entries left are those of the old list that no attempt removed. */
  lemma {:induction false} KeptMeaning<T>(items: seq<Item<T>>, ids: seq<nat>, drop: (nat, T, nat) -> bool)
    ensures forall it :: it in Kept(items, ids, drop) <==> it in items && !Removed(it, ids, drop)
  {
    if items != [] {
      var init, last := items[..|items| - 1], items[|items| - 1];
      KeptMeaning(init, ids, drop);
      assert items == init + [last];
    }
  }

  lemma KeptAt<T>(items: seq<Item<T>>, ids: seq<nat>, drop: (nat, T, nat) -> bool, it: Item<T>)
    ensures it in Kept(items, ids, drop) <==> it in items && !Removed(it, ids, drop)
  {
    hide Kept, Removed;
    KeptMeaning(items, ids, drop);
  }

  lemma KeptStep<T>(was: seq<Item<T>>, j: nat, ids: seq<nat>, drop: (nat, T, nat) -> bool)
    requires j < |was|
    ensures Kept(was[..j + 1], ids, drop) ==
      Kept(was[..j], ids, drop) + if Removed(was[j], ids, drop) then [] else [was[j]]
  {
    assert was[..j + 1][..j] == was[..j];
  }

  lemma HeadOf<T>(items: seq<Item<T>>, k: nat, was: seq<Item<T>>, j: nat)
    requires k < |items| && j < |was| && items[k..] == was[j..]
    ensures items[k] == was[j] && items[k + 1..] == was[j + 1..] && items[..k + 1] == items[..k] + [was[j]]
  {
    assert items[k..][0] == was[j..][0] && items[k..][1..] == items[k + 1..] && was[j..][1..] == was[j + 1..];
  }

  lemma DropAt<T>(items: seq<Item<T>>, k: nat)
    requires k < |items|
    ensures |Without(items, k)| == |items| - 1
    ensures Without(items, k)[..k] == items[..k] && Without(items, k)[k..] == items[k + 1..]
  {
  }
}
