/** The intrusive circular list of include/lib/list.h.  A list is its head followed by its items; every
    operation is shown to do to that sequence what its name says. */
module LinkedListModule {

  class ListHead {
    var prev: ListHead?
    var next: ListHead?

    constructor ()
      ensures prev == null && next == null
    {
      prev, next := null, null;
    }
  }

  /** The places after and before place `i` in a ring of `n`. */
  ghost function After(i: nat, n: nat): nat {
    if i + 1 < n then i + 1 else 0
  }

  ghost function Before(i: nat, n: nat): nat {
    if i > 0 then i - 1 else if n > 0 then n - 1 else 0
  }

  /** The nodes are linked into one ring in this order, in both directions. */
  ghost predicate Ring(nodes: seq<ListHead>)
    reads nodes
  {
    && |nodes| > 0
    && Distinct(nodes)
    && (forall i :: 0 <= i < |nodes| ==> nodes[i].next == nodes[After(i, |nodes|)])
    && (forall i :: 0 <= i < |nodes| ==> nodes[i].prev == nodes[Before(i, |nodes|)])
  }

  ghost predicate Distinct(nodes: seq<ListHead>) {
    forall i, j :: 0 <= i < j < |nodes| ==> nodes[i] != nodes[j]
  }

  /** Linked to itself: an empty list, or an item that is in no list. */
  ghost predicate SelfLinked(item: ListHead)
    reads item
  {
    item.prev == item && item.next == item
  }

  /** `list_inithead`. */
  method InitHead(item: ListHead)
    modifies item
    ensures Ring([item]) && SelfLinked(item)
  {
    item.prev := item;
    item.next := item;
  }

  /** `list_add`: the item becomes the first one. */
  method Add(item: ListHead, list: ListHead, ghost items: seq<ListHead>)
    requires Ring([list] + items) && item !in [list] + items
    modifies item, list, items
    ensures Ring([list] + ([item] + items))
  {
    ghost var was := [list] + items;
    assert list == was[0] && list.next == was[if |was| > 1 then 1 else 0];
    item.prev := list;
    item.next := list.next;
    list.next.prev := item;
    list.next := item;
    ghost var now := [list] + ([item] + items);
    assert now[0] == list && now[1] == item && forall i :: 2 <= i < |now| ==> now[i] == was[i - 1];
  }

  /** `list_addtail`: the item becomes the last one. */
  method AddTail(item: ListHead, list: ListHead, ghost items: seq<ListHead>)
    requires Ring([list] + items) && item !in [list] + items
    modifies item, list, items
    ensures Ring([list] + (items + [item]))
  {
    ghost var was := [list] + items;
    assert list == was[0] && list.prev == was[|was| - 1];
    item.next := list;
    item.prev := list.prev;
    list.prev.next := item;
    list.prev := item;
    ghost var now := [list] + (items + [item]);
    assert now[|was|] == item && forall i :: 0 <= i < |was| ==> now[i] == was[i];
  }

  /** The ring without its `k`-th node. */
  ghost function Without(nodes: seq<ListHead>, k: nat): seq<ListHead>
    requires k < |nodes|
  {
    nodes[..k] + nodes[k + 1..]
  }

  /** A ring except that the neighbours of the `k`-th node are linked to each other. */
  ghost predicate BridgedOver(nodes: seq<ListHead>, k: nat)
    requires k < |nodes|
    reads nodes
  {
    var n := |nodes|;
    && Distinct(nodes)
    && (forall i: nat :: i < n && i != k ==>
          nodes[i].next == nodes[if After(i, n) == k then After(k, n) else After(i, n)])
    && (forall i: nat :: i < n && i != k ==>
          nodes[i].prev == nodes[if Before(i, n) == k then Before(k, n) else Before(i, n)])
  }

  lemma BridgeClosesRing(nodes: seq<ListHead>, k: nat)
    requires |nodes| > 1 && k < |nodes| && BridgedOver(nodes, k)
    ensures Ring(Without(nodes, k)) && nodes[k] !in Without(nodes, k)
  {
    var now, n := Without(nodes, k), |nodes|;
    forall i | 0 <= i < n - 1
      ensures now[i].next == now[After(i, n - 1)] && now[i].prev == now[Before(i, n - 1)]
    {
      var j := if i < k then i else i + 1;
      assert now[i] == nodes[j] && j != k;
    }
  }

  lemma Neighbours(k: nat, n: nat)
    requires k < n
    ensures forall i: nat :: i < n ==> (After(i, n) == k <==> i == Before(k, n))
    ensures forall i: nat :: i < n ==> (Before(i, n) == k <==> i == After(k, n))
  {
  }

  /** Linking the neighbours of a node to each other takes it out of the ring. */
  method Unlink(item: ListHead, ghost nodes: seq<ListHead>, ghost k: nat)
    requires Ring(nodes) && k < |nodes| && nodes[k] == item
    modifies nodes
    ensures item.prev == old(item.prev) && item.next == old(item.next)
    ensures BridgedOver(nodes, k)
  {
    ghost var n := |nodes|;
    assert item.prev == nodes[Before(k, n)] && item.next == nodes[After(k, n)];
    Neighbours(k, n);
    item.prev.next := item.next;
    item.next.prev := item.prev;
  }

  /** The last step of taking an item out: what its own links become. */
  method SetLinks(item: ListHead, link: ListHead?, ghost nodes: seq<ListHead>, ghost k: nat)
    requires k < |nodes| && nodes[k] == item && BridgedOver(nodes, k)
    modifies item
    ensures item.prev == link && item.next == link
    ensures |nodes| > 1 ==> Ring(Without(nodes, k))
  {
    item.prev := link;
    item.next := link;
    if |nodes| > 1 {
      BridgeClosesRing(nodes, k);
    }
  }

  /** `list_del`: the item is out, and its own links are NULL. */
  method Del(item: ListHead, ghost nodes: seq<ListHead>, ghost k: nat)
    requires Ring(nodes) && k < |nodes| && nodes[k] == item
    modifies nodes
    ensures item.prev == null && item.next == null
    ensures |nodes| > 1 ==> Ring(Without(nodes, k))
  {
    Unlink(item, nodes, k);
    SetLinks(item, null, nodes, k);
  }

  /** `list_delinit`: the item is out, and linked to itself. */
  method DelInit(item: ListHead, ghost nodes: seq<ListHead>, ghost k: nat)
    requires Ring(nodes) && k < |nodes| && nodes[k] == item
    modifies nodes
    ensures SelfLinked(item) && Ring([item])
    ensures |nodes| > 1 ==> Ring(Without(nodes, k))
  {
    Unlink(item, nodes, k);
    SetLinks(item, item, nodes, k);
  }

  /** A second `list_delinit` on the same item changes nothing anywhere. */
  method DelInitTwice(item: ListHead)
    requires SelfLinked(item)
    modifies item
    ensures SelfLinked(item)
  {
    DelInit(item, [item], 0);
  }

  /** `list_empty`. */
  method Empty(list: ListHead, ghost items: seq<ListHead>) returns (r: bool)
    requires Ring([list] + items)
    ensures r <==> items == []
  {
    ghost var nodes := [list] + items;
    assert nodes[0] == list;
    assert items != [] ==> list.next == nodes[1] != nodes[0];
    r := list.next == list;
  }

  /** `list_is_singular`: true for one item, as documented, but also for none. */
  method IsSingular(list: ListHead, ghost items: seq<ListHead>) returns (r: bool)
    requires Ring([list] + items)
    ensures r <==> |items| <= 1
  {
    ghost var nodes := [list] + items;
    assert nodes[0] == list;
    assert |items| > 0 ==> list.next == nodes[1];
    assert |items| > 1 ==> nodes[1].next == nodes[2] != nodes[0];
    r := list.next != null && list.next.next == list;
  }

  /** `list_length`. */
  method Length(list: ListHead, ghost items: seq<ListHead>) returns (length: nat)
    requires Ring([list] + items)
    ensures length == |items|
  {
    ghost var nodes := [list] + items;
    assert nodes[0] == list;
    var node := list.next;
    length := 0;
    while node != list
      invariant 0 <= length <= |items|
      invariant node == nodes[if length < |items| then length + 1 else 0]
      decreases |items| - length
    {
      node := node.next;
      length := length + 1;
    }
  }

  /** `list_validate`: on a well-formed list every assertion it makes holds. */
  lemma PrevAndNextAreInverse(nodes: seq<ListHead>, k: nat)
    requires Ring(nodes) && k < |nodes|
    ensures nodes[k].next != null && nodes[k].prev != null
    ensures nodes[k].next.prev == nodes[k] && nodes[k].prev.next == nodes[k]
  {
    var n := |nodes|;
    var i, j := if k + 1 < n then k + 1 else 0, if k > 0 then k - 1 else n - 1;
    assert nodes[k].next == nodes[i] && nodes[k].prev == nodes[j];
    assert nodes[i].prev == nodes[if i > 0 then i - 1 else n - 1];
    assert nodes[j].next == nodes[if j + 1 < n then j + 1 else 0];
  }

  /** The links determine the whole sequence: two rings with the same head are the same. */
  lemma {:induction false} RingIsUnique(a: seq<ListHead>, b: seq<ListHead>)
    requires Ring(a) && Ring(b) && a[0] == b[0]
    ensures a == b
  {
    if |a| <= |b| {
      SameUpTo(a, b, |a|);
    } else {
      SameUpTo(b, a, |b|);
    }
  }

  lemma {:induction false} SameUpTo(a: seq<ListHead>, b: seq<ListHead>, n: nat)
    requires Ring(a) && Ring(b) && a[0] == b[0] && |a| <= |b| && n <= |a|
    ensures a[..n] == b[..n]
    ensures n == |a| ==> |a| == |b|
  {
    if n > 0 {
      SameUpTo(a, b, n - 1);
      if n > 1 {
        assert a[n - 2] == a[..n - 1][n - 2] == b[..n - 1][n - 2] == b[n - 2];
        assert a[n - 2].next == a[n - 1] && b[n - 2].next == b[n - 1];
      }
      assert a[n - 1] == b[n - 1];
      assert a[n - 1].next == a[if n < |a| then n else 0] && b[n - 1].next == b[if n < |b| then n else 0];
    }
  }
}
