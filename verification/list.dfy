/** The circular doubly-linked deque of project4/list.c. A dummy `head`
    node closes the ring: `head.next` is the first node and `head.prev` the
    last. The ghost `ring` lists the nodes starting at `head`, and `items`
    the data they carry, front to back. */
module Deque {
  import opened Wrappers

  /** The index of the first element that `compare` finds equal to `x`, or
      `|s|` when there is none. */
  function FirstMatch<T>(s: seq<T>, x: T, compare: (T, T) -> int): (i: nat)
    ensures i <= |s|
    ensures forall k :: 0 <= k < i ==> compare(s[k], x) != 0
    ensures i < |s| ==> compare(s[i], x) == 0
  {
    if s == [] then 0
    else if compare(s[0], x) == 0 then 0
    else 1 + FirstMatch(s[1..], x, compare)
  }

  /** `s` without its first match for `x`, unchanged when nothing matches. */
  function RemoveFirstMatch<T>(s: seq<T>, x: T, compare: (T, T) -> int): seq<T> {
    var i := FirstMatch(s, x, compare);
    if i < |s| then s[..i] + s[i + 1..] else s
  }

  /** Dropping the entry at `i` removes exactly one occurrence of it. */
  lemma RemoveAtCount<T>(s: seq<T>, i: nat)
    requires i < |s|
    ensures multiset(s[..i] + s[i + 1..]) + multiset{s[i]} == multiset(s)
  {
    assert s == s[..i] + [s[i]] + s[i + 1..];
  }

  /** The first match is the only element removal takes out. */
  lemma RemoveFirstMatchCount<T>(s: seq<T>, x: T, compare: (T, T) -> int)
    ensures var i := FirstMatch(s, x, compare);
      && |RemoveFirstMatch(s, x, compare)| == (if i < |s| then |s| - 1 else |s|)
      && if i < |s| then multiset(RemoveFirstMatch(s, x, compare)) + multiset{s[i]} == multiset(s)
         else RemoveFirstMatch(s, x, compare) == s
  {
    var i := FirstMatch(s, x, compare);
    if i < |s| {
      RemoveAtCount(s, i);
    }
  }

  class Node<T(0)> {
    const data: T
    var next: Node?<T>
    var prev: Node?<T>

    constructor (data: T)
      ensures this.data == data && next == null && prev == null
    {
      this.data := data;
      next := null;
      prev := null;
    }

    /** The dummy node, whose data nobody reads. */
    constructor Dummy()
      ensures next == null && prev == null
    {
      next := null;
      prev := null;
    }
  }

  /** The nodes of `ring` form a cycle in `ring` order through `next`, and
      the reverse cycle through `prev`. */
  ghost predicate Linked<T(0)>(ring: seq<Node<T>>)
    reads ring
  {
    && |ring| > 0
    && (forall i :: 0 <= i < |ring| - 1 ==> ring[i].next == ring[i + 1] && ring[i + 1].prev == ring[i])
    && ring[|ring| - 1].next == ring[0] && ring[0].prev == ring[|ring| - 1]
  }

  /** No node occurs twice in `ring`. */
  ghost predicate Distinct<T(0)>(ring: seq<Node<T>>) {
    forall i, j :: 0 <= i < j < |ring| ==> ring[i] != ring[j]
  }

  /** The position after `p` in a ring of `n` positions. */
  function Succ(n: nat, p: nat): nat {
    if p + 1 < n then p + 1 else 0
  }

  /** The position before `p` in a ring of `n > 0` positions. */
  function Pred(n: nat, p: nat): nat
    requires 0 < n
  {
    if p == 0 then n - 1 else p - 1
  }

  /** Splicing `node` in after position `p` of a linked ring: when `r[p]`
      and its old successor point at `node` and `node` points back at them,
      and every other node still links to its ring neighbours, the longer
      ring is linked. */
  lemma InsertLinked<T(0)>(r: seq<Node<T>>, p: nat, node: Node<T>)
    requires p < |r|
    requires r[p].next == node && node.prev == r[p]
    requires node.next == r[Succ(|r|, p)] && r[Succ(|r|, p)].prev == node
    requires forall k {:trigger r[k].next} :: 0 <= k < |r| && k != p ==> r[k].next == r[Succ(|r|, k)]
    requires forall k {:trigger r[k].prev} :: 0 <= k < |r| && k != Succ(|r|, p) ==> r[k].prev == r[Pred(|r|, k)]
    ensures Linked(r[..p + 1] + [node] + r[p + 1..])
  {
    var s := r[..p + 1] + [node] + r[p + 1..];
    forall i | 0 <= i < |s| - 1 ensures s[i].next == s[i + 1] && s[i + 1].prev == s[i] {
      InsertLinkedAt(r, p, node, i);
    }
    InsertIndex(r, p, node, |r|);
    InsertIndex(r, p, node, 0);
    if p + 1 < |r| {
      assert r[|r| - 1].next == r[Succ(|r|, |r| - 1)];
      assert r[0].prev == r[Pred(|r|, 0)];
    }
  }

  /** Where the entries of the longer ring come from. */
  lemma InsertIndex<T(0)>(r: seq<Node<T>>, p: nat, node: Node<T>, i: nat)
    requires p < |r| && i <= |r|
    ensures |r[..p + 1] + [node] + r[p + 1..]| == |r| + 1
    ensures (r[..p + 1] + [node] + r[p + 1..])[i] == if i <= p then r[i] else if i == p + 1 then node else r[i - 1]
  {
  }

  /** One link of the longer ring. */
  lemma InsertLinkedAt<T(0)>(r: seq<Node<T>>, p: nat, node: Node<T>, i: nat)
    requires p < |r| && i < |r|
    requires r[p].next == node && node.prev == r[p]
    requires node.next == r[Succ(|r|, p)] && r[Succ(|r|, p)].prev == node
    requires forall k {:trigger r[k].next} :: 0 <= k < |r| && k != p ==> r[k].next == r[Succ(|r|, k)]
    requires forall k {:trigger r[k].prev} :: 0 <= k < |r| && k != Succ(|r|, p) ==> r[k].prev == r[Pred(|r|, k)]
    ensures var s := r[..p + 1] + [node] + r[p + 1..]; s[i].next == s[i + 1] && s[i + 1].prev == s[i]
  {
    InsertIndex(r, p, node, i);
    InsertIndex(r, p, node, i + 1);
    if i < p {
      assert r[i].next == r[Succ(|r|, i)];
      assert r[i + 1].prev == r[Pred(|r|, i + 1)];
    } else if i > p + 1 {
      assert r[i - 1].next == r[Succ(|r|, i - 1)];
      assert r[i].prev == r[Pred(|r|, i)];
    }
  }

  /** Unlinking the node at position `p > 0`: when its neighbours point at
      each other and every other node still links to its ring neighbours,
      the shorter ring is linked. */
  lemma UnlinkLinked<T(0)>(r: seq<Node<T>>, p: nat)
    requires 0 < p < |r|
    requires r[p - 1].next == r[Succ(|r|, p)] && r[Succ(|r|, p)].prev == r[p - 1]
    requires forall k {:trigger r[k].next} :: 0 <= k < |r| && k != p - 1 ==> r[k].next == r[Succ(|r|, k)]
    requires forall k {:trigger r[k].prev} :: 0 <= k < |r| && k != Succ(|r|, p) ==> r[k].prev == r[Pred(|r|, k)]
    ensures Linked(r[..p] + r[p + 1..])
  {
    var s := r[..p] + r[p + 1..];
    forall i | 0 <= i < |s| - 1 ensures s[i].next == s[i + 1] && s[i + 1].prev == s[i] {
      UnlinkLinkedAt(r, p, i);
    }
    UnlinkIndex(r, p, |r| - 2);
    UnlinkIndex(r, p, 0);
    if p + 1 < |r| {
      assert r[|r| - 1].next == r[Succ(|r|, |r| - 1)];
      assert r[0].prev == r[Pred(|r|, 0)];
    }
  }

  /** Where the entries of the shorter ring come from. */
  lemma UnlinkIndex<T(0)>(r: seq<Node<T>>, p: nat, i: nat)
    requires p < |r| && i < |r| - 1
    ensures |r[..p] + r[p + 1..]| == |r| - 1
    ensures (r[..p] + r[p + 1..])[i] == if i < p then r[i] else r[i + 1]
  {
  }

  /** One link of the shorter ring. */
  lemma UnlinkLinkedAt<T(0)>(r: seq<Node<T>>, p: nat, i: nat)
    requires 0 < p < |r| && i < |r| - 2
    requires r[p - 1].next == r[Succ(|r|, p)] && r[Succ(|r|, p)].prev == r[p - 1]
    requires forall k {:trigger r[k].next} :: 0 <= k < |r| && k != p - 1 ==> r[k].next == r[Succ(|r|, k)]
    requires forall k {:trigger r[k].prev} :: 0 <= k < |r| && k != Succ(|r|, p) ==> r[k].prev == r[Pred(|r|, k)]
    ensures var s := r[..p] + r[p + 1..]; s[i].next == s[i + 1] && s[i + 1].prev == s[i]
  {
    UnlinkIndex(r, p, i);
    UnlinkIndex(r, p, i + 1);
    if i < p - 1 {
      assert r[i].next == r[Succ(|r|, i)];
      assert r[i + 1].prev == r[Pred(|r|, i + 1)];
    } else if i >= p {
      assert r[i + 1].next == r[Succ(|r|, i + 1)];
      assert r[i + 2].prev == r[Pred(|r|, i + 2)];
    }
  }

  lemma InsertDistinct<T(0)>(r: seq<Node<T>>, p: nat, node: Node<T>)
    requires Distinct(r) && p < |r| && node !in r
    ensures Distinct(r[..p + 1] + [node] + r[p + 1..])
  {
    var s := r[..p + 1] + [node] + r[p + 1..];
    forall i, j | 0 <= i < j < |s| ensures s[i] != s[j] {
      var i', j' := if i <= p then i else i - 1, if j <= p then j else j - 1;
      if i != p + 1 && j != p + 1 {
        assert s[i] == r[i'] && s[j] == r[j'];
      } else if i == p + 1 {
        assert s[j] == r[j'];
      } else {
        assert s[i] == r[i'];
      }
    }
  }

  lemma UnlinkDistinct<T(0)>(r: seq<Node<T>>, p: nat)
    requires Distinct(r) && p < |r|
    ensures Distinct(r[..p] + r[p + 1..])
  {
    var s := r[..p] + r[p + 1..];
    forall i, j | 0 <= i < j < |s| ensures s[i] != s[j] {
      assert s[i] == r[if i < p then i else i + 1] && s[j] == r[if j < p then j else j + 1];
    }
  }

  /** The nodes after the dummy at `ring[0]` carry `items`, in order. */
  ghost predicate Carries<T(0)>(ring: seq<Node<T>>, items: seq<T>) {
    |ring| == |items| + 1 && forall i :: 0 <= i < |items| ==> ring[i + 1].data == items[i]
  }

  lemma InsertCarries<T(0)>(r: seq<Node<T>>, s: seq<T>, p: nat, node: Node<T>)
    requires Carries(r, s) && p < |r|
    ensures Carries(r[..p + 1] + [node] + r[p + 1..], s[..p] + [node.data] + s[p..])
  {
    var r', s' := r[..p + 1] + [node] + r[p + 1..], s[..p] + [node.data] + s[p..];
    forall i | 0 <= i < |s'| ensures r'[i + 1].data == s'[i] {
      if i < p {
        assert r'[i + 1] == r[i + 1] && s'[i] == s[i];
      } else if i > p {
        assert r'[i + 1] == r[i] && s'[i] == s[i - 1];
      }
    }
  }

  lemma UnlinkCarries<T(0)>(r: seq<Node<T>>, s: seq<T>, p: nat)
    requires Carries(r, s) && 0 < p < |r|
    ensures Carries(r[..p] + r[p + 1..], s[..p - 1] + s[p..])
  {
    var r', s' := r[..p] + r[p + 1..], s[..p - 1] + s[p..];
    forall i | 0 <= i < |s'| ensures r'[i + 1].data == s'[i] {
      if i < p - 1 {
        assert r'[i + 1] == r[i + 1] && s'[i] == s[i];
      } else {
        assert r'[i + 1] == r[i + 2] && s'[i] == s[i + 1];
      }
    }
  }

  /** The four stores of addFirst, in their order: `node` goes in between
      `r[p]` and its successor. */
  method InsertAfter<T(0)>(a: Node<T>, node: Node<T>, ghost r: seq<Node<T>>, ghost p: nat, ghost b: Node<T>)
    requires Linked(r) && Distinct(r) && p < |r| && a == r[p] && b == r[Succ(|r|, p)] && node !in r
    modifies a, b, node
    ensures Linked(r[..p + 1] + [node] + r[p + 1..])
  {
    assert a.next == r[Succ(|r|, p)];
    node.next := a.next;
    a.next := node;
    node.prev := a;
    node.next.prev := node;
    InsertLinked(r, p, node);
  }

  /** The four stores of addLast, in their order: `node` goes in between
      the predecessor of `r[Succ(|r|, p)]` and that node. */
  method InsertBefore<T(0)>(b: Node<T>, node: Node<T>, ghost r: seq<Node<T>>, ghost p: nat)
    requires Linked(r) && Distinct(r) && p < |r| && b == r[Succ(|r|, p)] && node !in r
    modifies r[p], b, node
    ensures Linked(r[..p + 1] + [node] + r[p + 1..])
  {
    assert b.prev == r[p];
    node.next := b;
    node.prev := b.prev;
    b.prev := node;
    node.prev.next := node;
    InsertLinked(r, p, node);
  }

  /** The two stores that take `r[p]` out of the ring: its predecessor `a`
      and its successor `b` are linked to each other. */
  method Bypass<T(0)>(a: Node<T>, b: Node<T>, ghost r: seq<Node<T>>, ghost p: nat)
    requires Linked(r) && Distinct(r) && 0 < p < |r| && a == r[p - 1] && b == r[Succ(|r|, p)]
    modifies a, b
    ensures Linked(r[..p] + r[p + 1..])
  {
    a.next := b;
    b.prev := a;
    UnlinkLinked(r, p);
  }

  class List<T(0)> {
    var count: nat
    var head: Node<T>
    const compare: (T, T) -> int
    ghost var ring: seq<Node<T>>
    ghost var items: seq<T>
    ghost var Repr: set<object>

    ghost predicate Valid()
      reads this, Repr
    {
      && this in Repr
      && |ring| > 0 && ring[0] == head && count == |items|
      && (forall i :: 0 <= i < |ring| ==> ring[i] in Repr)
      && Distinct(ring)
      && Linked(ring)
      && Carries(ring, items)
    }

    /** createList: only the dummy node, linked to itself. */
    constructor (compare: (T, T) -> int)
      ensures Valid() && fresh(Repr)
      ensures this.compare == compare && items == []
      ensures head.next == head && head.prev == head
    {
      var h := new Node<T>.Dummy();
      h.next := h;
      h.prev := h;
      count := 0;
      head := h;
      this.compare := compare;
      ring := [h];
      items := [];
      Repr := {this, h};
    }

    /** numItems. */
    function NumItems(): (n: nat)
      reads this, Repr
      requires Valid()
      ensures n == |items|
    {
      count
    }

    /** addFirst: a new node between `head` and the old first node. */
    method AddFirst(item: T)
      requires Valid()
      modifies Repr
      ensures Valid() && fresh(Repr - old(Repr))
      ensures items == [item] + old(items)
    {
      ghost var r := ring;
      ghost var b := head.next;
      assert b == r[Succ(|r|, 0)];
      var node := new Node(item);
      InsertCarries(r, items, 0, node);
      InsertDistinct(r, 0, node);
      assert items[..0] + [item] + items[0..] == [item] + items;
      ring := r[..1] + [node] + r[1..];
      items := [item] + items;
      Repr := Repr + {node};
      forall i | 0 <= i < |ring| ensures ring[i] in Repr {
        InsertIndex(r, 0, node, i);
      }
      InsertAfter(head, node, r, 0, b);
      count := count + 1;
    }

    /** addLast: a new node between the old last node and `head`. */
    method AddLast(item: T)
      requires Valid()
      modifies Repr
      ensures Valid() && fresh(Repr - old(Repr))
      ensures items == old(items) + [item]
    {
      ghost var r := ring;
      var node := new Node(item);
      InsertBefore(head, node, r, |r| - 1);
      count := count + 1;
      ring := r[..|r|] + [node] + r[|r|..];
      InsertCarries(r, items, |r| - 1, node);
      assert items[..|items|] + [item] + items[|items|..] == items + [item];
      items := items + [item];
      Repr := Repr + {node};
      InsertDistinct(r, |r| - 1, node);
    }

    /** removeFirst: unlink the first node and return its data. */
    method RemoveFirst() returns (first: T)
      requires Valid() && count > 0
      modifies Repr
      ensures Valid() && Repr == old(Repr)
      ensures first == old(items)[0] && items == old(items)[1..]
    {
      ghost var r := ring;
      var node := head.next;
      assert node == r[1] && node.next == r[Succ(|r|, 1)];
      first := node.data;
      Bypass(head, node.next, r, 1);
      count := count - 1;
      ring := r[..1] + r[2..];
      UnlinkCarries(r, items, 1);
      assert items[..0] + items[1..] == items[1..];
      items := items[1..];
      UnlinkDistinct(r, 1);
    }

    /** removeLast: unlink the last node and return its data. */
    method RemoveLast() returns (last: T)
      requires Valid() && count > 0
      modifies Repr
      ensures Valid() && Repr == old(Repr)
      ensures last == old(items)[|old(items)| - 1] && items == old(items)[..|old(items)| - 1]
    {
      ghost var r := ring;
      ghost var p := |r| - 1;
      var node := head.prev;
      assert node == r[p] && node.prev == r[p - 1];
      last := node.data;
      Bypass(node.prev, head, r, p);
      count := count - 1;
      ring := r[..p] + r[p + 1..];
      UnlinkCarries(r, items, p);
      assert items[..p - 1] + items[p..] == items[..|items| - 1];
      items := items[..|items| - 1];
      UnlinkDistinct(r, p);
    }

    /** getFirst. */
    function GetFirst(): (first: T)
      reads this, Repr
      requires Valid() && count > 0
      ensures first == items[0]
    {
      assert head.next == ring[1];
      head.next.data
    }

    /** getLast. */
    function GetLast(): (last: T)
      reads this, Repr
      requires Valid() && count > 0
      ensures last == items[|items| - 1]
    {
      assert head.prev == ring[|ring| - 1];
      head.prev.data
    }

    /** removeItem: walk from the front to the first node whose data
        `compare` finds equal to `item` and unlink it; nothing changes when
        no node matches. */
    method RemoveItem(item: T)
      requires Valid() && count > 0
      modifies Repr
      ensures Valid() && Repr == old(Repr)
      ensures items == RemoveFirstMatch(old(items), item, compare)
    {
      var node := head.next;
      var i := 0;
      while i < count && compare(node.data, item) != 0
        invariant 0 <= i <= count
        invariant node == (ring + [head])[i + 1]
        invariant forall k :: 0 <= k < i ==> compare(items[k], item) != 0
      {
        node := node.next;
        i := i + 1;
      }
      if i < count {
        assert node.data == items[i];
        assert FirstMatch(items, item, compare) == i;
        Unlink(node, i + 1);
      } else {
        assert FirstMatch(items, item, compare) == |items|;
      }
    }

    /** The two stores of removeItem that take a matched node out of the
        ring: its neighbours are linked to each other. */
    method Unlink(node: Node<T>, ghost p: nat)
      requires Valid() && 0 < p < |ring| && node == ring[p]
      modifies Repr
      ensures Valid() && Repr == old(Repr)
      ensures ring == old(ring[..p] + ring[p + 1..]) && items == old(items[..p - 1] + items[p..])
    {
      ghost var r := ring;
      assert node.prev == r[p - 1] && node.next == r[Succ(|r|, p)];
      Bypass(node.prev, node.next, r, p);
      count := count - 1;
      ring := r[..p] + r[p + 1..];
      UnlinkCarries(r, items, p);
      items := items[..p - 1] + items[p..];
      UnlinkDistinct(r, p);
    }

    /** findItem: the data of the first node `compare` finds equal to
        `item`, or NULL. */
    method FindItem(item: T) returns (r: Option<T>)
      requires Valid()
      ensures var i := FirstMatch(items, item, compare);
        r == if i < |items| then Some(items[i]) else None
    {
      var node := head.next;
      for i := 0 to count
        invariant node == (ring + [head])[i + 1]
        invariant forall k :: 0 <= k < i ==> compare(items[k], item) != 0
      {
        assert node.data == items[i];
        if compare(node.data, item) == 0 {
          return Some(node.data);
        }
        node := node.next;
      }
      return None;
    }

    /** getItems: a new array of the data, front to back. */
    method GetItems() returns (arr: array<T>)
      requires Valid()
      ensures fresh(arr) && arr[..] == items
    {
      arr := new T[count];
      var node := head.next;
      for i := 0 to count
        invariant node == (ring + [head])[i + 1]
        invariant forall k :: 0 <= k < i ==> arr[k] == items[k]
      {
        arr[i] := node.data;
        node := node.next;
      }
    }

    /** destroyList: remove the last element until none is left. */
    method DestroyList()
      requires Valid()
      modifies Repr
      ensures Valid() && Repr == old(Repr) && items == []
    {
      while count > 0
        invariant Valid() && Repr == old(Repr)
        decreases count
      {
        var _ := RemoveLast();
      }
    }
  }
}
