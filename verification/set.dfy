/** The chained hash set of project4/set.c: an array of `length` deques from
    project4/list.c, where an element lives in the deque at index
    `hash(elt) % length`. The ghost `buckets` holds each deque's items. */
module ChainedSet {
  import opened Wrappers
  import opened Deque

  /** AVG_LENGTH: the intended average number of elements per bucket. */
  const AvgLength: nat := 20

  /** The buckets' items, in bucket order, each front to back. */
  ghost function Flatten<T>(bs: seq<seq<T>>): seq<T> {
    if bs == [] then [] else Flatten(bs[..|bs| - 1]) + bs[|bs| - 1]
  }

  /** Replacing one bucket replaces exactly its elements in the whole:
      what the new bucket adds is what the old one took away. */
  lemma {:induction false} FlattenUpdate<T>(bs: seq<seq<T>>, h: nat, b: seq<T>)
    requires h < |bs|
    ensures multiset(Flatten(bs[h := b])) + multiset(bs[h]) == multiset(Flatten(bs)) + multiset(b)
    decreases |bs|
  {
    var n := |bs| - 1;
    var front := bs[..n];
    if h < n {
      assert bs[h := b][..n] == front[h := b] && bs[h := b][n] == bs[n];
      FlattenUpdate(front, h, b);
      assert multiset(Flatten(bs[h := b])) == multiset(Flatten(front[h := b])) + multiset(bs[n]);
      assert multiset(Flatten(bs)) == multiset(Flatten(front)) + multiset(bs[n]);
      MultisetShuffle(multiset(Flatten(front[h := b])), multiset(bs[h]),
                      multiset(Flatten(front)), multiset(b), multiset(bs[n]));
    } else {
      assert bs[h := b][..n] == front && bs[h := b][n] == b;
      assert multiset(Flatten(bs[h := b])) == multiset(Flatten(front)) + multiset(b);
      assert multiset(Flatten(bs)) == multiset(Flatten(front)) + multiset(bs[n]);
    }
  }

  lemma MultisetShuffle<T>(a: multiset<T>, b: multiset<T>, c: multiset<T>, d: multiset<T>, e: multiset<T>)
    requires a + b == c + d
    ensures a + e + b == c + e + d
  {
    forall x ensures (a + e + b)[x] == (c + e + d)[x] {
      assert (a + b)[x] == (c + d)[x];
    }
  }

  /** Replacing one bucket changes the total size by the change in its size. */
  lemma {:induction false} FlattenUpdateSize<T>(bs: seq<seq<T>>, h: nat, b: seq<T>)
    requires h < |bs|
    ensures |Flatten(bs[h := b])| + |bs[h]| == |Flatten(bs)| + |b|
    decreases |bs|
  {
    var n := |bs| - 1;
    if h < n {
      assert bs[h := b][..n] == bs[..n][h := b];
      FlattenUpdateSize(bs[..n], h, b);
    } else {
      assert bs[h := b][..n] == bs[..n];
    }
  }

  /** The first `i` buckets hold no more elements than all of them. */
  lemma {:induction false} FlattenPrefix<T>(bs: seq<seq<T>>, i: nat)
    requires i <= |bs|
    ensures |Flatten(bs[..i])| <= |Flatten(bs)|
    decreases |bs|
  {
    if i < |bs| {
      var n := |bs| - 1;
      assert bs[..i] == bs[..n][..i];
      FlattenPrefix(bs[..n], i);
    } else {
      assert bs[..i] == bs;
    }
  }

  /** Within a bucket, no element matches an earlier one under `compare`,
      the condition addElement's `findItem` check keeps. */
  ghost predicate NoRepeats<T>(b: seq<T>, compare: (T, T) -> int) {
    forall a, c :: 0 <= a < c < |b| ==> compare(b[c], b[a]) != 0
  }

  /** Every element of bucket `i` hashes to `i`. */
  ghost predicate Placed<T>(b: seq<T>, i: nat, hash: T -> nat, length: nat)
    requires length > 0
  {
    forall k :: 0 <= k < |b| ==> hash(b[k]) % length == i
  }

  /** addElement on one bucket: `elt` goes to the front unless an element
      already matches it. */
  function Added<T>(b: seq<T>, elt: T, compare: (T, T) -> int): seq<T> {
    if FirstMatch(b, elt, compare) < |b| then b else [elt] + b
  }

  lemma AddedKeeps<T>(b: seq<T>, elt: T, compare: (T, T) -> int, i: nat, hash: T -> nat, length: nat)
    requires length > 0 && NoRepeats(b, compare) && Placed(b, i, hash, length) && hash(elt) % length == i
    ensures NoRepeats(Added(b, elt, compare), compare) && Placed(Added(b, elt, compare), i, hash, length)
  {
    var b' := Added(b, elt, compare);
    if FirstMatch(b, elt, compare) == |b| {
      forall a, c | 0 <= a < c < |b'| ensures compare(b'[c], b'[a]) != 0 {
        assert b'[c] == b[c - 1];
        if a > 0 {
          assert b'[a] == b[a - 1];
        }
      }
    }
  }

  lemma RemovedKeeps<T>(b: seq<T>, elt: T, compare: (T, T) -> int, i: nat, hash: T -> nat, length: nat)
    requires length > 0 && NoRepeats(b, compare) && Placed(b, i, hash, length)
    ensures NoRepeats(RemoveFirstMatch(b, elt, compare), compare)
    ensures Placed(RemoveFirstMatch(b, elt, compare), i, hash, length)
  {
    var k := FirstMatch(b, elt, compare);
    if k < |b| {
      var b' := b[..k] + b[k + 1..];
      forall a, c | 0 <= a < c < |b'| ensures compare(b'[c], b'[a]) != 0 {
        assert b'[a] == b[if a < k then a else a + 1] && b'[c] == b[if c < k then c else c + 1];
      }
      forall x | x in b' ensures x in b {
        var j :| 0 <= j < |b'| && b'[j] == x;
        assert b'[j] == b[if j < k then j else j + 1];
      }
    }
  }

  /** The buckets after addElement's insertion into bucket `h`: one more
      element, and bucket `h` still satisfies the invariant. */
  lemma AddStep<T>(bs: seq<seq<T>>, h: nat, elt: T, compare: (T, T) -> int, hash: T -> nat, bs': seq<seq<T>>)
    requires h < |bs| && hash(elt) % |bs| == h && FirstMatch(bs[h], elt, compare) == |bs[h]|
    requires NoRepeats(bs[h], compare) && Placed(bs[h], h, hash, |bs|)
    requires bs' == bs[h := [elt] + bs[h]]
    ensures |Flatten(bs')| == |Flatten(bs)| + 1
    ensures NoRepeats(bs'[h], compare) && Placed(bs'[h], h, hash, |bs|)
  {
    AddedKeeps(bs[h], elt, compare, h, hash, |bs|);
    FlattenUpdateSize(bs, h, [elt] + bs[h]);
  }

  /** The buckets after removeElement's removal from bucket `h`: one fewer
      element, and bucket `h` still satisfies the invariant. */
  lemma RemoveStep<T>(bs: seq<seq<T>>, h: nat, elt: T, compare: (T, T) -> int, hash: T -> nat, bs': seq<seq<T>>)
    requires h < |bs| && FirstMatch(bs[h], elt, compare) < |bs[h]|
    requires NoRepeats(bs[h], compare) && Placed(bs[h], h, hash, |bs|)
    requires bs' == bs[h := RemoveFirstMatch(bs[h], elt, compare)]
    ensures |Flatten(bs')| == |Flatten(bs)| - 1
    ensures NoRepeats(bs'[h], compare) && Placed(bs'[h], h, hash, |bs|)
  {
    RemovedKeeps(bs[h], elt, compare, h, hash, |bs|);
    FlattenUpdateSize(bs, h, RemoveFirstMatch(bs[h], elt, compare));
  }

  /** addElement on the whole set: the elements gain `elt` exactly when its
      bucket holds no match for it, and nothing else changes. */
  lemma AddedElements<T>(bs: seq<seq<T>>, h: nat, elt: T, compare: (T, T) -> int)
    requires h < |bs|
    ensures multiset(Flatten(bs[h := Added(bs[h], elt, compare)])) ==
      if FirstMatch(bs[h], elt, compare) < |bs[h]| then multiset(Flatten(bs))
      else multiset(Flatten(bs)) + multiset{elt}
  {
    var b := Added(bs[h], elt, compare);
    if FirstMatch(bs[h], elt, compare) < |bs[h]| {
      assert bs[h := b] == bs;
    } else {
      FlattenUpdate(bs, h, b);
      Rebalance(multiset(Flatten(bs[h := b])), multiset(bs[h]), multiset(Flatten(bs)), multiset(b), multiset{elt});
    }
  }

  /** removeElement on the whole set: when `elt`'s bucket holds a match, the
      elements lose exactly that first match, and nothing else changes. */
  lemma RemovedElements<T>(bs: seq<seq<T>>, h: nat, elt: T, compare: (T, T) -> int)
    requires h < |bs|
    ensures var i := FirstMatch(bs[h], elt, compare);
      if i < |bs[h]| then multiset(Flatten(bs[h := RemoveFirstMatch(bs[h], elt, compare)])) + multiset{bs[h][i]} == multiset(Flatten(bs))
      else bs[h := RemoveFirstMatch(bs[h], elt, compare)] == bs
  {
    var s := bs[h];
    var i := FirstMatch(s, elt, compare);
    if i < |s| {
      var b := s[..i] + s[i + 1..];
      assert RemoveFirstMatch(s, elt, compare) == b;
      assert multiset(Flatten(bs[h := b])) + multiset{s[i]} == multiset(Flatten(bs)) by {
        FlattenUpdate(bs, h, b);
        RemoveAtCount(s, i);
        Unbalance(multiset(Flatten(bs[h := b])), multiset(s), multiset(Flatten(bs)), multiset(b), multiset{s[i]});
      }
    }
  }

  /** Cancelling `b` from `f' + b == f + b2` when `b2` is `b` plus `x`. */
  lemma Rebalance<T>(f': multiset<T>, b: multiset<T>, f: multiset<T>, b2: multiset<T>, x: multiset<T>)
    requires f' + b == f + b2 && b2 == x + b
    ensures f' == f + x
  {
    forall y ensures f'[y] == (f + x)[y] {
      assert (f' + b)[y] == (f + b2)[y];
    }
  }

  /** Cancelling `b2` from `f' + b == f + b2` when `b` is `b2` plus `x`. */
  lemma Unbalance<T>(f': multiset<T>, b: multiset<T>, f: multiset<T>, b2: multiset<T>, x: multiset<T>)
    requires f' + b == f + b2 && b == b2 + x
    ensures f' + x == f
  {
    forall y ensures (f' + x)[y] == f[y] {
      assert (f' + b)[y] == (f + b2)[y];
    }
  }

  /** Adding an element twice is adding it once, for a comparator that
      finds every element equal to itself. */
  lemma AddTwice<T>(b: seq<T>, elt: T, compare: (T, T) -> int)
    requires compare(elt, elt) == 0
    ensures Added(Added(b, elt, compare), elt, compare) == Added(b, elt, compare)
  {
    if FirstMatch(b, elt, compare) == |b| {
      assert FirstMatch([elt] + b, elt, compare) == 0;
    }
  }

  /** Removing a freshly added element gives the bucket back. */
  lemma AddThenRemove<T>(b: seq<T>, elt: T, compare: (T, T) -> int)
    requires compare(elt, elt) == 0 && FirstMatch(b, elt, compare) == |b|
    ensures RemoveFirstMatch(Added(b, elt, compare), elt, compare) == b
  {
    assert FirstMatch([elt] + b, elt, compare) == 0;
    assert ([elt] + b)[1..] == b;
  }

  /** Deque `l` is bucket `i` of `length`: valid, with comparator
      `compare`, holding `b`, whose elements hash to `i` and none of which
      matches an earlier one. */
  ghost predicate Bucket<T(0)>(l: List<T>, b: seq<T>, compare: (T, T) -> int, hash: T -> nat, i: nat, length: nat)
    reads l, l.Repr
  {
    && l in l.Repr && l.Valid() && l.compare == compare && l.items == b
    && length > 0 && NoRepeats(b, compare) && Placed(b, i, hash, length)
  }

  /** The deques of `lists` hold the buckets `bs`: each deque is bucket
      `i` of `bs`, owns its nodes inside `R` (which never holds the array
      itself), and no two deques share a node. */
  ghost predicate Chains<T(0)>(lists: array<List?<T>>, bs: seq<seq<T>>, compare: (T, T) -> int, hash: T -> nat, R: set<object>)
    reads lists, R
  {
    && |bs| == lists.Length
    && (forall i :: 0 <= i < lists.Length ==>
          lists[i] != null && lists[i] in R && lists[i].Repr <= R && lists !in lists[i].Repr)
    && (forall i {:trigger Bucket(lists[i], bs[i], compare, hash, i, lists.Length)} ::
          0 <= i < lists.Length ==> Bucket(lists[i], bs[i], compare, hash, i, lists.Length))
    && (forall i, j :: 0 <= i < j < lists.Length ==> lists[i].Repr !! lists[j].Repr)
  }

  /** What `Chains` says about bucket `i`. */
  lemma ChainFacts<T(0)>(lists: array<List?<T>>, bs: seq<seq<T>>, compare: (T, T) -> int, hash: T -> nat, R: set<object>, i: nat)
    requires Chains(lists, bs, compare, hash, R) && i < lists.Length
    ensures lists[i] != null && lists[i] in R && lists[i].Repr <= R && lists !in lists[i].Repr
    ensures lists[i].Valid() && lists[i].compare == compare && lists[i].items == bs[i]
    ensures NoRepeats(bs[i], compare) && Placed(bs[i], i, hash, lists.Length)
    ensures forall j :: 0 <= j < lists.Length && j != i ==> lists[j] != null && lists[j].Repr !! lists[i].Repr
  {
    assert Bucket(lists[i], bs[i], compare, hash, i, lists.Length);
    forall j | 0 <= j < lists.Length && j != i ensures lists[j] != null && lists[j].Repr !! lists[i].Repr {
      if j < i {
        assert lists[j].Repr !! lists[i].Repr;
      } else {
        assert lists[i].Repr !! lists[j].Repr;
      }
    }
  }

  /** addElement's `addFirst` on bucket `index`, which holds no match for `elt`. */
  method AddFront<T(0)>(lists: array<List?<T>>, index: nat, elt: T,
                        ghost bs: seq<seq<T>>, ghost compare: (T, T) -> int, ghost hash: T -> nat, ghost R: set<object>)
    requires Chains(lists, bs, compare, hash, R) && index < lists.Length
    requires hash(elt) % lists.Length == index && FirstMatch(bs[index], elt, compare) == |bs[index]|
    modifies lists[index].Repr
    ensures Chains(lists, bs[index := [elt] + bs[index]], compare, hash, R + lists[index].Repr)
    ensures fresh(lists[index].Repr - R)
  {
    ChainFacts(lists, bs, compare, hash, R, index);
    var bs' := bs[index := [elt] + bs[index]];
    AddedKeeps(bs[index], elt, compare, index, hash, lists.Length);
    lists[index].AddFirst(elt);
    assert Bucket(lists[index], bs'[index], compare, hash, index, lists.Length);
    forall j | 0 <= j < lists.Length && j != index
      ensures lists[j].Repr == old(lists[j].Repr) && Bucket(lists[j], bs'[j], compare, hash, j, lists.Length)
    {
      assert old(Bucket(lists[j], bs[j], compare, hash, j, lists.Length));
    }
    forall i, j | 0 <= i < j < lists.Length ensures lists[i].Repr !! lists[j].Repr {
      assert old(lists[i].Repr !! lists[j].Repr);
    }
  }

  /** removeElement's `removeItem` on bucket `index`, which holds a match for `elt`. */
  method RemoveFrom<T(0)>(lists: array<List?<T>>, index: nat, elt: T,
                          ghost bs: seq<seq<T>>, ghost compare: (T, T) -> int, ghost hash: T -> nat, ghost R: set<object>)
    requires Chains(lists, bs, compare, hash, R) && index < lists.Length
    requires FirstMatch(bs[index], elt, compare) < |bs[index]|
    modifies lists[index].Repr
    ensures Chains(lists, bs[index := RemoveFirstMatch(bs[index], elt, compare)], compare, hash, R)
  {
    ChainFacts(lists, bs, compare, hash, R, index);
    var bs' := bs[index := RemoveFirstMatch(bs[index], elt, compare)];
    RemovedKeeps(bs[index], elt, compare, index, hash, lists.Length);
    lists[index].RemoveItem(elt);
    assert Bucket(lists[index], bs'[index], compare, hash, index, lists.Length);
    forall j | 0 <= j < lists.Length && j != index
      ensures lists[j].Repr == old(lists[j].Repr) && Bucket(lists[j], bs'[j], compare, hash, j, lists.Length)
    {
      assert old(Bucket(lists[j], bs[j], compare, hash, j, lists.Length));
    }
    forall i, j | 0 <= i < j < lists.Length ensures lists[i].Repr !! lists[j].Repr {
      assert old(lists[i].Repr !! lists[j].Repr);
    }
  }

  class Set<T(0)> {
    var count: nat
    const lists: array<List?<T>>
    const compare: (T, T) -> int
    const hash: T -> nat
    ghost var buckets: seq<seq<T>>
    ghost var Repr: set<object>

    ghost predicate Valid()
      reads this, Repr
    {
      && this in Repr && lists in Repr
      && Chains(lists, buckets, compare, hash, Repr - {this})
      && count == |Flatten(buckets)|
    }

    /** What `Valid` says about bucket `i`. */
    lemma BucketFacts(i: nat)
      requires Valid() && i < lists.Length
      ensures lists[i] != null && lists[i] in Repr && lists[i].Repr <= Repr && this !in lists[i].Repr
      ensures lists[i].Valid() && lists[i].compare == compare && lists[i].items == buckets[i]
      ensures NoRepeats(buckets[i], compare) && Placed(buckets[i], i, hash, lists.Length)
    {
      ChainFacts(lists, buckets, compare, hash, Repr - {this}, i);
    }

    /** The elements, bucket by bucket. */
    ghost function Elements(): seq<T>
      reads this
    {
      Flatten(buckets)
    }

    /** createSet: `maxElts / 20` empty buckets. */
    constructor (maxElts: nat, compare: (T, T) -> int, hash: T -> nat)
      ensures Valid() && fresh(Repr)
      ensures lists.Length == maxElts / AvgLength && count == 0
      ensures this.compare == compare && this.hash == hash
      ensures forall i :: 0 <= i < |buckets| ==> buckets[i] == []
    {
      var length := maxElts / AvgLength;
      var ls, R := NewLists(length, compare, hash);
      lists := ls;
      this.compare := compare;
      this.hash := hash;
      count := 0;
      buckets := seq(length, _ => []);
      new;
      Repr := R + {this};
      FlattenEmpty(buckets);
    }

    /** numElements. */
    function NumElements(): (n: nat)
      reads this, Repr
      requires Valid()
      ensures n == |Elements()|
    {
      count
    }

    /** addElement: when `findItem` finds no match in `elt`'s bucket, `elt`
        goes to the front of that bucket and the count grows by one. */
    method AddElement(elt: T)
      requires Valid() && lists.Length > 0
      modifies Repr
      ensures Valid() && fresh(Repr - old(Repr))
      ensures var h := hash(elt) % lists.Length;
        buckets == old(buckets)[h := Added(old(buckets)[h], elt, compare)]
    {
      var index := hash(elt) % lists.Length;
      BucketFacts(index);
      var found := lists[index].FindItem(elt);
      if found == None {
        Insert(index, elt);
      }
    }

    /** The branch of addElement that finds no match: `addFirst` on the
        bucket, then one more element. */
    method Insert(index: nat, elt: T)
      requires Valid() && index < lists.Length && hash(elt) % lists.Length == index
      requires FirstMatch(buckets[index], elt, compare) == |buckets[index]|
      modifies Repr
      ensures Valid() && fresh(Repr - old(Repr))
      ensures buckets == old(buckets)[index := [elt] + old(buckets)[index]]
    {
      BucketFacts(index);
      ghost var bs := buckets;
      AddStep(bs, index, elt, compare, hash, bs[index := [elt] + bs[index]]);
      ghost var R := Repr - {this};
      AddFront(lists, index, elt, bs, compare, hash, R);
      count := count + 1;
      buckets, Repr := bs[index := [elt] + bs[index]], R + lists[index].Repr + {this};
      assert Repr - {this} == R + lists[index].Repr;
    }

    /** removeElement: when `findItem` finds a match in `elt`'s bucket,
        `removeItem` takes the first match out and the count drops by one. */
    method RemoveElement(elt: T)
      requires Valid() && lists.Length > 0
      modifies Repr
      ensures Valid() && Repr == old(Repr)
      ensures var h := hash(elt) % lists.Length;
        buckets == old(buckets)[h := RemoveFirstMatch(old(buckets)[h], elt, compare)]
    {
      var index := hash(elt) % lists.Length;
      BucketFacts(index);
      var found := lists[index].FindItem(elt);
      if found != None {
        Delete(index, elt);
      }
    }

    /** The branch of removeElement that finds a match: `removeItem` on the
        bucket, then one element fewer. */
    method Delete(index: nat, elt: T)
      requires Valid() && index < lists.Length
      requires FirstMatch(buckets[index], elt, compare) < |buckets[index]|
      modifies Repr
      ensures Valid() && Repr == old(Repr)
      ensures buckets == old(buckets)[index := RemoveFirstMatch(old(buckets)[index], elt, compare)]
    {
      BucketFacts(index);
      ghost var bs := buckets;
      ghost var b := RemoveFirstMatch(bs[index], elt, compare);
      RemoveStep(bs, index, elt, compare, hash, bs[index := b]);
      RemoveFrom(lists, index, elt, bs, compare, hash, Repr - {this});
      count := count - 1;
      buckets := bs[index := b];
    }

    /** findElement: `findItem` on `elt`'s bucket. */
    method FindElement(elt: T) returns (r: Option<T>)
      requires Valid() && lists.Length > 0
      ensures var b := buckets[hash(elt) % lists.Length]; var i := FirstMatch(b, elt, compare);
        r == if i < |b| then Some(b[i]) else None
    {
      var index := hash(elt) % lists.Length;
      BucketFacts(index);
      r := lists[index].FindItem(elt);
    }

    /** getElements: each bucket's `getItems` copied in turn into one new
        array of `count` entries. */
    method GetElements() returns (arr: array<T>)
      requires Valid()
      ensures fresh(arr) && arr[..] == Elements()
    {
      arr := new T[count];
      var copied := 0;
      for i := 0 to lists.Length
        invariant copied == |Flatten(buckets[..i])| <= arr.Length
        invariant arr[..copied] == Flatten(buckets[..i])
      {
        BucketFacts(i);
        var items := lists[i].GetItems();
        FlattenPrefix(buckets, i + 1);
        assert buckets[..i + 1][..i] == buckets[..i];
        copied := CopyInto(arr, copied, items, lists[i].NumItems());
      }
      assert buckets[..lists.Length] == buckets;
    }
  }

  /** The loop of createSet: `length` new empty deques, each with its own nodes. */
  method NewLists<T(0)>(length: nat, compare: (T, T) -> int, hash: T -> nat) returns (lists: array<List?<T>>, ghost R: set<object>)
    ensures fresh(lists) && fresh(R) && lists.Length == length && lists in R
    ensures Chains(lists, seq(length, _ => []), compare, hash, R)
  {
    lists := new List?<T>[length];
    R := {lists};
    for i := 0 to length
      invariant fresh(R) && lists in R
      invariant forall k :: 0 <= k < i ==>
        && lists[k] != null && lists[k] in R && lists[k].Repr <= R && lists !in lists[k].Repr
        && lists[k].Valid() && lists[k].compare == compare && lists[k].items == []
      invariant forall k, l :: 0 <= k < l < i ==> lists[k].Repr !! lists[l].Repr
    {
      var list := new List(compare);
      assert list.Repr !! R;
      lists[i] := list;
      R := R + list.Repr;
    }
    ghost var bs: seq<seq<T>> := seq(length, _ => []);
    forall i | 0 <= i < length ensures Bucket(lists[i], bs[i], compare, hash, i, length) {
      assert bs[i] == [];
    }
  }

  /** The inner loop of getElements: the first `n` entries of `items` go to
      `arr` from index `start` on. */
  method CopyInto<T>(arr: array<T>, start: nat, items: array<T>, n: nat) returns (copied: nat)
    requires start + n <= arr.Length && n <= items.Length && arr != items
    modifies arr
    ensures copied == start + n
    ensures arr[..copied] == old(arr[..start]) + items[..n]
  {
    copied := start;
    for j := 0 to n
      invariant copied == start + j
      invariant arr[..copied] == old(arr[..start]) + items[..j]
    {
      arr[copied] := items[j];
      copied := copied + 1;
    }
  }

  lemma {:induction false} FlattenEmpty<T>(bs: seq<seq<T>>)
    requires forall i :: 0 <= i < |bs| ==> bs[i] == []
    ensures Flatten(bs) == []
    decreases |bs|
  {
    if bs != [] {
      FlattenEmpty(bs[..|bs| - 1]);
    }
  }
}
