/** The array-backed binary min-heap of project5/pqueue.c: a priority queue of
    opaque entries ordered by a caller-supplied three-way comparator. */
module PQueue {

  /** Initial capacity of the backing array. */
  const StartLength: nat := 10

  /** C's integer division, which truncates toward zero (Dafny's `/` is
      Euclidean and differs for a negative dividend). */
  function CDiv(a: int, b: int): (q: int)
    requires b == 2
    ensures a >= 0 ==> 0 <= a - q * b < b
    ensures a < 0 ==> -b < a - q * b <= 0
  {
    if a >= 0 then a / b else -((-a) / b)
  }

  /** The index macros `l`, `r` and `p`. `l(x)` is the odd slot after `x`
      whose parent under C's `(x-1)/2` is `x`. */
  function Left(i: nat): (r: nat)
    ensures i < r && r % 2 == 1 && CDiv(r - 1, 2) == i
  {
    2 * i + 1
  }

  /** `r(x)` is the even slot after `x` whose parent under C's `(x-1)/2` is `x`. */
  function Right(i: nat): (r: nat)
    ensures i < r && r % 2 == 0 && CDiv(r - 1, 2) == i
  {
    2 * i + 2
  }

  /** `p(x)` is `(x-1)/2` in C, so `p(0)` is 0, not -1: the root is its own parent. */
  function Parent(i: nat): (r: nat)
    ensures i == 0 ==> r == 0
    ensures i > 0 ==> r < i && (i == Left(r) || i == Right(r))
  {
    CDiv(i - 1, 2)
  }

  /** What the heap relies on of the comparator: a total preorder in three-way
      form. Every entry compares equal to itself (this is what stops the
      sift-up loop at the root), the sign flips when the arguments swap, and
      "compares at most" is transitive. */
  ghost predicate ValidComparator<T(!new)>(compare: (T, T) -> int) {
    && (forall x :: compare(x, x) == 0)
    && (forall x, y :: compare(x, y) < 0 <==> compare(y, x) > 0)
    && (forall x, y, z {:trigger TransitiveAt(compare, x, y, z)} :: TransitiveAt(compare, x, y, z))
  }

  /** Transitivity at one triple. Kept as a named predicate so that the
      transitivity law is applied only where a proof asks for it. */
  ghost predicate TransitiveAt<T>(compare: (T, T) -> int, x: T, y: T, z: T) {
    compare(x, y) <= 0 && compare(y, z) <= 0 ==> compare(x, z) <= 0
  }

  /** The min-heap property: no entry compares less than its parent. */
  ghost predicate IsHeap<T>(s: seq<T>, compare: (T, T) -> int) {
    forall i {:trigger Parent(i)} :: 0 < i < |s| ==> compare(s[i], s[Parent(i)]) >= 0
  }

  /** Sorted in non-decreasing comparator order. */
  ghost predicate Sorted<T>(s: seq<T>, compare: (T, T) -> int) {
    forall i, j :: 0 <= i < j < |s| ==> compare(s[i], s[j]) <= 0
  }

  function Swap<T>(s: seq<T>, i: nat, j: nat): (r: seq<T>)
    requires i < |s| && j < |s|
    ensures |r| == |s| && r[i] == s[j] && r[j] == s[i]
    ensures forall k :: 0 <= k < |s| && k != i && k != j ==> r[k] == s[k]
  {
    s[i := s[j]][j := s[i]]
  }

  /** Swapping two entries does not change the multiset of entries. */
  lemma SwapPermutes<T>(s: seq<T>, i: nat, j: nat)
    requires i < |s| && j < |s|
    ensures multiset(Swap(s, i, j)) == multiset(s)
  {
    if i < j {
      var A, B, C := s[..i], s[i + 1..j], s[j + 1..];
      var x, y := s[i], s[j];
      assert s == A + [x] + B + [y] + C;
      assert Swap(s, i, j) == A + [y] + B + [x] + C;
      calc {
        multiset(s);
        multiset(A + [x] + B + [y] + C);
        multiset(A) + multiset([x]) + multiset(B) + multiset([y]) + multiset(C);
        multiset(A) + multiset([y]) + multiset(B) + multiset([x]) + multiset(C);
        multiset(A + [y] + B + [x] + C);
      }
    } else if j < i {
      assert Swap(s, i, j) == Swap(s, j, i);
      SwapPermutes(s, j, i);
    } else {
      assert Swap(s, i, j) == s;
    }
  }

  /** Sift-up state: the heap property holds everywhere except between the
      moving entry at `k` and its parent, and `k`'s children are no smaller
      than `k`'s parent. */
  ghost predicate HeapExceptUp<T>(s: seq<T>, k: nat, compare: (T, T) -> int) {
    && (forall i {:trigger Parent(i)} :: 0 < i < |s| && i != k ==> compare(s[i], s[Parent(i)]) >= 0)
    && (k > 0 ==> forall i {:trigger Parent(i)} :: 0 < i < |s| && Parent(i) == k ==> compare(s[i], s[Parent(k)]) >= 0)
  }

  /** Sift-down state: the heap property holds everywhere except between the
      moving entry at `k` and its children, and `k`'s children are no smaller
      than `k`'s parent. */
  ghost predicate HeapExceptDown<T>(s: seq<T>, k: nat, compare: (T, T) -> int) {
    && (forall i {:trigger Parent(i)} :: 0 < i < |s| && Parent(i) != k ==> compare(s[i], s[Parent(i)]) >= 0)
    && (k > 0 ==> forall i {:trigger Parent(i)} :: 0 < i < |s| && Parent(i) == k ==> compare(s[i], s[Parent(k)]) >= 0)
  }

  /** The root of a heap compares at most every entry. */
  lemma {:induction false} HeapRootIsMin<T(!new)>(s: seq<T>, compare: (T, T) -> int, i: nat)
    requires ValidComparator(compare) && IsHeap(s, compare) && i < |s|
    ensures compare(s[0], s[i]) <= 0
  {
    if i > 0 {
      var p := Parent(i);
      HeapRootIsMin(s, compare, p);
      assert compare(s[i], s[p]) >= 0;
      assert TransitiveAt(compare, s[0], s[p], s[i]);
    }
  }

  /** Every entry of a heap compares at least its root. */
  lemma HeapRootIsMinAll<T(!new)>(s: seq<T>, compare: (T, T) -> int)
    requires ValidComparator(compare) && IsHeap(s, compare) && |s| > 0
    ensures forall x | x in s :: compare(s[0], x) <= 0
  {
    forall i | 0 <= i < |s| ensures compare(s[0], s[i]) <= 0 {
      HeapRootIsMin(s, compare, i);
    }
  }

  /** Appending an entry to a heap leaves it in sift-up state at the new index. */
  lemma AppendStartsSiftUp<T>(s: seq<T>, x: T, compare: (T, T) -> int)
    requires IsHeap(s, compare)
    ensures HeapExceptUp(s + [x], |s|, compare)
  {
    var t := s + [x];
    forall i | 0 < i < |t| && i != |s| ensures compare(t[i], t[Parent(i)]) >= 0 {
      assert t[i] == s[i] && t[Parent(i)] == s[Parent(i)];
    }
  }

  /** One swap of the sift-up loop keeps the sift-up state, one level higher. */
  lemma SiftUpStep<T(!new)>(s: seq<T>, k: nat, compare: (T, T) -> int)
    requires ValidComparator(compare)
    requires k < |s| && HeapExceptUp(s, k, compare)
    requires compare(s[k], s[Parent(k)]) < 0
    ensures k > 0
    ensures HeapExceptUp(Swap(s, k, Parent(k)), Parent(k), compare)
  {
    var p := Parent(k);
    var t := Swap(s, k, p);
    var x, y := s[k], s[p];
    forall i | 0 < i < |t| && i != p ensures compare(t[i], t[Parent(i)]) >= 0 {
      if i == k {
      } else if Parent(i) == k {
        assert compare(s[i], y) >= 0;
      } else if Parent(i) == p {
        assert compare(s[i], y) >= 0;
        assert TransitiveAt(compare, x, y, s[i]);
      } else {
        assert t[i] == s[i] && t[Parent(i)] == s[Parent(i)];
      }
    }
    if p > 0 {
      var g := Parent(p);
      forall i | 0 < i < |t| && Parent(i) == p ensures compare(t[i], t[g]) >= 0 {
        assert compare(y, s[g]) >= 0;
        if i != k {
          assert compare(s[i], y) >= 0;
          assert TransitiveAt(compare, s[g], y, s[i]);
        }
      }
    }
  }

  /** Sift-up stops in a heap: at the root, or once the entry is no smaller than its parent. */
  lemma SiftUpDone<T>(s: seq<T>, k: nat, compare: (T, T) -> int)
    requires k < |s| && HeapExceptUp(s, k, compare)
    requires compare(s[k], s[Parent(k)]) >= 0
    ensures IsHeap(s, compare)
  {
  }

  /** `c` is a child of `k` that compares at most every child of `k`. */
  ghost predicate SmallestChild<T>(s: seq<T>, k: nat, c: nat, compare: (T, T) -> int) {
    && (c == Left(k) || c == Right(k)) && c < |s|
    && forall j :: 0 < j < |s| && Parent(j) == k ==> compare(s[c], s[j]) <= 0
  }

  /** One swap of the sift-down loop keeps the sift-down state, one level lower. */
  lemma SiftDownStep<T(!new)>(s: seq<T>, k: nat, c: nat, compare: (T, T) -> int)
    requires ValidComparator(compare)
    requires k < |s| && HeapExceptDown(s, k, compare)
    requires SmallestChild(s, k, c, compare) && compare(s[c], s[k]) < 0
    ensures HeapExceptDown(Swap(s, k, c), c, compare)
  {
    var t := Swap(s, k, c);
    var x, m := s[k], s[c];
    assert Parent(c) == k;
    forall i | 0 < i < |t| && Parent(i) != c ensures compare(t[i], t[Parent(i)]) >= 0 {
      if i == c {
      } else if i == k {
        assert compare(m, s[Parent(k)]) >= 0;
      } else if Parent(i) == k {
        assert compare(m, s[i]) <= 0;
      } else {
        assert t[i] == s[i] && t[Parent(i)] == s[Parent(i)];
      }
    }
    forall i | 0 < i < |t| && Parent(i) == c ensures compare(t[i], t[k]) >= 0 {
      assert compare(s[i], s[c]) >= 0;
    }
  }

  /** Sift-down stops in a heap: once no child is smaller than the entry. */
  lemma SiftDownDone<T(!new)>(s: seq<T>, k: nat, c: nat, compare: (T, T) -> int)
    requires ValidComparator(compare)
    requires k < |s| && HeapExceptDown(s, k, compare)
    requires SmallestChild(s, k, c, compare) && compare(s[c], s[k]) >= 0
    ensures IsHeap(s, compare)
  {
    forall i | 0 < i < |s| && Parent(i) == k ensures compare(s[i], s[k]) >= 0 {
      assert compare(s[k], s[c]) <= 0;
      assert compare(s[c], s[i]) <= 0;
      assert TransitiveAt(compare, s[k], s[c], s[i]);
    }
  }

  /** Moving the last entry into the root slot drops exactly the old root. */
  lemma MoveLastToRoot<T>(s: seq<T>, t: seq<T>)
    requires |s| > 0 && |t| == |s| - 1
    requires |t| > 0 ==> t[0] == s[|s| - 1] && t[1..] == s[1..|s| - 1]
    ensures multiset(t) + multiset{s[0]} == multiset(s)
  {
    var n := |s|;
    if n > 1 {
      calc {
        multiset(s);
        { assert s == [s[0]] + s[1..n - 1] + [s[n - 1]]; }
        multiset{s[0]} + multiset(s[1..n - 1]) + multiset{s[n - 1]};
        { assert t == [s[n - 1]] + s[1..n - 1]; }
        multiset(t) + multiset{s[0]};
      }
    }
  }

  /** The priority queue. `data.Length` is the C `length` field. */
  class Queue<T(0, !new)> {
    var data: array<T>
    var count: nat
    const compare: (T, T) -> int
    ghost var Repr: set<object>

    ghost predicate Valid()
      reads this, Repr
    {
      && Repr == {this, data}
      && ValidComparator(compare)
      && 0 < data.Length && count <= data.Length
      && IsHeap(data[..count], compare)
    }

    /** The live entries, in array order. */
    ghost function Contents(): seq<T>
      reads this, Repr
      requires Valid()
    {
      data[..count]
    }

    /** createQueue. The C code asserts that the comparator is non-null; a
        Dafny function value always is. */
    constructor (compare: (T, T) -> int)
      requires ValidComparator(compare)
      ensures Valid() && fresh(Repr)
      ensures this.compare == compare
      ensures count == 0 && data.Length == StartLength
    {
      data := new T[StartLength];
      count := 0;
      this.compare := compare;
      Repr := {this, data};
    }

    /** numEntries. */
    function NumEntries(): (n: nat)
      reads this, Repr
      requires Valid()
      ensures n == |Contents()|
    {
      count
    }

    /** The doubling step of addEntry (the `realloc` to twice the length). */
    method Grow()
      requires Valid()
      modifies this
      ensures Valid() && fresh(data) && count == old(count)
      ensures data.Length == 2 * old(data.Length)
      ensures Contents() == old(Contents())
    {
      var bigger := new T[2 * data.Length];
      forall i | 0 <= i < count {
        bigger[i] := data[i];
      }
      data := bigger;
      Repr := {this, data};
    }

    /** addEntry: append, doubling the array when it is full, then sift up. */
    method AddEntry(entry: T)
      requires Valid()
      modifies Repr
      ensures Valid() && fresh(Repr - old(Repr))
      ensures count == old(count) + 1
      ensures multiset(Contents()) == multiset(old(Contents())) + multiset{entry}
      ensures data.Length == if old(count) == old(data.Length) then 2 * old(data.Length) else old(data.Length)
    {
      if count == data.Length {
        Grow();
      }
      Insert(data, count, entry, compare);
      count := count + 1;
    }

    /** removeEntry: take the root, move the last entry into its place, sift
        down. The C code does not check for an empty queue, so a non-empty
        queue is the caller's obligation. */
    method RemoveEntry() returns (root: T)
      requires Valid() && count > 0
      modifies Repr
      ensures Valid() && Repr == old(Repr) && data.Length == old(data.Length)
      ensures root == old(Contents())[0]
      ensures forall x | x in old(Contents()) :: compare(root, x) <= 0
      ensures count == old(count) - 1
      ensures multiset(Contents()) == multiset(old(Contents())) - multiset{root}
    {
      ghost var s0 := data[..count];
      HeapRootIsMinAll(s0, compare);
      root := data[0];
      data[0] := data[count - 1];
      count := count - 1;
      ghost var s1 := data[..count];
      MoveLastToRoot(s0, s1);
      SiftDown(data, count, compare);
    }
  }

  /** The three-assignment swap through `temp` used by both sift loops. */
  method SwapEntries<T>(a: array<T>, n: nat, i: nat, j: nat)
    requires i < n <= a.Length && j < n
    modifies a
    ensures a[..n] == Swap(old(a[..n]), i, j)
    ensures multiset(a[..n]) == old(multiset(a[..n]))
  {
    ghost var s := a[..n];
    var temp := a[j];
    a[j] := a[i];
    a[i] := temp;
    assert a[..n] == Swap(s, i, j);
    SwapPermutes(s, i, j);
  }

  /** The array part of addEntry: store the entry after the `n` live ones and sift it up. */
  method Insert<T(!new)>(a: array<T>, n: nat, entry: T, compare: (T, T) -> int)
    requires ValidComparator(compare)
    requires n < a.Length && IsHeap(a[..n], compare)
    modifies a
    ensures IsHeap(a[..n + 1], compare)
    ensures multiset(a[..n + 1]) == old(multiset(a[..n])) + multiset{entry}
  {
    ghost var before := a[..n];
    a[n] := entry;
    assert a[..n + 1] == before + [entry];
    AppendStartsSiftUp(before, entry, compare);
    SiftUp(a, n + 1, compare);
  }

  /** The sift-up loop of addEntry: swap the entry at `n - 1` with its parent
      while it compares strictly less. At the root `p(0) == 0` and the entry
      compares equal to itself, which ends the loop. */
  method SiftUp<T(!new)>(a: array<T>, n: nat, compare: (T, T) -> int)
    requires ValidComparator(compare)
    requires 0 < n <= a.Length && HeapExceptUp(a[..n], n - 1, compare)
    modifies a
    ensures IsHeap(a[..n], compare)
    ensures multiset(a[..n]) == old(multiset(a[..n]))
  {
    var index: nat := n - 1;
    while compare(a[index], a[Parent(index)]) < 0
      invariant index < n
      invariant multiset(a[..n]) == old(multiset(a[..n]))
      invariant HeapExceptUp(a[..n], index, compare)
      decreases index
    {
      ghost var s := a[..n];
      SiftUpStep(s, index, compare);
      SwapEntries(a, n, index, Parent(index));
      index := Parent(index);
    }
    SiftUpDone(a[..n], index, compare);
  }

  /** The sift-down loop of removeEntry: while the entry at `index` has a left
      child, pick the left child if it is strictly smaller than the right one
      and the right child otherwise, and swap if that child is strictly
      smaller than the entry. */
  method SiftDown<T(!new)>(a: array<T>, n: nat, compare: (T, T) -> int)
    requires ValidComparator(compare)
    requires n <= a.Length && HeapExceptDown(a[..n], 0, compare)
    modifies a
    ensures IsHeap(a[..n], compare)
    ensures multiset(a[..n]) == old(multiset(a[..n]))
  {
    var index: nat := 0;
    while Left(index) < n
      invariant index < n || (index == 0 && n == 0)
      invariant multiset(a[..n]) == old(multiset(a[..n]))
      invariant HeapExceptDown(a[..n], index, compare)
      decreases n - index
    {
      ghost var s := a[..n];
      var smallestIndex := Left(index);
      if Right(index) < n {
        if compare(a[Left(index)], a[Right(index)]) < 0 {
          smallestIndex := Left(index);
        } else {
          smallestIndex := Right(index);
        }
      }
      assert SmallestChild(s, index, smallestIndex, compare);
      if compare(a[smallestIndex], a[index]) < 0 {
        SiftDownStep(s, index, smallestIndex, compare);
        SwapEntries(a, n, index, smallestIndex);
        index := smallestIndex;
      } else {
        SiftDownDone(s, index, smallestIndex, compare);
        break;
      }
    }
  }

  /** One round of draining the queue keeps the output sorted and no larger
      than anything still queued, when the removed entry `x` is a minimum of
      the queue before removal. */
  lemma DrainStep<T>(out: seq<T>, before: seq<T>, after: seq<T>, x: T, compare: (T, T) -> int)
    requires Sorted(out, compare)
    requires forall i, y :: 0 <= i < |out| && y in before ==> compare(out[i], y) <= 0
    requires x in before && forall y | y in before :: compare(x, y) <= 0
    requires forall y | y in after :: y in before
    ensures Sorted(out + [x], compare)
    ensures forall i, y :: 0 <= i < |out| + 1 && y in after ==> compare((out + [x])[i], y) <= 0
  {
  }

  /** Fill a queue by repeated addEntry. */
  method AddAll<T(0, !new)>(q: Queue<T>, xs: seq<T>)
    requires q.Valid() && q.count == 0
    modifies q.Repr
    ensures q.Valid() && fresh(q.Repr - old(q.Repr))
    ensures multiset(q.Contents()) == multiset(xs)
  {
    for i := 0 to |xs|
      invariant q.Valid() && fresh(q.Repr - old(q.Repr))
      invariant multiset(q.Contents()) == multiset(xs[..i])
    {
      q.AddEntry(xs[i]);
      assert xs[..i + 1] == xs[..i] + [xs[i]];
    }
    assert xs[..|xs|] == xs;
  }

  /** Empty a queue by repeated removeEntry, collecting the entries in order. */
  method RemoveAll<T(0, !new)>(q: Queue<T>) returns (out: seq<T>)
    requires q.Valid()
    modifies q.Repr
    ensures q.Valid() && q.count == 0
    ensures multiset(out) == old(multiset(q.Contents()))
    ensures Sorted(out, q.compare)
  {
    out := [];
    while q.NumEntries() > 0
      invariant q.Valid() && q.Repr == old(q.Repr)
      invariant multiset(out) + multiset(q.Contents()) == old(multiset(q.Contents()))
      invariant Sorted(out, q.compare)
      invariant forall i, y :: 0 <= i < |out| && y in q.Contents() ==> q.compare(out[i], y) <= 0
      decreases q.count
    {
      ghost var rest := q.Contents();
      var x := q.RemoveEntry();
      forall y | y in q.Contents() ensures y in rest {
        assert y in multiset(q.Contents());
      }
      DrainStep(out, rest, q.Contents(), x, q.compare);
      out := out + [x];
    }
  }

  /** A client of the queue: `n` calls of addEntry followed by `n` calls of
      removeEntry hand the entries back in non-decreasing comparator order. */
  method AddAllThenRemoveAll<T(0, !new)>(xs: seq<T>, compare: (T, T) -> int) returns (out: seq<T>)
    requires ValidComparator(compare)
    ensures multiset(out) == multiset(xs)
    ensures Sorted(out, compare)
  {
    var q := new Queue(compare);
    AddAll(q, xs);
    out := RemoveAll(q);
  }
}
