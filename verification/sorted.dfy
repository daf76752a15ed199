/** The sorted-array set of strings of project2/sorted.c: the first `count`
    slots of `data` hold the elements in strictly increasing `strcmp` order.
    `data.Length` is the C `length` field. */
module Sorted {
  import opened Wrappers
  import opened CString

  /** Strictly increasing, hence free of duplicates. */
  ghost predicate StrictlySorted(s: seq<string>) {
    forall i, j :: 0 <= i < j < |s| ==> Less(s[i], s[j])
  }

  /** The elements of a sequence, as a set. */
  ghost function Members(s: seq<string>): set<string> {
    set x | x in s
  }

  /** Putting `x` at the gap where everything before is smaller and
      everything after is larger keeps the sequence strictly sorted. */
  lemma InsertKeepsSorted(s: seq<string>, i: nat, x: string)
    requires StrictlySorted(s) && i <= |s|
    requires forall k :: 0 <= k < i ==> Less(s[k], x)
    requires forall k :: i <= k < |s| ==> Less(x, s[k])
    ensures StrictlySorted(s[..i] + [x] + s[i..])
    ensures Members(s[..i] + [x] + s[i..]) == Members(s) + {x}
  {
    var t := s[..i] + [x] + s[i..];
    forall a, b | 0 <= a < b < |t| ensures Less(t[a], t[b]) {
      if b < i || a > i {
        assert t[a] == s[if a < i then a else a - 1] && t[b] == s[if b < i then b else b - 1];
      }
    }
    assert s == s[..i] + s[i..];
  }

  /** Dropping the entry at `i` keeps the sequence strictly sorted and removes
      exactly that element. */
  lemma RemoveKeepsSorted(s: seq<string>, i: nat)
    requires StrictlySorted(s) && i < |s|
    ensures StrictlySorted(s[..i] + s[i + 1..])
    ensures Members(s[..i] + s[i + 1..]) == Members(s) - {s[i]}
  {
    var t := s[..i] + s[i + 1..];
    forall a, b | 0 <= a < b < |t| ensures Less(t[a], t[b]) {
      assert t[a] == s[if a < i then a else a + 1] && t[b] == s[if b < i then b else b + 1];
    }
    forall x | x in t ensures x != s[i] {
      var k :| 0 <= k < |t| && t[k] == x;
      assert t[k] == s[if k < i then k else k + 1];
    }
    assert s == s[..i] + [s[i]] + s[i + 1..];
  }

  class Set {
    var data: array<string>
    var count: nat

    ghost predicate Valid()
      reads this, data
    {
      count <= data.Length && StrictlySorted(data[..count])
    }

    /** The elements, in array order. */
    ghost function Elements(): seq<string>
      reads this, data
      requires Valid()
    {
      data[..count]
    }

    /** createSet. */
    constructor (maxElts: nat)
      ensures Valid() && fresh(data)
      ensures count == 0 && data.Length == maxElts
    {
      count := 0;
      data := new string[maxElts];
    }

    /** numElements. */
    function NumElements(): (n: nat)
      reads this, data
      requires Valid()
      ensures n == |Elements()|
    {
      count
    }

    /** search: binary search. Either `elt` is at `index`, or `index` is the
        slot where it belongs: everything before is smaller, everything from
        there on is larger. */
    method Search(elt: string) returns (index: nat, found: bool)
      requires Valid()
      ensures index <= count
      ensures found <==> elt in Elements()
      ensures found ==> index < count && data[index] == elt
      ensures !found ==>
        && (forall k :: 0 <= k < index ==> Less(data[k], elt))
        && (forall k :: index <= k < count ==> Less(elt, data[k]))
    {
      var lo: int := 0;
      var hi: int := count - 1;
      while lo <= hi
        invariant 0 <= lo <= hi + 1 <= count
        invariant forall k :: 0 <= k < lo ==> Less(data[k], elt)
        invariant forall k :: hi < k < count ==> Less(elt, data[k])
        decreases hi - lo
      {
        var mid := (lo + hi) / 2;
        var diff := Strcmp(elt, data[mid]);
        if diff < 0 {
          forall k | mid < k < count ensures Less(elt, data[k]) {
            LessTransitive(elt, data[mid], data[k]);
          }
          hi := mid - 1;
        } else if diff > 0 {
          StrcmpAntisymmetric(elt, data[mid]);
          forall k | 0 <= k < mid ensures Less(data[k], elt) {
            LessTransitive(data[k], data[mid], elt);
          }
          lo := mid + 1;
        } else {
          return mid, true;
        }
      }
      return lo, false;
    }

    /** addElement: when `elt` is absent, shift `data[index..count)` one
        slot right and put `elt` at `index`. There is no capacity check in the
        C code, so room for a new element is the caller's obligation. */
    method AddElement(elt: string)
      requires Valid() && (elt !in Elements() ==> count < data.Length)
      modifies this, data
      ensures Valid() && data == old(data)
      ensures Members(Elements()) == Members(old(Elements())) + {elt}
      ensures count == if elt in old(Elements()) then old(count) else old(count) + 1
      ensures elt in old(Elements()) ==> Elements() == old(Elements())
    {
      var index, searched := Search(elt);
      if !searched {
        ghost var s := data[..count];
        ShiftRight(data, index, count);
        data[index] := elt;
        count := count + 1;
        assert data[..count] == s[..index] + [elt] + s[index..];
        InsertKeepsSorted(s, index, elt);
      }
    }

    /** removeElement: when `elt` is present at `index`, shift
        `data[index + 1..count)` one slot left. */
    method RemoveElement(elt: string)
      requires Valid()
      modifies this, data
      ensures Valid() && data == old(data)
      ensures Members(Elements()) == Members(old(Elements())) - {elt}
      ensures count == if elt in old(Elements()) then old(count) - 1 else old(count)
      ensures elt !in old(Elements()) ==> Elements() == old(Elements())
    {
      var index, searched := Search(elt);
      if searched {
        ghost var s := data[..count];
        ShiftLeft(data, index, count);
        count := count - 1;
        assert data[..count] == s[..index] + s[index + 1..];
        RemoveKeepsSorted(s, index);
      } else {
        assert elt !in Members(data[..count]);
      }
    }

    /** findElement: `elt` itself when an equal string is stored, else NULL. */
    method FindElement(elt: string) returns (r: Option<string>)
      requires Valid()
      ensures r == if elt in Elements() then Some(elt) else None
    {
      var index, searched := Search(elt);
      if searched {
        return Some(elt);
      } else {
        return None;
      }
    }

    /** getElements: a new array holding copies of the elements, in order. */
    method GetElements() returns (arr: array<string>)
      requires Valid()
      ensures fresh(arr) && arr[..] == Elements()
    {
      arr := new string[count];
      for i := 0 to count
        invariant forall k :: 0 <= k < i ==> arr[k] == data[k]
      {
        arr[i] := data[i];
      }
    }
  }

  /** The loop of addElement: `a[index..n)` moves one slot right, from the top down. */
  method ShiftRight(a: array<string>, index: nat, n: nat)
    requires index <= n < a.Length
    modifies a
    ensures a[..index] == old(a[..index])
    ensures a[index + 1..n + 1] == old(a[index..n])
  {
    ghost var s := a[..n];
    var i := n;
    while i > index
      invariant index <= i <= n
      invariant forall k :: 0 <= k < i ==> a[k] == s[k]
      invariant forall k :: i < k <= n ==> a[k] == s[k - 1]
      decreases i
    {
      a[i] := a[i - 1];
      i := i - 1;
    }
  }

  /** The loop of removeElement: `a[index + 1..n)` moves one slot left, from the bottom up. */
  method ShiftLeft(a: array<string>, index: nat, n: nat)
    requires index < n <= a.Length
    modifies a
    ensures a[..n - 1] == old(a[..index]) + old(a[index + 1..n])
  {
    ghost var s := a[..n];
    for i := index + 1 to n
      invariant forall k :: 0 <= k < index ==> a[k] == s[k]
      invariant forall k :: index <= k < i - 1 ==> a[k] == s[k + 1]
      invariant forall k :: i <= k < n ==> a[k] == s[k]
    {
      a[i - 1] := a[i];
    }
  }
}
