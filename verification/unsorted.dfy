/** The unsorted-array set of strings of project2/unsorted.c: the first
    `count` slots of `data` hold the elements, in insertion order except where
    a removal moved the last element into the hole. `data.Length` is the C
    `length` field. */
module Unsorted {
  import opened Wrappers
  import opened CString

  ghost predicate NoDuplicates(s: seq<string>) {
    forall i, j :: 0 <= i < j < |s| ==> s[i] != s[j]
  }

  /** The sequence after removeElement's two stores at slot `i`: the last
      entry overwrites slot `i` and the sequence loses its last slot. */
  function SwapRemove(s: seq<string>, i: nat): seq<string>
    requires i < |s|
  {
    s[i := s[|s| - 1]][..|s| - 1]
  }

  /** Removal by moving the last element keeps the elements distinct and
      takes away exactly the removed one, with nothing else lost. */
  lemma SwapRemoveMembers(s: seq<string>, i: nat)
    requires NoDuplicates(s) && i < |s|
    ensures |SwapRemove(s, i)| == |s| - 1
    ensures NoDuplicates(SwapRemove(s, i))
    ensures forall x :: x in SwapRemove(s, i) <==> x in s && x != s[i]
  {
    var r := SwapRemove(s, i);
    var last := |s| - 1;
    assert forall k :: 0 <= k < |r| ==> r[k] == s[if k == i then last else k];
    forall a, b | 0 <= a < b < |r| ensures r[a] != r[b] {
      assert r[a] == s[if a == i then last else a] && r[b] == s[if b == i then last else b];
    }
    forall x | x in r ensures x in s && x != s[i] {
      var k :| 0 <= k < |r| && r[k] == x;
      assert x == s[if k == i then last else k];
    }
    forall x | x in s && x != s[i] ensures x in r {
      var j :| 0 <= j < |s| && s[j] == x;
      if j == last {
        assert r[i] == x;
      } else {
        assert r[j] == x;
      }
    }
  }

  class Set {
    var data: array<string>
    var count: nat

    ghost predicate Valid()
      reads this, data
    {
      count <= data.Length && NoDuplicates(data[..count])
    }

    /** The elements, in array order. */
    ghost function Elements(): seq<string>
      reads this, data
      requires Valid()
    {
      data[..count]
    }

    /** createSet. */
    constructor (maxElts: nat)
      ensures Valid() && fresh(data)
      ensures count == 0 && data.Length == maxElts
    {
      count := 0;
      data := new string[maxElts];
    }

    /** numElements. */
    function NumElements(): (n: nat)
      reads this, data
      requires Valid()
      ensures n == |Elements()|
    {
      count
    }

    /** search: the smallest index holding a string equal to `elt`, or -1. */
    method Search(elt: string) returns (index: int)
      requires Valid()
      ensures -1 <= index < count
      ensures index == -1 <==> elt !in Elements()
      ensures index >= 0 ==> data[index] == elt && forall k :: 0 <= k < index ==> data[k] != elt
    {
      for i := 0 to count
        invariant forall k :: 0 <= k < i ==> data[k] != elt
      {
        if Strcmp(data[i], elt) == 0 {
          return i;
        }
      }
      return -1;
    }

    /** addElement: append `elt` when it is absent. There is no capacity check
        in the C code, so room for a new element is the caller's obligation. */
    method AddElement(elt: string)
      requires Valid() && (elt !in Elements() ==> count < data.Length)
      modifies this, data
      ensures Valid() && data == old(data)
      ensures Elements() == if elt in old(Elements()) then old(Elements()) else old(Elements()) + [elt]
    {
      var index := Search(elt);
      if index == -1 {
        data[count] := elt;
        count := count + 1;
        assert data[..count] == old(data[..count]) + [elt];
      }
    }

    /** removeElement: when `elt` is present, the last element moves into its
        slot and the count drops by one. */
    method RemoveElement(elt: string)
      requires Valid()
      modifies this, data
      ensures Valid() && data == old(data)
      ensures elt !in old(Elements()) ==> Elements() == old(Elements())
      ensures elt in old(Elements()) ==>
        exists i :: 0 <= i < old(count) && old(Elements())[i] == elt && Elements() == SwapRemove(old(Elements()), i)
      ensures forall x :: x in Elements() <==> x in old(Elements()) && x != elt
    {
      var index := Search(elt);
      if index != -1 {
        ghost var s := data[..count];
        MoveLastInto(data, index, count);
        count := count - 1;
        SwapRemoveMembers(s, index);
        assert s[index] == elt && data[..count] == SwapRemove(s, index);
      }
    }

    /** findElement: its own linear scan; `elt` itself when an equal string
        is stored, else NULL. */
    method FindElement(elt: string) returns (r: Option<string>)
      requires Valid()
      ensures r == if elt in Elements() then Some(elt) else None
    {
      for i := 0 to count
        invariant forall k :: 0 <= k < i ==> data[k] != elt
      {
        if Strcmp(data[i], elt) == 0 {
          return Some(elt);
        }
      }
      return None;
    }

    /** getElements: a new array holding copies of the elements, in order. */
    method GetElements() returns (arr: array<string>)
      requires Valid()
      ensures fresh(arr) && arr[..] == Elements()
    {
      arr := new string[count];
      for i := 0 to count
        invariant forall k :: 0 <= k < i ==> arr[k] == data[k]
      {
        arr[i] := data[i];
      }
    }
  }

  /** The two stores of removeElement: the entry at `n - 1` overwrites the one at `index`. */
  method MoveLastInto(a: array<string>, index: nat, n: nat)
    requires index < n <= a.Length
    modifies a
    ensures a[..n - 1] == SwapRemove(old(a[..n]), index)
  {
    a[index] := a[n - 1];
  }
}
