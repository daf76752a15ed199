/** The open-addressing string set of project3/strings/table.c: slot `i` of
    `data` holds a string when `flags[i]` is `Filled`; a string is looked for
    by linear probing from its home slot `strhash(s) % length`, and removal
    leaves a `Deleted` tombstone so that later probes go on past it.
    `data.Length` is the C `length` field. */
module HashTable {
  import opened Wrappers
  import opened CString

  /** Unsigned arithmetic is modulo 2^32. */
  const Modulus: nat := 0x1_0000_0000

  /** strhash: starting from 0, `h := 31 * h + c` for each character, with
      unsigned wrap-around. Characters count by their code. */
  function StrHash(s: string): (h: nat)
    ensures h < Modulus
  {
    if s == [] then 0 else (31 * StrHash(s[..|s| - 1]) + s[|s| - 1] as int) % Modulus
  }

  function Pow31(n: nat): nat {
    if n == 0 then 1 else 31 * Pow31(n - 1)
  }

  /** The hash as a polynomial: each character times 31 to the number of
      characters after it, summed, before any wrap-around. */
  ghost function Poly(s: string): nat {
    if s == [] then 0 else (s[0] as int) * Pow31(|s| - 1) + Poly(s[1..])
  }

  lemma {:induction false} PolyAppend(s: string, c: char)
    ensures Poly(s + [c]) == 31 * Poly(s) + c as int
  {
    if s == [] {
      assert (s + [c])[1..] == [];
    } else {
      assert (s + [c])[1..] == s[1..] + [c];
      PolyAppend(s[1..], c);
      var a := s[0] as int;
      calc {
        Poly(s + [c]);
        a * Pow31(|s|) + Poly(s[1..] + [c]);
        a * (31 * Pow31(|s| - 1)) + 31 * Poly(s[1..]) + c as int;
        { assert a * (31 * Pow31(|s| - 1)) == 31 * (a * Pow31(|s| - 1)); }
        31 * Poly(s) + c as int;
      }
    }
  }

  lemma ModStep(a: nat, c: nat)
    ensures (31 * (a % Modulus) + c) % Modulus == (31 * a + c) % Modulus
  {
  }

  /** The loop of strhash computes the polynomial hash reduced modulo 2^32. */
  lemma {:induction false} StrHashIsPoly(s: string)
    ensures StrHash(s) == Poly(s) % Modulus
  {
    if s != [] {
      var p, c := s[..|s| - 1], s[|s| - 1];
      assert s == p + [c];
      StrHashIsPoly(p);
      PolyAppend(p, c);
      ModStep(Poly(p), c as int);
    }
  }

  datatype Flag = Empty | Filled | Deleted

  /** The slot probing starts from. */
  function Home(s: string, n: nat): (r: nat)
    requires 0 < n
    ensures r < n
  {
    StrHash(s) % n
  }

  /** The slot visited at step `k` of a probe from `h`. */
  function Probe(h: nat, k: nat, n: nat): (r: nat)
    requires h < n && k < n
    ensures r < n
  {
    if h + k < n then h + k else h + k - n
  }

  /** The probe step is the C expression `(head + i) % length`. */
  lemma ProbeIsMod(h: nat, k: nat, n: nat)
    requires h < n && k < n
    ensures Probe(h, k, n) == (h + k) % n
  {
  }

  /** The step at which a probe from `h` reaches slot `i`. */
  function Dist(h: nat, i: nat, n: nat): (r: nat)
    requires h < n && i < n
    ensures r < n && Probe(h, r, n) == i
  {
    if h <= i then i - h else i + n - h
  }

  /** Within `n` steps a probe never visits a slot twice. */
  lemma ProbeInjective(h: nat, k1: nat, k2: nat, n: nat)
    requires h < n && k1 < n && k2 < n
    requires Probe(h, k1, n) == Probe(h, k2, n)
    ensures k1 == k2
  {
  }

  /** The number of `Filled` flags. */
  function FilledCount(f: seq<Flag>): (r: nat)
    ensures r <= |f|
  {
    if f == [] then 0 else FilledCount(f[..|f| - 1]) + (if f[|f| - 1] == Filled then 1 else 0)
  }

  lemma {:induction false} FilledCountUpdate(f: seq<Flag>, i: nat, x: Flag)
    requires i < |f|
    ensures FilledCount(f[i := x]) + (if f[i] == Filled then 1 else 0)
         == FilledCount(f) + (if x == Filled then 1 else 0)
  {
    var last := |f| - 1;
    if i < last {
      assert f[i := x][..last] == f[..last][i := x];
      FilledCountUpdate(f[..last], i, x);
    } else {
      assert f[i := x][..last] == f[..last];
    }
  }

  /** Every slot is `Filled` exactly when the count reaches the length. */
  lemma {:induction false} FilledCountFull(f: seq<Flag>)
    ensures FilledCount(f) == |f| <==> forall i :: 0 <= i < |f| ==> f[i] == Filled
  {
    if f != [] {
      var last := |f| - 1;
      FilledCountFull(f[..last]);
      assert forall i :: 0 <= i < last ==> f[..last][i] == f[i];
    }
  }

  /** No slot is `Filled` exactly when the count is zero. */
  lemma {:induction false} FilledCountZero(f: seq<Flag>)
    ensures FilledCount(f) == 0 <==> forall i :: 0 <= i < |f| ==> f[i] != Filled
  {
    if f != [] {
      var last := |f| - 1;
      FilledCountZero(f[..last]);
      assert forall i :: 0 <= i < last ==> f[..last][i] == f[i];
    }
  }

  lemma {:induction false} FilledCountPrefix(f: seq<Flag>, i: nat)
    requires i <= |f|
    ensures FilledCount(f[..i]) <= FilledCount(f)
  {
    if i < |f| {
      var last := |f| - 1;
      assert f[..last][..i] == f[..i];
      FilledCountPrefix(f[..last], i);
    } else {
      assert f[..i] == f;
    }
  }

  /** The `Filled` strings in slot order. */
  function FilledIn(d: seq<string>, f: seq<Flag>): (r: seq<string>)
    requires |d| == |f|
    ensures |r| == FilledCount(f)
  {
    if f == [] then []
    else FilledIn(d[..|d| - 1], f[..|f| - 1]) + (if f[|f| - 1] == Filled then [d[|d| - 1]] else [])
  }

  /** The strings in `Filled` slots. */
  ghost function Stored(d: seq<string>, f: seq<Flag>): set<string>
    requires |d| == |f|
  {
    set i | 0 <= i < |f| && f[i] == Filled :: d[i]
  }

  /** The stored strings grow slot by slot. */
  lemma StoredSnoc(d: seq<string>, f: seq<Flag>)
    requires |d| == |f| && f != []
    ensures Stored(d, f) == Stored(d[..|f| - 1], f[..|f| - 1]) + (if f[|f| - 1] == Filled then {d[|f| - 1]} else {})
  {
    var last := |f| - 1;
    var d0, f0 := d[..last], f[..last];
    forall y | y in Stored(d0, f0) ensures y in Stored(d, f) {
      var i :| 0 <= i < last && f0[i] == Filled && d0[i] == y;
      assert f[i] == Filled && d[i] == y;
    }
    forall y | y in Stored(d, f) ensures y in Stored(d0, f0) || (f[last] == Filled && y == d[last]) {
      var i :| 0 <= i < |f| && f[i] == Filled && d[i] == y;
      if i < last {
        assert f0[i] == Filled && d0[i] == y;
      }
    }
  }

  /** The slot-order listing holds exactly the stored strings. */
  lemma {:induction false} FilledInStored(d: seq<string>, f: seq<Flag>)
    requires |d| == |f|
    ensures forall x :: x in FilledIn(d, f) <==> x in Stored(d, f)
  {
    if f != [] {
      var last := |f| - 1;
      FilledInStored(d[..last], f[..last]);
      StoredSnoc(d, f);
    }
  }

  /** No string occupies two `Filled` slots. */
  ghost predicate Distinct(d: seq<string>, f: seq<Flag>)
    requires |d| == |f|
  {
    forall i, j :: 0 <= i < j < |f| && f[i] == Filled && f[j] == Filled ==> d[i] != d[j]
  }

  /** The string in slot `i`, if any, is reached from its home slot without
      passing an `Empty` slot. */
  ghost predicate ReachableAt(d: seq<string>, f: seq<Flag>, i: nat)
    requires |d| == |f| && i < |f|
  {
    f[i] == Filled ==>
      var h := Home(d[i], |f|);
      forall k :: 0 <= k < Dist(h, i, |f|) ==> f[Probe(h, k, |f|)] != Empty
  }

  ghost predicate Reachable(d: seq<string>, f: seq<Flag>)
    requires |d| == |f|
  {
    forall i :: 0 <= i < |f| ==> ReachableAt(d, f, i)
  }

  /** The three invariants of the table together. */
  ghost predicate Table(d: seq<string>, f: seq<Flag>, count: nat) {
    && |d| == |f|
    && count == FilledCount(f)
    && Distinct(d, f)
    && Reachable(d, f)
  }

  /** Storing `x` in a non-`Filled` slot adds exactly `x`. */
  lemma AddStored(d: seq<string>, f: seq<Flag>, i: nat, x: string)
    requires |d| == |f| && i < |f| && f[i] != Filled
    ensures Stored(d[i := x], f[i := Filled]) == Stored(d, f) + {x}
  {
    var d', f' := d[i := x], f[i := Filled];
    forall y | y in Stored(d', f') ensures y in Stored(d, f) + {x} {
      var j :| 0 <= j < |f'| && f'[j] == Filled && d'[j] == y;
      if j != i {
        assert f[j] == Filled && d[j] == y;
      }
    }
    forall y | y in Stored(d, f) ensures y in Stored(d', f') {
      var j :| 0 <= j < |f| && f[j] == Filled && d[j] == y;
      assert j != i && f'[j] == Filled && d'[j] == y;
    }
    assert f'[i] == Filled && d'[i] == x;
  }

  /** Storing an absent `x` where a probe from its home slot ends, after
      passing only non-`Empty` slots, keeps the table's invariants. */
  lemma AddKeepsTable(d: seq<string>, f: seq<Flag>, count: nat, i: nat, x: string, steps: nat,
                      d': seq<string>, f': seq<Flag>)
    requires Table(d, f, count) && i < |f| && f[i] != Filled && x !in Stored(d, f)
    requires steps < |f| && Probe(Home(x, |f|), steps, |f|) == i
    requires forall k :: 0 <= k < steps ==> f[Probe(Home(x, |f|), k, |f|)] != Empty
    requires d' == d[i := x] && f' == f[i := Filled]
    ensures Table(d', f', count + 1)
    ensures Stored(d', f') == Stored(d, f) + {x}
  {
    var n := |f|;
    FilledCountUpdate(f, i, Filled);
    forall a, b | 0 <= a < b < n && f'[a] == Filled && f'[b] == Filled ensures d'[a] != d'[b] {
      if a != i && b != i {
      } else if a == i {
        assert d[b] in Stored(d, f);
      } else {
        assert d[a] in Stored(d, f);
      }
    }
    forall j | 0 <= j < n ensures ReachableAt(d', f', j) {
      if j == i {
        var h := Home(x, n);
        ProbeInjective(h, steps, Dist(h, i, n), n);
      } else {
        assert ReachableAt(d, f, j);
      }
    }
    AddStored(d, f, i, x);
  }

  /** Marking a `Filled` slot `Deleted` takes away exactly its string. */
  lemma RemoveStored(d: seq<string>, f: seq<Flag>, i: nat)
    requires |d| == |f| && i < |f| && f[i] == Filled && Distinct(d, f)
    ensures Stored(d, f[i := Deleted]) == Stored(d, f) - {d[i]}
  {
    var f' := f[i := Deleted];
    forall y | y in Stored(d, f') ensures y in Stored(d, f) - {d[i]} {
      var j :| 0 <= j < |f'| && f'[j] == Filled && d[j] == y;
      assert f[j] == Filled && j != i;
      if j < i {
        assert d[j] != d[i];
      } else {
        assert d[i] != d[j];
      }
    }
    forall y | y in Stored(d, f) - {d[i]} ensures y in Stored(d, f') {
      var j :| 0 <= j < |f| && f[j] == Filled && d[j] == y;
      assert j != i && f'[j] == Filled;
    }
  }

  /** Turning a `Filled` slot into a tombstone keeps the table's invariants:
      no slot becomes `Empty`, so every probe path stays open. */
  lemma RemoveKeepsTable(d: seq<string>, f: seq<Flag>, count: nat, i: nat, f': seq<Flag>, count': nat)
    requires Table(d, f, count) && i < |f| && f[i] == Filled
    requires f' == f[i := Deleted] && count' + 1 == count
    ensures Table(d, f', count')
    ensures Stored(d, f') == Stored(d, f) - {d[i]}
  {
    FilledCountUpdate(f, i, Deleted);
    forall j | 0 <= j < |f| ensures ReachableAt(d, f', j) {
      assert ReachableAt(d, f, j);
    }
    RemoveStored(d, f, i);
  }

  /** The state of search's loop after `i` probe steps from `h` for `x`:
      no slot passed was `Empty` or held `x`; `deleted` is -1 when all of
      them were `Filled`, else the first tombstone passed, at step
      `deletedStep`. */
  ghost predicate Passed(d: seq<string>, f: seq<Flag>, h: nat, x: string, i: nat, deleted: int, deletedStep: nat)
    requires |d| == |f| && h < |f| && i <= |f|
  {
    && (forall k :: 0 <= k < i ==> f[Probe(h, k, |f|)] != Empty)
    && (forall k :: 0 <= k < i && f[Probe(h, k, |f|)] == Filled ==> d[Probe(h, k, |f|)] != x)
    && (deleted == -1 ==> forall k :: 0 <= k < i ==> f[Probe(h, k, |f|)] == Filled)
    && (deleted != -1 ==>
          && deletedStep < i && deleted == Probe(h, deletedStep, |f|) && f[deleted] == Deleted
          && forall k :: 0 <= k < deletedStep ==> f[Probe(h, k, |f|)] == Filled)
  }

  /** One more step past a slot that is not `Empty` and does not hold `x`,
      remembering it when it is the first tombstone. */
  lemma PassedStep(d: seq<string>, f: seq<Flag>, h: nat, x: string, i: nat, deleted: int, deletedStep: nat,
                   deleted': int, deletedStep': nat)
    requires |d| == |f| && h < |f| && i < |f|
    requires Passed(d, f, h, x, i, deleted, deletedStep)
    requires f[Probe(h, i, |f|)] != Empty
    requires f[Probe(h, i, |f|)] == Filled ==> d[Probe(h, i, |f|)] != x
    requires deleted == -1 && f[Probe(h, i, |f|)] == Deleted ==> deleted' == Probe(h, i, |f|) && deletedStep' == i
    requires !(deleted == -1 && f[Probe(h, i, |f|)] == Deleted) ==> deleted' == deleted && deletedStep' == deletedStep
    ensures Passed(d, f, h, x, i + 1, deleted', deletedStep')
  {
  }

  /** A probe for `x` that has passed `i` slots, none `Empty` and none
      holding `x`, and then either met an `Empty` slot or ran out of slots,
      proves `x` absent: `x` would lie on that path. */
  lemma ProbeStopsAbsent(d: seq<string>, f: seq<Flag>, x: string, i: nat, deleted: int, deletedStep: nat)
    requires |d| == |f| && 0 < |f| && Reachable(d, f) && i <= |f|
    requires Passed(d, f, Home(x, |f|), x, i, deleted, deletedStep)
    requires i < |f| ==> f[Probe(Home(x, |f|), i, |f|)] == Empty
    ensures x !in Stored(d, f)
  {
    var n := |f|;
    forall j | 0 <= j < n && f[j] == Filled ensures d[j] != x {
      var h := Home(d[j], n);
      assert ReachableAt(d, f, j);
      assert Probe(h, Dist(h, j, n), n) == j;
    }
  }

  /** A probe that finds every one of the `n` slots `Filled` shows the table full. */
  lemma ProbeAllFilled(f: seq<Flag>, h: nat)
    requires h < |f|
    requires forall k :: 0 <= k < |f| ==> f[Probe(h, k, |f|)] == Filled
    ensures FilledCount(f) == |f|
  {
    forall j | 0 <= j < |f| ensures f[j] == Filled {
      assert Probe(h, Dist(h, j, |f|), |f|) == j;
    }
    FilledCountFull(f);
  }

  /** createSet's loop: every flag starts `Empty`. */
  method MarkEmpty(flags: array<Flag>)
    modifies flags
    ensures forall i :: 0 <= i < flags.Length ==> flags[i] == Empty
  {
    for i := 0 to flags.Length
      invariant forall k :: 0 <= k < i ==> flags[k] == Empty
    {
      flags[i] := Empty;
    }
  }

  class Set {
    var data: array<string>
    var flags: array<Flag>
    var count: nat

    ghost predicate Valid()
      reads this, data, flags
    {
      Table(data[..], flags[..], count)
    }

    /** The set of stored strings. */
    ghost function Members(): set<string>
      reads this, data, flags
      requires Valid()
    {
      Stored(data[..], flags[..])
    }

    /** createSet. */
    constructor (maxElts: nat)
      ensures Valid() && fresh(data) && fresh(flags)
      ensures count == 0 && data.Length == maxElts && Members() == {}
      ensures forall i :: 0 <= i < flags.Length ==> flags[i] == Empty
    {
      count := 0;
      data := new string[maxElts];
      flags := new Flag[maxElts];
      new;
      MarkEmpty(flags);
      FilledCountZero(flags[..]);
    }

    /** numElements: the number of `Filled` slots. */
    function NumElements(): (n: nat)
      reads this, data, flags
      requires Valid()
      ensures n == FilledCount(flags[..]) && n <= data.Length
    {
      count
    }

    /** search: linear probing from the home slot of `elt`. When `elt` is
        stored, its slot; otherwise the first non-`Filled` slot on the probe
        path, which is the first tombstone passed or the `Empty` slot where
        probing stopped, or the last slot probed when every slot is `Filled`.
        `steps` is the probe step of `index`. */
    method Search(elt: string) returns (index: nat, found: bool, ghost steps: nat)
      requires Valid() && data.Length > 0
      ensures index < data.Length && steps < data.Length
      ensures index == Probe(Home(elt, data.Length), steps, data.Length)
      ensures found <==> elt in Members()
      ensures found ==> flags[index] == Filled && data[index] == elt
      ensures !found ==> forall k :: 0 <= k < steps ==> flags[Probe(Home(elt, data.Length), k, data.Length)] == Filled
      ensures !found && flags[index] == Filled ==> steps == data.Length - 1 && count == data.Length
    {
      var n := data.Length;
      var head := StrHash(elt) % n;
      var deleted: int := -1;
      ghost var deletedStep: nat := 0;
      var locn := 0;
      ghost var locnStep: nat := 0;
      var i := 0;
      while i < n
        invariant 0 <= i <= n
        invariant Passed(data[..], flags[..], head, elt, i, deleted, deletedStep)
        invariant 0 < i ==> locnStep == i - 1 && locn == Probe(head, i - 1, n)
      {
        ProbeIsMod(head, i, n);
        locn := (head + i) % n;
        locnStep := i;
        ghost var deleted0, deletedStep0 := deleted, deletedStep;
        if flags[locn] == Filled {
          if Strcmp(data[locn], elt) == 0 {
            assert data[locn] in Members();
            return locn, true, i;
          }
        } else if flags[locn] == Deleted {
          if deleted == -1 {
            deleted := locn;
            deletedStep := i;
          }
        } else {
          break;
        }
        PassedStep(data[..], flags[..], head, elt, i, deleted0, deletedStep0, deleted, deletedStep);
        i := i + 1;
      }
      ProbeStopsAbsent(data[..], flags[..], elt, i, deleted, deletedStep);
      found := false;
      if deleted == -1 {
        index, steps := locn, locnStep;
        if flags[index] == Filled {
          ProbeAllFilled(flags[..], head);
        }
      } else {
        index, steps := deleted, deletedStep;
      }
    }

    /** addElement: when `elt` is absent, store it in the slot search
        returned and mark that slot `Filled`. There is no capacity check in
        the C code, so room for a new element is the caller's obligation. */
    method AddElement(elt: string)
      requires Valid() && data.Length > 0
      requires elt !in Members() ==> count < data.Length
      modifies this, data, flags
      ensures Valid() && data == old(data) && flags == old(flags)
      ensures Members() == old(Members()) + {elt}
      ensures count == if elt in old(Members()) then old(count) else old(count) + 1
      ensures elt in old(Members()) ==> data[..] == old(data[..]) && flags[..] == old(flags[..])
      ensures elt !in old(Members()) ==>
        exists i, k :: 0 <= k < data.Length && i == Probe(Home(elt, data.Length), k, data.Length)
          && old(flags[i]) != Filled
          && (forall j :: 0 <= j < k ==> old(flags[Probe(Home(elt, data.Length), j, data.Length)]) == Filled)
          && data[..] == old(data[..])[i := elt] && flags[..] == old(flags[..])[i := Filled]
    {
      var index, searched, steps := Search(elt);
      if !searched {
        ghost var d, f := data[..], flags[..];
        data[index] := elt;
        flags[index] := Filled;
        count := count + 1;
        AddKeepsTable(d, f, count - 1, index, elt, steps, data[..], flags[..]);
        assert data[..] == d[index := elt] && flags[..] == f[index := Filled];
      }
    }

    /** removeElement: when `elt` is stored, mark its slot `Deleted`; the
        string stays behind in `data`, as the freed pointer does in C. */
    method RemoveElement(elt: string)
      requires Valid() && data.Length > 0
      modifies this, flags
      ensures Valid() && flags == old(flags)
      ensures data == old(data) && data[..] == old(data[..])
      ensures Members() == old(Members()) - {elt}
      ensures count == if elt in old(Members()) then old(count) - 1 else old(count)
      ensures elt !in old(Members()) ==> flags[..] == old(flags[..])
      ensures elt in old(Members()) ==>
        exists i :: 0 <= i < flags.Length && old(flags[i]) == Filled && data[i] == elt
          && flags[..] == old(flags[..])[i := Deleted]
      ensures forall i :: 0 <= i < flags.Length ==> (flags[i] == Empty <==> old(flags[i]) == Empty)
    {
      var index, searched, steps := Search(elt);
      if searched {
        ghost var f := flags[..];
        FilledCountZero(f);
        flags[index] := Deleted;
        count := count - 1;
        RemoveKeepsTable(data[..], f, count + 1, index, flags[..], count);
        assert flags[..] == f[index := Deleted];
      }
    }

    /** findElement: the stored string equal to `elt`, or NULL. */
    method FindElement(elt: string) returns (r: Option<string>)
      requires Valid() && data.Length > 0
      ensures r == if elt in Members() then Some(elt) else None
    {
      var index, searched, steps := Search(elt);
      if searched {
        return Some(data[index]);
      } else {
        return None;
      }
    }

    /** getElements: a new array of `count` strings, the `Filled` slots in
        slot order. */
    method GetElements() returns (arr: array<string>)
      requires Valid()
      ensures fresh(arr) && arr.Length == count
      ensures arr[..] == FilledIn(data[..], flags[..])
      ensures forall x :: x in arr[..] <==> x in Members()
    {
      arr := new string[count];
      var last := 0;
      for i := 0 to data.Length
        invariant last == FilledCount(flags[..i]) <= count
        invariant arr[..last] == FilledIn(data[..i], flags[..i])
      {
        assert flags[..i + 1][..i] == flags[..i] && data[..i + 1][..i] == data[..i];
        FilledCountPrefix(flags[..], i + 1);
        if flags[i] == Filled {
          arr[last] := data[i];
          last := last + 1;
        }
      }
      assert flags[..data.Length] == flags[..] && data[..data.Length] == data[..];
      FilledInStored(data[..], flags[..]);
    }
  }
}
