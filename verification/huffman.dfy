/** Huffman tree construction of project5/huffman.c: leaves are seeded from a
    257-entry table of byte counts (index 256 is the end-of-file marker), then
    the two smallest trees are merged until one remains. Nodes live in an
    arena: node `k` has `count[k]` and `parent[k]`; `leaves[s]` is the leaf
    of symbol `s`, if it has one. As in the C code a node knows only its
    parent, not its children. */
module Huffman {
  import opened Wrappers
  import PQueue

  /** 256 byte values plus the end-of-file marker. */
  const Symbols: nat := 257
  const EndOfFile: nat := 256
  /** A strictly binary tree over at most 257 leaves has at most 513 nodes. */
  const MaxNodes: nat := 2 * Symbols - 1

  /** A queue entry: an arena node and its count. A node's count is fixed
      when the node is created, so the entry carries a copy of it. */
  datatype Tree = Tree(node: nat, count: nat)

  /** `compare` of huffman.c: the sign of the difference of the counts. */
  function Compare(first: Tree, second: Tree): (r: int)
    ensures r == -1 <==> first.count < second.count
    ensures r == 0 <==> first.count == second.count
    ensures r == 1 <==> first.count > second.count
  {
    if first.count < second.count then -1 else if first.count > second.count then 1 else 0
  }

  /** `compare` meets what the priority queue requires of a comparator. */
  lemma CompareIsValid()
    ensures PQueue.ValidComparator(Compare)
  {
    forall x: Tree, y: Tree, z: Tree ensures PQueue.TransitiveAt(Compare, x, y, z) {
    }
  }

  // ---------------------------------------------------------------------
  // Parent chains

  /** Every parent link points to a node created later. */
  ghost predicate LinksForward(parent: seq<Option<nat>>) {
    forall i :: 0 <= i < |parent| && parent[i].Some? ==> i < parent[i].value < |parent|
  }

  /** The node reached from `i` after `k` parent links, stopping at a node
      without a parent. */
  ghost function Up(parent: seq<Option<nat>>, i: nat, k: nat): (r: nat)
    requires LinksForward(parent) && i < |parent|
    ensures i <= r < |parent|
    decreases k
  {
    if k == 0 || parent[i].None? then i else Up(parent, parent[i].value, k - 1)
  }

  /** Number of parent links from `i` to the top of its chain. */
  ghost function Depth(parent: seq<Option<nat>>, i: nat): nat
    requires LinksForward(parent) && i < |parent|
    decreases |parent| - i
  {
    if parent[i].None? then 0 else 1 + Depth(parent, parent[i].value)
  }

  /** One more link up is the parent of the node `k` links up. */
  lemma {:induction false} UpStep(parent: seq<Option<nat>>, i: nat, k: nat)
    requires LinksForward(parent) && i < |parent|
    requires parent[Up(parent, i, k)].Some?
    ensures Up(parent, i, k + 1) == parent[Up(parent, i, k)].value
    decreases k
  {
    if k > 0 && parent[i].Some? {
      UpStep(parent, parent[i].value, k - 1);
    }
  }

  /** `Depth` is exactly the number of links after which the chain stops. */
  lemma {:induction false} DepthIsHops(parent: seq<Option<nat>>, i: nat, h: nat)
    requires LinksForward(parent) && i < |parent|
    requires parent[Up(parent, i, h)].None?
    requires forall k :: 0 <= k < h ==> parent[Up(parent, i, k)].Some?
    ensures h == Depth(parent, i)
    decreases h
  {
    if h == 0 {
    } else {
      assert parent[Up(parent, i, 0)].Some?;
      var p := parent[i].value;
      forall k | 0 <= k < h - 1 ensures parent[Up(parent, p, k)].Some? {
        assert Up(parent, i, k + 1) == Up(parent, p, k);
      }
      assert Up(parent, i, h) == Up(parent, p, h - 1);
      DepthIsHops(parent, p, h - 1);
    }
  }

  /** hopNumber: walk the parent links from a node to the root, counting them. */
  method HopNumber(parent: array<Option<nat>>, n: nat, leaf: nat) returns (hops: nat)
    requires n <= parent.Length && leaf < n && LinksForward(parent[..n])
    ensures parent[Up(parent[..n], leaf, hops)].None?
    ensures forall k :: 0 <= k < hops ==> parent[Up(parent[..n], leaf, k)].Some?
    ensures hops == Depth(parent[..n], leaf)
  {
    ghost var par := parent[..n];
    var node := leaf;
    hops := 0;
    while parent[node].Some?
      invariant node < n && node == Up(par, leaf, hops)
      invariant forall k :: 0 <= k < hops ==> parent[Up(par, leaf, k)].Some?
      decreases n - node
    {
      UpStep(par, leaf, hops);
      node := parent[node].value;
      hops := hops + 1;
    }
    DepthIsHops(par, leaf, hops);
  }

  /** A finished tree: the last node is the root and every other node has a parent. */
  ghost predicate SingleRoot(parent: seq<Option<nat>>) {
    && |parent| > 0 && LinksForward(parent)
    && parent[|parent| - 1].None?
    && forall i :: 0 <= i < |parent| - 1 ==> parent[i].Some?
  }

  /** In a finished tree every parent chain ends at the root, after `Depth` links. */
  lemma {:induction false} ChainEndsAtRoot(parent: seq<Option<nat>>, i: nat)
    requires SingleRoot(parent) && i < |parent|
    ensures Up(parent, i, Depth(parent, i)) == |parent| - 1
    decreases |parent| - i
  {
    if parent[i].Some? {
      ChainEndsAtRoot(parent, parent[i].value);
    }
  }

  /** In a finished tree only the root is zero links from the root. */
  lemma DepthZeroIffRoot(parent: seq<Option<nat>>, i: nat)
    requires SingleRoot(parent) && i < |parent|
    ensures Depth(parent, i) == 0 <==> i == |parent| - 1
  {
  }

  // ---------------------------------------------------------------------
  // Byte counts

  /** Symbols that get a leaf: every byte value that occurs, and end-of-file. */
  predicate HasLeaf(occ: seq<nat>, s: nat)
    requires |occ| == Symbols && s < Symbols
  {
    s == EndOfFile || occ[s] > 0
  }

  /** The count stored in a symbol's leaf; the end-of-file leaf counts 0. */
  function Weight(occ: seq<nat>, s: nat): nat
    requires |occ| == Symbols && s < Symbols
  {
    if s == EndOfFile then 0 else occ[s]
  }

  /** Sum of a sequence of counts. */
  function Total(s: seq<nat>): nat {
    if |s| == 0 then 0 else Total(s[..|s| - 1]) + s[|s| - 1]
  }

  /** Number of nonzero entries of a sequence of counts. */
  function CountPresent(s: seq<nat>): (r: nat)
    ensures r <= |s|
  {
    if |s| == 0 then 0 else CountPresent(s[..|s| - 1]) + (if s[|s| - 1] > 0 then 1 else 0)
  }

  /** No nonzero entry is the same as a count of zero. */
  lemma {:induction false} CountPresentZero(s: seq<nat>)
    ensures CountPresent(s) == 0 <==> forall i :: 0 <= i < |s| ==> s[i] == 0
  {
    if |s| > 0 {
      var t := s[..|s| - 1];
      CountPresentZero(t);
      assert forall i :: 0 <= i < |t| ==> t[i] == s[i];
    }
  }

  /** Sum of the counts of a set of queue entries. */
  ghost function SumCounts(R: set<Tree>): nat
    decreases R
  {
    if R == {} then 0 else var t :| t in R; t.count + SumCounts(R - {t})
  }

  /** Any member may be taken out of the sum first. */
  lemma {:induction false} SumCountsRemove(R: set<Tree>, t: Tree)
    requires t in R
    ensures SumCounts(R) == t.count + SumCounts(R - {t})
    decreases R
  {
    var u :| u in R && SumCounts(R) == u.count + SumCounts(R - {u});
    if u != t {
      SumCountsRemove(R - {u}, t);
      SumCountsRemove(R - {t}, u);
      assert R - {u} - {t} == R - {t} - {u};
    }
  }

  lemma MultisetOfSetRemove(R: set<Tree>, t: Tree)
    requires t in R
    ensures multiset(R) - multiset{t} == multiset(R - {t})
  {
    assert forall u :: (multiset(R) - multiset{t})[u] == multiset(R - {t})[u];
  }

  lemma MultisetOfSetAdd(R: set<Tree>, t: Tree)
    requires t !in R
    ensures multiset(R) + multiset{t} == multiset(R + {t})
  {
    assert forall u :: (multiset(R) + multiset{t})[u] == multiset(R + {t})[u];
  }

  // ---------------------------------------------------------------------
  // The arena during construction

  /** The queue holds exactly the nodes without a parent, each with its count. */
  ghost predicate Matches(R: set<Tree>, cnt: seq<nat>, par: seq<Option<nat>>, n: nat) {
    && n <= |cnt| && n <= |par|
    && (forall t | t in R :: t.node < n && t.count == cnt[t.node] && par[t.node].None?)
    && (forall i | 0 <= i < n && par[i].None? :: Tree(i, cnt[i]) in R)
  }

  /** Internal node `j` was made from the two distinct older nodes `pair`:
      both point to it and its count is the sum of theirs. */
  ghost predicate Merged(cnt: seq<nat>, par: seq<Option<nat>>, j: nat, pair: (nat, nat)) {
    && j < |cnt| && j < |par|
    && pair.0 != pair.1 && pair.0 < j && pair.1 < j
    && par[pair.0] == Some(j) && par[pair.1] == Some(j)
    && cnt[j] == cnt[pair.0] + cnt[pair.1]
  }

  /** Every parent link among the first `n` nodes goes forward to an internal
      node, which records the linked node as one of its two children. */
  ghost predicate LinksToKids(par: seq<Option<nat>>, n: nat, leafCount: nat, kids: seq<(nat, nat)>) {
    && n <= |par| && leafCount <= n && |kids| == n - leafCount
    && forall i :: 0 <= i < n && par[i].Some? ==> IsKidOf(par[i].value, i, n, leafCount, kids)
  }

  ghost predicate IsKidOf(p: nat, i: nat, n: nat, leafCount: nat, kids: seq<(nat, nat)>) {
    && i < p < n && leafCount <= p && p - leafCount < |kids|
    && (i == kids[p - leafCount].0 || i == kids[p - leafCount].1)
  }

  /** The first `n` arena nodes: `leafCount` leaves, then internal nodes whose
      children are recorded in `kids`. A node is the parent of exactly its two
      recorded children. */
  ghost predicate Forest(cnt: seq<nat>, par: seq<Option<nat>>, n: nat, leafCount: nat, kids: seq<(nat, nat)>) {
    && n <= |cnt|
    && LinksToKids(par, n, leafCount, kids)
    && forall m :: 0 <= m < |kids| ==> Merged(cnt, par, leafCount + m, kids[m])
  }

  /** One iteration of the merge loop keeps the forest shape. */
  lemma MergeKeepsForest(cnt: seq<nat>, par: seq<Option<nat>>, n: nat, leafCount: nat, kids: seq<(nat, nat)>,
                         R: set<Tree>, first: Tree, second: Tree)
    requires Forest(cnt, par, n, leafCount, kids) && Matches(R, cnt, par, n)
    requires first in R && second in R - {first} && n < |cnt| && n < |par|
    ensures Forest(cnt[n := first.count + second.count],
                   par[n := None][first.node := Some(n)][second.node := Some(n)],
                   n + 1, leafCount, kids + [(first.node, second.node)])
  {
    var cnt' := cnt[n := first.count + second.count];
    var par' := par[n := None][first.node := Some(n)][second.node := Some(n)];
    var kids' := kids + [(first.node, second.node)];
    assert first.node != second.node;
    forall m | 0 <= m < |kids'|
      ensures Merged(cnt', par', leafCount + m, kids'[m])
    {
      if m < |kids| {
        assert Merged(cnt, par, leafCount + m, kids[m]);
      }
    }
    forall i | 0 <= i < n + 1 && par'[i].Some?
      ensures IsKidOf(par'[i].value, i, n + 1, leafCount, kids')
    {
      if i != first.node && i != second.node {
        assert par'[i] == par[i];
        assert IsKidOf(par[i].value, i, n, leafCount, kids);
      }
    }
    assert LinksToKids(par', n + 1, leafCount, kids');
  }

  /** One iteration of the merge loop keeps the queue equal to the parentless nodes. */
  lemma MergeKeepsMatches(cnt: seq<nat>, par: seq<Option<nat>>, n: nat, R: set<Tree>, first: Tree, second: Tree)
    requires Matches(R, cnt, par, n)
    requires first in R && second in R - {first} && n < |cnt| && n < |par|
    ensures Matches(R - {first} - {second} + {Tree(n, first.count + second.count)},
                    cnt[n := first.count + second.count],
                    par[n := None][first.node := Some(n)][second.node := Some(n)], n + 1)
  {
    var third := Tree(n, first.count + second.count);
    var cnt' := cnt[n := third.count];
    var par' := par[n := None][first.node := Some(n)][second.node := Some(n)];
    var R' := R - {first} - {second} + {third};
    forall i | 0 <= i < n + 1 && par'[i].None?
      ensures Tree(i, cnt'[i]) in R'
    {
      if i < n {
        assert Tree(i, cnt[i]) in R;
      }
    }
  }

  /** Replacing two entries by their sum keeps the total and shrinks the queue by one. */
  lemma MergeKeepsTotal(R: set<Tree>, first: Tree, second: Tree, third: Tree)
    requires first in R && second in R - {first} && third !in R
    requires third.count == first.count + second.count
    ensures SumCounts(R - {first} - {second} + {third}) == SumCounts(R)
    ensures |R - {first} - {second} + {third}| == |R| - 1
  {
    var R1 := R - {first};
    var R2 := R1 - {second};
    assert |R1| == |R| - 1;
    assert |R2| == |R1| - 1;
    assert third !in R2;
    SumCountsRemove(R, first);
    SumCountsRemove(R1, second);
    SumCountsAdd(R2, third);
  }

  /** Adding a new member adds its count. */
  lemma SumCountsAdd(R: set<Tree>, t: Tree)
    requires t !in R
    ensures SumCounts(R + {t}) == SumCounts(R) + t.count
    ensures |R + {t}| == |R| + 1
  {
    SumCountsRemove(R + {t}, t);
    assert R + {t} - {t} == R;
  }

  /** The last merge leaves a single tree: its root is the newest node, every
      other node has a parent, and the root's count is the total. */
  lemma OneTreeLeft(cnt: seq<nat>, par: seq<Option<nat>>, n: nat, leafCount: nat, kids: seq<(nat, nat)>, R: set<Tree>)
    requires LinksToKids(par, n, leafCount, kids) && Matches(R, cnt, par, n)
    requires |R| == 1 && 0 < n && par[n - 1].None?
    ensures SingleRoot(par[..n])
    ensures cnt[n - 1] == SumCounts(R)
  {
    var root := Tree(n - 1, cnt[n - 1]);
    assert root in R;
    assert R == {root} by {
      assert |R - {root}| == 0;
      assert R - {root} == {};
    }
    forall i | 0 <= i < n && par[..n][i].Some? ensures i < par[..n][i].value < n {
      assert IsKidOf(par[i].value, i, n, leafCount, kids);
    }
    SumCountsRemove(R, root);
  }

  lemma SetMultisetCard(R: set<Tree>)
    ensures |multiset(R)| == |R|
    decreases R
  {
    if R != {} {
      var t :| t in R;
      SetMultisetCard(R - {t});
      MultisetOfSetAdd(R - {t}, t);
      assert R - {t} + {t} == R;
    }
  }

  // ---------------------------------------------------------------------
  // Step 2 of main: the leaves

  /** The arena after the leaves of symbols `0 .. i - 1` are created: a
      symbol below `i` has a leaf exactly when it has one at all, nodes are
      numbered in symbol order, `symbol[k]` is the symbol of node `k`, and no
      node has a parent yet. */
  ghost predicate Seeded(occ: seq<nat>, i: nat, cnt: seq<nat>, par: seq<Option<nat>>,
                         leaves: seq<Option<nat>>, symbol: seq<nat>, n: nat) {
    && |occ| == Symbols && i <= Symbols
    && |cnt| == MaxNodes && |par| == MaxNodes && |leaves| == Symbols
    && n == |symbol| && n <= i
    && (forall s :: 0 <= s < Symbols ==> (leaves[s].Some? <==> s < i && HasLeaf(occ, s)))
    && (forall s :: 0 <= s < Symbols && leaves[s].Some? ==> leaves[s].value < n && symbol[leaves[s].value] == s)
    && (forall k :: 0 <= k < n ==> symbol[k] < i && leaves[symbol[k]] == Some(k) && cnt[k] == Weight(occ, symbol[k]))
    && (forall k :: 0 <= k < |par| ==> par[k].None?)
  }

  /** Creating the leaf of symbol `i` as node `n` and queueing it, from the
      arena `cnt`, `par`, `leaves` before to `cnt'`, `par'`, `leaves'` after. */
  lemma SeedLeaf(occ: seq<nat>, i: nat, cnt: seq<nat>, par: seq<Option<nat>>,
                 leaves: seq<Option<nat>>, symbol: seq<nat>, n: nat, R: set<Tree>,
                 cnt': seq<nat>, par': seq<Option<nat>>, leaves': seq<Option<nat>>, symbol': seq<nat>, R': set<Tree>)
    requires Seeded(occ, i, cnt, par, leaves, symbol, n) && Matches(R, cnt, par, n) && |R| == n
    requires i < Symbols && HasLeaf(occ, i)
    requires cnt' == cnt[n := Weight(occ, i)] && par' == par[n := None] && leaves' == leaves[i := Some(n)]
    requires symbol' == symbol + [i] && R' == R + {Tree(n, Weight(occ, i))}
    ensures Seeded(occ, i + 1, cnt', par', leaves', symbol', n + 1)
    ensures Matches(R', cnt', par', n + 1) && |R'| == n + 1
    ensures SumCounts(R') == SumCounts(R) + Weight(occ, i)
    ensures multiset(R) + multiset{Tree(n, Weight(occ, i))} == multiset(R')
  {
    var t := Tree(n, Weight(occ, i));
    assert par' == par;
    assert t !in R;
    SumCountsAdd(R, t);
    MultisetOfSetAdd(R, t);
    forall u | u in R' ensures u.node < n + 1 && u.count == cnt'[u.node] && par'[u.node].None? {
      if u != t {
        assert u in R;
      }
    }
    forall j | 0 <= j < n + 1 && par'[j].None? ensures Tree(j, cnt'[j]) in R' {
      if j < n {
        assert Tree(j, cnt[j]) in R;
      }
    }
    SeedLeafShape(occ, i, cnt, par, leaves, symbol, n);
  }

  lemma SeedLeafShape(occ: seq<nat>, i: nat, cnt: seq<nat>, par: seq<Option<nat>>,
                      leaves: seq<Option<nat>>, symbol: seq<nat>, n: nat)
    requires Seeded(occ, i, cnt, par, leaves, symbol, n)
    requires i < Symbols && HasLeaf(occ, i)
    ensures Seeded(occ, i + 1, cnt[n := Weight(occ, i)], par, leaves[i := Some(n)], symbol + [i], n + 1)
  {
    var cnt', leaves', symbol' := cnt[n := Weight(occ, i)], leaves[i := Some(n)], symbol + [i];
    forall k | 0 <= k < n + 1
      ensures symbol'[k] < i + 1 && leaves'[symbol'[k]] == Some(k) && cnt'[k] == Weight(occ, symbol'[k])
    {
      if k < n {
        assert symbol'[k] == symbol[k] < i;
      }
    }
    forall s | 0 <= s < Symbols && leaves'[s].Some?
      ensures leaves'[s].value < n + 1 && symbol'[leaves'[s].value] == s
    {
      if s != i {
        assert leaves'[s] == leaves[s];
      }
    }
  }

  /** Before any leaf is made. */
  lemma SeedStarts(occ: seq<nat>, cnt: seq<nat>, par: seq<Option<nat>>, leaves: seq<Option<nat>>)
    requires |occ| == Symbols && |cnt| == MaxNodes && |par| == MaxNodes && |leaves| == Symbols
    requires forall k :: 0 <= k < |par| ==> par[k].None?
    requires forall s :: 0 <= s < |leaves| ==> leaves[s].None?
    ensures Seeded(occ, 0, cnt, par, leaves, [], 0) && Matches({}, cnt, par, 0)
    ensures CountPresent(occ[..0]) == 0 && Total(occ[..0]) == 0 && SumCounts({}) == 0
  {
  }

  /** Skipping a symbol that gets no leaf. */
  lemma SeedSkip(occ: seq<nat>, i: nat, cnt: seq<nat>, par: seq<Option<nat>>,
                 leaves: seq<Option<nat>>, symbol: seq<nat>, n: nat)
    requires Seeded(occ, i, cnt, par, leaves, symbol, n)
    requires i < Symbols && !HasLeaf(occ, i)
    ensures Seeded(occ, i + 1, cnt, par, leaves, symbol, n)
  {
  }

  lemma PrefixStep(occ: seq<nat>, i: nat)
    requires i < |occ|
    ensures Total(occ[..i + 1]) == Total(occ[..i]) + occ[i]
    ensures CountPresent(occ[..i + 1]) == CountPresent(occ[..i]) + (if occ[i] > 0 then 1 else 0)
  {
    assert occ[..i + 1][..i] == occ[..i];
  }

  /** Lines 86-90 (and 95-99 for end-of-file) of main: node `n` becomes a
      parentless leaf with count `w`, is queued, and is recorded as the leaf
      of symbol `i`. */
  method MakeLeaf(pq: PQueue.Queue<Tree>, count: array<nat>, parent: array<Option<nat>>,
                  leaves: array<Option<nat>>, n: nat, i: nat, w: nat)
    requires pq.Valid() && count !in pq.Repr && parent !in pq.Repr && leaves !in pq.Repr
    requires n < count.Length && n < parent.Length && i < leaves.Length && parent != leaves
    modifies pq.Repr, count, parent, leaves
    ensures pq.Valid() && fresh(pq.Repr - old(pq.Repr))
    ensures multiset(pq.Contents()) == multiset(old(pq.Contents())) + multiset{Tree(n, w)}
    ensures count[..] == old(count[..])[n := w]
    ensures parent[..] == old(parent[..])[n := None]
    ensures leaves[..] == old(leaves[..])[i := Some(n)]
  {
    count[n] := w;
    parent[n] := None;
    pq.AddEntry(Tree(n, w));
    leaves[i] := Some(n);
  }

  /** The leaf of symbol `i` becomes node `n`, with the seeding state as
      ghost parameters. */
  method PlaceLeaf(pq: PQueue.Queue<Tree>, count: array<nat>, parent: array<Option<nat>>,
                   leaves: array<Option<nat>>, occ: seq<nat>, i: nat, n: nat, ghost symbol: seq<nat>, ghost R: set<Tree>)
    returns (ghost symbol': seq<nat>, ghost R': set<Tree>)
    requires pq.Valid() && count !in pq.Repr && parent !in pq.Repr && leaves !in pq.Repr && parent != leaves
    requires Seeded(occ, i, count[..], parent[..], leaves[..], symbol, n) && Matches(R, count[..], parent[..], n) && |R| == n
    requires multiset(pq.Contents()) == multiset(R)
    requires i < Symbols && HasLeaf(occ, i)
    modifies pq.Repr, count, parent, leaves
    ensures pq.Valid() && fresh(pq.Repr - old(pq.Repr))
    ensures Seeded(occ, i + 1, count[..], parent[..], leaves[..], symbol', n + 1)
    ensures Matches(R', count[..], parent[..], n + 1) && |R'| == n + 1
    ensures multiset(pq.Contents()) == multiset(R')
    ensures SumCounts(R') == SumCounts(R) + Weight(occ, i)
  {
    ghost var cnt0, par0, leaves0 := count[..], parent[..], leaves[..];
    MakeLeaf(pq, count, parent, leaves, n, i, Weight(occ, i));
    symbol' := symbol + [i];
    R' := R + {Tree(n, Weight(occ, i))};
    SeedLeaf(occ, i, cnt0, par0, leaves0, symbol, n, R, count[..], parent[..], leaves[..], symbol', R');
  }

  /** Lines 75-80 of main and the node arena: an empty queue ordered by
      `compare`, no leaves, no nodes. */
  method NewArena() returns (pq: PQueue.Queue<Tree>, count: array<nat>, parent: array<Option<nat>>,
                             leaves: array<Option<nat>>)
    ensures fresh(pq) && fresh(pq.Repr) && fresh(count) && fresh(parent) && fresh(leaves)
    ensures pq.Valid() && pq.compare == Compare && pq.Contents() == []
    ensures count.Length == MaxNodes && parent.Length == MaxNodes && leaves.Length == Symbols
    ensures forall k :: 0 <= k < MaxNodes ==> parent[k].None?
    ensures forall s :: 0 <= s < Symbols ==> leaves[s].None?
  {
    CompareIsValid();
    pq := new PQueue.Queue<Tree>(Compare);
    leaves := new Option<nat>[Symbols](_ => None);
    count := new nat[MaxNodes](_ => 0);
    parent := new Option<nat>[MaxNodes](_ => None);
  }

  /** The seeding state after the byte values below `i` were visited. */
  ghost predicate SeedingBytes(occ: seq<nat>, i: nat, cnt: seq<nat>, par: seq<Option<nat>>,
                               leaves: seq<Option<nat>>, symbol: seq<nat>, n: nat, R: set<Tree>) {
    && i <= EndOfFile && |occ| == Symbols
    && Seeded(occ, i, cnt, par, leaves, symbol, n) && Matches(R, cnt, par, n) && |R| == n
    && n == CountPresent(occ[..i]) && SumCounts(R) == Total(occ[..i])
  }

  /** One iteration of the loop of step 2. */
  lemma SeedingBytesStep(occ: seq<nat>, i: nat, cnt: seq<nat>, par: seq<Option<nat>>,
                         leaves: seq<Option<nat>>, symbol: seq<nat>, n: nat, R: set<Tree>,
                         cnt': seq<nat>, par': seq<Option<nat>>, leaves': seq<Option<nat>>, symbol': seq<nat>,
                         n': nat, R': set<Tree>)
    requires i < EndOfFile && SeedingBytes(occ, i, cnt, par, leaves, symbol, n, R)
    requires occ[i] > 0 ==>
      (Seeded(occ, i + 1, cnt', par', leaves', symbol', n')
       && Matches(R', cnt', par', n') && |R'| == n' == n + 1 && SumCounts(R') == SumCounts(R) + occ[i])
    requires occ[i] == 0 ==> cnt' == cnt && par' == par && leaves' == leaves && symbol' == symbol && n' == n && R' == R
    ensures SeedingBytes(occ, i + 1, cnt', par', leaves', symbol', n', R')
  {
    PrefixStep(occ, i);
    if occ[i] == 0 {
      SeedSkip(occ, i, cnt, par, leaves, symbol, n);
    }
  }

  /** The loop of step 2 (lines 83-92 of main): a leaf for every byte value
      that occurs, in byte order. */
  method SeedBytes(pq: PQueue.Queue<Tree>, count: array<nat>, parent: array<Option<nat>>,
                   leaves: array<Option<nat>>, occ: seq<nat>)
    returns (n: nat, ghost symbol: seq<nat>, ghost R: set<Tree>)
    requires pq.Valid() && count !in pq.Repr && parent !in pq.Repr && leaves !in pq.Repr && parent != leaves
    requires SeedingBytes(occ, 0, count[..], parent[..], leaves[..], [], 0, {}) && pq.Contents() == []
    modifies pq.Repr, count, parent, leaves
    ensures pq.Valid() && fresh(pq.Repr - old(pq.Repr))
    ensures SeedingBytes(occ, EndOfFile, count[..], parent[..], leaves[..], symbol, n, R)
    ensures multiset(pq.Contents()) == multiset(R)
  {
    n := 0;
    symbol := [];
    R := {};
    for i := 0 to EndOfFile
      invariant pq.Valid() && fresh(pq.Repr - old(pq.Repr))
      invariant count !in pq.Repr && parent !in pq.Repr && leaves !in pq.Repr
      invariant SeedingBytes(occ, i, count[..], parent[..], leaves[..], symbol, n, R)
      invariant multiset(pq.Contents()) == multiset(R)
    {
      ghost var cnt0, par0, leaves0, symbol0, n0, R0 := count[..], parent[..], leaves[..], symbol, n, R;
      if occ[i] > 0 {
        symbol, R := PlaceLeaf(pq, count, parent, leaves, occ, i, n, symbol, R);
        n := n + 1;
      }
      SeedingBytesStep(occ, i, cnt0, par0, leaves0, symbol0, n0, R0, count[..], parent[..], leaves[..], symbol, n, R);
    }
  }

  /** Step 2 of main: a queue ordered by `compare`, a leaf for every byte
      value that occurs (in byte order) and then the zero-count end-of-file
      leaf, each queued and recorded in `leaves`. */
  method SeedLeaves(occ: seq<nat>)
    returns (pq: PQueue.Queue<Tree>, count: array<nat>, parent: array<Option<nat>>,
             leaves: array<Option<nat>>, n: nat, ghost symbol: seq<nat>, ghost R: set<Tree>)
    requires |occ| == Symbols
    ensures fresh(count) && fresh(parent) && fresh(leaves) && fresh(pq.Repr)
    ensures pq.Valid() && pq.compare == Compare && count !in pq.Repr && parent !in pq.Repr
    ensures Seeded(occ, Symbols, count[..], parent[..], leaves[..], symbol, n)
    ensures Matches(R, count[..], parent[..], n) && |R| == n
    ensures multiset(pq.Contents()) == multiset(R)
    ensures n == CountPresent(occ[..EndOfFile]) + 1
    ensures SumCounts(R) == Total(occ[..EndOfFile])
  {
    pq, count, parent, leaves := NewArena();
    SeedStarts(occ, count[..], parent[..], leaves[..]);
    ghost var r0 := pq.Repr;
    n, symbol, R := SeedBytes(pq, count, parent, leaves, occ);
    ghost var r1 := pq.Repr;
    assert fresh(r1) by {
      assert r1 <= r0 + (r1 - r0);
    }
    symbol, R := PlaceLeaf(pq, count, parent, leaves, occ, EndOfFile, n, symbol, R);
    assert pq.Repr <= r1 + (pq.Repr - r1);
    n := n + 1;
  }

  // ---------------------------------------------------------------------
  // Step 3 of main: merging

  /** Lines 110-114 of main: node `n` gets the sum of the counts and becomes
      the parent of the two removed nodes. */
  method Link(count: array<nat>, parent: array<Option<nat>>, n: nat, first: Tree, second: Tree)
    requires n < count.Length && n < parent.Length && first.node < parent.Length && second.node < parent.Length
    modifies count, parent
    ensures count[..] == old(count[..])[n := first.count + second.count]
    ensures parent[..] == old(parent[..])[n := None][first.node := Some(n)][second.node := Some(n)]
  {
    count[n] := first.count + second.count;
    parent[n] := None;
    parent[first.node] := Some(n);
    parent[second.node] := Some(n);
  }

  /** Lines 108-109 of main: remove the two trees with the smallest counts. */
  method TakeTwo(pq: PQueue.Queue<Tree>) returns (first: Tree, second: Tree)
    requires pq.Valid() && pq.compare == Compare && pq.NumEntries() > 1
    modifies pq.Repr
    ensures pq.Valid() && pq.Repr == old(pq.Repr)
    ensures first in old(pq.Contents()) && forall t | t in old(pq.Contents()) :: first.count <= t.count
    ensures second in multiset(old(pq.Contents())) - multiset{first}
    ensures forall t | t in multiset(old(pq.Contents())) - multiset{first} :: second.count <= t.count
    ensures multiset(pq.Contents()) == multiset(old(pq.Contents())) - multiset{first} - multiset{second}
  {
    first := pq.RemoveEntry();
    ghost var rest := pq.Contents();
    second := pq.RemoveEntry();
    assert forall t | t in multiset(old(pq.Contents())) - multiset{first} :: t in rest;
  }

  /** Lines 110-115 of main: node `n` gets the sum of the counts, becomes the
      parent of both removed nodes, and is queued. */
  method Attach(pq: PQueue.Queue<Tree>, count: array<nat>, parent: array<Option<nat>>, n: nat, first: Tree, second: Tree)
    requires pq.Valid() && count !in pq.Repr && parent !in pq.Repr
    requires n < count.Length && n < parent.Length && first.node < n && second.node < n
    modifies pq.Repr, count, parent
    ensures pq.Valid() && fresh(pq.Repr - old(pq.Repr))
    ensures multiset(pq.Contents()) == multiset(old(pq.Contents())) + multiset{Tree(n, first.count + second.count)}
    ensures count[..] == old(count[..])[n := first.count + second.count]
    ensures parent[..] == old(parent[..])[n := None][first.node := Some(n)][second.node := Some(n)]
  {
    Link(count, parent, n, first, second);
    pq.AddEntry(Tree(n, first.count + second.count));
  }

  /** Lines 108-115 of main: remove the two smallest trees, make a new node
      `n` whose count is their sum and which is the parent of both, and queue it. */
  method MergeTwo(pq: PQueue.Queue<Tree>, count: array<nat>, parent: array<Option<nat>>, n: nat)
    returns (first: Tree, second: Tree)
    requires pq.Valid() && pq.compare == Compare && count !in pq.Repr && parent !in pq.Repr
    requires pq.NumEntries() > 1
    requires n < count.Length && n < parent.Length
    requires forall t | t in pq.Contents() :: t.node < n
    modifies pq.Repr, count, parent
    ensures pq.Valid() && fresh(pq.Repr - old(pq.Repr))
    ensures first in old(pq.Contents()) && forall t | t in old(pq.Contents()) :: first.count <= t.count
    ensures second in multiset(old(pq.Contents())) - multiset{first}
    ensures forall t | t in multiset(old(pq.Contents())) - multiset{first} :: second.count <= t.count
    ensures multiset(pq.Contents())
            == multiset(old(pq.Contents())) - multiset{first} - multiset{second} + multiset{Tree(n, first.count + second.count)}
    ensures count[..] == old(count[..])[n := first.count + second.count]
    ensures parent[..] == old(parent[..])[n := None][first.node := Some(n)][second.node := Some(n)]
  {
    first, second := TakeTwo(pq);
    assert first.node < n && second.node < n;
    Attach(pq, count, parent, n, first, second);
  }

  /** The state of the merge loop: the forest, the queue as its set of
      parentless nodes, one node fewer in the queue per merge, and the newest
      node still parentless. */
  ghost predicate Merging(cnt: seq<nat>, par: seq<Option<nat>>, n: nat, leafCount: nat,
                          kids: seq<(nat, nat)>, R: set<Tree>) {
    && Forest(cnt, par, n, leafCount, kids) && Matches(R, cnt, par, n)
    && 1 <= |R| && |R| + (n - leafCount) == leafCount
    && 0 < n && par[n - 1].None?
  }

  /** Before the first merge every leaf is a tree of its own. */
  lemma MergingStarts(cnt: seq<nat>, par: seq<Option<nat>>, leafCount: nat, R: set<Tree>)
    requires Matches(R, cnt, par, leafCount) && |R| == leafCount > 0
    requires forall k :: 0 <= k < |par| ==> par[k].None?
    ensures Merging(cnt, par, leafCount, leafCount, [], R)
  {
  }

  /** Every queued entry names an existing node. */
  lemma QueuedBelow(cnt: seq<nat>, par: seq<Option<nat>>, n: nat, R: set<Tree>, queued: seq<Tree>)
    requires Matches(R, cnt, par, n) && multiset(queued) == multiset(R)
    ensures forall t | t in queued :: t.node < n
  {
    forall t | t in queued ensures t.node < n {
      assert t in multiset(R);
    }
  }

  /** One iteration of the merge loop, from the arena `cnt`, `par` and queue
      contents `queued` at its start to the arena `cnt'`, `par'` after it. */
  lemma MergeStep(cnt: seq<nat>, par: seq<Option<nat>>, n: nat, leafCount: nat,
                  kids: seq<(nat, nat)>, R: set<Tree>, queued: seq<Tree>, first: Tree, second: Tree,
                  cnt': seq<nat>, par': seq<Option<nat>>, R': set<Tree>)
    requires Merging(cnt, par, n, leafCount, kids, R) && multiset(queued) == multiset(R)
    requires first in queued && second in multiset(queued) - multiset{first}
    requires n < |cnt| && n < |par| && first.node < n && second.node < n
    requires cnt' == cnt[n := first.count + second.count]
    requires par' == par[n := None][first.node := Some(n)][second.node := Some(n)]
    requires R' == R - {first} - {second} + {Tree(n, first.count + second.count)}
    ensures Merging(cnt', par', n + 1, leafCount, kids + [(first.node, second.node)], R')
    ensures SumCounts(R') == SumCounts(R) && |R'| == |R| - 1
    ensures multiset(queued) - multiset{first} - multiset{second} + multiset{Tree(n, first.count + second.count)}
            == multiset(R')
  {
    var third := Tree(n, first.count + second.count);
    assert first in multiset(R);
    MultisetOfSetRemove(R, first);
    MultisetOfSetRemove(R - {first}, second);
    MergeKeepsForest(cnt, par, n, leafCount, kids, R, first, second);
    MergeKeepsMatches(cnt, par, n, R, first, second);
    MergeKeepsTotal(R, first, second, third);
    MultisetOfSetAdd(R - {first} - {second}, third);
  }

  /** One iteration of the loop of step 3, with the loop state as ghost
      parameters: the queue loses the two merged trees and gains the new one. */
  method MergeOnce(pq: PQueue.Queue<Tree>, count: array<nat>, parent: array<Option<nat>>, n: nat,
                   leafCount: nat, ghost kids: seq<(nat, nat)>, ghost R: set<Tree>)
    returns (ghost kids': seq<(nat, nat)>, ghost R': set<Tree>)
    requires pq.Valid() && pq.compare == Compare && count !in pq.Repr && parent !in pq.Repr
    requires count.Length == MaxNodes && parent.Length == MaxNodes && leafCount <= Symbols
    requires multiset(pq.Contents()) == multiset(R) && Merging(count[..], parent[..], n, leafCount, kids, R)
    requires pq.NumEntries() > 1
    modifies pq.Repr, count, parent
    ensures pq.Valid() && fresh(pq.Repr - old(pq.Repr))
    ensures multiset(pq.Contents()) == multiset(R')
    ensures Merging(count[..], parent[..], n + 1, leafCount, kids', R')
    ensures SumCounts(R') == SumCounts(R) && |R'| == |R| - 1
    ensures count[..leafCount] == old(count[..leafCount])
  {
    ghost var cnt0, par0, queued := count[..], parent[..], pq.Contents();
    SetMultisetCard(R);
    QueuedBelow(cnt0, par0, n, R, queued);
    var first, second := MergeTwo(pq, count, parent, n);
    R' := R - {first} - {second} + {Tree(n, first.count + second.count)};
    kids' := kids + [(first.node, second.node)];
    MergeStep(cnt0, par0, n, leafCount, kids, R, queued, first, second, count[..], parent[..], R');
    assert count[..leafCount] == cnt0[..leafCount];
  }

  /** Step 3 of main: merge while more than one tree is queued. Starting from
      `leafCount` parentless leaves, this makes `leafCount - 1` internal nodes,
      after which the newest node is the single root and carries the total count. */
  method MergeAll(pq: PQueue.Queue<Tree>, count: array<nat>, parent: array<Option<nat>>,
                  leafCount: nat, ghost R0: set<Tree>)
    returns (n: nat, ghost kids: seq<(nat, nat)>)
    requires pq.Valid() && pq.compare == Compare && count !in pq.Repr && parent !in pq.Repr
    requires count.Length == MaxNodes && parent.Length == MaxNodes
    requires 0 < leafCount <= Symbols
    requires forall k :: 0 <= k < MaxNodes ==> parent[k].None?
    requires Matches(R0, count[..], parent[..], leafCount) && |R0| == leafCount
    requires multiset(pq.Contents()) == multiset(R0)
    modifies pq.Repr, count, parent
    ensures n == 2 * leafCount - 1
    ensures count[..leafCount] == old(count[..leafCount])
    ensures Forest(count[..], parent[..], n, leafCount, kids)
    ensures SingleRoot(parent[..n])
    ensures count[n - 1] == SumCounts(R0)
    ensures pq.Valid() && fresh(pq.Repr - old(pq.Repr))
    ensures pq.Contents() == [Tree(n - 1, count[n - 1])]
  {
    n := leafCount;
    kids := [];
    ghost var R := R0;
    MergingStarts(count[..], parent[..], leafCount, R);
    while pq.NumEntries() > 1
      invariant pq.Valid() && pq.compare == Compare && fresh(pq.Repr - old(pq.Repr))
      invariant count !in pq.Repr && parent !in pq.Repr
      invariant multiset(pq.Contents()) == multiset(R)
      invariant Merging(count[..], parent[..], n, leafCount, kids, R)
      invariant SumCounts(R) == SumCounts(R0)
      invariant count[..leafCount] == old(count[..leafCount])
      decreases |R|
    {
      kids, R := MergeOnce(pq, count, parent, n, leafCount, kids, R);
      n := n + 1;
    }
    SetMultisetCard(R);
    OneTreeLeft(count[..], parent[..], n, leafCount, kids, R);
    LastTreeQueued(count[..], parent[..], n, R, pq.Contents());
  }

  /** When one tree is left, the queue holds exactly the newest node. */
  lemma LastTreeQueued(cnt: seq<nat>, par: seq<Option<nat>>, n: nat, R: set<Tree>, queued: seq<Tree>)
    requires Matches(R, cnt, par, n) && |R| == 1 && 0 < n && par[n - 1].None?
    requires multiset(queued) == multiset(R)
    ensures queued == [Tree(n - 1, cnt[n - 1])]
  {
    var root := Tree(n - 1, cnt[n - 1]);
    assert root in R;
    assert R == {root} by {
      assert |R - {root}| == 0;
      assert R - {root} == {};
    }
    SetMultisetCard(R);
    assert |queued| == 1;
    assert queued[0] in multiset(R);
  }

  // ---------------------------------------------------------------------
  // Steps 2 and 3 together

  /** Steps 2 and 3 of main: the Huffman tree of the byte counts `occ`.
      `leafCount` leaves (one per byte value that occurs, and end-of-file)
      are nodes `0 .. leafCount - 1`; the merges make nodes `leafCount .. n - 1`,
      recorded in `kids`; node `n - 1` is the single root and carries the
      number of input bytes. */
  method Build(occ: seq<nat>)
    returns (count: array<nat>, parent: array<Option<nat>>, leaves: array<Option<nat>>, n: nat,
             ghost leafCount: nat, ghost symbol: seq<nat>, ghost kids: seq<(nat, nat)>)
    requires |occ| == Symbols
    ensures fresh(count) && fresh(parent) && fresh(leaves)
    ensures count.Length == MaxNodes && parent.Length == MaxNodes && leaves.Length == Symbols
    ensures leafCount == CountPresent(occ[..EndOfFile]) + 1 && n == 2 * leafCount - 1
    ensures |symbol| == leafCount && forall k :: 0 <= k < leafCount ==> symbol[k] < Symbols && leaves[symbol[k]] == Some(k)
    ensures forall s :: 0 <= s < Symbols ==> (leaves[s].Some? <==> HasLeaf(occ, s))
    ensures forall s :: 0 <= s < Symbols && leaves[s].Some? ==>
              leaves[s].value < leafCount && symbol[leaves[s].value] == s && count[leaves[s].value] == Weight(occ, s)
    ensures Forest(count[..], parent[..], n, leafCount, kids)
    ensures SingleRoot(parent[..n])
    ensures count[n - 1] == Total(occ[..EndOfFile])
  {
    var pq: PQueue.Queue<Tree>;
    ghost var R: set<Tree>;
    var seeds: nat;
    pq, count, parent, leaves, seeds, symbol, R := SeedLeaves(occ);
    leafCount := seeds;
    ghost var seeded := count[..];
    n, kids := MergeAll(pq, count, parent, seeds, R);
    forall s | 0 <= s < Symbols && leaves[s].Some?
      ensures count[leaves[s].value] == Weight(occ, s)
    {
      assert seeded[..leafCount][leaves[s].value] == count[..leafCount][leaves[s].value];
    }
  }

  /** Code lengths of the finished tree: when some byte value occurs there
      are at least two leaves and every leaf is at least one link below the
      root; on empty input the end-of-file leaf is the root, zero links from it. */
  lemma LeafDepths(occ: seq<nat>, parent: seq<Option<nat>>, leafCount: nat)
    requires |occ| == Symbols && SingleRoot(parent)
    requires leafCount == CountPresent(occ[..EndOfFile]) + 1 && |parent| == 2 * leafCount - 1
    ensures (exists s :: 0 <= s < EndOfFile && occ[s] > 0) ==>
              leafCount >= 2 && forall k :: 0 <= k < leafCount ==> Depth(parent, k) >= 1
    ensures (forall s :: 0 <= s < EndOfFile ==> occ[s] == 0) ==> leafCount == 1 && Depth(parent, 0) == 0
  {
    var bytes := occ[..EndOfFile];
    CountPresentZero(bytes);
    assert forall s :: 0 <= s < EndOfFile ==> bytes[s] == occ[s];
    forall k | 0 <= k < leafCount && leafCount >= 2 ensures Depth(parent, k) >= 1 {
      DepthZeroIffRoot(parent, k);
    }
  }
}
