/**
  Tree building (`build_tree`, `merge_node`, `compare_node`, `compare_char`).
  The active nodes are kept sorted by (frequency, symbol); each step merges
  the two least active nodes into a new internal node appended to the active
  set, until one node, the root, remains.
*/
module Build {
  import opened Symbols
  import opened Nodes
  import opened Shape
  import opened Frequency

  /** The order `qsort` establishes: by frequency, then by symbol. */
  predicate KeyLess(a: Tree, b: Tree)
    requires a.Node? && b.Node?
  {
    a.freq < b.freq || (a.freq == b.freq && a.data < b.data)
  }

  predicate KeyLe(a: Tree, b: Tree)
    requires a.Node? && b.Node?
  {
    !KeyLess(b, a)
  }

  /** `compare_node`: negative, zero or positive as `a` sorts before, with or after `b`. */
  function CompareNode(a: Tree, b: Tree): (r: int)
    requires a.Node? && b.Node?
    ensures r < 0 <==> KeyLess(a, b)
    ensures r > 0 <==> KeyLess(b, a)
    ensures r == 0 <==> a.freq == b.freq && a.data == b.data
  {
    var freqCmp := a.freq - b.freq;
    var dataCmp := a.data - b.data;
    if freqCmp != 0 then freqCmp else dataCmp
  }

  /** `compare_char`: the order of the code table, by signed symbol value. */
  function CompareChar(a: Tree, b: Tree): (r: int)
    requires a.Node? && b.Node?
    ensures r < 0 <==> a.data < b.data
    ensures r == 0 <==> a.data == b.data
    ensures r > 0 <==> b.data < a.data
  {
    a.data - b.data
  }

  /**
    `merge_node`: a new internal node over `a` and `b`. The argument with the
    strictly smaller symbol becomes the left child (on equal symbols, `b`),
    regardless of frequency; the new node carries the summed count and the
    left child's symbol.
  */
  function MergeNode(a: Tree, b: Tree): (m: Tree)
    requires a.Node? && b.Node?
    ensures m.Node? && !IsLeaf(m)
    ensures (m.left == a && m.right == b) || (m.left == b && m.right == a)
    ensures a.data != b.data ==> m.left.data < m.right.data
    ensures a.data == b.data ==> m.left == b
    ensures m.freq == a.freq + b.freq
    ensures m.data == (if a.data < b.data then a.data else b.data)
    ensures LeafSyms(m) == LeafSyms(m.left) + LeafSyms(m.right)
  {
    var aSmaller := a.data < b.data;
    var l := if aSmaller then a else b;
    var r := if aSmaller then b else a;
    Node(l.data, a.freq + b.freq, l, r)
  }

  predicate AllNodes(s: seq<Tree>) {
    forall i :: 0 <= i < |s| ==> s[i].Node?
  }

  predicate SortedByKey(s: seq<Tree>)
    requires AllNodes(s)
  {
    forall i, j {:trigger KeyLe(s[i], s[j])} :: 0 <= i < j < |s| ==> KeyLe(s[i], s[j])
  }

  /** Insert `x` before the first element that does not sort before it. */
  function InsertByKey(x: Tree, s: seq<Tree>): (r: seq<Tree>)
    requires x.Node? && AllNodes(s)
    ensures multiset(r) == multiset(s) + multiset{x}
    ensures |r| == |s| + 1 && AllNodes(r)
    decreases |s|
  {
    if s == [] then [x]
    else if CompareNode(x, s[0]) <= 0 then [x] + s
    else
      assert s == [s[0]] + s[1..];
      [s[0]] + InsertByKey(x, s[1..])
  }

  lemma {:induction false} InsertSorted(x: Tree, s: seq<Tree>)
    requires x.Node? && AllNodes(s) && SortedByKey(s)
    ensures SortedByKey(InsertByKey(x, s))
    decreases |s|
  {
    if s != [] && CompareNode(x, s[0]) > 0 {
      var rest := InsertByKey(x, s[1..]);
      InsertSorted(x, s[1..]);
      assert InsertByKey(x, s) == [s[0]] + rest;
      forall j | 0 <= j < |rest| ensures KeyLe(s[0], rest[j]) {
        assert rest[j] in multiset(rest);
        if rest[j] != x {
          var k :| 0 <= k < |s[1..]| && s[1..][k] == rest[j];
          assert s[k + 1] == rest[j];
        }
      }
      var r := [s[0]] + rest;
      forall a, b | 0 <= a < b < |r| ensures KeyLe(r[a], r[b]) {
        assert r[b] == rest[b - 1];
        if a > 0 {
          assert r[a] == rest[a - 1];
        }
      }
    } else if s != [] {
      var r := [x] + s;
      forall a, b | 0 <= a < b < |r| ensures KeyLe(r[a], r[b]) {
        assert r[b] == s[b - 1];
        if a > 0 {
          assert r[a] == s[a - 1];
        } else if b > 1 {
          assert KeyLe(s[0], s[b - 1]);
        }
      }
    }
  }

  /** The sort `build_tree` applies to the active nodes (see `QsortOrderIsUnique`). */
  function SortByKey(s: seq<Tree>): (r: seq<Tree>)
    requires AllNodes(s)
    ensures multiset(r) == multiset(s)
    ensures |r| == |s| && AllNodes(r)
    ensures SortedByKey(r)
    decreases |s|
  {
    if s == [] then []
    else
      assert s == [s[0]] + s[1..];
      InsertSorted(s[0], SortByKey(s[1..]));
      InsertByKey(s[0], SortByKey(s[1..]))
  }

  /**
    One round of the build loop: sort the active nodes and replace the two
    least of them by their merge, which goes to the end.
  */
  function Step(active: seq<Tree>): (r: seq<Tree>)
    requires |active| >= 2 && AllNodes(active)
    ensures |r| == |active| - 1 && AllNodes(r)
  {
    var s := SortByKey(active);
    s[2..] + [MergeNode(s[0], s[1])]
  }

  /**
    Each round merges two active nodes that no other active node sorts
    before, and every other active node survives the round.
  */
  lemma StepTakesTwoLeast(active: seq<Tree>)
    requires |active| >= 2 && AllNodes(active)
    ensures var r := Step(active); var m := r[|r| - 1];
      !IsLeaf(m) && m.left.Node? && m.right.Node? &&
      m.freq == m.left.freq + m.right.freq &&
      multiset(r[..|r| - 1]) + multiset{m.left, m.right} == multiset(active) &&
      forall i :: 0 <= i < |r| - 1 ==> KeyLe(m.left, r[i]) && KeyLe(m.right, r[i])
  {
    var s := SortByKey(active);
    assert s == [s[0], s[1]] + s[2..];
    var r := Step(active);
    assert r[..|r| - 1] == s[2..];
    forall i | 0 <= i < |r| - 1 ensures KeyLe(s[0], r[i]) && KeyLe(s[1], r[i]) {
      assert r[i] == s[i + 2];
    }
  }

  /** Merge until one node remains; that node is the root. */
  function BuildFrom(active: seq<Tree>): (root: Tree)
    requires |active| >= 1 && AllNodes(active)
    ensures root.Node?
    decreases |active|
  {
    if |active| == 1 then active[0] else BuildFrom(Step(active))
  }

  /**
    `build_tree` over the counted leaves: no tree (a null root) for an empty
    input, the single leaf itself for a one-symbol input.
  */
  function BuildTree(leaves: seq<Tree>): (root: Tree)
    requires AllNodes(leaves)
    ensures |leaves| == 0 ==> root == Nil
    ensures |leaves| == 1 ==> root == leaves[0]
    ensures |leaves| >= 1 ==> root.Node?
  {
    if |leaves| == 0 then Nil else BuildFrom(leaves)
  }

  // ---------------------------------------------------------------------------
  // Invariants of the built tree.

  /**
    A tree the builder can produce: a leaf, or an internal node with two such
    children whose count is their sum and whose symbol is the left child's.
  */
  predicate HuffmanNode(t: Tree) {
    match t
    case Nil => false
    case Node(d, f, l, r) =>
      IsLeaf(t) ||
      (l.Node? && r.Node? && HuffmanNode(l) && HuffmanNode(r) &&
       f == l.freq + r.freq && d == l.data)
  }

  /** Symbols of all leaves under the active nodes. */
  function ForestSyms(f: seq<Tree>): multiset<Char> {
    if f == [] then multiset{} else multiset(LeafSyms(f[0])) + ForestSyms(f[1..])
  }

  lemma {:induction false} HuffmanShape(t: Tree)
    requires HuffmanNode(t)
    ensures Full(t)
    ensures t.data in LeafSyms(t)
  {
    if !IsLeaf(t) {
      HuffmanShape(t.left);
      HuffmanShape(t.right);
    }
  }

  lemma {:induction false} InsertMeasures(x: Tree, s: seq<Tree>)
    requires x.Node? && AllNodes(s)
    ensures ForestSyms(InsertByKey(x, s)) == multiset(LeafSyms(x)) + ForestSyms(s)
    ensures TotalFreq(InsertByKey(x, s)) == x.freq + TotalFreq(s)
    decreases |s|
  {
    if s != [] && CompareNode(x, s[0]) > 0 {
      var r := InsertByKey(x, s);
      assert r[1..] == InsertByKey(x, s[1..]);
      InsertMeasures(x, s[1..]);
    }
  }

  /** Sorting neither adds nor loses leaves or counts. */
  lemma {:induction false} SortMeasures(s: seq<Tree>)
    requires AllNodes(s)
    ensures ForestSyms(SortByKey(s)) == ForestSyms(s)
    ensures TotalFreq(SortByKey(s)) == TotalFreq(s)
    decreases |s|
  {
    if s != [] {
      SortMeasures(s[1..]);
      InsertMeasures(s[0], SortByKey(s[1..]));
    }
  }

  lemma {:induction false} ForestSymsAppend(a: seq<Tree>, b: seq<Tree>)
    ensures ForestSyms(a + b) == ForestSyms(a) + ForestSyms(b)
    decreases |a|
  {
    if a == [] {
      assert a + b == b;
    } else {
      assert (a + b)[1..] == a[1..] + b;
      ForestSymsAppend(a[1..], b);
    }
  }

  lemma {:induction false} TotalFreqAppend(a: seq<Tree>, b: seq<Tree>)
    requires AllNodes(a) && AllNodes(b)
    ensures TotalFreq(a + b) == TotalFreq(a) + TotalFreq(b)
    decreases |a|
  {
    if a == [] {
      assert a + b == b;
    } else {
      assert (a + b)[1..] == a[1..] + b;
      TotalFreqAppend(a[1..], b);
    }
  }

  /** A merge round keeps the forest's leaves and total count. */
  lemma StepMeasures(active: seq<Tree>)
    requires |active| >= 2 && AllNodes(active)
    ensures ForestSyms(Step(active)) == ForestSyms(active)
    ensures TotalFreq(Step(active)) == TotalFreq(active)
  {
    var s := SortByKey(active);
    SortMeasures(active);
    var m := MergeNode(s[0], s[1]);
    assert Step(active) == s[2..] + [m];
    StepSyms(s, m);
    StepFreq(s, m);
  }

  lemma StepSyms(s: seq<Tree>, m: Tree)
    requires |s| >= 2 && m.Node?
    requires multiset(LeafSyms(m)) == multiset(LeafSyms(s[0])) + multiset(LeafSyms(s[1]))
    ensures ForestSyms(s[2..] + [m]) == ForestSyms(s)
  {
    assert s[1..][1..] == s[2..];
    assert ForestSyms(s) == multiset(LeafSyms(s[0])) + (multiset(LeafSyms(s[1])) + ForestSyms(s[2..]));
    ForestSymsAppend(s[2..], [m]);
    assert [m][1..] == [];
  }

  lemma StepFreq(s: seq<Tree>, m: Tree)
    requires |s| >= 2 && m.Node? && AllNodes(s)
    requires m.freq == s[0].freq + s[1].freq
    ensures TotalFreq(s[2..] + [m]) == TotalFreq(s)
  {
    assert s[1..][1..] == s[2..];
    assert TotalFreq(s) == s[0].freq + (s[1].freq + TotalFreq(s[2..]));
    TotalFreqAppend(s[2..], [m]);
    assert [m][1..] == [];
  }

  /** A merge round keeps every active node a well-formed subtree. */
  lemma StepHuffman(active: seq<Tree>)
    requires |active| >= 2 && AllNodes(active)
    requires forall i :: 0 <= i < |active| ==> HuffmanNode(active[i])
    ensures forall i :: 0 <= i < |Step(active)| ==> HuffmanNode(Step(active)[i])
  {
    var s := SortByKey(active);
    assert forall t :: t in s ==> t in active by {
      forall t | t in s ensures t in active {
        assert t in multiset(s);
      }
    }
    assert s[0] in s && s[1] in s;
    assert HuffmanNode(s[0]) && HuffmanNode(s[1]);
    var m := MergeNode(s[0], s[1]);
    assert HuffmanNode(m);
    var r := Step(active);
    forall i | 0 <= i < |r| ensures HuffmanNode(r[i]) {
      if i < |r| - 1 {
        assert r[i] == s[i + 2];
        assert s[i + 2] in s;
      }
    }
  }

  /**
    The root of the build is a well-formed tree over exactly the leaves of
    the active nodes, and its count is the sum of their counts.
  */
  lemma {:induction false} BuildFromSpec(active: seq<Tree>)
    requires |active| >= 1 && AllNodes(active)
    requires forall i :: 0 <= i < |active| ==> HuffmanNode(active[i])
    ensures HuffmanNode(BuildFrom(active))
    ensures multiset(LeafSyms(BuildFrom(active))) == ForestSyms(active)
    ensures BuildFrom(active).freq == TotalFreq(active)
    decreases |active|
  {
    if |active| == 1 {
      assert active[1..] == [];
    } else {
      StepMeasures(active);
      StepHuffman(active);
      BuildFromSpec(Step(active));
    }
  }

  // ---------------------------------------------------------------------------
  // The unstable `qsort` cannot change the tree.

  predicate DistinctData(f: seq<Tree>)
    requires AllNodes(f)
  {
    forall i, j :: 0 <= i < j < |f| ==> f[i].data != f[j].data
  }

  predicate NoRepeats(m: multiset<Char>) {
    forall x :: x in m ==> m[x] <= 1
  }

  /** Two key-sorted arrangements of the same nodes with distinct symbols coincide. */
  lemma {:induction false} SortedUnique(a: seq<Tree>, b: seq<Tree>)
    requires AllNodes(a) && AllNodes(b) && multiset(a) == multiset(b)
    requires SortedByKey(a) && SortedByKey(b) && DistinctData(a)
    ensures a == b
    decreases |a|
  {
    assert |a| == |multiset(a)| == |multiset(b)| == |b|;
    if a != [] {
      SortedHeads(a, b);
      SortedTail(a);
      SortedTail(b);
      assert a == [a[0]] + a[1..] && b == [b[0]] + b[1..];
      assert multiset(a) == multiset{a[0]} + multiset(a[1..]);
      assert multiset(b) == multiset{b[0]} + multiset(b[1..]);
      assert multiset(a[1..]) == multiset(a) - multiset{a[0]};
      assert multiset(b[1..]) == multiset(b) - multiset{b[0]};
      SortedUnique(a[1..], b[1..]);
    }
  }

  lemma SortedHeads(a: seq<Tree>, b: seq<Tree>)
    requires AllNodes(a) && AllNodes(b) && multiset(a) == multiset(b) && |a| > 0
    requires SortedByKey(a) && SortedByKey(b) && DistinctData(a)
    ensures a[0] == b[0]
  {
    assert a[0] in multiset(b);
    var k :| 0 <= k < |b| && b[k] == a[0];
    assert b[0] in multiset(a);
    var m :| 0 <= m < |a| && a[m] == b[0];
    assert KeyLe(b[0], b[k]);
    assert KeyLe(a[0], a[m]);
  }

  lemma SortedTail(a: seq<Tree>)
    requires AllNodes(a) && SortedByKey(a) && |a| > 0
    ensures AllNodes(a[1..]) && SortedByKey(a[1..])
    ensures DistinctData(a) ==> DistinctData(a[1..])
  {
    forall i, j | 0 <= i < j < |a| - 1 ensures KeyLe(a[1..][i], a[1..][j]) {
      assert a[1..][i] == a[i + 1] && a[1..][j] == a[j + 1];
    }
  }

  lemma {:induction false} MemberSymsInForest(f: seq<Tree>, j: nat, x: Char)
    requires j < |f| && x in LeafSyms(f[j])
    ensures x in ForestSyms(f)
    decreases |f|
  {
    if j > 0 {
      MemberSymsInForest(f[1..], j - 1, x);
    }
  }

  /** Active nodes over disjoint leaves carry distinct symbols. */
  lemma {:induction false} ForestDistinctData(f: seq<Tree>)
    requires AllNodes(f) && forall i :: 0 <= i < |f| ==> HuffmanNode(f[i])
    requires NoRepeats(ForestSyms(f))
    ensures DistinctData(f)
    decreases |f|
  {
    if f != [] {
      assert ForestSyms(f) == multiset(LeafSyms(f[0])) + ForestSyms(f[1..]);
      assert NoRepeats(ForestSyms(f[1..])) by {
        forall x ensures ForestSyms(f[1..])[x] <= 1 {
          assert ForestSyms(f)[x] >= ForestSyms(f[1..])[x];
        }
      }
      ForestDistinctData(f[1..]);
      forall j | 1 <= j < |f| ensures f[0].data != f[j].data {
        HuffmanShape(f[0]);
        HuffmanShape(f[j]);
        MemberSymsInForest(f[1..], j - 1, f[j].data);
        var d := f[0].data;
        assert d in multiset(LeafSyms(f[0]));
        assert ForestSyms(f)[d] == multiset(LeafSyms(f[0]))[d] + ForestSyms(f[1..])[d];
        assert d in ForestSyms(f);
        assert ForestSyms(f)[d] <= 1;
        assert d !in ForestSyms(f[1..]);
      }
      forall i, j | 0 <= i < j < |f| ensures f[i].data != f[j].data {
        if i > 0 {
          assert f[i] == f[1..][i - 1] && f[j] == f[1..][j - 1];
        }
      }
    }
  }

  /**
    While the active nodes cover each symbol at most once (as they do
    throughout a build from counted leaves), no two of them compare equal, so
    any order `qsort` may produce is the one `SortByKey` produces.
  */
  lemma QsortOrderIsUnique(active: seq<Tree>, sorted: seq<Tree>)
    requires AllNodes(active) && forall i :: 0 <= i < |active| ==> HuffmanNode(active[i])
    requires NoRepeats(ForestSyms(active))
    requires AllNodes(sorted) && multiset(sorted) == multiset(active) && SortedByKey(sorted)
    ensures sorted == SortByKey(active)
  {
    var s := SortByKey(active);
    SortMeasures(active);
    forall i | 0 <= i < |s| ensures HuffmanNode(s[i]) {
      assert s[i] in multiset(active);
    }
    ForestDistinctData(s);
    SortedUnique(s, sorted);
  }

  // ---------------------------------------------------------------------------
  // The tree built from an input.

  lemma {:induction false} LeavesSyms(f: seq<Tree>, d: seq<Char>)
    requires |f| == |d| && forall i :: 0 <= i < |f| ==> IsLeaf(f[i]) && f[i].data == d[i]
    ensures ForestSyms(f) == multiset(d)
    decreases |f|
  {
    if f != [] {
      LeavesSyms(f[1..], d[1..]);
      assert d == [d[0]] + d[1..];
    }
  }

  /**
    The tree built from the counted leaves of `data`: no tree for an empty
    input; otherwise a strict binary tree whose leaves are exactly the distinct
    bytes of the input, each once, with k - 1 internal nodes for k distinct
    bytes, and whose root count is the input length.
  */
  lemma BuildTreeSpec(data: seq<Char>)
    ensures var root := BuildTree(Frequencies(data)); var k := |Distinct(data)|;
      (k == 0 <==> root == Nil) &&
      (k >= 1 ==>
        HuffmanNode(root) && Full(root) && root.freq == |data| &&
        multiset(LeafSyms(root)) == multiset(Distinct(data)) &&
        NoDup(LeafSyms(root)) && |LeafSyms(root)| == k &&
        InternalCount(root) == k - 1)
  {
    var leaves := Frequencies(data);
    FrequenciesSpec(data);
    FrequenciesTotal(data);
    DistinctProps(data);
    if |leaves| >= 1 {
      LeavesSyms(leaves, Distinct(data));
      BuildFromSpec(leaves);
      var root := BuildTree(leaves);
      HuffmanShape(root);
      FullCounts(root);
      NoDupCounts(Distinct(data));
      NoDupCounts(LeafSyms(root));
      assert |LeafSyms(root)| == |multiset(LeafSyms(root))|;
    }
  }
}
