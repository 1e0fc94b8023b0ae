/**
  Code derivation (`get_code`, `cal_code_table`). The code of a leaf is its
  path from the root, '0' for a left step and '1' for a right step; the code
  table lists the leaves by ascending symbol, each rendered as "%x=%s" into a
  256-byte buffer.
*/
module Codes {
  import opened Wrappers
  import opened Errors
  import opened Symbols
  import opened Nodes
  import opened Shape
  import opened Frequency

  /** A code-table entry before rendering: a symbol and its code. */
  datatype Entry = Entry(sym: Char, code: string)

  predicate IsBits(s: string) {
    forall i :: 0 <= i < |s| ==> s[i] == '0' || s[i] == '1'
  }

  /** `s` read back to front. */
  function Rev(s: string): (r: string)
    ensures |r| == |s|
  {
    seq(|s|, i requires 0 <= i < |s| => s[|s| - 1 - i])
  }

  /** Prefix every code of `es` with the step `d`. */
  function Prepend(d: char, es: seq<Entry>): (r: seq<Entry>)
    ensures |r| == |es|
  {
    seq(|es|, i requires 0 <= i < |es| => Entry(es[i].sym, [d] + es[i].code))
  }

  /** The leaves of `t`, left to right, each with its path from the root of `t`. */
  function LeafPaths(t: Tree): seq<Entry> {
    match t
    case Nil => []
    case Node(d, _, l, r) =>
      if IsLeaf(t) then [Entry(d, [])] else Prepend('0', LeafPaths(l)) + Prepend('1', LeafPaths(r))
  }

  function Codes(es: seq<Entry>): seq<string> {
    seq(|es|, i requires 0 <= i < |es| => es[i].code)
  }

  function Syms(es: seq<Entry>): seq<Char> {
    seq(|es|, i requires 0 <= i < |es| => es[i].sym)
  }

  /**
    Each leaf path leads from the root to a leaf holding that entry's symbol,
    the entries follow the leaves left to right, and no path is longer than
    the tree is high.
  */
  lemma {:induction false} LeafPathsSpec(t: Tree)
    ensures Syms(LeafPaths(t)) == LeafSyms(t)
    ensures forall i :: 0 <= i < |LeafPaths(t)| ==>
      var e := LeafPaths(t)[i];
      IsBits(e.code) && IsLeaf(At(t, e.code)) && At(t, e.code).data == e.sym && |e.code| <= Height(t)
  {
    if t.Node? && !IsLeaf(t) {
      var l, r := LeafPaths(t.left), LeafPaths(t.right);
      LeafPathsSpec(t.left);
      LeafPathsSpec(t.right);
      var es := LeafPaths(t);
      assert es == Prepend('0', l) + Prepend('1', r);
      forall i | 0 <= i < |es|
        ensures IsBits(es[i].code) && IsLeaf(At(t, es[i].code)) && At(t, es[i].code).data == es[i].sym
        ensures |es[i].code| <= Height(t)
      {
        if i < |l| {
          assert es[i] == Entry(l[i].sym, ['0'] + l[i].code);
          PrependedPath(t, '0', l[i]);
        } else {
          assert es[i] == Entry(r[i - |l|].sym, ['1'] + r[i - |l|].code);
          PrependedPath(t, '1', r[i - |l|]);
        }
      }
      SymsJoin('0', l, '1', r);
    }
  }

  /** A path of a child, with the step to that child in front, is a path of the parent. */
  lemma PrependedPath(t: Tree, d: char, e: Entry)
    requires t.Node? && !IsLeaf(t) && (d == '0' || d == '1')
    requires var sub := if d == '0' then t.left else t.right;
      IsBits(e.code) && IsLeaf(At(sub, e.code)) && At(sub, e.code).data == e.sym && |e.code| <= Height(sub)
    ensures var c := [d] + e.code;
      IsBits(c) && IsLeaf(At(t, c)) && At(t, c).data == e.sym && |c| <= Height(t)
  {
    assert ([d] + e.code)[1..] == e.code;
  }

  /** Prefixing the codes leaves the symbols as they are. */
  lemma SymsJoin(a: char, l: seq<Entry>, b: char, r: seq<Entry>)
    ensures Syms(Prepend(a, l) + Prepend(b, r)) == Syms(l) + Syms(r)
  {
    assert Syms(Prepend(a, l) + Prepend(b, r)) == Syms(l) + Syms(r);
  }

  /** Different leaves have different codes. */
  lemma {:induction false} LeafPathsDistinct(t: Tree)
    ensures NoDup(Codes(LeafPaths(t)))
  {
    if t.Node? && !IsLeaf(t) {
      var l, r := LeafPaths(t.left), LeafPaths(t.right);
      LeafPathsDistinct(t.left);
      LeafPathsDistinct(t.right);
      var es := LeafPaths(t);
      forall i, j | 0 <= i < j < |es| ensures es[i].code != es[j].code {
        if j < |l| {
          assert Codes(l)[i] == l[i].code && Codes(l)[j] == l[j].code;
          assert es[i].code[1..] == l[i].code && es[j].code[1..] == l[j].code;
        } else if |l| <= i {
          assert Codes(r)[i - |l|] == r[i - |l|].code && Codes(r)[j - |l|] == r[j - |l|].code;
          assert es[i].code[1..] == r[i - |l|].code && es[j].code[1..] == r[j - |l|].code;
        } else {
          assert es[i].code[0] == '0' && es[j].code[0] == '1';
        }
      }
    }
  }

  /** No code is a prefix of another leaf's code. */
  lemma PrefixFree(t: Tree)
    ensures forall i, j :: 0 <= i < |LeafPaths(t)| && 0 <= j < |LeafPaths(t)| && i != j ==>
      !(LeafPaths(t)[i].code <= LeafPaths(t)[j].code)
  {
    var es := LeafPaths(t);
    LeafPathsSpec(t);
    LeafPathsDistinct(t);
    forall i, j | 0 <= i < |es| && 0 <= j < |es| && i != j
      ensures !(es[i].code <= es[j].code)
    {
      assert Codes(es)[i] == es[i].code && Codes(es)[j] == es[j].code;
      AtBelowLeaf(t, es[i].code, es[j].code);
    }
  }

  /** A tree with a node has a leaf. */
  lemma {:induction false} HasLeaf(t: Tree)
    requires t.Node?
    ensures |LeafPaths(t)| >= 1
  {
    if !IsLeaf(t) {
      if t.left.Node? {
        HasLeaf(t.left);
      } else {
        HasLeaf(t.right);
      }
    }
  }

  /** Below every node of `t` there is a leaf: some code extends the node's path. */
  lemma {:induction false} LeafBelow(t: Tree, q: string)
    requires IsBits(q) && At(t, q).Node?
    ensures exists i :: 0 <= i < |LeafPaths(t)| && q <= LeafPaths(t)[i].code
    decreases |q|
  {
    if q == [] {
      HasLeaf(t);
      assert q <= LeafPaths(t)[0].code;
    } else {
      AtBelowLeaf(t, [], q);
      var d := q[0];
      var child := if d == '0' then t.left else t.right;
      LeafBelow(child, q[1..]);
      var i :| 0 <= i < |LeafPaths(child)| && q[1..] <= LeafPaths(child)[i].code;
      var k := PrependedPrefix(t, d, q[1..], i);
      assert q == [d] + q[1..];
    }
  }

  /** A prefix of a child's code, with the step to that child in front, is a prefix of the parent's code for the same leaf. */
  lemma PrependedPrefix(t: Tree, d: char, q: string, i: nat) returns (k: nat)
    requires t.Node? && !IsLeaf(t) && (d == '0' || d == '1')
    requires var child := if d == '0' then t.left else t.right;
      i < |LeafPaths(child)| && q <= LeafPaths(child)[i].code
    ensures k < |LeafPaths(t)| && [d] + q <= LeafPaths(t)[k].code
  {
    var l, r := LeafPaths(t.left), LeafPaths(t.right);
    var child := if d == '0' then t.left else t.right;
    assert LeafPaths(t) == Prepend('0', l) + Prepend('1', r);
    k := if d == '0' then i else |l| + i;
    assert LeafPaths(t)[k].code == [d] + LeafPaths(child)[i].code;
  }

  /**
    In a strict binary tree, both steps out of every node strictly above a
    leaf lead on to some leaf: both extensions of a strict prefix of a code
    are prefixes of codes.
  */
  lemma BothBranchesUsed(t: Tree, i: nat, k: nat, d: char)
    requires Full(t) && i < |LeafPaths(t)| && k < |LeafPaths(t)[i].code| && (d == '0' || d == '1')
    ensures exists j :: 0 <= j < |LeafPaths(t)| && LeafPaths(t)[i].code[..k] + [d] <= LeafPaths(t)[j].code
  {
    var c := LeafPaths(t)[i].code;
    LeafPathsSpec(t);
    var p := c[..k];
    assert c == p + c[k..];
    AtPrefix(t, p, c[k..]);
    AtBelowLeaf(t, p, c);
    FullAt(t, p);
    AtSnoc(t, p, d);
    LeafBelow(t, p + [d]);
  }

  /** Every node of a strict binary tree is itself strict. */
  lemma {:induction false} FullAt(t: Tree, p: string)
    requires Full(t)
    ensures Full(At(t, p))
    decreases |p|
  {
    if p != [] && t.Node? {
      FullAt(if p[0] == '0' then t.left else t.right, p[1..]);
    }
  }

  // ---------------------------------------------------------------------------
  // get_code

  /**
    `get_code` for the node at path `path`: walk the parent links up to the
    root, recording '0' for a left child and '1' for a right child, then
    reverse the record in place. The result is the node's path from the root,
    so its length is the node's depth.
  */
  method GetCode(path: string) returns (code: string)
    requires IsBits(path)
    ensures code == path
  {
    var q := path;      // the path of `cur_node`
    code := [];
    while q != []       // cur_node != self->root
      invariant path == q + Rev(code) && IsBits(q)
      decreases |q|
    {
      var step := if q[|q| - 1] == '0' then '0' else '1';  // cur_node->p->left == cur_node
      assert q == q[..|q| - 1] + [step];
      assert Rev(code + [step]) == [step] + Rev(code);
      code := code + [step];
      q := q[..|q| - 1];
    }
    assert path == Rev(code);
    // The source starts `j` at strlen(code) - 1 without a guard; see ReverseAsWritten.
    if |code| > 0 {
      ghost var w := code;
      var i, j := 0, |code| - 1;
      while i < j
        invariant j < |w| && i + j == |w| - 1 && i <= j + 1 && |code| == |w|
        invariant forall k :: 0 <= k < i ==> code[k] == w[|w| - 1 - k]
        invariant forall k :: j < k < |w| ==> code[k] == w[|w| - 1 - k]
        invariant forall k :: i <= k <= j ==> code[k] == w[k]
      {
        code := code[i := code[j]][j := code[i]];
        i, j := i + 1, j - 1;
      }
      assert code == Rev(w);
    }
  }

  /** The size_t range: 2^64. */
  const SizeModulus: nat := 0x1_0000_0000_0000_0000

  /**
    The reversal loop of `get_code` with `i` and `j` swapped toward each
    other; a swap that reaches past the code's last character is reported.
  */
  function ReverseLoop(code: string, i: nat, j: nat): Result<string, Error>
    decreases if i < j then j - i else 0
  {
    if i >= j then Success(code)
    else if j >= |code| then Failure(CodeIndexWraps)
    else ReverseLoop(code[i := code[j]][j := code[i]], i + 1, j - 1)
  }

  /** The reversal as written: `j` starts at `strlen(code) - 1` in size_t arithmetic. */
  function ReverseAsWritten(code: string): Result<string, Error> {
    ReverseLoop(code, 0, (|code| - 1) % SizeModulus)
  }

  lemma {:induction false} ReverseLoopSpec(code: string, w: string, i: nat, j: nat)
    requires |code| == |w| && j < |w| && i + j == |w| - 1 && i <= j + 1
    requires forall k :: 0 <= k < i ==> code[k] == w[|w| - 1 - k]
    requires forall k :: j < k < |w| ==> code[k] == w[|w| - 1 - k]
    requires forall k :: i <= k <= j ==> code[k] == w[k]
    ensures ReverseLoop(code, i, j) == Success(Rev(w))
    decreases if i < j then j - i else 0
  {
    if i < j {
      ReverseLoopSpec(code[i := code[j]][j := code[i]], w, i + 1, j - 1);
    } else {
      assert code == Rev(w);
    }
  }

  /**
    The reversal as written succeeds exactly on nonempty codes, where it
    reverses; on the empty code of a one-leaf tree its index wraps to 2^64 - 1.
  */
  lemma ReverseAsWrittenSpec(code: string)
    requires |code| < SizeModulus
    ensures ReverseAsWritten(code).Success? <==> |code| >= 1
    ensures |code| >= 1 ==> ReverseAsWritten(code) == Success(Rev(code))
    ensures |code| == 0 ==> (|code| - 1) % SizeModulus == SizeModulus - 1
    ensures |code| == 0 ==> ReverseAsWritten(code) == Failure(CodeIndexWraps)
  {
    if |code| >= 1 {
      assert (|code| - 1) % SizeModulus == |code| - 1;
      ReverseLoopSpec(code, code, 0, |code| - 1);
    }
  }

  // ---------------------------------------------------------------------------
  // cal_code_table

  predicate SortedBySym(es: seq<Entry>) {
    forall i, j :: 0 <= i < j < |es| ==> es[i].sym <= es[j].sym
  }

  /** Insert `e` before the first entry whose symbol is not smaller (`compare_char`). */
  function InsertBySym(e: Entry, es: seq<Entry>): (r: seq<Entry>)
    ensures multiset(r) == multiset(es) + multiset{e}
    ensures |r| == |es| + 1
    decreases |es|
  {
    if es == [] then [e]
    else if e.sym <= es[0].sym then [e] + es
    else
      assert es == [es[0]] + es[1..];
      [es[0]] + InsertBySym(e, es[1..])
  }

  lemma {:induction false} InsertBySymSorted(e: Entry, es: seq<Entry>)
    requires SortedBySym(es)
    ensures SortedBySym(InsertBySym(e, es))
    decreases |es|
  {
    if es != [] && e.sym > es[0].sym {
      var rest := InsertBySym(e, es[1..]);
      InsertBySymSorted(e, es[1..]);
      forall j | 0 <= j < |rest| ensures es[0].sym <= rest[j].sym {
        assert rest[j] in multiset(rest);
        if rest[j] != e {
          var k :| 0 <= k < |es[1..]| && es[1..][k] == rest[j];
          assert es[k + 1] == rest[j];
        }
      }
    }
  }

  /** The `qsort` by `compare_char` of `cal_code_table`. */
  function SortBySym(es: seq<Entry>): (r: seq<Entry>)
    ensures multiset(r) == multiset(es) && |r| == |es|
    ensures SortedBySym(r)
    decreases |es|
  {
    if es == [] then []
    else
      assert es == [es[0]] + es[1..];
      InsertBySymSorted(es[0], SortBySym(es[1..]));
      InsertBySym(es[0], SortBySym(es[1..]))
  }

  /** The first `n` characters of `s` (all of it if shorter). */
  function Take(s: string, n: nat): (r: string)
    ensures |r| <= n && r <= s
    ensures |s| <= n ==> r == s
  {
    if |s| <= n then s else s[..n]
  }

  /** The text `snprintf(buf, 256, "%x=%s", sym, code)` leaves in the buffer. */
  function Render(e: Entry): string {
    Take(HexDigits(Unsigned32(e.sym)) + "=" + e.code, 255)
  }

  /** The entries of the code table, in table order. */
  function CodeEntries(root: Tree): seq<Entry> {
    SortBySym(LeafPaths(root))
  }

  /** `cal_code_table`: one rendered entry per leaf, by ascending symbol. */
  function CalCodeTable(root: Tree): (table: seq<string>)
    ensures |table| == |LeafSyms(root)|
  {
    LeafPathsSpec(root);
    var es := CodeEntries(root);
    seq(|es|, i requires 0 <= i < |es| => Render(es[i]))
  }

  /**
    The code table has one entry per leaf, strictly ascending by symbol
    whenever the leaves hold distinct symbols; every entry names a leaf of
    the tree by its path, and renders in full when that path is at most 246
    steps long.
  */
  lemma CalCodeTableSpec(root: Tree)
    ensures var es := CodeEntries(root);
      && |CalCodeTable(root)| == |es| == |LeafSyms(root)|
      && multiset(es) == multiset(LeafPaths(root))
      && (NoDup(LeafSyms(root)) ==> forall i, j :: 0 <= i < j < |es| ==> es[i].sym < es[j].sym)
      && (forall i :: 0 <= i < |es| ==>
            IsBits(es[i].code) && IsLeaf(At(root, es[i].code)) && At(root, es[i].code).data == es[i].sym)
      && (forall i :: 0 <= i < |es| && |es[i].code| <= 246 ==>
            CalCodeTable(root)[i] == HexDigits(Unsigned32(es[i].sym)) + "=" + es[i].code)
  {
    var es := CodeEntries(root);
    var lp := LeafPaths(root);
    LeafPathsSpec(root);
    forall i | 0 <= i < |es|
      ensures IsBits(es[i].code) && IsLeaf(At(root, es[i].code)) && At(root, es[i].code).data == es[i].sym
    {
      assert es[i] in multiset(lp);
    }
    forall i | 0 <= i < |es| && |es[i].code| <= 246
      ensures CalCodeTable(root)[i] == HexDigits(Unsigned32(es[i].sym)) + "=" + es[i].code
    {
      SymbolHexWidth(es[i].sym);
    }
    if NoDup(LeafSyms(root)) {
      assert NoDup(Syms(lp));
      forall i, j | 0 <= i < j < |es| ensures es[i].sym < es[j].sym {
        SameSymSameIndex(lp, es, i, j);
      }
    }
  }

  /**
    In a permutation of entries with distinct symbols, two positions holding
    the same symbol are the same position.
  */
  lemma SameSymSameIndex(lp: seq<Entry>, es: seq<Entry>, i: nat, j: nat)
    requires NoDup(Syms(lp)) && multiset(es) == multiset(lp)
    requires i < |es| && j < |es|
    ensures es[i].sym == es[j].sym ==> i == j
  {
    assert es[i] in multiset(lp) && es[j] in multiset(lp);
    var a :| 0 <= a < |lp| && lp[a] == es[i];
    var b :| 0 <= b < |lp| && lp[b] == es[j];
    assert Syms(lp)[a] == es[i].sym && Syms(lp)[b] == es[j].sym;
    EntryCount(lp, a);
    OnceMeansOneIndex(es, i, j);
  }

  /** In entries with distinct symbols, each entry occurs once. */
  lemma EntryCount(lp: seq<Entry>, a: nat)
    requires NoDup(Syms(lp)) && a < |lp|
    ensures multiset(lp)[lp[a]] == 1
  {
    var x := lp[a];
    assert lp == lp[..a] + [x] + lp[a + 1..];
    assert multiset(lp) == multiset(lp[..a]) + multiset{x} + multiset(lp[a + 1..]);
    forall k | 0 <= k < |lp| && k != a ensures lp[k] != x {
      assert Syms(lp)[k] != Syms(lp)[a];
    }
    assert x !in lp[..a];
    assert x !in lp[a + 1..];
  }

  // ---------------------------------------------------------------------------
  // cal_code_table with get_code as written

  /** Reading a string back to front twice gives it back. */
  lemma RevRev(s: string)
    ensures Rev(Rev(s)) == s
  {
  }

  /**
    `get_code` as written, for each entry of the table in turn: the walk
    records the code leaf to root, and the unguarded reversal turns it back.
  */
  function GetCodesAsWritten(es: seq<Entry>): Result<seq<Entry>, Error>
    decreases |es|
  {
    if es == [] then Success([])
    else
      var code :- ReverseAsWritten(Rev(es[0].code));
      var rest :- GetCodesAsWritten(es[1..]);
      Success([Entry(es[0].sym, code)] + rest)
  }

  /**
    The codes come back unchanged exactly when none of them is empty; an
    empty code makes the reversal index wrap.
  */
  lemma {:induction false} GetCodesAsWrittenSpec(es: seq<Entry>)
    requires forall i :: 0 <= i < |es| ==> |es[i].code| < SizeModulus
    ensures GetCodesAsWritten(es).Success? <==> forall i :: 0 <= i < |es| ==> |es[i].code| >= 1
    ensures GetCodesAsWritten(es).Success? ==> GetCodesAsWritten(es).value == es
    ensures GetCodesAsWritten(es).Failure? ==> GetCodesAsWritten(es).error == CodeIndexWraps
    decreases |es|
  {
    if es != [] {
      var e := es[0];
      ReverseAsWrittenSpec(Rev(e.code));
      RevRev(e.code);
      forall i | 0 <= i < |es[1..]| ensures |es[1..][i].code| < SizeModulus {
        assert es[1..][i] == es[i + 1];
      }
      GetCodesAsWrittenSpec(es[1..]);
      if |e.code| >= 1 && GetCodesAsWritten(es[1..]).Success? {
        assert [Entry(e.sym, e.code)] + es[1..] == es;
        forall i | 0 <= i < |es| ensures |es[i].code| >= 1 {
          if i > 0 {
            assert es[i] == es[1..][i - 1];
          }
        }
      } else if |e.code| >= 1 {
        var i :| 0 <= i < |es[1..]| && |es[1..][i].code| < 1;
        assert es[i + 1] == es[1..][i];
      }
    }
  }

  /** `cal_code_table` as written: a code that `get_code` cannot produce stops the table. */
  function CalCodeTableAsWritten(root: Tree): Result<seq<string>, Error> {
    var es :- GetCodesAsWritten(CodeEntries(root));
    Success(seq(|es|, i requires 0 <= i < |es| => Render(es[i])))
  }

  /** Below a root with a child, every leaf is at least one step away. */
  lemma LeafPathsNonEmpty(t: Tree)
    requires t.Node? && !IsLeaf(t)
    ensures forall i :: 0 <= i < |LeafPaths(t)| ==> |LeafPaths(t)[i].code| >= 1
  {
    var l, r := LeafPaths(t.left), LeafPaths(t.right);
    var es := LeafPaths(t);
    assert es == Prepend('0', l) + Prepend('1', r);
    forall i | 0 <= i < |es| ensures |es[i].code| >= 1 {
      if i < |l| {
        assert es[i] == Prepend('0', l)[i];
      } else {
        assert es[i] == Prepend('1', r)[i - |l|];
      }
    }
  }

  /**
    With `get_code` as written, the table of a tree whose root is a leaf
    (one distinct byte) fails on the wrapped index; every other table is the
    one the guarded reversal gives.
  */
  lemma CalCodeTableAsWrittenSpec(root: Tree)
    requires Height(root) < SizeModulus
    ensures IsLeaf(root) ==> CalCodeTableAsWritten(root) == Failure(CodeIndexWraps)
    ensures !IsLeaf(root) ==> CalCodeTableAsWritten(root) == Success(CalCodeTable(root))
  {
    if IsLeaf(root) {
      LeafTableWraps(root);
    } else {
      CodeEntriesBounded(root);
      CodeEntriesNonEmpty(root);
      GetCodesAsWrittenSpec(CodeEntries(root));
    }
  }

  /** The lone entry of a leaf root has the empty code, whose reversal wraps. */
  lemma LeafTableWraps(root: Tree)
    requires IsLeaf(root)
    ensures CalCodeTableAsWritten(root) == Failure(CodeIndexWraps)
  {
    assert LeafPaths(root) == [Entry(root.data, [])];
    assert CodeEntries(root) == [Entry(root.data, [])];
    assert Rev([]) == [];
    ReverseAsWrittenSpec([]);
  }

  /** The table's codes are no longer than the tree is high. */
  lemma CodeEntriesBounded(root: Tree)
    requires Height(root) < SizeModulus
    ensures forall i :: 0 <= i < |CodeEntries(root)| ==> |CodeEntries(root)[i].code| < SizeModulus
  {
    var es := CodeEntries(root);
    var lp := LeafPaths(root);
    LeafPathsSpec(root);
    forall i | 0 <= i < |es| ensures |es[i].code| < SizeModulus {
      assert es[i] in multiset(lp);
    }
  }

  /** Below a root that is not a leaf, no code of the table is empty. */
  lemma CodeEntriesNonEmpty(root: Tree)
    requires !IsLeaf(root)
    ensures forall i :: 0 <= i < |CodeEntries(root)| ==> |CodeEntries(root)[i].code| >= 1
  {
    var es := CodeEntries(root);
    var lp := LeafPaths(root);
    if root.Node? {
      LeafPathsNonEmpty(root);
      forall i | 0 <= i < |es| ensures |es[i].code| >= 1 {
        assert es[i] in multiset(lp);
      }
    }
  }
}
