/**
  Shape of a code tree: navigation by code path, leaves in order, node counts.
  A path is a string read from the root; at each step the character '0'
  selects the left child and any other character the right child, which is
  the convention shared by the encoder's code derivation, the header
  reader's tree rebuilding and the decoder's walk.
*/
module Shape {
  import opened Symbols
  import opened Nodes

  /** The node reached by following `p` from `t`, or `Nil` if the path falls off. */
  function At(t: Tree, p: string): Tree
    decreases |p|
  {
    if p == [] then t
    else if t.Nil? then Nil
    else At(if p[0] == '0' then t.left else t.right, p[1..])
  }

  /** The child of `t` selected by the path character `d`. */
  function Child(t: Tree, d: char): Tree
    requires t.Node?
  {
    if d == '0' then t.left else t.right
  }

  /** Symbols of the leaves of `t`, left to right. */
  function LeafSyms(t: Tree): seq<Char> {
    match t
    case Nil => []
    case Node(d, _, l, r) => if IsLeaf(t) then [d] else LeafSyms(l) + LeafSyms(r)
  }

  /** Number of nodes with at least one child. */
  function InternalCount(t: Tree): nat {
    match t
    case Nil => 0
    case Node(_, _, l, r) => if IsLeaf(t) then 0 else 1 + InternalCount(l) + InternalCount(r)
  }

  /** A strict binary tree: every node has either two children or none. */
  predicate Full(t: Tree) {
    match t
    case Nil => true
    case Node(_, _, l, r) => l.Nil? == r.Nil? && Full(l) && Full(r)
  }

  /** Length of the longest root-to-leaf path. */
  function Height(t: Tree): nat {
    match t
    case Nil => 0
    case Node(_, _, l, r) =>
      if IsLeaf(t) then 0
      else 1 + (if Height(l) < Height(r) then Height(r) else Height(l))
  }

  /** A strict binary tree with k leaves has k - 1 internal nodes. */
  lemma {:induction false} FullCounts(t: Tree)
    requires Full(t) && t.Node?
    ensures InternalCount(t) == |LeafSyms(t)| - 1
  {
    if !IsLeaf(t) {
      FullCounts(t.left);
      FullCounts(t.right);
    }
  }

  /** Extending a path by one character moves to a child. */
  lemma {:induction false} AtSnoc(t: Tree, p: string, d: char)
    ensures At(t, p + [d]) == (var u := At(t, p); if u.Nil? then Nil else Child(u, d))
    decreases |p|
  {
    if p == [] {
      assert (p + [d])[1..] == [];
    } else if t.Node? {
      assert (p + [d])[1..] == p[1..] + [d];
      AtSnoc(if p[0] == '0' then t.left else t.right, p[1..], d);
    }
  }

  /** Following `p + q` is following `p`, then `q`. */
  lemma {:induction false} AtConcat(t: Tree, p: string, q: string)
    ensures At(t, p + q) == At(At(t, p), q)
    decreases |p|
  {
    if p == [] {
      assert p + q == q;
    } else if t.Nil? {
      assert At(Nil, q) == Nil by { AtNil(q); }
    } else {
      assert (p + q)[1..] == p[1..] + q;
      AtConcat(if p[0] == '0' then t.left else t.right, p[1..], q);
    }
  }

  lemma {:induction false} AtNil(q: string)
    ensures At(Nil, q) == Nil
  {
  }

  /** A node exists only below existing nodes. */
  lemma AtPrefix(t: Tree, p: string, q: string)
    requires At(t, p + q).Node?
    ensures At(t, p).Node?
  {
    AtConcat(t, p, q);
    if At(t, p).Nil? {
      AtNil(q);
    }
  }

  /** Nothing lies strictly below a leaf. */
  lemma AtBelowLeaf(t: Tree, p: string, q: string)
    ensures IsLeaf(At(t, p)) && p < q ==> At(t, q) == Nil
  {
    if p < q {
      var rest := q[|p|..];
      assert q == p + rest;
      AtConcat(t, p, rest);
      AtNil(rest[1..]);
    }
  }

  /** No root-to-leaf path is longer than the number of internal nodes. */
  lemma {:induction false} HeightAtMostInternal(t: Tree)
    ensures Height(t) <= InternalCount(t)
  {
    if t.Node? && !IsLeaf(t) {
      HeightAtMostInternal(t.left);
      HeightAtMostInternal(t.right);
    }
  }
}
