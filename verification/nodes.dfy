/**
  The tree node of the codec (a `Node` with data, frequency and child links).
  A null pointer is `Nil`. The parent back-link of the source is not stored:
  a node is identified by its root-to-node path (see module Shape), and the
  parent of the node at path `p + [d]` is the node at path `p`.
*/
module Nodes {
  import opened Symbols

  datatype Tree = Nil | Node(data: Char, freq: int, left: Tree, right: Tree)

  predicate IsLeaf(t: Tree) {
    t.Node? && t.left.Nil? && t.right.Nil?
  }

  /** `create_node`: a fresh childless node holding `d` with count 1. */
  function CreateNode(d: Char): (n: Tree)
    ensures IsLeaf(n)
    ensures n.data == d && n.freq == 1
  {
    Node(d, 1, Nil, Nil)
  }

  /** `init_node_arr`: null out the first `len` slots of the array. */
  method InitNodeArr(arr: seq<Tree>, len: nat) returns (r: seq<Tree>)
    requires len <= |arr|
    ensures |r| == |arr|
    ensures forall i :: 0 <= i < len ==> r[i] == Nil
    ensures forall i :: len <= i < |arr| ==> r[i] == arr[i]
  {
    r := arr;
    var i := 0;
    while i < len
      invariant i <= len && |r| == |arr|
      invariant forall j :: 0 <= j < i ==> r[j] == Nil
      invariant forall j :: i <= j < |arr| ==> r[j] == arr[j]
    {
      r := r[i := Nil];
      i := i + 1;
    }
  }
}
