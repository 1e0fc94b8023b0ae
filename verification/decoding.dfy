/**
  Decoding (`build_tree_from_header`, `_decode`, `decode`). The tree is
  rebuilt from the code paths of the header: every entry walks its path from
  a fresh root, creating missing nodes (holding '\0'), and stores its symbol
  at the end. The payload is then read by descending from the root while the
  current node has two children and emitting the node reached.
*/
module Decoding {
  import opened Wrappers
  import opened Errors
  import opened Symbols
  import opened Nodes
  import opened Shape
  import opened Codes
  import opened Text
  import opened Entries

  // ---------------------------------------------------------------------------
  // build_tree_from_header

  /** One entry: walk `code` from `t`, creating missing children, and store `b` at the end. */
  function Insert(t: Tree, code: string, b: Char): (r: Tree)
    requires t.Node?
    ensures r.Node?
    decreases |code|
  {
    if code == [] then t.(data := b)
    else if code[0] == '0' then
      t.(left := Insert(if t.left.Nil? then CreateNode(0) else t.left, code[1..], b))
    else
      t.(right := Insert(if t.right.Nil? then CreateNode(0) else t.right, code[1..], b))
  }

  /** The loop over the header entries, in order; an entry that does not parse is an error. */
  function InsertAll(t: Tree, header: seq<string>): (r: Result<Tree, Error>)
    requires t.Node?
    ensures r.Success? ==> r.value.Node?
    decreases |header|
  {
    if header == [] then Success(t)
    else match ParseEntry(header[0])
      case Failure(err) => Failure(err)
      case Success(pair) => InsertAll(Insert(t, pair.1, ToChar(pair.0)), header[1..])
  }

  /** `build_tree_from_header`: the rebuilt tree and the number of entries. */
  function BuildTreeFromHeader(header: seq<string>): (r: Result<(Tree, nat), Error>)
    ensures r.Success? ==> r.value.0.Node? && r.value.1 == |header|
  {
    var root :- InsertAll(CreateNode(0), header);
    Success((root, |header|))
  }

  /** The same walk over entries that are already parsed. */
  function Plant(t: Tree, es: seq<Entry>): (r: Tree)
    requires t.Node?
    ensures r.Node?
    decreases |es|
  {
    if es == [] then t else Plant(Insert(t, es[0].code, es[0].sym), es[1..])
  }

  /** Some code of `es` extends `q`. */
  predicate UnderSome(q: string, es: seq<Entry>) {
    exists i :: 0 <= i < |es| && q <= es[i].code
  }

  predicate IsCode(q: string, es: seq<Entry>) {
    exists i :: 0 <= i < |es| && es[i].code == q
  }

  predicate AllBits(es: seq<Entry>) {
    forall i :: 0 <= i < |es| ==> IsBits(es[i].code)
  }

  /** Over a header rendered from nonempty bit codes, the loop plants exactly those entries. */
  lemma {:induction false} InsertAllRendered(t: Tree, es: seq<Entry>)
    requires t.Node? && Renderable(es)
    ensures InsertAll(t, Rendered(es)) == Success(Plant(t, es))
    decreases |es|
  {
    if es != [] {
      ParseRenderedAt(es, 0);
      RenderedCons(es);
      InsertAllRendered(Insert(t, es[0].code, es[0].sym), es[1..]);
    }
  }

  /** Along any path, a childless node has only itself. */
  lemma AtLeaf(t: Tree, q: string)
    requires IsLeaf(t)
    ensures At(t, q).Node? <==> q == []
  {
    if q != [] {
      AtNil(q[1..]);
    }
  }

  /**
    Inserting `code` adds exactly the nodes along `code`, stores `b` at its
    end and keeps the data of every other node already present.
  */
  lemma {:induction false} InsertAt(t: Tree, code: string, b: Char, q: string)
    requires t.Node? && IsBits(code) && IsBits(q)
    ensures At(Insert(t, code, b), q).Node? <==> At(t, q).Node? || q <= code
    ensures q == code ==> At(Insert(t, code, b), q).data == b
    ensures q != code && At(t, q).Node? ==> At(Insert(t, code, b), q).data == At(t, q).data
    decreases |code|
  {
    if q != [] && code != [] {
      var old0 := if code[0] == '0' then t.left else t.right;
      var sub := if old0.Nil? then CreateNode(0) else old0;
      if q[0] == code[0] {
        InsertAt(sub, code[1..], b, q[1..]);
        if old0.Nil? {
          AtLeaf(sub, q[1..]);
          AtNil(q[1..]);
        }
        assert q <= code <==> q[1..] <= code[1..];
        assert q == code <==> q[1..] == code[1..];
      } else {
        assert !(q <= code);
      }
    }
  }

  lemma UnderSomeSplit(q: string, es: seq<Entry>)
    requires es != []
    ensures UnderSome(q, es) <==> q <= es[0].code || UnderSome(q, es[1..])
  {
    if UnderSome(q, es[1..]) {
      var i :| 0 <= i < |es[1..]| && q <= es[1..][i].code;
      assert es[i + 1] == es[1..][i];
    }
    if UnderSome(q, es) {
      var i :| 0 <= i < |es| && q <= es[i].code;
      if i > 0 {
        assert es[1..][i - 1] == es[i];
      }
    }
  }

  /** Planting adds exactly the nodes along the planted codes. */
  lemma {:induction false} PlantNode(t: Tree, es: seq<Entry>, q: string)
    requires t.Node? && AllBits(es) && IsBits(q)
    ensures At(Plant(t, es), q).Node? <==> At(t, q).Node? || UnderSome(q, es)
    decreases |es|
  {
    if es != [] {
      InsertAt(t, es[0].code, es[0].sym, q);
      PlantNode(Insert(t, es[0].code, es[0].sym), es[1..], q);
      UnderSomeSplit(q, es);
    }
  }

  /** A code of the tail of `es` is the code of an entry after the first. */
  lemma TailCode(q: string, es: seq<Entry>)
    requires es != []
    ensures IsCode(q, es[1..]) ==> exists j :: 1 <= j < |es| && es[j].code == q
  {
    if IsCode(q, es[1..]) {
      var i :| 0 <= i < |es[1..]| && es[1..][i].code == q;
      assert es[i + 1].code == q;
    }
  }

  /** Planting keeps the data of a node present before that is not at a planted code. */
  lemma {:induction false} PlantKeeps(t: Tree, es: seq<Entry>, q: string)
    requires t.Node? && AllBits(es) && IsBits(q) && At(t, q).Node? && !IsCode(q, es)
    ensures At(Plant(t, es), q).Node?
    ensures At(Plant(t, es), q).data == At(t, q).data
    decreases |es|
  {
    PlantNode(t, es, q);
    if es != [] {
      assert es[0].code != q;
      InsertAt(t, es[0].code, es[0].sym, q);
      TailCode(q, es);
      PlantKeeps(Insert(t, es[0].code, es[0].sym), es[1..], q);
    }
  }

  /** With distinct codes, every planted code ends at a node holding its symbol. */
  lemma {:induction false} PlantData(t: Tree, es: seq<Entry>, i: nat)
    requires t.Node? && AllBits(es) && i < |es|
    requires forall a, b :: 0 <= a < b < |es| ==> es[a].code != es[b].code
    ensures At(Plant(t, es), es[i].code).Node?
    ensures At(Plant(t, es), es[i].code).data == es[i].sym
    decreases |es|
  {
    var t1 := Insert(t, es[0].code, es[0].sym);
    PlantNode(t, es, es[i].code);
    assert es[i].code <= es[i].code;
    if i == 0 {
      InsertAt(t, es[0].code, es[0].sym, es[0].code);
      TailCode(es[0].code, es);
      PlantKeeps(t1, es[1..], es[0].code);
    } else {
      assert es[1..][i - 1] == es[i];
      PlantData(t1, es[1..], i - 1);
    }
  }

  // ---------------------------------------------------------------------------
  // _decode

  /** A node with both children: `_decode` descends from it. */
  predicate HasBoth(t: Tree) {
    t.Node? && t.left.Node? && t.right.Node?
  }

  /**
    The inner loop of `_decode`: from `t`, read payload characters while the
    node has two children, '0' going left and anything else right. Running
    out of payload in the middle is an error (the source reads on past it).
  */
  function Descend(t: Tree, payload: string, i: nat): (r: Result<(Tree, nat), Error>)
    requires t.Node?
    ensures r.Success? ==> r.value.0.Node? && !HasBoth(r.value.0) && i <= r.value.1
    ensures r.Success? && HasBoth(t) ==> i < r.value.1 <= |payload|
    decreases t
  {
    if !HasBoth(t) then Success((t, i))
    else if i >= |payload| then Failure(Truncated)
    else Descend(if payload[i] == '0' then t.left else t.right, payload, i + 1)
  }

  /**
    The outer loop of `_decode` from payload position `i`: emit one node's
    data per descent from the root. A root without two children never moves
    `i` on, so the source loops forever on a nonempty payload.
  */
  function DecodeFrom(root: Tree, payload: string, i: nat): Result<seq<Char>, Error>
    requires root.Node? && i <= |payload|
    decreases |payload| - i
  {
    if i == |payload| then Success([])
    else if !HasBoth(root) then Failure(Diverges)
    else match Descend(root, payload, i)
      case Failure(err) => Failure(err)
      case Success(reached) =>
        var rest :- DecodeFrom(root, payload, reached.1);
        Success([reached.0.data] + rest)
  }

  /** `_decode`: an empty tree is an error; otherwise decode the whole payload. */
  function DecodePayload(root: Tree, payload: string): (r: Result<seq<Char>, Error>)
    ensures root.Nil? ==> r == Failure(EmptyTree)
    ensures payload == [] && root.Node? ==> r == Success([])
    ensures r.Success? ==> |r.value| <= |payload|
  {
    if root.Nil? then Failure(EmptyTree)
    else
      DecodeLength(root, payload, 0);
      DecodeFrom(root, payload, 0)
  }

  /** Every emitted symbol consumes at least one payload character. */
  lemma {:induction false} DecodeLength(root: Tree, payload: string, i: nat)
    requires root.Node? && i <= |payload|
    ensures DecodeFrom(root, payload, i).Success? ==> |DecodeFrom(root, payload, i).value| <= |payload| - i
    decreases |payload| - i
  {
    if i < |payload| && HasBoth(root) && Descend(root, payload, i).Success? {
      DecodeLength(root, payload, Descend(root, payload, i).value.1);
    }
  }

  /**
    `decode`: read the header, locate the payload, rebuild the tree and
    decode what follows the payload offset. An offset past the end of the
    text would wrap the unsigned length computation.
  */
  function Decode(s: string): Result<seq<Char>, Error> {
    var header :- GetHeader(s);
    var offset :- GetEncodedData(s);
    if offset > |s| then Failure(PayloadOutOfRange)
    else
      var built :- BuildTreeFromHeader(header);
      DecodePayload(built.0, s[offset..])
  }

  // ---------------------------------------------------------------------------
  // Decoding a payload spelled with prefix-free codes

  /**
    `t` reads the codes of `es`: every node strictly above the end of a code
    has two children, and the node at the end of a code does not, and holds
    that code's symbol.
  */
  predicate ReadsCodes(t: Tree, es: seq<Entry>) {
    && (forall i, k :: 0 <= i < |es| && 0 <= k < |es[i].code| ==> HasBoth(At(t, es[i].code[..k])))
    && (forall i :: 0 <= i < |es| ==>
          At(t, es[i].code).Node? && !HasBoth(At(t, es[i].code)) && At(t, es[i].code).data == es[i].sym)
  }

  /** No code is a prefix of another entry's code. */
  predicate PrefixFreeCodes(es: seq<Entry>) {
    forall i, j :: 0 <= i < |es| && 0 <= j < |es| && i != j ==> !(es[i].code <= es[j].code)
  }

  /** Both one-step extensions of every strict prefix of a code lead on to codes. */
  predicate Branching(es: seq<Entry>) {
    forall i, k, d :: 0 <= i < |es| && 0 <= k < |es[i].code| && (d == '0' || d == '1') ==>
      UnderSome(es[i].code[..k] + [d], es)
  }

  /** Descending along a code reaches the end of that code, whatever follows it. */
  lemma {:induction false} DescendCode(t: Tree, es: seq<Entry>, i: nat, payload: string, pos: nat, k: nat)
    requires ReadsCodes(t, es) && AllBits(es) && i < |es|
    requires k <= |es[i].code| && pos + |es[i].code| <= |payload|
    requires payload[pos..pos + |es[i].code|] == es[i].code
    ensures At(t, es[i].code[..k]).Node?
    ensures Descend(At(t, es[i].code[..k]), payload, pos + k) == Success((At(t, es[i].code), pos + |es[i].code|))
    decreases |es[i].code| - k
  {
    var c := es[i].code;
    if k == |c| {
      assert c[..k] == c;
    } else {
      var p := c[..k];
      assert HasBoth(At(t, p));
      assert payload[pos + k] == c[k] by {
        assert payload[pos..pos + |c|][k] == c[k];
      }
      assert c[..k + 1] == p + [c[k]];
      AtSnoc(t, p, c[k]);
      DescendCode(t, es, i, payload, pos, k + 1);
    }
  }

  /**
    Over a root with two children that reads the codes of `es`, decoding the
    spelling of `data` (each byte spelled by the code of an entry holding it)
    gives `data` back.
  */
  lemma {:induction false} DecodeSpelled(t: Tree, es: seq<Entry>, payload: string, pos: nat, data: seq<Char>, idx: seq<nat>)
    requires ReadsCodes(t, es) && AllBits(es) && HasBoth(t)
    requires |idx| == |data| && forall n :: 0 <= n < |idx| ==> idx[n] < |es| && es[idx[n]].sym == data[n]
    requires pos <= |payload| && payload[pos..] == Joined(es, idx)
    ensures DecodeFrom(t, payload, pos) == Success(data)
    decreases |data|
  {
    if data == [] {
      assert |payload[pos..]| == 0;
    } else {
      var c := es[idx[0]].code;
      FirstCode(t, es, payload, pos, idx);
      DecodeSpelled(t, es, payload, pos + |c|, data[1..], idx[1..]);
      DecodeStep(t, payload, pos, At(t, c), pos + |c|, data[1..]);
      assert data == [data[0]] + data[1..];
    }
  }

  /** The first code of the spelling takes one descent, which ends where the rest of the spelling starts. */
  lemma FirstCode(t: Tree, es: seq<Entry>, payload: string, pos: nat, idx: seq<nat>)
    requires ReadsCodes(t, es) && AllBits(es) && HasBoth(t)
    requires idx != [] && forall n :: 0 <= n < |idx| ==> idx[n] < |es|
    requires pos <= |payload| && payload[pos..] == Joined(es, idx)
    ensures var c := es[idx[0]].code;
      && c != [] && pos + |c| <= |payload|
      && Descend(t, payload, pos) == Success((At(t, c), pos + |c|))
      && payload[pos + |c|..] == Joined(es, idx[1..])
  {
    var i := idx[0];
    var c := es[i].code;
    assert Joined(es, idx) == c + Joined(es, idx[1..]);
    assert payload[pos..pos + |c|] == c by {
      assert payload[pos..][..|c|] == c;
    }
    DescendCode(t, es, i, payload, pos, 0);
    assert c[..0] == [];
    assert At(t, []) == t;
    assert c != [];
    assert payload[pos + |c|..] == Joined(es, idx[1..]) by {
      assert payload[pos + |c|..] == payload[pos..][|c|..];
    }
  }

  /** One round of `_decode`: a descent to `node`, then the rest of the payload. */
  lemma DecodeStep(t: Tree, payload: string, pos: nat, node: Tree, next: nat, rest: seq<Char>)
    requires HasBoth(t) && pos < next <= |payload|
    requires Descend(t, payload, pos) == Success((node, next))
    requires DecodeFrom(t, payload, next) == Success(rest)
    ensures DecodeFrom(t, payload, pos) == Success([node.data] + rest)
  {
  }

  /** The codes of the entries `idx` picks, one after the other. */
  function Joined(es: seq<Entry>, idx: seq<nat>): string
    requires forall n :: 0 <= n < |idx| ==> idx[n] < |es|
    decreases |idx|
  {
    if idx == [] then [] else es[idx[0]].code + Joined(es, idx[1..])
  }

  /**
    Planting prefix-free, branching bit codes from a fresh root gives a tree
    that reads them; with at least two codes, the root has two children.
  */
  lemma PlantReads(es: seq<Entry>)
    requires AllBits(es) && PrefixFreeCodes(es) && Branching(es)
    ensures ReadsCodes(Plant(CreateNode(0), es), es)
    ensures |es| >= 2 ==> HasBoth(Plant(CreateNode(0), es))
  {
    var t := Plant(CreateNode(0), es);
    forall i, k | 0 <= i < |es| && 0 <= k < |es[i].code|
      ensures HasBoth(At(t, es[i].code[..k]))
    {
      PlantStrictPrefix(es, i, k);
    }
    forall i | 0 <= i < |es|
      ensures At(t, es[i].code).Node? && !HasBoth(At(t, es[i].code)) && At(t, es[i].code).data == es[i].sym
    {
      PlantCodeEnd(es, i);
    }
    if |es| >= 2 {
      assert !(es[0].code <= es[1].code);
      PlantStrictPrefix(es, 0, 0);
      assert es[0].code[..0] == [];
    }
  }

  /** A node strictly above the end of a planted code has two children. */
  lemma PlantStrictPrefix(es: seq<Entry>, i: nat, k: nat)
    requires AllBits(es) && Branching(es)
    requires i < |es| && k < |es[i].code|
    ensures HasBoth(At(Plant(CreateNode(0), es), es[i].code[..k]))
  {
    var t := Plant(CreateNode(0), es);
    var p := es[i].code[..k];
    assert UnderSome(p + ['0'], es) && UnderSome(p + ['1'], es);
    assert UnderSome(p, es) by {
      assert p <= es[i].code;
    }
    PlantNode(CreateNode(0), es, p);
    PlantNode(CreateNode(0), es, p + ['0']);
    PlantNode(CreateNode(0), es, p + ['1']);
    AtSnoc(t, p, '0');
    AtSnoc(t, p, '1');
  }

  /** With prefix-free codes, no code extends another code. */
  lemma NoCodeExtends(es: seq<Entry>, i: nat, d: char)
    requires PrefixFreeCodes(es) && i < |es|
    ensures !UnderSome(es[i].code + [d], es)
  {
    var c := es[i].code;
    forall j | 0 <= j < |es| ensures !(c + [d] <= es[j].code) {
      if j != i {
        assert !(c <= es[j].code);
        ExtensionPrefix(c, d, es[j].code);
      }
    }
  }

  lemma ExtensionPrefix(c: string, d: char, x: string)
    ensures c + [d] <= x ==> c <= x && |c| < |x|
  {
    if c + [d] <= x {
      assert x[..|c|] == (c + [d])[..|c|] == c;
    }
  }

  /** The node at the end of a planted code has no left child, and holds the code's symbol. */
  lemma PlantCodeEnd(es: seq<Entry>, i: nat)
    requires AllBits(es) && PrefixFreeCodes(es) && i < |es|
    ensures At(Plant(CreateNode(0), es), es[i].code).Node?
    ensures !HasBoth(At(Plant(CreateNode(0), es), es[i].code))
    ensures At(Plant(CreateNode(0), es), es[i].code).data == es[i].sym
  {
    var t := Plant(CreateNode(0), es);
    var c := es[i].code;
    forall a, b | 0 <= a < b < |es| ensures es[a].code != es[b].code {
      assert !(es[a].code <= es[b].code);
    }
    PlantData(CreateNode(0), es, i);
    var q := c + ['0'];
    PlantNode(CreateNode(0), es, q);
    AtLeaf(CreateNode(0), q);
    NoCodeExtends(es, i, '0');
    AtSnoc(t, c, '0');
  }
}
