/**
  The compress pipeline (frequency counting, tree building, code table,
  encoding, then the header and the payload written out) and the round trip
  through `decode`.

  The body of `write_header` is not part of this model. The artifact assumes
  the layout both readers rely on: the table entries, one per line, then a
  trailer whose first token is "Uncompressed" and whose last before the
  payload is "Compression", followed by one separator and exactly 16
  characters of ratio text. The two length fields and the ratio text are
  inputs.
*/
module Pipeline {
  import opened Wrappers
  import opened Errors
  import opened Symbols
  import opened Nodes
  import opened Shape
  import opened Frequency
  import opened Build
  import opened Codes
  import opened Text
  import opened Entries
  import opened Encoding
  import opened Decoding

  /** The trailer fields: the two lengths as printed and the ratio text before the payload. */
  datatype Trailer = Trailer(rawLength: string, encodedLength: string, ratio: string)

  predicate IsNumeral(s: string) {
    1 <= |s| < LineSize && forall i :: 0 <= i < |s| ==> '0' <= s[i] <= '9'
  }

  predicate ValidTrailer(tr: Trailer) {
    IsNumeral(tr.rawLength) && IsNumeral(tr.encodedLength) && |tr.ratio| == PayloadSkip
  }

  function TrailerWords(tr: Trailer): seq<string> {
    ["Uncompressed", "Length:", tr.rawLength, "Compressed", "Length:", tr.encodedLength, "Compression"]
  }

  /** The separators after the trailer words: two lines of three words and the "Compression" word. */
  const TrailerSeps: string := "  \n  \n "

  function Newlines(n: nat): (s: string)
    ensures |s| == n
  {
    seq(n, _ => '\n')
  }

  /** The tokens of the written file before the ratio text. */
  function ArtifactWords(table: seq<string>, tr: Trailer): seq<string> {
    table + TrailerWords(tr)
  }

  function ArtifactSeps(table: seq<string>): string {
    Newlines(|table|) + TrailerSeps
  }

  /** The written file: entries one per line, the trailer, the ratio text, the payload. */
  function Artifact(table: seq<string>, tr: Trailer, payload: string): string {
    Words(ArtifactWords(table, tr), ArtifactSeps(table)) + tr.ratio + payload
  }

  /** `compress`: count, build, derive the table, encode, and write the artifact. */
  function Compress(data: seq<Char>, tr: Trailer): Result<string, Error> {
    FrequenciesSpec(data);
    var root := BuildTree(Frequencies(data));
    var table := CalCodeTable(root);
    var payload :- Encode(table, data);
    Success(Artifact(table, tr, payload))
  }

  // ---------------------------------------------------------------------------
  // Reading the artifact back

  predicate OrdinaryEntries(table: seq<string>) {
    forall i :: 0 <= i < |table| ==> HeaderToken(table[i]) && SkippedToken(table[i])
  }

  /** The artifact holds its tokens from the start, each followed by its separator. */
  lemma ArtifactWordsAt(table: seq<string>, tr: Trailer, payload: string)
    ensures WordsAt(Artifact(table, tr, payload), 0, ArtifactWords(table, tr), ArtifactSeps(table))
  {
    var s := Artifact(table, tr, payload);
    var ts := ArtifactWords(table, tr);
    var seps := ArtifactSeps(table);
    var w := Words(ts, seps);
    var n := |table|;
    assert s == w + (tr.ratio + payload);
    assert s[0..|w|] == w;
    forall i | 0 <= i < |seps| ensures !IsTokenChar(seps[i]) {
      if i >= n {
        assert seps[i] == TrailerSeps[i - n];
      }
    }
    WordsAtOf(s, 0, ts, seps);
  }

  /** `get_header` returns the table of an artifact whose entries are ordinary tokens. */
  lemma ArtifactHeader(table: seq<string>, tr: Trailer, payload: string)
    requires |table| <= HeaderSlots && OrdinaryEntries(table)
    ensures GetHeader(Artifact(table, tr, payload)) == Success(table)
  {
    var s := Artifact(table, tr, payload);
    var ts := ArtifactWords(table, tr);
    var n := |table|;
    ArtifactWordsAt(table, tr, payload);
    assert ts[n] == "Uncompressed";
    forall i | 0 <= i < n ensures HeaderToken(ts[i]) {
      assert ts[i] == table[i];
    }
    HeaderOfWords(s, 0, [], ts, ArtifactSeps(table), n);
    assert [] + ts[..n] == table;
  }

  /** `get_encoded_data` points at the payload of an artifact whose entries are ordinary tokens. */
  lemma ArtifactPayload(table: seq<string>, tr: Trailer, payload: string)
    requires ValidTrailer(tr) && OrdinaryEntries(table)
    ensures |payload| <= |Artifact(table, tr, payload)|
    ensures GetEncodedData(Artifact(table, tr, payload)) == Success(|Artifact(table, tr, payload)| - |payload|)
  {
    var s := Artifact(table, tr, payload);
    var ts := ArtifactWords(table, tr);
    var seps := ArtifactSeps(table);
    var n := |table|;
    ArtifactWordsAt(table, tr, payload);
    assert ts[n + 6] == "Compression";
    forall i | 0 <= i < n + 6 ensures SkippedToken(ts[i]) {
      if i < n {
        assert ts[i] == table[i];
      } else {
        TrailerWordSkipped(tr, i - n);
        assert ts[i] == TrailerWords(tr)[i - n];
      }
    }
    EncodedDataOfWords(s, 0, ts, seps, n + 6);
    WordsLength(ts, seps);
  }

  lemma TrailerWordSkipped(tr: Trailer, i: nat)
    requires ValidTrailer(tr) && i < 6
    ensures SkippedToken(TrailerWords(tr)[i])
  {
    var t := TrailerWords(tr)[i];
    if i == 2 || i == 5 {
      assert '0' <= t[0] <= '9';
    } else if i == 3 {
      assert t[9] == 'd';
    }
  }

  /** On such an artifact, `decode` decodes the payload with the tree rebuilt from the table. */
  lemma DecodeArtifact(table: seq<string>, tr: Trailer, payload: string)
    requires ValidTrailer(tr) && |table| <= HeaderSlots && OrdinaryEntries(table)
    ensures Decode(Artifact(table, tr, payload)) ==
      (match BuildTreeFromHeader(table)
       case Failure(err) => Failure(err)
       case Success(built) => DecodePayload(built.0, payload))
  {
    var s := Artifact(table, tr, payload);
    ArtifactHeader(table, tr, payload);
    ArtifactPayload(table, tr, payload);
    assert s[|s| - |payload|..] == payload;
  }

  // ---------------------------------------------------------------------------
  // The code entries of a built tree

  /** There are at most 256 distinct signed bytes. */
  lemma DistinctAtMost256(data: seq<Char>)
    ensures |Distinct(data)| <= 256
  {
    var d := Distinct(data);
    DistinctProps(data);
    NoDupCard(d);
    RangeCard(set x: int | x in d, -128, 128);
  }

  lemma {:induction false} NoDupCard(s: seq<Char>)
    requires NoDup(s)
    ensures |set x: int | x in s| == |s|
    decreases |s|
  {
    if s != [] {
      assert NoDup(s[1..]) by {
        forall i, j | 0 <= i < j < |s| - 1 ensures s[1..][i] != s[1..][j] {
          assert s[1..][i] == s[i + 1] && s[1..][j] == s[j + 1];
        }
      }
      NoDupCard(s[1..]);
      assert (set x: int | x in s) == {s[0] as int} + (set x: int | x in s[1..]);
      assert s[0] !in s[1..];
    }
  }

  lemma {:induction false} RangeCard(S: set<int>, lo: int, hi: int)
    requires lo <= hi && forall x :: x in S ==> lo <= x < hi
    ensures |S| <= hi - lo
    decreases hi - lo
  {
    if lo < hi {
      RangeCard(S - {hi - 1}, lo, hi - 1);
    } else {
      assert S == {};
    }
  }

  /** Every symbol of the input has an entry in the code table. */
  lemma EntryFor(data: seq<Char>, n: nat)
    requires n < |data|
    ensures var es := CodeEntries(BuildTree(Frequencies(data)));
      exists i :: 0 <= i < |es| && es[i].sym == data[n]
  {
    FrequenciesSpec(data);
    var root := BuildTree(Frequencies(data));
    BuildTreeSpec(data);
    DistinctProps(data);
    assert data[n] in Distinct(data);
    assert data[n] in multiset(LeafSyms(root));
    EntryForLeaf(root, data[n]);
  }

  /** Every leaf symbol of a tree has an entry in its code table. */
  lemma EntryForLeaf(root: Tree, c: Char)
    requires c in LeafSyms(root)
    ensures var es := CodeEntries(root); exists i :: 0 <= i < |es| && es[i].sym == c
  {
    var lp := LeafPaths(root);
    LeafPathsSpec(root);
    assert c in Syms(lp);
    var a :| 0 <= a < |lp| && Syms(lp)[a] == c;
    LeafPathIsEntry(root, a);
  }

  /** Every table entry is a leaf path of the tree. */
  lemma EntryIsLeafPath(root: Tree, i: nat)
    requires i < |CodeEntries(root)|
    ensures exists a :: 0 <= a < |LeafPaths(root)| && LeafPaths(root)[a] == CodeEntries(root)[i]
  {
    CalCodeTableSpec(root);
    assert CodeEntries(root)[i] in multiset(LeafPaths(root));
  }

  /** Every leaf path of the tree is a table entry. */
  lemma LeafPathIsEntry(root: Tree, a: nat)
    requires a < |LeafPaths(root)|
    ensures exists i :: 0 <= i < |CodeEntries(root)| && CodeEntries(root)[i] == LeafPaths(root)[a]
  {
    CalCodeTableSpec(root);
    assert LeafPaths(root)[a] in multiset(CodeEntries(root));
  }

  /** With distinct leaf symbols, the table's codes are prefix-free. */
  lemma CodeEntriesPrefixFree(root: Tree)
    requires NoDup(LeafSyms(root))
    ensures PrefixFreeCodes(CodeEntries(root))
  {
    var es := CodeEntries(root);
    var lp := LeafPaths(root);
    CalCodeTableSpec(root);
    LeafPathsSpec(root);
    PrefixFree(root);
    assert NoDup(Syms(lp));
    forall i, j | 0 <= i < |es| && 0 <= j < |es| && i != j ensures !(es[i].code <= es[j].code) {
      EntryIsLeafPath(root, i);
      EntryIsLeafPath(root, j);
      SameSymSameIndex(lp, es, i, j);
    }
  }

  /** In a strict binary tree, both steps out of every point strictly above a code's end lead on to codes. */
  lemma CodeEntriesBranching(root: Tree)
    requires Full(root)
    ensures Branching(CodeEntries(root))
  {
    var es := CodeEntries(root);
    var lp := LeafPaths(root);
    forall i, k, d | 0 <= i < |es| && 0 <= k < |es[i].code| && (d == '0' || d == '1')
      ensures UnderSome(es[i].code[..k] + [d], es)
    {
      EntryIsLeafPath(root, i);
      var a :| 0 <= a < |lp| && lp[a] == es[i];
      BothBranchesUsed(root, a, k, d);
      var b :| 0 <= b < |lp| && es[i].code[..k] + [d] <= lp[b].code;
      LeafPathIsEntry(root, b);
    }
  }

  /**
    The table's codes are bit strings no longer than the tree is high, and
    none is empty once there are two leaves.
  */
  lemma CodeEntriesLengths(root: Tree)
    ensures var es := CodeEntries(root);
      && AllBits(es)
      && (forall i :: 0 <= i < |es| ==> |es[i].code| <= Height(root))
      && (|es| >= 2 ==> forall i :: 0 <= i < |es| ==> |es[i].code| >= 1)
  {
    var es := CodeEntries(root);
    var lp := LeafPaths(root);
    CalCodeTableSpec(root);
    LeafPathsSpec(root);
    forall i | 0 <= i < |es| ensures |es[i].code| <= Height(root) {
      EntryIsLeafPath(root, i);
    }
    if |es| >= 2 {
      assert !IsLeaf(root);
      forall i | 0 <= i < |es| ensures |es[i].code| >= 1 {
        assert At(root, []) == root;
      }
    }
  }

  /** The input, spelled with the table's codes, is the codes of entries holding its bytes. */
  lemma {:induction false} SpellIndices(es: seq<Entry>, data: seq<Char>) returns (idx: seq<nat>)
    requires forall n :: 0 <= n < |data| ==> exists i :: 0 <= i < |es| && es[i].sym == data[n]
    ensures |idx| == |data|
    ensures forall n :: 0 <= n < |idx| ==> idx[n] < |es| && es[idx[n]].sym == data[n]
    ensures Spell(Pairs(es), data) == Joined(es, idx)
    decreases |data|
  {
    if data == [] {
      idx := [];
    } else {
      var i0 :| 0 <= i0 < |es| && es[i0].sym == data[0];
      CodeInFinds(es, data[0], i0);
      var j :| 0 <= j < |es| && es[j].sym == data[0] && CodeIn(Pairs(es), data[0]) == es[j].code;
      forall n | 0 <= n < |data[1..]| ensures exists i :: 0 <= i < |es| && es[i].sym == data[1..][n] {
        assert data[1..][n] == data[n + 1];
      }
      var rest := SpellIndices(es, data[1..]);
      idx := [j] + rest;
      assert idx[1..] == rest;
    }
  }

  // ---------------------------------------------------------------------------
  // The round trip

  /**
    Compressing an input with zero or at least two distinct bytes succeeds,
    and decoding the artifact gives the input back, provided no code is so
    long that its entry would be cut at 255 characters.
  */
  lemma RoundTrip(data: seq<Char>, tr: Trailer)
    requires ValidTrailer(tr)
    requires |Distinct(data)| != 1
    requires Height(BuildTree(Frequencies(data))) <= 246
    ensures Compress(data, tr).Success?
    ensures Decode(Compress(data, tr).value) == Success(data)
  {
    if |Distinct(data)| == 0 {
      DistinctLength(data);
      EmptyRoundTrip(tr);
    } else {
      var es := CodeEntries(BuildTree(Frequencies(data)));
      CompressMany(data, tr);
      DecodeMany(data, tr);
    }
  }

  /** The empty input compresses to a bare trailer, which decodes to nothing. */
  lemma EmptyRoundTrip(tr: Trailer)
    requires ValidTrailer(tr)
    ensures Compress([], tr) == Success(Artifact([], tr, []))
    ensures Decode(Artifact([], tr, [])) == Success([])
  {
    var root := BuildTree(Frequencies([]));
    assert root == Nil;
    assert LeafPaths(root) == [];
    assert CalCodeTable(root) == [];
    DecodeArtifact([], tr, []);
    assert BuildTreeFromHeader([]) == Success((CreateNode(0), 0));
  }

  /** The facts about the table of an input with at least two distinct bytes. */
  lemma ManyTable(data: seq<Char>)
    requires |Distinct(data)| >= 2
    requires Height(BuildTree(Frequencies(data))) <= 246
    ensures var es := CodeEntries(BuildTree(Frequencies(data)));
      && CalCodeTable(BuildTree(Frequencies(data))) == Rendered(es)
      && Renderable(es) && PrefixFreeCodes(es) && Branching(es)
      && |es| >= 2 && |es| <= HeaderSlots
      && OrdinaryEntries(Rendered(es))
      && (forall n :: 0 <= n < |data| ==> exists i :: 0 <= i < |es| && es[i].sym == data[n])
  {
    FrequenciesSpec(data);
    var root := BuildTree(Frequencies(data));
    BuildTreeSpec(data);
    DistinctAtMost256(data);
    var es := CodeEntries(root);
    CalCodeTableSpec(root);
    assert CalCodeTable(root) == Rendered(es);
    CodeEntriesPrefixFree(root);
    CodeEntriesBranching(root);
    CodeEntriesLengths(root);
    forall i | 0 <= i < |es| ensures HeaderToken(Rendered(es)[i]) && SkippedToken(Rendered(es)[i]) {
      RenderedIsHeaderToken(es[i].sym, es[i].code);
    }
    forall n | 0 <= n < |data| ensures exists i :: 0 <= i < |es| && es[i].sym == data[n] {
      EntryFor(data, n);
    }
  }

  /** An input with at least two distinct bytes compresses to its spelling under the table. */
  lemma CompressMany(data: seq<Char>, tr: Trailer)
    requires |Distinct(data)| >= 2
    requires Height(BuildTree(Frequencies(data))) <= 246
    ensures var es := CodeEntries(BuildTree(Frequencies(data)));
      Compress(data, tr) == Success(Artifact(Rendered(es), tr, Spell(Pairs(es), data)))
  {
    var es := CodeEntries(BuildTree(Frequencies(data)));
    ManyTable(data);
    ParseRenderedTable(es);
    EncodeSpell(Rendered(es), Pairs(es), data);
  }

  /** Decoding the artifact of an input with at least two distinct bytes gives the input back. */
  lemma DecodeMany(data: seq<Char>, tr: Trailer)
    requires ValidTrailer(tr)
    requires |Distinct(data)| >= 2
    requires Height(BuildTree(Frequencies(data))) <= 246
    ensures var es := CodeEntries(BuildTree(Frequencies(data)));
      Decode(Artifact(Rendered(es), tr, Spell(Pairs(es), data))) == Success(data)
  {
    var es := CodeEntries(BuildTree(Frequencies(data)));
    ManyTable(data);
    var idx := SpellIndices(es, data);
    var payload := Spell(Pairs(es), data);
    DecodeArtifact(Rendered(es), tr, payload);
    InsertAllRendered(CreateNode(0), es);
    PlantReads(es);
    assert payload[0..] == Joined(es, idx);
    DecodeSpelled(Plant(CreateNode(0), es), es, payload, 0, data, idx);
  }

  /**
    An input of one distinct byte (repeated any number of times) cannot be
    compressed: its only code is empty, the entry reads "<hex>=", and
    `encode` rejects it.
  */
  lemma SingleSymbolFails(data: seq<Char>, tr: Trailer)
    requires |Distinct(data)| == 1
    ensures Compress(data, tr) == Failure(MalformedEntry)
  {
    FrequenciesSpec(data);
    var leaves := Frequencies(data);
    var root := BuildTree(leaves);
    assert root == leaves[0] && IsLeaf(root);
    assert LeafPaths(root) == [Entry(root.data, [])];
    assert CodeEntries(root) == [Entry(root.data, [])];
    assert CalCodeTable(root) == [Render(Entry(root.data, []))];
    DistinctLength(data);
    EmptyCodeAborts(root.data, data);
  }
}
