/**
  The compress pipeline as the program runs it: `compress` hands
  `build_tree` a scratch array of one slot per input byte, and `get_code`
  reverses each code with an unguarded index. `Pipeline.Compress` is the
  same pipeline with both corrected; the lemmas here say on which inputs the
  two differ.
*/
module AsWritten {
  import opened Wrappers
  import opened Errors
  import opened Symbols
  import opened Nodes
  import opened Shape
  import opened Frequency
  import opened Build
  import opened Scratch
  import opened Codes
  import opened Encoding
  import opened Decoding
  import opened Pipeline

  /**
    `compress` as written: `build_tree` gets a scratch array of one slot per
    input byte, and `get_code` reverses each code with the unguarded index.
    `Compress` is the same pipeline with both corrected.
  */
  function CompressAsWritten(data: seq<Char>, tr: Trailer): Result<string, Error> {
    var root :- BuildTreeScratch(LeafArray(data, |data|), |Distinct(data)|, |data|);
    var table :- CalCodeTableAsWritten(root);
    var payload :- Encode(table, data);
    Success(Artifact(table, tr, payload))
  }

  /** The input has fewer than twice as many bytes as distinct bytes: the build overruns. */
  lemma CompressAsWrittenOverruns(data: seq<Char>, tr: Trailer)
    requires 0 < |Distinct(data)| && |data| < 2 * |Distinct(data)|
    ensures CompressAsWritten(data, tr) == Failure(ScratchOverrun)
  {
    ScratchOverrunAsWritten(data);
  }

  /**
    With room for the merges, the build as written gives the counted tree,
    and then the code table as written is the corrected one unless the
    root is a leaf.
  */
  lemma AsWrittenTree(data: seq<Char>)
    requires 2 * |Distinct(data)| <= |data|
    ensures var root := BuildTree(Frequencies(data));
      && BuildTreeScratch(LeafArray(data, |data|), |Distinct(data)|, |data|) == Success(root)
      && (IsLeaf(root) <==> |Distinct(data)| == 1)
      && (IsLeaf(root) ==> CalCodeTableAsWritten(root) == Failure(CodeIndexWraps))
      && (!IsLeaf(root) ==> CalCodeTableAsWritten(root) == Success(CalCodeTable(root)))
  {
    var k := |Distinct(data)|;
    var arr := LeafArray(data, |data|);
    BuildTreeScratchCorrected(arr, k, |data|);
    var root := BuildTree(Frequencies(data));
    BuildTreeSpec(data);
    DistinctAtMost256(data);
    HeightAtMostInternal(root);
    CalCodeTableAsWrittenSpec(root);
  }

  /**
    As written, an input of one distinct byte fails: a single byte overruns
    the scratch array, and a longer run reaches `get_code` with the empty
    code of the lone leaf, whose reversal index wraps.
  */
  lemma SingleSymbolAsWritten(data: seq<Char>, tr: Trailer)
    requires |Distinct(data)| == 1
    ensures |data| == 1 ==> CompressAsWritten(data, tr) == Failure(ScratchOverrun)
    ensures |data| >= 2 ==> CompressAsWritten(data, tr) == Failure(CodeIndexWraps)
  {
    if |data| >= 2 {
      AsWrittenTree(data);
    } else {
      DistinctLength(data);
      CompressAsWrittenOverruns(data, tr);
    }
  }

  /**
    With at least twice as many bytes as distinct bytes, and not exactly one
    distinct byte, the pipeline as written computes what `Compress` does.
  */
  lemma CompressAsWrittenAgrees(data: seq<Char>, tr: Trailer)
    requires 2 * |Distinct(data)| <= |data| && |Distinct(data)| != 1
    ensures CompressAsWritten(data, tr) == Compress(data, tr)
  {
    AsWrittenTree(data);
  }

  /** The round trip of the pipeline as written, on the inputs it does not abort on. */
  lemma RoundTripAsWritten(data: seq<Char>, tr: Trailer)
    requires ValidTrailer(tr)
    requires 2 * |Distinct(data)| <= |data| && |Distinct(data)| != 1
    requires Height(BuildTree(Frequencies(data))) <= 246
    ensures CompressAsWritten(data, tr).Success?
    ensures Decode(CompressAsWritten(data, tr).value) == Success(data)
  {
    CompressAsWrittenAgrees(data, tr);
    RoundTrip(data, tr);
  }

  /** The two-byte input "ab" is already too short for the pipeline as written. */
  lemma AbOverruns(tr: Trailer)
    ensures CompressAsWritten([97, 98], tr) == Failure(ScratchOverrun)
  {
    var data: seq<Char> := [97, 98];
    assert Distinct(data[..1]) == [97];
    assert Distinct(data) == [97, 98];
    CompressAsWrittenOverruns(data, tr);
  }
}
