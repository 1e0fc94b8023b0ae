/**
  `build_tree` as it runs on its scratch array `tmp`: the active nodes sit in
  `tmp[i..end)`, the slots from `end` on are null. Each round sorts the
  active slice, stops when the slot after the first active node is null, and
  otherwise writes the merge of the first two into `tmp[end]` and moves `i`
  on by two. The array has as many slots as the caller passes; an index at or
  past that length is reported as `ScratchOverrun`.
*/
module Scratch {
  import opened Wrappers
  import opened Errors
  import opened Symbols
  import opened Nodes
  import opened Frequency
  import opened Build

  predicate ScratchState(tmp: seq<Tree>, i: nat, end: nat) {
    && i < end <= |tmp|
    && (forall j :: i <= j < end ==> tmp[j].Node?)
    && (forall j :: end <= j < |tmp| ==> tmp[j] == Nil)
  }

  /** The loop of `build_tree` from the round that starts with active slice `tmp[i..end)`. */
  function ScratchLoop(tmp: seq<Tree>, i: nat, end: nat): (r: Result<Tree, Error>)
    requires ScratchState(tmp, i, end)
    ensures r.Failure? ==> r.error == ScratchOverrun
    decreases |tmp| - i
  {
    // The loop guard `tmp[i] != NULL` holds in every state reached: `i < end`.
    var sorted := SortRound(tmp, i, end);
    if i + 1 >= |tmp| then Failure(ScratchOverrun)
    else if sorted[i + 1].Nil? then Success(sorted[i])
    else if end >= |tmp| then Failure(ScratchOverrun)
    else ScratchLoop(sorted[end := MergeNode(sorted[i], sorted[i + 1])], i + 2, end + 1)
  }

  /**
    `build_tree(self, arr, len)` with `size` counted leaves in `arr`: the first
    `len` slots of `arr` are copied to the scratch array.
  */
  function BuildTreeScratch(arr: seq<Tree>, size: nat, len: nat): Result<Tree, Error>
    requires size <= len <= |arr|
    requires forall j :: 0 <= j < size ==> arr[j].Node?
    requires forall j :: size <= j < len ==> arr[j] == Nil
  {
    if size == 0 then Success(Nil) else ScratchLoop(arr[..len], 0, size)
  }

  lemma {:induction false} SortedSlice(tmp: seq<Tree>, i: nat, end: nat)
    requires ScratchState(tmp, i, end)
    ensures var sorted := tmp[..i] + SortByKey(tmp[i..end]) + tmp[end..];
      |sorted| == |tmp| &&
      sorted[i..end] == SortByKey(tmp[i..end]) &&
      (forall j :: i <= j < end ==> sorted[j].Node?) &&
      (forall j :: end <= j < |tmp| ==> sorted[j] == Nil)
  {
    var s := SortByKey(tmp[i..end]);
    var sorted := tmp[..i] + s + tmp[end..];
    forall j | i <= j < end ensures sorted[j] == s[j - i] {
    }
    forall j | end <= j < |tmp| ensures sorted[j] == tmp[j] {
    }
  }

  /** A round with one active node stops and returns it, or reads past the array. */
  lemma LastRound(tmp: seq<Tree>, i: nat, end: nat)
    requires ScratchState(tmp, i, end) && end - i == 1
    ensures ScratchLoop(tmp, i, end) == (if end < |tmp| then Success(tmp[i]) else Failure(ScratchOverrun))
  {
    var sorted := SortRound(tmp, i, end);
    assert tmp[i..end] == [tmp[i]];
    assert SortByKey([tmp[i]]) == [tmp[i]];
    assert sorted[i] == tmp[i];
    if end < |tmp| {
      assert sorted[i + 1] == tmp[end];
    }
  }

  /** The scratch array after one round's sort. */
  function SortRound(tmp: seq<Tree>, i: nat, end: nat): (sorted: seq<Tree>)
    requires ScratchState(tmp, i, end)
    ensures |sorted| == |tmp| && sorted[i..end] == SortByKey(tmp[i..end])
    ensures ScratchState(sorted, i, end)
  {
    SortedSlice(tmp, i, end);
    tmp[..i] + SortByKey(tmp[i..end]) + tmp[end..]
  }

  /** The scratch array after a round that merges into slot `end`. */
  function MergeRoundNext(tmp: seq<Tree>, i: nat, end: nat): (next: seq<Tree>)
    requires ScratchState(tmp, i, end) && end - i >= 2 && end < |tmp|
    ensures |next| == |tmp| && ScratchState(next, i + 2, end + 1)
    ensures next[i + 2..end + 1] == Step(tmp[i..end])
  {
    var sorted := SortRound(tmp, i, end);
    var active := SortByKey(tmp[i..end]);
    var m := MergeNode(sorted[i], sorted[i + 1]);
    assert active[0] == sorted[i] && active[1] == sorted[i + 1];
    var next := sorted[end := m];
    assert next[i + 2..end + 1] == active[2..] + [m];
    next
  }

  /**
    A round with two or more active nodes writes the merge of the two least
    into slot `end`, when that slot exists: the next active slice is `Step`
    of this one.
  */
  lemma MergeRound(tmp: seq<Tree>, i: nat, end: nat)
    requires ScratchState(tmp, i, end) && end - i >= 2
    ensures end >= |tmp| ==> ScratchLoop(tmp, i, end) == Failure(ScratchOverrun)
    ensures end < |tmp| ==> ScratchLoop(tmp, i, end) == ScratchLoop(MergeRoundNext(tmp, i, end), i + 2, end + 1)
  {
    var sorted := SortRound(tmp, i, end);
    assert sorted[i + 1].Node?;
  }

  /** What the rounds from `tmp[i..end)` produce: see `ScratchLoopSpec`. */
  predicate LoopOutcome(tmp: seq<Tree>, i: nat, end: nat)
    requires ScratchState(tmp, i, end)
  {
    && (ScratchLoop(tmp, i, end).Success? <==> 2 * end - i <= |tmp|)
    && (2 * end - i <= |tmp| ==> ScratchLoop(tmp, i, end) == Success(BuildFrom(tmp[i..end])))
  }

  lemma MergeRoundOutcome(tmp: seq<Tree>, i: nat, end: nat)
    requires ScratchState(tmp, i, end) && end - i >= 2 && end < |tmp|
    requires LoopOutcome(MergeRoundNext(tmp, i, end), i + 2, end + 1)
    ensures LoopOutcome(tmp, i, end)
  {
    MergeRound(tmp, i, end);
    var active := tmp[i..end];
    assert BuildFrom(active) == BuildFrom(Step(active));
  }

  /**
    The rounds from `tmp[i..end)` stay inside the array exactly when
    `2 * end - i <= |tmp|`, and then they build the same tree as `BuildFrom`.
    The quantity `2 * end - i` does not change from round to round; the last
    round reads slot `2 * end - i - 1`.
  */
  lemma {:induction false} ScratchLoopSpec(tmp: seq<Tree>, i: nat, end: nat)
    requires ScratchState(tmp, i, end)
    ensures LoopOutcome(tmp, i, end)
    decreases |tmp| - i, 1
  {
    if end - i == 1 {
      LastRoundOutcome(tmp, i, end);
    } else if end < |tmp| {
      MergeRoundSpec(tmp, i, end);
    } else {
      OverrunOutcome(tmp, i, end);
    }
  }

  /** The outcome of the rounds when the merge fits: that of the rounds after it. */
  lemma {:induction false} MergeRoundSpec(tmp: seq<Tree>, i: nat, end: nat)
    requires ScratchState(tmp, i, end) && end - i >= 2 && end < |tmp|
    ensures LoopOutcome(tmp, i, end)
    decreases |tmp| - i, 0
  {
    var next := MergeRoundStep(tmp, i, end);
    ScratchLoopSpec(next, i + 2, end + 1);
  }

  /** The state after a merging round, and what its outcome tells about this one's. */
  lemma MergeRoundStep(tmp: seq<Tree>, i: nat, end: nat) returns (next: seq<Tree>)
    requires ScratchState(tmp, i, end) && end - i >= 2 && end < |tmp|
    ensures |next| == |tmp| && ScratchState(next, i + 2, end + 1)
    ensures LoopOutcome(next, i + 2, end + 1) ==> LoopOutcome(tmp, i, end)
  {
    next := MergeRoundNext(tmp, i, end);
    if LoopOutcome(next, i + 2, end + 1) {
      MergeRoundOutcome(tmp, i, end);
    }
  }

  /** The outcome of the rounds when one node is left. */
  lemma LastRoundOutcome(tmp: seq<Tree>, i: nat, end: nat)
    requires ScratchState(tmp, i, end) && end - i == 1
    ensures LoopOutcome(tmp, i, end)
  {
    LastRound(tmp, i, end);
    assert tmp[i..end] == [tmp[i]];
  }

  /** The outcome of the rounds when the merge would be written past the array. */
  lemma OverrunOutcome(tmp: seq<Tree>, i: nat, end: nat)
    requires ScratchState(tmp, i, end) && end - i >= 2 && end >= |tmp|
    ensures LoopOutcome(tmp, i, end)
  {
    MergeRound(tmp, i, end);
  }

  /** The scratch array `build_tree` starts from: the first `len` slots of `arr`. */
  lemma ScratchStart(arr: seq<Tree>, size: nat, len: nat)
    requires 0 < size <= len <= |arr|
    requires forall j :: 0 <= j < size ==> arr[j].Node?
    requires forall j :: size <= j < len ==> arr[j] == Nil
    ensures ScratchState(arr[..len], 0, size) && arr[..len][0..size] == arr[..size]
  {
  }

  /**
    With room for twice the leaf count, the scratch loop never leaves its
    array and builds the same tree as the sort-and-merge definition.
  */
  lemma BuildTreeScratchCorrected(arr: seq<Tree>, size: nat, len: nat)
    requires size <= len <= |arr|
    requires forall j :: 0 <= j < size ==> arr[j].Node?
    requires forall j :: size <= j < len ==> arr[j] == Nil
    requires 2 * size <= len
    ensures BuildTreeScratch(arr, size, len) == Success(BuildTree(arr[..size]))
  {
    if size > 0 {
      ScratchStart(arr, size, len);
      ScratchLoopSpec(arr[..len], 0, size);
    }
  }

  /**
    The scratch loop fails exactly when the array has fewer than twice as many
    slots as there are leaves; the source passes the input length.
  */
  lemma BuildTreeScratchFails(arr: seq<Tree>, size: nat, len: nat)
    requires size <= len <= |arr|
    requires forall j :: 0 <= j < size ==> arr[j].Node?
    requires forall j :: size <= j < len ==> arr[j] == Nil
    ensures BuildTreeScratch(arr, size, len).Failure? <==> 0 < size && len < 2 * size
    ensures BuildTreeScratch(arr, size, len).Failure? ==> BuildTreeScratch(arr, size, len).error == ScratchOverrun
  {
    if size > 0 {
      ScratchStart(arr, size, len);
      ScratchLoopSpec(arr[..len], 0, size);
    }
  }

  /**
    The counted leaves as the counting pass leaves them in an array with one
    slot per input byte: leaves first, null slots after.
  */
  function LeafArray(data: seq<Char>, slots: nat): (arr: seq<Tree>)
    requires |data| <= slots
    ensures |Distinct(data)| <= |data|
    ensures |arr| == slots && arr[..|Distinct(data)|] == Frequencies(data)
    ensures forall j :: 0 <= j < |Distinct(data)| ==> arr[j].Node?
    ensures forall j :: |Distinct(data)| <= j < slots ==> arr[j] == Nil
  {
    FrequenciesSpec(data);
    DistinctLength(data);
    var f := Frequencies(data);
    var arr := f + seq(slots - |f|, _ => Nil);
    assert arr[..|f|] == f;
    arr
  }

  /**
    The pipeline as written hands `build_tree` a scratch array of one slot per
    input byte, so it overruns exactly when the input has fewer than twice as
    many bytes as distinct bytes.
  */
  lemma ScratchOverrunAsWritten(data: seq<Char>)
    ensures var k := |Distinct(data)|;
      && (BuildTreeScratch(LeafArray(data, |data|), k, |data|).Failure? <==> 0 < k && |data| < 2 * k)
      && (0 < k && |data| < 2 * k ==> BuildTreeScratch(LeafArray(data, |data|), k, |data|) == Failure(ScratchOverrun))
  {
    DistinctLength(data);
    BuildTreeScratchFails(LeafArray(data, |data|), |Distinct(data)|, |data|);
  }

  /** The two-byte input "ab" already overruns the scratch array. */
  lemma ScratchOverrunExample()
    ensures BuildTreeScratch(LeafArray([97, 98], 2), 2, 2) == Failure(ScratchOverrun)
  {
    var data: seq<Char> := [97, 98];
    assert Distinct(data[..1]) == [97];
    assert Distinct(data) == [97, 98];
    ScratchOverrunAsWritten(data);
  }

  /**
    With a scratch array of twice the leaf count, the build from the counted
    leaves never overruns and produces the tree `BuildTree` defines.
  */
  lemma ScratchCorrected(data: seq<Char>)
    ensures var k := |Distinct(data)|;
      BuildTreeScratch(LeafArray(data, 2 * |data|), k, 2 * k) == Success(BuildTree(Frequencies(data)))
  {
    DistinctLength(data);
    BuildTreeScratchCorrected(LeafArray(data, 2 * |data|), |Distinct(data)|, 2 * |Distinct(data)|);
  }
}
