/**
  Frequency counting (`gen_freq_arr`): one leaf per distinct input byte, in
  order of first occurrence, carrying the number of occurrences.
*/
module Frequency {
  import opened Symbols
  import opened Nodes

  predicate NoDup<T(==)>(s: seq<T>) {
    forall i, j :: 0 <= i < j < |s| ==> s[i] != s[j]
  }

  lemma {:induction false} NoDupCounts<T>(s: seq<T>)
    ensures NoDup(s) <==> forall x :: x in multiset(s) ==> multiset(s)[x] <= 1
    decreases |s|
  {
    if s != [] {
      NoDupCounts(s[1..]);
      assert s == [s[0]] + s[1..];
      assert multiset(s) == multiset{s[0]} + multiset(s[1..]);
      if NoDup(s) {
        NoDupTail(s);
      } else {
        var i, j :| 0 <= i < j < |s| && s[i] == s[j];
        OnceMeansOneIndex(s, i, j);
      }
    }
  }

  /** Without repeats, the head is not in the tail and the tail has no repeats. */
  lemma NoDupTail<T>(s: seq<T>)
    requires s != [] && NoDup(s)
    ensures s[0] !in s[1..] && NoDup(s[1..])
  {
    forall i, j | 0 <= i < j < |s| - 1 ensures s[1..][i] != s[1..][j] {
      assert s[1..][i] == s[i + 1] && s[1..][j] == s[j + 1];
    }
  }

  /** A value occurring once in a sequence sits at one index only. */
  lemma OnceMeansOneIndex<T>(s: seq<T>, i: nat, j: nat)
    requires i < |s| && j < |s|
    ensures s[i] == s[j] && i != j ==> multiset(s)[s[i]] >= 2
  {
    if s[i] == s[j] && i != j {
      var lo, hi := if i < j then i else j, if i < j then j else i;
      assert s == s[..hi] + [s[hi]] + s[hi + 1..];
      assert s[lo] in s[..hi];
      assert multiset(s) == multiset(s[..hi]) + multiset{s[hi]} + multiset(s[hi + 1..]);
    }
  }

  /** Number of occurrences of `c` in `data`. */
  function Count(data: seq<Char>, c: Char): nat {
    multiset(data)[c]
  }

  /** Reference definition: distinct symbols of `data`, in order of first occurrence. */
  function Distinct(data: seq<Char>): seq<Char>
    decreases |data|
  {
    if data == [] then []
    else
      var p := Distinct(data[..|data| - 1]);
      var c := data[|data| - 1];
      if c in p then p else p + [c]
  }

  lemma {:induction false} DistinctProps(data: seq<Char>)
    ensures NoDup(Distinct(data))
    ensures forall c :: c in Distinct(data) <==> c in data
    decreases |data|
  {
    if data != [] {
      var init := data[..|data| - 1];
      DistinctProps(init);
      assert data == init + [data[|data| - 1]];
    }
  }

  /** There are never more distinct bytes than bytes, and a nonempty input has one. */
  lemma {:induction false} DistinctLength(data: seq<Char>)
    ensures |Distinct(data)| <= |data|
    ensures data != [] ==> |Distinct(data)| >= 1
    decreases |data|
  {
    if data != [] {
      DistinctLength(data[..|data| - 1]);
    }
  }

  /** Sum of the counts held by a sequence of nodes. */
  function TotalFreq(f: seq<Tree>): int
    requires forall i :: 0 <= i < |f| ==> f[i].Node?
  {
    if f == [] then 0 else f[0].freq + TotalFreq(f[1..])
  }

  lemma {:induction false} TotalFreqUpdate(f: seq<Tree>, j: nat, x: Tree)
    requires forall i :: 0 <= i < |f| ==> f[i].Node?
    requires j < |f| && x.Node?
    ensures TotalFreq(f[j := x]) == TotalFreq(f) - f[j].freq + x.freq
    decreases |f|
  {
    if j == 0 {
      assert f[j := x][1..] == f[1..];
    } else {
      assert f[j := x][1..] == f[1..][j - 1 := x];
      TotalFreqUpdate(f[1..], j - 1, x);
    }
  }

  lemma {:induction false} TotalFreqSnoc(f: seq<Tree>, x: Tree)
    requires forall i :: 0 <= i < |f| ==> f[i].Node?
    requires x.Node?
    ensures TotalFreq(f + [x]) == TotalFreq(f) + x.freq
    decreases |f|
  {
    if f == [] {
      assert [x][1..] == [];
    } else {
      assert (f + [x])[1..] == f[1..] + [x];
      TotalFreqSnoc(f[1..], x);
    }
  }

  /** Index of the first node holding `c`, or `|arr|` when there is none. */
  function FindSym(arr: seq<Tree>, c: Char): (j: nat)
    requires forall i :: 0 <= i < |arr| ==> arr[i].Node?
    ensures j <= |arr|
    ensures forall i :: 0 <= i < j ==> arr[i].data != c
    ensures j < |arr| ==> arr[j].data == c
    decreases |arr|
  {
    if arr == [] then 0
    else if arr[0].data == c then 0
    else 1 + FindSym(arr[1..], c)
  }

  /** One step of the counting loop: increment the first match or append a new leaf. */
  function Bump(arr: seq<Tree>, c: Char): seq<Tree>
    requires forall i :: 0 <= i < |arr| ==> arr[i].Node?
  {
    var j := FindSym(arr, c);
    if j < |arr| then arr[j := arr[j].(freq := arr[j].freq + 1)] else arr + [CreateNode(c)]
  }

  /** The counted leaves after scanning all of `data`. */
  function Frequencies(data: seq<Char>): (r: seq<Tree>)
    ensures forall i :: 0 <= i < |r| ==> IsLeaf(r[i])
    decreases |data|
  {
    if data == [] then []
    else Bump(Frequencies(data[..|data| - 1]), data[|data| - 1])
  }

  /**
    Entry j of the counted leaves holds the j-th distinct byte in order of
    first occurrence, with its number of occurrences.
  */
  lemma {:induction false} FrequenciesSpec(data: seq<Char>)
    ensures |Frequencies(data)| == |Distinct(data)|
    ensures forall j :: 0 <= j < |Distinct(data)| ==>
      Frequencies(data)[j].data == Distinct(data)[j] &&
      Frequencies(data)[j].freq == Count(data, Distinct(data)[j])
    decreases |data|
  {
    if data != [] {
      var init := data[..|data| - 1];
      var c := data[|data| - 1];
      assert data == init + [c];
      assert multiset(data) == multiset(init) + multiset{c};
      FrequenciesSpec(init);
      DistinctProps(init);
      var f := Frequencies(init);
      var d := Distinct(init);
      var j := FindSym(f, c);
      if c in d {
        var k :| 0 <= k < |d| && d[k] == c;
        assert j == k;
      } else {
        assert j == |f|;
        assert c !in init;
      }
    }
  }

  /** The counts add up to the input length. */
  lemma {:induction false} FrequenciesTotal(data: seq<Char>)
    ensures TotalFreq(Frequencies(data)) == |data|
    decreases |data|
  {
    if data != [] {
      var init := data[..|data| - 1];
      var c := data[|data| - 1];
      FrequenciesTotal(init);
      var f := Frequencies(init);
      var j := FindSym(f, c);
      if j < |f| {
        TotalFreqUpdate(f, j, f[j].(freq := f[j].freq + 1));
      } else {
        TotalFreqSnoc(f, CreateNode(c));
      }
    }
  }

  /**
    `gen_freq_arr`: clear the caller's `slots` over the input length, then scan
    the input once, searching the leaves found so far for each byte and either
    incrementing the match or appending a new leaf. `size` is the leaf count.
  */
  method GenFreqArr(slots: seq<Tree>, data: seq<Char>) returns (arr: seq<Tree>, size: nat)
    requires |data| <= |slots|
    ensures |arr| == |slots|
    ensures size == |Distinct(data)| <= |data|
    ensures forall j :: 0 <= j < size ==>
      IsLeaf(arr[j]) && arr[j].data == Distinct(data)[j] && arr[j].freq == Count(data, arr[j].data)
    ensures forall j :: size <= j < |data| ==> arr[j] == Nil
    ensures forall j :: |data| <= j < |slots| ==> arr[j] == slots[j]
    ensures arr[..size] == Frequencies(data)
    ensures TotalFreq(arr[..size]) == |data|
  {
    arr := InitNodeArr(slots, |data|);
    size := 0;
    var i := 0;
    while i < |data|
      invariant i <= |data| && size <= i && |arr| == |slots|
      invariant arr[..size] == Frequencies(data[..i])
      invariant forall j :: size <= j < |data| ==> arr[j] == Nil
      invariant forall j :: |data| <= j < |slots| ==> arr[j] == slots[j]
    {
      arr, size := CountByte(arr, size, data[i]);
      FrequenciesPrefix(data, i);
      i := i + 1;
    }
    assert data[..i] == data;
    FrequenciesArray(arr, size, data);
  }

  /** An array whose first `size` slots hold the leaves of `data` holds one counted leaf per distinct byte. */
  lemma FrequenciesArray(arr: seq<Tree>, size: nat, data: seq<Char>)
    requires size <= |arr| && arr[..size] == Frequencies(data)
    ensures size == |Distinct(data)| <= |data|
    ensures forall j :: 0 <= j < size ==>
      IsLeaf(arr[j]) && arr[j].data == Distinct(data)[j] && arr[j].freq == Count(data, arr[j].data)
    ensures TotalFreq(arr[..size]) == |data|
  {
    FrequenciesSpec(data);
    FrequenciesTotal(data);
    DistinctLength(data);
    forall j | 0 <= j < size
      ensures IsLeaf(arr[j]) && arr[j].data == Distinct(data)[j] && arr[j].freq == Count(data, arr[j].data)
    {
      assert arr[j] == Frequencies(data)[j];
    }
  }

  /** Counting one more byte of the input bumps that byte's leaf. */
  lemma FrequenciesPrefix(data: seq<Char>, i: nat)
    requires i < |data|
    ensures Frequencies(data[..i + 1]) == Bump(Frequencies(data[..i]), data[i])
  {
    assert data[..i + 1][..i] == data[..i];
  }

  /**
    The body of the scan for one byte `c`: search the first `size` slots for
    it; increment the match, or put a new leaf in slot `size`.
  */
  method CountByte(arr: seq<Tree>, size: nat, c: Char) returns (r: seq<Tree>, size': nat)
    requires size < |arr| && forall k :: 0 <= k < size ==> arr[k].Node?
    ensures |r| == |arr| && size <= size' <= size + 1
    ensures r[..size'] == Bump(arr[..size], c)
    ensures forall k :: size' <= k < |arr| ==> r[k] == arr[k]
  {
    ghost var before := arr[..size];
    r, size' := arr, size;
    var found := false;
    var j := 0;
    while j < size && !found
      invariant j <= size && |r| == |arr|
      invariant !found ==> r == arr && forall k :: 0 <= k < j ==> r[k].data != c
      invariant found ==> r[..size] == Bump(before, c)
      invariant forall k :: size <= k < |arr| ==> r[k] == arr[k]
      decreases size - j, if found then 0 else 1
    {
      if r[j].data == c {
        assert FindSym(before, c) == j;
        r := r[j := r[j].(freq := r[j].freq + 1)];
        assert r[..size] == before[j := before[j].(freq := before[j].freq + 1)];
        found := true;
      } else {
        j := j + 1;
      }
    }
    if !found {
      assert FindSym(before, c) == |before|;
      r := r[size := CreateNode(c)];
      size' := size + 1;
      assert r[..size'] == before + [CreateNode(c)];
    }
  }
}
