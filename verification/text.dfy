/**
  Reading the compressed text (`get_header`, `get_encoded_data`). Both walk
  the text with `sscanf(text + cur, "%s", line)` into a 256-byte `line` and
  move `cur` on by the token length plus one, which assumes the token started
  at `cur` and ends at a single separator.
*/
module Text {
  import opened Wrappers
  import opened Errors

  /** The size of the `line` buffer and of the header's slot array. */
  const LineSize: nat := 256
  const HeaderSlots: nat := 256

  /** `isspace` in the C locale: space, tab, newline, vertical tab, form feed, return. */
  predicate IsSpace(c: char) {
    c == ' ' || ('\t' <= c <= '\r')
  }

  /** A character `%s` copies into a token: not white space and not the terminator. */
  predicate IsTokenChar(c: char) {
    !IsSpace(c) && c != '\0'
  }

  predicate IsToken(t: string) {
    |t| >= 1 && forall i :: 0 <= i < |t| ==> IsTokenChar(t[i])
  }

  function SkipSpace(s: string, p: nat): (q: nat)
    requires p <= |s|
    ensures p <= q <= |s|
    ensures q < |s| ==> !IsSpace(s[q])
    decreases |s| - p
  {
    if p < |s| && IsSpace(s[p]) then SkipSpace(s, p + 1) else p
  }

  /** Everything `SkipSpace` passes over is white space. */
  lemma {:induction false} SkipSpaceSpec(s: string, p: nat)
    requires p <= |s|
    ensures AllSpace(s, p, SkipSpace(s, p))
    decreases |s| - p
  {
    if p < |s| && IsSpace(s[p]) {
      SkipSpaceSpec(s, p + 1);
    }
  }

  function TokenEnd(s: string, p: nat): (q: nat)
    requires p <= |s|
    ensures p <= q <= |s|
    ensures p < |s| && IsTokenChar(s[p]) ==> p < q
    decreases |s| - p
  {
    if p < |s| && IsTokenChar(s[p]) then TokenEnd(s, p + 1) else p
  }

  /** `TokenEnd` passes over token characters and stops at the first other one. */
  lemma {:induction false} TokenEndSpec(s: string, p: nat)
    requires p <= |s|
    ensures forall k :: p <= k < TokenEnd(s, p) ==> IsTokenChar(s[k])
    ensures TokenEnd(s, p) < |s| ==> !IsTokenChar(s[TokenEnd(s, p)])
    decreases |s| - p
  {
    if p < |s| && IsTokenChar(s[p]) {
      TokenEndSpec(s, p + 1);
    }
  }

  /**
    `sscanf(s + pos, "%s", line)`: skip white space, then take the longest
    run of token characters; `None` is the EOF result, when only white space
    precedes the end of the text or its terminator.
  */
  function Scan(s: string, pos: nat): (r: Option<string>)
    requires pos <= |s|
    ensures r.Some? ==> 1 <= |r.value| && pos + |r.value| <= |s|
  {
    var p := SkipSpace(s, pos);
    if p == |s| || s[p] == '\0' then None else Some(s[p..TokenEnd(s, p)])
  }

  /** What `Scan` returns is a token: nonempty, without white space or NUL. */
  lemma ScanIsToken(s: string, pos: nat)
    requires pos <= |s| && Scan(s, pos).Some?
    ensures IsToken(Scan(s, pos).value)
  {
    TokenEndSpec(s, SkipSpace(s, pos));
  }

  /** A token at `pos` followed by a separator (or the end of the text) is what `Scan` returns. */
  lemma ScanToken(s: string, pos: nat, t: string)
    requires IsToken(t) && pos + |t| <= |s| && s[pos..pos + |t|] == t
    requires pos + |t| == |s| || !IsTokenChar(s[pos + |t|])
    ensures Scan(s, pos) == Some(t)
  {
    assert s[pos] == t[0];
    assert SkipSpace(s, pos) == pos;
    TokenEndAt(s, pos, pos + |t|);
  }

  lemma {:induction false} TokenEndAt(s: string, p: nat, q: nat)
    requires p <= q <= |s|
    requires forall k :: p <= k < q ==> IsTokenChar(s[k])
    requires q == |s| || !IsTokenChar(s[q])
    ensures TokenEnd(s, p) == q
    decreases q - p
  {
    if p < q {
      TokenEndAt(s, p + 1, q);
    }
  }

  /** `SkipSpace` stops at or before the first non-space position. */
  lemma {:induction false} SkipStopsBy(s: string, pos: nat, q: nat)
    requires pos <= q <= |s| && (q == |s| || !IsSpace(s[q]))
    ensures SkipSpace(s, pos) <= q
    decreases q - pos
  {
    if pos < |s| && IsSpace(s[pos]) {
      assert pos != q;
      SkipStopsBy(s, pos + 1, q);
    }
  }

  /** `Scan` finds nothing exactly when only white space precedes the end or a NUL. */
  lemma ScanNone(s: string, pos: nat)
    requires pos <= |s|
    ensures Scan(s, pos).None? <==>
      exists q :: pos <= q <= |s| && (q == |s| || s[q] == '\0') && AllSpace(s, pos, q)
  {
    var p := SkipSpace(s, pos);
    SkipSpaceSpec(s, pos);
    if Scan(s, pos).None? {
      assert pos <= p <= |s| && (p == |s| || s[p] == '\0') && AllSpace(s, pos, p);
    } else {
      forall q | pos <= q <= |s| && (q == |s| || s[q] == '\0')
        ensures !AllSpace(s, pos, q)
      {
        SkipStopsBy(s, pos, q);
        assert p != q;
        assert !IsSpace(s[p]);
      }
    }
  }

  predicate AllSpace(s: string, p: nat, q: nat)
    requires p <= q <= |s|
  {
    forall k :: p <= k < q ==> IsSpace(s[k])
  }

  // ---------------------------------------------------------------------------
  // get_header

  /**
    The loop of `get_header` from offset `cur`, with the tokens collected so
    far in `acc`: stop before the first token that begins with
    "Uncompressed". A token too long for `line`, a 257th header entry, and
    reaching the end of the text (where the source's loop continues with the
    previous token, since `sscanf` returns EOF, which is nonzero) are errors.
  */
  function GetHeaderFrom(s: string, cur: nat, acc: seq<string>): Result<seq<string>, Error>
    decreases |s| + 1 - cur
  {
    if cur > |s| then Failure(ReadPastEnd)
    else match Scan(s, cur)
      case None => Failure(MissingSentinel)
      case Some(t) =>
        if |t| >= LineSize then Failure(TokenTooLong)
        else if "Uncompressed" <= t then Success(acc)
        else if |acc| >= HeaderSlots then Failure(HeaderOverflow)
        else GetHeaderFrom(s, cur + |t| + 1, acc + [t])
  }

  /** `get_header`: the header tokens; their number is the tree's `size` afterwards. */
  function GetHeader(s: string): Result<seq<string>, Error> {
    GetHeaderFrom(s, 0, [])
  }

  predicate HeaderToken(t: string) {
    IsToken(t) && |t| < LineSize && !("Uncompressed" <= t)
  }

  /** One round of `get_header` that keeps an ordinary token. */
  lemma HeaderStep(s: string, cur: nat, acc: seq<string>, t: string)
    requires cur <= |s| && Scan(s, cur) == Some(t) && HeaderToken(t) && |acc| < HeaderSlots
    ensures GetHeaderFrom(s, cur, acc) == GetHeaderFrom(s, cur + |t| + 1, acc + [t])
  {
  }

  /** `get_header` stops at a token that begins with "Uncompressed". */
  lemma HeaderStop(s: string, cur: nat, acc: seq<string>, t: string)
    requires cur <= |s| && Scan(s, cur) == Some(t) && |t| < LineSize && "Uncompressed" <= t
    ensures GetHeaderFrom(s, cur, acc) == Success(acc)
  {
  }

  /** The first token of `WordsAt` is what `Scan` returns there. */
  lemma ScanFirstWord(s: string, cur: nat, ts: seq<string>, seps: string)
    requires WordsAt(s, cur, ts, seps) && ts != [] && IsToken(ts[0])
    ensures cur <= |s| && Scan(s, cur) == Some(ts[0])
    ensures WordsAt(s, cur + |ts[0]| + 1, ts[1..], seps[1..])
  {
    assert !IsTokenChar(seps[0]);
    ScanToken(s, cur, ts[0]);
  }

  /**
    Over a text holding, from `cur` on, the tokens `ts` each followed by a
    separator, where `ts[j]` is the first to begin with "Uncompressed",
    `get_header` returns the `j` tokens before it.
  */
  lemma {:induction false} HeaderOfWords(s: string, cur: nat, acc: seq<string>, ts: seq<string>, seps: string, j: nat)
    requires WordsAt(s, cur, ts, seps) && j < |ts|
    requires forall i :: 0 <= i < j ==> HeaderToken(ts[i])
    requires IsToken(ts[j]) && |ts[j]| < LineSize && "Uncompressed" <= ts[j]
    requires |acc| + j <= HeaderSlots
    ensures GetHeaderFrom(s, cur, acc) == Success(acc + ts[..j])
    decreases j
  {
    if j == 0 {
      ScanFirstWord(s, cur, ts, seps);
      HeaderStop(s, cur, acc, ts[0]);
      assert acc + ts[..0] == acc;
    } else {
      assert HeaderToken(ts[0]);
      ScanFirstWord(s, cur, ts, seps);
      HeaderOfWords(s, cur + |ts[0]| + 1, acc + [ts[0]], ts[1..], seps[1..], j - 1);
      HeaderStepInto(s, cur, acc, ts, j);
    }
  }

  /** The step of `HeaderOfWords` from the tokens after the first to all of them. */
  lemma HeaderStepInto(s: string, cur: nat, acc: seq<string>, ts: seq<string>, j: nat)
    requires 0 < j < |ts| && |acc| + j <= HeaderSlots && HeaderToken(ts[0])
    requires cur <= |s| && Scan(s, cur) == Some(ts[0])
    requires GetHeaderFrom(s, cur + |ts[0]| + 1, acc + [ts[0]]) == Success(acc + [ts[0]] + ts[1..][..j - 1])
    ensures GetHeaderFrom(s, cur, acc) == Success(acc + ts[..j])
  {
    ConsPrefix(acc, ts, j);
    HeaderStepWith(s, cur, acc, ts[0], acc + [ts[0]] + ts[1..][..j - 1]);
  }

  /** A round of `get_header` that keeps `t` leaves the result of the later rounds unchanged. */
  lemma HeaderStepWith(s: string, cur: nat, acc: seq<string>, t: string, rest: seq<string>)
    requires cur <= |s| && Scan(s, cur) == Some(t) && HeaderToken(t) && |acc| < HeaderSlots
    requires GetHeaderFrom(s, cur + |t| + 1, acc + [t]) == Success(rest)
    ensures GetHeaderFrom(s, cur, acc) == Success(rest)
  {
    HeaderStep(s, cur, acc, t);
  }

  /** The first `j` tokens are the first token followed by the first `j - 1` of the rest. */
  lemma ConsPrefix(acc: seq<string>, ts: seq<string>, j: nat)
    requires 0 < j <= |ts|
    ensures acc + [ts[0]] + ts[1..][..j - 1] == acc + ts[..j]
  {
    assert ts[..j] == [ts[0]] + ts[1..][..j - 1];
  }

  /** `w` occurs in `s` at offset `p`. */
  predicate WordAt(s: string, p: nat, w: string) {
    p + |w| <= |s| && s[p..p + |w|] == w
  }

  /** Every token `Scan` returns is a piece of the text. */
  lemma ScanInText(s: string, pos: nat)
    requires pos <= |s| && Scan(s, pos).Some?
    ensures exists p :: pos <= p && WordAt(s, p, Scan(s, pos).value)
  {
    var p := SkipSpace(s, pos);
    assert WordAt(s, p, Scan(s, pos).value);
  }

  /** A token at a place where the text does not spell "Uncompressed" does not begin with it. */
  lemma NotSentinel(s: string, p: nat, t: string)
    requires WordAt(s, p, t) && !WordAt(s, p, "Uncompressed")
    ensures !("Uncompressed" <= t)
  {
    if |t| >= 12 {
      assert s[p..p + 12] == t[..12];
    }
  }

  /** A text that never spells "Uncompressed" yields no header. */
  lemma {:induction false} NoSentinelNoHeader(s: string, cur: nat, acc: seq<string>)
    requires forall p :: !WordAt(s, p, "Uncompressed")
    ensures GetHeaderFrom(s, cur, acc).Failure?
    decreases |s| + 1 - cur
  {
    if cur <= |s| && Scan(s, cur).Some? {
      var t := Scan(s, cur).value;
      ScanNotSentinel(s, cur);
      if |t| < LineSize && |acc| < HeaderSlots {
        HeaderStep(s, cur, acc, t);
        NoSentinelNoHeader(s, cur + |t| + 1, acc + [t]);
      }
    }
  }

  /** In a text that never spells "Uncompressed", every token `Scan` returns is an ordinary header token. */
  lemma ScanNotSentinel(s: string, cur: nat)
    requires forall p :: !WordAt(s, p, "Uncompressed")
    requires cur <= |s| && Scan(s, cur).Some?
    ensures IsToken(Scan(s, cur).value) && !("Uncompressed" <= Scan(s, cur).value)
  {
    var t := Scan(s, cur).value;
    ScanInText(s, cur);
    var p :| cur <= p && WordAt(s, p, t);
    NotSentinel(s, p, t);
    ScanIsToken(s, cur);
  }

  // ---------------------------------------------------------------------------
  // get_encoded_data

  /** Bytes from just after the "Compression" token's separator to the payload. */
  const PayloadSkip: nat := 16

  /**
    The loop of `get_encoded_data` from offset `cur`: move past each token and
    its separator, stop after the first token that begins with "Compression"
    (or at the end of the text), and answer 16 bytes further on.
  */
  function EncodedDataFrom(s: string, cur: nat): Result<nat, Error>
    decreases |s| + 1 - cur
  {
    if cur > |s| then Failure(ReadPastEnd)
    else match Scan(s, cur)
      case None => Success(cur + PayloadSkip)
      case Some(t) =>
        if |t| >= LineSize then Failure(TokenTooLong)
        else if "Compression" <= t then Success(cur + |t| + 1 + PayloadSkip)
        else EncodedDataFrom(s, cur + |t| + 1)
  }

  /** `get_encoded_data`: the offset of the payload in the text. */
  function GetEncodedData(s: string): Result<nat, Error> {
    EncodedDataFrom(s, 0)
  }

  predicate SkippedToken(t: string) {
    IsToken(t) && |t| < LineSize && !("Compression" <= t)
  }

  /** Tokens each followed by one separator character. */
  function Words(ts: seq<string>, seps: string): string
    requires |seps| == |ts|
  {
    if ts == [] then [] else ts[0] + [seps[0]] + Words(ts[1..], seps[1..])
  }

  /** From offset `cur` on, `s` holds the tokens `ts`, each followed by its separator in `seps`. */
  predicate WordsAt(s: string, cur: nat, ts: seq<string>, seps: string)
    decreases |ts|
  {
    && |seps| == |ts|
    && (forall i :: 0 <= i < |seps| ==> !IsTokenChar(seps[i]))
    && (ts != [] ==>
          && cur + |ts[0]| < |s|
          && s[cur..cur + |ts[0]|] == ts[0]
          && s[cur + |ts[0]|] == seps[0]
          && WordsAt(s, cur + |ts[0]| + 1, ts[1..], seps[1..]))
  }

  /** A text that has `Words(ts, seps)` at offset `cur` holds those tokens there. */
  lemma {:induction false} WordsAtOf(s: string, cur: nat, ts: seq<string>, seps: string)
    requires |seps| == |ts| && forall i :: 0 <= i < |seps| ==> !IsTokenChar(seps[i])
    requires cur + |Words(ts, seps)| <= |s| && s[cur..cur + |Words(ts, seps)|] == Words(ts, seps)
    ensures WordsAt(s, cur, ts, seps)
    decreases |ts|
  {
    if ts != [] {
      var t, w := ts[0], Words(ts[1..], seps[1..]);
      var n := |t| + 1;
      assert Words(ts, seps) == t + [seps[0]] + w;
      forall k | 0 <= k < |t| ensures s[cur + k] == t[k] {
        assert s[cur..cur + |Words(ts, seps)|][k] == Words(ts, seps)[k];
      }
      assert s[cur..cur + |t|] == t;
      assert s[cur..cur + |Words(ts, seps)|][|t|] == seps[0];
      forall k | 0 <= k < |w| ensures s[cur + n + k] == w[k] {
        assert s[cur..cur + |Words(ts, seps)|][n + k] == Words(ts, seps)[n + k];
      }
      assert s[cur + n..cur + n + |w|] == w;
      WordsAtOf(s, cur + n, ts[1..], seps[1..]);
    }
  }

  /** One round of `get_encoded_data` that passes over a token. */
  lemma SkipStep(s: string, cur: nat, t: string)
    requires cur <= |s| && Scan(s, cur) == Some(t) && SkippedToken(t)
    ensures EncodedDataFrom(s, cur) == EncodedDataFrom(s, cur + |t| + 1)
  {
  }

  /** `get_encoded_data` stops after a token that begins with "Compression". */
  lemma SkipStop(s: string, cur: nat, t: string)
    requires cur <= |s| && Scan(s, cur) == Some(t) && |t| < LineSize && "Compression" <= t
    ensures EncodedDataFrom(s, cur) == Success(cur + |t| + 1 + PayloadSkip)
  {
  }

  /** The length of the first `j` tokens of `ts`, each with one separator. */
  function SpanTo(ts: seq<string>, j: nat): nat
    requires j <= |ts|
  {
    if j == 0 then 0 else SpanTo(ts, j - 1) + |ts[j - 1]| + 1
  }

  /** The span of the first `j` tokens is the first token's, then the span of the next `j - 1`. */
  lemma {:induction false} SpanToCons(ts: seq<string>, j: nat)
    requires 0 < j <= |ts|
    ensures SpanTo(ts, j) == |ts[0]| + 1 + SpanTo(ts[1..], j - 1)
    decreases j
  {
    if j > 1 {
      SpanToCons(ts, j - 1);
      assert ts[1..][j - 2] == ts[j - 1];
    }
  }

  /** The text of the words is as long as their span. */
  lemma {:induction false} WordsLength(ts: seq<string>, seps: string)
    requires |seps| == |ts|
    ensures |Words(ts, seps)| == SpanTo(ts, |ts|)
    decreases |ts|
  {
    if ts != [] {
      WordsLength(ts[1..], seps[1..]);
      SpanToCons(ts, |ts|);
    }
  }

  /** `Scan` at the offset of the `k`th token of `ts` (counting from `cur`) returns that token. */
  predicate ScansAt(s: string, cur: nat, ts: seq<string>, k: nat)
    requires k < |ts|
  {
    cur + SpanTo(ts, k) <= |s| && Scan(s, cur + SpanTo(ts, k)) == Some(ts[k])
  }

  /** Each token of `WordsAt` is what `Scan` returns at its offset. */
  lemma {:induction false} ScanWordAt(s: string, cur: nat, ts: seq<string>, seps: string, k: nat)
    requires WordsAt(s, cur, ts, seps) && k < |ts|
    requires forall i :: 0 <= i <= k ==> IsToken(ts[i])
    ensures ScansAt(s, cur, ts, k)
    decreases k
  {
    ScanFirstWord(s, cur, ts, seps);
    if k > 0 {
      ScanWordAt(s, cur + |ts[0]| + 1, ts[1..], seps[1..], k - 1);
      SpanToCons(ts, k);
    }
  }

  /**
    From the offset of token `i` on, `get_encoded_data` passes over tokens
    `i` to `j - 1` and stops after token `j`.
  */
  lemma {:induction false} SkipChain(s: string, cur: nat, ts: seq<string>, i: nat, j: nat)
    requires i <= j < |ts|
    requires forall k :: i <= k < j ==> SkippedToken(ts[k])
    requires |ts[j]| < LineSize && "Compression" <= ts[j]
    requires forall k :: i <= k <= j ==> ScansAt(s, cur, ts, k)
    ensures EncodedDataFrom(s, cur + SpanTo(ts, i)) == Success(cur + SpanTo(ts, j + 1) + PayloadSkip)
    decreases j - i
  {
    assert ScansAt(s, cur, ts, i);
    if i == j {
      SkipStop(s, cur + SpanTo(ts, j), ts[j]);
    } else {
      SkipChain(s, cur, ts, i + 1, j);
      SkipStep(s, cur + SpanTo(ts, i), ts[i]);
    }
  }

  /**
    Over a text holding, from `cur` on, the tokens `ts` each followed by a
    separator, where `ts[j]` is the first to begin with "Compression", the
    payload offset lies 16 bytes after that token's separator.
  */
  lemma EncodedDataOfWords(s: string, cur: nat, ts: seq<string>, seps: string, j: nat)
    requires WordsAt(s, cur, ts, seps) && j < |ts|
    requires forall i :: 0 <= i < j ==> SkippedToken(ts[i])
    requires IsToken(ts[j]) && |ts[j]| < LineSize && "Compression" <= ts[j]
    ensures EncodedDataFrom(s, cur) == Success(cur + SpanTo(ts, j + 1) + PayloadSkip)
  {
    forall k | 0 <= k <= j ensures ScansAt(s, cur, ts, k) {
      ScanWordAt(s, cur, ts, seps, k);
    }
    SkipChain(s, cur, ts, 0, j);
  }
}
