/**
  Reading one code-table entry back, as `sscanf(entry, "%x=%s", &byte, code)`
  does in both `encode` and `build_tree_from_header`: optional white space, a
  run of hex digits, a literal '=', then (after optional white space) a token
  copied into the 256-byte `code` buffer. Anything other than two successful
  conversions is a malformed entry.
*/
module Entries {
  import opened Wrappers
  import opened Errors
  import opened Symbols
  import opened Text
  import opened Codes

  /** The most hex digits the model reads into an `unsigned int`. */
  const MaxHexDigits: nat := 8

  /** The end of the run of hex digits that starts at `p`. */
  function HexEnd(e: string, p: nat): (q: nat)
    requires p <= |e|
    ensures p <= q <= |e|
    ensures q < |e| ==> !IsHexChar(e[q])
    decreases |e| - p
  {
    if p < |e| && IsHexChar(e[p]) then HexEnd(e, p + 1) else p
  }

  /** `HexEnd` passes over hex digits only. */
  lemma {:induction false} HexEndSpec(e: string, p: nat)
    requires p <= |e|
    ensures AllHex(e[p..HexEnd(e, p)])
    decreases |e| - p
  {
    if p < |e| && IsHexChar(e[p]) {
      HexEndSpec(e, p + 1);
      assert e[p..HexEnd(e, p)] == [e[p]] + e[p + 1..HexEnd(e, p)];
    }
  }

  lemma {:induction false} HexEndAt(e: string, p: nat, q: nat)
    requires p <= q <= |e| && AllHex(e[p..q])
    requires q == |e| || !IsHexChar(e[q])
    ensures HexEnd(e, p) == q
    decreases q - p
  {
    if p < q {
      assert e[p..q][0] == e[p];
      assert e[p + 1..q] == e[p..q][1..];
      HexEndAt(e, p + 1, q);
    }
  }

  /**
    The two conversions of "%x=%s": the hex value and the code token. No hex
    digit, more than eight of them, a missing '=' or a missing code token is
    a malformed entry; a code token that does not fit `code` overflows it.
  */
  function ParseEntry(e: string): Result<(nat, string), Error> {
    var p := SkipSpace(e, 0);
    var q := HexEnd(e, p);
    if q == p || q - p > MaxHexDigits then Failure(MalformedEntry)
    else if q == |e| || e[q] != '=' then Failure(MalformedEntry)
    else
      HexEndSpec(e, p);
      match Scan(e, q + 1)
      case None => Failure(MalformedEntry)
      case Some(code) =>
        if |code| >= LineSize then Failure(TokenTooLong)
        else Success((HexValue(e[p..q]), code))
  }

  lemma {:induction false} HexValueBound(s: string)
    requires AllHex(s)
    ensures HexValue(s) < Pow16(|s|)
    decreases |s|
  {
    if s != [] {
      HexValueBound(s[..|s| - 1]);
    }
  }

  lemma {:induction false} Pow16Mono(a: nat, b: nat)
    requires a <= b
    ensures Pow16(a) <= Pow16(b)
    decreases b
  {
    if a < b {
      Pow16Mono(a, b - 1);
    }
  }

  /**
    A parsed entry holds a value that fits an `unsigned int` and a code that
    is a token fitting the `code` buffer.
  */
  lemma ParseEntrySpec(e: string)
    requires ParseEntry(e).Success?
    ensures ParseEntry(e).value.0 < TwoTo32
    ensures IsToken(ParseEntry(e).value.1) && |ParseEntry(e).value.1| < LineSize
  {
    var p := SkipSpace(e, 0);
    var q := HexEnd(e, p);
    HexEndSpec(e, p);
    HexValueBound(e[p..q]);
    Pow16Mono(q - p, 8);
    assert Pow16(8) == TwoTo32;
    ScanIsToken(e, q + 1);
  }

  /**
    Reading back a rendered entry gives the symbol's `%x` value and the code,
    for every nonempty code short enough for the entry to render in full.
  */
  lemma ParseRendered(sym: Char, code: string)
    requires IsBits(code) && 1 <= |code| <= 246
    ensures ParseEntry(Render(Entry(sym, code))) == Success((Unsigned32(sym), code))
  {
    var h := HexDigits(Unsigned32(sym));
    SymbolHexWidth(sym);
    var e := h + "=" + code;
    assert Render(Entry(sym, code)) == e;
    assert e[0] == h[0];
    assert SkipSpace(e, 0) == 0;
    assert e[0..|h|] == h;
    HexEndAt(e, 0, |h|);
    assert e[|h| + 1..|h| + 1 + |code|] == code;
    ScanToken(e, |h| + 1, code);
  }

  /** Reading back an entry rendered with an empty code fails: "%s" has nothing to match. */
  lemma ParseEmptyCode(sym: Char)
    ensures ParseEntry(Render(Entry(sym, []))) == Failure(MalformedEntry)
  {
    var h := HexDigits(Unsigned32(sym));
    SymbolHexWidth(sym);
    var e := h + "=";
    assert Render(Entry(sym, [])) == e;
    assert e[0] == h[0];
    assert SkipSpace(e, 0) == 0;
    assert e[0..|h|] == h;
    HexEndAt(e, 0, |h|);
    assert SkipSpace(e, |h| + 1) == |e|;
  }

  /** Every rendered entry with a nonempty bit code is a header token. */
  lemma RenderedIsHeaderToken(sym: Char, code: string)
    requires IsBits(code) && 1 <= |code| <= 246
    ensures HeaderToken(Render(Entry(sym, code))) && SkippedToken(Render(Entry(sym, code)))
  {
    var h := HexDigits(Unsigned32(sym));
    SymbolHexWidth(sym);
    var e := h + "=" + code;
    assert Render(Entry(sym, code)) == e;
    assert e[0] == h[0];
    assert IsLowerHexChar(e[0]);
    assert e[0] != 'U' && e[0] != 'C';
    forall i | 0 <= i < |e| ensures IsTokenChar(e[i]) {
      if i < |h| {
        assert e[i] == h[i];
      } else if i > |h| {
        assert e[i] == code[i - |h| - 1];
      }
    }
  }

  /** The rendered entries, in order. */
  function Rendered(es: seq<Entry>): (table: seq<string>)
    ensures |table| == |es|
  {
    seq(|es|, i requires 0 <= i < |es| => Render(es[i]))
  }

  /** What parsing each rendered entry gives back. */
  function Pairs(es: seq<Entry>): (pairs: seq<(nat, string)>)
    ensures |pairs| == |es|
  {
    seq(|es|, i requires 0 <= i < |es| => (Unsigned32(es[i].sym), es[i].code))
  }

  predicate Renderable(es: seq<Entry>) {
    forall i :: 0 <= i < |es| ==> IsBits(es[i].code) && 1 <= |es[i].code| <= 246
  }

  /** Rendering and parsing entry by entry: dropping the first entry drops the first rendered line and the first pair. */
  lemma RenderedCons(es: seq<Entry>)
    requires es != []
    ensures Rendered(es)[1..] == Rendered(es[1..])
    ensures Pairs(es) == [Pairs(es)[0]] + Pairs(es[1..])
  {
    assert Rendered(es)[1..] == Rendered(es[1..]);
    assert Pairs(es) == [Pairs(es)[0]] + Pairs(es[1..]);
  }

  /** Each rendered entry of a renderable table parses back to its pair. */
  lemma ParseRenderedAt(es: seq<Entry>, i: nat)
    requires i < |es| && Renderable(es)
    ensures ParseEntry(Rendered(es)[i]) == Success(Pairs(es)[i])
  {
    ParseRendered(es[i].sym, es[i].code);
  }
}
