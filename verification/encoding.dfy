/**
  Encoding (`encode`): for each input byte in order, the inner loop parses the
  table entries one by one until one names that byte, and appends that
  entry's code. An entry that does not parse aborts the whole encoding, and a
  byte no entry names contributes nothing. Buffer growth is not modelled: the
  output is a sequence.
*/
module Encoding {
  import opened Wrappers
  import opened Errors
  import opened Symbols
  import opened Codes
  import opened Entries

  /** The inner loop of `encode` for the byte `c`. */
  function Lookup(table: seq<string>, c: Char): Result<string, Error>
    decreases |table|
  {
    if table == [] then Success([])
    else match ParseEntry(table[0])
      case Failure(err) => Failure(err)
      case Success(pair) => if ToChar(pair.0) == c then Success(pair.1) else Lookup(table[1..], c)
  }

  /** `encode`: the looked-up codes of the bytes of `data`, in input order. */
  function Encode(table: seq<string>, data: seq<Char>): Result<string, Error>
    decreases |data|
  {
    if data == [] then Success([])
    else
      var code :- Lookup(table, data[0]);
      var rest :- Encode(table, data[1..]);
      Success(code + rest)
  }

  // ---------------------------------------------------------------------------
  // Reference definitions over the parsed table

  /** Every entry of the table, parsed; the first failure otherwise. */
  function ParseTable(table: seq<string>): Result<seq<(nat, string)>, Error>
    decreases |table|
  {
    if table == [] then Success([])
    else
      var pair :- ParseEntry(table[0]);
      var rest :- ParseTable(table[1..]);
      Success([pair] + rest)
  }

  /** The code of the first parsed entry whose value narrows to `c`; empty when there is none. */
  function CodeIn(pairs: seq<(nat, string)>, c: Char): string
    decreases |pairs|
  {
    if pairs == [] then []
    else if ToChar(pairs[0].0) == c then pairs[0].1
    else CodeIn(pairs[1..], c)
  }

  /** The codes of the bytes of `data` under `pairs`, one after the other. */
  function Spell(pairs: seq<(nat, string)>, data: seq<Char>): string
    decreases |data|
  {
    if data == [] then [] else CodeIn(pairs, data[0]) + Spell(pairs, data[1..])
  }

  /** Entry `j` is the first entry the inner loop cannot parse, and no entry before it names `c`. */
  predicate FailsBeforeMatch(table: seq<string>, c: Char, j: nat)
    requires j < |table|
  {
    && ParseEntry(table[j]).Failure?
    && forall k :: 0 <= k < j ==> ParseEntry(table[k]).Success? && ToChar(ParseEntry(table[k]).value.0) != c
  }

  /** Over a table whose every entry parses, the inner loop finds the first entry naming `c`. */
  lemma {:induction false} LookupParsed(table: seq<string>, pairs: seq<(nat, string)>, c: Char)
    requires ParseTable(table) == Success(pairs)
    ensures Lookup(table, c) == Success(CodeIn(pairs, c))
    decreases |table|
  {
    if table != [] {
      var rest := ParseTable(table[1..]);
      assert pairs == [ParseEntry(table[0]).value] + rest.value;
      assert pairs[1..] == rest.value;
      LookupParsed(table[1..], rest.value, c);
    }
  }

  /** Over a table whose every entry parses, `encode` spells the input with the table's codes. */
  lemma {:induction false} EncodeSpell(table: seq<string>, pairs: seq<(nat, string)>, data: seq<Char>)
    requires ParseTable(table) == Success(pairs)
    ensures Encode(table, data) == Success(Spell(pairs, data))
    decreases |data|
  {
    if data != [] {
      LookupParsed(table, pairs, data[0]);
      EncodeSpell(table, pairs, data[1..]);
    }
  }

  /** The inner loop aborts exactly when an entry fails to parse before any entry names `c`. */
  lemma {:induction false} LookupFails(table: seq<string>, c: Char)
    ensures Lookup(table, c).Failure? <==> exists j :: 0 <= j < |table| && FailsBeforeMatch(table, c, j)
    decreases |table|
  {
    if table != [] {
      if ParseEntry(table[0]).Failure? {
        assert FailsBeforeMatch(table, c, 0);
      } else if ToChar(ParseEntry(table[0]).value.0) == c {
        forall j | 0 <= j < |table| ensures !FailsBeforeMatch(table, c, j) {
          if j > 0 {
            assert !(ParseEntry(table[0]).Success? && ToChar(ParseEntry(table[0]).value.0) != c);
          }
        }
      } else {
        LookupFails(table[1..], c);
        var t := table[1..];
        forall j | 1 <= j < |table| ensures FailsBeforeMatch(table, c, j) <==> FailsBeforeMatch(t, c, j - 1) {
          assert table[j] == t[j - 1];
          forall k | 0 <= k < j - 1 ensures table[k + 1] == t[k] { }
          if FailsBeforeMatch(t, c, j - 1) {
            forall k | 0 <= k < j
              ensures ParseEntry(table[k]).Success? && ToChar(ParseEntry(table[k]).value.0) != c
            {
              if k > 0 {
                assert table[k] == t[k - 1];
              }
            }
          }
        }
        if exists j :: 0 <= j < |t| && FailsBeforeMatch(t, c, j) {
          var j :| 0 <= j < |t| && FailsBeforeMatch(t, c, j);
          assert FailsBeforeMatch(table, c, j + 1);
        }
        if exists j :: 0 <= j < |table| && FailsBeforeMatch(table, c, j) {
          var j :| 0 <= j < |table| && FailsBeforeMatch(table, c, j);
          assert j != 0;
          assert FailsBeforeMatch(t, c, j - 1);
        }
      }
    }
  }

  /** `encode` aborts exactly when the inner loop aborts for some input byte. */
  lemma {:induction false} EncodeFails(table: seq<string>, data: seq<Char>)
    ensures Encode(table, data).Failure? <==> exists i :: 0 <= i < |data| && Lookup(table, data[i]).Failure?
    decreases |data|
  {
    if data != [] {
      EncodeFails(table, data[1..]);
      if exists i :: 0 <= i < |data[1..]| && Lookup(table, data[1..][i]).Failure? {
        var i :| 0 <= i < |data[1..]| && Lookup(table, data[1..][i]).Failure?;
        assert data[i + 1] == data[1..][i];
      }
      if exists i :: 0 <= i < |data| && Lookup(table, data[i]).Failure? {
        var i :| 0 <= i < |data| && Lookup(table, data[i]).Failure?;
        if i > 0 {
          assert data[1..][i - 1] == data[i];
        }
      }
    }
  }

  /** A byte that no entry names contributes nothing. */
  lemma {:induction false} CodeInAbsent(pairs: seq<(nat, string)>, c: Char)
    requires forall k :: 0 <= k < |pairs| ==> ToChar(pairs[k].0) != c
    ensures CodeIn(pairs, c) == []
    decreases |pairs|
  {
    if pairs != [] {
      CodeInAbsent(pairs[1..], c);
    }
  }

  /** Spelling is concatenation in input order: the output for `a + b` is the output for `a` then for `b`. */
  lemma {:induction false} SpellConcat(pairs: seq<(nat, string)>, a: seq<Char>, b: seq<Char>)
    ensures Spell(pairs, a + b) == Spell(pairs, a) + Spell(pairs, b)
    ensures |Spell(pairs, a + b)| == |Spell(pairs, a)| + |Spell(pairs, b)|
    decreases |a|
  {
    if a == [] {
      assert a + b == b;
    } else {
      assert (a + b)[0] == a[0] && (a + b)[1..] == a[1..] + b;
      SpellConcat(pairs, a[1..], b);
    }
  }

  /** With bit codes in the table, only '0' and '1' appear in the output. */
  lemma {:induction false} SpellBits(pairs: seq<(nat, string)>, data: seq<Char>)
    requires forall k :: 0 <= k < |pairs| ==> IsBits(pairs[k].1)
    ensures IsBits(Spell(pairs, data))
    decreases |data|
  {
    if data != [] {
      CodeInBits(pairs, data[0]);
      SpellBits(pairs, data[1..]);
    }
  }

  lemma {:induction false} CodeInBits(pairs: seq<(nat, string)>, c: Char)
    requires forall k :: 0 <= k < |pairs| ==> IsBits(pairs[k].1)
    ensures IsBits(CodeIn(pairs, c))
    decreases |pairs|
  {
    if pairs != [] && ToChar(pairs[0].0) != c {
      CodeInBits(pairs[1..], c);
    }
  }

  // ---------------------------------------------------------------------------
  // Tables rendered from entries

  /** A table rendered from nonempty bit codes parses back to its symbols' values and codes. */
  lemma {:induction false} ParseRenderedTable(es: seq<Entry>)
    requires Renderable(es)
    ensures ParseTable(Rendered(es)) == Success(Pairs(es))
    decreases |es|
  {
    if es != [] {
      assert Renderable(es[1..]) by {
        forall i | 0 <= i < |es| - 1 ensures IsBits(es[1..][i].code) && 1 <= |es[1..][i].code| <= 246 {
          assert es[1..][i] == es[i + 1];
        }
      }
      ParseRenderedTable(es[1..]);
      ParseRenderedStep(es);
    }
  }

  /** The step of `ParseRenderedTable` from the tail of the table to the whole table. */
  lemma ParseRenderedStep(es: seq<Entry>)
    requires es != [] && Renderable(es)
    requires ParseTable(Rendered(es[1..])) == Success(Pairs(es[1..]))
    ensures ParseTable(Rendered(es)) == Success(Pairs(es))
  {
    ParseRenderedAt(es, 0);
    RenderedCons(es);
    ParseTableCons(Rendered(es), Pairs(es)[0], Pairs(es[1..]));
  }

  /** Parsing a table whose first line parses is that pair followed by the parse of the rest. */
  lemma ParseTableCons(table: seq<string>, pair: (nat, string), rest: seq<(nat, string)>)
    requires table != [] && ParseEntry(table[0]) == Success(pair)
    requires ParseTable(table[1..]) == Success(rest)
    ensures ParseTable(table) == Success([pair] + rest)
  {
  }

  /** Over a rendered table, the code found for a symbol that has an entry is the code of such an entry. */
  lemma {:induction false} CodeInFinds(es: seq<Entry>, c: Char, i: nat)
    requires i < |es| && es[i].sym == c
    ensures exists j :: 0 <= j < |es| && es[j].sym == c && CodeIn(Pairs(es), c) == es[j].code
    decreases |es|
  {
    if es[0].sym == c {
      assert CodeIn(Pairs(es), c) == es[0].code;
    } else {
      assert i > 0 && es[1..][i - 1] == es[i];
      assert Pairs(es)[1..] == Pairs(es[1..]);
      CodeInFinds(es[1..], c, i - 1);
      var j :| 0 <= j < |es[1..]| && es[1..][j].sym == c && CodeIn(Pairs(es[1..]), c) == es[1..][j].code;
      assert es[j + 1] == es[1..][j];
    }
  }

  /** A table holding one entry with an empty code aborts the encoding of any nonempty input. */
  lemma EmptyCodeAborts(sym: Char, data: seq<Char>)
    requires data != []
    ensures Encode([Render(Entry(sym, []))], data) == Failure(MalformedEntry)
  {
    ParseEmptyCode(sym);
  }
}
