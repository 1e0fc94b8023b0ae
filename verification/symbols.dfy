/**
  Symbols of the codec. The source stores a symbol in a plain `char`, which is
  signed on the targets it is built for, so a symbol is an integer in -128..127.
  The code table renders a symbol with `printf("%x")`, which sees the char
  promoted to `int` and reinterpreted as `unsigned int`; the decoder reads the
  hex value back with `sscanf("%x")` and narrows it with `(char)byte`.
*/
module Symbols {

  /** A signed byte, the range of a C `char`. */
  type Char = c: int | -128 <= c < 128

  const TwoTo32: nat := 0x1_0000_0000

  /** The `unsigned int` that `%x` prints for a char. */
  function Unsigned32(c: Char): (u: nat)
    ensures u < TwoTo32
    ensures 0 <= c ==> u == c
    ensures c < 0 ==> TwoTo32 - 128 <= u
    ensures ToChar(u) == c
  {
    if c < 0 then c + TwoTo32 else c
  }

  /** `(char)byte`: keep the low eight bits and read them as a signed byte. */
  function ToChar(u: nat): (c: Char)
    ensures (u - c) % 256 == 0
  {
    var m := u % 256;
    if m >= 128 then m - 256 else m
  }

  predicate IsHexChar(c: char) {
    ('0' <= c <= '9') || ('a' <= c <= 'f') || ('A' <= c <= 'F')
  }

  predicate IsLowerHexChar(c: char) {
    ('0' <= c <= '9') || ('a' <= c <= 'f')
  }

  predicate AllHex(s: string) {
    forall i :: 0 <= i < |s| ==> IsHexChar(s[i])
  }

  /** The digit `%x` prints for a value below 16. */
  function HexDigit(d: nat): (c: char)
    requires d < 16
    ensures IsLowerHexChar(c)
    ensures HexCharValue(c) == d
  {
    if d < 10 then ('0' as int + d) as char else ('a' as int + d - 10) as char
  }

  /** The value `sscanf("%x")` gives one hex digit, in either case. */
  function HexCharValue(c: char): (d: nat)
    requires IsHexChar(c)
    ensures d < 16
  {
    if '0' <= c <= '9' then c as int - '0' as int
    else if 'a' <= c <= 'f' then c as int - 'a' as int + 10
    else c as int - 'A' as int + 10
  }

  /** `%x` of an unsigned value: lower-case digits, no leading zeros, "0" for zero. */
  function HexDigits(n: nat): (s: string)
    ensures 1 <= |s|
    ensures forall i :: 0 <= i < |s| ==> IsLowerHexChar(s[i])
    ensures AllHex(s) && HexValue(s) == n
    ensures 1 < |s| ==> s[0] != '0'
    decreases n
  {
    if n < 16 then [HexDigit(n)]
    else
      var s := HexDigits(n / 16) + [HexDigit(n % 16)];
      assert s[..|s| - 1] == HexDigits(n / 16);
      s
  }

  /** The value of a run of hex digits, most significant first. */
  function HexValue(s: string): nat
    requires AllHex(s)
    decreases |s|
  {
    if s == [] then 0 else HexValue(s[..|s| - 1]) * 16 + HexCharValue(s[|s| - 1])
  }

  function Pow16(k: nat): nat {
    if k == 0 then 1 else 16 * Pow16(k - 1)
  }

  /** A value below 16^k (k >= 1) prints in at most k hex digits. */
  lemma {:induction false} HexWidth(n: nat, k: nat)
    requires 1 <= k && n < Pow16(k)
    ensures |HexDigits(n)| <= k
    decreases k
  {
    if n >= 16 {
      assert k != 1 by {
        assert Pow16(1) == 16;
      }
      assert n / 16 < Pow16(k - 1);
      HexWidth(n / 16, k - 1);
      assert HexDigits(n) == HexDigits(n / 16) + [HexDigit(n % 16)];
    }
  }

  /** Every `%x` rendering of a char has at most eight digits. */
  lemma SymbolHexWidth(c: Char)
    ensures |HexDigits(Unsigned32(c))| <= 8
  {
    assert Pow16(8) == TwoTo32;
    HexWidth(Unsigned32(c), 8);
  }
}
