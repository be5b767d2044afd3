/** Decimal digit strings: JavaScript's `String(n)` on integers, its inverse,
    and `String.prototype.padStart`. */
module Digits {
  import opened Wrappers

  predicate IsDigit(c: char) {
    '0' <= c <= '9'
  }

  predicate AllDigits(s: string) {
    forall i :: 0 <= i < |s| ==> IsDigit(s[i])
  }

  function DigitValue(c: char): (d: nat)
    requires IsDigit(c)
    ensures d < 10
  {
    c as int - '0' as int
  }

  function DigitChar(d: nat): (c: char)
    requires d < 10
    ensures IsDigit(c) && DigitValue(c) == d
  {
    ('0' as int + d) as char
  }

  /** The number a string of decimal digits denotes (most significant first). */
  function ParseNat(s: string): nat
    requires AllDigits(s)
  {
    if |s| == 0 then 0 else 10 * ParseNat(s[..|s| - 1]) + DigitValue(s[|s| - 1])
  }

  /** `String(n)` for a non-negative integer: the shortest decimal numeral. */
  function NatToString(n: nat): (s: string)
    ensures 1 <= |s| && AllDigits(s)
    ensures |s| > 1 ==> s[0] != '0'
    ensures ParseNat(s) == n
    decreases n
  {
    if n < 10 then [DigitChar(n)]
    else
      var prefix := NatToString(n / 10);
      var s := prefix + [DigitChar(n % 10)];
      assert s[..|s| - 1] == prefix;
      s
  }

  /** Reads an optionally negated decimal numeral. */
  function ParseInt(s: string): Option<int> {
    if 0 < |s| && s[0] == '-' then
      if 1 < |s| && AllDigits(s[1..]) then Some(-(ParseNat(s[1..]) as int)) else None
    else if 0 < |s| && AllDigits(s) then Some(ParseNat(s))
    else None
  }

  /** `String(i)` for an integer: a minus exactly for negative numbers, then the shortest
      decimal numeral of the magnitude, so zero is "0" and never "-0". */
  function IntToString(i: int): (s: string)
    ensures 0 < |s|
    ensures s[0] == '-' <==> i < 0
    ensures var m := if i < 0 then s[1..] else s;
      0 < |m| && AllDigits(m) && (|m| > 1 ==> m[0] != '0')
    ensures i == 0 ==> s == "0"
    ensures ParseInt(s) == Some(i)
  {
    if i < 0 then
      var digits := NatToString(-i);
      assert ("-" + digits)[1..] == digits;
      "-" + digits
    else NatToString(i)
  }

  /** `s.padStart(width, fill)`: prefix copies of `fill` up to `width` characters;
      a string already that long is returned unchanged. */
  function PadStart(s: string, width: nat, fill: char): (r: string)
    ensures |r| == if |s| >= width then |s| else width
    ensures r[|r| - |s|..] == s
    ensures forall i :: 0 <= i < |r| - |s| ==> r[i] == fill
    decreases width - |s|
  {
    if |s| >= width then s
    else
      var r := PadStart([fill] + s, width, fill);
      FillOneMore(r, s, fill);
      r
  }

  /** A string ending in `fill` followed by `s`, with only `fill` before that, ends in `s`
      with only `fill` before it. */
  lemma FillOneMore(r: string, s: string, fill: char)
    requires |s| < |r| && r[|r| - |s| - 1..] == [fill] + s
    requires forall i :: 0 <= i < |r| - |s| - 1 ==> r[i] == fill
    ensures r[|r| - |s|..] == s
    ensures forall i :: 0 <= i < |r| - |s| ==> r[i] == fill
  {
    var k := |r| - |s| - 1;
    assert r[k] == ([fill] + s)[0];
    assert r[k + 1..] == r[k..][1..] == ([fill] + s)[1..];
  }
}
