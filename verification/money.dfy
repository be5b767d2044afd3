/** `formatMoney` (index.js): an amount shown with two decimals, a comma as the
    decimal mark and a space between groups of three integer digits.
    Amounts are integer cents, so `cents / 100` is the number being shown. */
module Money {
  import opened Digits
  import opened Wrappers

  function Abs(c: int): nat {
    if c < 0 then -c else c
  }

  /** The sign `toFixed` writes: a minus for negative amounts, nothing otherwise. */
  function SignOf(c: int): string {
    if c < 0 then "-" else ""
  }

  /** The two fraction digits of a remainder of cents. */
  function Fraction(n: nat): (s: string)
    requires n < 100
    ensures |s| == 2 && AllDigits(s) && ParseNat(s) == n
  {
    var s := [DigitChar(n / 10), DigitChar(n % 10)];
    assert s[..1] == [s[0]] && s[..1][..0] == [];
    assert ParseNat(s[..1]) == n / 10;
    s
  }

  // ---------------------------------------------------------------------------
  // Step 1: Number(amount).toFixed(2)
  // ---------------------------------------------------------------------------

  /** `(cents / 100).toFixed(2)`: sign, integer digits, a point, two fraction digits. */
  function ToFixed2(cents: int): string {
    SignOf(cents) + NatToString(Abs(cents) / 100) + "." + Fraction(Abs(cents) % 100)
  }

  /** Reads a fixed-point string with two decimals back as integer cents. */
  function ParseFixed2(s: string): Option<int> {
    if 0 < |s| && s[0] == '-' then
      match ParseUnsigned(s[1..])
      case Some(v) => Some(-v)
      case None => None
    else ParseUnsigned(s)
  }

  /** Digits, a point and exactly two digits, read as cents. */
  function ParseUnsigned(body: string): Option<int> {
    if 4 <= |body| && body[|body| - 3] == '.'
       && AllDigits(body[..|body| - 3]) && AllDigits(body[|body| - 2..])
    then Some(100 * ParseNat(body[..|body| - 3]) + ParseNat(body[|body| - 2..]))
    else None
  }

  /** The `toFixed(2)` string of `cents / 100` denotes exactly `cents / 100`. */
  lemma ToFixed2Denotes(cents: int)
    ensures ParseFixed2(ToFixed2(cents)) == Some(cents)
  {
    var q, m := Abs(cents) / 100, Abs(cents) % 100;
    var digits, frac := NatToString(q), Fraction(m);
    ReadsUnsigned(digits, frac);
    ReadsSigned(SignOf(cents), digits, frac, 100 * q + m);
  }

  /** A leading minus negates what follows it, and digits are never taken for one. */
  lemma ReadsSigned(sign: string, digits: string, frac: string, v: int)
    requires sign == "" || sign == "-"
    requires 0 < |digits| && IsDigit(digits[0])
    requires ParseUnsigned(digits + "." + frac) == Some(v)
    ensures ParseFixed2(sign + digits + "." + frac) == Some(if sign == "-" then -v else v)
  {
    var body := digits + "." + frac;
    var s := sign + digits + "." + frac;
    assert s == sign + body;
    if sign == "-" {
      assert s[0] == '-' && s[1..] == body;
    } else {
      assert s == body && s[0] == digits[0];
    }
  }

  lemma ReadsUnsigned(digits: string, frac: string)
    requires 0 < |digits| && AllDigits(digits) && |frac| == 2 && AllDigits(frac)
    ensures ParseUnsigned(digits + "." + frac) == Some(100 * ParseNat(digits) + ParseNat(frac))
  {
    var body := digits + "." + frac;
    var k := |digits|;
    assert |body| == k + 3 && body[k] == '.';
    assert body[..k] == digits;
    assert body[k + 1..] == frac;
    ReadsParts(body, digits, frac);
  }

  /** A string cut into digits, a point and two digits is read from those parts. */
  lemma ReadsParts(body: string, digits: string, frac: string)
    requires 0 < |digits| && AllDigits(digits) && |frac| == 2 && AllDigits(frac)
    requires |body| == |digits| + 3 && body[|digits|] == '.'
    requires body[..|digits|] == digits && body[|digits| + 1..] == frac
    ensures ParseUnsigned(body) == Some(100 * ParseNat(digits) + ParseNat(frac))
  {
  }

  // ---------------------------------------------------------------------------
  // Step 2: .replace('.', ',')
  // ---------------------------------------------------------------------------

  /** `s.replace(from, to)` with a one-character pattern: only the first occurrence changes. */
  function ReplaceFirst(s: string, from: char, to: char): (r: string)
    ensures |r| == |s|
    ensures from !in s ==> r == s
  {
    if |s| == 0 then s
    else if s[0] == from then [to] + s[1..]
    else [s[0]] + ReplaceFirst(s[1..], from, to)
  }

  /** The occurrence replaced is the first one; everything around it is kept. */
  lemma {:induction false} ReplaceFirstAt(a: string, b: string, from: char, to: char)
    requires from !in a
    ensures ReplaceFirst(a + [from] + b, from, to) == a + [to] + b
    decreases |a|
  {
    if |a| == 0 {
      assert a + [from] + b == [from] + b;
      ReplaceFirstHit(b, from, to);
    } else {
      var c, tail := a[0], a[1..];
      assert a == [c] + tail;
      assert from !in tail by {
        forall x | x in tail ensures x != from {
          assert x in a;
        }
      }
      ReplaceFirstAt(tail, b, from, to);
      ReplaceFirstKeeps(c, tail + [from] + b, from, to);
      ConsAround(c, tail, from, b);
      ConsAround(c, tail, to, b);
    }
  }

  lemma ConsAround(c: char, tail: string, x: char, b: string)
    ensures ([c] + tail) + [x] + b == [c] + (tail + [x] + b)
  {
  }

  /** The first occurrence becomes `to` and the rest is copied unsearched. */
  lemma ReplaceFirstHit(b: string, from: char, to: char)
    ensures ReplaceFirst([from] + b, from, to) == [to] + b
  {
    assert ([from] + b)[1..] == b;
  }

  /** A character other than the pattern is copied and the search goes on after it. */
  lemma ReplaceFirstKeeps(c: char, rest: string, from: char, to: char)
    requires c != from
    ensures ReplaceFirst([c] + rest, from, to) == [c] + ReplaceFirst(rest, from, to)
  {
    assert ([c] + rest)[1..] == rest;
  }

  // ---------------------------------------------------------------------------
  // Step 3: .replace(/\B(?=(\d{3})+(?!\d))/g, " ")
  // ---------------------------------------------------------------------------

  /** Characters of the class `\w`. */
  predicate IsWordChar(c: char) {
    IsDigit(c) || ('a' <= c <= 'z') || ('A' <= c <= 'Z') || c == '_'
  }

  /** Number of consecutive digits starting at position `p`. */
  function DigitRun(s: string, p: nat): (n: nat)
    requires p <= |s|
    ensures p + n <= |s|
    decreases |s| - p
  {
    if p < |s| && IsDigit(s[p]) then 1 + DigitRun(s, p + 1) else 0
  }

  /** `\b` holds between positions `p - 1` and `p`. */
  predicate WordBoundary(s: string, p: nat)
    requires p <= |s|
  {
    (0 < p && IsWordChar(s[p - 1])) != (p < |s| && IsWordChar(s[p]))
  }

  /** `\B(?=(\d{3})+(?!\d))` matches the empty string at position `p`: no word boundary
      there, and the run of digits ahead has a positive length divisible by three
      (a shorter multiple of three would leave a digit for `(?!\d)` to reject). */
  predicate SeparatorAt(s: string, p: nat)
    requires p <= |s|
  {
    !WordBoundary(s, p) && 0 < DigitRun(s, p) && DigitRun(s, p) % 3 == 0
  }

  /** The global replacement on the suffix from `p`: every position at which the pattern
      matches the original string receives one space. */
  function InsertSeparators(s: string, p: nat): string
    requires p <= |s|
    decreases |s| - p
  {
    var sep := if SeparatorAt(s, p) then " " else "";
    if p == |s| then sep else sep + [s[p]] + InsertSeparators(s, p + 1)
  }

  // ---------------------------------------------------------------------------
  // Digit grouping, stated from the right
  // ---------------------------------------------------------------------------

  function Concat(gs: seq<string>): string {
    if |gs| == 0 then "" else Concat(gs[..|gs| - 1]) + gs[|gs| - 1]
  }

  /** The strings of `gs` with `sep` between neighbours. */
  function Join(gs: seq<string>, sep: string): string {
    if |gs| == 0 then ""
    else if |gs| == 1 then gs[0]
    else Join(gs[..|gs| - 1], sep) + sep + gs[|gs| - 1]
  }

  /** `gs` splits `d` into groups of three counted from the right: a leading group of one
      to three characters, then groups of exactly three. */
  predicate GroupedFromRight(gs: seq<string>, d: string) {
    && 0 < |gs|
    && 1 <= |gs[0]| <= 3
    && (forall i :: 0 < i < |gs| ==> |gs[i]| == 3)
    && Concat(gs) == d
  }

  function Groups(d: string): (gs: seq<string>)
    requires 0 < |d|
    ensures GroupedFromRight(gs, d)
    decreases |d|
  {
    if |d| <= 3 then
      assert Concat([d]) == Concat([d][..0]) + d;
      [d]
    else
      var init := Groups(d[..|d| - 3]);
      var gs := init + [d[|d| - 3..]];
      assert gs[..|gs| - 1] == init;
      assert d == d[..|d| - 3] + d[|d| - 3..];
      gs
  }

  /** The groups of a digit string are digit strings. */
  lemma {:induction false} GroupsOfDigits(d: string)
    requires 0 < |d| && AllDigits(d)
    ensures forall i :: 0 <= i < |Groups(d)| ==> AllDigits(Groups(d)[i])
    decreases |d|
  {
    if 3 < |d| {
      var init := d[..|d| - 3];
      var last := d[|d| - 3..];
      assert AllDigits(init) by {
        forall k | 0 <= k < |init| ensures IsDigit(init[k]) {
          assert init[k] == d[k];
        }
      }
      assert AllDigits(last) by {
        forall k | 0 <= k < |last| ensures IsDigit(last[k]) {
          assert last[k] == d[|d| - 3 + k];
        }
      }
      GroupsOfDigits(init);
      var gs := Groups(d);
      assert gs == Groups(init) + [last];
      forall i | 0 <= i < |gs| ensures AllDigits(gs[i]) {
        if i < |Groups(init)| {
          assert gs[i] == Groups(init)[i];
        }
      }
    }
  }

  lemma {:induction false} ConcatCoversFirst(gs: seq<string>)
    requires 0 < |gs|
    ensures |gs[0]| <= |Concat(gs)|
    decreases |gs|
  {
    if 1 < |gs| {
      ConcatCoversFirst(gs[..|gs| - 1]);
    } else {
      assert Concat(gs) == Concat(gs[..0]) + gs[0];
    }
  }

  /** There is only one way to group from the right: `Groups` is it. */
  lemma {:induction false} GroupingIsUnique(gs: seq<string>, d: string)
    requires GroupedFromRight(gs, d)
    ensures gs == Groups(d)
    decreases |gs|
  {
    if |gs| == 1 {
      assert gs[..0] == [];
      assert Concat(gs[..0]) == "";
      assert Concat(gs) == Concat(gs[..0]) + gs[0];
      assert d == gs[0];
      assert gs == [d];
    } else {
      var init := gs[..|gs| - 1];
      var last := gs[|gs| - 1];
      ConcatCoversFirst(init);
      assert d == Concat(init) + last;
      assert d[..|d| - 3] == Concat(init);
      assert d[|d| - 3..] == last;
      assert GroupedFromRight(init, d[..|d| - 3]) by {
        forall i | 0 < i < |init| ensures |init[i]| == 3 {
          assert init[i] == gs[i];
        }
      }
      GroupingIsUnique(init, d[..|d| - 3]);
      assert gs == init + [last];
    }
  }

  // ---------------------------------------------------------------------------
  // The pipeline
  // ---------------------------------------------------------------------------

  /** `formatMoney(cents / 100)`: the three steps of index.js, applied in order. The result
      is the sign, the integer digits grouped by threes from the right with single spaces,
      a comma and the two fraction digits. */
  function FormatMoney(cents: int): (r: string)
    ensures r == SignOf(cents) + Join(Groups(NatToString(Abs(cents) / 100)), " ")
                 + "," + Fraction(Abs(cents) % 100)
  {
    var digits := NatToString(Abs(cents) / 100);
    var frac := Fraction(Abs(cents) % 100);
    var fixed := ToFixed2(cents);
    ReplaceFirstAt(SignOf(cents) + digits, frac, '.', ',');
    var commaForm := ReplaceFirst(fixed, '.', ',');
    assert commaForm == SignOf(cents) + digits + "," + frac;
    SeparatorsInAmount(commaForm, SignOf(cents), digits, frac);
    SpacedIsJoin(digits);
    InsertSeparators(commaForm, 0)
  }

  /** Proof device: `d` from position `j` on, with a space before every position other
      than the first that leaves a positive multiple of three characters to its right. */
  ghost function SpacedFrom(d: string, j: nat): string
    requires j <= |d|
    decreases |d| - j
  {
    if j == |d| then ""
    else (if 0 < j && (|d| - j) % 3 == 0 then " " else "") + [d[j]] + SpacedFrom(d, j + 1)
  }

  lemma {:induction false} SpacedShort(d: string, j: nat)
    requires 0 < j <= |d| <= 3
    ensures SpacedFrom(d, j) == d[j..]
    decreases |d| - j
  {
    if j < |d| {
      SpacedShort(d, j + 1);
      assert d[j..] == [d[j]] + d[j + 1..];
    }
  }

  lemma {:induction false} SpacedAppend(a: string, l: string, j: nat)
    requires 0 < |a| && |l| == 3 && j <= |a|
    ensures SpacedFrom(a + l, j) == SpacedFrom(a, j) + " " + l
    decreases |a| - j
  {
    var d := a + l;
    if j == |a| {
      SpacedLastGroup(a, l);
    } else {
      SpacedAppend(a, l, j + 1);
      var sep := if 0 < j && (|a| - j) % 3 == 0 then " " else "";
      assert (|d| - j) % 3 == (|a| - j) % 3;
      assert SpacedFrom(d, j) == sep + [a[j]] + SpacedFrom(d, j + 1);
      assert SpacedFrom(a, j) == sep + [a[j]] + SpacedFrom(a, j + 1);
    }
  }

  /** The last three digits get one space before them and none between them. */
  lemma SpacedLastGroup(a: string, l: string)
    requires 0 < |a| && |l| == 3
    ensures SpacedFrom(a + l, |a|) == " " + l
  {
    var d := a + l;
    assert SpacedFrom(d, |a| + 2) == [l[2]] + SpacedFrom(d, |a| + 3);
    assert SpacedFrom(d, |a| + 1) == [l[1]] + SpacedFrom(d, |a| + 2);
    assert SpacedFrom(d, |a|) == " " + [l[0]] + SpacedFrom(d, |a| + 1);
    assert l == [l[0]] + [l[1]] + [l[2]];
  }

  /** Inserting a space wherever a multiple of three digits follows is grouping from the right. */
  lemma {:induction false} SpacedIsJoin(d: string)
    requires 0 < |d|
    ensures SpacedFrom(d, 0) == Join(Groups(d), " ")
    decreases |d|
  {
    if |d| <= 3 {
      if 1 < |d| {
        SpacedShort(d, 1);
      }
      assert d == [d[0]] + d[1..];
    } else {
      var a := d[..|d| - 3];
      var l := d[|d| - 3..];
      assert d == a + l;
      SpacedAppend(a, l, 0);
      SpacedIsJoin(a);
      var gs := Groups(d);
      assert gs[..|gs| - 1] == Groups(a);
    }
  }

  lemma {:induction false} DigitRunInAmount(s: string, sign: string, d: string, f: string, j: nat)
    requires s == sign + d + "," + f && AllDigits(d) && j <= |d|
    ensures DigitRun(s, |sign| + j) == |d| - j
    decreases |d| - j
  {
    if j < |d| {
      assert s[|sign| + j] == d[j];
      DigitRunInAmount(s, sign, d, f, j + 1);
    } else {
      assert s[|sign| + |d|] == ',';
    }
  }

  lemma SeparatorsInFraction(s: string, sign: string, d: string, f: string)
    requires s == sign + d + "," + f && |f| == 2 && AllDigits(f)
    ensures InsertSeparators(s, |sign| + |d|) == "," + f
  {
    var p := |sign| + |d|;
    assert s[p] == ',' && s[p + 1] == f[0] && s[p + 2] == f[1] && |s| == p + 3;
    assert DigitRun(s, p + 2) == 1;
    assert DigitRun(s, p + 1) == 2;
    assert InsertSeparators(s, p + 2) == [f[1]];
    assert InsertSeparators(s, p + 1) == [f[0]] + [f[1]];
    assert f == [f[0]] + [f[1]];
  }

  /** At a digit, the pattern matches exactly when a word character precedes and the run of
      digits ahead has a length divisible by three. */
  lemma SeparatorBeforeDigit(s: string, p: nat)
    requires p < |s| && IsDigit(s[p])
    ensures SeparatorAt(s, p) <==> 0 < p && IsWordChar(s[p - 1]) && DigitRun(s, p) % 3 == 0
  {
  }

  /** Inside the integer digits, the pattern matches before every digit but the first that
      leaves a multiple of three digits up to the comma. */
  lemma SeparatorInDigits(s: string, sign: string, d: string, f: string, j: nat)
    requires s == sign + d + "," + f && (sign == "" || sign == "-")
    requires AllDigits(d) && j < |d|
    ensures SeparatorAt(s, |sign| + j) <==> 0 < j && (|d| - j) % 3 == 0
  {
    var p := |sign| + j;
    DigitRunInAmount(s, sign, d, f, j);
    assert s[p] == d[j];
    SeparatorBeforeDigit(s, p);
    if 0 < j {
      assert s[p - 1] == d[j - 1];
    } else if sign == "-" {
      assert s[p - 1] == '-';
    }
  }

  lemma {:induction false} SeparatorsInDigits(s: string, sign: string, d: string, f: string, j: nat)
    requires s == sign + d + "," + f && (sign == "" || sign == "-")
    requires 0 < |d| && AllDigits(d) && |f| == 2 && AllDigits(f) && j <= |d|
    ensures InsertSeparators(s, |sign| + j) == SpacedFrom(d, j) + ("," + f)
    decreases |d| - j
  {
    if j == |d| {
      SeparatorsInFraction(s, sign, d, f);
    } else {
      var p := |sign| + j;
      var sep := if 0 < j && (|d| - j) % 3 == 0 then " " else "";
      assert InsertSeparators(s, p) == sep + [d[j]] + InsertSeparators(s, p + 1) by {
        SeparatorInDigits(s, sign, d, f, j);
        assert s[p] == d[j];
      }
      assert InsertSeparators(s, p + 1) == SpacedFrom(d, j + 1) + ("," + f) by {
        SeparatorsInDigits(s, sign, d, f, j + 1);
      }
      assert SpacedFrom(d, j) == sep + [d[j]] + SpacedFrom(d, j + 1);
      Regroup(sep + [d[j]], SpacedFrom(d, j + 1), "," + f);
    }
  }

  lemma Regroup(a: string, b: string, c: string)
    ensures a + (b + c) == (a + b) + c
  {
  }

  /** The regular expression puts spaces exactly between the digit groups of the integer part. */
  lemma SeparatorsInAmount(s: string, sign: string, d: string, f: string)
    requires s == sign + d + "," + f && (sign == "" || sign == "-")
    requires 0 < |d| && AllDigits(d) && |f| == 2 && AllDigits(f)
    ensures InsertSeparators(s, 0) == sign + SpacedFrom(d, 0) + "," + f
  {
    if sign == "" {
      SeparatorsWithoutSign(s, sign, d, f);
    } else {
      SeparatorsAfterSign(s, sign, d, f);
      SignInFront(sign, SpacedFrom(d, 0), f);
    }
  }

  lemma SeparatorsWithoutSign(s: string, sign: string, d: string, f: string)
    requires s == sign + d + "," + f && sign == ""
    requires 0 < |d| && AllDigits(d) && |f| == 2 && AllDigits(f)
    ensures InsertSeparators(s, 0) == SpacedFrom(d, 0) + "," + f
  {
    SeparatorsInDigits(s, "", d, f, 0);
    Regroup(SpacedFrom(d, 0), ",", f);
  }

  /** A leading minus is not a word character, so no space goes in front of it. */
  lemma SeparatorsAfterSign(s: string, sign: string, d: string, f: string)
    requires s == sign + d + "," + f && sign == "-"
    requires 0 < |d| && AllDigits(d) && |f| == 2 && AllDigits(f)
    ensures InsertSeparators(s, 0) == "-" + (SpacedFrom(d, 0) + "," + f)
  {
    SeparatorsInDigits(s, "-", d, f, 0);
    Regroup(SpacedFrom(d, 0), ",", f);
    assert s[0] == '-';
    assert DigitRun(s, 0) == 0;
    assert InsertSeparators(s, 0) == [s[0]] + InsertSeparators(s, 1);
  }

  lemma SignInFront(sign: string, x: string, f: string)
    requires sign == "-"
    ensures sign + x + "," + f == "-" + (x + "," + f)
  {
  }

  // ---------------------------------------------------------------------------
  // Properties of the result
  // ---------------------------------------------------------------------------

  lemma {:induction false} JoinOfDigitGroups(gs: seq<string>)
    requires 0 < |gs| && 0 < |gs[0]|
    requires forall i :: 0 <= i < |gs| ==> AllDigits(gs[i])
    ensures var j := Join(gs, " ");
      && 0 < |j| && IsDigit(j[0])
      && forall i :: 0 <= i < |j| ==> IsDigit(j[i]) || j[i] == ' '
    decreases |gs|
  {
    if 1 < |gs| {
      var init := gs[..|gs| - 1];
      JoinOfDigitGroups(init);
      var j := Join(gs, " ");
      var ji := Join(init, " ");
      var last := gs[|gs| - 1];
      assert j == ji + " " + last;
      forall i | 0 <= i < |j| ensures IsDigit(j[i]) || j[i] == ' ' {
        if i < |ji| {
          assert j[i] == ji[i];
        } else if i > |ji| {
          assert j[i] == last[i - |ji| - 1];
        }
      }
    }
  }

  lemma AmountLayout(r: string, sign: string, grouped: string, frac: string)
    requires r == sign + grouped + "," + frac && (sign == "" || sign == "-")
    requires 0 < |grouped| && IsDigit(grouped[0])
    requires forall i :: 0 <= i < |grouped| ==> IsDigit(grouped[i]) || grouped[i] == ' '
    requires |frac| == 2 && AllDigits(frac)
    ensures && 4 <= |r| && r[|r| - 3] == ',' && IsDigit(r[|r| - 2]) && IsDigit(r[|r| - 1])
            && ',' !in r[..|r| - 3]
            && (sign == "-" <==> r[0] == '-')
            && IsDigit(r[|sign|])
            && forall i :: |sign| <= i < |r| - 3 ==> IsDigit(r[i]) || r[i] == ' '
  {
    assert r[..|r| - 3] == sign + grouped;
    forall i | |sign| <= i < |r| - 3 ensures IsDigit(r[i]) || r[i] == ' ' {
      assert r[i] == grouped[i - |sign|];
    }
    assert r[|sign|] == grouped[0];
    assert r[|r| - 2] == frac[0] && r[|r| - 1] == frac[1];
    var intPart := r[..|r| - 3];
    assert ',' !in intPart by {
      forall i | 0 <= i < |intPart| ensures intPart[i] != ',' {
        assert intPart[i] == r[i];
      }
    }
  }

  /** The result has exactly one comma, followed by exactly two digits; before it come a minus
      sign for negative amounts only, then digits and the separating spaces, starting with a digit. */
  lemma FormatMoneyShape(cents: int)
    ensures var r := FormatMoney(cents);
      && 4 <= |r| && r[|r| - 3] == ',' && IsDigit(r[|r| - 2]) && IsDigit(r[|r| - 1])
      && ',' !in r[..|r| - 3]
      && (cents < 0 <==> r[0] == '-')
      && IsDigit(r[|SignOf(cents)|])
      && forall i :: |SignOf(cents)| <= i < |r| - 3 ==> IsDigit(r[i]) || r[i] == ' '
  {
    var digits := NatToString(Abs(cents) / 100);
    var gs := Groups(digits);
    GroupsOfDigits(digits);
    JoinOfDigitGroups(gs);
    AmountLayout(FormatMoney(cents), SignOf(cents), Join(gs, " "), Fraction(Abs(cents) % 100));
  }

  /** Deletes the spaces and turns commas back into decimal points. */
  function Unformat(s: string): string {
    if |s| == 0 then ""
    else (if s[0] == ' ' then "" else if s[0] == ',' then "." else [s[0]]) + Unformat(s[1..])
  }

  lemma {:induction false} UnformatAppend(a: string, b: string)
    ensures Unformat(a + b) == Unformat(a) + Unformat(b)
    decreases |a|
  {
    if 0 < |a| {
      assert (a + b)[1..] == a[1..] + b;
      UnformatAppend(a[1..], b);
    } else {
      assert a + b == b;
    }
  }

  lemma {:induction false} UnformatDigits(d: string)
    requires AllDigits(d)
    ensures Unformat(d) == d
    decreases |d|
  {
    if 0 < |d| {
      UnformatDigits(d[1..]);
      assert d == [d[0]] + d[1..];
    }
  }

  lemma {:induction false} UnformatJoin(gs: seq<string>)
    requires forall i :: 0 <= i < |gs| ==> AllDigits(gs[i])
    ensures Unformat(Join(gs, " ")) == Concat(gs)
    decreases |gs|
  {
    if |gs| == 1 {
      UnformatDigits(gs[0]);
      assert gs[..0] == [];
      assert Concat(gs) == Concat(gs[..0]) + gs[0];
    } else if 1 < |gs| {
      var init := gs[..|gs| - 1];
      var last := gs[|gs| - 1];
      UnformatJoin(init);
      UnformatAppend(Join(init, " ") + " ", last);
      UnformatAppend(Join(init, " "), " ");
      UnformatDigits(last);
    }
  }

  /** Deleting the spaces of `formatMoney` and turning its comma back into a point gives
      exactly the `toFixed(2)` string. */
  lemma MoneyRoundTrip(cents: int)
    ensures Unformat(FormatMoney(cents)) == ToFixed2(cents)
  {
    var sign := SignOf(cents);
    var digits := NatToString(Abs(cents) / 100);
    var frac := Fraction(Abs(cents) % 100);
    var grouped := Join(Groups(digits), " ");
    GroupsOfDigits(digits);
    UnformatJoin(Groups(digits));
    UnformatAmount(sign, grouped, digits, frac);
  }

  /** Unformatting works part by part: the sign and fraction stay, the comma becomes a point. */
  lemma UnformatAmount(sign: string, grouped: string, digits: string, frac: string)
    requires (sign == "" || sign == "-") && Unformat(grouped) == digits && AllDigits(frac)
    ensures Unformat(sign + grouped + "," + frac) == sign + digits + "." + frac
  {
    UnformatAppend(sign + grouped + ",", frac);
    UnformatAppend(sign + grouped, ",");
    UnformatAppend(sign, grouped);
    UnformatDigits(frac);
    assert Unformat(",") == ".";
    assert Unformat(sign) == sign;
  }

  /** So the displayed amount reads back as the very number of cents it was made from. */
  lemma FormatMoneyReadsBack(cents: int)
    ensures ParseFixed2(Unformat(FormatMoney(cents))) == Some(cents)
  {
    MoneyRoundTrip(cents);
    ToFixed2Denotes(cents);
  }

  /** Writing a minus before `formatMoney(b)` shows `-b` exactly when `b` is positive. */
  lemma MinusPrefixShowsNegation(cents: int)
    ensures "-" + FormatMoney(cents) == FormatMoney(-cents) <==> 0 < cents
  {
    var shown, negated := "-" + FormatMoney(cents), FormatMoney(-cents);
    if cents <= 0 {
      FormatMoneyShape(-cents);
      assert SignOf(-cents) == "";
      StartsDifferently(shown, negated);
    } else {
      var grouped := Join(Groups(NatToString(Abs(cents) / 100)), " ");
      var frac := Fraction(Abs(cents) % 100);
      assert Abs(-cents) == Abs(cents);
      assert FormatMoney(cents) == "" + grouped + "," + frac;
      assert negated == "-" + grouped + "," + frac;
      SignedLayout(grouped, frac);
    }
  }

  /** What the minus shows otherwise: zero becomes "-0,00" and a negative amount starts
      with two minus signs. */
  lemma MinusPrefixOnNonPositive(cents: int)
    requires cents <= 0
    ensures cents == 0 ==> "-" + FormatMoney(cents) == "-0,00"
    ensures cents < 0 ==> ("-" + FormatMoney(cents))[..2] == "--"
  {
    if cents == 0 {
      FormatZero(cents);
      MinusBeforeZero(FormatMoney(cents));
    } else {
      NegativeShowsSign(cents);
    }
  }

  lemma StartsDifferently(x: string, y: string)
    requires 0 < |x| && 0 < |y| && x[0] != y[0]
    ensures x != y
  {
  }

  lemma SignedLayout(grouped: string, frac: string)
    ensures "-" + ("" + grouped + "," + frac) == "-" + grouped + "," + frac
  {
  }

  /** `formatMoney(0)` is "0,00". The zero is a parameter rather than the literal `0`,
      which would have the verifier unfold the whole of `FormatMoney` on constants. */
  lemma FormatZero(cents: int)
    requires cents == 0
    ensures FormatMoney(cents) == "0,00"
  {
    var digits := NatToString(Abs(cents) / 100);
    assert digits == "0";
    assert Groups(digits) == [digits];
    assert Join([digits], " ") == "0";
    assert Fraction(Abs(cents) % 100) == "00";
  }

  lemma NegativeShowsSign(cents: int)
    requires cents < 0
    ensures ("-" + FormatMoney(cents))[..2] == "--"
  {
    FormatMoneyShape(cents);
    MinusBeforeMinus(FormatMoney(cents));
  }

  lemma MinusBeforeZero(r: string)
    requires r == "0,00"
    ensures "-" + r == "-0,00"
  {
  }

  lemma MinusBeforeMinus(r: string)
    requires 0 < |r| && r[0] == '-'
    ensures ("-" + r)[..2] == "--"
  {
    assert ("-" + r)[1] == r[0];
  }
}
