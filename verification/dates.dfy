/** `formatDate` (index.js): a calendar date shown as `DD.MM.YYYY`. */
module Dates {
  import opened Digits
  import opened Wrappers

  /** The local calendar fields of a JavaScript `Date`: `getFullYear()`, the zero-based
      `getMonth()` and `getDate()`. */
  datatype CalendarDate = CalendarDate(year: int, month: nat, day: nat)

  /** The ranges `getMonth()` and `getDate()` always return. */
  predicate ValidDate(d: CalendarDate) {
    d.month < 12 && 1 <= d.day <= 31
  }

  /** `String(n).padStart(2, '0')`. */
  function Pad2(n: nat): string {
    PadStart(NatToString(n), 2, '0')
  }

  /** Day and one-based month, each padded to two digits, then the full year, separated by
      points. The month is shown one-based although the field is zero-based. */
  function FormatDate(d: CalendarDate): (r: string)
    ensures ValidDate(d) ==>
      && 7 <= |r| && r[2] == '.' && r[5] == '.'
      && AllDigits(r[..2]) && ParseNat(r[..2]) == d.day
      && AllDigits(r[3..5]) && ParseNat(r[3..5]) == d.month + 1
      && r[6..] == IntToString(d.year) && ParseInt(r[6..]) == Some(d.year)
  {
    var dd := Pad2(d.day);
    var mm := Pad2(d.month + 1);
    var yyyy := IntToString(d.year);
    var r := dd + "." + mm + "." + yyyy;
    if ValidDate(d) then
      PaddedTwoDigits(d.day);
      PaddedTwoDigits(d.month + 1);
      DateLayout(dd, mm, yyyy);
      r
    else r
  }

  lemma DateLayout(dd: string, mm: string, yyyy: string)
    requires |dd| == 2 && |mm| == 2
    ensures var r := dd + "." + mm + "." + yyyy;
      && |r| == 6 + |yyyy| && r[2] == '.' && r[5] == '.'
      && r[..2] == dd && r[3..5] == mm && r[6..] == yyyy
  {
  }

  /** Padding a number below 100 gives two digits that still denote it. */
  lemma PaddedTwoDigits(n: nat)
    requires n < 100
    ensures |Pad2(n)| == 2 && AllDigits(Pad2(n)) && ParseNat(Pad2(n)) == n
  {
    var s := NatToString(n);
    var p := Pad2(n);
    if |s| == 1 {
      assert p == ['0'] + s;
      assert p[..1] == ['0'] && p[..1][..0] == [];
      assert p[1] == s[0] && s[..0] == [];
    } else {
      assert |s| == 2 by {
        if 2 < |s| {
          TooLong(n, s);
        }
      }
    }
  }

  /** A numeral of three or more digits without a leading zero denotes at least 100. */
  lemma {:induction false} TooLong(n: nat, s: string)
    requires AllDigits(s) && 3 <= |s| && s[0] != '0' && ParseNat(s) == n
    ensures 100 <= n
    decreases |s|
  {
    var init := s[..|s| - 1];
    assert init[0] == s[0];
    if 3 < |s| {
      TooLong(ParseNat(init), init);
    } else {
      assert init[..1] == [s[0]] && init[..1][..0] == [];
      assert ParseNat(init[..1]) == DigitValue(s[0]);
    }
  }

  /** Reads a `DD.MM.YYYY` string back into calendar fields. */
  function ParseDate(s: string): Option<CalendarDate> {
    if 7 <= |s| && s[2] == '.' && s[5] == '.' && AllDigits(s[..2]) && AllDigits(s[3..5])
       && 1 <= ParseNat(s[3..5]) && ParseInt(s[6..]).Some?
    then Some(CalendarDate(ParseInt(s[6..]).value, ParseNat(s[3..5]) - 1, ParseNat(s[..2])))
    else None
  }

  /** A formatted valid date reads back as the same date. */
  lemma FormatDateRoundTrip(d: CalendarDate)
    requires ValidDate(d)
    ensures ParseDate(FormatDate(d)) == Some(d)
  {
  }
}
