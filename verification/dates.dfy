/** The scheduler's `getFormattedDate`: a clock reading rendered as `year-month-day`
    with month and day zero-padded to two digits, and a parser that splits the
    string on `-` to read the three numbers back. */
module Dates {
  import opened Wrappers

  /** What `new Date()` yields through `getFullYear()`, `getMonth()` (counting months
      from 0) and `getDate()`. */
  datatype Clock = Clock(year: int, month0: int, day: int)

  predicate IsDigit(ch: char) {
    '0' <= ch <= '9'
  }

  function Digit(d: nat): (ch: char)
    requires d < 10
    ensures IsDigit(ch)
  {
    (('0' as int) + d) as char
  }

  function DigitValue(ch: char): (d: nat)
    requires IsDigit(ch)
    ensures d < 10 && Digit(d) == ch
  {
    (ch as int) - ('0' as int)
  }

  /** `String(n)` for a non-negative integer: its decimal digits without leading zeros. */
  function NatToString(n: nat): (s: string)
    ensures |s| >= 1
    ensures forall i | 0 <= i < |s| :: IsDigit(s[i])
    decreases n
  {
    if n < 10 then [Digit(n)] else NatToString(n / 10) + [Digit(n % 10)]
  }

  /** `String(n)` for any integer. */
  function IntToString(n: int): string {
    if n < 0 then "-" + NatToString(-n) else NatToString(n)
  }

  /** `padStart(2, '0')`: strings shorter than two characters get leading zeros. */
  function PadStart2(s: string): (r: string)
    ensures |s| >= 2 ==> r == s
    ensures |s| < 2 ==> |r| == 2 && r[2 - |s|..] == s && forall i | 0 <= i < 2 - |s| :: r[i] == '0'
  {
    if |s| >= 2 then s else seq(2 - |s|, _ => '0') + s
  }

  /** `getFormattedDate`: the month is `getMonth() + 1`, month and day are padded. */
  function FormatDate(c: Clock): (r: string)
    ensures 0 <= c.month0 <= 11 && 1 <= c.day <= 31 ==>
      && |r| == |IntToString(c.year)| + 6
      && r[..|IntToString(c.year)|] == IntToString(c.year)
      && r[|r| - 6] == '-' && r[|r| - 3] == '-'
  {
    PaddedParts(c);
    IntToString(c.year) + "-" + PadStart2(IntToString(c.month0 + 1)) + "-" + PadStart2(IntToString(c.day))
  }

  /** The number a non-empty string of decimal digits denotes (leading zeros allowed). */
  function ParseNat(s: string): Option<nat>
    decreases |s|
  {
    if |s| == 0 || !IsDigit(s[|s| - 1]) then None
    else if |s| == 1 then Some(DigitValue(s[0]))
    else match ParseNat(s[..|s| - 1])
      case None => None
      case Some(p) => Some(p * 10 + DigitValue(s[|s| - 1]))
  }

  /** `s.split(sep)`: the pieces between separators, empty pieces included. */
  function Split(s: string, sep: char): (parts: seq<string>)
    ensures |parts| >= 1
    decreases |s|
  {
    if |s| == 0 then [""]
    else
      var rest := Split(s[1..], sep);
      if s[0] == sep then [""] + rest else [[s[0]] + rest[0]] + rest[1..]
  }

  /** Reads a `year-month-day` string back into its three numbers. */
  function ParseDate(s: string): Option<(nat, nat, nat)> {
    var parts := Split(s, '-');
    if |parts| != 3 then None
    else match (ParseNat(parts[0]), ParseNat(parts[1]), ParseNat(parts[2]))
      case (Some(y), Some(m), Some(d)) => Some((y, m, d))
      case _ => None
  }

  lemma {:induction false} ParseNatToString(n: nat)
    ensures ParseNat(NatToString(n)) == Some(n)
    decreases n
  {
    if n >= 10 {
      ParseNatToString(n / 10);
      var s := NatToString(n);
      assert s[..|s| - 1] == NatToString(n / 10);
    }
  }

  /** A piece without a separator splits into itself. */
  lemma {:induction false} SplitNoSep(s: string, sep: char)
    requires sep !in s
    ensures Split(s, sep) == [s]
    decreases |s|
  {
    if |s| > 0 {
      SplitNoSep(s[1..], sep);
      assert [s[0]] + s[1..] == s;
    }
  }

  /** Splitting `a + sep + rest`, with no separator in `a`, yields `a` first. */
  lemma {:induction false} SplitAfterPiece(a: string, sep: char, rest: string)
    requires sep !in a
    ensures Split(a + [sep] + rest, sep) == [a] + Split(rest, sep)
    decreases |a|
  {
    var s := a + [sep] + rest;
    if |a| == 0 {
      assert s[1..] == rest;
    } else {
      assert s[1..] == a[1..] + [sep] + rest;
      SplitAfterPiece(a[1..], sep, rest);
      assert [a[0]] + a[1..] == a;
    }
  }

  lemma FourDigits(n: nat)
    requires 1000 <= n <= 9999
    ensures |NatToString(n)| == 4
  {
    assert NatToString(n) == NatToString(n / 10) + [Digit(n % 10)];
    assert NatToString(n / 10) == NatToString(n / 100) + [Digit((n / 10) % 10)];
    assert NatToString(n / 100) == NatToString(n / 1000) + [Digit((n / 100) % 10)];
  }

  /** A padded month or day is two characters and reads back as the number. */
  lemma PaddedRoundTrip(n: nat)
    requires 1 <= n <= 99
    ensures |PadStart2(NatToString(n))| == 2
    ensures '-' !in PadStart2(NatToString(n))
    ensures ParseNat(PadStart2(NatToString(n))) == Some(n)
  {
    var p := PadStart2(NatToString(n));
    if n < 10 {
      assert p == ['0', Digit(n)];
      assert p[..1] == ['0'];
    } else {
      assert NatToString(n) == NatToString(n / 10) + [Digit(n % 10)];
      ParseNatToString(n);
    }
  }

  /** For a real month and day, both padded parts are two characters. */
  lemma PaddedParts(c: Clock)
    ensures 0 <= c.month0 <= 11 && 1 <= c.day <= 31 ==>
      |PadStart2(IntToString(c.month0 + 1))| == 2 && |PadStart2(IntToString(c.day))| == 2
  {
    if 0 <= c.month0 <= 11 && 1 <= c.day <= 31 {
      PaddedRoundTrip(c.month0 + 1);
      PaddedRoundTrip(c.day);
    }
  }

  /** Three pieces without `-`, joined by `-`, split back into the three pieces. */
  lemma SplitThree(y: string, m: string, d: string)
    requires '-' !in y && '-' !in m && '-' !in d
    ensures Split(y + "-" + m + "-" + d, '-') == [y, m, d]
  {
    SplitNoSep(d, '-');
    SplitAfterPiece(m, '-', d);
    SplitAfterPiece(y, '-', m + "-" + d);
    assert y + "-" + m + "-" + d == y + ['-'] + (m + ['-'] + d);
  }

  lemma NoDashInDigits(s: string)
    requires forall i | 0 <= i < |s| :: IsDigit(s[i])
    ensures '-' !in s
  {
  }

  /** For four-digit years and real months and days the formatted date is ten
      characters, and splitting it on `-` gives back the year, the month counted
      from 1, and the day. */
  lemma FormatDateRoundTrip(c: Clock)
    requires 1000 <= c.year <= 9999 && 0 <= c.month0 <= 11 && 1 <= c.day <= 31
    ensures |FormatDate(c)| == 10
    ensures ParseDate(FormatDate(c)) == Some((c.year, c.month0 + 1, c.day))
  {
    var y := NatToString(c.year);
    var m := PadStart2(NatToString(c.month0 + 1));
    var d := PadStart2(NatToString(c.day));
    assert FormatDate(c) == y + "-" + m + "-" + d;
    FourDigits(c.year);
    ParseNatToString(c.year);
    PaddedRoundTrip(c.month0 + 1);
    PaddedRoundTrip(c.day);
    NoDashInDigits(y);
    SplitThree(y, m, d);
  }

  /** Distinct clock readings in that range give distinct date strings. */
  lemma FormatDateInjective(a: Clock, b: Clock)
    requires 1000 <= a.year <= 9999 && 0 <= a.month0 <= 11 && 1 <= a.day <= 31
    requires 1000 <= b.year <= 9999 && 0 <= b.month0 <= 11 && 1 <= b.day <= 31
    requires FormatDate(a) == FormatDate(b)
    ensures a == b
  {
    FormatDateRoundTrip(a);
    FormatDateRoundTrip(b);
  }
}
