/**
 * Calendar arithmetic on `YYYY-MM-DD` strings, as the streak engine does it
 * with JavaScript's `Date`: parse the date key (at UTC midnight), step back
 * one calendar day, and print the ISO date again.  The calendar is the
 * proleptic Gregorian one that `Date` uses.
 */
module Calendar {
  import opened Documents

  datatype Date = Date(year: int, month: int, day: int)

  predicate IsLeapYear(y: int) {
    y % 4 == 0 && (y % 100 != 0 || y % 400 == 0)
  }

  function DaysInMonth(y: int, m: int): (n: int)
    requires 1 <= m <= 12
    ensures 28 <= n <= 31
    ensures n == 29 <==> m == 2 && IsLeapYear(y)
    ensures n == 28 <==> m == 2 && !IsLeapYear(y)
    ensures n == 30 <==> m in {4, 6, 9, 11}
  {
    if m == 2 then (if IsLeapYear(y) then 29 else 28)
    else if m in {4, 6, 9, 11} then 30
    else 31
  }

  /** A real calendar day. */
  predicate Valid(d: Date) {
    1 <= d.month <= 12 && 1 <= d.day <= DaysInMonth(d.year, d.month)
  }

  /** Chronological order of dates. */
  predicate Before(a: Date, b: Date) {
    a.year < b.year
    || (a.year == b.year && a.month < b.month)
    || (a.year == b.year && a.month == b.month && a.day < b.day)
  }

  /** The calendar day before `d`: `setDate(getDate() - 1)` on a valid date. */
  function Predecessor(d: Date): (p: Date)
    requires Valid(d)
    ensures Valid(p) && Before(p, d)
  {
    if d.day > 1 then Date(d.year, d.month, d.day - 1)
    else if d.month > 1 then Date(d.year, d.month - 1, DaysInMonth(d.year, d.month - 1))
    else Date(d.year - 1, 12, 31)
  }

  /** No valid date lies strictly between `Predecessor(d)` and `d`. */
  lemma PredecessorIsImmediate(d: Date, e: Date)
    requires Valid(d) && Valid(e) && Before(e, d)
    ensures e == Predecessor(d) || Before(e, Predecessor(d))
  {
  }

  /** The calendar day after `d`, the inverse of `Predecessor`. */
  function Successor(d: Date): (s: Date)
    requires Valid(d)
    ensures Valid(s) && Before(d, s)
  {
    if d.day < DaysInMonth(d.year, d.month) then Date(d.year, d.month, d.day + 1)
    else if d.month < 12 then Date(d.year, d.month + 1, 1)
    else Date(d.year + 1, 1, 1)
  }

  lemma SuccessorOfPredecessor(d: Date)
    requires Valid(d)
    ensures Successor(Predecessor(d)) == d
  {
  }

  // ---- characters and fixed-width decimal fields ----

  predicate IsDigit(c: char) {
    '0' <= c <= '9'
  }

  function DigitChar(k: int): (c: char)
    requires 0 <= k <= 9
    ensures IsDigit(c) && c as int - '0' as int == k
  {
    ('0' as int + k) as char
  }

  function DigitValue(c: char): (k: int)
    requires IsDigit(c)
    ensures 0 <= k <= 9 && DigitChar(k) == c
  {
    c as int - '0' as int
  }

  function Pad2(n: int): (s: string)
    requires 0 <= n <= 99
    ensures |s| == 2 && forall i :: 0 <= i < 2 ==> IsDigit(s[i])
  {
    [DigitChar(n / 10), DigitChar(n % 10)]
  }

  function Pad4(n: int): (s: string)
    requires 0 <= n <= 9999
    ensures |s| == 4 && forall i :: 0 <= i < 4 ==> IsDigit(s[i])
  {
    Pad2(n / 100) + Pad2(n % 100)
  }

  function Pad6(n: int): (s: string)
    requires 0 <= n <= 999999
    ensures |s| == 6 && forall i :: 0 <= i < 6 ==> IsDigit(s[i])
  {
    Pad2(n / 10000) + Pad4(n % 10000)
  }

  function Value2(s: string): (n: int)
    requires |s| == 2 && IsDigit(s[0]) && IsDigit(s[1])
    ensures 0 <= n <= 99
  {
    10 * DigitValue(s[0]) + DigitValue(s[1])
  }

  function Value4(s: string): (n: int)
    requires |s| == 4 && forall i :: 0 <= i < 4 ==> IsDigit(s[i])
    ensures 0 <= n <= 9999
  {
    100 * Value2(s[..2]) + Value2(s[2..])
  }

  function Value6(s: string): (n: int)
    requires |s| == 6 && forall i :: 0 <= i < 6 ==> IsDigit(s[i])
    ensures 0 <= n <= 999999
  {
    10000 * Value2(s[..2]) + Value4(s[2..])
  }

  lemma Value2Pad2(n: int)
    requires 0 <= n <= 99
    ensures Value2(Pad2(n)) == n
  {
  }

  lemma Value4Pad4(n: int)
    requires 0 <= n <= 9999
    ensures Value4(Pad4(n)) == n
  {
    var s := Pad4(n);
    assert s[..2] == Pad2(n / 100) && s[2..] == Pad2(n % 100);
    Value2Pad2(n / 100);
    Value2Pad2(n % 100);
  }

  lemma Value6Pad6(n: int)
    requires 0 <= n <= 999999
    ensures Value6(Pad6(n)) == n
  {
    var s := Pad6(n);
    assert s[..2] == Pad2(n / 10000) && s[2..] == Pad4(n % 10000);
    Value2Pad2(n / 10000);
    Value4Pad4(n % 10000);
  }

  lemma Pad2Value2(s: string)
    requires |s| == 2 && IsDigit(s[0]) && IsDigit(s[1])
    ensures Pad2(Value2(s)) == s
  {
  }

  lemma Pad4Value4(s: string)
    requires |s| == 4 && forall i :: 0 <= i < 4 ==> IsDigit(s[i])
    ensures Pad4(Value4(s)) == s
  {
    var hi, lo := Value2(s[..2]), Value2(s[2..]);
    assert Value4(s) / 100 == hi && Value4(s) % 100 == lo;
    Pad2Value2(s[..2]);
    Pad2Value2(s[2..]);
    assert s == s[..2] + s[2..];
  }

  // ---- printing: the date part of `toISOString()` ----

  /**
   * Years 0..9999 print as their four digits; a negative year as `-` and the
   * six digits of its magnitude; a later year as `+` and its six digits.
   */
  function FormatYear(y: int): (s: string)
    requires -999999 <= y <= 999999
    ensures 0 <= y <= 9999 ==>
      |s| == 4 && (forall i :: 0 <= i < 4 ==> IsDigit(s[i])) && Value4(s) == y
    ensures y < 0 ==>
      |s| == 7 && s[0] == '-' && (forall i :: 1 <= i < 7 ==> IsDigit(s[i])) && Value6(s[1..]) == -y
    ensures y > 9999 ==>
      |s| == 7 && s[0] == '+' && (forall i :: 1 <= i < 7 ==> IsDigit(s[i])) && Value6(s[1..]) == y
  {
    if 0 <= y <= 9999 then
      Value4Pad4(y);
      Pad4(y)
    else if y < 0 then
      Value6Pad6(-y);
      assert ("-" + Pad6(-y))[1..] == Pad6(-y);
      "-" + Pad6(-y)
    else
      Value6Pad6(y);
      assert ("+" + Pad6(y))[1..] == Pad6(y);
      "+" + Pad6(y)
  }

  /** The date part of the ISO string: year, month and day fields joined by `-`. */
  function FormatDate(d: Date): (s: string)
    requires Valid(d) && -999999 <= d.year <= 999999
    ensures 0 <= d.year <= 9999 ==>
      && WellFormed(s)
      && Value4(s[..4]) == d.year && Value2(s[5..7]) == d.month && Value2(s[8..]) == d.day
  {
    var s := FormatYear(d.year) + "-" + Pad2(d.month) + "-" + Pad2(d.day);
    if 0 <= d.year <= 9999 then
      assert s[..4] == Pad4(d.year) && s[5..7] == Pad2(d.month) && s[8..] == Pad2(d.day);
      Value2Pad2(d.month);
      Value2Pad2(d.day);
      s
    else
      s
  }

  // ---- parsing: `new Date("YYYY-MM-DD")` ----

  /** The shape `DDDD-DD-DD`, which the ISO date parser of the engine reads. */
  predicate WellFormed(s: string) {
    |s| == 10 && s[4] == '-' && s[7] == '-'
    && IsDigit(s[0]) && IsDigit(s[1]) && IsDigit(s[2]) && IsDigit(s[3])
    && IsDigit(s[5]) && IsDigit(s[6]) && IsDigit(s[8]) && IsDigit(s[9])
  }

  /** The date `k` calendar days after a valid date. */
  function DaysAfter(start: Date, k: nat): (r: Date)
    requires Valid(start)
    ensures Valid(r)
  {
    if k == 0 then start else Successor(DaysAfter(start, k - 1))
  }

  /**
   * Counting up to 30 days from the first of a month stays in the month while
   * it lasts and then continues in the next one.
   */
  lemma {:induction false} DaysAfterFirst(y: int, m: int, k: nat)
    requires 1 <= m <= 12 && k <= 30
    ensures var n := DaysInMonth(y, m);
      DaysAfter(Date(y, m, 1), k)
        == if k < n then Date(y, m, k + 1)
           else if m < 12 then Date(y, m + 1, k - n + 1)
           else Date(y + 1, 1, k - n + 1)
  {
    if k > 0 {
      DaysAfterFirst(y, m, k - 1);
    }
  }

  /**
   * The date a field triple stands for: the engine accepts any day 1..31 and
   * counts it from the first of the month, so days beyond the month's end
   * roll into the next month.
   */
  function Normalize(y: int, m: int, d: int): (r: Date)
    requires 1 <= m <= 12 && 1 <= d <= 31
    ensures Valid(r)
    ensures r == DaysAfter(Date(y, m, 1), d - 1)
    ensures d <= DaysInMonth(y, m) ==> r == Date(y, m, d)
  {
    DaysAfterFirst(y, m, d - 1);
    var n := DaysInMonth(y, m);
    if d <= n then Date(y, m, d)
    else if m < 12 then Date(y, m + 1, d - n)
    else Date(y + 1, 1, d - n)
  }

  /** `new Date(s)`: `None` is the Invalid Date. */
  function Parse(s: string): (r: Option<Date>)
    ensures r.Some? ==> Valid(r.value) && 0 <= r.value.year <= 9999
  {
    if !WellFormed(s) then None
    else
      var y, m, d := Value4(s[..4]), Value2(s[5..7]), Value2(s[8..]);
      if 1 <= m <= 12 && 1 <= d <= 31 then Some(Normalize(y, m, d)) else None
  }

  /**
   * `new Date(s)` stepped back one day and printed with `toISOString().split('T')[0]`;
   * `None` where the code throws (an Invalid Date has no ISO string).
   */
  function Yesterday(s: string): (r: Option<string>)
    ensures r.Some? <==> Parse(s).Some?
  {
    match Parse(s)
    case None => None
    case Some(d) => Some(FormatDate(Predecessor(d)))
  }

  // ---- properties ----

  /** Printing then parsing a four-digit-year date gives the date back. */
  lemma ParseFormat(d: Date)
    requires Valid(d) && 0 <= d.year <= 9999
    ensures WellFormed(FormatDate(d))
    ensures Parse(FormatDate(d)) == Some(d)
  {
    var s := FormatDate(d);
    assert s == Pad4(d.year) + "-" + Pad2(d.month) + "-" + Pad2(d.day);
    assert s[..4] == Pad4(d.year);
    assert s[5..7] == Pad2(d.month);
    assert s[8..] == Pad2(d.day);
    Value4Pad4(d.year);
    Value2Pad2(d.month);
    Value2Pad2(d.day);
  }

  /** A well-formed string naming a real calendar day is printed back unchanged. */
  lemma FormatParse(s: string)
    requires WellFormed(s)
    requires Parse(s).Some? && Parse(s).value.day == Value2(s[8..])
    ensures FormatDate(Parse(s).value) == s
  {
    var y, m, d := Value4(s[..4]), Value2(s[5..7]), Value2(s[8..]);
    Pad4Value4(s[..4]);
    Pad2Value2(s[5..7]);
    Pad2Value2(s[8..]);
    assert Parse(s).value == Date(y, m, d);
    assert s == s[..4] + "-" + s[5..7] + "-" + s[8..];
  }

  /**
   * Whenever `Yesterday` is defined and the input is not year 0's first day,
   * its result parses back to the calendar predecessor of the input.
   */
  lemma YesterdayIsPredecessor(s: string)
    requires Parse(s).Some? && Parse(s).value != Date(0, 1, 1)
    ensures Yesterday(s).Some?
    ensures Parse(Yesterday(s).value) == Some(Predecessor(Parse(s).value))
  {
    var p := Predecessor(Parse(s).value);
    assert 0 <= p.year <= 9999;
    ParseFormat(p);
  }

  /** `Yesterday` on a printed date prints that date's predecessor. */
  lemma YesterdayOfFormatted(d: Date)
    requires Valid(d) && 0 <= d.year <= 9999
    ensures Yesterday(FormatDate(d)) == Some(FormatDate(Predecessor(d)))
  {
    ParseFormat(d);
  }

  /** Across the leap day: the day before 2024-03-01 is 2024-02-29. */
  lemma YesterdayLeapDay()
    ensures Yesterday("2024-03-01") == Some("2024-02-29")
  {
    YesterdayOfFormatted(Date(2024, 3, 1));
    assert FormatDate(Date(2024, 3, 1)) == "2024-03-01";
    assert FormatDate(Date(2024, 2, 29)) == "2024-02-29";
  }

  /** In a common year the day before March 1 is February 28. */
  lemma YesterdayCommonYear()
    ensures Yesterday("2023-03-01") == Some("2023-02-28")
  {
    YesterdayOfFormatted(Date(2023, 3, 1));
    assert FormatDate(Date(2023, 3, 1)) == "2023-03-01";
    assert FormatDate(Date(2023, 2, 28)) == "2023-02-28";
  }

  /** Across a year boundary. */
  lemma YesterdayNewYear()
    ensures Yesterday("2024-01-01") == Some("2023-12-31")
  {
    YesterdayOfFormatted(Date(2024, 1, 1));
    assert FormatDate(Date(2024, 1, 1)) == "2024-01-01";
    assert FormatDate(Date(2023, 12, 31)) == "2023-12-31";
  }

  /** Into a 30-day month. */
  lemma YesterdayShortMonth()
    ensures Yesterday("2024-05-01") == Some("2024-04-30")
  {
    YesterdayOfFormatted(Date(2024, 5, 1));
    assert FormatDate(Date(2024, 5, 1)) == "2024-05-01";
    assert FormatDate(Date(2024, 4, 30)) == "2024-04-30";
  }

  /** The day after New Year's Day steps back to it. */
  lemma YesterdayAfterNewYear()
    ensures Yesterday("2024-01-02") == Some("2024-01-01")
  {
    YesterdayOfFormatted(Date(2024, 1, 2));
    assert FormatDate(Date(2024, 1, 2)) == "2024-01-02";
    assert FormatDate(Date(2024, 1, 1)) == "2024-01-01";
  }

  /** Within a month. */
  lemma YesterdayMidMonth()
    ensures Yesterday("2024-01-05") == Some("2024-01-04")
  {
    YesterdayOfFormatted(Date(2024, 1, 5));
    assert FormatDate(Date(2024, 1, 5)) == "2024-01-05";
    assert FormatDate(Date(2024, 1, 4)) == "2024-01-04";
  }

  /** February 30th of a common year is read as March 2nd. */
  lemma RolledOverParse()
    ensures Parse("2023-02-30") == Some(Date(2023, 3, 2))
  {
    var s := "2023-02-30";
    assert WellFormed(s);
    assert s[..4] == "2023" && s[5..7] == "02" && s[8..] == "30";
    assert Value4(s[..4]) == 2023 by {
      assert s[..4][..2] == "20" && s[..4][2..] == "23";
    }
    assert Value2(s[5..7]) == 2 && Value2(s[8..]) == 30;
    assert Normalize(2023, 2, 30) == Date(2023, 3, 2);
  }

  /** A day past the month's end is read as a day of the next month. */
  lemma YesterdayRolledOver()
    ensures Yesterday("2023-02-30") == Some("2023-03-01")
  {
    RolledOverParse();
    RolledOverPrint();
    assert Predecessor(Date(2023, 3, 2)) == Date(2023, 3, 1);
  }

  /** March 1st, 2023 prints as its key. */
  lemma RolledOverPrint()
    ensures FormatDate(Date(2023, 3, 1)) == "2023-03-01"
  {
  }

  /** A month outside 01..12 is an Invalid Date, on which the code throws. */
  lemma YesterdayBadMonth()
    ensures Yesterday("2024-13-01") == None
  {
    var s := "2024-13-01";
    assert WellFormed(s);
    assert s[5..7] == "13";
  }
}
