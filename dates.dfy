/**
 * Calendar dates as the scheduler in src/reviewStorage.js uses them: a day of
 * the proleptic Gregorian calendar, written as a zero-padded `YYYY-MM-DD`
 * string (getTodayStr), moved forward by whole days (addDays), and compared
 * as strings by the due filter.
 */
module Dates {
  import opened Wrappers

  /** A calendar day; only `ValidDate` values denote real days. */
  datatype Date = Date(year: nat, month: int, day: int)

  predicate IsLeapYear(y: nat)
  {
    (y % 4 == 0 && y % 100 != 0) || y % 400 == 0
  }

  function YearLength(y: nat): nat
  {
    if IsLeapYear(y) then 366 else 365
  }

  function DaysInMonth(y: nat, m: int): (n: int)
    requires 1 <= m <= 12
    ensures 28 <= n <= 31
    ensures n == 29 <==> m == 2 && IsLeapYear(y)
  {
    if m == 2 then (if IsLeapYear(y) then 29 else 28)
    else if m == 4 || m == 6 || m == 9 || m == 11 then 30
    else 31
  }

  predicate ValidDate(d: Date)
  {
    1 <= d.month <= 12 && 1 <= d.day <= DaysInMonth(d.year, d.month)
  }

  /** Strict calendar order: `a` is an earlier day than `b`. */
  predicate Before(a: Date, b: Date)
  {
    || a.year < b.year
    || (a.year == b.year && (a.month < b.month || (a.month == b.month && a.day < b.day)))
  }

  // ---------------------------------------------------------------------
  // Reference definition: the number of days elapsed since 0000-01-01.
  // ---------------------------------------------------------------------

  /** Days in the years 0 .. y-1: 365 each, plus one per leap year among them. */
  function DaysBeforeYear(y: nat): nat
  {
    365 * y + (y + 3) / 4 - (y + 99) / 100 + (y + 399) / 400
  }

  /** From `y` to `y + 1` the count of multiples of 4 grows exactly when 4 divides `y`. */
  lemma Multiples4(y: nat)
    ensures (y + 4) / 4 - (y + 3) / 4 == if y % 4 == 0 then 1 else 0
  {
    var q := y / 4;
    assert (y + 4) / 4 == q + 1;
  }

  lemma Multiples100(y: nat)
    ensures (y + 100) / 100 - (y + 99) / 100 == if y % 100 == 0 then 1 else 0
  {
    var q := y / 100;
    assert (y + 100) / 100 == q + 1;
  }

  lemma Multiples400(y: nat)
    ensures (y + 400) / 400 - (y + 399) / 400 == if y % 400 == 0 then 1 else 0
  {
    var q := y / 400;
    assert (y + 400) / 400 == q + 1;
  }

  /** A multiple of 400 is a multiple of 100, which is a multiple of 4. */
  lemma NestedDivisors(y: nat)
    ensures y % 400 == 0 ==> y % 100 == 0
    ensures y % 100 == 0 ==> y % 4 == 0
  {
    if y % 400 == 0 {
      assert y == 100 * (4 * (y / 400));
    }
    if y % 100 == 0 {
      assert y == 4 * (25 * (y / 100));
    }
  }

  lemma DaysBeforeNextYear(y: nat)
    ensures DaysBeforeYear(y + 1) == DaysBeforeYear(y) + YearLength(y)
  {
    var a := (y + 4) / 4 - (y + 3) / 4;
    var b := (y + 100) / 100 - (y + 99) / 100;
    var c := (y + 400) / 400 - (y + 399) / 400;
    assert DaysBeforeYear(y + 1) == DaysBeforeYear(y) + 365 + a - b + c;
    Multiples4(y);
    Multiples100(y);
    Multiples400(y);
    NestedDivisors(y);
  }

  /** Days of year `y` that come before the first of month `m`. */
  function DaysBeforeMonth(y: nat, m: int): nat
    requires 1 <= m <= 12
  {
    [0, 31, 59, 90, 120, 151, 181, 212, 243, 273, 304, 334][m - 1]
      + (if m > 2 && IsLeapYear(y) then 1 else 0)
  }

  function DayNumber(d: Date): nat
    requires ValidDate(d)
  {
    DaysBeforeYear(d.year) + DaysBeforeMonth(d.year, d.month) + d.day - 1
  }

  lemma MonthStep(y: nat, m: int)
    requires 1 <= m < 12
    ensures DaysBeforeMonth(y, m + 1) == DaysBeforeMonth(y, m) + DaysInMonth(y, m)
  {
  }

  lemma MonthsFitInYear(y: nat, m: int)
    requires 1 <= m <= 12
    ensures DaysBeforeMonth(y, m) + DaysInMonth(y, m) <= YearLength(y)
    ensures m == 12 ==> DaysBeforeMonth(y, m) + DaysInMonth(y, m) == YearLength(y)
  {
  }

  lemma {:induction false} DaysBeforeYearMonotone(y1: nat, y2: nat)
    requires y1 <= y2
    ensures DaysBeforeYear(y1) + (if y1 < y2 then YearLength(y1) else 0) <= DaysBeforeYear(y2)
    decreases y2
  {
    if y1 < y2 {
      DaysBeforeNextYear(y2 - 1);
      if y1 < y2 - 1 {
        DaysBeforeYearMonotone(y1, y2 - 1);
      }
    }
  }

  /** The day after `d`, rolling over the end of a month and of a year. */
  function NextDay(d: Date): (r: Date)
    requires ValidDate(d)
    ensures ValidDate(r) && Before(d, r)
  {
    if d.day < DaysInMonth(d.year, d.month) then Date(d.year, d.month, d.day + 1)
    else if d.month < 12 then Date(d.year, d.month + 1, 1)
    else Date(d.year + 1, 1, 1)
  }

  lemma NextDayNumber(d: Date)
    requires ValidDate(d)
    ensures DayNumber(NextDay(d)) == DayNumber(d) + 1
  {
    if d.day < DaysInMonth(d.year, d.month) {
    } else if d.month < 12 {
      MonthStep(d.year, d.month);
    } else {
      MonthsFitInYear(d.year, 12);
      DaysBeforeNextYear(d.year);
    }
  }

  /** `n` days after `d`: the calendar arithmetic of addDays, one day at a time. */
  function AddDays(d: Date, n: nat): (r: Date)
    requires ValidDate(d)
    ensures ValidDate(r)
    ensures n > 0 ==> Before(d, r)
    decreases n
  {
    if n == 0 then d else AddDays(NextDay(d), n - 1)
  }

  /** AddDays moves the day number on by exactly `n`. */
  lemma {:induction false} AddDaysNumber(d: Date, n: nat)
    requires ValidDate(d)
    ensures DayNumber(AddDays(d, n)) == DayNumber(d) + n
    decreases n
  {
    if n > 0 {
      NextDayNumber(d);
      AddDaysNumber(NextDay(d), n - 1);
    }
  }

  /** Day numbers order valid dates exactly as the calendar does. */
  lemma BeforeDayNumber(a: Date, b: Date)
    requires ValidDate(a) && ValidDate(b) && Before(a, b)
    ensures DayNumber(a) < DayNumber(b)
  {
    if a.year < b.year {
      MonthsFitInYear(a.year, a.month);
      DaysBeforeYearMonotone(a.year, b.year);
    } else if a.month < b.month {
      var m := a.month;
      while m < b.month - 1
        invariant a.month <= m < b.month
        invariant DaysBeforeMonth(a.year, a.month) + DaysInMonth(a.year, a.month)
                  <= DaysBeforeMonth(a.year, m) + DaysInMonth(a.year, m)
      {
        MonthStep(a.year, m);
        MonthStep(a.year, m + 1);
        m := m + 1;
      }
      MonthStep(a.year, m);
    }
  }

  lemma DayNumberOrder(a: Date, b: Date)
    requires ValidDate(a) && ValidDate(b)
    ensures Before(a, b) <==> DayNumber(a) < DayNumber(b)
    ensures a == b <==> DayNumber(a) == DayNumber(b)
  {
    if Before(a, b) {
      BeforeDayNumber(a, b);
    } else if Before(b, a) {
      BeforeDayNumber(b, a);
    }
  }

  /** AddDays agrees with the reference: it is the one valid date `n` days on. */
  lemma AddDaysUnique(d: Date, n: nat, e: Date)
    requires ValidDate(d) && ValidDate(e)
    ensures DayNumber(e) == DayNumber(d) + n <==> e == AddDays(d, n)
  {
    AddDaysNumber(d, n);
    DayNumberOrder(e, AddDays(d, n));
  }

  lemma AddDaysZero(d: Date)
    requires ValidDate(d)
    ensures AddDays(d, 0) == d
  {
  }

  lemma AddDaysAdditive(d: Date, a: nat, b: nat)
    requires ValidDate(d)
    ensures AddDays(AddDays(d, a), b) == AddDays(d, a + b)
  {
    var mid, twoSteps, oneStep := AddDays(d, a), AddDays(AddDays(d, a), b), AddDays(d, a + b);
    AddDaysNumber(d, a);
    AddDaysNumber(mid, b);
    AddDaysNumber(d, a + b);
    assert DayNumber(twoSteps) == DayNumber(oneStep);
    DayNumberOrder(twoSteps, oneStep);
  }

  lemma AddDaysMonthRollover()
    ensures AddDays(Date(2024, 1, 30), 4) == Date(2024, 2, 3)
  {
  }

  lemma AddDaysYearRollover()
    ensures AddDays(Date(2024, 12, 29), 7) == Date(2025, 1, 5)
  {
  }

  lemma AddDaysLeapDay()
    ensures AddDays(Date(2024, 2, 28), 1) == Date(2024, 2, 29)
    ensures AddDays(Date(2023, 2, 28), 1) == Date(2023, 3, 1)
    ensures AddDays(Date(1900, 2, 28), 1) == Date(1900, 3, 1)
    ensures AddDays(Date(2000, 2, 28), 1) == Date(2000, 2, 29)
  {
  }

  // ---------------------------------------------------------------------
  // Text form: getTodayStr's `${yyyy}-${mm}-${dd}` and its parsing.
  // ---------------------------------------------------------------------

  predicate IsDigit(c: char)
  {
    '0' <= c <= '9'
  }

  function DigitChar(n: nat): (c: char)
    requires n < 10
    ensures IsDigit(c)
  {
    ('0' as int + n) as char
  }

  function DigitValue(c: char): (n: nat)
    requires IsDigit(c)
    ensures n < 10 && DigitChar(n) == c
  {
    c as int - '0' as int
  }

  predicate AllDigits(s: string)
  {
    forall i :: 0 <= i < |s| ==> IsDigit(s[i])
  }

  /** String(n) for a non-negative integer: its decimal digits, unpadded. */
  function Decimal(n: nat): (s: string)
    ensures |s| >= 1 && AllDigits(s)
    ensures n < 10 <==> |s| == 1
    decreases n
  {
    if n < 10 then [DigitChar(n)] else Decimal(n / 10) + [DigitChar(n % 10)]
  }

  /** String.prototype.padStart: prefix `fill` until `s` is `width` long. */
  function PadStart(s: string, width: nat, fill: char): (r: string)
    ensures |s| >= width ==> r == s
    ensures |s| < width ==> |r| == width
    ensures r[|r| - |s|..] == s
    ensures forall i :: 0 <= i < |r| - |s| ==> r[i] == fill
  {
    if |s| >= width then s else seq(width - |s|, _ => fill) + s
  }

  /** `String(n).padStart(2, "0")`. */
  function Pad2(n: nat): string
  {
    PadStart(Decimal(n), 2, '0')
  }

  /** The template `${yyyy}-${mm}-${dd}`. */
  function JoinDate(y: string, m: string, d: string): string
  {
    y + "-" + m + "-" + d
  }

  /** The three fields sit in order, each followed by "-" but the last. */
  lemma JoinDateFields(y: string, m: string, d: string)
    ensures var r := JoinDate(y, m, d);
            && |r| == |y| + |m| + |d| + 2
            && r[..|y|] == y && r[|y|] == '-'
            && r[|y| + 1..|y| + 1 + |m|] == m && r[|y| + 1 + |m|] == '-'
            && r[|y| + |m| + 2..] == d
  {
    var r := JoinDate(y, m, d);
    assert r == y + (['-'] + (m + (['-'] + d)));
  }

  /** getTodayStr, applied to a given day instead of the system clock. */
  function FormatDate(d: Date): string
    requires ValidDate(d)
  {
    JoinDate(Decimal(d.year), Pad2(d.month), Pad2(d.day))
  }

  /**
   * A formatted date is the year's digits, then "-", two month digits, "-"
   * and two day digits: ten characters for a four-digit year.
   */
  lemma FormatDateShape(d: Date)
    requires ValidDate(d)
    ensures var s, y := FormatDate(d), Decimal(d.year);
            && |s| == |y| + 6
            && s[..|y|] == y && s[|y|] == '-'
            && s[|y| + 1..|y| + 3] == Pad2(d.month) && s[|y| + 3] == '-'
            && s[|y| + 4..] == Pad2(d.day)
            && (1000 <= d.year <= 9999 ==> |s| == 10)
  {
    var y, m, dd := Decimal(d.year), Pad2(d.month), Pad2(d.day);
    FourDigitYear(d.year);
    Pad2Length(d.month);
    Pad2Length(d.day);
    assert FormatDate(d) == JoinDate(y, m, dd);
    TwoDigitFields(y, m, dd);
  }

  /** JoinDateFields for a two-character month and day. */
  lemma TwoDigitFields(y: string, m: string, d: string)
    requires |m| == 2 && |d| == 2
    ensures var s := JoinDate(y, m, d);
            && |s| == |y| + 6
            && s[..|y|] == y && s[|y|] == '-'
            && s[|y| + 1..|y| + 3] == m && s[|y| + 3] == '-'
            && s[|y| + 4..] == d
  {
    JoinDateFields(y, m, d);
  }

  /** A month or a day pads to exactly two digits. */
  lemma Pad2Length(n: nat)
    requires n < 100
    ensures |Pad2(n)| == 2 && AllDigits(Pad2(n))
  {
    if n >= 10 {
      assert n / 10 < 10;
    }
  }

  lemma FourDigitYear(y: nat)
    ensures 1000 <= y <= 9999 ==> |Decimal(y)| == 4
  {
    if 1000 <= y <= 9999 {
      DecimalIsFixed4(y);
    }
  }

  /** String.prototype.split with a one-character separator. */
  function Split(s: string, sep: char): (parts: seq<string>)
    ensures |parts| >= 1
  {
    if s == [] then [[]]
    else
      var rest := Split(s[1..], sep);
      if s[0] == sep then [[]] + rest else [[s[0]] + rest[0]] + rest[1..]
  }

  /** The value of a string of decimal digits. */
  function DigitsValue(s: string): nat
    requires AllDigits(s)
  {
    if s == [] then 0 else DigitsValue(s[..|s| - 1]) * 10 + DigitValue(s[|s| - 1])
  }

  /**
   * Number(s) on a field of a date, for the fields this program writes: a
   * non-empty run of digits reads as its value. Any other field is None here;
   * JavaScript's wider rules (blank, signed or exponent forms) are not modelled.
   */
  function ParseNat(s: string): (r: Option<nat>)
    ensures r.Some? <==> s != [] && AllDigits(s)
  {
    if s != [] && AllDigits(s) then Some(DigitsValue(s)) else None
  }

  /**
   * `dateStr.split("-").map(Number)` destructured into `[y, m, d]`: the first
   * three fields must be numbers naming a real day.
   */
  function ParseDate(s: string): (r: Option<Date>)
    ensures r.Some? ==> ValidDate(r.value)
  {
    var parts := Split(s, '-');
    if |parts| < 3 then None
    else
      match (ParseNat(parts[0]), ParseNat(parts[1]), ParseNat(parts[2]))
      case (Some(y), Some(m), Some(d)) =>
        if ValidDate(Date(y, m, d)) then Some(Date(y, m, d)) else None
      case _ => None
  }

  /** addDays(dateStr, days): parse, move `n` days on, format again. */
  function AddDaysStr(s: string, n: nat): (r: Option<string>)
    ensures r.Some? <==> ParseDate(s).Some?
  {
    match ParseDate(s)
    case None => None
    case Some(d) => Some(FormatDate(AddDays(d, n)))
  }

  lemma {:induction false} SplitWithoutSep(a: string, sep: char)
    requires sep !in a
    ensures Split(a, sep) == [a]
  {
    if a != [] {
      assert sep !in a[1..] && a[0] != sep;
      SplitWithoutSep(a[1..], sep);
      assert [a[0]] + a[1..] == a;
    }
  }

  lemma {:induction false} SplitAtSep(a: string, b: string, sep: char)
    requires sep !in a
    ensures Split(a + [sep] + b, sep) == [a] + Split(b, sep)
  {
    if a == [] {
      assert a + [sep] + b == [sep] + b;
      assert ([sep] + b)[1..] == b;
    } else {
      assert (a + [sep] + b)[1..] == a[1..] + [sep] + b;
      SplitAtSep(a[1..], b, sep);
      assert [a[0]] + a[1..] == a;
    }
  }

  lemma {:induction false} DecimalValue(n: nat)
    ensures DigitsValue(Decimal(n)) == n
    decreases n
  {
    var s := Decimal(n);
    if n < 10 {
      assert s[..0] == [];
    } else {
      DecimalValue(n / 10);
      assert s[..|s| - 1] == Decimal(n / 10);
    }
  }

  /** The two-character month or day field: a leading zero below ten. */
  lemma Pad2Shape(n: nat)
    requires n < 100
    ensures Pad2(n) == if n < 10 then ['0', DigitChar(n)] else Decimal(n)
  {
    if n < 10 {
      assert Decimal(n) == [DigitChar(n)];
      assert seq(1, _ => '0') == ['0'];
    }
  }

  lemma PaddedValue(n: nat)
    requires n < 100
    ensures var s := Pad2(n);
            AllDigits(s) && s != [] && DigitsValue(s) == n
  {
    Pad2Shape(n);
    if n < 10 {
      var s := ['0', DigitChar(n)];
      assert s[..1] == ['0'];
      assert DigitsValue(['0']) == 0 by {
        assert ['0'][..0] == [];
      }
      assert DigitsValue(s) == DigitsValue(s[..1]) * 10 + n;
    } else {
      DecimalValue(n);
    }
  }

  lemma DigitsHaveNoDash(s: string)
    requires AllDigits(s)
    ensures '-' !in s
  {
  }

  lemma {:induction false} JoinDateSplit(y: string, m: string, d: string)
    requires '-' !in y && '-' !in m && '-' !in d
    ensures Split(JoinDate(y, m, d), '-') == [y, m, d]
  {
    assert JoinDate(y, m, d) == y + ['-'] + (m + ['-'] + d);
    SplitAtSep(y, m + ['-'] + d, '-');
    SplitAtSep(m, d, '-');
    SplitWithoutSep(d, '-');
  }

  lemma ParseJoined(y: string, m: string, d: string, date: Date)
    requires '-' !in y && '-' !in m && '-' !in d
    requires ValidDate(date)
    requires ParseNat(y) == Some(date.year)
    requires ParseNat(m) == Some(date.month as nat)
    requires ParseNat(d) == Some(date.day as nat)
    ensures ParseDate(JoinDate(y, m, d)) == Some(date)
  {
    JoinDateSplit(y, m, d);
  }

  /** Reading a formatted date back gives the same day. */
  lemma ParseFormat(d: Date)
    requires ValidDate(d)
    ensures ParseDate(FormatDate(d)) == Some(d)
  {
    DecimalValue(d.year);
    PaddedValue(d.month);
    PaddedValue(d.day);
    DigitsHaveNoDash(Decimal(d.year));
    DigitsHaveNoDash(Pad2(d.month));
    DigitsHaveNoDash(Pad2(d.day));
    ParseJoined(Decimal(d.year), Pad2(d.month), Pad2(d.day), d);
  }

  /** addDays on getTodayStr's output is the calendar addition. */
  lemma AddDaysStrFormat(d: Date, n: nat)
    requires ValidDate(d)
    ensures AddDaysStr(FormatDate(d), n) == Some(FormatDate(AddDays(d, n)))
  {
    ParseFormat(d);
  }

  lemma FormatFromParts(d: Date, y: string, m: string, dd: string)
    requires ValidDate(d)
    requires Decimal(d.year) == y && Pad2(d.month) == m && Pad2(d.day) == dd
    ensures FormatDate(d) == JoinDate(y, m, dd)
  {
  }

  lemma DecimalYears()
    ensures Decimal(2024) == "2024" && Decimal(2025) == "2025"
  {
    assert Decimal(20) == "20";
    assert Decimal(202) == "202";
  }

  lemma PaddedSingleDigits()
    ensures Pad2(1) == "01" && Pad2(2) == "02" && Pad2(3) == "03" && Pad2(5) == "05"
  {
    Pad2Shape(1);
    Pad2Shape(2);
    Pad2Shape(3);
    Pad2Shape(5);
  }

  lemma PaddedTwoDigits()
    ensures Pad2(12) == "12" && Pad2(29) == "29" && Pad2(30) == "30"
  {
    Pad2Shape(12);
    Pad2Shape(29);
    Pad2Shape(30);
  }

  /** The days of the month-rollover example, as getTodayStr writes them. */
  lemma FormatMonthExamples()
    ensures FormatDate(Date(2024, 1, 30)) == "2024-01-30"
    ensures FormatDate(Date(2024, 2, 3)) == "2024-02-03"
  {
    DecimalYears();
    PaddedSingleDigits();
    PaddedTwoDigits();
    FormatFromParts(Date(2024, 1, 30), "2024", "01", "30");
    assert JoinDate("2024", "01", "30") == "2024-01-30";
    FormatFromParts(Date(2024, 2, 3), "2024", "02", "03");
    assert JoinDate("2024", "02", "03") == "2024-02-03";
  }

  /** The days of the year-rollover example, as getTodayStr writes them. */
  lemma FormatYearExamples()
    ensures FormatDate(Date(2024, 12, 29)) == "2024-12-29"
    ensures FormatDate(Date(2025, 1, 5)) == "2025-01-05"
  {
    DecimalYears();
    PaddedSingleDigits();
    PaddedTwoDigits();
    FormatFromParts(Date(2024, 12, 29), "2024", "12", "29");
    assert JoinDate("2024", "12", "29") == "2024-12-29";
    FormatFromParts(Date(2025, 1, 5), "2025", "01", "05");
    assert JoinDate("2025", "01", "05") == "2025-01-05";
  }

  /**
   * addDays("2024-01-30", 4), written as the source receives it. The text is
   * a parameter fixed by the precondition rather than a literal in the call,
   * which keeps the verifier from evaluating the whole parse eagerly.
   */
  lemma AddDaysStrMonthRollover(s: string)
    requires s == "2024-01-30"
    ensures AddDaysStr(s, 4) == Some("2024-02-03")
  {
    FormatMonthExamples();
    AddDaysMonthRollover();
    AddDaysStrBetween(Date(2024, 1, 30), 4, Date(2024, 2, 3), s, "2024-02-03");
  }

  /**
   * addDays("2024-12-29", 7), written as the source receives it; the text is
   * a parameter for the same reason as in AddDaysStrMonthRollover.
   */
  lemma AddDaysStrYearRollover(s: string)
    requires s == "2024-12-29"
    ensures AddDaysStr(s, 7) == Some("2025-01-05")
  {
    FormatYearExamples();
    AddDaysYearRollover();
    AddDaysStrBetween(Date(2024, 12, 29), 7, Date(2025, 1, 5), s, "2025-01-05");
  }

  /** AddDaysStrFormat, stated for given texts of the two days. */
  lemma AddDaysStrBetween(d: Date, n: nat, e: Date, s: string, t: string)
    requires ValidDate(d) && AddDays(d, n) == e
    requires FormatDate(d) == s && FormatDate(e) == t
    ensures AddDaysStr(s, n) == Some(t)
  {
    AddDaysStrFormat(d, n);
  }

  // ---------------------------------------------------------------------
  // String order (JavaScript `<` and `<=` on strings) against calendar order.
  // ---------------------------------------------------------------------

  /**
   * `a < b` on strings: lexicographic by code point, a proper prefix being
   * smaller, which is JavaScript's order on the ASCII date strings compared here.
   */
  function StrLess(a: string, b: string): (r: bool)
    ensures a < b ==> r
    ensures b == [] ==> !r
  {
    if a == [] || b == [] then a == [] && b != []
    else if a[0] != b[0] then a[0] < b[0]
    else StrLess(a[1..], b[1..])
  }

  lemma {:induction false} StrLessIrreflexive(a: string)
    ensures !StrLess(a, a)
  {
    if a != [] {
      StrLessIrreflexive(a[1..]);
    }
  }

  lemma {:induction false} StrLessAsymmetric(a: string, b: string)
    ensures StrLess(a, b) ==> !StrLess(b, a)
  {
    if a != [] && b != [] && a[0] == b[0] {
      StrLessAsymmetric(a[1..], b[1..]);
    }
  }

  /** Any two different strings are ordered one way or the other. */
  lemma {:induction false} StrLessTotal(a: string, b: string)
    ensures a != b ==> StrLess(a, b) || StrLess(b, a)
  {
    if a != [] && b != [] && a[0] == b[0] {
      StrLessTotal(a[1..], b[1..]);
      assert a == [a[0]] + a[1..] && b == [b[0]] + b[1..];
    }
  }

  /** `a <= b` on strings, which JavaScript evaluates as `!(b < a)`. */
  function StrLessEq(a: string, b: string): (r: bool)
    ensures r <==> StrLess(a, b) || a == b
  {
    StrLessIrreflexive(a);
    StrLessAsymmetric(a, b);
    StrLessTotal(a, b);
    !StrLess(b, a)
  }

  lemma {:induction false} StrLessAppend(x: string, y: string, u: string, v: string)
    requires |x| == |y|
    ensures StrLess(x + u, y + v) <==> StrLess(x, y) || (x == y && StrLess(u, v))
  {
    if x == [] {
      assert x + u == u && y + v == v;
    } else {
      assert (x + u)[1..] == x[1..] + u;
      assert (y + v)[1..] == y[1..] + v;
      if x[0] == y[0] {
        StrLessAppend(x[1..], y[1..], u, v);
        assert x == y <==> x[1..] == y[1..] by {
          assert x == [x[0]] + x[1..] && y == [y[0]] + y[1..];
        }
      }
    }
  }

  function Pow10(k: nat): (p: nat)
    ensures p >= 1
  {
    if k == 0 then 1 else 10 * Pow10(k - 1)
  }

  /** The last `w` decimal digits of `n`, zero-padded to width `w`. */
  function Fixed(n: nat, w: nat): (s: string)
    ensures |s| == w
  {
    if w == 0 then [] else Fixed(n / 10, w - 1) + [DigitChar(n % 10)]
  }

  /** Fixed-width digit strings compare as the numbers they spell. */
  lemma {:induction false} FixedOrder(a: nat, b: nat, w: nat)
    requires a < Pow10(w) && b < Pow10(w)
    ensures StrLess(Fixed(a, w), Fixed(b, w)) <==> a < b
    ensures Fixed(a, w) == Fixed(b, w) <==> a == b
  {
    if w > 0 {
      var x, y := Fixed(a / 10, w - 1), Fixed(b / 10, w - 1);
      var ca, cb := DigitChar(a % 10), DigitChar(b % 10);
      assert a / 10 < Pow10(w - 1) && b / 10 < Pow10(w - 1);
      FixedOrder(a / 10, b / 10, w - 1);
      StrLessAppend(x, y, [ca], [cb]);
      assert StrLess([ca], [cb]) <==> ca < cb;
      assert x + [ca] == y + [cb] <==> x == y && ca == cb by {
        if x + [ca] == y + [cb] {
          assert (x + [ca])[..|x|] == x && (y + [cb])[..|y|] == y;
          assert (x + [ca])[|x|] == ca && (y + [cb])[|y|] == cb;
        }
      }
      assert a == 10 * (a / 10) + a % 10 && b == 10 * (b / 10) + b % 10;
    }
  }

  /** A number of exactly `w` digits prints as its fixed-width form. */
  lemma {:induction false} DecimalIsFixed(n: nat, w: nat)
    requires w >= 1 && Pow10(w - 1) <= n < Pow10(w)
    ensures Decimal(n) == Fixed(n, w)
    decreases w
  {
    if w == 1 {
      assert Fixed(n / 10, 0) == [];
    } else {
      assert Pow10(w - 1) == 10 * Pow10(w - 2);
      assert n >= 10;
      assert Pow10(w - 2) <= n / 10 < Pow10(w - 1);
      DecimalIsFixed(n / 10, w - 1);
    }
  }

  lemma DecimalIsFixed4(y: nat)
    requires 1000 <= y <= 9999
    ensures Decimal(y) == Fixed(y, 4)
  {
    assert Pow10(3) == 1000 && Pow10(4) == 10000;
    DecimalIsFixed(y, 4);
  }

  lemma PaddedIsFixed2(n: nat)
    requires n < 100
    ensures Pad2(n) == Fixed(n, 2)
  {
    Pad2Shape(n);
    var hi, lo := n / 10, n % 10;
    assert hi < 10 && hi / 10 == 0 && hi % 10 == hi;
    assert Fixed(hi, 1) == [DigitChar(hi)];
    assert Fixed(n, 2) == [DigitChar(hi), DigitChar(lo)];
    if n < 10 {
      assert hi == 0 && lo == n;
    } else {
      assert Decimal(n) == Decimal(hi) + [DigitChar(lo)];
      assert Decimal(hi) == [DigitChar(hi)];
    }
  }

  lemma FormatAsFixed(d: Date)
    requires ValidDate(d) && 1000 <= d.year <= 9999
    ensures FormatDate(d) == Fixed(d.year, 4) + (['-'] + (Fixed(d.month, 2) + (['-'] + Fixed(d.day, 2))))
  {
    DecimalIsFixed4(d.year);
    PaddedIsFixed2(d.month);
    PaddedIsFixed2(d.day);
    JoinDateRegroup(Fixed(d.year, 4), Fixed(d.month, 2), Fixed(d.day, 2));
  }

  lemma JoinDateRegroup(y: string, m: string, d: string)
    ensures JoinDate(y, m, d) == y + (['-'] + (m + (['-'] + d)))
  {
  }

  lemma FormatLess(a: Date, b: Date)
    requires ValidDate(a) && 1000 <= a.year <= 9999
    requires ValidDate(b) && 1000 <= b.year <= 9999
    ensures StrLess(FormatDate(a), FormatDate(b)) <==> Before(a, b)
  {
    FormatAsFixed(a);
    FormatAsFixed(b);
    assert Pow10(4) == 10000 by {
      assert Pow10(2) == 100;
    }
    FixedOrder(a.year, b.year, 4);
    FixedOrder(a.month, b.month, 2);
    FixedOrder(a.day, b.day, 2);
    var da, db := Fixed(a.day, 2), Fixed(b.day, 2);
    var ma, mb := Fixed(a.month, 2) + (['-'] + da), Fixed(b.month, 2) + (['-'] + db);
    StrLessIrreflexive(['-']);
    StrLessAppend(['-'], ['-'], da, db);
    StrLessAppend(Fixed(a.month, 2), Fixed(b.month, 2), ['-'] + da, ['-'] + db);
    StrLessAppend(['-'], ['-'], ma, mb);
    StrLessAppend(Fixed(a.year, 4), Fixed(b.year, 4), ['-'] + ma, ['-'] + mb);
  }

  /**
   * For four-digit years the due filter's string comparison `a <= b` holds
   * exactly when `a` is the same day as `b` or an earlier one.
   */
  lemma FormatOrder(a: Date, b: Date)
    requires ValidDate(a) && 1000 <= a.year <= 9999
    requires ValidDate(b) && 1000 <= b.year <= 9999
    ensures StrLessEq(FormatDate(a), FormatDate(b)) <==> Before(a, b) || a == b
  {
    FormatLess(b, a);
  }
}
