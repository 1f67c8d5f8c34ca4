/** The Gregorian calendar by itself: which dates there are and which follows which. */
module Calendar {

  datatype Date = Date(month: nat, day: nat, year: nat)

  predicate IsLeapYear(year: nat) {
    (year % 4 == 0 && year % 100 != 0) || year % 400 == 0
  }

  function DaysInMonth(month: nat, year: nat): nat {
    if month == 2 then (if IsLeapYear(year) then 29 else 28)
    else if month == 4 || month == 6 || month == 9 || month == 11 then 30
    else 31
  }

  predicate Valid(d: Date) {
    1 <= d.month <= 12 && 1 <= d.day <= DaysInMonth(d.month, d.year)
  }

  function Next(d: Date): (n: Date)
    requires Valid(d)
    ensures Valid(n)
  {
    if d.day < DaysInMonth(d.month, d.year) then d.(day := d.day + 1)
    else if d.month < 12 then Date(d.month + 1, 1, d.year)
    else Date(1, 1, d.year + 1)
  }

  function AfterDays(d: Date, n: nat): (r: Date)
    requires Valid(d)
    ensures Valid(r)
  {
    if n == 0 then d else Next(AfterDays(d, n - 1))
  }

  predicate Before(a: Date, b: Date) {
    a.year < b.year || (a.year == b.year && (a.month < b.month || (a.month == b.month && a.day < b.day)))
  }

  /** The place of a date in its year, counted from 1. */
  function DayOfYear(d: Date): nat
    requires Valid(d)
  {
    DaysBeforeMonth(d.month, d.year) + d.day
  }

  function DaysBeforeMonth(month: nat, year: nat): nat {
    if month <= 1 then 0 else DaysBeforeMonth(month - 1, year) + DaysInMonth(month - 1, year)
  }

  function YearLength(year: nat): nat {
    if IsLeapYear(year) then 366 else 365
  }

  /** The n-th day of a year is the one n days after the last day of the year before. */
  lemma {:induction false} NthDayOfYear(year: nat, n: nat)
    requires year > 0 && 1 <= n <= YearLength(year)
    ensures var d := AfterDays(Date(12, 31, year - 1), n);
      d.year == year && DayOfYear(d) == n
  {
    var d0 := Date(12, 31, year - 1);
    if n == 1 {
      assert AfterDays(d0, 0) == d0;
    } else {
      NthDayOfYear(year, n - 1);
      var d := AfterDays(d0, n - 1);
      MonthStarts(year);
      assert DaysBeforeMonth(d.month + 1, year) == DaysBeforeMonth(d.month, year) + DaysInMonth(d.month, year);
    }
  }

  lemma MonthStarts(year: nat)
    ensures DaysBeforeMonth(12, year) == YearLength(year) - 31
  {
    assert DaysBeforeMonth(1, year) == 0;
    assert DaysBeforeMonth(2, year) == 31;
    assert DaysBeforeMonth(3, year) == 31 + DaysInMonth(2, year);
    assert DaysBeforeMonth(4, year) == 62 + DaysInMonth(2, year);
    assert DaysBeforeMonth(5, year) == 92 + DaysInMonth(2, year);
    assert DaysBeforeMonth(6, year) == 123 + DaysInMonth(2, year);
    assert DaysBeforeMonth(7, year) == 153 + DaysInMonth(2, year);
    assert DaysBeforeMonth(8, year) == 184 + DaysInMonth(2, year);
    assert DaysBeforeMonth(9, year) == 215 + DaysInMonth(2, year);
    assert DaysBeforeMonth(10, year) == 245 + DaysInMonth(2, year);
    assert DaysBeforeMonth(11, year) == 276 + DaysInMonth(2, year);
  }

  lemma {:induction false} LaterIsAfter(d: Date, n: nat)
    requires Valid(d) && n > 0
    ensures Before(d, AfterDays(d, n))
  {
    if n > 1 {
      LaterIsAfter(d, n - 1);
    }
    assert AfterDays(d, n) == Next(AfterDays(d, n - 1));
  }
}

/** The date class: dates as Julian day numbers. */
module RzDate {
  import opened Arithmetic
  import opened Calendar

  /** 29 February of year 0 is the day before the first the formulas reach. */
  const EPOCH := 1721119

  predicate IsValidMonth(month: nat) {
    !(month == 0 || month > 12)
  }

  function DaysTable(month: nat): nat
    requires month <= 12
  {
    [0, 31, 28, 31, 30, 31, 30, 31, 31, 30, 31, 30, 31][month]
  }

  /** The check every construction from a date goes through. */
  function DayWithinMonth(month: nat, day: nat, year: nat): (ok: bool)
    ensures ok <==> Valid(Date(month, day, year))
  {
    if day == 0 || !IsValidMonth(month) then false
    else
      var days := DaysTable(month);
      (if IsLeapYear(year) && month == 2 then days + 1 else days) >= day
  }

  function AdjMonth(month: nat): nat
    requires 1 <= month
  {
    if month <= 2 then month + 9 else month - 3
  }

  function AdjYear(month: nat, year: nat): int {
    if month <= 2 then year - 1 else year
  }

  /** The day number of a date, over unbounded integers; 0 for what is not a date. */
  function Jday(month: nat, day: nat, year: nat): int {
    if !DayWithinMonth(month, day, year) then 0
    else
      var y := AdjYear(month, year);
      day + (153 * AdjMonth(month) + 2) / 5 + 1461 * (y % 100) / 4 + 146097 * (y / 100) / 4 + EPOCH
  }

  function Number(d: Date): int {
    Jday(d.month, d.day, d.year)
  }

  /** A date the formulas are meant for: valid, and not in the first two months of year 0. */
  predicate Covered(d: Date) {
    Valid(d) && AdjYear(d.month, d.year) >= 0
  }

  /** The date of a day number, over unbounded integers. */
  function Mdy(jday: int): Date
    requires jday > EPOCH
  {
    var a := 4 * (jday - EPOCH);
    var b := (a - 1) / 146097;
    var c := (a - 146097 * b - 1) / 4 * 4;
    var d := (c + 3) / 1461;
    var e := 5 * ((c - 1461 * d + 7) / 4);
    var f := (e - 3) / 153;
    var day := (e - 153 * f + 2) / 5;
    var year := d + 100 * b;
    if f > 9 then Date(f - 9, day, year + 1) else Date(f + 3, day, year)
  }

  // ----- Counting days -----

  /** Days from 1 March to the first of the month that is m months later. */
  function MonthOffset(m: nat): nat {
    (153 * m + 2) / 5
  }

  lemma MonthLengths(m: nat)
    requires m < 11
    ensures MonthOffset(m + 1) - MonthOffset(m)
         == (if m == 1 || m == 3 || m == 6 || m == 8 then 30 else 31)
    ensures MonthOffset(0) == 0 && MonthOffset(11) == 337
  {
  }

  lemma YearFloor(y: nat)
    ensures 1461 * y / 4 == 365 * y + y / 4
  {
  }

  lemma CenturyFloor(c: nat)
    ensures 146097 * c / 4 == 36524 * c + c / 4
  {
  }

  /** Days from 1 March of year 0 to 1 March of year y. */
  function YearDays(y: nat): int {
    1461 * (y % 100) / 4 + 146097 * (y / 100) / 4
  }

  lemma LeapParts(c: nat, n: nat)
    requires n < 100
    ensures IsLeapYear(100 * c + n) <==> if n == 0 then c % 4 == 0 else n % 4 == 0
  {
    var y := 100 * c + n;
    Division(y, 100, c, n);
    Division(y, 400, c / 4, 100 * (c % 4) + n);
    Division(y, 4, 25 * c + n / 4, n % 4);
  }

  /** The year that begins on 1 March of y has 366 days exactly when year y + 1 is a leap year. */
  lemma MarchYearLength(y: nat)
    ensures YearDays(y + 1) - YearDays(y) == YearLength(y + 1)
  {
    var c, n := y / 100, y % 100;
    YearFloor(n);
    CenturyFloor(c);
    if n < 99 {
      YearFloor(n + 1);
      LeapParts(c, n + 1);
      assert (y + 1) / 100 == c && (y + 1) % 100 == n + 1;
    } else {
      CenturyFloor(c + 1);
      LeapParts(c + 1, 0);
      assert (y + 1) / 100 == c + 1 && (y + 1) % 100 == 0;
    }
  }

  /** The number of a covered date, by the year that begins on 1 March. */
  lemma NumberByMarchYear(d: Date)
    requires Covered(d)
    ensures Number(d) == EPOCH + YearDays(AdjYear(d.month, d.year)) + MonthOffset(AdjMonth(d.month)) + d.day
  {
  }

  /** The day after the last of a month is the first of the next, counted from March. */
  lemma NextMonth(d: Date)
    requires Covered(d) && d.day == DaysInMonth(d.month, d.year)
    ensures var y, m, n := AdjYear(d.month, d.year), AdjMonth(d.month), Next(d);
      && n.day == 1 && AdjMonth(n.month) == (if m < 11 then m + 1 else 0)
      && AdjYear(n.month, n.year) == (if m < 11 then y else y + 1)
      && d.day == if m == 11 then YearLength(y + 1) - 337 else if m == 1 || m == 3 || m == 6 || m == 8 then 30 else 31
  {
    hide IsLeapYear;
  }

  /** The next date has the next number. */
  lemma NextNumber(d: Date)
    requires Covered(d)
    ensures Covered(Next(d)) && Number(Next(d)) == Number(d) + 1
  {
    hide Number, YearDays, MonthOffset, DaysInMonth, YearLength;
    var y, m := AdjYear(d.month, d.year), AdjMonth(d.month);
    NumberByMarchYear(d);
    if d.day == DaysInMonth(d.month, d.year) {
      NextMonth(d);
      NumberByMarchYear(Next(d));
      if m < 11 { MonthLengths(m); } else { MonthLengths(0); MarchYearLength(y); }
    } else {
      NumberByMarchYear(Next(d));
    }
  }

  // ----- The formulas against the calendar -----

  const FIRST := Date(3, 1, 0)

  lemma {:induction false} NumberCounts(d: Date, n: nat)
    requires Covered(d)
    ensures Covered(AfterDays(d, n)) && Number(AfterDays(d, n)) == Number(d) + n
  {
    hide Number;
    if n > 0 {
      NumberCounts(d, n - 1);
      NextNumber(AfterDays(d, n - 1));
    }
  }

  /** q is the day of the year that begins on 1 March: month and day come back from it. */
  lemma MonthAndDay(d: Date)
    requires Covered(d)
    ensures var m, q := AdjMonth(d.month), d.day + MonthOffset(AdjMonth(d.month));
      1 <= q <= YearLength(AdjYear(d.month, d.year) + 1) && (5 * q - 3) / 153 == m && (5 * q - 153 * m + 2) / 5 == d.day
  {
  }

  /** Dividing out the centuries. */
  lemma CenturyOf(c: nat, r: int)
    requires 1 <= r <= (if c % 4 == 3 then 36525 else 36524)
    ensures var a := 4 * (r + 146097 * c / 4);
      (a - 1) / 146097 == c && (a - 146097 * c - 1) / 4 * 4 == 4 * (r - 1)
  {
    CenturyFloor(c);
    var a := 4 * (r + 146097 * c / 4);
    assert a - 1 == 146097 * c + (4 * r - 1 - c % 4);
    Division(a - 1, 146097, c, 4 * r - 1 - c % 4);
  }

  /** Dividing out the years of a century. */
  lemma YearOf(y: nat, q: int)
    requires 1 <= q <= (if y % 4 == 3 then 366 else 365)
    ensures var c := 4 * (q + 1461 * y / 4 - 1);
      (c + 3) / 1461 == y && (c - 1461 * y + 7) / 4 == q
  {
    YearFloor(y);
    var c := 4 * (q + 1461 * y / 4 - 1);
    assert c + 3 == 1461 * y + (4 * q - 1 - y % 4);
    Division(c + 3, 1461, y, 4 * q - 1 - y % 4);
  }

  /** A day of a year lies within its century. */
  lemma WithinCentury(c: nat, y: nat, q: int)
    requires y < 100 && 1 <= q <= YearLength(100 * c + y + 1)
    ensures 1 <= q <= (if y % 4 == 3 then 366 else 365)
    ensures 1 <= q + 1461 * y / 4 <= (if c % 4 == 3 then 36525 else 36524)
  {
    YearFloor(y);
    if y < 99 {
      LeapParts(c, y + 1);
    } else {
      LeapParts(c + 1, 0);
    }
  }

  /** Mdy, given the values its lines take. */
  lemma MdyLines(j: int, b: int, c: int, d: int, q: int, f: int)
    requires j > EPOCH
    requires b == (4 * (j - EPOCH) - 1) / 146097 && c == (4 * (j - EPOCH) - 146097 * b - 1) / 4 * 4
    requires d == (c + 3) / 1461 && q == (c - 1461 * d + 7) / 4 && f == (5 * q - 3) / 153
    requires d >= 0 && b >= 0 && f >= 0 && (5 * q - 153 * f + 2) / 5 >= 0
    ensures var day := (5 * q - 153 * f + 2) / 5;
      Mdy(j) == if f > 9 then Date(f - 9, day, d + 100 * b + 1) else Date(f + 3, day, d + 100 * b)
  {
  }

  lemma NumberParts(d: Date, c: nat, n: nat)
    requires Covered(d) && AdjYear(d.month, d.year) == 100 * c + n && n < 100
    ensures Number(d) - EPOCH == d.day + MonthOffset(AdjMonth(d.month)) + 1461 * n / 4 + 146097 * c / 4
  {
    Division(AdjYear(d.month, d.year), 100, c, n);
  }

  /** Every covered date comes back from its number. */
  lemma MdyOfJday(d: Date)
    requires Covered(d)
    ensures Number(d) > EPOCH && Mdy(Number(d)) == d
  {
    var y, m := AdjYear(d.month, d.year), AdjMonth(d.month);
    var q := d.day + MonthOffset(m);
    var c, n := y / 100, y % 100;
    MonthAndDay(d);
    NumberParts(d, c, n);
    WithinCentury(c, n, q);
    CenturyOf(c, q + 1461 * n / 4);
    YearOf(n, q);
    MdyLines(Number(d), c, 4 * (q + 1461 * n / 4 - 1), n, q, m);
  }

  lemma NumberIsInjective(a: Date, b: Date)
    requires Covered(a) && Covered(b) && Number(a) == Number(b)
    ensures a == b
  {
    MdyOfJday(a);
    MdyOfJday(b);
  }

  /** The number of a date counts the days since 1 March of year 0; and every number past the
      epoch is the number of exactly the date that Mdy gives. */
  lemma JdayOfMdy(j: int)
    requires j > EPOCH
    ensures Covered(Mdy(j)) && Number(Mdy(j)) == j
    ensures Mdy(j) == AfterDays(FIRST, j - EPOCH - 1)
  {
    assert Covered(FIRST) && Number(FIRST) == EPOCH + 1;
    hide Number, Covered, Mdy;
    NumberCounts(FIRST, j - EPOCH - 1);
    MdyOfJday(AfterDays(FIRST, j - EPOCH - 1));
  }

  /** Numbers order dates as the calendar does. */
  lemma NumberIsMonotone(a: Date, b: Date)
    requires Covered(a) && Covered(b)
    ensures Before(a, b) <==> Number(a) < Number(b)
  {
    if Number(a) < Number(b) {
      NumbersInOrder(a, b);
    } else if Number(b) < Number(a) {
      NumbersInOrder(b, a);
    } else {
      NumberIsInjective(a, b);
    }
  }

  lemma NumbersInOrder(a: Date, b: Date)
    requires Covered(a) && Covered(b) && Number(a) < Number(b)
    ensures Before(a, b)
  {
    var n := Number(b) - Number(a);
    NumberCounts(a, n);
    NumberIsInjective(AfterDays(a, n), b);
    LaterIsAfter(a, n);
  }

  // ----- Constructors, weekdays -----

  /** The number given to a day of a year. */
  function FromDayOfYear(day: nat, year: nat): int {
    if year != 0 then day + Jday(12, 31, year - 1) else day + 2415386
  }

  /** The n-th day of a year gets the number of the n-th day of that year. */
  lemma FromDayOfYearIsThatDay(n: nat, year: nat)
    requires year > 0 && 1 <= n <= YearLength(year)
    ensures var d := Mdy(FromDayOfYear(n, year));
      Covered(d) && d.year == year && DayOfYear(d) == n
  {
    hide DayOfYear, YearLength, Mdy;
    var last := Date(12, 31, year - 1);
    NthDayOfYear(year, n);
    NumberCounts(last, n);
    assert FromDayOfYear(n, year) == Number(AfterDays(last, n)) by { hide AfterDays, Next, Jday; }
    MdyOfJday(AfterDays(last, n));
  }

  /** Year 0 stands for the year 1901 counted from 0: day n is n days after 1 January 1901. */
  lemma YearZeroIs1901(n: nat)
    ensures Mdy(FromDayOfYear(n, 0)) == AfterDays(Date(1, 1, 1901), n)
  {
    var first := Date(1, 1, 1901);
    NewYear1901();
    NumberCounts(first, n);
    MdyOfJday(AfterDays(first, n));
  }

  lemma NewYear1901()
    ensures Number(Date(1, 1, 1901)) == 2415386
  {
  }

  function DayOfWeek(j: nat): nat {
    ((j + 1) % 7 + 6) % 7 + 1
  }

  function Previous(j: nat, days: nat): int
    requires 1 <= days <= 7
  {
    var dow, d := DayOfWeek(j) - 1, days - 1;
    var offset := if d <= dow then dow - d else 7 - d + dow;
    j - offset
  }

  lemma DayIsRemainder(j: nat, q: nat, r: nat)
    requires j == 7 * q + r && r < 7
    ensures j % 7 == r && DayOfWeek(j) == r + 1
  {
    Division(j, 7, q, r);
    Division(j + 1, 7, if r == 6 then q + 1 else q, if r == 6 then 0 else r + 1);
  }

  /** Weekdays run 1 to 7 from Monday, each following the one before. */
  lemma WeekdaysCycle(j: nat)
    ensures 1 <= DayOfWeek(j) <= 7
    ensures DayOfWeek(j + 1) == DayOfWeek(j) % 7 + 1
  {
    hide DayOfWeek;
    var q, r := j / 7, j % 7;
    DayIsRemainder(j, q, r);
    DayIsRemainder(j + 1, if r == 6 then q + 1 else q, if r == 6 then 0 else r + 1);
  }

  lemma SameWeekday(j: nat, k: nat)
    requires -7 < j - k < 7 && DayOfWeek(j) == DayOfWeek(k)
    ensures j == k
  {
    hide DayOfWeek;
    DayIsRemainder(j, j / 7, j % 7);
    DayIsRemainder(k, k / 7, k % 7);
  }

  /** 1 January 2000, a Saturday, is day 6 of the week. */
  lemma KnownSaturday()
    ensures DayOfWeek(2451545) == 6 && Number(Date(1, 1, 2000)) == 2451545
  {
    hide DayOfWeek;
    DayIsRemainder(2451545, 350220, 5);
  }

  /** Previous finds the only one of the last seven days, today included, on the asked weekday. */
  lemma PreviousIsThatWeekday(j: nat, days: nat)
    requires j >= 6 && 1 <= days <= 7
    ensures var p := Previous(j, days);
      && j - 6 <= p <= j && DayOfWeek(p) == days
      && forall k: nat :: j - 6 <= k <= j && DayOfWeek(k) == days ==> k == p
  {
    hide DayOfWeek;
    var q, r, d := j / 7, j % 7, days - 1;
    DayIsRemainder(j, q, r);
    var p := Previous(j, days);
    DayIsRemainder(p, if d <= r then q else q - 1, d);
    forall k: nat | j - 6 <= k <= j && DayOfWeek(k) == days
      ensures k == p
    {
      SameWeekday(k, p);
    }
  }
}

/** The same formulas as the source evaluates them, in unsigned 32-bit arithmetic. */
module RzDate32 {
  import opened Arithmetic
  import opened Calendar
  import opened RzDate

  const WORD := 0x1_0000_0000
  type uint32 = x: int | 0 <= x < WORD

  function W(x: int): uint32 {
    x % WORD
  }

  function Jday32(month: uint32, day: uint32, year: uint32): uint32 {
    if !DayWithinMonth(month, day, year) then 0
    else
      var y := if month <= 2 then W(year - 1) else year;
      var m := if month <= 2 then month + 9 else month - 3;
      W(day + (153 * m + 2) / 5 + W(1461 * (y % 100)) / 4 + W(146097 * (y / 100)) / 4 + EPOCH)
  }

  /** The first three lines: the century, and the days into it. */
  function Century32(jday: uint32): (uint32, uint32) {
    var a := W(4 * W(jday - EPOCH));
    var b := W(a - 1) / 146097;
    (b, W(W(a - W(146097 * b)) - 1) / 4 * 4)
  }

  /** The lines that follow. */
  function Rest32(b: uint32, c: uint32): Date {
    var d := W(c + 3) / 1461;
    var e := W(5 * (W(W(c - W(1461 * d)) + 7) / 4));
    var f := W(e - 3) / 153;
    var day := W(W(e - W(153 * f)) + 2) / 5;
    var year := W(d + 100 * b);
    if f > 9 then Date(f - 9, day, W(year + 1)) else Date(f + 3, day, year)
  }

  function Mdy32(jday: uint32): Date {
    var (b, c) := Century32(jday);
    Rest32(b, c)
  }

  function DayOfWeek32(jday: uint32): uint32 {
    (W(jday + 1) % 7 + 6) % 7 + 1
  }

  /** Any number may be asked for as the weekday. */
  function Previous32(jday: uint32, days: uint32): uint32 {
    var dow, d := DayOfWeek32(jday) - 1, W(days - 1);
    var offset := if d <= dow then dow - d else W(W(7 - d) + dow);
    W(jday - offset)
  }

  lemma WrapMinus(x: int, y: int)
    ensures W(W(x) - y) == W(x - y)
    ensures W(x - W(y)) == W(x - y)
    ensures W(W(x) + y) == W(x + y)
  {
    var p, q := x / WORD, y / WORD;
    assert W(x) - y == (x - y) - WORD * p;
    assert x - W(y) == (x - y) + WORD * q;
    assert W(x) + y == (x + y) - WORD * p;
    ModShift(x - y, -p);
    ModShift(x - y, q);
    ModShift(x + y, -p);
  }

  lemma ModShift(x: int, q: int)
    ensures (x + WORD * q) % WORD == x % WORD
  {
    Division(x + WORD * q, WORD, x / WORD + q, x % WORD);
  }

  lemma PreviousInWeek(j: uint32, days: uint32)
    requires 6 <= j < WORD - 1 && 1 <= days <= 7
    ensures Previous32(j, days) == Previous(j, days)
  {
    hide DayOfWeek, DayOfWeek32, W;
    SameDay32(j);
    DayIsRemainder(j, j / 7, j % 7);
    var d, dow := days - 1, j % 7;
    Small(d);
    if d > dow {
      Small(7 - d);
      Small(7 - d + dow);
      Small(j - (7 - d + dow));
    } else {
      Small(j - (dow - d));
    }
  }

  lemma SameDay32(j: uint32)
    requires j < WORD - 1
    ensures DayOfWeek32(j) == DayOfWeek(j)
  {
  }

  /** Asked for day 0, it goes back to the Sunday before the last, as 0 wraps to the largest number. */
  lemma PreviousOfNone(j: uint32)
    requires 14 <= j < WORD - 1
    ensures Previous32(j, 0) == j - 7 - DayOfWeek(j) && DayOfWeek(Previous32(j, 0)) == 7
  {
    hide DayOfWeek, DayOfWeek32;
    SameDay32(j);
    DayIsRemainder(j, j / 7, j % 7);
    assert W(-1) == WORD - 1 && W(7 - (WORD - 1)) == 8;
    DayIsRemainder(j - 7 - DayOfWeek(j), j / 7 - 2, 6);
  }

  /** Asked for a day past the week, it goes forward from the start of the week by that many, and
      finds that day counted round the week: unless the sum wraps, when it is four days out. */
  lemma PreviousPastWeek(j: uint32, days: uint32)
    requires j < WORD - 1 && 7 < days
    ensures var p := j + days - 7 - DayOfWeek(j);
      && Previous32(j, days) == (if p < WORD then p else p - WORD)
      && DayOfWeek(Previous32(j, days)) == (if p < WORD then (days - 1) % 7 + 1 else (days + 2) % 7 + 1)
  {
    hide DayOfWeek, DayOfWeek32, W;
    SameDay32(j);
    DayIsRemainder(j, j / 7, j % 7);
    var d, dow := days - 1, j % 7;
    var p := j + d - 7 - dow;
    Small(d);
    WrapMinus(7 - d, dow);
    WrapMinus(j, 7 - d + dow);
    assert j - (7 - d + dow) == p;
    DayIsRemainder(d, d / 7, d % 7);
    var q := j / 7 - 1 + d / 7;
    if p < WORD {
      Small(p);
      DayIsRemainder(p, q, d % 7);
    } else {
      ModShift(p, -1);
      assert W(p) == W(p - WORD) by { WrapIsShift(p); }
      Small(p - WORD);
      FourOut(p - WORD, q, d);
    }
  }

  lemma WrapIsShift(p: int)
    ensures W(p) == W(p - WORD)
  {
    ModShift(p, -1);
  }

  /** The word is four more than a multiple of seven. */
  lemma FourOut(k: nat, q: int, d: nat)
    requires k + WORD == 7 * q + d % 7
    ensures DayOfWeek(k) == (d + 3) % 7 + 1
  {
    hide DayOfWeek;
    var r := d % 7;
    var back := q - WORD / 7;
    assert k == 7 * back + r - 4;
    DayIsRemainder(k, if r < 4 then back - 1 else back, if r < 4 then r + 3 else r - 4);
    Division(d + 3, 7, d / 7 + (if r < 4 then 0 else 1), if r < 4 then r + 3 else r - 4);
  }

  /** In 32 bits a covered date gets its true number exactly when the year counted from 1 March
      is below 2939900: beyond it the product for the centuries wraps. */
  lemma Jday32IsExact(d: Date)
    requires Covered(d) && d.year < WORD
    ensures d.day < WORD && (Jday32(d.month, d.day, d.year) == Number(d) <==> AdjYear(d.month, d.year) < 2939900)
  {
    var y := AdjYear(d.month, d.year);
    var v := 146097 * (y / 100);
    var front := d.day + MonthOffset(AdjMonth(d.month)) + 1461 * (y % 100) / 4 + EPOCH;
    NumberByMarchYear(d);
    assert Number(d) == front + v / 4;
    Small(1461 * (y % 100));
    Jday32Lines(d, y, W(v));
    CenturiesWrap(front, v);
    assert v < WORD <==> y / 100 < 29399;
  }

  lemma Jday32Lines(d: Date, y: nat, wv: uint32)
    requires Covered(d) && d.year < WORD && d.day < WORD && y == AdjYear(d.month, d.year)
    requires wv == W(146097 * (y / 100)) && W(1461 * (y % 100)) == 1461 * (y % 100)
    ensures Jday32(d.month, d.day, d.year)
         == W(d.day + MonthOffset(AdjMonth(d.month)) + 1461 * (y % 100) / 4 + EPOCH + wv / 4)
  {
    if d.month <= 2 {
      Small(d.year - 1);
    }
  }

  lemma CenturiesWrap(front: int, v: nat)
    requires 0 <= front < 0x20_0000
    ensures W(front + W(v) / 4) == front + v / 4 <==> v < WORD
  {
    var k := v / WORD;
    assert v == 4 * (0x4000_0000 * k) + W(v);
    Division(v, 4, 0x4000_0000 * k + W(v) / 4, W(v) % 4);
    assert W(front + W(v) / 4) == front + W(v) / 4;
  }

  /** The same split over unbounded integers. */
  function Century(jday: int): (int, int) {
    var a := 4 * (jday - EPOCH);
    var b := (a - 1) / 146097;
    (b, (a - 146097 * b - 1) / 4 * 4)
  }

  predicate InCentury(b: int, c: int) {
    b >= 0 && 0 <= c < 146097
  }

  function Rest(b: int, c: int): Date
    requires InCentury(b, c)
  {
    var d := (c + 3) / 1461;
    var e := 5 * ((c - 1461 * d + 7) / 4);
    var f := (e - 3) / 153;
    var day := (e - 153 * f + 2) / 5;
    var year := d + 100 * b;
    if f > 9 then Date(f - 9, day, year + 1) else Date(f + 3, day, year)
  }

  lemma MdySplits(j: int)
    requires j > EPOCH
    ensures var (b, c) := Century(j); InCentury(b, c) && Mdy(j) == Rest(b, c)
  {
  }

  lemma YearsOfCentury(c: int)
    requires 0 <= c < 146097
    ensures var d := (c + 3) / 1461; 0 <= d <= 100 && -3 <= c - 1461 * d < 1461
  {
  }

  lemma Small(x: int)
    requires 0 <= x < WORD
    ensures W(x) == x
  {
  }

  /** A difference that may wrap below zero comes right once enough is added. */
  lemma DipsAndReturns(x: int, y: int, z: int)
    requires 0 <= y < WORD && 0 <= x - y + z < WORD
    ensures W(W(x - W(y)) + z) == x - y + z
  {
    Small(y);
    WrapMinus(x - y, z);
    Small(x - y + z);
  }

  /** Rest32, given the values its lines take. */
  lemma Rest32Lines(b: uint32, c: uint32, d: int, q: int, f: int)
    requires W(c + 3) / 1461 == d && W(W(c - W(1461 * d)) + 7) / 4 == q
    requires 0 <= q < 400 && W(5 * q - 3) / 153 == f && 0 <= f < 13
    requires b <= 29398 && 0 <= d <= 100
    ensures Rest32(b, c) == (
      var day := W(W(5 * q - W(153 * f)) + 2) / 5;
      if f > 9 then Date(f - 9, day, d + 100 * b + 1) else Date(f + 3, day, d + 100 * b))
  {
    Small(5 * q);
    Small(d + 100 * b);
    Small(d + 100 * b + 1);
  }

  lemma RestAgrees(b: uint32, c: uint32)
    requires InCentury(b, c) && b <= 29398
    ensures Rest32(b, c) == Rest(b, c)
  {
    hide W, Rest32;
    YearsOfCentury(c);
    var d := (c + 3) / 1461;
    var q := (c - 1461 * d + 7) / 4;
    var f := (5 * q - 3) / 153;
    MonthsOfYear(q);
    Small(c + 3);
    DipsAndReturns(c, 1461 * d, 7);
    Small(5 * q - 3);
    DipsAndReturns(5 * q, 153 * f, 2);
    Rest32Lines(b, c, d, q, f);
  }

  lemma MonthsOfYear(q: int)
    requires 1 <= q <= 367
    ensures var f := (5 * q - 3) / 153; 0 <= f < 12 && 0 <= 5 * q - 153 * f + 2
  {
  }

  lemma RestYear(b: int, c: int)
    requires InCentury(b, c)
    ensures 100 * b <= Rest(b, c).year <= 100 * b + 101
  {
    YearsOfCentury(c);
  }

  /** The number past the epoch, brought into 1 to 2^30 by whole multiples of 2^30. */
  function Folded(j: uint32): (r: int)
    ensures EPOCH < r <= EPOCH + 0x4000_0000
  {
    EPOCH + 1 + (j - EPOCH - 1) % 0x4000_0000
  }

  lemma FoldedWraps(j: uint32)
    ensures W(W(4 * W(j - EPOCH)) - 1) == 4 * (Folded(j) - EPOCH) - 1
  {
    hide W;
    var x := j - EPOCH;
    var k, r := (x - 1) / 0x4000_0000, Folded(j) - EPOCH;
    WrapMinus(4 * W(x), -1);
    WrapTimes(x);
    assert 4 * x - 1 == 4 * r - 1 + WORD * k;
    ModShift(4 * r - 1, k);
    Small(4 * r - 1);
    WrapOf(4 * r - 1, 4 * x - 1);
  }

  lemma WrapTimes(x: int)
    ensures W(4 * W(x) - 1) == W(4 * x - 1)
  {
    var q := x / WORD;
    assert 4 * W(x) - 1 == 4 * x - 1 + WORD * (-4 * q);
    ModShift(4 * x - 1, -4 * q);
  }

  lemma WrapOf(x: int, y: int)
    requires x % WORD == y % WORD
    ensures W(x) == W(y)
  {
  }

  /** The century in 32 bits, and the days into it, are those of the folded number. */
  lemma CenturyFolds(j: uint32)
    ensures Century32(j) == Century(Folded(j))
    ensures var (b, c) := Century(Folded(j)); InCentury(b, c) && b <= 29398
  {
    hide W, Folded;
    var u := 4 * (Folded(j) - EPOCH) - 1;
    FoldedWraps(j);
    DaysFit(W(4 * W(j - EPOCH)), u, u / 146097);
  }

  /** In 32 bits every number, below the epoch too, gives the date of the folded one. */
  lemma Mdy32Folds(j: uint32)
    ensures Mdy32(j) == Mdy(Folded(j))
  {
    hide Century, Century32, Rest, Rest32, Folded, Mdy;
    var (b, c) := Century(Folded(j));
    CenturyFolds(j);
    MdySplits(Folded(j));
    RestAgrees(b, c);
  }

  /** In particular its true date, exactly when it is at most 2^30 past the epoch. */
  lemma Mdy32IsExact(j: uint32)
    requires j > EPOCH
    ensures Mdy32(j) == Mdy(j) <==> j - EPOCH <= 0x4000_0000
  {
    hide Mdy, Mdy32, Folded;
    Mdy32Folds(j);
    FoldedIsItself(j);
    if Mdy(Folded(j)) == Mdy(j) { MdyIsInjective(Folded(j), j); }
  }

  lemma MdyIsInjective(j: int, k: int)
    requires j > EPOCH && k > EPOCH && Mdy(j) == Mdy(k)
    ensures j == k
  {
    hide Mdy, Number;
    JdayOfMdy(j);
    JdayOfMdy(k);
  }

  lemma FoldedIsItself(j: uint32)
    requires j > EPOCH
    ensures Folded(j) == j <==> j - EPOCH <= 0x4000_0000
  {
    if j - EPOCH <= 0x4000_0000 { Division(j - EPOCH - 1, 0x4000_0000, 0, j - EPOCH - 1); }
  }

  lemma DaysFit(a32: uint32, u: uint32, b32: int)
    requires u == W(a32 - 1) && b32 == u / 146097
    ensures W(W(a32 - W(146097 * b32)) - 1) == u - 146097 * b32
  {
    WrapMinus(a32, 146097 * b32);
    WrapMinus(a32 - 146097 * b32, -1);
    WrapMinus(a32 - 1, -(146097 * b32));
    Small(u - 146097 * b32);
  }

  // ----- There and back in 32 bits -----

  /** Past the wrap of the century product, the date that comes back is some 29,395 centuries early. */
  lemma FarDatesAreLost(d: Date)
    requires Covered(d) && d.year < WORD && d.day < WORD && AdjYear(d.month, d.year) >= 2939900
    ensures Mdy32(Jday32(d.month, d.day, d.year)).year + 2939500 <= d.year
  {
    hide Mdy, Mdy32, Jday32, Century, Rest;
    var c := AdjYear(d.month, d.year) / 100;
    var j := NumberPastWrap(d);
    var k := Folded(j);
    Mdy32Folds(j);
    MdySplits(k);
    var (b, e) := Century(k);
    RestYear(b, e);
    assert k <= j;
    CenturyIsEarly(k, c);
  }

  lemma CenturyIsEarly(k: int, c: int)
    requires k > EPOCH && 4 * (k - EPOCH) - 1 < 146097 * (c - 29396)
    ensures Century(k).0 <= c - 29397
  {
  }

  /** A number whose century product wrapped. */
  lemma NumberPastWrap(d: Date) returns (j: uint32)
    requires Covered(d) && d.year < WORD && d.day < WORD && AdjYear(d.month, d.year) >= 2939900
    ensures j == Jday32(d.month, d.day, d.year) && j > EPOCH
    ensures 4 * (j - EPOCH) - 1 < 146097 * (AdjYear(d.month, d.year) / 100 - 29396)
  {
    hide W, Jday32;
    var y := AdjYear(d.month, d.year);
    var v := 146097 * (y / 100);
    var front := d.day + MonthOffset(AdjMonth(d.month)) + 1461 * (y % 100) / 4;
    Small(1461 * (y % 100));
    Jday32Lines(d, y, W(v));
    Small(front + EPOCH + W(v) / 4);
    Wraps(v);
    j := Jday32(d.month, d.day, d.year);
  }

  lemma Wraps(x: int)
    requires x >= WORD
    ensures W(x) <= x - WORD
  {
  }

  /** In 32 bits a covered date comes back from its number exactly when the number is at most
      2^30 past the epoch. */
  lemma RoundTrip32(d: Date)
    requires Covered(d) && d.year < WORD
    ensures d.day < WORD && (Mdy32(Jday32(d.month, d.day, d.year)) == d <==> Number(d) - EPOCH <= 0x4000_0000)
  {
    Jday32IsExact(d);
    MdyOfJday(d);
    if AdjYear(d.month, d.year) < 2939900 {
      Mdy32IsExact(Number(d));
    } else {
      FarDatesAreLost(d);
      FarNumber(d);
    }
  }

  lemma FarNumber(d: Date)
    requires Covered(d) && AdjYear(d.month, d.year) >= 2939900
    ensures Number(d) - EPOCH > 0x4000_0000
  {
    NumberByMarchYear(d);
  }
}
