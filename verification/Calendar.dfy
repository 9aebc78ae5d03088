/** The calendar arithmetic of core/time.h and of sys_clock_settime, through the clock's CMOS registers. */
module Calendar {
  import opened Arithmetic
  import opened Fifo

  datatype Date = Date(year: nat, month: nat, day: nat, hour: nat, minute: nat, second: nat)

  predicate IsLeap(year: nat) {
    year % 4 == 0 && (year % 100 != 0 || year % 400 == 0)
  }

  function DaysInYear(year: nat): nat {
    if IsLeap(year) then 366 else 365
  }

  const DAYS_IN_MONTH: seq<nat> := [31, 28, 31, 30, 31, 30, 31, 31, 30, 31, 30, 31]

  function DaysInMonth(year: nat, month: nat): nat
    requires 1 <= month <= 12
  {
    DAYS_IN_MONTH[month - 1] + if month == 2 && IsLeap(year) then 1 else 0
  }

  /** Days from 1970 to the first day of `year`; none for the years before. */
  ghost function YearDays(year: nat): nat {
    if year <= 1970 then 0 else YearDays(year - 1) + DaysInYear(year - 1)
  }

  /** Days from the first day of `year` to the first day of `month`. */
  ghost function MonthDays(year: nat, month: nat): nat
    requires month <= 13
  {
    if month <= 1 then 0 else MonthDays(year, month - 1) + DaysInMonth(year, month - 1)
  }

  ghost predicate ValidDate(d: Date) {
    && d.year >= 1970 && 1 <= d.month <= 12 && 1 <= d.day <= DaysInMonth(d.year, d.month)
    && d.hour < 24 && d.minute < 60 && d.second < 60
  }

  ghost function Days(d: Date): int
    requires d.month <= 13
  {
    YearDays(d.year) + MonthDays(d.year, d.month) + d.day - 1
  }

  /** The seconds since the epoch that a date stands for. */
  ghost function Seconds(d: Date): int
    requires d.month <= 13
  {
    Days(d) * 86400 + d.hour * 3600 + d.minute * 60 + d.second
  }

  // ----- The calendar itself -----

  /** Counting leap years one by one agrees with the Gregorian rule in closed form. */
  lemma {:induction false} YearDaysGregorian(year: nat)
    requires year >= 1970
    ensures YearDays(year) == 365 * (year - 1970) + (year - 1) / 4 - (year - 1) / 100 + (year - 1) / 400 - 477
  {
    if year > 1970 {
      YearDaysGregorian(year - 1);
      Tick(year - 1, 4);
      Tick(year - 1, 100);
      Tick(year - 1, 400);
      CenturiesAreMultiples(year - 1);
    }
  }

  /** The days from 1 January 1970 to a date of the Gregorian calendar, in closed form. */
  ghost function Gregorian(year: nat, month: nat, day: nat): int
    requires year >= 1970 && 1 <= month <= 12
  {
    var leap := (year % 4 == 0 && year % 100 != 0) || year % 400 == 0;
    365 * (year - 1970) + (year - 1) / 4 - (year - 1) / 100 + (year - 1) / 400 - 477
    + (367 * month - 362) / 12 - (if month <= 2 then 0 else if leap then 1 else 2) + day - 1
  }

  /** The last day of a month: thirty days hath September. */
  ghost predicate InMonth(year: nat, month: nat, day: nat) {
    && 1 <= month <= 12
    && 1 <= day <= if month == 2 then (if (year % 4 == 0 && year % 100 != 0) || year % 400 == 0 then 29 else 28)
                   else if month == 4 || month == 6 || month == 9 || month == 11 then 30 else 31
  }

  /** Counting month by month agrees with the closed form. */
  lemma {:induction false} MonthDaysGregorian(year: nat, month: nat)
    requires 1 <= month <= 12
    ensures MonthDays(year, month) ==
            (367 * month - 362) / 12 - (if month <= 2 then 0 else if IsLeap(year) then 1 else 2)
  {
    if month > 1 { MonthDaysGregorian(year, month - 1); }
  }

  lemma LastDayOfMonth(year: nat, month: nat, day: nat)
    requires 1 <= month <= 12
    ensures 1 <= day <= DaysInMonth(year, month) <==> InMonth(year, month, day)
  {}

  lemma DaysGregorian(year: nat, month: nat, day: nat, before: nat, within: nat)
    requires year >= 1970 && 1 <= month <= 12 && before == YearDays(year) && within == MonthDays(year, month)
    ensures before + within + day - 1 == Gregorian(year, month, day)
  {
    YearDaysGregorian(year);
    MonthDaysGregorian(year, month);
  }

  /** A quotient grows exactly at the multiples. */
  lemma Tick(n: nat, k: nat)
    requires n > 0 && k > 1
    ensures n / k == (n - 1) / k + if n % k == 0 then 1 else 0
  {
    var q, r := (n - 1) / k, (n - 1) % k;
    assert n == q * k + r + 1;
    if r + 1 < k {
      Quotient(n, k, q, r + 1);
    } else {
      assert n == (q + 1) * k;
      Quotient(n, k, q + 1, 0);
    }
  }

  /** Every fourth century is a century, and every century is divisible by four. */
  lemma CenturiesAreMultiples(n: nat)
    ensures n % 400 == 0 ==> n % 100 == 0
    ensures n % 100 == 0 ==> n % 4 == 0
  {
    if n % 400 == 0 {
      Quotient(n, 100, 4 * (n / 400), 0);
    }
    if n % 100 == 0 {
      Quotient(n, 4, 25 * (n / 100), 0);
    }
  }

  lemma MonthsMakeYear(year: nat)
    ensures MonthDays(year, 13) == DaysInYear(year)
  {
    var leap := if IsLeap(year) then 1 else 0;
    assert MonthDays(year, 2) == 31;
    assert MonthDays(year, 3) == 59 + leap;
    assert MonthDays(year, 5) == 120 + leap by { assert MonthDays(year, 4) == 90 + leap; }
    assert MonthDays(year, 7) == 181 + leap by { assert MonthDays(year, 6) == 151 + leap; }
    assert MonthDays(year, 9) == 243 + leap by { assert MonthDays(year, 8) == 212 + leap; }
    assert MonthDays(year, 11) == 304 + leap by { assert MonthDays(year, 10) == 273 + leap; }
    assert MonthDays(year, 12) == 334 + leap;
  }

  lemma {:induction false} MonthsGrow(year: nat, m: nat, n: nat)
    requires 1 <= m < n <= 13
    ensures MonthDays(year, m) + DaysInMonth(year, m) <= MonthDays(year, n)
    decreases n
  {
    if m + 1 < n {
      MonthsGrow(year, m, n - 1);
    }
  }

  lemma {:induction false} YearsGrow(y: nat, z: nat)
    requires 1970 <= y < z
    ensures YearDays(y) + DaysInYear(y) + 365 * (z - y - 1) <= YearDays(z)
    decreases z
  {
    if y + 1 < z {
      YearsGrow(y, z - 1);
    }
  }

  lemma DayOfYear(d: Date)
    requires ValidDate(d)
    ensures MonthDays(d.year, d.month) + d.day <= DaysInYear(d.year)
  {
    MonthsGrow(d.year, d.month, 13);
    MonthsMakeYear(d.year);
  }

  /** A leap day moves a month's start by at most one day. */
  lemma {:induction false} LeapMovesOne(y: nat, z: nat, month: nat)
    requires month <= 13
    ensures MonthDays(y, month) <= MonthDays(z, month) + (if month > 2 then 1 else 0)
    decreases month
  {
    if month > 1 {
      LeapMovesOne(y, z, month - 1);
    }
  }

  /** Two dates with the same number of seconds are the same date. */
  lemma DateIsDetermined(a: Date, b: Date)
    requires ValidDate(a) && ValidDate(b) && Seconds(a) == Seconds(b)
    ensures a == b
  {
    assert Days(a) == Days(b);
    DayOfYear(a);
    DayOfYear(b);
    if a.year < b.year {
      YearsGrow(a.year, b.year);
    } else if b.year < a.year {
      YearsGrow(b.year, a.year);
    } else if a.month < b.month {
      MonthsGrow(a.year, a.month, b.month);
    } else if b.month < a.month {
      MonthsGrow(a.year, b.month, a.month);
    }
  }

  // ----- Loops -----

  /** `days_since_epoch`, in 64 bits: day 0 of the first month counts as minus one. */
  method DaysSinceEpoch(year: nat, month: nat, day: nat) returns (days: nat)
    requires month <= 13
    ensures days == (YearDays(year) + MonthDays(year, month) + day - 1) % MOD64
    ensures year >= 1970 && 1 <= month <= 12 ==> days == Gregorian(year, month, day) % 0x1_0000_0000_0000_0000
  {
    if year >= 1970 && 1 <= month <= 12 {
      DaysGregorian(year, month, day, YearDays(year), MonthDays(year, month));
    }
    days := 0;
    var y := 1970;
    while y < year
      invariant 1970 <= y && (y <= year || y == 1970) && days == YearDays(y)
    {
      days := days + if IsLeap(y) then 366 else 365;
      y := y + 1;
    }
    assert days == YearDays(year);
    var m := 1;
    while m < month
      invariant 1 <= m && (m <= month || m == 1) && days == YearDays(year) + MonthDays(year, m)
    {
      days := days + DAYS_IN_MONTH[m - 1];
      if m == 2 && IsLeap(year) {
        days := days + 1;
      }
      m := m + 1;
    }
    assert MonthDays(year, m) == MonthDays(year, month);
    days := (days + (day - 1)) % MOD64;
  }

  method SplitYear(total: nat) returns (year: nat, days: nat)
    ensures year >= 1970 && days < DaysInYear(year) && YearDays(year) + days == total
  {
    days := total;
    year := 1970;
    while days >= DaysInYear(year)
      invariant 1970 <= year && YearDays(year) + days == total
      decreases days
    {
      days := days - DaysInYear(year);
      year := year + 1;
    }
  }

  method SplitMonth(year: nat, dayOfYear: nat) returns (month: nat, day: nat)
    requires dayOfYear < DaysInYear(year)
    ensures 1 <= month <= 12 && 1 <= day <= DaysInMonth(year, month)
    ensures MonthDays(year, month) + day - 1 == dayOfYear
  {
    var days := dayOfYear;
    MonthsMakeYear(year);
    month := 1;
    while days >= DaysInMonth(year, month)
      invariant 1 <= month <= 12 && 0 <= days && MonthDays(year, month) + days == dayOfYear
      decreases days
    {
      days := days - DaysInMonth(year, month);
      month := month + 1;
    }
    day := days + 1;
  }

  /** The year and month loops of `sys_clock_settime`. */
  method SplitDays(total: nat) returns (year: nat, month: nat, day: nat)
    ensures year >= 1970 && 1 <= month <= 12 && 1 <= day <= DaysInMonth(year, month)
    ensures YearDays(year) + MonthDays(year, month) + day - 1 == total
    ensures InMonth(year, month, day) && Gregorian(year, month, day) == total
  {
    var days;
    year, days := SplitYear(total);
    month, day := SplitMonth(year, days);
    LastDayOfMonth(year, month, day);
    DaysGregorian(year, month, day, YearDays(year), MonthDays(year, month));
  }

  // ----- Registers -----

  function FromBcd(v: nat): nat {
    v % 16 + v / 16 * 10
  }

  function ToBcd(v: nat): nat {
    v / 10 * 16 + v % 10
  }

  lemma BcdRoundTrip(v: nat)
    requires v < 100
    ensures ToBcd(v) < 256 && FromBcd(ToBcd(v)) == v
  {
    assert ToBcd(v) / 16 == v / 10 && ToBcd(v) % 16 == v % 10;
  }

  /** The century the reader uses: the century register in BCD, or 20 when it is empty. */
  function CenturyOf(register: byte): (c: nat)
    ensures register == 0 ==> c == 20
    ensures register != 0 && register % 16 < 10 ==> c / 10 == register / 16 && c % 10 == register % 16
  {
    if register != 0 then FromBcd(register) else 20
  }

  /** A date written without its century is read back as the same second exactly when the century register
      agrees with it; in 1970 any century before 19 gives the same count too, because no year before 1970 adds days. */
  lemma ReadBackExactly(d: Date, century: nat)
    requires ValidDate(d)
    ensures Seconds(d.(year := century * 100 + d.year % 100)) == Seconds(d) <==>
            century == d.year / 100 || (d.year == 1970 && century < 19)
  {
    var read := century * 100 + d.year % 100;
    LeapMovesOne(read, d.year, d.month);
    LeapMovesOne(d.year, read, d.month);
    if read == d.year {
    } else if read > d.year {
      YearsGrow(d.year, read);
    } else if read >= 1970 {
      YearsGrow(read, d.year);
    } else if d.year > 1970 {
      YearsGrow(1970, d.year);
    } else {
      MonthsOfCommonYears(read, 1970, d.month);
    }
  }

  lemma {:induction false} MonthsOfCommonYears(y: nat, z: nat, month: nat)
    requires !IsLeap(y) && !IsLeap(z) && month <= 13
    ensures MonthDays(y, month) == MonthDays(z, month)
    decreases month
  {
    if month > 1 {
      MonthsOfCommonYears(y, z, month - 1);
    }
  }

  /** Whatever the century register says, the count fits in 64 bits. */
  lemma StaysSmall(d: Date)
    requires d.year < 20000 && 1 <= d.month <= 12 && 1 <= d.day < 100 && d.hour < 100 && d.minute < 100
    requires d.second < 100
    ensures 0 <= Seconds(d) < MOD64
  {
    YearDaysBound(d.year);
    MonthDaysBound(d.year, d.month);
  }

  lemma {:induction false} YearDaysBound(year: nat)
    ensures YearDays(year) <= 366 * year
  {
    if year > 1970 {
      YearDaysBound(year - 1);
    }
  }

  lemma {:induction false} MonthDaysBound(year: nat, month: nat)
    requires month <= 13
    ensures MonthDays(year, month) <= 31 * month
  {
    if month > 1 {
      MonthDaysBound(year, month - 1);
    }
  }

  lemma ReadBackCount(d: Date, read: Date, register: byte, century: nat, back: nat)
    requires ValidDate(d) && century == CenturyOf(register) && read == d.(year := century * 100 + d.year % 100)
    requires back == Seconds(read) % MOD64
    ensures back == Seconds(d) <==> century == d.year / 100 || (d.year == 1970 && century < 19)
  {
    ReadBackExactly(d, century);
    CenturyIsSmall(register);
    assert d.day <= 31;
    StaysSmall(read);
    Below(Seconds(read), MOD64);
  }

  lemma CenturyIsSmall(register: byte)
    ensures CenturyOf(register) <= 165
  {}

  class Rtc {
    var second: byte
    var minute: byte
    var hour: byte
    var day: byte
    var month: byte
    var year: byte
    const century: byte
    const binary: bool

    function Coded(v: nat): nat {
      if binary then v else ToBcd(v)
    }

    function Plain(v: nat): nat {
      if binary then v else FromBcd(v)
    }

    /** The register holds the number, or its two decimal digits in two halves of four bits. */
    ghost predicate Spells(register: byte, v: nat) {
      if binary then register == v else register / 16 == v / 10 && register % 16 == v % 10
    }

    /** The date the registers spell out. */
    function Shown(): Date
      reads this
    {
      Date(CenturyOf(century) * 100 + Plain(year), Plain(month), Plain(day), Plain(hour), Plain(minute), Plain(second))
    }

    lemma CodedRoundTrip(v: nat)
      requires v < 100
      ensures Coded(v) < 256 && Plain(Coded(v)) == v && Spells(Coded(v), v)
    {
      BcdRoundTrip(v);
    }

    /** `rtc_write_datetime`. The century is computed but never written. */
    method WriteDatetime(d: Date)
      requires d.month < 100 && d.day < 100 && d.hour < 100 && d.minute < 100 && d.second < 100
      modifies this
      ensures Shown() == d.(year := CenturyOf(century) * 100 + d.year % 100)
      ensures Spells(second, d.second) && Spells(minute, d.minute) && Spells(hour, d.hour)
      ensures Spells(day, d.day) && Spells(month, d.month) && Spells(year, d.year % 100)
    {
      CodedRoundTrip(d.second);
      CodedRoundTrip(d.minute);
      CodedRoundTrip(d.hour);
      CodedRoundTrip(d.day);
      CodedRoundTrip(d.month);
      CodedRoundTrip(d.year % 100);
      second, minute, hour := Coded(d.second), Coded(d.minute), Coded(d.hour);
      day, month, year := Coded(d.day), Coded(d.month), Coded(d.year % 100);
    }

    /** `sys_clock_settime`; the date it wrote is returned. */
    method SetTime(sec: nat) returns (d: Date)
      modifies this
      ensures ValidDate(d) && Seconds(d) == sec
      ensures Shown() == d.(year := CenturyOf(century) * 100 + d.year % 100)
      ensures InMonth(d.year, d.month, d.day) && d.hour < 24 && d.minute < 60 && d.second < 60
      ensures sec == Gregorian(d.year, d.month, d.day) * 86400 + d.hour * 3600 + d.minute * 60 + d.second
    {
      var days, rem := sec / 86400, sec % 86400;
      var hours := rem / 3600;
      rem := rem % 3600;
      var y, mo, da := SplitDays(days);
      d := Date(y, mo, da, hours, rem / 60, rem % 60);
      WriteDatetime(d);
    }

    /** `get_epoch_seconds`, when no update is in progress. */
    method EpochSeconds() returns (sec: nat)
      requires Shown().month <= 13
      ensures sec == Seconds(Shown()) % MOD64
      ensures var d := Shown();
              d.year >= 1970 && 1 <= d.month <= 12 ==>
                sec == (Gregorian(d.year, d.month, d.day) * 86400 + d.hour * 3600 + d.minute * 60 + d.second)
                       % 0x1_0000_0000_0000_0000
    {
      var d := Shown();
      if d.year >= 1970 && 1 <= d.month <= 12 {
        DaysGregorian(d.year, d.month, d.day, YearDays(d.year), MonthDays(d.year, d.month));
      }
      var days := DaysSinceEpoch(d.year, d.month, d.day);
      WrapLate(Days(d), 86400, d.hour * 3600 + d.minute * 60 + d.second, MOD64);
      sec := (days * 86400 + (d.hour * 3600 + d.minute * 60 + d.second)) % MOD64;
    }

    /** Setting the clock and reading it gives the same count back exactly when the century register fits. */
    method SetThenRead(sec: nat) returns (d: Date, back: nat)
      modifies this
      ensures ValidDate(d) && Seconds(d) == sec
      ensures back == sec <==> CenturyOf(century) == d.year / 100 || (d.year == 1970 && CenturyOf(century) < 19)
    {
      d := SetTime(sec);
      back := EpochSeconds();
      ReadBackCount(d, Shown(), century, CenturyOf(century), back);
    }
  }
}
