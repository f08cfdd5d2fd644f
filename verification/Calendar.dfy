/** Calendar arithmetic in closed form, against counting days one at a time. */
module Calendar {

  /** Division that drops the fraction, towards zero. */
  function Quotient(a: int, b: int): int
    requires b > 0
  {
    if a >= 0 then a / b else -((-a) / b)
  }

  /** Years are counted from 1900. */
  function IsLeapYear(year: nat): bool {
    var leap := year % 4 == 0;
    var leap := if year % 100 == 0 then false else leap;
    if year % 400 == 100 then true else leap
  }

  /** How many leap years there are up to the end of a year. */
  function LeapYearsToEnd(year: int): int {
    Quotient(year, 4) - Quotient(year, 100) + Quotient(year + 300, 400)
  }

  function CountLeapYears(year: int): nat {
    if year < 0 then 0 else CountLeapYears(year - 1) + if IsLeapYear(year) then 1 else 0
  }

  /** The Gregorian rule, for the year itself. */
  lemma LeapRule(year: nat)
    ensures IsLeapYear(year) <==> (year + 1900) % 4 == 0 && ((year + 1900) % 100 != 0 || (year + 1900) % 400 == 0)
  {
    var q := year / 400;
    var r := year - 400 * q;
    HundredsDrop(q, r);
    assert year + 1900 == 400 * (q + 4) + (r + 300);
    HundredsDrop(q + 4, r + 300);
    SmallLeapRule(r);
  }

  lemma HundredsDrop(q: nat, r: nat)
    ensures (400 * q + r) % 4 == r % 4 && (400 * q + r) % 100 == r % 100 && (400 * q + r) % 400 == r % 400
  {
    FourRemainder(100 * q, r);
    HundredRemainder(4 * q, r);
    FourHundredRemainder(q, r);
    assert 4 * (100 * q) == 400 * q && 100 * (4 * q) == 400 * q;
  }

  lemma FourHundredRemainder(q: nat, r: nat)
    ensures (400 * q + r) % 400 == r % 400
  {
  }

  lemma FourRemainder(q: nat, r: nat)
    ensures (4 * q + r) % 4 == r % 4
  {
  }

  lemma HundredRemainder(q: nat, r: nat)
    ensures (100 * q + r) % 100 == r % 100
  {
  }

  lemma SmallLeapRule(r: nat)
    requires r < 400
    ensures r % 400 == r
    ensures (r % 4 == 0 && r % 100 != 0) || r == 100 <==>
            (r + 300) % 4 == 0 && ((r + 300) % 100 != 0 || (r + 300) % 400 == 0)
  {
    assert (r + 300) % 4 == r % 4;
    assert (r + 300) % 100 == r % 100;
    assert (r + 300) % 400 == if r < 100 then r + 300 else r - 100;
  }

  lemma FourthStep(n: nat)
    requires n > 0
    ensures n / 4 == (n - 1) / 4 + if n % 4 == 0 then 1 else 0
  {
  }

  lemma HundredthStep(n: nat)
    requires n > 0
    ensures n / 100 == (n - 1) / 100 + if n % 100 == 0 then 1 else 0
  {
  }

  lemma FourHundredthStep(n: nat)
    requires n > 0
    ensures n / 400 == (n - 1) / 400 + if n % 400 == 0 then 1 else 0
  {
  }

  lemma HundredIsFours(n: nat)
    ensures n % 100 == 0 ==> n % 4 == 0
  {
    if n % 100 == 0 {
      var q := n / 100;
      assert n == 100 * q;
      FourTimes(25 * q);
    }
  }

  lemma FourTimes(q: nat)
    ensures (4 * q) % 4 == 0
  {
  }

  lemma HundredInFour(n: nat)
    ensures n % 400 == 100 ==> n % 100 == 0
  {
    var q := n / 400;
    assert n % 400 == 100 ==> n == 100 * (4 * q + 1);
  }

  lemma ThreeHundredMore(n: nat)
    ensures (n + 300) % 400 == 0 <==> n % 400 == 100
  {
    var q, r := n / 400, n % 400;
    assert n + 300 == 400 * q + (r + 300);
    assert r < 100 ==> n + 300 == 400 * q + (r + 300) && r + 300 < 400;
    assert r >= 100 ==> n + 300 == 400 * (q + 1) + (r - 100);
  }

  lemma LeapStep(year: nat)
    ensures LeapYearsToEnd(year) == LeapYearsToEnd(year - 1) + if IsLeapYear(year) then 1 else 0
  {
    if year > 0 {
      FourthStep(year);
      HundredthStep(year);
      HundredIsFours(year);
      HundredInFour(year);
    }
    ThreeHundredMore(year);
    FourHundredthStep(year + 300);
  }

  /** The closed form counts exactly the leap years. */
  lemma {:induction false} LeapYearsCounted(year: int)
    requires year >= -1
    ensures LeapYearsToEnd(year) == CountLeapYears(year)
  {
    if year >= 0 {
      LeapYearsCounted(year - 1);
      LeapStep(year);
    }
  }

  // ---------------------------------------------------------------------------
  // Dates, one after the other.

  datatype Date = Date(year: int, mon: int, mday: int)

  const DAYS_TO_MONTH_START: seq<int> := [0, 31, 59, 90, 120, 151, 181, 212, 243, 273, 304, 334]

  function MonthLength(year: nat, mon: int): int {
    if mon == 1 then if IsLeapYear(year) then 29 else 28
    else if mon == 3 || mon == 5 || mon == 8 || mon == 10 then 30 else 31
  }

  /** Thirty days have September, April, June and November. */
  lemma MonthLengths(year: nat, mon: nat)
    requires mon < 12
    ensures MonthLength(year, mon) ==
            [31, if IsLeapYear(year) then 29 else 28, 31, 30, 31, 30, 31, 31, 30, 31, 30, 31][mon]
  {
    hide IsLeapYear;
  }

  predicate IsDate(d: Date) {
    d.year >= 0 && 0 <= d.mon < 12 && 1 <= d.mday <= MonthLength(d.year, d.mon)
  }

  const START := Date(0, 0, 1)
  const EPOCH := Date(70, 0, 1)

  function Previous(d: Date): (p: Date)
    requires IsDate(d) && d != START
    ensures IsDate(p)
  {
    if d.mday > 1 then Date(d.year, d.mon, d.mday - 1)
    else if d.mon > 0 then Date(d.year, d.mon - 1, MonthLength(d.year, d.mon - 1))
    else Date(d.year - 1, 11, 31)
  }

  /** Days since the start of 1900, counted one at a time. */
  function CountDays(d: Date): nat
    requires IsDate(d)
    decreases d.year, d.mon, d.mday
  {
    if d == START then 0 else 1 + CountDays(Previous(d))
  }

  // ---------------------------------------------------------------------------
  // The closed forms.

  function DayOfYear(d: Date): int
    requires IsDate(d)
  {
    d.mday - 1 + DAYS_TO_MONTH_START[d.mon] + if d.mon >= 2 && IsLeapYear(d.year) then 1 else 0
  }

  function DaysSinceEpoch(d: Date): int
    requires IsDate(d)
  {
    DayOfYear(d) + 365 * d.year - 25567 + LeapYearsToEnd(d.year - 1)
  }

  const OFFSET: seq<int> := [1, 4, 3, 6, 1, 4, 6, 2, 5, 0, 3, 5]

  function WeekSum(d: Date): int
    requires IsDate(d)
  {
    var year := if d.mon < 2 then d.year - 1 else d.year;
    year + LeapYearsToEnd(year) + OFFSET[d.mon] + d.mday
  }

  function DayOfWeek(d: Date): int
    requires IsDate(d)
  {
    WeekSum(d) % 7
  }

  lemma StepBack(d: Date)
    requires IsDate(d) && d != START
    ensures DaysSinceEpoch(d) == DaysSinceEpoch(Previous(d)) + 1
  {
    hide LeapYearsToEnd, IsLeapYear;
    if d.mday == 1 && d.mon == 0 {
      LeapStep(d.year - 1);
    }
  }

  /** From one day to the next the sum grows by one, but for whole weeks. */
  lemma WeekStep(d: Date)
    requires IsDate(d) && d != START
    ensures var n := WeekSum(Previous(d)) + 1; WeekSum(d) == n || WeekSum(d) == n - 28 || WeekSum(d) == n - 35
  {
    if d.mday == 1 && d.mon == 2 {
      LeapStep(d.year);
    }
    hide LeapYearsToEnd, IsLeapYear;
  }

  lemma SameWeekday(a: int, b: int)
    requires a == b || a == b - 28 || a == b - 35
    ensures a % 7 == b % 7
  {
  }

  lemma {:induction false} DaysCounted(d: Date)
    requires IsDate(d)
    ensures DaysSinceEpoch(d) == CountDays(d) - 25567
    decreases d.year, d.mon, d.mday
  {
    if d != START {
      DaysCounted(Previous(d));
      StepBack(d);
    }
  }

  /** The weekdays follow each other, and the epoch was a Thursday. */
  lemma {:induction false} WeekdayCounted(d: Date)
    requires IsDate(d)
    ensures DayOfWeek(d) == (DaysSinceEpoch(d) + 4) % 7
    decreases d.year, d.mon, d.mday
  {
    hide WeekSum, DaysSinceEpoch, LeapYearsToEnd, IsLeapYear;
    if d == START {
      StartWeekday();
    } else {
      WeekdayCounted(Previous(d));
      StepBack(d);
      WeekStep(d);
      var n := WeekSum(Previous(d));
      SameWeekday(WeekSum(d), n + 1);
      WeekdayStep(n, DaysSinceEpoch(Previous(d)) + 4);
    }
  }

  lemma StartWeekday()
    ensures WeekSum(START) == 1 && DaysSinceEpoch(START) == -25567
  {
  }

  lemma WeekdayStep(a: int, b: int)
    requires a % 7 == b % 7
    ensures (a + 1) % 7 == (b + 1) % 7
  {
  }

  /** A broken-down time. */
  class Tm {
    var sec: int
    var min: int
    var hour: int
    var mday: int
    var mon: int
    var year: int
    var wday: int
    var yday: int

    ghost function GetDate(): Date
      reads this
    {
      Date(year, mon, mday)
    }

    constructor (sec: int, min: int, hour: int, date: Date)
      ensures this.sec == sec && this.min == min && this.hour == hour && GetDate() == date
    {
      this.sec, this.min, this.hour, mday, mon, year, wday, yday := sec, min, hour, date.mday, date.mon, date.year, 0, 0;
    }

    /**
     Seconds since the epoch: those of the days counted one at a time from the epoch, and
     those of the time of day.  Fills in the day of the year and of the week.
     */
    method Mktime() returns (seconds: int)
      requires IsDate(GetDate())
      modifies `wday, `yday
      ensures seconds == 86400 * (CountDays(GetDate()) - CountDays(EPOCH)) + (hour * 60 + min) * 60 + sec
      ensures yday == CountDays(GetDate()) - CountDays(Date(year, 0, 1))
      ensures wday == (CountDays(GetDate()) - CountDays(EPOCH) + 4) % 7
    {
      hide CountDays, LeapYearsToEnd, IsLeapYear, DayOfWeek;
      ghost var d := GetDate();
      CountedAll(d);
      yday := mday - 1 + DAYS_TO_MONTH_START[mon];
      if mon >= 2 && IsLeapYear(year) {
        yday := yday + 1;
      }
      wday := DayOfWeek(Date(year, mon, mday));
      var days := yday + 365 * year - 25567 + LeapYearsToEnd(year - 1);
      var time := (hour * 60 + min) * 60 + sec;
      seconds := days * 86400 + time;
    }
  }

  lemma CountedAll(d: Date)
    requires IsDate(d)
    ensures DaysSinceEpoch(d) == CountDays(d) - CountDays(EPOCH)
    ensures DayOfYear(d) == CountDays(d) - CountDays(Date(d.year, 0, 1))
    ensures DayOfWeek(d) == (CountDays(d) - CountDays(EPOCH) + 4) % 7
  {
    hide CountDays, LeapYearsToEnd, IsLeapYear, DayOfWeek;
    DaysCounted(d);
    DaysCounted(EPOCH);
    DaysCounted(Date(d.year, 0, 1));
    WeekdayCounted(d);
    EpochIsZero();
  }

  /** Leap day in 2000 was the 11016th day after the epoch, and a Tuesday. */
  lemma KnownDay()
    ensures var d := Date(100, 1, 29);
            && IsDate(d) && CountDays(d) - CountDays(EPOCH) == 11016 && (CountDays(d) - CountDays(EPOCH) + 4) % 7 == 2
  {
    hide CountDays;
    var d := Date(100, 1, 29);
    assert IsDate(d) && DaysSinceEpoch(d) == 11016;
    CountedAll(d);
  }

  lemma EpochIsZero()
    ensures DaysSinceEpoch(EPOCH) == 0
  {
  }
}
