/**
 The date arithmetic behind automatic archiving (src/modules/blogs/blogs.service.ts,
 calculateArchiveDate), after ECMA-262 section 21.4.1: time values are UTC milliseconds since
 the epoch, days may be negative, and a day past the end of a month runs into the next one.
 */
module Calendar {

  const MS_PER_DAY := 86400000

  predicate Leap(y: int) {
    y % 4 == 0 && (y % 100 != 0 || y % 400 == 0)
  }

  /** Day number of 1 January (DayFromYear). */
  function DayFromYear(y: int): int {
    365 * (y - 1970) + (y - 1969) / 4 - (y - 1901) / 100 + (y - 1601) / 400
  }

  function DaysBefore(m: nat, leap: bool): nat
    requires m < 12
  {
    var plain := [0, 31, 59, 90, 120, 151, 181, 212, 243, 273, 304, 334][m];
    if leap && m >= 2 then plain + 1 else plain
  }

  /** Months are counted from January of year 0: month `m` of year `y` is 12 * y + m. */
  function YearOf(month: int): int {
    month / 12
  }

  function MonthInYear(month: int): (m: nat)
    ensures m < 12
  {
    month % 12
  }

  function FirstDay(month: int): int {
    DayFromYear(YearOf(month)) + DaysBefore(MonthInYear(month), Leap(YearOf(month)))
  }

  function Length(month: int): nat {
    match MonthInYear(month)
    case 1 => if Leap(YearOf(month)) then 29 else 28
    case 3 => 30
    case 5 => 30
    case 8 => 30
    case 10 => 30
    case _ => 31
  }

  lemma FourStep(y: int)
    ensures (y - 1968) / 4 == (y - 1969) / 4 + if y % 4 == 0 then 1 else 0
  {
  }

  lemma HundredStep(y: int)
    ensures (y - 1900) / 100 == (y - 1901) / 100 + if y % 100 == 0 then 1 else 0
  {
  }

  lemma FourHundredStep(y: int)
    ensures (y - 1600) / 400 == (y - 1601) / 400 + if y % 400 == 0 then 1 else 0
  {
  }

  lemma CenturiesAreFours(y: int)
    ensures y % 400 == 0 ==> y % 100 == 0
    ensures y % 100 == 0 ==> y % 4 == 0
  {
  }

  lemma YearLength(y: int)
    ensures DayFromYear(y + 1) == DayFromYear(y) + if Leap(y) then 366 else 365
  {
    FourStep(y);
    HundredStep(y);
    FourHundredStep(y);
    CenturiesAreFours(y);
  }

  /** Consecutive months tile the calendar: the next one starts where this one ends. */
  lemma MonthsTile(month: int)
    ensures FirstDay(month + 1) == FirstDay(month) + Length(month)
  {
    var y, m := YearOf(month), MonthInYear(month);
    if m == 11 {
      assert YearOf(month + 1) == y + 1 && MonthInYear(month + 1) == 0;
      YearLength(y);
    } else {
      assert YearOf(month + 1) == y && MonthInYear(month + 1) == m + 1;
    }
  }

  lemma LengthTable(month: int)
    ensures var m := MonthInYear(month);
            if m == 1 then 28 <= Length(month) <= 29
            else Length(month) == if m == 3 || m == 5 || m == 8 || m == 10 then 30 else 31
  {
  }

  lemma NextMonth(month: int)
    ensures MonthInYear(month + 1) == if MonthInYear(month) == 11 then 0 else MonthInYear(month) + 1
    ensures YearOf(month + 1) == if MonthInYear(month) == 11 then YearOf(month) + 1 else YearOf(month)
  {
  }

  // ---- The calendar itself ---------------------------------------------------------------------

  /** Day 0 is 1 January 1970. */
  lemma Epoch()
    ensures FirstDay(12 * 1970) == 0
  {
  }

  /** Years are counted from their first January, and 400 of them are 146097 days. */
  lemma FourCenturies(y: int)
    ensures FirstDay(12 * y) == DayFromYear(y)
    ensures DayFromYear(y + 400) == DayFromYear(y) + 146097
  {
    YearAndMonth(y, 0);
    FirstOfCycle(y);
    hide YearOf, MonthInYear, Leap;
  }

  lemma FirstOfCycle(y: int)
    ensures (y + 400 - 1969) / 4 == (y - 1969) / 4 + 100
    ensures (y + 400 - 1901) / 100 == (y - 1901) / 100 + 4
    ensures (y + 400 - 1601) / 400 == (y - 1601) / 400 + 1
  {
  }

  /** The leap years: every fourth, but of the centuries only every fourth. */
  lemma LeapYears(y: int)
    ensures y % 4 != 0 ==> !Leap(y)
    ensures y % 4 == 0 && y % 100 != 0 ==> Leap(y)
    ensures y % 100 == 0 ==> (Leap(y) <==> y % 400 == 0)
    ensures DayFromYear(y + 1) - DayFromYear(y) == if Leap(y) then 366 else 365
  {
    YearLength(y);
    CenturiesAreFours(y);
  }

  /** January to December, in any year. */
  lemma MonthLengths(y: int)
    ensures Length(12 * y) == 31 && Length(12 * y + 1) == if Leap(y) then 29 else 28
    ensures Length(12 * y + 2) == 31 && Length(12 * y + 3) == 30 && Length(12 * y + 4) == 31
    ensures Length(12 * y + 5) == 30 && Length(12 * y + 6) == 31 && Length(12 * y + 7) == 31
    ensures Length(12 * y + 8) == 30 && Length(12 * y + 9) == 31 && Length(12 * y + 10) == 30
    ensures Length(12 * y + 11) == 31
  {
    hide Leap;
    YearAndMonth(y, 0);
    YearAndMonth(y, 1);
    YearAndMonth(y, 2);
    YearAndMonth(y, 3);
    YearAndMonth(y, 4);
    YearAndMonth(y, 5);
    YearAndMonth(y, 6);
    YearAndMonth(y, 7);
    YearAndMonth(y, 8);
    YearAndMonth(y, 9);
    YearAndMonth(y, 10);
    YearAndMonth(y, 11);
    hide YearOf, MonthInYear;
  }

  lemma YearAndMonth(y: int, m: nat)
    requires m < 12
    ensures YearOf(12 * y + m) == y && MonthInYear(12 * y + m) == m
  {
  }

  // ---- From a day number to a date ------------------------------------------------------

  /** `day` is the `date`-th of `month`. */
  predicate IsDate(day: int, month: int, date: nat) {
    1 <= date <= Length(month) && day == FirstDay(month) + date - 1
  }

  function SearchMonth(day: int, from: int): (month: int)
    requires FirstDay(from) <= day
    ensures from <= month && FirstDay(month) <= day < FirstDay(month) + Length(month)
    decreases day - FirstDay(from)
  {
    hide FirstDay;
    MonthsTile(from);
    LengthTable(from);
    if day < FirstDay(from) + Length(from) then from else SearchMonth(day, from + 1)
  }

  /** A month that starts on or before the day, close enough to search from. */
  function SearchStart(day: int): int {
    if day >= 0 then 12 * 1970 else 12 * (1970 + day / 365)
  }

  lemma SearchStartIsEarly(day: int)
    ensures FirstDay(SearchStart(day)) <= day
  {
    if day < 0 {
      var q := day / 365;
      assert YearOf(12 * (1970 + q)) == 1970 + q && MonthInYear(12 * (1970 + q)) == 0;
      assert 365 * q <= day;
    }
  }

  function MonthOf(day: int): int {
    SearchStartIsEarly(day);
    SearchMonth(day, SearchStart(day))
  }

  function DateOf(day: int): nat {
    SearchStartIsEarly(day);
    day - FirstDay(MonthOf(day)) + 1
  }

  lemma {:induction false} FirstDayMonotone(a: int, b: int)
    requires a <= b
    ensures FirstDay(b) >= FirstDay(a) + 28 * (b - a)
    decreases b - a
  {
    hide FirstDay;
    if a < b {
      FirstDayMonotone(a, b - 1);
      MonthsTile(b - 1);
    }
  }

  /** Every day is a date, and only that one. */
  lemma DatesAreUnique(day: int, month: int, date: nat)
    ensures IsDate(day, MonthOf(day), DateOf(day))
    ensures IsDate(day, month, date) ==> month == MonthOf(day) && date == DateOf(day)
  {
    hide FirstDay;
    SearchStartIsEarly(day);
    var found := MonthOf(day);
    if IsDate(day, month, date) {
      if month < found {
        MonthsTile(month);
        FirstDayMonotone(month + 1, found);
      } else if found < month {
        MonthsTile(found);
        FirstDayMonotone(found + 1, month);
      }
    }
  }

  // ---- Time values ---------------------------------------------------------------------------

  function Day(t: int): int {
    t / MS_PER_DAY
  }

  function TimeWithinDay(t: int): nat {
    t % MS_PER_DAY
  }

  function MakeDay(year: int, month: int, date: int): int {
    FirstDay(12 * year + month) + date - 1
  }

  function MakeDate(day: int, time: nat): int {
    day * MS_PER_DAY + time
  }

  lemma DateIsSmall(day: int)
    ensures 1 <= DateOf(day) <= 31
  {
    hide FirstDay, MonthOf, DateOf;
    DatesAreUnique(day, MonthOf(day), DateOf(day));
    LengthTable(MonthOf(day));
  }

  lemma SplitTime(day: int, t: int)
    ensures Day(MakeDate(day, TimeWithinDay(t))) == day
    ensures TimeWithinDay(MakeDate(day, TimeWithinDay(t))) == TimeWithinDay(t)
  {
  }

  /** The JavaScript Date object, as far as the service uses it. */
  class JsDate {
    var time: int

    constructor (time: int)
      ensures this.time == time
    {
      this.time := time;
    }

    function GetMonth(): nat
      reads this
    {
      MonthInYear(MonthOf(Day(time)))
    }

    function GetFullYear(): int
      reads this
    {
      YearOf(MonthOf(Day(time)))
    }

    function GetDate(): nat
      reads this
    {
      DateOf(Day(time))
    }

    /** The time of day stays; a date the month lacks runs into the month after. */
    method SetMonth(month: int)
      modifies this
      ensures TimeWithinDay(time) == TimeWithinDay(old(time))
      ensures DateMovedTo(Day(time), 12 * old(GetFullYear()) + month, old(GetDate()))
    {
      hide FirstDay, MonthOf, DateOf, YearOf, MonthInYear, Day, TimeWithinDay, MakeDate, MakeDay, DateMovedTo;
      DateIsSmall(Day(time));
      MakeDayMoves(GetFullYear(), month, GetDate());
      SplitTime(MakeDay(GetFullYear(), month, GetDate()), time);
      time := MakeDate(MakeDay(GetFullYear(), month, GetDate()), TimeWithinDay(time));
    }

    /** The same month and date of another year, 29 February becoming 1 March where there is none. */
    method SetFullYear(year: int)
      modifies this
      ensures TimeWithinDay(time) == TimeWithinDay(old(time))
      ensures DateMovedTo(Day(time), 12 * year + old(GetMonth()), old(GetDate()))
    {
      hide FirstDay, MonthOf, DateOf, YearOf, MonthInYear, Day, TimeWithinDay, MakeDate, MakeDay, DateMovedTo;
      DateIsSmall(Day(time));
      MakeDayMoves(year, GetMonth(), GetDate());
      SplitTime(MakeDay(year, GetMonth(), GetDate()), time);
      time := MakeDate(MakeDay(year, GetMonth(), GetDate()), TimeWithinDay(time));
    }
  }

  /** `day` is the `date`-th of `target`, or as far into the next month as `date` exceeds it. */
  predicate DateMovedTo(day: int, target: int, date: nat) {
    if date <= Length(target) then MonthOf(day) == target && DateOf(day) == date
    else MonthOf(day) == target + 1 && DateOf(day) == date - Length(target)
  }

  lemma MakeDayMoves(year: int, month: int, date: nat)
    requires 1 <= date <= 31
    ensures DateMovedTo(MakeDay(year, month, date), 12 * year + month, date)
  {
    hide FirstDay;
    var target, day := 12 * year + month, MakeDay(year, month, date);
    LengthTable(target);
    if date <= Length(target) {
      DatesAreUnique(day, target, date);
    } else {
      MonthsTile(target);
      LengthTable(target + 1);
      DatesAreUnique(day, target + 1, date - Length(target));
    }
  }

  // ---- Archive dates ---------------------------------------------------------------------------

  datatype Duration = ThreeMonths | SixMonths | OneYear | ThreeYears

  function Months(d: Duration): nat {
    match d
    case ThreeMonths => 3
    case SixMonths => 6
    case OneYear => 12
    case ThreeYears => 36
  }

  /** The same date `k` months on; an absent date runs over into the month after. */
  function ShiftDay(day: int, k: nat): int {
    FirstDay(MonthOf(day) + k) + DateOf(day) - 1
  }

  function ArchiveTime(t: int, d: Duration): int {
    MakeDate(ShiftDay(Day(t), Months(d)), TimeWithinDay(t))
  }

  lemma MonthIsYearAndMonth(month: int)
    ensures month == 12 * YearOf(month) + MonthInYear(month)
  {
  }

  lemma TimeFromDay(t: int)
    ensures t == MakeDate(Day(t), TimeWithinDay(t))
  {
  }

  /** Moving a date `k` months on, with its overflow, is the shift of its day. */
  lemma MovedIsShifted(moved: int, day: int, k: nat)
    requires DateMovedTo(moved, MonthOf(day) + k, DateOf(day))
    ensures moved == ShiftDay(day, k)
  {
    hide FirstDay, MonthOf, DateOf;
    DatesAreUnique(moved, MonthOf(moved), DateOf(moved));
    MonthsTile(MonthOf(day) + k);
  }

  method CalculateArchiveDate(publishedAt: int, duration: Duration) returns (t: int)
    ensures t == ArchiveTime(publishedAt, duration)
  {
    hide FirstDay, MonthOf, DateOf, DateMovedTo, YearOf, MonthInYear, Day, TimeWithinDay;
    var date := new JsDate(publishedAt);
    ghost var day := Day(publishedAt);
    MonthIsYearAndMonth(MonthOf(day));
    match duration {
      case ThreeMonths =>
        date.SetMonth(date.GetMonth() + 3);
      case SixMonths =>
        date.SetMonth(date.GetMonth() + 6);
      case OneYear =>
        date.SetFullYear(date.GetFullYear() + 1);
      case ThreeYears =>
        date.SetFullYear(date.GetFullYear() + 3);
    }
    t := date.time;
    MovedIsShifted(Day(t), day, Months(duration));
    TimeFromDay(t);
  }

  /** A date that every month has comes back 3, 6, 12 or 36 months later, at the same time of day. */
  lemma SameDateLater(t: int, d: Duration)
    requires DateOf(Day(t)) <= 28
    ensures var u, later := ArchiveTime(t, d), MonthOf(Day(t));
            && DateOf(Day(u)) == DateOf(Day(t)) && TimeWithinDay(u) == TimeWithinDay(t)
            && MonthOf(Day(u)) == later + match d {
                                            case ThreeMonths => 3
                                            case SixMonths => 6
                                            case OneYear => 12
                                            case ThreeYears => 36
                                          }
  {
    hide FirstDay, MonthOf, DateOf, Day, TimeWithinDay, MakeDate;
    var day, target := Day(t), MonthOf(Day(t)) + Months(d);
    SplitTime(ShiftDay(day, Months(d)), t);
    DateIsSmall(day);
    LengthTable(target);
    DatesAreUnique(ShiftDay(day, Months(d)), target, DateOf(day));
  }

  /** Total length of `k` months starting with `month`. */
  function MonthSum(month: int, k: nat): nat {
    if k == 0 then 0 else MonthSum(month, k - 1) + Length(month + k - 1)
  }

  lemma {:induction false} MonthSumSpan(month: int, k: nat)
    ensures FirstDay(month + k) == FirstDay(month) + MonthSum(month, k)
  {
    hide FirstDay;
    if k > 0 {
      MonthSumSpan(month, k - 1);
      MonthsTile(month + k - 1);
    }
  }

  /** Archiving moves a date by exactly the lengths of the months from its own on. */
  lemma ArchiveIsMonthSum(t: int, d: Duration)
    ensures ArchiveTime(t, d) == t + MS_PER_DAY * MonthSum(MonthOf(Day(t)), Months(d))
  {
    hide FirstDay;
    var day := Day(t);
    MonthSumSpan(MonthOf(day), Months(d));
    DatesAreUnique(day, MonthOf(day), DateOf(day));
    assert ShiftDay(day, Months(d)) == day + MonthSum(MonthOf(day), Months(d));
    assert t == day * MS_PER_DAY + TimeWithinDay(t);
  }

  lemma MonthSumsWritten(month: int)
    ensures MonthSum(month, 3) == Length(month) + Length(month + 1) + Length(month + 2)
    ensures MonthSum(month, 6) == MonthSum(month, 3) + Length(month + 3) + Length(month + 4) + Length(month + 5)
  {
    hide Length;
    assert MonthSum(month, 1) == Length(month);
    assert MonthSum(month, 2) == MonthSum(month, 1) + Length(month + 1);
    assert MonthSum(month, 4) == MonthSum(month, 3) + Length(month + 3);
    assert MonthSum(month, 5) == MonthSum(month, 4) + Length(month + 4);
  }

  /** Three months last 89 to 92 days, six months 181 to 184. */
  lemma QuarterAndHalf(month: int)
    ensures 89 <= MonthSum(month, 3) <= 92
    ensures 181 <= MonthSum(month, 6) <= 184
  {
    MonthSumsWritten(month);
    hide MonthSum, Length, MonthInYear;
    LengthTable(month);
    NextMonth(month);
    LengthTable(month + 1);
    NextMonth(month + 1);
    LengthTable(month + 2);
    NextMonth(month + 2);
    LengthTable(month + 3);
    NextMonth(month + 3);
    LengthTable(month + 4);
    NextMonth(month + 4);
    LengthTable(month + 5);
  }

  /** A year from a month lasts 366 days exactly when it takes in a 29 February. */
  lemma YearSum(month: int)
    ensures var y := if MonthInYear(month) <= 1 then YearOf(month) else YearOf(month) + 1;
            MonthSum(month, 12) == if Leap(y) then 366 else 365
  {
    hide DayFromYear, Leap, MonthSum;
    MonthSumSpan(month, 12);
    TwelveMonthsOn(month);
    YearLength(YearOf(month));
    hide YearOf, MonthInYear;
  }

  lemma TwelveMonthsOn(month: int)
    ensures YearOf(month + 12) == YearOf(month) + 1 && MonthInYear(month + 12) == MonthInYear(month)
  {
  }

  lemma {:induction false} MonthSumSplit(month: int, j: nat, k: nat)
    ensures MonthSum(month, j + k) == MonthSum(month, j) + MonthSum(month + j, k)
    decreases k
  {
    if k > 0 {
      MonthSumSplit(month, j, k - 1);
    }
  }

  lemma ThreeYearSum(month: int)
    ensures 1095 <= MonthSum(month, 36) <= 1096
  {
    hide Leap, MonthSum;
    MonthSumSplit(month, 12, 24);
    MonthSumSplit(month + 12, 12, 12);
    YearSum(month);
    YearSum(month + 12);
    YearSum(month + 24);
    var y := if MonthInYear(month) <= 1 then YearOf(month) else YearOf(month) + 1;
    TwelveMonthsOn(month);
    TwelveMonthsOn(month + 12);
    LeapYearsApart(y);
    hide YearOf, MonthInYear;
  }

  lemma LeapYearsApart(y: int)
    ensures !(Leap(y) && Leap(y + 1)) && !(Leap(y) && Leap(y + 2)) && !(Leap(y + 1) && Leap(y + 2))
  {
  }

  /** How many days each duration can take, for every publish date. */
  lemma ArchiveSpan(t: int, d: Duration)
    ensures exists days: nat ::
              && ArchiveTime(t, d) == t + MS_PER_DAY * days
              && match d {
                   case ThreeMonths => 89 <= days <= 92
                   case SixMonths => 181 <= days <= 184
                   case OneYear => 365 <= days <= 366
                   case ThreeYears => 1095 <= days <= 1096
                 }
  {
    var month := MonthOf(Day(t));
    ArchiveIsMonthSum(t, d);
    QuarterAndHalf(month);
    YearSum(month);
    ThreeYearSum(month);
  }

  /**
   Of two days the later one is shifted less far, or as far, exactly if it is in the very next month and the earlier
   one is so late in its month that the target month lacks the date and the overflow passes, or meets, its target.
   */
  lemma ShiftsMeetIff(a: int, b: int, k: nat)
    requires a < b
    ensures var next, excess := MonthOf(b) == MonthOf(a) + 1, DateOf(a) - Length(MonthOf(a) + k);
            && (ShiftDay(a, k) > ShiftDay(b, k) <==> next && excess > DateOf(b))
            && (ShiftDay(a, k) == ShiftDay(b, k) <==> next && excess == DateOf(b))
  {
    hide FirstDay, MonthOf, DateOf;
    var ma, mb := MonthOf(a), MonthOf(b);
    DatesAreUnique(a, ma, DateOf(a));
    DatesAreUnique(b, mb, DateOf(b));
    if mb < ma {
      MonthsTile(mb);
      FirstDayMonotone(mb + 1, ma);
    } else if mb == ma + 1 {
      MonthsTile(ma + k);
    } else if mb > ma + 1 {
      FirstDayMonotone(ma + k, mb + k);
      assert FirstDay(mb + k) >= FirstDay(ma + k) + 56;
    }
  }

  lemma MakeDateOrder(a: int, x: nat, b: int, y: nat)
    requires x < MS_PER_DAY && y < MS_PER_DAY
    ensures MakeDate(a, x) > MakeDate(b, y) <==> a > b || (a == b && x > y)
  {
  }

  /**
   Archiving is not monotone, and this is the only way it fails: the later publication is in the very next month, and
   the earlier one is so late in its month that the target month lacks the date and the overflow passes the later
   one's target, or meets it and the time of day decides.
   */
  lemma InversionIff(t: int, u: int, d: Duration)
    requires t < u
    ensures var late, early := DateOf(Day(t)), DateOf(Day(u));
            var excess := late - Length(MonthOf(Day(t)) + Months(d));
            ArchiveTime(t, d) > ArchiveTime(u, d) <==>
              && MonthOf(Day(u)) == MonthOf(Day(t)) + 1
              && (excess > early || (excess == early && TimeWithinDay(t) > TimeWithinDay(u)))
  {
    hide MakeDate, ShiftDay, MonthOf, DateOf, Length, Months;
    var a, b, k := Day(t), Day(u), Months(d);
    TimeFromDay(t);
    TimeFromDay(u);
    MakeDateOrder(b, TimeWithinDay(u), a, TimeWithinDay(t));
    MakeDateOrder(ShiftDay(a, k), TimeWithinDay(t), ShiftDay(b, k), TimeWithinDay(u));
    if a < b {
      ShiftsMeetIff(a, b, k);
    }
  }

  /**
   In every November before a common year: three months from the 30th is 2 March, a day later than
   three months from the next day, 1 December.
   */
  lemma NovemberOvertakesDecember(nov: int)
    requires MonthInYear(nov) == 10 && !Leap(YearOf(nov) + 1)
    ensures var nov30, dec1 := FirstDay(nov) + 29, FirstDay(nov + 1);
            && dec1 == nov30 + 1
            && ShiftDay(nov30, 3) == FirstDay(nov + 4) + 1
            && ShiftDay(dec1, 3) == FirstDay(nov + 4)
  {
    hide *;
    NovemberToMarch(nov);
    MonthsTile(nov);
    MonthsTile(nov + 3);
    ShiftFromDate(nov, 30, 3);
    ShiftFromDate(nov + 1, 1, 3);
  }

  /**
   In every November before a leap year: both of these days go to 1 March, so that a publication late on the 30th is
   archived after one early on 1 December.
   */
  lemma LateOvertakesEarly(nov: int, late: nat, early: nat)
    requires MonthInYear(nov) == 10 && Leap(YearOf(nov) + 1) && early < late < MS_PER_DAY
    ensures var t, u := MakeDate(FirstDay(nov) + 29, late), MakeDate(FirstDay(nov + 1), early);
            && t < u
            && ArchiveTime(t, ThreeMonths) == MakeDate(FirstDay(nov + 4), late)
            && ArchiveTime(u, ThreeMonths) == MakeDate(FirstDay(nov + 4), early)
            && ArchiveTime(t, ThreeMonths) > ArchiveTime(u, ThreeMonths)
  {
    hide FirstDay, Length, Leap, YearOf, MonthInYear, ShiftDay, MonthOf, DateOf;
    NovemberToMarch(nov);
    MonthsTile(nov);
    MonthsTile(nov + 3);
    ShiftFromDate(nov, 30, 3);
    ShiftFromDate(nov + 1, 1, 3);
  }

  lemma ShiftFromDate(month: int, date: nat, k: nat)
    requires 1 <= date <= Length(month)
    ensures ShiftDay(FirstDay(month) + date - 1, k) == FirstDay(month + k) + date - 1
  {
    hide FirstDay, Length;
    DatesAreUnique(FirstDay(month) + date - 1, month, date);
  }

  lemma NovemberToMarch(nov: int)
    requires MonthInYear(nov) == 10
    ensures Length(nov) == 30 && Length(nov + 1) == 31
    ensures Length(nov + 3) == if Leap(YearOf(nov) + 1) then 29 else 28
  {
    NextMonth(nov);
    NextMonth(nov + 1);
    NextMonth(nov + 2);
    hide MonthInYear, YearOf, Leap;
  }
}
