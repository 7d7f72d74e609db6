/** UTC dates of audit entries, computed from epoch seconds without a calendar library. */
module Civil {
  datatype Date = Date(y: int, m: int, d: int)

  datatype Stamp = Stamp(date: Date, h: nat, mi: nat, s: nat)

  /** Year of the four-hundred-year era, from the day of the era; years start on 1 March. */
  function YearOfEra(doe: nat): int {
    (doe - doe / 1460 + doe / 36524 - doe / 146096) / 365
  }

  function DateOf(days: nat): Date {
    var z := days + 719468;
    var era := z / 146097;
    var doe := z - era * 146097;
    var yoe := YearOfEra(doe);
    var y := yoe + era * 400;
    var doy := doe - (365 * yoe + yoe / 4 - yoe / 100);
    var mp := (5 * doy + 2) / 153;
    var d := doy - (153 * mp + 2) / 5 + 1;
    var m := if mp < 10 then mp + 3 else mp - 9;
    Date(if m <= 2 then y + 1 else y, m, d)
  }

  function StampOf(secs: nat): Stamp {
    var rem := secs % 86400;
    Stamp(DateOf(secs / 86400), rem / 3600, rem % 3600 / 60, rem % 60)
  }

  // ---- The Gregorian calendar -------------------------------------------------------------

  predicate Leap(y: int) { y % 4 == 0 && (y % 100 != 0 || y % 400 == 0) }

  function DaysIn(y: int, m: int): int {
    if m == 2 then (if Leap(y) then 29 else 28) else if m in {4, 6, 9, 11} then 30 else 31
  }

  predicate Gregorian(t: Date) { 1 <= t.m <= 12 && 1 <= t.d <= DaysIn(t.y, t.m) }

  function Tomorrow(t: Date): Date {
    if t.d < DaysIn(t.y, t.m) then t.(d := t.d + 1)
    else if t.m < 12 then Date(t.y, t.m + 1, 1)
    else Date(t.y + 1, 1, 1)
  }

  predicate Earlier(a: Date, b: Date) {
    a.y < b.y || (a.y == b.y && (a.m < b.m || (a.m == b.m && a.d < b.d)))
  }

  // ---- Years of an era, from March to February ------------------------------------------------

  function YearStart(k: int): int { 365 * k + k / 4 - k / 100 }

  /** Length of the year that starts in March of year `k` of an era: that of the February that ends it. */
  function YearLength(k: int): int { if Leap(k + 1) then 366 else 365 }

  lemma YearStep(k: int)
    requires 0 <= k < 399
    ensures YearStart(k + 1) == YearStart(k) + YearLength(k)
  {
  }

  lemma By1460(c: int, q: int, w: int)
    requires 0 <= w < 2920
    ensures (1460 * (25 * c + q) + w) / 1460 == 25 * c + q + if w < 1460 then 0 else 1
  {
  }

  lemma ByCentury(c: int, t: int)
    requires 0 <= c <= 3 && 0 <= t <= 36524 && (t == 36524 ==> c == 3)
    ensures (36524 * c + t) / 36524 - (36524 * c + t) / 146096 == c
  {
  }

  /** The divisor chain finds the year. */
  lemma YearOfStart(c: int, q: int, r: int, s: int)
    requires 0 <= c <= 3 && 0 <= q <= 24 && 0 <= r <= 3 && 0 <= s < YearLength(100 * c + 4 * q + r)
    ensures var k := 100 * c + 4 * q + r; YearOfEra(YearStart(k) + s) == k
  {
    hide YearStart;
    var k := 100 * c + 4 * q + r;
    StartOf(c, q, r);
    LongYear(c, q, r);
    var t := 1461 * q + 365 * r + s;
    By1460(c, q, 24 * c + q + 365 * r + s);
    ByCentury(c, t);
    assert YearStart(k) + s == 36524 * c + t == 1460 * (25 * c + q) + (24 * c + q + 365 * r + s);
  }

  lemma StartOf(c: int, q: int, r: int)
    requires 0 <= c <= 3 && 0 <= q <= 24 && 0 <= r <= 3
    ensures YearStart(100 * c + 4 * q + r) == 36524 * c + 1461 * q + 365 * r
  {
  }

  /** Only the last of four years can be long; of a century's last four, only the era's. */
  lemma LongYear(c: int, q: int, r: int)
    requires 0 <= c <= 3 && 0 <= q <= 24 && 0 <= r <= 3
    ensures YearLength(100 * c + 4 * q + r) == if r == 3 && (q < 24 || c == 3) then 366 else 365
  {
  }

  lemma YearFound(doe: int) returns (k: int)
    requires 0 <= doe < 146097
    ensures 0 <= k < 400 && YearStart(k) <= doe < YearStart(k) + YearLength(k)
  {
    k := 0;
    while k < 399 && YearStart(k + 1) <= doe
      invariant 0 <= k < 400 && YearStart(k) <= doe
    {
      k := k + 1;
    }
    if k < 399 { YearStep(k); }
  }

  /** The year of era is the one whose span holds the day. */
  lemma YearOfEraIs(doe: int, k: int)
    requires 0 <= k < 400 && YearStart(k) <= doe < YearStart(k) + YearLength(k)
    ensures YearOfEra(doe) == k
  {
    YearOfStart(k / 100, k % 100 / 4, k % 4, doe - YearStart(k));
  }

  // ---- Days of a year, from 1 March --------------------------------------------------------------

  /** First day of the month `mp`, March being month 0. */
  function MonthStart(mp: int): int { (153 * mp + 2) / 5 }

  function MonthOf(mp: int): int { if mp < 10 then mp + 3 else mp - 9 }

  /** The date of a day of a March-based year. */
  function InYear(y: int, doy: int): Date {
    var mp := (5 * doy + 2) / 153;
    var m := MonthOf(mp);
    Date(if m <= 2 then y + 1 else y, m, doy - MonthStart(mp) + 1)
  }

  lemma MonthFound(doy: int)
    requires 0 <= doy <= 365
    ensures var mp := (5 * doy + 2) / 153; 0 <= mp <= 11 && MonthStart(mp) <= doy < MonthStart(mp + 1)
  {
  }

  lemma MonthLength(y: int, mp: int)
    requires 0 <= mp < 11
    ensures MonthStart(mp + 1) - MonthStart(mp) == DaysIn(y, MonthOf(mp))
  {
  }

  /** Days of a March-based year are valid and follow each other day by day, into the next year. */
  lemma YearRuns(y: int, doy: int)
    requires 0 <= doy < (if Leap(y + 1) then 366 else 365)
    ensures Gregorian(InYear(y, doy))
    ensures InYear(y, doy).y >= y
    ensures Tomorrow(InYear(y, doy)) == if doy + 1 < (if Leap(y + 1) then 366 else 365) then InYear(y, doy + 1)
            else InYear(y + 1, 0)
  {
    hide MonthStart;
    var mp := (5 * doy + 2) / 153;
    MonthFound(doy);
    MonthEdges();
    if mp < 11 {
      MonthLength(y, mp);
      NextMonth(doy, mp);
    } else {
      LastMonth(doy);
    }
  }

  lemma MonthEdges()
    ensures MonthStart(0) == 0 && MonthStart(11) == 337
  {
  }

  lemma NextMonth(doy: int, mp: int)
    requires 0 <= mp < 11 && MonthStart(mp) <= doy < MonthStart(mp + 1)
    ensures (5 * (doy + 1) + 2) / 153 == if doy + 1 < MonthStart(mp + 1) then mp else mp + 1
  {
  }

  lemma LastMonth(doy: int)
    requires 337 <= doy <= 365
    ensures (5 * (doy + 1) + 2) / 153 == 11
  {
  }

  // ---- Days and dates ------------------------------------------------------------------------------

  lemma LeapInEra(era: int, k: int)
    ensures Leap(400 * era + k) == Leap(k)
  {
    Mod400(era, k);
    Mod100(4 * era, k);
    Mod4(100 * era, k);
  }

  lemma Mod400(a: int, k: int)
    ensures (400 * a + k) % 400 == k % 400
  {
  }

  lemma Mod100(a: int, k: int)
    ensures (100 * a + k) % 100 == k % 100
  {
  }

  lemma Mod4(a: int, k: int)
    ensures (4 * a + k) % 4 == k % 4
  {
  }

  lemma EraEnd()
    ensures YearStart(399) + YearLength(399) == 146097 && YearStart(0) == 0
  {
  }

  lemma {:induction false} BeforeEraEnd(k: int)
    requires 0 <= k < 400
    ensures 0 <= YearStart(k) && YearStart(k) + YearLength(k) <= 146097
  {
  }

  /** The date of day `doy` of year `k` of era `era`. */
  lemma Placed(days: nat, era: int, k: int, doy: int)
    requires 0 <= k < 400 && 0 <= doy < YearLength(k)
    requires days + 719468 == 146097 * era + YearStart(k) + doy
    ensures DateOf(days) == InYear(400 * era + k, doy)
    ensures Gregorian(DateOf(days)) && DaysFrom(DateOf(days)) == days
    ensures Tomorrow(DateOf(days)) == if doy + 1 < YearLength(k) then InYear(400 * era + k, doy + 1)
            else InYear(400 * era + k + 1, 0)
  {
    hide YearStart, YearLength, Tomorrow, Leap, DaysFrom, DaysIn, DateOf, InYear;
    DateIn(days, era, k, doy);
    LengthInEra(era, k);
    YearRuns(400 * era + k, doy);
    DaysFromInYear(era, k, doy);
  }

  lemma DateIn(days: nat, era: int, k: int, doy: int)
    requires 0 <= k < 400 && 0 <= doy < YearLength(k)
    requires days + 719468 == 146097 * era + YearStart(k) + doy
    ensures DateOf(days) == InYear(400 * era + k, doy)
  {
    hide YearOfEra, YearLength;
    var doe := YearStart(k) + doy;
    BeforeEraEnd(k);
    YearOfEraIs(doe, k);
    EraOf(days, era, doe);
  }

  lemma EraOf(days: nat, era: int, doe: int)
    requires days + 719468 == 146097 * era + doe && 0 <= doe < 146097
    ensures (days + 719468) / 146097 == era
  {
  }

  lemma LengthInEra(era: int, k: int)
    ensures YearLength(k) == if Leap(400 * era + k + 1) then 366 else 365
  {
    LeapInEra(era, k + 1);
  }

  /** Days from 1970-01-01 to a date. */
  function DaysFrom(t: Date): int {
    var y := if t.m <= 2 then t.y - 1 else t.y;
    var doy := MonthStart(if t.m > 2 then t.m - 3 else t.m + 9) + t.d - 1;
    146097 * (y / 400) + YearStart(y % 400) + doy - 719468
  }

  lemma DaysFromInYear(era: int, k: int, doy: int)
    requires 0 <= k < 400 && 0 <= doy <= 365
    ensures DaysFrom(InYear(400 * era + k, doy)) == 146097 * era + YearStart(k) + doy - 719468
  {
    hide YearStart;
    MonthFound(doy);
    assert (400 * era + k) / 400 == era && (400 * era + k) % 400 == k;
  }

  lemma Place(days: nat) returns (era: int, k: int, doy: int)
    ensures 0 <= k < 400 && 0 <= doy < YearLength(k)
    ensures days + 719468 == 146097 * era + YearStart(k) + doy
  {
    hide YearStart, YearLength;
    era := (days + 719468) / 146097;
    k := YearFound((days + 719468) % 146097);
    doy := (days + 719468) % 146097 - YearStart(k);
  }

  /** Every date is a valid one, and the next day's date is the next one of the calendar. */
  lemma DayByDay(days: nat)
    ensures Gregorian(DateOf(days)) && DateOf(days + 1) == Tomorrow(DateOf(days))
  {
    hide YearStart, YearLength, DateOf, Tomorrow, Gregorian, InYear;
    var era, k, doy := Place(days);
    Placed(days, era, k, doy);
    if doy + 1 < YearLength(k) {
      Placed(days + 1, era, k, doy + 1);
    } else if k < 399 {
      YearStep(k);
      LongEnough(k + 1);
      Placed(days + 1, era, k + 1, 0);
    } else {
      EraEnd();
      LongEnough(0);
      Placed(days + 1, era + 1, 0, 0);
    }
  }

  lemma LongEnough(k: int)
    ensures YearLength(k) > 0
  {
  }

  /** The calendar counted from the epoch. */
  function Calendar(days: nat): Date {
    if days == 0 then Date(1970, 1, 1) else Tomorrow(Calendar(days - 1))
  }

  lemma {:induction false} DateIsCalendar(days: nat)
    ensures DateOf(days) == Calendar(days)
  {
    hide Tomorrow, DateOf;
    if days == 0 {
      Epoch();
    } else {
      DateIsCalendar(days - 1);
      DayByDay(days - 1);
    }
  }

  lemma Epoch()
    ensures DateOf(0) == Date(1970, 1, 1)
  {
    hide DateOf;
    DateIn(0, 4, 369, 306);
  }

  lemma {:induction false} StrictlyIncreasing(a: nat, b: nat)
    requires a < b
    ensures Earlier(DateOf(a), DateOf(b))
    decreases b
  {
    hide DateOf;
    DayByDay(b - 1);
    if a < b - 1 {
      StrictlyIncreasing(a, b - 1);
    }
  }

  /** Days and dates from the epoch on are in bijection. */
  lemma DaysInverse(days: nat)
    ensures DaysFrom(DateOf(days)) == days
  {
    hide YearStart, YearLength, DateOf, DaysFrom;
    var era, k, doy := Place(days);
    Placed(days, era, k, doy);
  }

  lemma DatesInverse(t: Date)
    requires Gregorian(t) && DaysFrom(t) >= 0
    ensures DateOf(DaysFrom(t)) == t
  {
    hide YearStart, YearLength, DateOf, Leap;
    var y := if t.m <= 2 then t.y - 1 else t.y;
    var mp := if t.m > 2 then t.m - 3 else t.m + 9;
    var doy := MonthStart(mp) + t.d - 1;
    DayFits(t, y, mp);
    LengthInEra(y / 400, y % 400);
    Placed(DaysFrom(t), y / 400, y % 400, doy);
  }

  lemma DayFits(t: Date, y: int, mp: int)
    requires Gregorian(t) && y == (if t.m <= 2 then t.y - 1 else t.y) && mp == (if t.m > 2 then t.m - 3 else t.m + 9)
    ensures var doy := MonthStart(mp) + t.d - 1;
            0 <= doy < (if Leap(y + 1) then 366 else 365) && InYear(y, doy) == t
  {
    hide Leap;
    if mp < 11 {
      MonthLength(t.y, mp);
      SameMonth(mp, MonthStart(mp) + t.d - 1);
    }
  }

  lemma SameMonth(mp: int, doy: int)
    requires 0 <= mp < 11 && MonthStart(mp) <= doy < MonthStart(mp + 1)
    ensures (5 * doy + 2) / 153 == mp && doy < 337
  {
  }

  /** The time of day, and the whole stamp, lose nothing. */
  lemma StampInverse(secs: nat)
    ensures var t := StampOf(secs);
            && t.h < 24 && t.mi < 60 && t.s < 60
            && DaysFrom(t.date) * 86400 + t.h * 3600 + t.mi * 60 + t.s == secs
  {
    hide DateOf, DaysFrom;
    DaysInverse(secs / 86400);
  }
}
