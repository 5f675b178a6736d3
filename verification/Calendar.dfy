/** The proleptic Gregorian calendar over all integers: the leap rule, the day-by-day
    successor, and the closed forms behind `days_from_civil` and `civil_from_days`. */
module Calendar {
  datatype Date = Date(y: int, m: int, d: int)

  /** The leap rule of Appendix C of RFC 3339, for any integer year. */
  predicate IsLeap(y: int) {
    y % 4 == 0 && (y % 100 != 0 || y % 400 == 0)
  }

  function DaysInMonth(y: int, m: int): int {
    if m == 2 then (if IsLeap(y) then 29 else 28)
    else if m == 4 || m == 6 || m == 9 || m == 11 then 30
    else 31
  }

  predicate ValidDate(date: Date) {
    1 <= date.m <= 12 && 1 <= date.d <= DaysInMonth(date.y, date.m)
  }

  /** The next day by the rules of the calendar alone. */
  function NextDay(date: Date): Date {
    if date.d < DaysInMonth(date.y, date.m) then Date(date.y, date.m, date.d + 1)
    else if date.m < 12 then Date(date.y, date.m + 1, 1)
    else Date(date.y + 1, 1, 1)
  }

  /** The date `n` days after `from`, one day at a time. */
  function Walk(from: Date, n: nat): Date {
    if n == 0 then from else NextDay(Walk(from, n - 1))
  }

  predicate Before(a: Date, b: Date) {
    a.y < b.y || (a.y == b.y && (a.m < b.m || (a.m == b.m && a.d < b.d)))
  }

  // ---- The closed form of days_from_civil -------------------------------------------

  /** Years counted from 1 March, so that the leap day comes last. */
  function MarchYear(y: int, m: int): int { if m <= 2 then y - 1 else y }

  function MarchMonth(m: int): int { if m > 2 then m - 3 else m + 9 }

  /** Days before month `mp` of a March year. */
  function MonthStart(mp: int): int { (153 * mp + 2) / 5 }

  /** Days before year `yoe` of a 400-year era. */
  function YearStart(yoe: int): int { yoe * 365 + yoe / 4 - yoe / 100 }

  function DayNumber(y: int, m: int, d: int): int {
    var yy := MarchYear(y, m);
    (yy / 400) * 146097 + YearStart(yy % 400) + MonthStart(MarchMonth(m)) + d - 1 - 719468
  }

  function DateNumber(date: Date): int { DayNumber(date.y, date.m, date.d) }

  // ---- The closed form of civil_from_days -------------------------------------------

  /** The year of the era that holds day `doe`, by nested constant divisions. */
  function YearOfEra(doe: int): int {
    (doe - doe / 1460 + doe / 36524 - doe / 146096) / 365
  }

  /** The date that sits at month `mp`, day `d` of March year `yy`. */
  function MarchDate(yy: int, mp: int, d: int): Date {
    var m := if mp < 10 then mp + 3 else mp - 9;
    Date(yy + (if m <= 2 then 1 else 0), m, d)
  }

  /** The date of day `doe` of an era. */
  function EraDate(era: int, doe: int): Date {
    var yoe := YearOfEra(doe);
    var doy := doe - YearStart(yoe);
    var mp := (5 * doy + 2) / 153;
    MarchDate(yoe + era * 400, mp, doy - MonthStart(mp) + 1)
  }

  function CivilDate(z: int): Date {
    EraDate((z + 719468) / 146097, (z + 719468) % 146097)
  }

  // ---- Years of an era ----------------------------------------------------------------

  /** Does March year `yoe` of an era end with 29 February? */
  predicate LongYear(yoe: int) { IsLeap(yoe + 1) }

  lemma YearStartSplits(q: int, r: int, s: int)
    requires 0 <= q < 4 && 0 <= r < 25 && 0 <= s < 4
    ensures YearStart(100 * q + 4 * r + s) == 36524 * q + 1461 * r + 365 * s
    ensures LongYear(100 * q + 4 * r + s) ==> s == 3 && (r == 24 ==> q == 3)
  {
    var yoe := 100 * q + 4 * r + s;
    assert yoe / 4 == 25 * q + r && yoe / 100 == q;
  }

  /** The year of era read back from a day, with the year split into centuries,
      four-year cycles and single years. */
  lemma YearOfEraDecodes(q: int, r: int, s: int, doy: int)
    requires 0 <= q < 4 && 0 <= r < 25 && 0 <= s < 4
    requires 0 <= doy <= (if LongYear(100 * q + 4 * r + s) then 365 else 364)
    ensures YearStart(100 * q + 4 * r + s) == 36524 * q + 1461 * r + 365 * s
    ensures YearOfEra(YearStart(100 * q + 4 * r + s) + doy) == 100 * q + 4 * r + s
    ensures 0 <= YearStart(100 * q + 4 * r + s) + doy <= 146096
  {
    YearStartSplits(q, r, s);
    var inner := 1461 * r + 365 * s + doy;
    var w := 24 * q + r + 365 * s + doy;
    var doe := 36524 * q + inner;
    assert doe == 1460 * (25 * q + r) + w;
    assert doe / 1460 == 25 * q + r + (if w >= 1460 then 1 else 0);
    assert doe / 36524 == q + (if inner == 36524 then 1 else 0);
    assert doe / 146096 == (if inner == 36524 then 1 else 0);
  }

  /** Every day of an era lies in exactly one year of it. */
  lemma EraDaySplits(doe: int) returns (q: int, r: int, s: int, doy: int)
    requires 0 <= doe < 146097
    ensures 0 <= q < 4 && 0 <= r < 25 && 0 <= s < 4
    ensures 0 <= doy <= (if LongYear(100 * q + 4 * r + s) then 365 else 364)
    ensures doe == 36524 * q + 1461 * r + 365 * s + doy
  {
    q := if doe / 36524 == 4 then 3 else doe / 36524;
    var inCentury := doe - 36524 * q;
    r := inCentury / 1461;
    var inCycle := inCentury - 1461 * r;
    s := if inCycle / 365 == 4 then 3 else inCycle / 365;
    doy := inCycle - 365 * s;
  }

  /** The months of a March year, read back from the day of the year. */
  lemma MonthDecodes(mp: int, d: int)
    requires 0 <= mp <= 11
    requires 1 <= d <= MonthStart(mp + 1) - MonthStart(mp)
    ensures (5 * (MonthStart(mp) + d - 1) + 2) / 153 == mp
  {
  }

  /** Month lengths as the differences of month starts: only February is shorter. */
  lemma MonthLengths(y: int, m: int)
    requires 1 <= m <= 12
    ensures m != 2 ==> MonthStart(MarchMonth(m) + 1) - MonthStart(MarchMonth(m)) == DaysInMonth(y, m)
    ensures m == 2 ==> MonthStart(MarchMonth(m)) == 337
    ensures MonthStart(0) == 0 && MonthStart(12) == 367
  {
  }

  // ---- Mutual inverses ------------------------------------------------------------------

  /** What a decomposition into era, century, cycle, year, month and day stands for. */
  ghost predicate Splits(era: int, q: int, r: int, s: int, mp: int, d: int) {
    && 0 <= q < 4 && 0 <= r < 25 && 0 <= s < 4
    && 0 <= mp <= 11 && 1 <= d <= MonthStart(mp + 1) - MonthStart(mp)
    && (mp == 11 ==> d <= (if LongYear(100 * q + 4 * r + s) then 29 else 28))
  }

  function SplitDate(era: int, q: int, r: int, s: int, mp: int, d: int): Date {
    MarchDate(era * 400 + (100 * q + 4 * r + s), mp, d)
  }

  function SplitDay(era: int, q: int, r: int, s: int, mp: int, d: int): int {
    era * 146097 + (36524 * q + 1461 * r + 365 * s) + (MonthStart(mp) + d - 1) - 719468
  }

  /** The day of the year stays inside the year. */
  lemma DayOfYearBound(q: int, r: int, s: int, mp: int, d: int)
    requires Splits(0, q, r, s, mp, d)
    ensures 0 <= MonthStart(mp) + d - 1 <= (if LongYear(100 * q + 4 * r + s) then 365 else 364)
  {
  }

  lemma DayNumberOfSplit(era: int, q: int, r: int, s: int, mp: int, d: int)
    requires Splits(era, q, r, s, mp, d)
    ensures DateNumber(SplitDate(era, q, r, s, mp, d)) == SplitDay(era, q, r, s, mp, d)
  {
    var yoe := 100 * q + 4 * r + s;
    YearOfEraDecodes(q, r, s, 0);
    var date := SplitDate(era, q, r, s, mp, d);
    var yy := era * 400 + yoe;
    assert MarchYear(date.y, date.m) == yy && MarchMonth(date.m) == mp;
    assert yy / 400 == era && yy % 400 == yoe;
  }

  lemma EraDateOfSplit(era: int, q: int, r: int, s: int, mp: int, d: int)
    requires Splits(era, q, r, s, mp, d)
    ensures var doe := 36524 * q + 1461 * r + 365 * s + (MonthStart(mp) + d - 1);
            0 <= doe < 146097 && EraDate(era, doe) == SplitDate(era, q, r, s, mp, d)
  {
    var doy := MonthStart(mp) + d - 1;
    DayOfYearBound(q, r, s, mp, d);
    YearOfEraDecodes(q, r, s, doy);
    MonthDecodes(mp, d);
  }

  lemma CivilDateIsEraDate(z: int, era: int, doe: int)
    requires 0 <= doe < 146097 && z + 719468 == era * 146097 + doe
    ensures CivilDate(z) == EraDate(era, doe)
  {
    assert (z + 719468) / 146097 == era && (z + 719468) % 146097 == doe;
  }

  lemma CivilDateOfSplit(era: int, q: int, r: int, s: int, mp: int, d: int)
    requires Splits(era, q, r, s, mp, d)
    ensures CivilDate(SplitDay(era, q, r, s, mp, d)) == SplitDate(era, q, r, s, mp, d)
  {
    EraDateOfSplit(era, q, r, s, mp, d);
    CivilDateIsEraDate(SplitDay(era, q, r, s, mp, d), era, 36524 * q + 1461 * r + 365 * s + (MonthStart(mp) + d - 1));
  }

  lemma Remainder4(y: int, era: int)
    ensures (era * 400 + y) % 4 == y % 4
  {
    assert era * 400 + y == 4 * (100 * era + y / 4) + y % 4;
  }

  lemma Remainder100(y: int, era: int)
    ensures (era * 400 + y) % 100 == y % 100
  {
    assert era * 400 + y == 100 * (4 * era + y / 100) + y % 100;
  }

  lemma Remainder400(y: int, era: int)
    ensures (era * 400 + y) % 400 == y % 400
  {
    assert era * 400 + y == 400 * (era + y / 400) + y % 400;
  }

  lemma LeapIsPeriodic(y: int, era: int)
    ensures IsLeap(era * 400 + y) == IsLeap(y)
  {
    Remainder4(y, era);
    Remainder100(y, era);
    Remainder400(y, era);
  }

  /** A date of the calendar has such a decomposition. */
  lemma DateHasSplit(date: Date) returns (era: int, q: int, r: int, s: int, mp: int)
    requires ValidDate(date)
    ensures Splits(era, q, r, s, mp, date.d)
    ensures date == SplitDate(era, q, r, s, mp, date.d)
  {
    var yy := MarchYear(date.y, date.m);
    era := yy / 400;
    var yoe := yy % 400;
    q := yoe / 100;
    r := yoe % 100 / 4;
    s := yoe % 4;
    mp := MarchMonth(date.m);
    assert yoe == 100 * q + 4 * r + s;
    MonthLengths(date.y, date.m);
    if date.m == 2 {
      LeapIsPeriodic(yoe + 1, era);
    }
  }

  lemma DayOfYearSplits(doy: int) returns (mp: int, d: int)
    requires 0 <= doy <= 365
    ensures 0 <= mp <= 11 && 1 <= d <= MonthStart(mp + 1) - MonthStart(mp)
    ensures doy == MonthStart(mp) + d - 1
    ensures mp == 11 ==> d == doy - 336
  {
    mp := (5 * doy + 2) / 153;
    d := doy - MonthStart(mp) + 1;
  }

  /** So does every integer day. */
  lemma DayHasSplit(z: int) returns (era: int, q: int, r: int, s: int, mp: int, d: int)
    ensures Splits(era, q, r, s, mp, d)
    ensures z == SplitDay(era, q, r, s, mp, d)
  {
    era := (z + 719468) / 146097;
    var doy;
    q, r, s, doy := EraDaySplits((z + 719468) % 146097);
    mp, d := DayOfYearSplits(doy);
  }

  /** Every valid date, of any year, survives the round trip through its day number. */
  lemma DateRoundTrip(date: Date)
    requires ValidDate(date)
    ensures CivilDate(DateNumber(date)) == date
  {
    var era, q, r, s, mp := DateHasSplit(date);
    DayNumberOfSplit(era, q, r, s, mp, date.d);
    CivilDateOfSplit(era, q, r, s, mp, date.d);
  }

  lemma SplitDateIsValid(era: int, q: int, r: int, s: int, mp: int, d: int)
    requires Splits(era, q, r, s, mp, d)
    ensures ValidDate(SplitDate(era, q, r, s, mp, d))
  {
    var date := SplitDate(era, q, r, s, mp, d);
    MonthLengths(date.y, date.m);
    LeapIsPeriodic(100 * q + 4 * r + s + 1, era);
  }

  /** Every integer is the day number of exactly the valid date it decodes to. */
  lemma DayRoundTrip(z: int)
    ensures ValidDate(CivilDate(z))
    ensures DateNumber(CivilDate(z)) == z
  {
    var era, q, r, s, mp, d := DayHasSplit(z);
    DayNumberOfSplit(era, q, r, s, mp, d);
    CivilDateOfSplit(era, q, r, s, mp, d);
    SplitDateIsValid(era, q, r, s, mp, d);
  }

  // ---- Agreement with the day-by-day calendar ---------------------------------------------

  /** The eras and years of the closed form add up to one floor formula. */
  lemma DayNumberFlat(y: int, m: int, d: int)
    ensures var yy := MarchYear(y, m);
            DayNumber(y, m, d) == 365 * yy + yy / 4 - yy / 100 + yy / 400
                                  + MonthStart(MarchMonth(m)) + d - 1 - 719468
  {
    var yy := MarchYear(y, m);
    var era, yoe := yy / 400, yy % 400;
    assert yy == 400 * era + yoe;
    assert yy / 4 == 100 * era + yoe / 4;
    assert yy / 100 == 4 * era + yoe / 100;
  }

  lemma NextDayIsValid(date: Date)
    requires ValidDate(date)
    ensures ValidDate(NextDay(date))
  {
  }

  /** The day of the March year, counted from 0. */
  function DayOfMarchYear(date: Date): int { MonthStart(MarchMonth(date.m)) + date.d - 1 }

  /** Inside a March year only the day of the year moves. */
  lemma WithinMarchYear(date: Date)
    requires ValidDate(date) && !(date.m == 2 && date.d == DaysInMonth(date.y, 2))
    ensures MarchYear(NextDay(date).y, NextDay(date).m) == MarchYear(date.y, date.m)
    ensures DayOfMarchYear(NextDay(date)) == DayOfMarchYear(date) + 1
  {
    MonthLengths(date.y, date.m);
  }

  /** A March year ending in February of year `y` has 366 days iff `y` is leap. */
  lemma FlatYearStep(y: int)
    ensures y / 4 - (y - 1) / 4 == (if y % 4 == 0 then 1 else 0)
    ensures y / 100 - (y - 1) / 100 == (if y % 100 == 0 then 1 else 0)
    ensures y / 400 - (y - 1) / 400 == (if y % 400 == 0 then 1 else 0)
    ensures y % 400 == 0 ==> y % 100 == 0
    ensures y % 100 == 0 ==> y % 4 == 0
  {
  }

  /** The last day of February is followed by 1 March of the next March year. */
  lemma FebruaryEnds(y: int)
    ensures DayNumber(y, 3, 1) == DayNumber(y, 2, DaysInMonth(y, 2)) + 1
  {
    DayNumberFlat(y, 2, DaysInMonth(y, 2));
    DayNumberFlat(y, 3, 1);
    FlatYearStep(y);
  }

  /** The successor of every valid date has the next day number. */
  lemma NextDayAddsOne(date: Date)
    requires ValidDate(date)
    ensures DateNumber(NextDay(date)) == DateNumber(date) + 1
  {
    if date.m == 2 && date.d == DaysInMonth(date.y, 2) {
      FebruaryEnds(date.y);
    } else {
      WithinMarchYear(date);
    }
  }

  lemma NumberDecodes(date: Date, z: int)
    requires ValidDate(date) && DateNumber(date) == z
    ensures CivilDate(z) == date
  {
    DateRoundTrip(date);
  }

  /** 1 January 1970 is day 0, and only it is. */
  lemma EpochIsDayZero(date: Date, z: int)
    requires date == Date(1970, 1, 1)
    ensures ValidDate(date)
    ensures DateNumber(date) == z <==> z == 0
    ensures CivilDate(z) == date <==> z == 0
  {
    DayNumberFlat(date.y, date.m, date.d);
    assert DateNumber(date) == 0;
    NumberDecodes(date, DateNumber(date));
    DayRoundTrip(z);
  }

  /** Each day walked through the calendar adds one to the day number. */
  lemma {:induction false} WalkCounts(from: Date, n: nat)
    requires ValidDate(from)
    ensures ValidDate(Walk(from, n)) && DateNumber(Walk(from, n)) == DateNumber(from) + n
  {
    if n == 0 {
    } else {
      WalkCounts(from, n - 1);
      NextDayIsValid(Walk(from, n - 1));
      NextDayAddsOne(Walk(from, n - 1));
    }
  }

  /** Walking `n` days through the calendar from any day `z` is adding `n` to `z`. */
  lemma WalkAddsDays(z: int, n: nat)
    ensures Walk(CivilDate(z), n) == CivilDate(z + n)
  {
    DayRoundTrip(z);
    WalkCounts(CivilDate(z), n);
    DateRoundTrip(Walk(CivilDate(z), n));
  }

  lemma DayOfMarchYearBound(date: Date)
    requires ValidDate(date)
    ensures 0 <= DayOfMarchYear(date) <= (if LongYear(MarchYear(date.y, date.m)) then 365 else 364)
  {
  }

  lemma DayOfMarchYearGrows(a: Date, b: Date)
    requires ValidDate(a) && ValidDate(b) && Before(a, b)
    ensures MarchYear(a.y, a.m) <= MarchYear(b.y, b.m)
    ensures MarchYear(a.y, a.m) == MarchYear(b.y, b.m) ==> DayOfMarchYear(a) < DayOfMarchYear(b)
  {
  }

  lemma FlatGrows(y: int, y': int)
    requires y <= y'
    ensures 365 * y + y / 4 - y / 100 + y / 400 <= 365 * y' + y' / 4 - y' / 100 + y' / 400
  {
  }

  /** Year first, then day of the year, decide the flat day count. */
  lemma MarchOrderGrows(ya: int, da: int, yb: int, db: int)
    requires ya < yb || (ya == yb && da < db)
    requires da <= (if LongYear(ya) then 365 else 364) && 0 <= db
    ensures 365 * ya + ya / 4 - ya / 100 + ya / 400 + da < 365 * yb + yb / 4 - yb / 100 + yb / 400 + db
  {
    if ya < yb {
      FlatYearStep(ya + 1);
      FlatGrows(ya + 1, yb);
    }
  }

  lemma DayNumberGrows(a: Date, b: Date)
    requires ValidDate(a) && ValidDate(b) && Before(a, b)
    ensures DateNumber(a) < DateNumber(b)
  {
    DayNumberFlat(a.y, a.m, a.d);
    DayNumberFlat(b.y, b.m, b.d);
    MarchOrderGrows(MarchYear(a.y, a.m), DayOfMarchYear(a), MarchYear(b.y, b.m), DayOfMarchYear(b)) by {
      DayOfMarchYearBound(a);
      DayOfMarchYearBound(b);
      DayOfMarchYearGrows(a, b);
    }
  }

  /** Day numbers order valid dates as year, month and day do. */
  lemma DayNumberIsMonotone(a: Date, b: Date)
    requires ValidDate(a) && ValidDate(b)
    ensures Before(a, b) <==> DateNumber(a) < DateNumber(b)
  {
    if Before(a, b) {
      DayNumberGrows(a, b);
    } else if Before(b, a) {
      DayNumberGrows(b, a);
    }
  }
}
