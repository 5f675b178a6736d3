/** `cpp/src/civil_time.h` on the machine's own integers. Every addition, subtraction and
    multiplication below is on `i64` or `u32`, so verification of the bodies proves that no
    intermediate value overflows; the two places where the C++ code wraps on purpose are
    written with `WrapAdd`. */
module CivilTime {
  import opened Machine
  import opened Calendar

  /** Does the day number, and the sum it is made from, fit into 64 bits? */
  predicate Fits(y: int, m: int, d: int) {
    INT64_MIN <= DayNumber(y, m, d) <= INT64_MAX - 719468
  }

  /** The truncating era of a year is the floor of its division by 400. */
  lemma EraIsFloor(y: i64)
    requires y as int >= INT64_MIN + 399
    ensures (TruncDiv(if y >= 0 then y else y - 399, 400)) as int == y as int / 400
  {
  }

  lemma DayEraIsFloor(z: i64)
    requires z as int >= INT64_MIN + 146096
    ensures (TruncDiv(if z >= 0 then z else z - 146096, 146097)) as int == z as int / 146097
  {
  }

  /** The unsigned month shift of `days_from_civil`: adding 2^32 - 3 or 9, modulo 2^32. */
  function ShiftToMarch(m: u32): u32 {
    WrapAdd(m, ToUnsigned(if m > 2 then -3 else 9))
  }

  /** The unsigned month shift of `civil_from_days`. */
  function ShiftToJanuary(mp: u32): u32 {
    WrapAdd(mp, ToUnsigned(if mp < 10 then 3 else -9))
  }

  lemma MonthShiftsAreExact(m: u32, mp: u32)
    requires 1 <= m <= 12 && mp <= 11
    ensures ShiftToMarch(m) as int == MarchMonth(m as int)
    ensures ShiftToJanuary(mp) as int == (if mp < 10 then mp as int + 3 else mp as int - 9)
  {
  }

  /** The two shifts undo each other. */
  lemma MonthShiftsAreInverse(m: u32, mp: u32)
    requires 1 <= m <= 12 && mp <= 11
    ensures ShiftToJanuary(ShiftToMarch(m)) == m && ShiftToMarch(ShiftToJanuary(mp)) == mp
  {
    MonthShiftsAreExact(m, mp);
    MonthShiftsAreExact(ShiftToJanuary(mp), ShiftToMarch(m));
  }

  /** The largest and smallest values met on the way to a day number that fits. */
  lemma DayNumberBounds(y: int, m: int, d: int)
    requires 1 <= m <= 12 && 1 <= d <= 31 && Fits(y, m, d)
    ensures 0 <= MarchMonth(m) <= 11 && 0 <= MonthStart(MarchMonth(m)) <= 337
    ensures 0 <= YearStart(MarchYear(y, m) % 400) <= 145731
    ensures INT64_MIN <= MarchYear(y, m) / 400 * 146097 <= INT64_MAX
    ensures -26_000_000_000_000_000 <= y <= 26_000_000_000_000_000
  {
    var era := MarchYear(y, m) / 400;
    assert 400 * era <= MarchYear(y, m) < 400 * era + 400;
  }

  /** Day numbers of four-digit years are small. */
  lemma FourDigitYearsFit(y: int, m: int, d: int)
    requires 1 <= m <= 12 && 1 <= d <= 31 && 0 <= y <= 9999
    ensures Fits(y, m, d)
  {
    assert -1 <= MarchYear(y, m) / 400 <= 24;
    assert 0 <= YearStart(MarchYear(y, m) % 400) <= 145731;
  }

  function DaysFromCivil(year: i64, m: u32, d: u32): (days: i64)
    requires 1 <= m <= 12 && 1 <= d <= 31
    requires Fits(year as int, m as int, d as int)
    ensures days as int == DayNumber(year as int, m as int, d as int)
  {
    DayNumberBounds(year as int, m as int, d as int);
    MonthShiftsAreExact(m, 0);
    var y := year - (if m <= 2 then 1 else 0);
    EraIsFloor(y);
    var era := TruncDiv(if y >= 0 then y else y - 399, 400);
    assert y as int == MarchYear(year as int, m as int) && era as int == y as int / 400;
    var yoe := (y - era * 400) as u32;
    assert yoe as int == y as int % 400;
    var doy := (153 * ShiftToMarch(m) + 2) / 5 + d - 1;
    assert doy as int == MonthStart(MarchMonth(m as int)) + d as int - 1;
    var doe := yoe * 365 + yoe / 4 - yoe / 100 + doy;
    assert doe as int == YearStart(yoe as int) + doy as int;
    era * 146097 + doe as i64 - 719468
  }

  /** The unsigned values met by `civil_from_days` never pass below zero. */
  lemma DayOfEraBounds(doe: int)
    requires 0 <= doe < 146097
    ensures 0 <= YearOfEra(doe) < 400
    ensures 0 <= doe - YearStart(YearOfEra(doe)) <= 365
    ensures doe / 1460 <= doe
  {
    var q, r, s, doy := EraDaySplits(doe);
    YearOfEraDecodes(q, r, s, doy);
    assert YearStart(100 * q + 4 * r + s) + doy == doe;
  }

  lemma DayOfYearBounds(doy: int)
    requires 0 <= doy <= 365
    ensures 0 <= (5 * doy + 2) / 153 <= 11
    ensures MonthStart((5 * doy + 2) / 153) <= doy
  {
  }

  /** The year and the day of the year within an era, in unsigned arithmetic. */
  function SplitEraDay(doe: u32): (r: (u32, u32))
    requires doe < 146097
    ensures r.0 as int == YearOfEra(doe as int) && r.0 < 400
    ensures r.1 as int == doe as int - YearStart(r.0 as int) && r.1 <= 365
  {
    DayOfEraBounds(doe as int);
    var yoe := (doe - doe / 1460 + doe / 36524 - doe / 146096) / 365;
    (yoe, doe - (365 * yoe + yoe / 4 - yoe / 100))
  }

  /** The month and the day of the month within a March year, in unsigned arithmetic. */
  function SplitYearDay(doy: u32): (r: (u32, u32))
    requires doy <= 365
    ensures var mp := (5 * doy as int + 2) / 153;
            r.0 as int == (if mp < 10 then mp + 3 else mp - 9) && r.1 as int == doy as int - MonthStart(mp) + 1
    ensures 1 <= r.0 <= 12
  {
    DayOfYearBounds(doy as int);
    var mp := (5 * doy + 2) / 153;
    MonthShiftsAreExact(1, mp);
    (ShiftToJanuary(mp), doy - (153 * mp + 2) / 5 + 1)
  }

  /** `civil_from_days` up to the era and the day in it. */
  method SplitDays(days: i64) returns (era: i64, doe: u32)
    requires days as int <= INT64_MAX - 719468
    ensures doe < 146097 && days as int + 719468 == era as int * 146097 + doe as int
  {
    var z := days + 719468;
    DayEraIsFloor(z);
    era := TruncDiv(if z >= 0 then z else z - 146096, 146097);
    doe := (z - era * 146097) as u32;
  }

  method CivilFromDays(days: i64) returns (y: i64, m: u32, d: u32)
    requires days as int <= INT64_MAX - 719468
    ensures Date(y as int, m as int, d as int) == CivilDate(days as int)
  {
    var era, doe := SplitDays(days);
    var (yoe, doy) := SplitEraDay(doe);
    y := yoe as i64 + era * 400;
    m, d := SplitYearDay(doy).0, SplitYearDay(doy).1;
    y := y + (if m <= 2 then 1 else 0);
    assert Date(y as int, m as int, d as int) == EraDate(era as int, doe as int);
    assert EraDate(era as int, doe as int) == CivilDate(days as int) by {
      CivilDateIsEraDate(days as int, era as int, doe as int);
    }
  }
}
