/** Civil-date arithmetic of the Rust port: `civil_to_unix` and `unix_to_ymdhms` are
    closed formulas over eras of 400 years; the reference here is naive day counting. */
module Civil {
  import opened Common

  /** Broken-down UTC fields. */
  datatype Fields = Fields(year: int, month: int, day: int, hour: int, minute: int, second: int)

  // ---- naive day counting ----

  predicate IsLeap(y: int) {
    (y % 4 == 0 && y % 100 != 0) || y % 400 == 0
  }

  /** `days_in_month`: 0 for a month that does not exist. */
  function DaysInMonth(y: int, m: int): (d: int)
    ensures 0 <= d <= 31
  {
    if m == 1 || m == 3 || m == 5 || m == 7 || m == 8 || m == 10 || m == 12 then 31
    else if m == 4 || m == 6 || m == 9 || m == 11 then 30
    else if m == 2 then (if IsLeap(y) then 29 else 28)
    else 0
  }

  function DaysInYear(y: int): int {
    if IsLeap(y) then 366 else 365
  }

  /** Days from the start of year 0 to the start of year `y`, counted year by year. */
  function DaysBeforeYear(y: int): int
    decreases if y < 0 then -y else y
  {
    if y == 0 then 0
    else if y > 0 then DaysBeforeYear(y - 1) + DaysInYear(y - 1)
    else DaysBeforeYear(y + 1) - DaysInYear(y)
  }

  /** Days from the start of year `y` to the start of its month `m`, counted month by month. */
  function DaysBeforeMonth(y: int, m: int): (d: int)
    decreases m
  {
    if m <= 1 then 0 else DaysBeforeMonth(y, m - 1) + DaysInMonth(y, m - 1)
  }

  /** Day number with 0000-01-01 as day 0. */
  function DayNumber(y: int, m: int, d: int): int {
    DaysBeforeYear(y) + DaysBeforeMonth(y, m) + d - 1
  }

  /** Day number of 1970-01-01. */
  const EPOCH_DAY: int := 719528

  /** Seconds since 1970-01-01T00:00:00Z by counting. */
  function CountSeconds(f: Fields): int {
    (DayNumber(f.year, f.month, f.day) - EPOCH_DAY) * 86400 + f.hour * 3600 + f.minute * 60 + f.second
  }

  /** A real civil date-time; what `parse_ts` checks after the digits are read. */
  predicate IsCivil(f: Fields) {
    1 <= f.month <= 12 && 1 <= f.day <= DaysInMonth(f.year, f.month)
    && 0 <= f.hour <= 23 && 0 <= f.minute <= 59 && 0 <= f.second <= 59
  }

  lemma {:induction false} YearClosedForm(y: int)
    ensures DaysBeforeYear(y) == 365 * y + (y + 3) / 4 - (y + 99) / 100 + (y + 399) / 400
    decreases if y < 0 then -y else y
  {
    if y > 0 {
      YearClosedForm(y - 1);
      LeapStep(y - 1);
    } else if y < 0 {
      YearClosedForm(y + 1);
      LeapStep(y);
    }
  }

  lemma LeapStep(y: int)
    ensures (y + 4) / 4 - (y + 100) / 100 + (y + 400) / 400
      == (y + 3) / 4 - (y + 99) / 100 + (y + 399) / 400 + if IsLeap(y) then 1 else 0
  {
    CeilStep(y, 4);
    CeilStep(y, 100);
    CeilStep(y, 400);
    LeapDivisors(y);
  }

  /** A rounded-up quotient steps at the multiples of its divisor. */
  lemma CeilStep(y: int, m: int)
    requires m > 1
    ensures (y + m) / m == (y + m - 1) / m + if y % m == 0 then 1 else 0
  {
    var q, r := y / m, y % m;
    assert m * (q + 1) == m * q + m;
    DivUnique(y + m, m, q + 1, r);
    if r == 0 {
      DivUnique(y + m - 1, m, q, m - 1);
    } else {
      DivUnique(y + m - 1, m, q + 1, r - 1);
    }
  }

  lemma LeapDivisors(y: int)
    ensures y % 400 == 0 ==> y % 100 == 0
    ensures y % 100 == 0 ==> y % 4 == 0
  {
    if y % 400 == 0 {
      DivUnique(y, 100, 4 * (y / 400), 0);
    }
    if y % 100 == 0 {
      DivUnique(y, 4, 25 * (y / 100), 0);
    }
  }

  /** Months counted one by one are the five-month pattern of the closed formula, measured from
      March of the shifted year. */
  lemma MonthClosedForm(y: int, m: int)
    requires 1 <= m <= 12
    ensures DaysBeforeMonth(y, m) == if m <= 2 then 31 * (m - 1)
                                     else (153 * (m - 3) + 2) / 5 + 59 + (if IsLeap(y) then 1 else 0)
  {
    assert DaysBeforeMonth(y, 1) == 0;
    assert DaysBeforeMonth(y, 2) == 31;
    var feb := 59 + if IsLeap(y) then 1 else 0;
    assert DaysBeforeMonth(y, 3) == feb;
    assert DaysBeforeMonth(y, 4) == feb + 31;
    assert DaysBeforeMonth(y, 5) == feb + 61;
    assert DaysBeforeMonth(y, 6) == feb + 92;
    assert DaysBeforeMonth(y, 7) == feb + 122;
    assert DaysBeforeMonth(y, 8) == feb + 153;
    assert DaysBeforeMonth(y, 9) == feb + 184;
    assert DaysBeforeMonth(y, 10) == feb + 214;
    assert DaysBeforeMonth(y, 11) == feb + 245;
    assert DaysBeforeMonth(y, 12) == feb + 275;
  }

  // ---- civil_to_unix ----

  const I64_MAX: int := 0x7FFF_FFFF_FFFF_FFFF
  const I64_MIN: int := -0x8000_0000_0000_0000

  /** A checked `i64` operation: the value, or `None` when it does not fit. */
  function Checked(x: int): Option<int> {
    if I64_MIN <= x <= I64_MAX then Some(x) else None
  }

  function ShiftedYear(y: int, m: int): int {
    if m <= 2 then y - 1 else y
  }

  /** The `era` line: `if y >= 0 { y } else { y - 399 }.div_euclid(400)`. */
  function SourceEra(y: int): int {
    (if y >= 0 then y else y - 399) / 400
  }

  /** Day of the March-based year; `d` counts from 1. */
  function DayOfYear(m: int, d: int): int {
    (153 * (if m > 2 then m - 3 else m + 9) + 2) / 5 + d - 1
  }

  /** Day number before the epoch shift, from an era and the year inside it. */
  function EraDays(era: int, yoe: int, doy: int): int {
    era * 146097 + (yoe * 365 + yoe / 4 - yoe / 100 + doy)
  }

  /** `civil_to_unix`, every checked step in place. */
  function CivilToUnix(y0: int, m: int, d: int, h: int, mi: int, s: int): Option<int>
    requires 1 <= m <= 12
  {
    var shifted := if m <= 2 then Checked(y0 - 1) else Some(y0);
    if shifted.None? then None
    else
      var y := shifted.value;
      if y < 0 && Checked(y - 399).None? then None
      else
        var era := SourceEra(y);
        if Checked(era * 400).None? || Checked(y - era * 400).None? || Checked(d - 1).None? then None
        else
          var yoe := y - era * 400;
          var doe := yoe * 365 + yoe / 4 - yoe / 100 + DayOfYear(m, d);
          if Checked(era * 146097).None? || Checked(era * 146097 + doe).None? then None
          else
            var days := era * 146097 + doe - 719468;
            if Checked(days).None? || Checked(days * 86400).None?
              || Checked(days * 86400 + h * 3600).None? || Checked(days * 86400 + h * 3600 + mi * 60).None? then None
            else Checked(days * 86400 + h * 3600 + mi * 60 + s)
  }

  /** Whether the `era` line divides correctly: always for a shifted year from 0 up. */
  predicate EraIsRight(y: int) {
    y >= 0 || y % 400 == 399
  }

  lemma EraLine(y: int)
    ensures EraIsRight(y) <==> SourceEra(y) == y / 400
    ensures !EraIsRight(y) ==> SourceEra(y) == y / 400 - 1
  {
  }

  /** With the floor era the formula counts days. */
  lemma EraDaysCount(y: int, m: int, d: int)
    requires 1 <= m <= 12
    ensures var s := ShiftedYear(y, m);
            EraDays(s / 400, s % 400, DayOfYear(m, d)) == DayNumber(y, m, d) - 60
  {
    EraDaysFromYear(ShiftedYear(y, m), DayOfYear(m, d));
    MonthClosedForm(y, m);
    if m <= 2 {
      EarlyMonth(m, d);
    } else {
      NextYear(y);
    }
  }

  lemma EarlyMonth(m: int, d: int)
    requires 1 <= m <= 2
    ensures DayOfYear(m, d) == 306 + 31 * (m - 1) + d - 1
  {
    if m == 1 {
      assert DayOfYear(1, d) == 306 + d - 1;
    } else {
      assert DayOfYear(2, d) == 337 + d - 1;
    }
  }

  lemma NextYear(y: int)
    ensures DaysBeforeYear(y + 1) == DaysBeforeYear(y) + DaysInYear(y)
  {
  }

  /** A March-based year starts 306 days before the calendar year that follows it. */
  lemma EraDaysFromYear(s: int, doy: int)
    ensures EraDays(s / 400, s % 400, doy) == DaysBeforeYear(s + 1) - 366 + doy
  {
    YearClosedForm(s + 1);
    YearShift(s / 400, s % 400);
    assert 400 * (s / 400) + s % 400 == s;
  }

  /** Leap-day terms of a year, split into its era and the year of the era. */
  lemma YearShift(e: int, r: int)
    requires 0 <= r < 400
    ensures var y := 400 * e + r;
            365 * y + (y + 4) / 4 - (y + 100) / 100 + (y + 400) / 400
            == 146097 * e + 365 * r + r / 4 - r / 100 + 1
  {
    var y := 400 * e + r;
    assert (y + 4) / 4 == 100 * e + 1 + r / 4;
    assert (y + 100) / 100 == 4 * e + 1 + r / 100;
    assert (y + 400) / 400 == e + 1;
  }

  /** A wrong era is one too low, so the year of era is 400 too high and the day count comes out
      exactly one day short. */
  lemma WrongEraLosesADay(e: int, r: int, doy: int)
    requires 0 <= r < 400
    ensures EraDays(e - 1, r + 400, doy) == EraDays(e, r, doy) - 1
  {
  }

  /** Main result. For every date, the formula gives counted seconds when the shifted year is at
      least 0 or is 399 modulo 400, and exactly one day less otherwise; in both cases it fails
      only if a checked step overflows. */
  lemma CivilToUnixCounts(f: Fields)
    requires IsCivil(f)
    ensures var r := CivilToUnix(f.year, f.month, f.day, f.hour, f.minute, f.second);
            var lost := if EraIsRight(ShiftedYear(f.year, f.month)) then 0 else 86400;
            r.Some? ==> r.value == CountSeconds(f) - lost
  {
    if CivilToUnix(f.year, f.month, f.day, f.hour, f.minute, f.second).Some? {
      CivilToUnixValue(f);
      SourceDays(f.year, f.month, f.day);
    }
  }

  /** When every checked step succeeds, the value is the plain formula. */
  lemma CivilToUnixValue(f: Fields)
    requires IsCivil(f)
    requires CivilToUnix(f.year, f.month, f.day, f.hour, f.minute, f.second).Some?
    ensures var y := ShiftedYear(f.year, f.month);
            var days := EraDays(SourceEra(y), y - SourceEra(y) * 400, DayOfYear(f.month, f.day)) - 719468;
            CivilToUnix(f.year, f.month, f.day, f.hour, f.minute, f.second).value
            == days * 86400 + f.hour * 3600 + f.minute * 60 + f.second
  {
  }

  /** The days of the formula with the era line of the code. */
  lemma SourceDays(y: int, m: int, d: int)
    requires 1 <= m <= 12
    ensures var s := ShiftedYear(y, m);
            EraDays(SourceEra(s), s - SourceEra(s) * 400, DayOfYear(m, d))
            == DayNumber(y, m, d) - 60 - if EraIsRight(s) then 0 else 1
  {
    var s := ShiftedYear(y, m);
    EraDaysCount(y, m, d);
    EraLine(s);
    assert s == 400 * (s / 400) + s % 400;
    if !EraIsRight(s) {
      WrongEraLosesADay(s / 400, s % 400, DayOfYear(m, d));
    }
  }

  /** The era line does fail: 1 March of year -2 comes out one day early. */
  lemma EraLineFails()
    ensures IsCivil(Fields(-2, 3, 1, 0, 0, 0))
    ensures CivilToUnix(-2, 3, 1, 0, 0, 0) == Some(CountSeconds(Fields(-2, 3, 1, 0, 0, 0)) - 86400)
  {
    CivilToUnixDefined(Fields(-2, 3, 1, 0, 0, 0));
    CivilToUnixCounts(Fields(-2, 3, 1, 0, 0, 0));
  }

  /** No checked step fails for any year a caller could reasonably pass; parsed input has a
      year from 0 to 9999. */
  lemma CivilToUnixDefined(f: Fields)
    requires IsCivil(f) && -200_000_000_000 <= f.year <= 200_000_000_000
    ensures CivilToUnix(f.year, f.month, f.day, f.hour, f.minute, f.second).Some?
  {
    var y := ShiftedYear(f.year, f.month);
    EraBounds(y);
    DayOfYearBounds(f.month, f.day);
    YearPartBounds(y - SourceEra(y) * 400, DayOfYear(f.month, f.day));
  }

  lemma EraBounds(y: int)
    ensures 0 <= y - SourceEra(y) * 400 < 800
    ensures -200_000_000_001 <= y <= 200_000_000_000 ==> -600_000_000 <= SourceEra(y) <= 600_000_000
  {
  }

  lemma DayOfYearBounds(m: int, d: int)
    requires 1 <= m <= 12 && 1 <= d <= 31
    ensures 0 <= DayOfYear(m, d) <= 400
  {
  }

  lemma YearPartBounds(yoe: int, doy: int)
    requires 0 <= yoe < 800 && 0 <= doy <= 400
    ensures 0 <= yoe * 365 + yoe / 4 - yoe / 100 + doy <= 300_000
  {
  }

  // ---- unix_to_ymdhms ----

  const I32_MAX: int := 0x7FFF_FFFF
  const I32_MIN: int := -0x8000_0000

  predicate FitsI32(x: int) { I32_MIN <= x <= I32_MAX }

  /** The subtractions of the `u32` block; each must not go below zero. */
  predicate NoUnderflow(doe: int) {
    var a := doe - doe / 1460;
    var b := a + doe / 36524;
    var c := b - doe / 146096;
    var yoe := c / 365;
    var doy := doe - (365 * yoe + yoe / 4 - yoe / 100);
    var mp := (5 * doy + 2) / 153;
    doe >= 0 && a >= 0 && c >= 0 && 365 * yoe + yoe / 4 - yoe / 100 >= 0 && doy >= 0
    && doy - (153 * mp + 2) / 5 >= 0 && (mp >= 10 ==> mp >= 9)
  }

  function YearOfEra(doe: int): int {
    (doe - doe / 1460 + doe / 36524 - doe / 146096) / 365
  }

  /** The `era` line of `unix_to_ymdhms`. `i32` division truncates: a negative numerator has
      the divisor's complement already subtracted. */
  function TruncatedEra(z: int): int {
    if z >= 0 then z / 146097 else -((146096 - z) / 146097)
  }

  /** The date part: year, month and day of a day of an era. */
  function DateOfEraDay(era: int, doe: int): (int, int, int) {
    var yoe := YearOfEra(doe);
    var doy := doe - (365 * yoe + yoe / 4 - yoe / 100);
    var mp := (5 * doy + 2) / 153;
    var m := if mp < 10 then mp + 3 else mp - 9;
    (yoe + era * 400 + if m <= 2 then 1 else 0, m, doy - (153 * mp + 2) / 5 + 1)
  }

  /** The date of a day counted from 1970-01-01: `None` where a step would overflow. */
  function DateOf(days: int): Option<(int, int, int)>
  {
    if !FitsI32(days) || !FitsI32(days + 719468) then None
    else
      var z := days + 719468;
      var era := TruncatedEra(z);
      var doe := z - era * 146097;
      if !NoUnderflow(doe) then None else Some(DateOfEraDay(era, doe))
  }

  /** `unix_to_ymdhms`: `None` where an `i32` or `u32` step would overflow. */
  function UnixToYmdhms(t: int): Option<Fields>
  {
    var secs := t % 86400;
    match DateOf(t / 86400)
    case None => None
    case Some((y, m, d)) => Some(Fields(y, m, d, secs / 3600, secs % 3600 / 60, secs % 60))
  }

  /** Last day (from 0) of the March-based year `yoe` of an era. */
  function LastDay(yoe: int): int {
    if (yoe + 1) % 4 == 0 && ((yoe + 1) % 100 != 0 || (yoe + 1) % 400 == 0) then 365 else 364
  }

  /** The year-of-era formula, on a day written as centuries, quads and years. */
  lemma YearOfEraParts(c: int, q: int, r: int, doy: int)
    requires 0 <= c < 4 && 0 <= q < 25 && 0 <= r < 4
    requires 0 <= doy <= LastDay(100 * c + 4 * q + r)
    ensures YearOfEra(36524 * c + 1461 * q + 365 * r + doy) == 100 * c + 4 * q + r
  {
    var yoe := 100 * c + 4 * q + r;
    var doe := 36524 * c + 1461 * q + 365 * r + doy;
    assert doy == 365 ==> r == 3 && (q == 24 ==> c == 3);
    var last := if doy == 365 && q == 24 then 1 else 0;
    assert doe / 146096 == last;
    assert doe / 36524 == c + last;
    var e := if 24 * c + q + 365 * r + doy >= 1460 then 1 else 0;
    assert doe == 1460 * (25 * c + q) + (24 * c + q + 365 * r + doy);
    assert doe / 1460 == 25 * c + q + e;
    assert doe - doe / 1460 + doe / 36524 - doe / 146096 == 365 * yoe + (doy - e);
    assert 0 <= doy - e < 365;
  }

  /** The formula recovers the year of era from any day of that year. */
  lemma YearOfEraInverts(yoe: int, doy: int)
    requires 0 <= yoe < 400 && 0 <= doy <= LastDay(yoe)
    ensures YearOfEra(yoe * 365 + yoe / 4 - yoe / 100 + doy) == yoe
    ensures 0 <= yoe * 365 + yoe / 4 - yoe / 100 + doy < 146097
  {
    var c, q, r := yoe / 100, yoe % 100 / 4, yoe % 4;
    assert yoe == 100 * c + 4 * q + r;
    assert yoe / 4 == 25 * c + q;
    YearOfEraParts(c, q, r, doy);
    assert yoe * 365 + yoe / 4 - yoe / 100 + doy == 36524 * c + 1461 * q + 365 * r + doy;
  }

  lemma LastDayOfParts(c: int, q: int, r: int)
    requires 0 <= c < 4 && 0 <= q < 25 && 0 <= r < 4
    ensures LastDay(100 * c + 4 * q + r) == if r == 3 && (q == 24 ==> c == 3) then 365 else 364
  {
    var y := 100 * c + 4 * q + r + 1;
    assert y % 4 == 0 <==> r == 3;
    assert y % 100 == 0 <==> q == 24 && r == 3;
    assert y % 400 == 0 <==> c == 3 && q == 24 && r == 3;
  }

  /** Centuries, quads, years and days of a day of the era. */
  lemma EraParts(doe: int) returns (c: int, q: int, r: int, doy: int)
    requires 0 <= doe < 146097
    ensures 0 <= c < 4 && 0 <= q < 25 && 0 <= r < 4 && doe == 36524 * c + 1461 * q + 365 * r + doy
    ensures 0 <= doy <= 365 && (doy == 365 ==> r == 3 && (q == 24 ==> c == 3))
  {
    c := if doe == 146096 then 3 else doe / 36524;
    var in100 := doe - 36524 * c;
    assert 0 <= in100 <= 36524 && (in100 == 36524 ==> c == 3);
    q := in100 / 1461;
    var in4 := in100 - 1461 * q;
    r := if in4 == 1460 then 3 else in4 / 365;
    doy := in4 - 365 * r;
  }

  /** Conversely every day of an era lies in the year the formula names. */
  lemma YearOfEraCovers(doe: int)
    requires 0 <= doe < 146097
    ensures 0 <= YearOfEra(doe) < 400
    ensures var y := YearOfEra(doe);
            0 <= doe - (365 * y + y / 4 - y / 100) <= LastDay(y)
  {
    var c, q, r, doy := EraParts(doe);
    LastDayOfParts(c, q, r);
    YearOfEraParts(c, q, r, doy);
    QuadsAndCenturies(c, q, r);
  }

  lemma QuadsAndCenturies(c: int, q: int, r: int)
    requires 0 <= q < 25 && 0 <= r < 4
    ensures (100 * c + 4 * q + r) / 4 == 25 * c + q && (100 * c + 4 * q + r) / 100 == c
  {
    DivUnique(100 * c + 4 * q + r, 4, 25 * c + q, r);
    DivUnique(100 * c + 4 * q + r, 100, c, 4 * q + r);
  }

  /** Month and day recovered from the day of the March-based year. */
  lemma MonthInverts(m: int, d: int)
    requires 1 <= m <= 12 && 1 <= d <= 31 && (m == 2 ==> d <= 29)
    requires m == 4 || m == 6 || m == 9 || m == 11 ==> d <= 30
    ensures var doy := DayOfYear(m, d); var mp := (5 * doy + 2) / 153;
            0 <= doy <= 365
            && m == (if mp < 10 then mp + 3 else mp - 9) && d == doy - (153 * mp + 2) / 5 + 1
  {
  }

  lemma MonthCovers(doy: int)
    requires 0 <= doy <= 365
    ensures var mp := (5 * doy + 2) / 153;
            var m := if mp < 10 then mp + 3 else mp - 9;
            var d := doy - (153 * mp + 2) / 5 + 1;
            0 <= mp <= 11 && 1 <= m <= 12 && 1 <= d <= 31 && DayOfYear(m, d) == doy
            && (m == 2 ==> d <= 29 && (d == 29 <==> doy == 365))
            && (m == 4 || m == 6 || m == 9 || m == 11 ==> d <= 30)
  {
    var mp := (5 * doy + 2) / 153;
    assert 0 <= mp <= 11;
  }

  /** The Gregorian pattern repeats every 400 years. */
  lemma LeapOfShifted(e: int, yoe: int)
    requires 0 <= yoe < 400
    ensures LastDay(yoe) == if IsLeap(400 * e + yoe + 1) then 365 else 364
  {
    Shift4(100 * e, yoe + 1);
    Shift100(4 * e, yoe + 1);
    Shift400(e, yoe + 1);
  }

  lemma Shift4(k: int, y: int)
    ensures (4 * k + y) % 4 == y % 4
  {
    var q, r := y / 4, y % 4;
    assert 4 * k + y == 4 * (k + q) + r;
  }

  lemma Shift100(k: int, y: int)
    ensures (100 * k + y) % 100 == y % 100
  {
    var q, r := y / 100, y % 100;
    assert 100 * k + y == 100 * (k + q) + r;
  }

  lemma Shift400(k: int, y: int)
    ensures (400 * k + y) % 400 == y % 400
  {
    var q, r := y / 400, y % 400;
    assert 400 * k + y == 400 * (k + q) + r;
  }

  /** Day `doy` of year of era `yoe` of an era, as the formulas see it. */
  lemma DateOfParts(era: int, yoe: int, doy: int)
    requires 0 <= yoe < 400 && 0 <= doy <= LastDay(yoe)
    ensures var mp := (5 * doy + 2) / 153;
            var m := if mp < 10 then mp + 3 else mp - 9;
            var doe := yoe * 365 + yoe / 4 - yoe / 100 + doy;
            0 <= doe < 146097 && EraDays(era, yoe, doy) == era * 146097 + doe
            && DateOfEraDay(era, doe)
               == (yoe + era * 400 + (if m <= 2 then 1 else 0), m, doy - (153 * mp + 2) / 5 + 1)
  {
    YearOfEraInverts(yoe, doy);
  }

  lemma EraIsFloor(era: int, doe: int)
    requires 0 <= doe < 146097
    ensures TruncatedEra(era * 146097 + doe) == era
  {
  }

  lemma DayNumberOfParts(era: int, yoe: int, doy: int, y: int, m: int, d: int)
    requires 0 <= yoe < 400 && 1 <= m <= 12
    requires ShiftedYear(y, m) == era * 400 + yoe && DayOfYear(m, d) == doy
    ensures DayNumber(y, m, d) == EraDays(era, yoe, doy) + 60
  {
    ShiftBack(era, yoe);
    EraDaysCount(y, m, d);
  }

  lemma EraOfDay(z: int, era: int, doe: int)
    requires 0 <= doe < 146097 && z == era * 146097 + doe
    ensures TruncatedEra(z) == era && z - TruncatedEra(z) * 146097 == doe
  {
    EraIsFloor(era, doe);
  }

  lemma DateOfFieldParts(era: int, yoe: int, y: int, m: int, d: int)
    requires 0 <= yoe < 400 && era * 400 + yoe == ShiftedYear(y, m)
    requires 1 <= m <= 12 && 1 <= d <= DaysInMonth(y, m) && 0 <= DayOfYear(m, d) <= LastDay(yoe)
    ensures DateOfEraDay(era, yoe * 365 + yoe / 4 - yoe / 100 + DayOfYear(m, d)) == (y, m, d)
  {
    DateOfParts(era, yoe, DayOfYear(m, d));
    MonthInverts(m, d);
  }

  /** The date formula inverts the era formula: from the fields ... */
  lemma DateFromFields(y: int, m: int, d: int)
    requires 1 <= m <= 12 && 1 <= d <= DaysInMonth(y, m)
    ensures var z := DayNumber(y, m, d) - 60;
            0 <= z - TruncatedEra(z) * 146097 < 146097
            && DateOfEraDay(TruncatedEra(z), z - TruncatedEra(z) * 146097) == (y, m, d)
  {
    var s := ShiftedYear(y, m);
    var era, yoe, doy := s / 400, s % 400, DayOfYear(m, d);
    DayWithinShiftedYear(Fields(y, m, d, 0, 0, 0));
    DateOfFieldParts(era, yoe, y, m, d);
    DateOfParts(era, yoe, doy);
    DayNumberOfParts(era, yoe, doy, y, m, d);
    EraOfDay(DayNumber(y, m, d) - 60, era, yoe * 365 + yoe / 4 - yoe / 100 + doy);
  }

  lemma DayWithinShiftedYear(f: Fields)
    requires IsCivil(f)
    ensures 0 <= DayOfYear(f.month, f.day) <= LastDay(ShiftedYear(f.year, f.month) % 400)
  {
    var s := ShiftedYear(f.year, f.month);
    MonthInverts(f.month, f.day);
    LeapOfShifted(s / 400, s % 400);
    assert 400 * (s / 400) + s % 400 == s;
  }

  /** ... and from the day. */
  lemma DateFromDay(z: int)
    ensures var doe := z - TruncatedEra(z) * 146097;
            var (y, m, d) := DateOfEraDay(TruncatedEra(z), doe);
            0 <= doe < 146097 && 1 <= m <= 12 && 1 <= d <= DaysInMonth(y, m) && DayNumber(y, m, d) == z + 60
  {
    var era, doe := z / 146097, z % 146097;
    EraOfDay(z, era, doe);
    DateFromEraDay(era, doe);
  }

  lemma DateFromEraDay(era: int, doe: int)
    requires 0 <= doe < 146097
    ensures var (y, m, d) := DateOfEraDay(era, doe);
            1 <= m <= 12 && 1 <= d <= DaysInMonth(y, m) && DayNumber(y, m, d) == era * 146097 + doe + 60
  {
    YearOfEraCovers(doe);
    var yoe := YearOfEra(doe);
    DateFromParts(era, yoe, doe - (365 * yoe + yoe / 4 - yoe / 100));
  }

  lemma DateFromParts(era: int, yoe: int, doy: int)
    requires 0 <= yoe < 400 && 0 <= doy <= LastDay(yoe)
    ensures var doe := yoe * 365 + yoe / 4 - yoe / 100 + doy;
            var (y, m, d) := DateOfEraDay(era, doe);
            1 <= m <= 12 && 1 <= d <= DaysInMonth(y, m) && DayNumber(y, m, d) == era * 146097 + doe + 60
  {
    DateOfParts(era, yoe, doy);
    var y, m, d := DayInItsMonth(era, yoe, doy);
    DayNumberOfParts(era, yoe, doy, y, m, d);
  }

  /** A day of a March-based year is a day of one of its months. */
  lemma DayInItsMonth(era: int, yoe: int, doy: int) returns (y: int, m: int, d: int)
    requires 0 <= yoe < 400 && 0 <= doy <= LastDay(yoe)
    ensures var mp := (5 * doy + 2) / 153;
            m == (if mp < 10 then mp + 3 else mp - 9) && d == doy - (153 * mp + 2) / 5 + 1
    ensures y == yoe + era * 400 + if m <= 2 then 1 else 0
    ensures 1 <= m <= 12 && 1 <= d <= DaysInMonth(y, m)
    ensures ShiftedYear(y, m) == era * 400 + yoe && DayOfYear(m, d) == doy
  {
    var mp := (5 * doy + 2) / 153;
    m := if mp < 10 then mp + 3 else mp - 9;
    d := doy - (153 * mp + 2) / 5 + 1;
    y := yoe + era * 400 + if m <= 2 then 1 else 0;
    MonthCovers(doy);
    if m == 2 {
      LeapOfShifted(era, yoe);
    }
  }

  lemma ShiftBack(era: int, yoe: int)
    requires 0 <= yoe < 400
    ensures (era * 400 + yoe) / 400 == era && (era * 400 + yoe) % 400 == yoe
  {
  }

  /** Formatting a civil instant's seconds gives back its fields. */
  lemma RoundTripFromFields(f: Fields)
    requires IsCivil(f) && f.year >= 0
    requires FitsI32(DayNumber(f.year, f.month, f.day) - EPOCH_DAY)
    requires FitsI32(DayNumber(f.year, f.month, f.day) - 60)
    ensures CivilToUnix(f.year, f.month, f.day, f.hour, f.minute, f.second) == Some(CountSeconds(f))
    ensures UnixToYmdhms(CountSeconds(f)) == Some(f)
  {
    YearIsBounded(f);
    CivilIsCount(f);
    FieldsOfCount(f);
  }

  lemma CivilIsCount(f: Fields)
    requires IsCivil(f) && 0 <= f.year <= 200_000_000
    ensures CivilToUnix(f.year, f.month, f.day, f.hour, f.minute, f.second) == Some(CountSeconds(f))
  {
    CivilToUnixDefined(f);
    CivilToUnixCounts(f);
    ParsedEraIsRight(f.year, f.month);
  }

  lemma ParsedEraIsRight(y: int, m: int)
    requires y >= 0
    ensures EraIsRight(ShiftedYear(y, m))
  {
  }

  lemma FieldsOfCount(f: Fields)
    requires IsCivil(f)
    requires FitsI32(DayNumber(f.year, f.month, f.day) - EPOCH_DAY)
    requires FitsI32(DayNumber(f.year, f.month, f.day) - 60)
    ensures UnixToYmdhms(CountSeconds(f)) == Some(f)
  {
    var n := DayNumber(f.year, f.month, f.day);
    DateOfCount(f.year, f.month, f.day);
    SecondsOfDay(n - EPOCH_DAY, f.hour, f.minute, f.second);
  }

  lemma DateOfCount(y: int, m: int, d: int)
    requires 1 <= m <= 12 && 1 <= d <= DaysInMonth(y, m)
    requires FitsI32(DayNumber(y, m, d) - EPOCH_DAY) && FitsI32(DayNumber(y, m, d) - 60)
    ensures DateOf(DayNumber(y, m, d) - EPOCH_DAY) == Some((y, m, d))
  {
    DateFromFields(y, m, d);
    var z := DayNumber(y, m, d) - 60;
    YearBlockDefined(z - TruncatedEra(z) * 146097);
  }

  /** A day number that fits 32 bits bounds the year. */
  lemma YearIsBounded(f: Fields)
    requires IsCivil(f) && f.year >= 0 && DayNumber(f.year, f.month, f.day) <= 0x1_0000_0000
    ensures f.year <= 200_000_000
  {
    YearClosedForm(f.year);
    MonthClosedForm(f.year, f.month);
  }

  lemma SecondsOfDay(days: int, h: int, mi: int, s: int)
    requires 0 <= h <= 23 && 0 <= mi <= 59 && 0 <= s <= 59
    ensures var t := days * 86400 + h * 3600 + mi * 60 + s;
            t / 86400 == days && t % 86400 / 3600 == h && t % 86400 % 3600 / 60 == mi && t % 86400 % 60 == s
  {
    var r := h * 3600 + mi * 60 + s;
    assert (days * 86400 + r) / 86400 == days && (days * 86400 + r) % 86400 == r;
    assert r / 3600 == h && r % 3600 == mi * 60 + s;
    assert r == (h * 60 + mi) * 60 + s;
  }

  /** Reading the formatted fields of an instant gives back the instant, for every second from
      0000-01-01 on whose day number fits. */
  lemma RoundTripFromSeconds(t: int)
    requires t >= -EPOCH_DAY * 86400
    requires FitsI32(t / 86400 + 719468)
    ensures UnixToYmdhms(t).Some?
    ensures var f := UnixToYmdhms(t).value;
            IsCivil(f) && f.year >= 0 && CountSeconds(f) == t
            && CivilToUnix(f.year, f.month, f.day, f.hour, f.minute, f.second) == Some(t)
  {
    CountOfFields(t);
    var f := UnixToYmdhms(t).value;
    YearNotNegative(f);
    YearIsBounded(f);
    CivilIsCount(f);
  }

  lemma CountOfFields(t: int)
    requires FitsI32(t / 86400) && FitsI32(t / 86400 + 719468)
    ensures UnixToYmdhms(t).Some?
    ensures var f := UnixToYmdhms(t).value;
            IsCivil(f) && DayNumber(f.year, f.month, f.day) == t / 86400 + EPOCH_DAY && CountSeconds(f) == t
  {
    CountOfDate(t / 86400);
    SecondsBack(t);
  }

  lemma CountOfDate(days: int)
    requires FitsI32(days) && FitsI32(days + 719468)
    ensures DateOf(days).Some?
    ensures var (y, m, d) := DateOf(days).value;
            1 <= m <= 12 && 1 <= d <= DaysInMonth(y, m) && DayNumber(y, m, d) == days + EPOCH_DAY
  {
    DateFromDay(days + 719468);
    YearBlockDefined(days + 719468 - TruncatedEra(days + 719468) * 146097);
  }

  lemma SecondsBack(t: int)
    ensures var r := t % 86400;
            t == t / 86400 * 86400 + r / 3600 * 3600 + r % 3600 / 60 * 60 + r % 60
            && 0 <= r / 3600 <= 23 && 0 <= r % 3600 / 60 <= 59 && 0 <= r % 60 <= 59
  {
    TimeOfDayBack(t % 86400);
  }

  lemma TimeOfDayBack(r: int)
    requires 0 <= r < 86400
    ensures r == r / 3600 * 3600 + r % 3600 / 60 * 60 + r % 60
    ensures 0 <= r / 3600 <= 23 && 0 <= r % 3600 / 60 <= 59 && 0 <= r % 60 <= 59
  {
    var h, x := r / 3600, r % 3600;
    var mi, s := x / 60, x % 60;
    assert r == 60 * (60 * h + mi) + s;
  }

  /** None of the `u32` subtractions underflows on a day of an era. */
  lemma YearBlockDefined(doe: int)
    requires 0 <= doe < 146097
    ensures NoUnderflow(doe)
  {
    YearOfEraCovers(doe);
    var yoe := YearOfEra(doe);
    MonthCovers(doe - (365 * yoe + yoe / 4 - yoe / 100));
  }

  lemma YearNotNegative(f: Fields)
    requires IsCivil(f) && DayNumber(f.year, f.month, f.day) >= 0
    ensures f.year >= 0
  {
    YearClosedForm(f.year);
    MonthClosedForm(f.year, f.month);
  }

  // ---- order ----

  /** Field-by-field order of two date-times. */
  predicate Earlier(a: Fields, b: Fields) {
    LexLess([a.year, a.month, a.day, a.hour, a.minute, a.second],
            [b.year, b.month, b.day, b.hour, b.minute, b.second])
  }

  lemma {:induction false} YearsAdvance(a: int, b: int)
    requires 0 <= a < b
    ensures DaysBeforeYear(a) + DaysInYear(a) <= DaysBeforeYear(b)
  {
    if a + 1 < b {
      YearsAdvance(a, b - 1);
    }
  }

  lemma {:induction false} MonthsAdvance(y: int, a: int, b: int)
    requires 1 <= a < b <= 13
    ensures DaysBeforeMonth(y, a) + DaysInMonth(y, a) <= DaysBeforeMonth(y, b)
    decreases b
  {
    if a + 1 < b {
      MonthsAdvance(y, a, b - 1);
    }
  }

  lemma DayWithinYear(y: int, m: int, d: int)
    requires 1 <= m <= 12 && 1 <= d <= DaysInMonth(y, m)
    ensures 0 <= DaysBeforeMonth(y, m) + d - 1 < DaysInYear(y)
  {
    MonthClosedForm(y, m);
  }

  /** Later dates have later day numbers. */
  lemma DaysAdvance(a: Fields, b: Fields)
    requires IsCivil(a) && IsCivil(b) && a.year >= 0
    requires a.year < b.year || (a.year == b.year && (a.month < b.month || (a.month == b.month && a.day < b.day)))
    ensures DayNumber(a.year, a.month, a.day) < DayNumber(b.year, b.month, b.day)
  {
    if a.year < b.year {
      YearsAdvance(a.year, b.year);
      DayWithinYear(a.year, a.month, a.day);
      DayWithinYear(b.year, b.month, b.day);
    } else if a.month < b.month {
      MonthsAdvance(a.year, a.month, b.month);
    }
  }

  /** Counted seconds are strictly increasing in the fields. */
  lemma SecondsAdvance(a: Fields, b: Fields)
    requires IsCivil(a) && IsCivil(b) && a.year >= 0 && b.year >= 0 && Earlier(a, b)
    ensures CountSeconds(a) < CountSeconds(b)
  {
    var x := [a.year, a.month, a.day, a.hour, a.minute, a.second];
    var y := [b.year, b.month, b.day, b.hour, b.minute, b.second];
    var k := LexWitness(x, y);
    assert forall i :: 0 <= i < k ==> x[i] == x[..k][i] && y[i] == y[..k][i];
    if k < 3 {
      assert k > 0 ==> x[0] == y[0];
      assert k > 1 ==> x[1] == y[1];
      DaysAdvance(a, b);
    } else {
      assert x[0] == y[0] && x[1] == y[1] && x[2] == y[2];
      assert k > 3 ==> x[3] == y[3];
      assert k > 4 ==> x[4] == y[4];
    }
  }
}
