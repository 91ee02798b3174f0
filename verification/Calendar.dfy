/**
 * Calendar arithmetic of the emitted date and time helpers, and of the
 * compiler's own evaluation of date literals: days since 1970-01-01 in the
 * proleptic Gregorian calendar.
 */
module Calendar {
  const DAY_MS: int := 86_400_000
  const ERA_DAYS: int := 146_097
  const EPOCH_SHIFT: int := 719_468

  datatype Date = Date(year: int, month: int, day: int)

  // C division: truncated toward zero.
  function CDiv(a: int, b: int): int
    requires b > 0
  {
    if a >= 0 then a / b else -((-a) / b)
  }

  // C remainder: the sign of the dividend.
  function CMod(a: int, b: int): int
    requires b > 0
  {
    a - b * CDiv(a, b)
  }

  predicate IsLeapYear(y: int) {
    (CMod(y, 4) == 0 && CMod(y, 100) != 0) || CMod(y, 400) == 0
  }

  function DaysInMonth(y: int, m: int): int {
    if m == 1 || m == 3 || m == 5 || m == 7 || m == 8 || m == 10 || m == 12 then 31
    else if m == 4 || m == 6 || m == 9 || m == 11 then 30
    else if m == 2 then (if IsLeapYear(y) then 29 else 28)
    else 0
  }

  predicate Valid(date: Date) {
    1 <= date.month <= 12 && 1 <= date.day <= DaysInMonth(date.year, date.month)
  }

  function DaysFromCivil(date: Date): int {
    var y := date.year - (if date.month <= 2 then 1 else 0);
    var era := CDiv(if y >= 0 then y else y - 399, 400);
    var yoe := y - era * 400;
    var mp := date.month + (if date.month > 2 then -3 else 9);
    var doy := CDiv(153 * mp + 2, 5) + date.day - 1;
    var doe := yoe * 365 + CDiv(yoe, 4) - CDiv(yoe, 100) + doy;
    era * 146_097 + doe - 719_468
  }

  function CivilFromDays(days: int): Date {
    var z := days + 719_468;
    var era := CDiv(if z >= 0 then z else z - 146_096, 146_097);
    CivilOfEra(era, z - era * 146_097)
  }

  // Day `doe` of a 400-year era.
  function CivilOfEra(era: int, doe: int): Date {
    var yoe := CDiv(doe - CDiv(doe, 1460) + CDiv(doe, 36524) - CDiv(doe, 146_096), 365);
    var y := yoe + era * 400;
    var doy := doe - (365 * yoe + CDiv(yoe, 4) - CDiv(yoe, 100));
    var mp := CDiv(5 * doy + 2, 153);
    var d := doy - CDiv(153 * mp + 2, 5) + 1;
    var m := mp + (if mp < 10 then 3 else -9);
    Date(if m <= 2 then y + 1 else y, m, d)
  }

  // ----- the pieces, with floored division -----

  lemma EraIsFloor(y: int, n: int)
    requires n == 400 || n == 146_097
    ensures CDiv(if y >= 0 then y else y - (n - 1), n) == y / n
  {
  }

  // First day of year `yoe` of an era (years start in March).
  function YearStart(yoe: int): int {
    365 * yoe + yoe / 4 - yoe / 100
  }

  // First day of month `mp` of a year that starts in March.
  function MonthStart(mp: int): int {
    (153 * mp + 2) / 5
  }

  // A year starting in March is long when the February at its end is.
  predicate LongYear(yoe: int) {
    (yoe + 1) % 4 == 0 && ((yoe + 1) % 100 != 0 || yoe == 399)
  }

  predicate InYear(yoe: int, doy: int) {
    0 <= yoe < 400 && 0 <= doy <= (if LongYear(yoe) then 365 else 364)
  }

  predicate InMonth(yoe: int, mp: int, d: int) {
    0 <= mp <= 11 && d >= 1 &&
    (if mp == 11 then d <= (if LongYear(yoe) then 29 else 28) else MonthStart(mp) + d <= MonthStart(mp + 1))
  }

  function YearOfEra(doe: int): int {
    (doe - doe / 1460 + doe / 36524 - doe / 146_096) / 365
  }

  // A year of an era in centuries, four-year cycles and single years.
  lemma YearParts(c: int, q: int, s: int)
    requires 0 <= c <= 3 && 0 <= q <= 24 && 0 <= s <= 3
    ensures var y := 100 * c + 4 * q + s;
      && YearStart(y) == 36524 * c + 1461 * q + 365 * s
      && (LongYear(y) <==> s == 3 && (q < 24 || c == 3))
  {
    var y := 100 * c + 4 * q + s;
    assert y / 100 == c && y / 4 == 25 * c + q;
  }

  lemma CyclesOf(c: int, q: int, s: int, doy: int)
    requires 0 <= c <= 3 && 0 <= q <= 24 && 0 <= s <= 3 && 0 <= doy <= 365
    requires doy == 365 ==> s == 3 && (q < 24 || c == 3)
    ensures var doe := 36524 * c + 1461 * q + 365 * s + doy;
      && doe / 36524 - doe / 146_096 == c
      && doe / 1460 == 25 * c + q + (if 24 * c + q + 365 * s + doy >= 1460 then 1 else 0)
  {
    var doe := 36524 * c + 1461 * q + 365 * s + doy;
    assert doe == 1460 * (25 * c + q) + (24 * c + q + 365 * s + doy);
  }

  // The closed formula finds the year from any day in it.
  lemma YearOfEraInverts(c: int, q: int, s: int, doy: int)
    requires 0 <= c <= 3 && 0 <= q <= 24 && 0 <= s <= 3 && 0 <= doy <= 365
    requires doy == 365 ==> s == 3 && (q < 24 || c == 3)
    ensures YearOfEra(36524 * c + 1461 * q + 365 * s + doy) == 100 * c + 4 * q + s
  {
    CyclesOf(c, q, s, doy);
    var doe := 36524 * c + 1461 * q + 365 * s + doy;
    var carry := if 24 * c + q + 365 * s + doy >= 1460 then 1 else 0;
    assert doe - doe / 1460 + (doe / 36524 - doe / 146_096) == 365 * (100 * c + 4 * q + s) + (doy - carry);
  }

  lemma YearFromStart(yoe: int, doy: int)
    requires InYear(yoe, doy)
    ensures 0 <= YearStart(yoe) + doy < ERA_DAYS
    ensures YearOfEra(YearStart(yoe) + doy) == yoe
  {
    var c, u := yoe / 100, yoe % 100;
    var q, s := u / 4, u % 4;
    YearParts(c, q, s);
    YearOfEraInverts(c, q, s, doy);
  }

  // Every day of an era lies in the year that the formula gives.
  lemma DayOfEraSplits(doe: int)
    requires 0 <= doe < ERA_DAYS
    ensures InYear(YearOfEra(doe), doe - YearStart(YearOfEra(doe)))
  {
    var c := if doe / 36524 > 3 then 3 else doe / 36524;
    var r := doe - 36524 * c;
    var q := if r / 1461 > 24 then 24 else r / 1461;
    var r' := r - 1461 * q;
    var s := if r' / 365 > 3 then 3 else r' / 365;
    var doy := r' - 365 * s;
    YearParts(c, q, s);
    YearOfEraInverts(c, q, s, doy);
  }

  lemma MonthFromDay(yoe: int, doy: int)
    requires InYear(yoe, doy)
    ensures var mp := (5 * doy + 2) / 153; InMonth(yoe, mp, doy - MonthStart(mp) + 1)
  {
  }

  lemma DayFromMonth(yoe: int, mp: int, d: int)
    requires 0 <= yoe < 400 && InMonth(yoe, mp, d)
    ensures var doy := MonthStart(mp) + d - 1; InYear(yoe, doy) && (5 * doy + 2) / 153 == mp
  {
  }

  // ----- dates as (era, year of era, month, day) -----

  datatype Parts = Parts(era: int, yoe: int, mp: int, d: int)

  predicate Proper(p: Parts) {
    0 <= p.yoe < 400 && InMonth(p.yoe, p.mp, p.d)
  }

  function DateOf(p: Parts): Date {
    var m := p.mp + (if p.mp < 10 then 3 else -9);
    Date(p.yoe + p.era * 400 + (if m <= 2 then 1 else 0), m, p.d)
  }

  function PartsOf(date: Date): Parts {
    var y := date.year - (if date.month <= 2 then 1 else 0);
    Parts(y / 400, y % 400, date.month + (if date.month > 2 then -3 else 9), date.day)
  }

  function DayNumber(p: Parts): int {
    p.era * ERA_DAYS + YearStart(p.yoe) + MonthStart(p.mp) + p.d - 1 - EPOCH_SHIFT
  }

  lemma Remainders(a: int)
    ensures CMod(a, 4) == 0 <==> a % 4 == 0
    ensures CMod(a, 100) == 0 <==> a % 100 == 0
    ensures CMod(a, 400) == 0 <==> a % 400 == 0
  {
  }

  lemma NextRemainders(y: int)
    ensures (y + 1) % 4 == (y % 400 + 1) % 4
    ensures (y + 1) % 100 == (y % 400 + 1) % 100
    ensures (y + 1) % 400 == 0 <==> y % 400 == 399
  {
    var k, r := y / 400, y % 400;
    assert y + 1 == 400 * k + (r + 1);
    WholeFours(100 * k, r + 1);
    WholeHundreds(4 * k, r + 1);
  }

  lemma WholeFours(k: int, r: int)
    ensures (4 * k + r) % 4 == r % 4
  {
  }

  lemma WholeHundreds(k: int, r: int)
    ensures (100 * k + r) % 100 == r % 100
  {
  }

  lemma LeapIsLong(y: int)
    ensures IsLeapYear(y + 1) <==> LongYear(y % 400)
  {
    Remainders(y + 1);
    NextRemainders(y);
  }

  lemma PartsAreProper(date: Date)
    requires Valid(date)
    ensures Proper(PartsOf(date)) && DateOf(PartsOf(date)) == date
  {
    LeapIsLong(date.year - 1);
  }

  lemma ProperIsValid(p: Parts)
    requires Proper(p)
    ensures Valid(DateOf(p)) && PartsOf(DateOf(p)) == p
  {
    var y := p.yoe + p.era * 400;
    EraOf(p.era, p.yoe);
    LeapIsLong(y);
    MonthLengths(p.yoe, p.mp, p.d);
  }

  lemma EraOf(era: int, yoe: int)
    requires 0 <= yoe < 400
    ensures (yoe + era * 400) / 400 == era && (yoe + era * 400) % 400 == yoe
  {
  }

  // Month lengths of a year that starts in March.
  lemma MonthLengths(yoe: int, mp: int, d: int)
    requires 0 <= yoe < 400 && InMonth(yoe, mp, d)
    ensures d <= 31
    ensures mp == 1 || mp == 3 || mp == 6 || mp == 8 ==> d <= 30
    ensures mp == 11 ==> d <= if LongYear(yoe) then 29 else 28
  {
  }

  lemma DaysByParts(date: Date)
    requires Valid(date)
    ensures DaysFromCivil(date) == DayNumber(PartsOf(date))
  {
    var y := date.year - (if date.month <= 2 then 1 else 0);
    EraIsFloor(y, 400);
  }

  // The date of day `doe` of an era, with floored division throughout.
  function PartsOfEra(era: int, doe: int): Parts {
    var yoe := YearOfEra(doe);
    var doy := doe - YearStart(yoe);
    var mp := (5 * doy + 2) / 153;
    Parts(era, yoe, mp, doy - MonthStart(mp) + 1)
  }

  lemma CivilByEra(days: int)
    ensures var z := days + EPOCH_SHIFT;
      CivilFromDays(days) == DateOf(PartsOfEra(z / ERA_DAYS, z % ERA_DAYS))
  {
    hide CivilOfEra, DateOf, PartsOfEra;
    var z := days + EPOCH_SHIFT;
    EraIsFloor(z, 146_097);
    WholeEras(z);
    DateOfEraDay(z / ERA_DAYS, z % ERA_DAYS);
  }

  lemma WholeEras(z: int)
    ensures z - (z / ERA_DAYS) * ERA_DAYS == z % ERA_DAYS
  {
  }

  lemma DateOfEraDay(era: int, doe: int)
    requires 0 <= doe < ERA_DAYS
    ensures CivilOfEra(era, doe) == DateOf(PartsOfEra(era, doe))
  {
    CorrectedDayNonNegative(doe);
    DayOfEraSplits(doe);
    DateSteps(era, doe);
  }

  lemma DateSteps(era: int, doe: int)
    requires 0 <= doe < ERA_DAYS
    requires doe - doe / 1460 + doe / 36524 - doe / 146_096 >= 0
    requires InYear(YearOfEra(doe), doe - YearStart(YearOfEra(doe)))
    ensures CivilOfEra(era, doe) == DateOf(PartsOfEra(era, doe))
  {
    var yoe := YearOfEra(doe);
    assert CDiv(doe - CDiv(doe, 1460) + CDiv(doe, 36524) - CDiv(doe, 146_096), 365) == yoe;
    assert CDiv(yoe, 4) == yoe / 4 && CDiv(yoe, 100) == yoe / 100;
  }

  lemma CorrectedDayNonNegative(doe: int)
    requires 0 <= doe < ERA_DAYS
    ensures doe - doe / 1460 + doe / 36524 - doe / 146_096 >= 0
  {
  }

  lemma EraDayIsProper(era: int, doe: int)
    requires 0 <= doe < ERA_DAYS
    ensures Proper(PartsOfEra(era, doe))
  {
    DayOfEraSplits(doe);
    MonthFromDay(YearOfEra(doe), doe - YearStart(YearOfEra(doe)));
  }

  lemma EraDayNumber(era: int, doe: int)
    ensures DayNumber(PartsOfEra(era, doe)) == era * ERA_DAYS + doe - EPOCH_SHIFT
  {
  }

  lemma CivilByParts(days: int) returns (p: Parts)
    ensures Proper(p) && CivilFromDays(days) == DateOf(p) && DayNumber(p) == days
  {
    CivilByEra(days);
    var z := days + EPOCH_SHIFT;
    WholeEras(z);
    EraDayIsProper(z / ERA_DAYS, z % ERA_DAYS);
    EraDayNumber(z / ERA_DAYS, z % ERA_DAYS);
    p := PartsOfEra(z / ERA_DAYS, z % ERA_DAYS);
  }

  function EraDay(p: Parts): int {
    YearStart(p.yoe) + MonthStart(p.mp) + p.d - 1
  }

  lemma PartsOfEraInverts(p: Parts)
    requires Proper(p)
    ensures 0 <= EraDay(p) < ERA_DAYS && PartsOfEra(p.era, EraDay(p)) == p
  {
    DayFromMonth(p.yoe, p.mp, p.d);
    YearFromStart(p.yoe, MonthStart(p.mp) + p.d - 1);
  }

  lemma DayNumberByEra(p: Parts)
    ensures DayNumber(p) + EPOCH_SHIFT == p.era * ERA_DAYS + EraDay(p)
  {
  }

  lemma EraOfDay(z: int, era: int, doe: int)
    requires 0 <= doe < ERA_DAYS && z == era * ERA_DAYS + doe
    ensures z / ERA_DAYS == era && z % ERA_DAYS == doe
  {
  }

  lemma DayNumberDecides(p: Parts)
    requires Proper(p)
    ensures CivilFromDays(DayNumber(p)) == DateOf(p)
  {
    CivilByEra(DayNumber(p));
    PartsOfEraInverts(p);
    DayNumberByEra(p);
    EraOfDay(DayNumber(p) + EPOCH_SHIFT, p.era, EraDay(p));
  }

  // ----- the bijection -----

  // Every day number is a valid date, and converting back returns it.
  lemma DaysRoundTrip(days: int)
    ensures Valid(CivilFromDays(days)) && DaysFromCivil(CivilFromDays(days)) == days
  {
    var p := CivilByParts(days);
    ProperIsValid(p);
    DaysByParts(DateOf(p));
  }

  // Every valid date, negative years included, is returned by its day number.
  lemma CivilRoundTrip(date: Date)
    requires Valid(date)
    ensures CivilFromDays(DaysFromCivil(date)) == date
  {
    PartsAreProper(date);
    DaysByParts(date);
    DayNumberDecides(PartsOf(date));
  }

  // The calendar day after a date, counted with the month lengths.
  function NextDay(date: Date): Date {
    if date.day < DaysInMonth(date.year, date.month) then date.(day := date.day + 1)
    else if date.month < 12 then Date(date.year, date.month + 1, 1)
    else Date(date.year + 1, 1, 1)
  }

  lemma NextDayIsValid(date: Date)
    requires Valid(date)
    ensures Valid(NextDay(date))
  {
  }

  // Day numbers count calendar days from 1970-01-01: with the bijection this
  // determines both functions.
  lemma DaysCountUp(date: Date)
    requires Valid(date)
    ensures DaysFromCivil(NextDay(date)) == DaysFromCivil(date) + 1
  {
    NextDayIsValid(date);
    DaysByParts(date);
    DaysByParts(NextDay(date));
    PartsAreProper(date);
    LeapIsLong(date.year - 1);
    NextParts(date);
  }

  lemma EpochIsDayZero()
    ensures DaysFromCivil(Date(1970, 1, 1)) == 0
  {
    assert CDiv(1969, 400) == 4;
    assert CDiv(153 * 10 + 2, 5) == 306;
    assert CDiv(369, 4) == 92 && CDiv(369, 100) == 3;
  }

  // The next day in parts: within the month, into the next one, or into March.
  lemma NextParts(date: Date)
    requires Valid(date) && (IsLeapYear(date.year) <==> LongYear((date.year - 1) % 400))
    ensures DayNumber(PartsOf(NextDay(date))) == DayNumber(PartsOf(date)) + 1
  {
    var p := PartsOf(date);
    var next := NextDay(date);
    if date.day < DaysInMonth(date.year, date.month) {
      assert PartsOf(next) == p.(d := p.d + 1);
    } else if date.month == 2 {
      IntoMarch(date.year);
    } else {
      MonthEnds(date.month);
      if date.month == 12 {
        assert PartsOf(next) == Parts(p.era, p.yoe, 10, 1);
      } else {
        assert PartsOf(next) == Parts(p.era, p.yoe, p.mp + 1, 1);
      }
      EndOfMonth(p, DaysInMonth(date.year, date.month));
    }
  }

  lemma EndOfMonth(p: Parts, length: int)
    requires p.d == length && MonthStart(p.mp + 1) == MonthStart(p.mp) + length
    ensures DayNumber(Parts(p.era, p.yoe, p.mp + 1, 1)) == DayNumber(p) + 1
  {
  }

  lemma IntoMarch(y: int)
    requires IsLeapYear(y) <==> LongYear((y - 1) % 400)
    ensures DayNumber(PartsOf(Date(y, 3, 1))) == DayNumber(PartsOf(Date(y, 2, DaysInMonth(y, 2)))) + 1
  {
    var p := PartsOf(Date(y, 2, DaysInMonth(y, 2)));
    assert p == Parts((y - 1) / 400, (y - 1) % 400, 11, DaysInMonth(y, 2));
    assert PartsOf(Date(y, 3, 1)) == Parts(y / 400, y % 400, 0, 1);
    EndOfYear(p.yoe);
    NextYear(y - 1);
    assert MonthStart(11) == 337 && MonthStart(0) == 0;
  }

  lemma MonthEnds(m: int)
    requires 1 <= m <= 12 && m != 2
    ensures var mp := m + (if m > 2 then -3 else 9);
      MonthStart(mp + 1) == MonthStart(mp) +
        (if m == 4 || m == 6 || m == 9 || m == 11 then 30 else 31)
  {
  }

  lemma NextYear(y: int)
    ensures (y + 1) / 400 == (if y % 400 == 399 then y / 400 + 1 else y / 400)
    ensures (y + 1) % 400 == (if y % 400 == 399 then 0 else y % 400 + 1)
  {
  }

  lemma EndOfYear(yoe: int)
    requires 0 <= yoe < 400
    ensures var length := if LongYear(yoe) then 366 else 365;
      YearStart(yoe) + length == if yoe == 399 then ERA_DAYS else YearStart(yoe + 1)
  {
  }

  // ----- date and time of day -----

  datatype DateTime = DateTime(date: Date, hour: int, minute: int, second: int, ms: int)

  predicate ValidTime(t: DateTime) {
    0 <= t.hour <= 23 && 0 <= t.minute <= 59 && 0 <= t.second <= 59 && 0 <= t.ms <= 999
  }

  function SplitTod(t: int): (int, int, int, int) {
    var ms := CMod(CMod(t, 86_400_000) + 86_400_000, 86_400_000);
    (CDiv(ms, 3_600_000), CDiv(CMod(ms, 3_600_000), 60_000), CDiv(CMod(ms, 60_000), 1000), CMod(ms, 1000))
  }

  function SplitDt(dt: int): DateTime {
    var days := CDiv(dt, 86_400_000);
    var tod := CMod(dt, 86_400_000);
    var (days', tod') := if tod < 0 then (days - 1, tod + 86_400_000) else (days, tod);
    var (h, mi, s, ms) := SplitTod(tod');
    DateTime(CivilFromDays(days'), h, mi, s, ms)
  }

  function ConcatDate(date: Date): int {
    if Valid(date) then DaysFromCivil(date) else 0
  }

  function ConcatTod(h: int, m: int, s: int, ms: int): int {
    if 0 <= h <= 23 && 0 <= m <= 59 && 0 <= s <= 59 && 0 <= ms <= 999 then ((h * 60 + m) * 60 + s) * 1000 + ms else 0
  }

  function ConcatDt(t: DateTime): int {
    ConcatDate(t.date) * 86_400_000 + ConcatTod(t.hour, t.minute, t.second, t.ms)
  }

  lemma TodRoundTrip(h: int, m: int, s: int, ms: int)
    requires 0 <= h <= 23 && 0 <= m <= 59 && 0 <= s <= 59 && 0 <= ms <= 999
    ensures 0 <= ConcatTod(h, m, s, ms) < DAY_MS
    ensures SplitTod(ConcatTod(h, m, s, ms)) == (h, m, s, ms)
  {
    var t := ConcatTod(h, m, s, ms);
    assert t == h * 3_600_000 + m * 60_000 + s * 1000 + ms;
    SplitTodParts(t);
    var (h', m', s', ms') := SplitTod(t);
    SameTod(h, m, s, ms, h', m', s', ms');
  }

  lemma SameTod(h: int, m: int, s: int, ms: int, h': int, m': int, s': int, ms': int)
    requires 0 <= m <= 59 && 0 <= s <= 59 && 0 <= ms <= 999
    requires 0 <= m' <= 59 && 0 <= s' <= 59 && 0 <= ms' <= 999
    requires ((h * 60 + m) * 60 + s) * 1000 + ms == ((h' * 60 + m') * 60 + s') * 1000 + ms'
    ensures h == h' && m == m' && s == s' && ms == ms'
  {
    assert (h * 60 + m) * 60 + s == (h' * 60 + m') * 60 + s';
    assert h * 60 + m == h' * 60 + m';
  }

  lemma SplitIsFloor(dt: int)
    ensures var days := CDiv(dt, 86_400_000);
      var tod := CMod(dt, 86_400_000);
      (if tod < 0 then (days - 1, tod + 86_400_000) else (days, tod)) == (dt / 86_400_000, dt % 86_400_000)
  {
  }

  // Splitting a combined date and time gives its parts back.
  lemma DateTimeRoundTrip(t: DateTime)
    requires Valid(t.date) && ValidTime(t)
    ensures SplitDt(ConcatDt(t)) == t
  {
    TodRoundTrip(t.hour, t.minute, t.second, t.ms);
    CivilRoundTrip(t.date);
    var days, tod := DaysFromCivil(t.date), ConcatTod(t.hour, t.minute, t.second, t.ms);
    var dt := ConcatDt(t);
    assert dt == days * 86_400_000 + tod;
    assert dt / 86_400_000 == days && dt % 86_400_000 == tod;
    SplitByFloor(dt);
  }

  lemma SplitByFloor(dt: int)
    ensures var (h, mi, s, ms) := SplitTod(dt % 86_400_000);
      SplitDt(dt) == DateTime(CivilFromDays(dt / 86_400_000), h, mi, s, ms)
  {
    SplitIsFloor(dt);
  }

  // Combining the parts of any time stamp, before 1970 too, gives it back.
  lemma TimeStampRoundTrip(dt: int)
    ensures Valid(SplitDt(dt).date) && ValidTime(SplitDt(dt)) && ConcatDt(SplitDt(dt)) == dt
  {
    SplitByFloor(dt);
    DaysRoundTrip(dt / 86_400_000);
    var tod := dt % 86_400_000;
    SplitTodParts(tod);
  }

  lemma SplitTodParts(tod: int)
    requires 0 <= tod < DAY_MS
    ensures var (h, m, s, ms) := SplitTod(tod);
      0 <= h <= 23 && 0 <= m <= 59 && 0 <= s <= 59 && 0 <= ms <= 999 && ((h * 60 + m) * 60 + s) * 1000 + ms == tod
  {
    assert CMod(CMod(tod, 86_400_000) + 86_400_000, 86_400_000) == tod by { WrapsOnce(tod); }
    var h, r := tod / 3_600_000, tod % 3_600_000;
    var m, r' := r / 60_000, r % 60_000;
    var s, ms := r' / 1000, r' % 1000;
    assert tod == 60_000 * (60 * h + m) + r';
    assert tod % 60_000 == r' by { WholeMinutes(60 * h + m, r'); }
    assert tod == 1000 * (60 * (60 * h + m) + s) + ms;
    assert tod % 1000 == ms by { WholeSeconds(60 * (60 * h + m) + s, ms); }
  }

  lemma WrapsOnce(tod: int)
    requires 0 <= tod < DAY_MS
    ensures CMod(tod, 86_400_000) == tod && CMod(tod + 86_400_000, 86_400_000) == tod
  {
  }

  lemma WholeMinutes(k: int, r: int)
    requires 0 <= r < 60_000
    ensures (60_000 * k + r) % 60_000 == r
  {
  }

  lemma WholeSeconds(k: int, r: int)
    requires 0 <= r < 1000
    ensures (1000 * k + r) % 1000 == r
  {
  }

  function DayOfWeek(days: int): int {
    CMod(CMod(days + 3, 7) + 7, 7) + 1
  }

  // Monday is 1; weekdays advance by one each day, before 1970 too.
  lemma DayOfWeekCycles(days: int)
    ensures 1 <= DayOfWeek(days) <= 7
    ensures DayOfWeek(days + 1) == if DayOfWeek(days) == 7 then 1 else DayOfWeek(days) + 1
    ensures DayOfWeek(0) == 4
  {
    WeekIsFloor(days);
    WeekIsFloor(days + 1);
  }

  lemma WeekIsFloor(days: int)
    ensures DayOfWeek(days) == (days + 3) % 7 + 1
  {
  }
}
