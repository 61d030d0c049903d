/** The civil calendar of inc/date.h: days since 1970-01-01 against proleptic Gregorian dates. */
module Date {

  // ----- C division: truncates toward zero, where Dafny's is Euclidean -----

  function TruncDiv(a: int, b: int): int
    requires b > 0
  {
    if a >= 0 then a / b else -((-a) / b)
  }

  // ----- The two conversions, expression by expression -----

  function DaysFromCivil(y0: int, m: int, d: int): int {
    var y := if m <= 2 then y0 - 1 else y0;
    var era := TruncDiv(if y >= 0 then y else y - 399, 400);
    var yoe := y - era * 400;
    var doy := TruncDiv(153 * (m + (if m > 2 then -3 else 9)) + 2, 5) + d - 1;
    var doe := yoe * 365 + TruncDiv(yoe, 4) - TruncDiv(yoe, 100) + doy;
    era * 146097 + doe - 719468
  }

  datatype Civil = Civil(year: int, mon: int, mday: int)

  function CivilFromDays(z0: int): Civil {
    var z := z0 + 719468;
    var era := TruncDiv(if z >= 0 then z else z - 146096, 146097);
    CivilInEra(era, z - era * 146097)
  }

  function CivilInEra(era: int, doe: int): Civil {
    var yoe := TruncDiv(doe - TruncDiv(doe, 1460) + TruncDiv(doe, 36524) - TruncDiv(doe, 146096), 365);
    var doy := doe - (365 * yoe + TruncDiv(yoe, 4) - TruncDiv(yoe, 100));
    var mp := TruncDiv(5 * doy + 2, 153);
    var d := doy - TruncDiv(153 * mp + 2, 5) + 1;
    var m := mp + (if mp < 10 then 3 else -9);
    Civil(yoe + era * 400 + (if m <= 2 then 1 else 0), m, d)
  }

  // ----- The calendar itself, stated without any of that arithmetic -----

  predicate IsLeap(y: int) {
    y % 4 == 0 && (y % 100 != 0 || y % 400 == 0)
  }

  function DaysInMonth(y: int, m: int): int
    requires 1 <= m <= 12
  {
    if m == 2 then (if IsLeap(y) then 29 else 28)
    else if m in {4, 6, 9, 11} then 30
    else 31
  }

  predicate Valid(c: Civil) {
    1 <= c.mon <= 12 && 1 <= c.mday <= DaysInMonth(c.year, c.mon)
  }

  function NextDay(c: Civil): Civil
    requires Valid(c)
  {
    if c.mday < DaysInMonth(c.year, c.mon) then c.(mday := c.mday + 1)
    else if c.mon < 12 then Civil(c.year, c.mon + 1, 1)
    else Civil(c.year + 1, 1, 1)
  }

  function Days(c: Civil): int {
    DaysFromCivil(c.year, c.mon, c.mday)
  }

  // ----- Years that start in March, so the leap day is the last of its year -----

  // First day of the March year yoe of a 400-year era.
  function YearStart(yoe: int): int {
    365 * yoe + yoe / 4 - yoe / 100
  }

  // First day of the March month mp (0 is March, 11 is February).
  function MonthStart(mp: int): int {
    (153 * mp + 2) / 5
  }

  predicate MarchYearEndsInLeapDay(yoe: int) {
    yoe % 4 == 3 && (yoe % 100 != 99 || yoe == 399)
  }

  function MarchYearLength(yoe: int): int {
    if MarchYearEndsInLeapDay(yoe) then 366 else 365
  }

  lemma YearStartStep(yoe: int)
    requires 0 <= yoe < 400
    ensures yoe < 399 ==> YearStart(yoe + 1) == YearStart(yoe) + MarchYearLength(yoe)
    ensures yoe == 399 ==> YearStart(yoe) + MarchYearLength(yoe) == 146097
    ensures YearStart(0) == 0
  {
    assert (yoe + 1) / 4 == yoe / 4 + (if yoe % 4 == 3 then 1 else 0);
    assert (yoe + 1) / 100 == yoe / 100 + (if yoe % 100 == 99 then 1 else 0);
    assert yoe % 100 == 99 ==> yoe % 4 == 3;
  }

  // The correction terms recover the year from the day of the era: split the
  // year into centuries c, leap cycles q and a remainder s.
  lemma YearOfEra(c: int, q: int, s: int, doy: int)
    requires 0 <= c < 4 && 0 <= q < 25 && 0 <= s < 4
    requires 0 <= doy < MarchYearLength(100 * c + 4 * q + s)
    ensures var yoe := 100 * c + 4 * q + s; var doe := YearStart(yoe) + doy;
            0 <= doe < 146097 && (doe - doe / 1460 + doe / 36524 - doe / 146096) / 365 == yoe
  {
    hide MarchYearLength;
    var yoe := 100 * c + 4 * q + s;
    var doe := 36524 * c + 1461 * q + 365 * s + doy;
    var t := 24 * c + q + 365 * s + doy;
    LeapDaysBefore(c, q, s);
    DayInYear(c, q, s, doy);
    Centuries(c, 1461 * q + 365 * s + doy);
    Cycles(25 * c + q, t);
    Years(yoe, doy - t / 1460);
  }

  // Only a leap day comes behind 1460 days of its cycle.
  lemma DayInYear(c: int, q: int, s: int, doy: int)
    requires 0 <= c < 4 && 0 <= q < 25 && 0 <= s < 4
    requires 0 <= doy < MarchYearLength(100 * c + 4 * q + s)
    ensures var t := 24 * c + q + 365 * s + doy; 0 <= doy - t / 1460 < 365 && 0 <= t < 2920
    ensures 1461 * q + 365 * s + doy < 36524 + (if c == 3 then 1 else 0)
  {
    var t := 24 * c + q + 365 * s + doy;
    LeapDaysBefore(c, q, s);
    assert doy == 365 ==> t / 1460 == 1;
    assert doy == 0 ==> t / 1460 == 0;
  }

  lemma LeapDaysBefore(c: int, q: int, s: int)
    requires 0 <= c < 4 && 0 <= q < 25 && 0 <= s < 4
    ensures (100 * c + 4 * q + s) / 4 == 25 * c + q && (100 * c + 4 * q + s) / 100 == c
  {
  }

  lemma Cycles(n: int, t: int)
    requires 0 <= t < 2920
    ensures (1460 * n + t) / 1460 == n + t / 1460 && 0 <= t / 1460 <= 1
  {
  }

  lemma Years(yoe: int, x: int)
    requires 0 <= x < 365
    ensures (365 * yoe + x) / 365 == yoe
  {
  }

  lemma Centuries(c: int, w: int)
    requires 0 <= c < 4 && 0 <= w < 36524 + (if c == 3 then 1 else 0)
    ensures (36524 * c + w) / 36524 - (36524 * c + w) / 146096 == c
  {
  }

  // A day of a March year determines its month.
  lemma MonthOfYear(mp: int, k: int)
    requires 0 <= mp < 12 && 0 <= k < (if mp == 11 then 29 else MonthStart(mp + 1) - MonthStart(mp))
    ensures (5 * (MonthStart(mp) + k) + 2) / 153 == mp
  {
  }

  // ----- A date or a day number, taken apart around the March year -----

  datatype Parts = Parts(era: int, c: int, q: int, s: int, mp: int, k: int) {
    function Yoe(): int { 100 * c + 4 * q + s }
    function Doy(): int { MonthStart(mp) + k }

    predicate Valid() {
      0 <= c < 4 && 0 <= q < 25 && 0 <= s < 4 && 0 <= mp < 12 && 0 <= k &&
      Doy() < MonthEnd(Yoe(), mp)
    }

    function Day(): int { 146097 * era + YearStart(Yoe()) + Doy() - 719468 }

    function Date(): Civil {
      Civil(400 * era + Yoe() + (if mp >= 10 then 1 else 0), if mp < 10 then mp + 3 else mp - 9, k + 1)
    }
  }

  function PartsOfDate(c: Civil): (p: Parts)
    requires Valid(c)
    ensures p.Date() == c
  {
    var y := if c.mon <= 2 then c.year - 1 else c.year;
    var yoe := y % 400;
    Parts(y / 400, yoe / 100, yoe % 100 / 4, yoe % 4, (c.mon + 9) % 12, c.mday - 1)
  }

  lemma LeapDayEndsMarchYear(era: int, yoe: int)
    requires 0 <= yoe < 400
    ensures IsLeap(400 * era + yoe + 1) <==> MarchYearEndsInLeapDay(yoe)
  {
    WholeErasDropOut(era, yoe + 1);
    LeapInMarchYears(yoe);
    hide MarchYearEndsInLeapDay;
  }

  lemma LeapInMarchYears(yoe: int)
    requires 0 <= yoe < 400
    ensures IsLeap(yoe + 1) <==> MarchYearEndsInLeapDay(yoe)
  {
  }

  lemma WholeErasDropOut(era: int, r: int)
    ensures (400 * era + r) % 4 == r % 4
    ensures (400 * era + r) % 100 == r % 100
    ensures (400 * era + r) % 400 == r % 400
  {
    Mod4(100 * era + r / 4, r % 4);
    Mod100(4 * era + r / 100, r % 100);
    Mod400(era + r / 400, r % 400);
  }

  lemma Mod4(k: int, r: int)
    requires 0 <= r < 4
    ensures (4 * k + r) % 4 == r
  {
  }

  lemma Mod100(k: int, r: int)
    requires 0 <= r < 100
    ensures (100 * k + r) % 100 == r
  {
  }

  lemma Mod400(k: int, r: int)
    requires 0 <= r < 400
    ensures (400 * k + r) % 400 == r
  {
  }

  // First day behind the March month mp.
  function MonthEnd(yoe: int, mp: int): int {
    if mp == 11 then MarchYearLength(yoe) else MonthStart(mp + 1)
  }

  // Months counted from March have the lengths the calendar gives them.
  lemma MonthLengths(era: int, yoe: int, mp: int)
    requires 0 <= yoe < 400 && 0 <= mp < 12
    ensures var y := 400 * era + yoe + (if mp >= 10 then 1 else 0);
            MonthEnd(yoe, mp) - MonthStart(mp) == DaysInMonth(y, if mp < 10 then mp + 3 else mp - 9)
  {
    hide IsLeap, MarchYearEndsInLeapDay;
    LeapDayEndsMarchYear(era, yoe);
  }

  lemma MonthsHaveDays(yoe: int, mp: int)
    requires 0 <= mp < 12
    ensures 0 == MonthStart(0) <= MonthStart(mp) < MonthEnd(yoe, mp) <= MarchYearLength(yoe)
  {
  }

  lemma ValidPartsAreValidDates(p: Parts)
    requires 0 <= p.c < 4 && 0 <= p.q < 25 && 0 <= p.s < 4 && 0 <= p.mp < 12
    ensures p.Valid() <==> Valid(p.Date())
  {
    hide MonthStart, MarchYearLength, DaysInMonth;
    MonthLengths(p.era, p.Yoe(), p.mp);
  }

  lemma EraOfYear(era: int, yoe: int)
    requires 0 <= yoe < 400
    ensures var y := 400 * era + yoe; TruncDiv(if y >= 0 then y else y - 399, 400) == era
  {
    assert (400 * era + yoe) / 400 == era;
  }

  lemma StartOfMonth(mp: int)
    requires 0 <= mp < 12
    ensures var m := if mp < 10 then mp + 3 else mp - 9;
            TruncDiv(153 * (m + (if m > 2 then -3 else 9)) + 2, 5) == MonthStart(mp)
  {
  }

  lemma StartOfYear(yoe: int)
    requires 0 <= yoe < 400
    ensures yoe * 365 + TruncDiv(yoe, 4) - TruncDiv(yoe, 100) == YearStart(yoe)
  {
  }

  lemma DaysOfParts(p: Parts)
    requires p.Valid()
    ensures Days(p.Date()) == p.Day()
  {
    hide TruncDiv, MonthStart, YearStart, MonthEnd;
    EraOfYear(p.era, p.Yoe());
    StartOfMonth(p.mp);
    StartOfYear(p.Yoe());
  }

  lemma EraOfDay(era: int, doe: int)
    requires 0 <= doe < 146097
    ensures var z := 146097 * era + doe; TruncDiv(if z >= 0 then z else z - 146096, 146097) == era
  {
  }

  // Every day number has parts.
  function PartsOfDay(z: int): Parts {
    PartsInEra((z + 719468) / 146097, (z + 719468) % 146097)
  }

  function PartsInEra(era: int, doe: int): Parts {
    var c := if doe == 146096 then 3 else doe / 36524;
    var w := doe - 36524 * c;
    var q := w / 1461;
    var v := w - 1461 * q;
    var s := if v == 1460 then 3 else v / 365;
    var doy := v - 365 * s;
    var mp := (5 * doy + 2) / 153;
    Parts(era, c, q, s, mp, doy - MonthStart(mp))
  }

  lemma PartsInEraAreValid(era: int, doe: int)
    requires 0 <= doe < 146097
    ensures var p := PartsInEra(era, doe); p.Valid() && YearStart(p.Yoe()) + p.Doy() == doe && p.era == era
  {
    var p := PartsInEra(era, doe);
    var w := doe - 36524 * p.c;
    assert 0 <= p.c < 4 && 0 <= w <= 36524 && (p.c < 3 ==> w < 36524);
    assert 0 <= p.q < 25 && 0 <= p.s < 4;
    var doy := w - 1461 * p.q - 365 * p.s;
    assert 0 <= doy <= 365 && (doy == 365 ==> p.s == 3 && (p.q == 24 ==> p.c == 3));
    assert p.Doy() == doy;
    LeapDaysBefore(p.c, p.q, p.s);
  }

  lemma PartsOfDayAreValid(z: int)
    ensures PartsOfDay(z).Valid() && PartsOfDay(z).Day() == z
  {
    hide PartsInEra, YearStart, MonthStart, Parts.Valid;
    PartsInEraAreValid((z + 719468) / 146097, (z + 719468) % 146097);
  }

  // CivilInEra, on numbers that are not negative.
  function CivilFromEra(era: int, doe: int): Civil {
    var yoe := (doe - doe / 1460 + doe / 36524 - doe / 146096) / 365;
    var doy := doe - YearStart(yoe);
    var mp := (5 * doy + 2) / 153;
    Civil(yoe + era * 400 + (if mp >= 10 then 1 else 0), if mp < 10 then mp + 3 else mp - 9, doy - MonthStart(mp) + 1)
  }

  lemma YearAndMonthOfParts(p: Parts)
    requires p.Valid()
    ensures 0 <= p.Yoe() < 400 && 0 <= p.Doy() <= 365
    ensures var doe := YearStart(p.Yoe()) + p.Doy();
            0 <= doe < 146097 && (doe - doe / 1460 + doe / 36524 - doe / 146096) / 365 == p.Yoe()
    ensures (5 * p.Doy() + 2) / 153 == p.mp
  {
    YearOfEra(p.c, p.q, p.s, p.Doy());
    MonthOfYear(p.mp, p.k);
  }

  lemma YearInEra(doe: int)
    requires 0 <= doe < 146097
    ensures var yoe := (doe - doe / 1460 + doe / 36524 - doe / 146096) / 365;
            0 <= yoe < 400 && 0 <= doe - YearStart(yoe) <= 365
  {
    hide *;
    PartsInEraAreValid(0, doe);
    YearAndMonthOfParts(PartsInEra(0, doe));
  }

  // On numbers that are not negative C's division is Dafny's.
  lemma Truncates(era: int, doe: int)
    requires 0 <= doe < 146097
    ensures CivilInEra(era, doe) == CivilFromEra(era, doe)
  {
    hide YearStart, MonthStart, TruncDiv;
    var yoe := (doe - doe / 1460 + doe / 36524 - doe / 146096) / 365;
    YearInEra(doe);
    YearTruncates(doe);
    StartOfYear(yoe);
    MonthTruncates(doe - YearStart(yoe));
  }

  lemma YearTruncates(doe: int)
    requires 0 <= doe < 146097
    ensures TruncDiv(doe - TruncDiv(doe, 1460) + TruncDiv(doe, 36524) - TruncDiv(doe, 146096), 365) ==
            (doe - doe / 1460 + doe / 36524 - doe / 146096) / 365
  {
  }

  lemma MonthTruncates(doy: int)
    requires 0 <= doy
    ensures var mp := (5 * doy + 2) / 153;
            TruncDiv(5 * doy + 2, 153) == mp && TruncDiv(153 * mp + 2, 5) == MonthStart(mp)
  {
  }

  lemma DateOfDay(p: Parts)
    requires p.Valid()
    ensures CivilFromDays(p.Day()) == p.Date()
  {
    hide CivilInEra, TruncDiv, YearStart, MonthStart, Parts.Valid, Parts.Yoe;
    var doe := YearStart(p.Yoe()) + p.Doy();
    YearAndMonthOfParts(p);
    EraOfDay(p.era, doe);
    Truncates(p.era, doe);
  }

  // ----- The promises -----

  // From a date to its day number and back.
  lemma CivilRoundTrip(c: Civil)
    requires Valid(c)
    ensures CivilFromDays(Days(c)) == c
  {
    var p := PartsOfDate(c);
    ValidPartsAreValidDates(p);
    DaysOfParts(p);
    DateOfDay(p);
  }

  // From any day number, before or after 1970, to a real date and back.
  lemma DaysRoundTrip(z: int)
    ensures Valid(CivilFromDays(z)) && Days(CivilFromDays(z)) == z
  {
    var p := PartsOfDay(z);
    PartsOfDayAreValid(z);
    ValidPartsAreValidDates(p);
    DateOfDay(p);
    DaysOfParts(p);
  }

  lemma EpochIsDayZero()
    ensures Days(Civil(1970, 1, 1)) == 0
  {
  }

  // The day after, on parts: carry from day to month, month to March year, year to era.
  function NextParts(p: Parts): Parts {
    if p.mp < 11 && p.Doy() + 1 == MonthStart(p.mp + 1) then p.(mp := p.mp + 1, k := 0)
    else if p.mp < 11 || p.Doy() + 1 < MarchYearLength(p.Yoe()) then p.(k := p.k + 1)
    else if p.s < 3 then p.(s := p.s + 1, mp := 0, k := 0)
    else if p.q < 24 then p.(q := p.q + 1, s := 0, mp := 0, k := 0)
    else if p.c < 3 then p.(c := p.c + 1, q := 0, s := 0, mp := 0, k := 0)
    else Parts(p.era + 1, 0, 0, 0, 0, 0)
  }

  lemma NextPartsIsOneMore(p: Parts)
    requires p.Valid()
    ensures NextParts(p).Valid() && NextParts(p).Day() == p.Day() + 1
  {
    hide YearStart, MonthStart, MarchYearLength;
    YearStartStep(p.Yoe());
    MonthsHaveDays(p.Yoe(), p.mp);
    MonthsHaveDays(p.Yoe(), if p.mp < 11 then p.mp + 1 else 0);
    MonthsHaveDays(p.Yoe() + 1, 0);
    MonthsHaveDays(0, 0);
  }

  lemma NextPartsIsNextDay(p: Parts)
    requires p.Valid() && Valid(p.Date())
    ensures NextParts(p).Date() == NextDay(p.Date())
  {
    hide MonthStart, MarchYearLength, DaysInMonth;
    MonthLengths(p.era, p.Yoe(), p.mp);
    MonthLengths(p.era, p.Yoe(), 11);
    MonthsHaveDays(p.Yoe(), p.mp);
  }

  // Tomorrow is always one more: with day zero this fixes the day number of every date.
  lemma NextDayIsOneMore(c: Civil)
    requires Valid(c)
    ensures Days(NextDay(c)) == Days(c) + 1
  {
    hide DaysFromCivil;
    var p := PartsOfDate(c);
    ValidPartsAreValidDates(p);
    NextPartsIsOneMore(p);
    NextPartsIsNextDay(p);
    DaysOfParts(p);
    DaysOfParts(NextParts(p));
  }

  // ----- Seconds -----

  datatype DateTime = DateTime(date: Civil, hour: int, min: int, sec: int, wday: int)

  function ToEpoch(t: DateTime): int {
    Days(t.date) * 86400 + t.hour * 3600 + t.min * 60 + t.sec
  }

  function FromEpoch(s: int): DateTime
    requires s >= 0
  {
    var days, rem := s / 86400, s % 86400;
    DateTime(CivilFromDays(days), rem / 3600, rem % 3600 / 60, rem % 60, (days + 4) % 7)
  }

  lemma EpochRoundTrip(s: int)
    requires s >= 0
    ensures ToEpoch(FromEpoch(s)) == s
    ensures Valid(FromEpoch(s).date)
  {
    hide DaysFromCivil, CivilFromDays;
    DaysRoundTrip(s / 86400);
  }

  lemma DateTimeRoundTrip(t: DateTime)
    requires Valid(t.date) && 0 <= t.hour < 24 && 0 <= t.min < 60 && 0 <= t.sec < 60
    requires Days(t.date) >= 0
    ensures ToEpoch(t) >= 0 && FromEpoch(ToEpoch(t)) == t.(wday := (Days(t.date) + 4) % 7)
  {
    hide DaysFromCivil, CivilFromDays;
    var rem := t.hour * 3600 + t.min * 60 + t.sec;
    assert 0 <= rem < 86400;
    assert ToEpoch(t) / 86400 == Days(t.date) && ToEpoch(t) % 86400 == rem;
    CivilRoundTrip(t.date);
  }
}
