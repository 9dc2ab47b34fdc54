/** Timezone-naive UTC timestamps (`datetime.rs`): calendar conversion and fixed-width rendering. */
module Datetime {
  import opened Decimals

  datatype Date = Date(year: int, month: int, day: int)

  /** Integer division as the implementation language does it: the quotient is truncated. */
  function TruncDiv(a: int, b: int): int
    requires b > 0
  {
    if a >= 0 then a / b else -(-a / b)
  }

  /** `civil_from_days`, from days since 1970-01-01: eras of 400 years start on 0000-03-01. */
  function CivilFromDays(days: int): Date {
    var shifted := days + 719468;
    var era := TruncDiv(if shifted >= 0 then shifted else shifted - 146096, 146097);
    DateOfEra(era, shifted - era * 146097)
  }

  function DateOfEra(era: int, dayOfEra: int): Date {
    var yearOfEra := (dayOfEra - dayOfEra / 1460 + dayOfEra / 36524 - dayOfEra / 146096) / 365;
    var dayOfYear := dayOfEra - (365 * yearOfEra + yearOfEra / 4 - yearOfEra / 100);
    var monthPrime := (5 * dayOfYear + 2) / 153;
    var day := dayOfYear - (153 * monthPrime + 2) / 5 + 1;
    var month := if monthPrime < 10 then monthPrime + 3 else monthPrime - 9;
    Date(yearOfEra + era * 400 + if month <= 2 then 1 else 0, month, day)
  }

  // The proleptic Gregorian calendar.

  predicate IsLeap(year: int) {
    year % 4 == 0 && (year % 100 != 0 || year % 400 == 0)
  }

  function DaysInMonth(year: int, month: int): int {
    if month == 2 then if IsLeap(year) then 29 else 28
    else if month in {4, 6, 9, 11} then 30
    else 31
  }

  predicate ValidDate(date: Date) {
    1 <= date.month <= 12 && 1 <= date.day <= DaysInMonth(date.year, date.month)
  }

  function NextDate(date: Date): Date {
    if date.day < DaysInMonth(date.year, date.month) then Date(date.year, date.month, date.day + 1)
    else if date.month < 12 then Date(date.year, date.month + 1, 1)
    else Date(date.year + 1, 1, 1)
  }

  predicate DateLess(a: Date, b: Date) {
    a.year < b.year || (a.year == b.year && (a.month < b.month || (a.month == b.month && a.day < b.day)))
  }

  // Years are counted from March, so that the leap day comes last: a year of an era is
  // `100 * c + 4 * q + r`, and a day of that year is `doy`.

  predicate Position(c: int, q: int, r: int, doy: int) {
    && 0 <= c < 4 && 0 <= q < 25 && 0 <= r < 4
    && 0 <= doy <= 365 && (doy == 365 ==> LongYear(c, q, r))
  }

  /** The year ends in a leap day. */
  predicate LongYear(c: int, q: int, r: int) {
    r == 3 && (q < 24 || c == 3)
  }

  function DayOfEra(c: int, q: int, r: int, doy: int): int {
    36524 * c + 1461 * q + 365 * r + doy
  }

  /** Every day of an era has a position. */
  lemma Locate(doe: int) returns (c: int, q: int, r: int, doy: int)
    requires 0 <= doe < 146097
    ensures Position(c, q, r, doy) && doe == DayOfEra(c, q, r, doy)
  {
    c := if doe / 36524 < 4 then doe / 36524 else 3;
    q := (doe - 36524 * c) / 1461;
    r := if (doe - 36524 * c - 1461 * q) / 365 < 4 then (doe - 36524 * c - 1461 * q) / 365 else 3;
    doy := doe - 36524 * c - 1461 * q - 365 * r;
  }

  /** The year and day that the conversion computes from a day of an era. */
  lemma YearFormula(c: int, q: int, r: int, doy: int)
    requires Position(c, q, r, doy)
    ensures var doe, yoe := DayOfEra(c, q, r, doy), 100 * c + 4 * q + r;
      && (doe - doe / 1460 + doe / 36524 - doe / 146096) / 365 == yoe
      && doe - (365 * yoe + yoe / 4 - yoe / 100) == doy
  {
    var doe := DayOfEra(c, q, r, doy);
    assert doe / 36524 - doe / 146096 == c;
    var e := 24 * c + q + 365 * r + doy;
    assert doe == 1460 * (25 * c + q) + e;
    assert doe / 1460 == 25 * c + q + if e >= 1460 then 1 else 0;
  }

  /** March-based month and day of the month. */
  function MarchDate(era: int, c: int, q: int, r: int, doy: int): Date {
    var mp := (5 * doy + 2) / 153;
    var month := if mp < 10 then mp + 3 else mp - 9;
    Date(400 * era + 100 * c + 4 * q + r + if month <= 2 then 1 else 0, month, doy - (153 * mp + 2) / 5 + 1)
  }

  lemma Conversion(era: int, c: int, q: int, r: int, doy: int)
    requires Position(c, q, r, doy)
    ensures CivilFromDays(146097 * era + DayOfEra(c, q, r, doy) - 719468) == MarchDate(era, c, q, r, doy)
  {
    hide TruncDiv, DateOfEra, MarchDate, DayOfEra, Position;
    EraConversion(era, c, q, r, doy);
    InEra(c, q, r, doy);
    EraFormula(era, DayOfEra(c, q, r, doy));
  }

  lemma InEra(c: int, q: int, r: int, doy: int)
    requires Position(c, q, r, doy)
    ensures 0 <= DayOfEra(c, q, r, doy) < 146097
  {
  }

  lemma EraConversion(era: int, c: int, q: int, r: int, doy: int)
    requires Position(c, q, r, doy)
    ensures DateOfEra(era, DayOfEra(c, q, r, doy)) == MarchDate(era, c, q, r, doy)
  {
    hide DayOfEra, LongYear;
    YearFormula(c, q, r, doy);
  }

  lemma EraFormula(era: int, doe: int)
    requires 0 <= doe < 146097
    ensures var shifted := 146097 * era + doe;
      TruncDiv(if shifted >= 0 then shifted else shifted - 146096, 146097) == era
  {
  }

  /** The leap rule in terms of the position of a March-based year: its last day is in the next year. */
  lemma LeapYears(era: int, c: int, q: int, r: int)
    requires 0 <= c < 4 && 0 <= q < 25 && 0 <= r < 4
    ensures IsLeap(400 * era + 100 * c + 4 * q + r + 1) <==> LongYear(c, q, r)
  {
    var y := 400 * era + 100 * c + 4 * q + r + 1;
    FourthYear(100 * era + 25 * c + q, r + 1);
    HundredthYear(4 * era + c, 4 * q + r + 1);
    FourHundredthYear(era, 100 * c + 4 * q + r + 1);
    assert y == 4 * (100 * era + 25 * c + q) + (r + 1) == 100 * (4 * era + c) + (4 * q + r + 1);
  }

  lemma FourthYear(k: int, x: int)
    requires 1 <= x <= 4
    ensures (4 * k + x) % 4 == 0 <==> x == 4
  {
  }

  lemma HundredthYear(k: int, x: int)
    requires 1 <= x <= 100
    ensures (100 * k + x) % 100 == 0 <==> x == 100
  {
  }

  lemma FourHundredthYear(k: int, x: int)
    requires 1 <= x <= 400
    ensures (400 * k + x) % 400 == 0 <==> x == 400
  {
  }

  /** A position is a valid date. */
  lemma MarchDateValid(era: int, c: int, q: int, r: int, doy: int)
    requires Position(c, q, r, doy)
    ensures ValidDate(MarchDate(era, c, q, r, doy))
  {
    LeapYears(era, c, q, r);
    hide IsLeap;
  }

  /** The inverse: days since 1970-01-01 of a date. */
  ghost function DaysFromCivil(date: Date): int {
    var y := if date.month <= 2 then date.year - 1 else date.year;
    var mp := if date.month <= 2 then date.month + 9 else date.month - 3;
    var era, yoe := y / 400, y % 400;
    146097 * era + 365 * yoe + yoe / 4 - yoe / 100 + (153 * mp + 2) / 5 + date.day - 1 - 719468
  }

  lemma YearParts(era: int, c: int, q: int, r: int)
    requires 0 <= c < 4 && 0 <= q < 25 && 0 <= r < 4
    ensures var y := 400 * era + 100 * c + 4 * q + r;
      && y / 400 == era && y % 400 == 100 * c + 4 * q + r
      && y % 400 / 4 == 25 * c + q && y % 400 / 100 == c
  {
  }

  lemma SplitYear(y: int) returns (era: int, c: int, q: int, r: int)
    ensures 0 <= c < 4 && 0 <= q < 25 && 0 <= r < 4 && y == 400 * era + 100 * c + 4 * q + r
  {
    era, c, q, r := y / 400, y % 400 / 100, y % 400 % 100 / 4, y % 400 % 100 % 4;
  }

  /** The day number of the date at a position. */
  lemma PositionDays(era: int, c: int, q: int, r: int, doy: int)
    requires Position(c, q, r, doy)
    ensures DaysFromCivil(MarchDate(era, c, q, r, doy)) == 146097 * era + DayOfEra(c, q, r, doy) - 719468
  {
    YearParts(era, c, q, r);
    assert 0 <= (5 * doy + 2) / 153 <= 11;
  }

  /** The day of the March-based year, and the month back from it. */
  lemma MonthParts(mp: int, day: int)
    requires 0 <= mp <= 11 && 1 <= day <= if mp == 11 then 29 else if mp in {1, 3, 6, 8} then 30 else 31
    ensures var doy := (153 * mp + 2) / 5 + day - 1;
      0 <= doy <= 365 && (doy == 365 <==> mp == 11 && day == 29) && (5 * doy + 2) / 153 == mp
  {
  }

  /** Every valid date is at a position. */
  lemma LocateDate(date: Date) returns (era: int, c: int, q: int, r: int, doy: int)
    requires ValidDate(date)
    ensures Position(c, q, r, doy) && MarchDate(era, c, q, r, doy) == date
  {
    var mp := if date.month <= 2 then date.month + 9 else date.month - 3;
    era, c, q, r := SplitYear(if date.month <= 2 then date.year - 1 else date.year);
    doy := (153 * mp + 2) / 5 + date.day - 1;
    LeapYears(era, c, q, r);
    hide IsLeap;
    MonthParts(mp, date.day);
  }

  /** `civil_from_days` and its inverse: a bijection between the integers and the valid dates. */
  lemma DaysToDate(days: int)
    ensures ValidDate(CivilFromDays(days)) && DaysFromCivil(CivilFromDays(days)) == days
  {
    hide CivilFromDays, DaysFromCivil, MarchDate, DayOfEra, ValidDate, Position;
    var era, doe := (days + 719468) / 146097, (days + 719468) % 146097;
    var c, q, r, doy := Locate(doe);
    Conversion(era, c, q, r, doy);
    MarchDateValid(era, c, q, r, doy);
    PositionDays(era, c, q, r, doy);
  }

  lemma DateToDays(date: Date)
    requires ValidDate(date)
    ensures CivilFromDays(DaysFromCivil(date)) == date
  {
    hide CivilFromDays, DaysFromCivil, MarchDate, DayOfEra, ValidDate, Position;
    var era, c, q, r, doy := LocateDate(date);
    Conversion(era, c, q, r, doy);
    PositionDays(era, c, q, r, doy);
  }

  /** The next calendar date is one day later. */
  lemma NextIsOneLater(date: Date)
    requires ValidDate(date)
    ensures ValidDate(NextDate(date)) && DaysFromCivil(NextDate(date)) == DaysFromCivil(date) + 1
  {
    hide IsLeap;
    if date.day == DaysInMonth(date.year, date.month) && date.month == 2 {
      hide DaysFromCivil;
      FebruaryEnd(date.year);
    } else if date.day < DaysInMonth(date.year, date.month) {
    } else {
      MonthEnd(date);
    }
  }

  /** Any other month ends the day before the next begins, in the same March-based year. */
  lemma MonthEnd(date: Date)
    requires ValidDate(date) && date.day == DaysInMonth(date.year, date.month) && date.month != 2
    ensures DaysFromCivil(NextDate(date)) == DaysFromCivil(date) + 1
  {
    hide IsLeap;
  }

  /** March begins a March-based year, one day after the last of February. */
  lemma FebruaryEnd(year: int)
    ensures DaysFromCivil(Date(year, 3, 1)) == DaysFromCivil(Date(year, 2, if IsLeap(year) then 29 else 28)) + 1
  {
    hide DaysFromCivil, IsLeap, DayOfEra, LongYear, LastDay;
    var era, c, q, r := SplitYear(year - 1);
    FebruaryLast(era, c, q, r, year);
    if r < 3 {
      NextInFour(c, q, r);
      MarchFirst(era, c, q, r + 1, year);
    } else if q < 24 {
      NextInCentury(c, q);
      MarchFirst(era, c, q + 1, 0, year);
    } else if c < 3 {
      NextInEra(c);
      MarchFirst(era, c + 1, 0, 0, year);
    } else {
      NextEra(c, q, r);
      DayValue(0, 0, 0, 0, 0);
      MarchFirst(era + 1, 0, 0, 0, year);
    }
  }

  /** The last day of a March-based year. */
  function LastDay(c: int, q: int, r: int): int {
    if LongYear(c, q, r) then 365 else 364
  }

  // The next March-based year begins where this one ends: within a group of four years, a century,
  // an era, and at the end of an era.

  lemma NextInFour(c: int, q: int, r: int)
    requires 0 <= c < 4 && 0 <= q < 25 && 0 <= r < 3
    ensures DayOfEra(c, q, r + 1, 0) == DayOfEra(c, q, r, LastDay(c, q, r)) + 1
  {
  }

  lemma NextInCentury(c: int, q: int)
    requires 0 <= c < 4 && 0 <= q < 24
    ensures DayOfEra(c, q + 1, 0, 0) == DayOfEra(c, q, 3, LastDay(c, q, 3)) + 1
  {
  }

  lemma NextInEra(c: int)
    requires 0 <= c < 3
    ensures DayOfEra(c + 1, 0, 0, 0) == DayOfEra(c, 24, 3, LastDay(c, 24, 3)) + 1
  {
  }

  lemma NextEra(c: int, q: int, r: int)
    requires c == 3 && q == 24 && r == 3
    ensures DayOfEra(c, q, r, LastDay(c, q, r)) == 146096
  {
  }

  lemma DayValue(c: int, q: int, r: int, doy: int, v: int)
    requires v == 36524 * c + 1461 * q + 365 * r + doy
    ensures DayOfEra(c, q, r, doy) == v
  {
  }

  lemma FebruaryLast(era: int, c: int, q: int, r: int, year: int)
    requires 0 <= c < 4 && 0 <= q < 25 && 0 <= r < 4 && year - 1 == 400 * era + 100 * c + 4 * q + r
    ensures IsLeap(year) <==> LongYear(c, q, r)
    ensures DaysFromCivil(Date(year, 2, if IsLeap(year) then 29 else 28))
      == 146097 * era + DayOfEra(c, q, r, LastDay(c, q, r)) - 719468
  {
    hide DaysFromCivil, IsLeap, DayOfEra;
    var last := LastDay(c, q, r);
    LeapYears(era, c, q, r);
    PositionDays(era, c, q, r, last);
    assert MarchDate(era, c, q, r, last) == Date(year, 2, if IsLeap(year) then 29 else 28);
  }

  lemma MarchFirst(era: int, c: int, q: int, r: int, year: int)
    requires 0 <= c < 4 && 0 <= q < 25 && 0 <= r < 4 && year == 400 * era + 100 * c + 4 * q + r
    ensures DaysFromCivil(Date(year, 3, 1)) == 146097 * era + DayOfEra(c, q, r, 0) - 719468
  {
    hide DaysFromCivil;
    PositionDays(era, c, q, r, 0);
    assert MarchDate(era, c, q, r, 0) == Date(year, 3, 1);
  }

  /** Day 0 is 1970-01-01, and every day is followed by its successor in the Gregorian calendar. */
  lemma CalendarWalk(days: int)
    ensures CivilFromDays(0) == Date(1970, 1, 1)
    ensures CivilFromDays(days + 1) == NextDate(CivilFromDays(days))
  {
    hide CivilFromDays, DaysFromCivil, NextDate, ValidDate;
    Epoch();
    DaysToDate(days);
    NextIsOneLater(CivilFromDays(days));
    DateToDays(NextDate(CivilFromDays(days)));
  }

  /** The first of January is day 306 of a March-based year. */
  lemma JanuaryFirst(era: int, c: int, q: int, r: int, days: int)
    requires Position(c, q, r, 306) && days == 146097 * era + DayOfEra(c, q, r, 306) - 719468
    ensures CivilFromDays(days) == Date(400 * era + 100 * c + 4 * q + r + 1, 1, 1)
  {
    hide CivilFromDays, DayOfEra, Position;
    Conversion(era, c, q, r, 306);
  }

  lemma Epoch()
    ensures CivilFromDays(0) == Date(1970, 1, 1)
  {
    hide CivilFromDays, DayOfEra;
    DayValue(3, 17, 1, 306, 135080);
    JanuaryFirst(4, 3, 17, 1, 0);
  }

  /** Day order is date order. */
  lemma {:induction false} LaterDays(a: int, b: int)
    requires a < b
    ensures DateLess(CivilFromDays(a), CivilFromDays(b))
    decreases b - a
  {
    hide CivilFromDays;
    DaysToDate(b - 1);
    CalendarWalk(b - 1);
    if a < b - 1 {
      LaterDays(a, b - 1);
    }
  }

  // Timestamps.

  const SECS_PER_DAY := 86400

  /** Whole seconds since the epoch and microseconds within that second. */
  datatype Instant = Instant(secs: int, micros: nat)

  datatype UtcParts = UtcParts(date: Date, hour: nat, minute: nat, second: nat, microsecond: nat)

  /** `UtcParts::from_unix`; the quotient is Euclidean. */
  function FromUnix(at: Instant): UtcParts {
    var secsOfDay := at.secs % SECS_PER_DAY;
    UtcParts(CivilFromDays(at.secs / SECS_PER_DAY), secsOfDay / 3600, secsOfDay % 3600 / 60, secsOfDay % 60, at.micros)
  }

  function Digit(n: nat): char
    requires n < 10
  {
    ('0' as int + n) as char
  }

  /** Decimal digits, padded with zeros to at least `width`. */
  function Pad(n: nat, width: nat): (text: string)
    ensures |text| > 0
    decreases n + width
  {
    if n < 10 && width <= 1 then [Digit(n)]
    else Pad(n / 10, if width > 0 then width - 1 else 0) + [Digit(n % 10)]
  }

  /** The year, padded to four characters, a sign included. */
  function YearText(year: int): string {
    if year < 0 then "-" + Pad(-year, 3) else Pad(year, 4)
  }

  /** `%Y-%m-%d %H:%M:%S.ffffff` */
  function Render(parts: UtcParts): string
    requires parts.date.month >= 0 && parts.date.day >= 0
  {
    YearText(parts.date.year) + ("-" +
    (Pad(parts.date.month, 2) + ("-" +
    (Pad(parts.date.day, 2) + (" " +
    (Pad(parts.hour, 2) + (":" +
    (Pad(parts.minute, 2) + (":" +
    (Pad(parts.second, 2) + ("." +
    Pad(parts.microsecond, 6))))))))))))
  }

  function Timestamp(at: Instant): string {
    DaysToDate(at.secs / SECS_PER_DAY);
    Render(FromUnix(at))
  }

  /** String order. */
  predicate TextLess(a: string, b: string) {
    if b == "" then false
    else if a == "" then true
    else a[0] < b[0] || (a[0] == b[0] && TextLess(a[1..], b[1..]))
  }

  lemma {:induction false} AppendOrder(a: string, b: string, s: string, t: string)
    requires |a| == |b|
    ensures TextLess(a + s, b + t) <==> TextLess(a, b) || (a == b && TextLess(s, t))
  {
    if a == "" {
      assert a + s == s && b + t == t;
    } else {
      AppendOrder(a[1..], b[1..], s, t);
      assert (a + s)[1..] == a[1..] + s && (b + t)[1..] == b[1..] + t;
      assert a == [a[0]] + a[1..] && b == [b[0]] + b[1..];
    }
  }

  /** Numbers of one width compare as their digits do. */
  lemma {:induction false} PadOrder(m: nat, n: nat, width: nat)
    requires width > 0 && m < Pow10(width) && n < Pow10(width)
    ensures |Pad(m, width)| == |Pad(n, width)| == width
    ensures TextLess(Pad(m, width), Pad(n, width)) <==> m < n
    ensures Pad(m, width) == Pad(n, width) <==> m == n
  {
    if width > 1 {
      PadOrder(m / 10, n / 10, width - 1);
      var (a, b) := (Pad(m / 10, width - 1), Pad(n / 10, width - 1));
      AppendOrder(a, b, [Digit(m % 10)], [Digit(n % 10)]);
      assert Pad(m, width)[..width - 1] == a && Pad(n, width)[..width - 1] == b;
      assert Pad(m, width)[width - 1] == Digit(m % 10) && Pad(n, width)[width - 1] == Digit(n % 10);
    }
  }

  /** A field of fixed width and a separator decide the order before what follows. */
  lemma FieldOrder(m: nat, n: nat, width: nat, separator: string, s: string, t: string)
    requires width > 0 && m < Pow10(width) && n < Pow10(width)
    ensures TextLess(Pad(m, width) + (separator + s), Pad(n, width) + (separator + t)) <==>
      m < n || (m == n && TextLess(s, t))
    ensures |Pad(m, width) + (separator + s)| == width + |separator| + |s|
  {
    PadOrder(m, n, width);
    AppendOrder(Pad(m, width), Pad(n, width), separator + s, separator + t);
    AppendOrder(separator, separator, s, t);
    Irreflexive(separator);
  }

  lemma {:induction false} Irreflexive(a: string)
    ensures !TextLess(a, a)
  {
    if a != "" {
      Irreflexive(a[1..]);
    }
  }

  ghost predicate Rendered(parts: UtcParts) {
    && 0 <= parts.date.year <= 9999 && 0 <= parts.date.month < 100 && 0 <= parts.date.day < 100
    && parts.hour < 100 && parts.minute < 100 && parts.second < 100 && parts.microsecond < 1000000
  }

  predicate PartsLess(a: UtcParts, b: UtcParts) {
    || DateLess(a.date, b.date)
    || (a.date == b.date && TimeLess(a, b))
  }

  predicate TimeLess(a: UtcParts, b: UtcParts) {
    || a.hour < b.hour
    || (a.hour == b.hour && (a.minute < b.minute
    || (a.minute == b.minute && (a.second < b.second
    || (a.second == b.second && a.microsecond < b.microsecond)))))
  }

  /** Rendered parts compare field by field. */
  lemma RenderOrder(a: UtcParts, b: UtcParts)
    requires Rendered(a) && Rendered(b)
    ensures TextLess(Render(a), Render(b)) <==> PartsLess(a, b)
    ensures |Render(a)| == 26
  {
    hide TextLess, Pad;
    Pow10Values();
    var (a6, b6) := (Pad(a.microsecond, 6), Pad(b.microsecond, 6));
    var (a5, b5) := (Pad(a.second, 2) + ("." + a6), Pad(b.second, 2) + ("." + b6));
    var (a4, b4) := (Pad(a.minute, 2) + (":" + a5), Pad(b.minute, 2) + (":" + b5));
    var (a3, b3) := (Pad(a.hour, 2) + (":" + a4), Pad(b.hour, 2) + (":" + b4));
    var (a2, b2) := (Pad(a.date.day, 2) + (" " + a3), Pad(b.date.day, 2) + (" " + b3));
    var (a1, b1) := (Pad(a.date.month, 2) + ("-" + a2), Pad(b.date.month, 2) + ("-" + b2));
    PadOrder(a.microsecond, b.microsecond, 6);
    FieldOrder(a.second, b.second, 2, ".", a6, b6);
    FieldOrder(a.minute, b.minute, 2, ":", a5, b5);
    FieldOrder(a.hour, b.hour, 2, ":", a4, b4);
    FieldOrder(a.date.day, b.date.day, 2, " ", a3, b3);
    FieldOrder(a.date.month, b.date.month, 2, "-", a2, b2);
    FieldOrder(a.date.year, b.date.year, 4, "-", a1, b1);
  }

  lemma Pow10Values()
    ensures Pow10(2) == 100 && Pow10(4) == 10000 && Pow10(6) == 1000000
  {
    assert Pow10(1) == 10 && Pow10(2) == 100 && Pow10(3) == 1000 && Pow10(4) == 10000 && Pow10(5) == 100000;
  }

  predicate Earlier(a: Instant, b: Instant) {
    a.secs < b.secs || (a.secs == b.secs && a.micros < b.micros)
  }

  /** Parts compare as the instants do. */
  lemma PartsOrder(a: Instant, b: Instant)
    ensures PartsLess(FromUnix(a), FromUnix(b)) <==> Earlier(a, b)
  {
    hide CivilFromDays;
    var (d, e) := (a.secs / SECS_PER_DAY, b.secs / SECS_PER_DAY);
    if d < e {
      LaterDays(d, e);
    } else if e < d {
      LaterDays(e, d);
    }
    SecondsOrder(a.secs % SECS_PER_DAY, b.secs % SECS_PER_DAY);
  }

  lemma SecondsOrder(s: int, t: int)
    requires 0 <= s < SECS_PER_DAY && 0 <= t < SECS_PER_DAY
    ensures s < t <==>
      || s / 3600 < t / 3600
      || (s / 3600 == t / 3600 && (s % 3600 / 60 < t % 3600 / 60
      || (s % 3600 / 60 == t % 3600 / 60 && s % 60 < t % 60)))
    ensures 0 <= s / 3600 < 24 && 0 <= s % 3600 / 60 < 60 && 0 <= s % 60 < 60
  {
    assert s == 3600 * (s / 3600) + 60 * (s % 3600 / 60) + s % 60;
    assert t == 3600 * (t / 3600) + 60 * (t % 3600 / 60) + t % 60;
  }

  /** The fields are a time of day on a date, and together they are the instant. */
  lemma PartsAreInstant(at: Instant)
    ensures var parts := FromUnix(at);
      && ValidDate(parts.date) && parts.hour < 24 && parts.minute < 60 && parts.second < 60
      && 86400 * DaysFromCivil(parts.date) + 3600 * parts.hour + 60 * parts.minute + parts.second == at.secs
      && parts.microsecond == at.micros
  {
    hide CivilFromDays, DaysFromCivil, ValidDate;
    DaysToDate(at.secs / SECS_PER_DAY);
    SecondsOrder(at.secs % SECS_PER_DAY, at.secs % SECS_PER_DAY);
    var s := at.secs % SECS_PER_DAY;
    assert s == 3600 * (s / 3600) + 60 * (s % 3600 / 60) + s % 60;
  }

  /** The instants of the years 0 to 9999. */
  predicate FourDigitYear(at: Instant) {
    -719528 <= at.secs / SECS_PER_DAY < 2932897 && at.micros < 1000000
  }

  /** Timestamps of years 0 to 9999 compare as strings exactly as the instants compare in time. */
  lemma TimestampsOrdered(a: Instant, b: Instant)
    requires FourDigitYear(a) && FourDigitYear(b)
    ensures TextLess(Timestamp(a), Timestamp(b)) <==> Earlier(a, b)
    ensures Timestamp(a) == Timestamp(b) <==> a == b
    ensures |Timestamp(a)| == 26
  {
    hide CivilFromDays, TextLess, PartsLess, Render;
    DaysToDate(a.secs / SECS_PER_DAY);
    DaysToDate(b.secs / SECS_PER_DAY);
    FourDigitDays(a.secs / SECS_PER_DAY);
    FourDigitDays(b.secs / SECS_PER_DAY);
    RenderOrder(FromUnix(a), FromUnix(b));
    RenderOrder(FromUnix(b), FromUnix(a));
    PartsOrder(a, b);
    PartsOrder(b, a);
    Irreflexive(Timestamp(a));
  }

  /** A text read as a decimal number. */
  function Number(text: string): int {
    if text == "" then 0
    else
      var n := |text| - 1;
      10 * Number(text[..n]) + (text[n] as int - '0' as int)
  }

  ghost predicate AllDigits(text: string) {
    forall k :: 0 <= k < |text| ==> '0' <= text[k] <= '9'
  }

  /** A padded number reads as itself. */
  lemma {:induction false} PadReads(n: nat, width: nat)
    ensures Number(Pad(n, width)) == n && AllDigits(Pad(n, width))
    decreases n + width
  {
    if !(n < 10 && width <= 1) {
      var front := Pad(n / 10, if width > 0 then width - 1 else 0);
      PadReads(n / 10, if width > 0 then width - 1 else 0);
      assert Pad(n, width)[..|front|] == front;
    }
  }

  /** `field` stands at position `at` of the text and is the number `n` in digits. */
  ghost predicate FieldAt(text: string, at: nat, width: nat, n: int) {
    at + width <= |text| && AllDigits(text[at..at + width]) && Number(text[at..at + width]) == n
  }

  /** The timestamp's text: fields of fixed width at fixed positions, with their separators. */
  ghost predicate HasFields(text: string, parts: UtcParts) {
    && |text| == 26
    && text[4] == '-' && text[7] == '-' && text[10] == ' ' && text[13] == ':' && text[16] == ':' && text[19] == '.'
    && FieldAt(text, 0, 4, parts.date.year) && FieldAt(text, 5, 2, parts.date.month)
      && FieldAt(text, 8, 2, parts.date.day)
    && FieldAt(text, 11, 2, parts.hour) && FieldAt(text, 14, 2, parts.minute) && FieldAt(text, 17, 2, parts.second)
    && FieldAt(text, 20, 6, parts.microsecond)
  }

  lemma FieldReads(n: nat, width: nat)
    requires width > 0 && n < Pow10(width)
    ensures |Pad(n, width)| == width && Number(Pad(n, width)) == n && AllDigits(Pad(n, width))
  {
    PadOrder(n, n, width);
    PadReads(n, width);
  }

  /** The field that stands at a position of the text, its separator, and what follows. */
  lemma NextField(text: string, from: nat, field: string, separator: string, rest: string)
    requires from <= |text| && text[from..] == field + (separator + rest) && |separator| == 1
    ensures |text| == from + |field| + 1 + |rest|
    ensures text[from..from + |field|] == field && text[from + |field|] == separator[0]
    ensures text[from + |field| + 1..] == rest
  {
    var tail := text[from..];
    assert tail[..|field|] == field && tail[|field|] == separator[0] && tail[|field| + 1..] == rest;
    assert text[from..from + |field|] == tail[..|field|];
    assert text[from + |field| + 1..] == tail[|field| + 1..];
  }

  lemma ReadField(text: string, from: nat, n: nat, width: nat, separator: string, rest: string)
    requires width > 0 && n < Pow10(width) && |separator| == 1
    requires from <= |text| && text[from..] == Pad(n, width) + (separator + rest)
    ensures |text| == from + width + 1 + |rest| && FieldAt(text, from, width, n)
    ensures text[from + width] == separator[0] && text[from + width + 1..] == rest
  {
    hide Pad, AllDigits, Number;
    FieldReads(n, width);
    NextField(text, from, Pad(n, width), separator, rest);
  }

  lemma RenderReads(parts: UtcParts)
    requires Rendered(parts)
    ensures HasFields(Render(parts), parts)
  {
    hide Pad, FieldAt, Pow10;
    Pow10Values();
    var t6 := Pad(parts.microsecond, 6);
    var t5 := Pad(parts.second, 2) + ("." + t6);
    var t4 := Pad(parts.minute, 2) + (":" + t5);
    var t3 := Pad(parts.hour, 2) + (":" + t4);
    var t2 := Pad(parts.date.day, 2) + (" " + t3);
    var t1 := Pad(parts.date.month, 2) + ("-" + t2);
    var text := Render(parts);
    assert text[0..] == Pad(parts.date.year, 4) + ("-" + t1);
    hide Render;
    ReadField(text, 0, parts.date.year, 4, "-", t1);
    ReadField(text, 5, parts.date.month, 2, "-", t2);
    ReadField(text, 8, parts.date.day, 2, " ", t3);
    ReadField(text, 11, parts.hour, 2, ":", t4);
    ReadField(text, 14, parts.minute, 2, ":", t5);
    ReadField(text, 17, parts.second, 2, ".", t6);
    LastField(text, 20, parts.microsecond, 6);
  }

  lemma LastField(text: string, from: nat, n: nat, width: nat)
    requires width > 0 && n < Pow10(width) && from <= |text| && text[from..] == Pad(n, width)
    ensures |text| == from + width && FieldAt(text, from, width, n)
  {
    hide Pad, AllDigits, Number;
    FieldReads(n, width);
    assert text[from..from + width] == text[from..];
  }

  /** The rendered timestamp of an instant reads back as its fields. */
  lemma TimestampReads(at: Instant)
    requires FourDigitYear(at)
    ensures HasFields(Timestamp(at), FromUnix(at))
  {
    hide CivilFromDays, HasFields, Render;
    DaysToDate(at.secs / SECS_PER_DAY);
    FourDigitDays(at.secs / SECS_PER_DAY);
    PartsAreInstant(at);
    RenderReads(FromUnix(at));
  }

  /** The years 0 to 9999 as a range of days. */
  lemma FourDigitDays(days: int)
    ensures 0 <= CivilFromDays(days).year <= 9999 <==> -719528 <= days < 2932897
  {
    hide CivilFromDays, DaysFromCivil;
    YearZero();
    YearTenThousand();
    DaysToDate(days);
    if days < -719528 {
      LaterDays(days, -719528);
    } else if days > -719528 {
      LaterDays(-719528, days);
    }
    if days < 2932897 {
      LaterDays(days, 2932897);
    } else if days > 2932897 {
      LaterDays(2932897, days);
    }
  }

  lemma YearZero()
    ensures CivilFromDays(-719528) == Date(0, 1, 1)
  {
    hide CivilFromDays, DayOfEra;
    DayValue(3, 24, 3, 306, 146037);
    JanuaryFirst(-1, 3, 24, 3, -719528);
  }

  lemma YearTenThousand()
    ensures CivilFromDays(2932897) == Date(10000, 1, 1)
  {
    hide CivilFromDays, DayOfEra;
    DayValue(3, 24, 3, 306, 146037);
    JanuaryFirst(24, 3, 24, 3, 2932897);
  }
}
