/** Proleptic-Gregorian calendar arithmetic (`crates/synch-core/src/civil.rs`) against the calendar itself. */
module Civil {
  import opened Words

  datatype Date = Date(year: int, month: int, day: int)

  // ----- the calendar -----

  predicate IsLeap(year: int) {
    year % 4 == 0 && (year % 100 != 0 || year % 400 == 0)
  }

  function DaysInMonth(year: int, month: int): int {
    if month == 2 then if IsLeap(year) then 29 else 28
    else if month == 4 || month == 6 || month == 9 || month == 11 then 30
    else 31
  }

  predicate Valid(date: Date) {
    1 <= date.month <= 12 && 1 <= date.day <= DaysInMonth(date.year, date.month)
  }

  /** The day after, by the rules of the calendar. */
  function NextDay(date: Date): Date {
    if date.day < DaysInMonth(date.year, date.month) then date.(day := date.day + 1)
    else if date.month < 12 then Date(date.year, date.month + 1, 1)
    else Date(date.year + 1, 1, 1)
  }

  predicate Before(a: Date, b: Date) {
    a.year < b.year || (a.year == b.year && (a.month < b.month || (a.month == b.month && a.day < b.day)))
  }

  // ----- the conversions -----

  /** Division rounding toward zero, as `/` does on `i64`. */
  function TruncDiv(a: int, b: int): int
    requires b > 0
  {
    if a >= 0 then a / b else -((-a) / b)
  }

  /** Days from 1970-01-01 to a date. */
  function DaysFromCivil(date: Date): int {
    var year := date.year - if date.month <= 2 then 1 else 0;
    var era := TruncDiv(if year >= 0 then year else year - 399, 400);
    var yearOfEra := year - era * 400;
    var dayOfYear := TruncDiv(153 * (date.month + if date.month > 2 then -3 else 9) + 2, 5) + date.day - 1;
    var dayOfEra := yearOfEra * 365 + TruncDiv(yearOfEra, 4) - TruncDiv(yearOfEra, 100) + dayOfYear;
    era * 146097 + dayOfEra - 719468
  }

  /** The year of a 400-year era a day of it falls in, counted from March. */
  function YearOfEra(dayOfEra: int): int {
    TruncDiv(dayOfEra - TruncDiv(dayOfEra, 1460) + TruncDiv(dayOfEra, 36524) - TruncDiv(dayOfEra, 146096), 365)
  }

  function CivilFromDays(days: int): Date {
    var z := days + 719468;
    var era := z / 146097;
    var dayOfEra := z % 146097;
    var yearOfEra := YearOfEra(dayOfEra);
    var year := yearOfEra + era * 400;
    var dayOfYear := dayOfEra - (365 * yearOfEra + TruncDiv(yearOfEra, 4) - TruncDiv(yearOfEra, 100));
    var monthPrime := TruncDiv(5 * dayOfYear + 2, 153);
    var day := dayOfYear - TruncDiv(153 * monthPrime + 2, 5) + 1;
    var month := if monthPrime < 10 then monthPrime + 3 else monthPrime - 9;
    Date(year + if month <= 2 then 1 else 0, month, day)
  }

  datatype Moment = Moment(date: Date, hour: int, minute: int, second: int)

  function CivilFromUnix(secs: int): Moment {
    var rest := secs % 86400;
    Moment(CivilFromDays(secs / 86400), TruncDiv(rest, 3600), TruncDiv(rest % 3600, 60), rest % 60)
  }

  // ----- years that begin in March -----

  /** Days of the era before year `y` of it. */
  function YearStart(y: int): int {
    365 * y + y / 4 - y / 100
  }

  /** Days of the year before month `m`, March being 0. */
  function MonthStart(m: int): int {
    (153 * m + 2) / 5
  }

  /** A year of the era is 366 days long when the February it ends in is. */
  predicate FitsYear(y: int, dayOfYear: int) {
    0 <= y < 400 && 0 <= dayOfYear <= 365 && (dayOfYear == 365 ==> IsLeap(y + 1))
  }

  /** A day of the era in centuries, four-year blocks, years and days recovers its year. */
  lemma {:induction false} YearOfEraDecomposed(c: int, q: int, s: int, doy: int)
    requires 0 <= c <= 3 && 0 <= q <= 24 && 0 <= s <= 3 && 0 <= doy <= 365
    requires doy == 365 ==> s == 3 && (q == 24 ==> c == 3)
    ensures YearOfEra(36524 * c + 1461 * q + 365 * s + doy) == 100 * c + 4 * q + s
  {
    var x := 365 * s + doy;
    var doe := 36524 * c + 1461 * q + x;
    Quotient(doe, 36524, if doe == 146096 then 4 else c);
    Quotient(doe, 146096, if doe == 146096 then 1 else 0);
    var e := if 24 * c + q + x >= 1460 then 1 else 0;
    Quotient(doe, 1460, 25 * c + q + e);
    Quotient(doe - (25 * c + q + e) + c, 365, 100 * c + 4 * q + s);
  }

  lemma {:induction false} Quotient(n: int, d: int, q: int)
    requires d > 0 && n >= 0 && d * q <= n < d * q + d
    ensures n / d == q && TruncDiv(n, d) == q
  {
    var k := n / d;
    assert n == d * k + n % d;
    if k < q {
      Stride(d, q - k);
    } else if q < k {
      Stride(d, k - q);
    }
  }

  lemma {:induction false} Stride(d: int, k: int)
    requires d > 0 && k >= 1
    ensures d * k >= d
  {
  }

  /** The year of the era with `c` centuries, `q` four-year blocks and `s` years before it. */
  lemma {:induction false} YearOfParts(c: int, q: int, s: int)
    requires 0 <= c <= 3 && 0 <= q <= 24 && 0 <= s <= 3
    ensures YearStart(100 * c + 4 * q + s) == 36524 * c + 1461 * q + 365 * s
    ensures IsLeap(100 * c + 4 * q + s + 1) <==> s == 3 && (q == 24 ==> c == 3)
  {
    var y := 100 * c + 4 * q + s;
    Quotient(y, 4, 25 * c + q);
    Quotient(y, 100, c);
    ModShift(4, 25 * c + q, s + 1);
    ModShift(100, c, 4 * q + s + 1);
  }

  /** The day of the era determines the year it was built from. */
  lemma {:induction false} YearOfEraInverse(y: int, doy: int)
    requires FitsYear(y, doy)
    ensures YearOfEra(YearStart(y) + doy) == y
    ensures 0 <= YearStart(y) + doy < 146097
  {
    var c, r := y / 100, y % 100;
    var q, s := r / 4, r % 4;
    YearOfParts(c, q, s);
    YearOfEraDecomposed(c, q, s, doy);
  }

  lemma {:induction false} Decompose(doe: int) returns (c: int, q: int, s: int, doy: int)
    requires 0 <= doe < 146097
    ensures 0 <= c <= 3 && 0 <= q <= 24 && 0 <= s <= 3 && 0 <= doy <= 365
    ensures doy == 365 ==> s == 3 && (q == 24 ==> c == 3)
    ensures doe == 36524 * c + 1461 * q + 365 * s + doy
  {
    c := if doe == 146096 then 3 else doe / 36524;
    var r1 := doe - 36524 * c;
    q := r1 / 1461;
    var r2 := r1 - 1461 * q;
    s := if r2 == 1460 then 3 else r2 / 365;
    doy := r2 - 365 * s;
  }

  /** Every day of the era falls in the year computed for it. */
  lemma {:induction false} DayFitsYear(doe: int)
    requires 0 <= doe < 146097
    ensures var y := YearOfEra(doe);
            FitsYear(y, doe - YearStart(y))
  {
    var c, q, s, doy := Decompose(doe);
    YearOfEraDecomposed(c, q, s, doy);
    YearOfParts(c, q, s);
  }

  // ----- months of a March year -----

  predicate FitsMonth(m: int, day: int) {
    0 <= m <= 11 && 1 <= day <= MonthStart(m + 1) - MonthStart(m)
  }

  lemma {:induction false} MonthInverse(m: int, day: int)
    requires FitsMonth(m, day)
    ensures (5 * (MonthStart(m) + day - 1) + 2) / 153 == m
    ensures 0 <= MonthStart(m) + day - 1 < 367
  {
  }

  lemma {:induction false} DayFitsMonth(doy: int)
    requires 0 <= doy <= 365
    ensures FitsMonth((5 * doy + 2) / 153, doy - MonthStart((5 * doy + 2) / 153) + 1)
  {
  }

  // ----- the conversions in March years -----

  function MarchYear(date: Date): int {
    date.year - if date.month <= 2 then 1 else 0
  }

  function MarchMonth(date: Date): int {
    date.month + if date.month > 2 then -3 else 9
  }

  /** The correction by 399 turns truncation into flooring, below the era of year 0 too. */
  lemma {:induction false} EraFloors(y: int)
    ensures TruncDiv(if y >= 0 then y else y - 399, 400) == y / 400
  {
  }

  lemma {:induction false} LeapPeriod(y: int)
    ensures IsLeap(y % 400 + 1) <==> IsLeap(y + 1)
  {
    var e, r := y / 400, y % 400;
    ModShift(4, 100 * e, r + 1);
    ModShift(100, 4 * e, r + 1);
    ModShift(400, e, r + 1);
    assert y + 1 == 4 * (100 * e) + (r + 1) && y + 1 == 100 * (4 * e) + (r + 1) && y + 1 == 400 * e + (r + 1);
  }

  /** Whole multiples of `m` do not change a remainder. */
  lemma {:induction false} ModShift(m: int, k: int, r: int)
    requires m > 0
    ensures (m * k + r) % m == r % m
  {
    var a, b := m * k + r, r / m;
    var q := a / m;
    assert a == m * q + a % m && r == m * b + r % m;
    assert m * (q - k - b) == r % m - a % m;
    if q - k - b >= 1 {
      Stride(m, q - k - b);
    } else if q - k - b <= -1 {
      Stride(m, k + b - q);
    }
  }

  /** A date is one of the calendar exactly when its day fits its month and its March year. */
  lemma {:induction false} ValidFits(date: Date)
    requires 1 <= date.month <= 12
    ensures Valid(date) <==> FitsMonth(MarchMonth(date), date.day)
                             && FitsYear(MarchYear(date) % 400, MonthStart(MarchMonth(date)) + date.day - 1)
  {
    LeapPeriod(MarchYear(date));
  }

  /** The day count of day `day` of month `m` of March year `y`. */
  function MarchDays(y: int, m: int, day: int): int {
    146097 * (y / 400) + YearStart(y % 400) + MonthStart(m) + day - 1 - 719468
  }

  lemma {:induction false} DaysShape(date: Date)
    requires 1 <= date.month <= 12
    ensures DaysFromCivil(date) == MarchDays(MarchYear(date), MarchMonth(date), date.day)
  {
    EraFloors(MarchYear(date));
  }

  /** The date built from an era, a year of it, a day of that year and its month. */
  lemma {:induction false} CivilShape(era: int, y: int, doy: int, m: int)
    requires 0 <= YearStart(y) + doy < 146097 && YearOfEra(YearStart(y) + doy) == y
    requires 0 <= y < 400 && 0 <= doy <= 365 && m == (5 * doy + 2) / 153
    ensures var month := if m < 10 then m + 3 else m - 9;
            CivilFromDays(146097 * era + YearStart(y) + doy - 719468)
            == Date(y + 400 * era + if month <= 2 then 1 else 0, month, doy - MonthStart(m) + 1)
  {
    var z := 146097 * era + (YearStart(y) + doy);
    assert z / 146097 == era && z % 146097 == YearStart(y) + doy;
  }

  // ----- the theorems -----

  lemma {:induction false} CivilOfMarch(y: int, m: int, day: int)
    requires FitsMonth(m, day) && FitsYear(y % 400, MonthStart(m) + day - 1)
    ensures var month := if m < 10 then m + 3 else m - 9;
            CivilFromDays(MarchDays(y, m, day)) == Date(y + if month <= 2 then 1 else 0, month, day)
  {
    CivilOfEra(y / 400, y % 400, m, day);
  }

  lemma {:induction false} CivilOfEra(era: int, y: int, m: int, day: int)
    requires FitsMonth(m, day) && FitsYear(y, MonthStart(m) + day - 1)
    ensures var month := if m < 10 then m + 3 else m - 9;
            CivilFromDays(146097 * era + YearStart(y) + MonthStart(m) + day - 1 - 719468)
            == Date(y + 400 * era + if month <= 2 then 1 else 0, month, day)
  {
    var doy := MonthStart(m) + day - 1;
    YearOfEraInverse(y, doy);
    MonthInverse(m, day);
    CivilShape(era, y, doy, m);
  }

  /** Every date of the calendar survives the trip to a day count and back. */
  lemma {:induction false} CivilOfDays(date: Date)
    requires Valid(date)
    ensures CivilFromDays(DaysFromCivil(date)) == date
  {
    ValidFits(date);
    DaysShape(date);
    CivilOfMarch(MarchYear(date), MarchMonth(date), date.day);
  }

  /** Every day count, negative ones too, is the count of a date of the calendar. */
  lemma {:induction false} DaysOfCivil(days: int)
    ensures Valid(CivilFromDays(days))
    ensures DaysFromCivil(CivilFromDays(days)) == days
  {
    var z := days + 719468;
    var era, doe := z / 146097, z % 146097;
    var y := YearOfEra(doe);
    var doy := doe - YearStart(y);
    DayFitsYear(doe);
    DayFitsMonth(doy);
    CivilShape(era, y, doy, (5 * doy + 2) / 153);
    MarchShape(CivilFromDays(days), era, y, doy);
    ValidFits(CivilFromDays(days));
    DaysShape(CivilFromDays(days));
  }

  lemma {:induction false} MarchShape(date: Date, era: int, y: int, doy: int)
    requires 0 <= y < 400 && 0 <= doy <= 365
    requires var m := (5 * doy + 2) / 153;
             var month := if m < 10 then m + 3 else m - 9;
             FitsMonth(m, doy - MonthStart(m) + 1)
             && date == Date(y + 400 * era + if month <= 2 then 1 else 0, month, doy - MonthStart(m) + 1)
    ensures 1 <= date.month <= 12 && MarchMonth(date) == (5 * doy + 2) / 153
    ensures MarchYear(date) / 400 == era && MarchYear(date) % 400 == y
  {
    assert MarchYear(date) == 400 * era + y;
  }

  /** The count goes up by one from each day to the next: with the epoch at 0, that fixes it everywhere. */
  lemma {:induction false} DaysCountDays(date: Date)
    requires Valid(date)
    ensures Valid(NextDay(date)) && DaysFromCivil(NextDay(date)) == DaysFromCivil(date) + 1
    ensures DaysFromCivil(Date(1970, 1, 1)) == 0
  {
    var next := NextDay(date);
    NextIsValid(date);
    DaysShape(date);
    DaysShape(next);
    NextMarchDay(date);
    Epoch();
  }

  lemma {:induction false} NextIsValid(date: Date)
    requires Valid(date)
    ensures Valid(NextDay(date))
  {
  }

  lemma {:induction false} Epoch()
    ensures DaysFromCivil(Date(1970, 1, 1)) == 0
  {
    DaysShape(Date(1970, 1, 1));
  }

  lemma {:induction false} NextMarchDay(date: Date)
    requires Valid(date)
    ensures var next := NextDay(date);
            MarchDays(MarchYear(next), MarchMonth(next), next.day)
            == MarchDays(MarchYear(date), MarchMonth(date), date.day) + 1
  {
    if date.day == DaysInMonth(date.year, date.month) {
      if date.month == 2 {
        FebruaryEnds(date.year);
      } else {
        MonthLength(date.year, date.month);
      }
    }
  }

  /** The first of March is the day after the last of February. */
  lemma {:induction false} FebruaryEnds(year: int)
    ensures MarchDays(year, 0, 1) == MarchDays(year - 1, 11, if IsLeap(year) then 29 else 28) + 1
  {
    YearTurns(year - 1);
    assert MonthStart(11) == 337 && MonthStart(0) == 0;
  }

  /** A month other than February is as long as the space up to the next one. */
  lemma {:induction false} MonthLength(year: int, month: int)
    requires 1 <= month <= 12 && month != 2
    ensures var m := month + if month > 2 then -3 else 9;
            MonthStart(m + 1) - MonthStart(m) == DaysInMonth(year, month)
  {
  }

  /** A March year is as many days long as the February it ends in makes it. */
  lemma {:induction false} YearTurns(y: int)
    ensures 146097 * ((y + 1) / 400) + YearStart((y + 1) % 400)
         == 146097 * (y / 400) + YearStart(y % 400) + if IsLeap(y + 1) then 366 else 365
  {
    var e, r := y / 400, y % 400;
    LeapPeriod(y);
    if r < 399 {
      assert (y + 1) / 400 == e && (y + 1) % 400 == r + 1;
      YearLength(r);
    } else {
      assert (y + 1) / 400 == e + 1 && (y + 1) % 400 == 0;
    }
  }

  lemma {:induction false} YearLength(r: int)
    requires 0 <= r < 399
    ensures YearStart(r + 1) == YearStart(r) + if IsLeap(r + 1) then 366 else 365
  {
    NextQuotient(r, 4);
    NextQuotient(r, 100);
    if (r + 1) % 100 == 0 {
      ModShift(4, 25 * ((r + 1) / 100), 0);
    }
  }

  lemma {:induction false} NextQuotient(n: int, d: int)
    requires n >= 0 && d > 0
    ensures (n + 1) / d == n / d + if (n + 1) % d == 0 then 1 else 0
  {
    var k, m := n / d, n % d;
    assert n == d * k + m;
    if m + 1 < d {
      Quotient(n + 1, d, k);
    } else {
      Quotient(n + 1, d, k + 1);
    }
  }

  /** Later dates have greater counts. */
  lemma {:induction false} DaysMonotone(a: Date, b: Date)
    requires Valid(a) && Valid(b)
    ensures Before(a, b) <==> DaysFromCivil(a) < DaysFromCivil(b)
  {
    if Before(a, b) {
      DaysIncrease(a, b);
    } else if Before(b, a) {
      DaysIncrease(b, a);
    }
  }

  lemma {:induction false} DaysIncrease(a: Date, b: Date)
    requires Valid(a) && Valid(b) && Before(a, b)
    ensures DaysFromCivil(a) < DaysFromCivil(b)
  {
    DaysShape(a);
    DaysShape(b);
    ValidFits(a);
    var y, w := MarchYear(a), MarchYear(b);
    if y == w {
      MonthsIncrease(MarchMonth(a), MarchMonth(b));
    } else {
      YearsIncrease(y, w);
    }
  }

  lemma {:induction false} MonthsIncrease(m: int, n: int)
    requires 0 <= m < n <= 11 || m == n
    ensures m < n ==> MonthStart(m + 1) <= MonthStart(n)
  {
  }

  /** A later March year begins after every day of an earlier one. */
  lemma {:induction false} YearsIncrease(y: int, w: int)
    requires y < w
    ensures 146097 * (y / 400) + YearStart(y % 400) + (if IsLeap(y + 1) then 366 else 365)
         <= 146097 * (w / 400) + YearStart(w % 400)
    decreases w - y
  {
    YearTurns(w - 1);
    if y < w - 1 {
      YearsIncrease(y, w - 1);
    }
  }

  /** The time of day is a time of day, and with the date it is the timestamp again. */
  lemma {:induction false} UnixRoundTrip(secs: int)
    ensures var m := CivilFromUnix(secs);
            && Valid(m.date) && 0 <= m.hour < 24 && 0 <= m.minute < 60 && 0 <= m.second < 60
            && DaysFromCivil(m.date) * 86400 + m.hour * 3600 + m.minute * 60 + m.second == secs
  {
    DaysOfCivil(secs / 86400);
    TimeOfDay(secs % 86400);
  }

  lemma {:induction false} TimeOfDay(rest: int)
    requires 0 <= rest < 86400
    ensures 0 <= rest / 3600 < 24 && 0 <= rest % 3600 / 60 < 60 && 0 <= rest % 60 < 60
    ensures rest / 3600 * 3600 + rest % 3600 / 60 * 60 + rest % 60 == rest
  {
    var h, t := rest / 3600, rest % 3600;
    var m, s := t / 60, t % 60;
    assert rest == 60 * (60 * h + m) + s;
  }

  predicate FitsI64(v: int) {
    -0x8000_0000_0000_0000 <= v < 0x8000_0000_0000_0000
  }

  const I64_MIN := -0x8000_0000_0000_0000
  const I64_MAX := 0x7FFF_FFFF_FFFF_FFFF

  /** Every value `civil_from_days` computes fits an `i64`. */
  predicate CivilFits(days: int) {
    var z := days + 719468;
    var era, doe := z / 146097, z % 146097;
    var a := doe - TruncDiv(doe, 1460);
    var b := a + TruncDiv(doe, 36524);
    var y := YearOfEra(doe);
    var leaps := 365 * y + TruncDiv(y, 4);
    var doy := doe - (leaps - TruncDiv(y, 100));
    var m := TruncDiv(5 * doy + 2, 153);
    var day := doy - TruncDiv(153 * m + 2, 5);
    && FitsI64(z) && FitsI64(era) && FitsI64(doe)
    && FitsI64(a) && FitsI64(b) && FitsI64(b - TruncDiv(doe, 146096)) && FitsI64(y)
    && FitsI64(era * 400) && FitsI64(y + era * 400) && FitsI64(y + era * 400 + 1)
    && FitsI64(365 * y) && FitsI64(leaps) && FitsI64(leaps - TruncDiv(y, 100)) && FitsI64(doy)
    && FitsI64(5 * doy) && FitsI64(5 * doy + 2) && FitsI64(m)
    && FitsI64(153 * m) && FitsI64(153 * m + 2) && FitsI64(day) && FitsI64(day + 1) && FitsI64(m + 3) && FitsI64(m - 9)
  }

  /** The conversion from days overflows exactly when the shift to the era base does. */
  lemma {:induction false} CivilNeverOverflows(days: i64)
    ensures CivilFits(days) <==> FitsI64(days + 719468)
  {
    var doe := (days + 719468) % 146097;
    DayFitsYear(doe);
    DayFitsMonth(doe - YearStart(YearOfEra(doe)));
  }

  /** Every value `days_from_civil` computes fits an `i64`. */
  predicate DaysFits(date: Date) {
    var year := date.year - if date.month <= 2 then 1 else 0;
    var low := if year >= 0 then year else year - 399;
    var era := TruncDiv(low, 400);
    var y := year - era * 400;
    var m := date.month + if date.month > 2 then -3 else 9;
    var start := TruncDiv(153 * m + 2, 5);
    var doy := start + date.day - 1;
    var leaps := y * 365 + TruncDiv(y, 4);
    var doe := leaps - TruncDiv(y, 100) + doy;
    && FitsI64(year) && FitsI64(low) && FitsI64(era) && FitsI64(era * 400) && FitsI64(y)
    && FitsI64(m) && FitsI64(153 * m) && FitsI64(153 * m + 2) && FitsI64(start) && FitsI64(start + date.day)
    && FitsI64(doy)
    && FitsI64(y * 365) && FitsI64(leaps) && FitsI64(leaps - TruncDiv(y, 100)) && FitsI64(doe)
    && FitsI64(era * 146097) && FitsI64(era * 146097 + doe) && FitsI64(era * 146097 + doe - 719468)
  }

  lemma {:induction false} DaysFitsCount(date: Date)
    requires Valid(date)
    ensures DaysFits(date) <==> I64_MIN <= DaysFromCivil(date) <= I64_MAX - 719468
  {
    EraFloors(MarchYear(date));
    ValidFits(date);
  }

  /**
   The conversion to days overflows exactly outside the dates of the day counts that the conversion from days takes:
   those up to `I64_MAX - 719468`.
   */
  lemma {:induction false} DaysNeverOverflow(date: Date)
    requires Valid(date)
    ensures DaysFits(date) <==> !Before(date, CivilFromDays(I64_MIN)) && !Before(CivilFromDays(I64_MAX - 719468), date)
  {
    DaysFitsCount(date);
    DaysOfCivil(I64_MIN);
    DaysOfCivil(I64_MAX - 719468);
    DaysMonotone(date, CivilFromDays(I64_MIN));
    DaysMonotone(CivilFromDays(I64_MAX - 719468), date);
  }
}
