/** Civil dates, their text, and wall-clock shifts (`backend-rs/src/clock.rs`). */
module Clock {
  import opened Text

  const DAY := 86_400_000

  /** A moment as UTC calendar fields. */
  datatype Utc = Utc(year: int, month: int, day: int, hour: int, minute: int, second: int, millis: int)

  datatype Date = Date(year: int, month: int, day: int)

  // ------------------------------------------------------------ civil dates

  /** The date part of `Utc::from_unix_millis`: the civil date of a day number. */
  function CivilFromDays(days: int): Date
  {
    var z := days + 719_468;
    var era := z / 146_097;
    var doe := z % 146_097;
    var yoe := YearOfEra(doe);
    var doy := doe - (365 * yoe + yoe / 4 - yoe / 100);
    var mp := (5 * doy + 2) / 153;
    var day := doy - (153 * mp + 2) / 5 + 1;
    var month := if mp < 10 then mp + 3 else mp - 9;
    var year := yoe + era * 400 + (if month <= 2 then 1 else 0);
    Date(year, month, day)
  }

  function YearOfEra(doe: int): int { (doe - doe / 1460 + doe / 36_524 - doe / 146_096) / 365 }

  /** `days_from_civil`: days since 1970-01-01. */
  function DaysFromCivil(year: int, month: int, day: int): int
  {
    var y := if month <= 2 then year - 1 else year;
    var era := y / 400;
    var yoe := y % 400;
    var mp := if month > 2 then month - 3 else month + 9;
    var doy := (153 * mp + 2) / 5 + day - 1;
    var doe := yoe * 365 + yoe / 4 - yoe / 100 + doy;
    era * 146_097 + doe - 719_468
  }

  function DayNumber(d: Date): int { DaysFromCivil(d.year, d.month, d.day) }

  // The Gregorian calendar, stated on its own.

  predicate IsLeap(y: int) { y % 4 == 0 && (y % 100 != 0 || y % 400 == 0) }

  function DaysInMonth(y: int, m: int): int
  {
    if m == 2 then (if IsLeap(y) then 29 else 28)
    else if m == 4 || m == 6 || m == 9 || m == 11 then 30
    else 31
  }

  predicate ValidDate(d: Date) { 1 <= d.month <= 12 && 1 <= d.day <= DaysInMonth(d.year, d.month) }

  function NextDay(d: Date): Date
  {
    if d.day < DaysInMonth(d.year, d.month) then Date(d.year, d.month, d.day + 1)
    else if d.month < 12 then Date(d.year, d.month + 1, 1)
    else Date(d.year + 1, 1, 1)
  }

  // Years counted from March, so that the leap day comes last.

  /** Days from March of year 0 to March of `y`. */
  function YearStart(y: int): int { 365 * y + y / 4 - y / 100 + y / 400 }

  /** Days from March to the month `mp` months later. */
  function MonthStart(mp: int): int { (153 * mp + 2) / 5 }

  function MarchYear(d: Date): int { if d.month <= 2 then d.year - 1 else d.year }

  function MarchMonth(d: Date): int { if d.month > 2 then d.month - 3 else d.month + 9 }

  lemma YearStartByEra(y: int)
    ensures var t := y % 400; YearStart(y) == y / 400 * 146_097 + 365 * t + t / 4 - t / 100
  {
    var e, t := y / 400, y % 400;
    assert y == 400 * e + t;
    assert y / 4 == 100 * e + t / 4;
    assert y / 100 == 4 * e + t / 100;
  }

  lemma YearLength(y: int)
    ensures YearStart(y + 1) - YearStart(y) == if IsLeap(y + 1) then 366 else 365
  {
    assert (y + 1) / 4 == y / 4 + if (y + 1) % 4 == 0 then 1 else 0;
    assert (y + 1) / 100 == y / 100 + if (y + 1) % 100 == 0 then 1 else 0;
    assert (y + 1) / 400 == y / 400 + if (y + 1) % 400 == 0 then 1 else 0;
    assert (y + 1) % 400 == 0 ==> (y + 1) % 100 == 0;
    assert (y + 1) % 100 == 0 ==> (y + 1) % 4 == 0;
  }

  lemma DayNumberByParts(d: Date)
    requires 1 <= d.month <= 12
    ensures DayNumber(d) == YearStart(MarchYear(d)) + MonthStart(MarchMonth(d)) + d.day - 1 - 719_468
  {
    YearStartByEra(MarchYear(d));
  }

  /** The year of the era comes out of the day of the era, for every year and every day in it. */
  lemma YearOfEraParts(c: int, q: int, r: int, doy: int)
    requires 0 <= c < 4 && 0 <= q < 25 && 0 <= r < 4 && 0 <= doy <= 365
    requires doy == 365 ==> r == 3 && (q < 24 || c == 3)
    ensures var doe := 36_524 * c + 1461 * q + 365 * r + doy;
            0 <= doe < 146_097 && YearOfEra(doe) == 100 * c + 4 * q + r
  {
    var doe := 36_524 * c + 1461 * q + 365 * r + doy;
    var late := if 24 * c + q + 365 * r + doy >= 1460 then 1 else 0;
    assert doe / 36_524 - doe / 146_096 == c by {
      if doe == 146_096 {} else { assert doe / 36_524 == c; }
    }
    assert doe / 1460 == 25 * c + q + late;
  }

  lemma MonthOfDay(doy: int)
    requires 0 <= doy <= 365
    ensures var mp := (5 * doy + 2) / 153; 0 <= mp <= 11 && MonthStart(mp) <= doy < MonthStart(mp + 1)
  {
  }

  /** The date `doy` days into the year that starts in March of `y`. */
  function DateInYear(y: int, doy: int): Date
  {
    var mp := (5 * doy + 2) / 153;
    var month := if mp < 10 then mp + 3 else mp - 9;
    Date(if month <= 2 then y + 1 else y, month, doy - MonthStart(mp) + 1)
  }

  lemma DateInYearParts(y: int, doy: int)
    requires 0 <= doy <= 365
    ensures var d := DateInYear(y, doy);
            MarchYear(d) == y && MarchMonth(d) == (5 * doy + 2) / 153 && 1 <= d.month <= 12
    ensures doy < 365 || IsLeap(y + 1) ==> ValidDate(DateInYear(y, doy))
  {
    MonthOfDay(doy);
    var mp := (5 * doy + 2) / 153;
    var day := doy - MonthStart(mp) + 1;
    assert 1 <= day <= MonthStart(mp + 1) - MonthStart(mp);
    if mp == 11 { assert day == doy - 336; }
  }

  lemma YearDigits(t: int) returns (c: int, q: int, r: int)
    requires 0 <= t < 400
    ensures t == 100 * c + 4 * q + r && 0 <= c < 4 && 0 <= q < 25 && 0 <= r < 4
    ensures t / 4 == 25 * c + q && t / 100 == c
  {
    c, q, r := t / 100, t % 100 / 4, t % 4;
  }

  lemma LeapDigits(y: int, c: int, q: int, r: int)
    requires y % 400 == 100 * c + 4 * q + r && 0 <= c < 4 && 0 <= q < 25 && 0 <= r < 4 && IsLeap(y + 1)
    ensures r == 3 && (q < 24 || c == 3)
  {
    assert (y + 1) % 4 == 0;
  }

  lemma EraOfDay(y: int, doy: int)
    requires 0 <= doy <= 365 && (doy == 365 ==> IsLeap(y + 1))
    ensures var t, n := y % 400, YearStart(y) + doy;
            var doe := 365 * t + t / 4 - t / 100 + doy;
            n / 146_097 == y / 400 && n % 146_097 == doe && YearOfEra(doe) == t
  {
    hide YearStart, YearOfEra, IsLeap;
    var t := y % 400;
    var c, q, r := YearDigits(t);
    if doy == 365 { LeapDigits(y, c, q, r); }
    YearOfEraParts(c, q, r, doy);
    YearStartByEra(y);
    var doe := 365 * t + t / 4 - t / 100 + doy;
    DivModOf(YearStart(y) + doy, 146_097, y / 400, doe);
  }

  lemma DivModOf(n: int, d: int, q: int, r: int)
    requires d > 0 && n == q * d + r && 0 <= r < d
    ensures n / d == q && n % d == r
  {
    var e := n / d - q;
    assert n == n / d * d + n % d;
    assert e * d == r - n % d;
    assert e >= 1 ==> e * d >= d;
    assert e <= -1 ==> e * d <= -d;
  }

  lemma CivilOfYearDay(y: int, doy: int)
    requires 0 <= doy <= 365 && (doy == 365 ==> IsLeap(y + 1))
    ensures CivilFromDays(YearStart(y) + doy - 719_468) == DateInYear(y, doy)
  {
    hide YearStart, YearOfEra, IsLeap;
    EraOfDay(y, doy);
    MonthOfDay(doy);
  }

  /** A year start and a day in that year for every day number. */
  lemma SplitDays(n: int) returns (y: int, doy: int)
    ensures 0 <= doy <= 365 && (doy == 365 ==> IsLeap(y + 1))
    ensures YearStart(y) + doy == n
  {
    hide YearStart, IsLeap;
    var era, doe := n / 146_097, n % 146_097;
    var c, q, r;
    c, q, r, doy := SplitEra(doe);
    var t := 100 * c + 4 * q + r;
    y := 400 * era + t;
    assert y / 400 == era && y % 400 == t;
    YearStartByEra(y);
    if doy == 365 { LeapYear(y, c, q); }
  }

  lemma SplitEra(doe: int) returns (c: int, q: int, r: int, doy: int)
    requires 0 <= doe < 146_097
    ensures 0 <= c < 4 && 0 <= q < 25 && 0 <= r < 4 && 0 <= doy <= 365
    ensures doy == 365 ==> r == 3 && (q < 24 || c == 3)
    ensures doe == 36_524 * c + 1461 * q + 365 * r + doy
    ensures var t := 100 * c + 4 * q + r; t / 4 == 25 * c + q && t / 100 == c
  {
    c := if doe / 36_524 < 3 then doe / 36_524 else 3;
    var doc := doe - 36_524 * c;
    q := if doc / 1461 < 24 then doc / 1461 else 24;
    var doq := doc - 1461 * q;
    r := if doq / 365 < 3 then doq / 365 else 3;
    doy := doq - 365 * r;
  }

  lemma LeapYear(y: int, c: int, q: int)
    requires 0 <= c < 4 && 0 <= q < 25 && y % 400 == 100 * c + 4 * q + 3 && (q < 24 || c == 3)
    ensures IsLeap(y + 1)
  {
    var e := y / 400;
    DivModOf(y + 1, 4, 100 * e + 25 * c + q + 1, 0);
    if q < 24 { DivModOf(y + 1, 100, 4 * e + c, 4 * q + 4); } else { DivModOf(y + 1, 400, e + 1, 0); }
  }

  /** Every day number is a Gregorian date that converts back to it. */
  lemma DaysRoundTrip(n: int)
    ensures ValidDate(CivilFromDays(n)) && DayNumber(CivilFromDays(n)) == n
  {
    var y, doy := SplitDays(n + 719_468);
    CivilOfYearDay(y, doy);
    DateInYearParts(y, doy);
    DayNumberByParts(DateInYear(y, doy));
  }

  /** Every Gregorian date converts to a day number and back. */
  lemma DateRoundTrip(d: Date)
    requires ValidDate(d)
    ensures CivilFromDays(DayNumber(d)) == d
  {
    var doy := DayOfMarchYear(d);
    DayNumberByParts(d);
    CivilOfYearDay(MarchYear(d), doy);
  }

  lemma DayOfMarchYear(d: Date) returns (doy: int)
    requires ValidDate(d)
    ensures doy == MonthStart(MarchMonth(d)) + d.day - 1 && 0 <= doy <= 365
    ensures doy == 365 ==> IsLeap(MarchYear(d) + 1)
    ensures DateInYear(MarchYear(d), doy) == d
  {
    var mp := MarchMonth(d);
    doy := MonthStart(mp) + d.day - 1;
    assert (5 * doy + 2) / 153 == mp;
  }

  lemma NextDayParts(d: Date)
    requires ValidDate(d)
    ensures ValidDate(NextDay(d))
    ensures var n, y, place := NextDay(d), MarchYear(d), MonthStart(MarchMonth(d)) + d.day;
            if MarchYear(n) == y then MonthStart(MarchMonth(n)) + n.day == place + 1
            else MarchYear(n) == y + 1 && place == (if IsLeap(y + 1) then 366 else 365)
                 && MonthStart(MarchMonth(n)) == 0 && n.day == 1
  {
  }

  lemma EpochDay()
    ensures DayNumber(Date(1970, 1, 1)) == 0
  {
  }

  /** The day after a date, by the leap-year rule, has the next day number. */
  lemma NextDayNumber(d: Date)
    requires ValidDate(d)
    ensures ValidDate(NextDay(d)) && DayNumber(NextDay(d)) == DayNumber(d) + 1
  {
    hide DayNumber, YearStart, NextDay, MarchYear, MarchMonth, MonthStart, IsLeap;
    NextDayParts(d);
    DayNumberByParts(d);
    DayNumberByParts(NextDay(d));
    YearLength(MarchYear(d));
  }

  // ---------------------------------------------------------------- moments

  predicate ValidUtc(u: Utc)
  {
    ValidDate(Date(u.year, u.month, u.day)) && 0 <= u.hour < 24 && 0 <= u.minute < 60 && 0 <= u.second < 60
    && 0 <= u.millis < 1000
  }

  /** `Utc::from_unix_millis`; `div_euclid` and `rem_euclid` are Dafny's `/` and `%`. */
  function FromUnixMillis(ms: int): (u: Utc)
    ensures ValidUtc(u)
  {
    var date := CivilFromDays(ms / DAY);
    DaysRoundTrip(ms / DAY);
    var rem := ms % DAY;
    Utc(date.year, date.month, date.day, rem / 3_600_000, rem / 60_000 % 60, rem / 1000 % 60, rem % 1000)
  }

  /** Milliseconds since the epoch of calendar fields, field by field. */
  function ToUnixMillis(u: Utc): int
  {
    DaysFromCivil(u.year, u.month, u.day) * DAY + u.hour * 3_600_000 + u.minute * 60_000 + u.second * 1000 + u.millis
  }

  lemma MillisRoundTrip(ms: int)
    ensures ToUnixMillis(FromUnixMillis(ms)) == ms
  {
    hide CivilFromDays, DaysFromCivil, ValidUtc;
    DaysRoundTrip(ms / DAY);
    ClockFields(ms % DAY);
  }

  lemma ClockFields(rem: int)
    requires 0 <= rem < DAY
    ensures rem == rem / 3_600_000 * 3_600_000 + rem / 60_000 % 60 * 60_000 + rem / 1000 % 60 * 1000 + rem % 1000
  {
    var s := rem / 1000;
    var m := s / 60;
    assert rem / 60_000 == m && rem / 3_600_000 == m / 60;
  }

  // ------------------------------------------------------------------- text

  function DateText(u: Utc): string
    requires ValidUtc(u)
  {
    PadSigned(u.year, 4) + ['-'] + (Pad(u.month, 2) + ['-'] + Pad(u.day, 2))
  }

  function ClockText(u: Utc): string
    requires ValidUtc(u)
  {
    Pad(u.hour, 2) + [':'] + (Pad(u.minute, 2) + [':'] + Pad(u.second, 2))
  }

  function TimeText(u: Utc): string
    requires ValidUtc(u)
  {
    ClockText(u) + ['.'] + Pad(u.millis, 3)
  }

  /** `iso_string`: `YYYY-MM-DDTHH:MM:SS.SSSZ`. */
  function IsoString(u: Utc): string
    requires ValidUtc(u)
  {
    DateText(u) + ['T'] + (TimeText(u) + ['Z'])
  }

  /** `typeorm_string`: `YYYY-MM-DD HH:MM:SS.SSS`. */
  function TypeormString(u: Utc): string
    requires ValidUtc(u)
  {
    DateText(u) + [' '] + TimeText(u)
  }

  /** `parse_date_millis`: `YYYY-MM-DD`, optionally `THH:MM[:SS[.SSS]]Z`. */
  function ParseDateMillis(text: string): Option<int>
  {
    var cut := SplitOnce(text, {'T'});
    var date := ParseDate(if cut.Some? then cut.value.0 else text);
    var millis := if cut.Some? then ParseTime(cut.value.1) else Some(0);
    match (date, millis)
    case (Some(d), Some(ms)) => Some(DayNumber(d) * DAY + ms)
    case _ => None
  }

  /** The part before `T`: any month of 31 days passes, as in the parser. */
  function ParseDate(date: string): Option<Date>
  {
    var parts := Split(date, '-');
    if |parts| != 3 then None
    else match (ParseI64(parts[0]), ParseI64(parts[1]), ParseI64(parts[2]))
      case (Some(year), Some(month), Some(day)) =>
        if 1 <= month <= 12 && 1 <= day <= 31 then Some(Date(year, month, day)) else None
      case _ => None
  }

  /** The milliseconds of the part after `T`; it must end in `Z`. Signs pass, as in `parse::<i64>`. */
  function ParseTime(time: string): Option<int>
  {
    if time == [] || time[|time| - 1] != 'Z' then None
    else
      var clock := time[..|time| - 1];
      var cut := SplitOnce(clock, {'.'});
      var hms := if cut.Some? then cut.value.0 else clock;
      var fraction := if cut.Some? then cut.value.1 else "0";
      var fields := Split(hms, ':');
      if |fields| != 2 && |fields| != 3 then None
      else
        var second := if |fields| == 3 then ParseI64(fields[2]) else Some(0);
        match (ParseI64(fields[0]), ParseI64(fields[1]), second, ParseI64(ThreeDigits(fraction)))
        case (Some(h), Some(m), Some(s), Some(ms)) =>
          if h > 23 || m > 59 || s > 59 then None
          else Some(h * 3_600_000 + m * 60_000 + s * 1000 + ms)
        case _ => None
  }

  /** The first three characters, filled up with zeros. */
  function ThreeDigits(fraction: string): string
  {
    if |fraction| >= 3 then fraction[..3]
    else if |fraction| == 2 then fraction + "0"
    else if |fraction| == 1 then fraction + "00"
    else "000"
  }

  /** `sqlite_datetime_to_iso` (`backend-rs/src/db.rs`). */
  function SqliteDatetimeToIso(text: string): Option<string>
  {
    match SplitOnce(text, {' ', 'T'})
    case None => None
    case Some((date, time)) =>
      if !DigitsOr(date, 10, '-') then None
      else
        var cut := SplitOnce(time, {'.'});
        var clock := if cut.Some? then cut.value.0 else time;
        var millis := if cut.Some? then cut.value.1 else "000";
        if !DigitsOr(millis, 3, '.') then None
        else if DigitsOr(clock, 5, ':') then Some(date + "T" + (clock + ":00") + "." + millis + "Z")
        else if DigitsOr(clock, 8, ':') then Some(date + "T" + clock + "." + millis + "Z")
        else None
  }

  predicate DigitsOr(s: string, len: nat, sep: char) { |s| == len && forall c :: c in s ==> IsDigit(c) || c == sep }

  lemma FieldWidths(u: Utc)
    requires ValidUtc(u)
    ensures |Pad(u.month, 2)| == |Pad(u.day, 2)| == |Pad(u.hour, 2)| == |Pad(u.minute, 2)| == |Pad(u.second, 2)| == 2
    ensures |Pad(u.millis, 3)| == 3
  {
    assert Power10(2) == 100 && Power10(3) == 1000 by { assert Power10(1) == 10; }
    PadWidth(u.month, 2); PadWidth(u.day, 2); PadWidth(u.hour, 2);
    PadWidth(u.minute, 2); PadWidth(u.second, 2); PadWidth(u.millis, 3);
  }

  lemma ParseTimeOfText(u: Utc)
    requires ValidUtc(u)
    ensures ParseTime(TimeText(u) + ['Z'])
         == Some(u.hour * 3_600_000 + u.minute * 60_000 + u.second * 1000 + u.millis)
  {
    hide Split, SplitOnce, Pad, ParseI64, NatOf, IsLeap, DaysInMonth;
    FieldWidths(u);
    var h, m, s, f := Pad(u.hour, 2), Pad(u.minute, 2), Pad(u.second, 2), Pad(u.millis, 3);
    var time := TimeText(u) + ['Z'];
    assert time[..|time| - 1] == ClockText(u) + ['.'] + f;
    SplitOnceAt(ClockText(u), '.', f, {'.'});
    SplitFirst(h, m + [':'] + s, ':');
    SplitFirst(m, s, ':');
    SplitPlain(s, ':');
    assert Split(ClockText(u), ':') == [h, m, s];
    assert ThreeDigits(f) == f;
    ParsePad(u.hour, 2); ParsePad(u.minute, 2); ParsePad(u.second, 2); ParsePad(u.millis, 3);
  }

  lemma NoEmptyNumber()
    ensures ParseI64([]) == None
  {
  }

  lemma ParseDateOfText(u: Utc)
    requires ValidUtc(u) && u.year <= I64_MAX
    ensures ParseDate(DateText(u)) == (if u.year >= 0 then Some(Date(u.year, u.month, u.day)) else None)
  {
    hide Pad, Split, ParseI64, NatOf, IsLeap;
    var m, d := Pad(u.month, 2), Pad(u.day, 2);
    if u.year >= 0 {
      var y := Pad(u.year, 4);
      SplitFirst(y, m + ['-'] + d, '-');
      SplitFirst(m, d, '-');
      SplitPlain(d, '-');
      assert Split(DateText(u), '-') == [y, m, d];
      ParsePad(u.year, 4); ParsePad(u.month, 2); ParsePad(u.day, 2);
    } else {
      var tail := Pad(-u.year, 3) + ['-'] + (m + ['-'] + d);
      assert DateText(u) == [] + ['-'] + tail;
      SplitFirst([], tail, '-');
      NoEmptyNumber();
    }
  }

  /** What the parser makes of a printed moment: its fields, or nothing for a signed year. */
  lemma ParseOfIso(u: Utc)
    requires ValidUtc(u) && u.year <= I64_MAX
    ensures ParseDateMillis(IsoString(u)) == (if u.year >= 0 then Some(ToUnixMillis(u)) else None)
  {
    hide Pad, ParseDate, ParseTime, SplitOnce, DaysFromCivil, IsLeap, DaysInMonth;
    SplitOnceAt(DateText(u), 'T', TimeText(u) + ['Z'], {'T'});
    ParseDateOfText(u);
    ParseTimeOfText(u);
  }

  // ------------------------------------------------------------- other shapes

  /** Year, month and day in decimal are a date exactly when month and day are in range. */
  lemma ParseDateOfNumbers(year: nat, month: nat, day: nat)
    requires year <= I64_MAX && month <= I64_MAX && day <= I64_MAX
    ensures var text := Pad(year, 4) + ['-'] + (Pad(month, 2) + ['-'] + Pad(day, 2));
            ParseDate(text) == (if 1 <= month <= 12 && 1 <= day <= 31 then Some(Date(year, month, day)) else None)
            && forall c :: c in text ==> IsDigit(c) || c == '-'
  {
    hide Pad, Split, ParseI64, NatOf;
    var y, m, d := Pad(year, 4), Pad(month, 2), Pad(day, 2);
    SplitFirst(y, m + ['-'] + d, '-');
    SplitFirst(m, d, '-');
    SplitPlain(d, '-');
    assert Split(y + ['-'] + (m + ['-'] + d), '-') == [y, m, d];
    ParsePad(year, 4); ParsePad(month, 2); ParsePad(day, 2);
  }

  /** Hours and minutes, with seconds or without. */
  function HmsText(h: nat, m: nat, s: Option<nat>): string
  {
    if s.Some? then Pad(h, 2) + [':'] + (Pad(m, 2) + [':'] + Pad(s.value, 2)) else Pad(h, 2) + [':'] + Pad(m, 2)
  }

  lemma HmsFields(h: nat, m: nat, s: Option<nat>)
    ensures Split(HmsText(h, m, s), ':')
         == if s.Some? then [Pad(h, 2), Pad(m, 2), Pad(s.value, 2)] else [Pad(h, 2), Pad(m, 2)]
    ensures '.' !in HmsText(h, m, s) && HmsText(h, m, s) != [] && 'Z' !in HmsText(h, m, s)
  {
    hide Pad, Split;
    var hh, mm := Pad(h, 2), Pad(m, 2);
    SplitPlain(mm, ':');
    SplitFirst(hh, mm, ':');
    if s.Some? {
      var ss := Pad(s.value, 2);
      SplitPlain(ss, ':');
      SplitFirst(mm, ss, ':');
      SplitFirst(hh, mm + [':'] + ss, ':');
    }
  }

  /** What up to three digits of a fraction stand for, in milliseconds. */
  function Millis(fraction: string): nat
    requires AllDigits(fraction)
  {
    if |fraction| >= 3 then NatOf(fraction[..3])
    else if |fraction| == 2 then NatOf(fraction) * 10
    else if |fraction| == 1 then NatOf(fraction) * 100
    else 0
  }

  lemma ThreeDigitsAre(fraction: string)
    requires AllDigits(fraction)
    ensures ParseI64(ThreeDigits(fraction)) == Some(Millis(fraction))
  {
    var t := ThreeDigits(fraction);
    assert AllDigits(t) && |t| == 3;
    assert t[0] in t;
    assert NatOf(t[..0]) == 0 && t[..3] == t && t[..2][..1] == t[..1] && t[..1][..0] == t[..0];
    assert NatOf(t[..1]) == Worth(t[0]) by { assert t[..1][0] in t[..1]; }
    assert NatOf(t[..2]) == Worth(t[0]) * 10 + Worth(t[1]) by { assert t[..2][1] in t[..2]; }
    assert NatOf(t) == (Worth(t[0]) * 10 + Worth(t[1])) * 10 + Worth(t[2]) by { assert t[2] in t; }
    if |fraction| == 2 { assert t[..2] == fraction; }
    if |fraction| == 1 { assert t[..1] == fraction; }
  }

  function Worth(c: char): (r: nat)
    requires IsDigit(c)
    ensures r <= 9
  {
    c as int - '0' as int
  }

  /**
   * A time is hours and minutes, or seconds too, up to 23:59:59, a fraction of which three digits count, and `Z`;
   * without the `Z` it is none.
   */
  lemma ParseTimeShapes(h: nat, m: nat, s: Option<nat>, fraction: Option<string>)
    requires h <= I64_MAX && m <= I64_MAX && (s.Some? ==> s.value <= I64_MAX)
    requires fraction.Some? ==> AllDigits(fraction.value)
    ensures var text := HmsText(h, m, s) + if fraction.Some? then ['.'] + fraction.value else [];
            var second := if s.Some? then s.value else 0;
            ParseTime(text + ['Z'])
            == (if h <= 23 && m <= 59 && second <= 59 then
                  Some(((h * 60 + m) * 60 + second) * 1000 + if fraction.Some? then Millis(fraction.value) else 0)
                else None)
            && ParseTime(text) == None
  {
    hide Split, SplitOnce, Pad, ParseI64, NatOf, ThreeDigits, HmsText, Millis;
    HmsFields(h, m, s);
    var hms := HmsText(h, m, s);
    var text := hms + if fraction.Some? then ['.'] + fraction.value else [];
    assert (text + ['Z'])[..|text|] == text;
    if fraction.Some? {
      SplitOnceAt(hms, '.', fraction.value, {'.'});
      assert text == hms + ['.'] + fraction.value;
      ThreeDigitsAre(fraction.value);
    } else {
      assert text == hms;
      SplitOnceNone(hms, {'.'});
      ZeroMillis();
    }
    ParsePad(h, 2);
    ParsePad(m, 2);
    if s.Some? { ParsePad(s.value, 2); }
    assert forall c :: c in text ==> c != 'Z';
    assert text[|text| - 1] in text;
  }

  lemma ZeroMillis()
    ensures ParseI64(ThreeDigits("0")) == Some(0)
  {
    ThreeDigitsAre("0");
  }

  /** One field, or four, are no time. */
  lemma ParseTimeFields(h: nat, m: nat, s: nat, more: string)
    requires '.' !in more
    ensures ParseTime(Pad(h, 2) + ['Z']) == None
    ensures ParseTime(HmsText(h, m, Some(s)) + ([':'] + more) + ['Z']) == None
  {
    hide Split, SplitOnce, Pad, ParseI64, NatOf, ThreeDigits;
    var one := Pad(h, 2);
    assert (one + ['Z'])[..|one|] == one;
    SplitOnceNone(one, {'.'});
    SplitPlain(one, ':');
    var mm, ss := Pad(m, 2), Pad(s, 2);
    var four := HmsText(h, m, Some(s)) + ([':'] + more);
    assert (four + ['Z'])[..|four|] == four;
    SplitOnceNone(four, {'.'});
    assert four == one + [':'] + (mm + [':'] + (ss + [':'] + more));
    SplitFirst(one, mm + [':'] + (ss + [':'] + more), ':');
    SplitFirst(mm, ss + [':'] + more, ':');
    SplitFirst(ss, more, ':');
  }

  /** A date alone is its first moment; a `T` and a time add to it. */
  lemma ParseShapes(year: nat, month: nat, day: nat, time: string)
    requires year <= I64_MAX && month <= I64_MAX && day <= I64_MAX
    ensures var date := Pad(year, 4) + ['-'] + (Pad(month, 2) + ['-'] + Pad(day, 2));
            var midnight := DayNumber(Date(year, month, day)) * DAY;
            var valid := 1 <= month <= 12 && 1 <= day <= 31;
            ParseDateMillis(date) == (if valid then Some(midnight) else None)
            && ParseDateMillis(date + ['T'] + time)
               == if valid && ParseTime(time).Some? then Some(midnight + ParseTime(time).value) else None
  {
    hide Pad, ParseDate, ParseTime, SplitOnce, DaysFromCivil;
    ParseDateOfNumbers(year, month, day);
    var date := Pad(year, 4) + ['-'] + (Pad(month, 2) + ['-'] + Pad(day, 2));
    assert 'T' !in date;
    SplitOnceNone(date, {'T'});
    SplitOnceAt(date, 'T', time, {'T'});
  }

  lemma YearInRange(ms: int)
    requires I64_MIN <= ms <= I64_MAX
    ensures FromUnixMillis(ms).year <= I64_MAX
  {
    var days := ms / DAY;
    var d := CivilFromDays(days);
    DaysRoundTrip(days);
    DayNumberByParts(d);
  }

  /** Parsing the ISO text of a moment gives the moment back, exactly from year 0 on. */
  lemma IsoTextRoundTrip(ms: int)
    requires I64_MIN <= ms <= I64_MAX
    ensures var u := FromUnixMillis(ms);
            ParseDateMillis(IsoString(u)) == (if u.year >= 0 then Some(ms) else None)
  {
    YearInRange(ms);
    ParseOfIso(FromUnixMillis(ms));
    MillisRoundTrip(ms);
  }

  /** The first millisecond of the year before year 0 is printed with a sign, and not parsed. */
  lemma SignedYearIsNotParsed()
    ensures var ms := DayNumber(Date(-1, 1, 1)) * DAY;
            FromUnixMillis(ms).year == -1 && ParseDateMillis(IsoString(FromUnixMillis(ms))) == None
  {
    hide CivilFromDays, DaysFromCivil, ParseDateMillis, IsoString;
    var d := Date(-1, 1, 1);
    assert ValidDate(d);
    DateRoundTrip(d);
    WholeDays(DayNumber(d));
    ParseOfIso(FromUnixMillis(DayNumber(d) * DAY));
  }

  lemma WholeDays(days: int)
    ensures days * DAY / DAY == days
  {
  }

  /** What a stored date time is taken apart into, whatever stands there. */
  lemma SqliteShapes(date: string, sep: char, clock: string, millis: Option<string>)
    requires sep == ' ' || sep == 'T'
    requires ' ' !in date && 'T' !in date && '.' !in clock
    ensures var text := date + [sep] + (clock + if millis.Some? then ['.'] + millis.value else []);
            var known := |date| == 10 && (forall c :: c in date ==> '0' <= c <= '9' || c == '-')
                         && (|clock| == 5 || |clock| == 8) && (forall c :: c in clock ==> '0' <= c <= '9' || c == ':')
                         && (millis.Some? ==>
                               |millis.value| == 3 && forall c :: c in millis.value ==> '0' <= c <= '9' || c == '.');
            SqliteDatetimeToIso(text)
            == (if known then Some(date + "T" + (if |clock| == 5 then clock + ":00" else clock) + "."
                                   + (if millis.Some? then millis.value else "000") + "Z") else None)
  {
    hide SplitOnce;
    var time := clock + if millis.Some? then ['.'] + millis.value else [];
    SplitOnceAt(date, sep, time, {' ', 'T'});
    if millis.Some? {
      assert time == clock + ['.'] + millis.value;
      SplitOnceAt(clock, '.', millis.value, {'.'});
    } else {
      assert time == clock;
      SplitOnceNone(clock, {'.'});
    }
  }

  /** A text without a blank or `T` is no date time. */
  lemma SqliteNeedsBoth(text: string)
    requires ' ' !in text && 'T' !in text
    ensures SqliteDatetimeToIso(text) == None
  {
    SplitOnceNone(text, {' ', 'T'});
  }

  /** The TypeORM text turns into the ISO text exactly while the printed year is four characters wide. */
  lemma TypeormToIso(u: Utc)
    requires ValidUtc(u)
    ensures SqliteDatetimeToIso(TypeormString(u)) == (if -999 <= u.year <= 9999 then Some(IsoString(u)) else None)
  {
    hide SplitOnce, Pad, IsLeap, DaysInMonth;
    FieldWidths(u);
    assert Power10(4) == 10_000 && Power10(3) == 1000 by { assert Power10(2) == 100 by { assert Power10(1) == 10; } }
    var date, clock, f := DateText(u), ClockText(u), Pad(u.millis, 3);
    if u.year >= 0 { PadWidth(u.year, 4); } else { PadWidth(-u.year, 3); }
    SplitOnceAt(date, ' ', TimeText(u), {' ', 'T'});
    SplitOnceAt(clock, '.', f, {'.'});
    assert |date| == |PadSigned(u.year, 4)| + 6;
    if -999 <= u.year <= 9999 {
      assert DigitsOr(date, 10, '-') && DigitsOr(clock, 8, ':') && DigitsOr(f, 3, '.');
      assert date + "T" + clock + "." + f + "Z" == IsoString(u);
    }
  }

  /** The TypeORM text of year 10000 isn't converted. */
  lemma FiveDigitYearIsNotConverted()
    ensures var u := Utc(10_000, 1, 1, 0, 0, 0, 0); ValidUtc(u) && SqliteDatetimeToIso(TypeormString(u)) == None
  {
    hide SqliteDatetimeToIso, TypeormString;
    TypeormToIso(Utc(10_000, 1, 1, 0, 0, 0, 0));
  }
}
