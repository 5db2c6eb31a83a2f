/** Dates and timestamps as the CSV sink prints them and the API decoder parses them
    (crates/quickhouse-core/src/sink/csv_writer.rs, decode_api.rs, types.rs). */
module DateText {
  import opened Options
  import opened PowersOfTen
  import opened Digits
  import opened DecimalText
  import opened Calendar

  const UNIX_EPOCH_DAYS_FROM_CE: int := 719163
  const MIN_DAYS: int := -25567
  const MAX_DAYS: int := 120529
  const MIN_MICROS: int := MIN_DAYS * 86400 * 1000000
  const MAX_MICROS: int := (MAX_DAYS + 1) * 86400 * 1000000 - 1

  /** The years chrono's `NaiveDate` can hold. */
  predicate YearHeld(year: int) { -262143 <= year <= 262142 }

  predicate DaysInRange(days: int) { MIN_DAYS <= days <= MAX_DAYS }

  predicate MicrosInRange(micros: int) { MIN_MICROS <= micros <= MAX_MICROS }

  // ----- printing -----

  /** The last `width` decimal digits of `n`, zero-padded: `{:0width}` of a number that short. */
  function Padded(n: nat, width: nat): (s: string)
    ensures |s| == width && AllDigits(s)
  {
    if width == 0 then "" else Padded(n / 10, width - 1) + [DigitChar(n % 10)]
  }

  /** `write_year`: padded to four digits, and with a sign when those are not enough. */
  function YearText(year: int): string {
    if 0 <= year <= 9999 then Padded(year, 4)
    else if year < 0 then "-" + (if -year < 10000 then Padded(-year, 4) else Print(-year))
    else "+" + Print(year)
  }

  function DateString(d: Date): string
    requires ValidDate(d)
  {
    YearText(d.year) + ("-" + (Padded(d.month, 2) + ("-" + Padded(d.day, 2))))
  }

  /** `YYYY-MM-DD` for `days` since 1970-01-01. */
  function WriteDate(days: int): Result<string> {
    if days + UNIX_EPOCH_DAYS_FROM_CE > I32_MAX then Err
    else
      var d := DateOf(days + UNIX_EPOCH_DAYS_FROM_CE);
      if YearHeld(d.year) then Ok(DateString(d)) else Err
  }

  /** A timestamp unit, by its fractional digits: seconds, milli-, micro-, nanoseconds. */
  predicate IsUnit(digits: nat) { digits == 0 || digits == 3 || digits == 6 || digits == 9 }

  function PerSecond(digits: nat): (p: int)
    requires IsUnit(digits)
    ensures p > 0
  {
    if digits == 0 then 1 else if digits == 3 then 1000 else if digits == 6 then 1000000 else 1000000000
  }

  /** Nanoseconds in one unit. */
  function NanosPer(digits: nat): (p: nat)
    requires IsUnit(digits)
  {
    if digits == 0 then 1000000000 else if digits == 3 then 1000000 else if digits == 6 then 1000 else 1
  }

  function TimeText(secondOfDay: int): string
    requires 0 <= secondOfDay < 86400
  {
    Padded(secondOfDay / 3600, 2)
    + (":" + (Padded(secondOfDay / 60 % 60, 2) + (":" + Padded(secondOfDay % 60, 2))))
  }

  /** What is printed after the seconds: the fraction, and the `Z`. */
  function TailText(frac: nat, digits: nat, utc: bool): string {
    (if digits > 0 then "." + Padded(frac, digits) else "") + (if utc then "Z" else "")
  }

  function IsoText(d: Date, secondOfDay: int, tail: string): string
    requires ValidDate(d) && 0 <= secondOfDay < 86400
  {
    DateString(d) + ("T" + (TimeText(secondOfDay) + tail))
  }

  lemma IsoLength(d: Date, secondOfDay: int, tail: string)
    requires ValidDate(d) && 0 <= secondOfDay < 86400
    ensures |IsoText(d, secondOfDay, tail)| == |YearText(d.year)| + 15 + |tail|
  {
  }

  /** The text of an instant given as a day, a second of it and a fraction. */
  function WriteInstant(day: int, secondOfDay: int, frac: nat, digits: nat, utc: bool): Result<string>
    requires 0 <= secondOfDay < 86400
  {
    var d := DateOf(day + UNIX_EPOCH_DAYS_FROM_CE);
    if YearHeld(d.year) then Ok(IsoText(d, secondOfDay, TailText(frac, digits, utc))) else Err
  }

  /** ISO 8601 for `value` in a unit since 1970-01-01 00:00:00 UTC, with a `Z` when `utc`. */
  function WriteTimestamp(value: int, digits: nat, utc: bool): Result<string>
    requires IsUnit(digits)
  {
    var secs, frac := value / PerSecond(digits), value % PerSecond(digits);
    WriteInstant(secs / 86400, secs % 86400, frac, digits, utc)
  }

  // ----- parsing -----

  /** `%Y-%m-%d` in its padded form. */
  function ParseCivilDate(s: string): Option<Date> {
    if |s| == 10 && s[4] == '-' && s[7] == '-' && AllDigits(s[..4]) && AllDigits(s[5..7]) && AllDigits(s[8..]) then
      DateIfValid(Date(NumberIn(s[..4]), NumberIn(s[5..7]), NumberIn(s[8..])))
    else None
  }

  function DateIfValid(d: Date): (r: Option<Date>)
    ensures r.Some? ==> ValidDate(r.value)
  {
    if ValidDate(d) then Some(d) else None
  }

  /** `%Y%m%d` of eight digits. */
  function ParsePackedDate(s: string): Option<Date>
    requires |s| == 8 && AllDigits(s)
  {
    DateIfValid(Date(NumberIn(s[..4]), NumberIn(s[4..6]), NumberIn(s[6..])))
  }

  /** What tells milliseconds since 1970 from seconds: thirteen digits after an optional minus. */
  predicate IsEpochMillis(s: string) {
    var digits := if s != "" && s[0] == '-' then s[1..] else s;
    |digits| == 13 && AllDigits(digits)
  }

  function DaysOf(d: Date): int
    requires ValidDate(d)
  {
    DayNumber(d) - DayNumber(Date(1970, 1, 1))
  }

  function ParseDaysUnchecked(s: string): Option<int> {
    match ParseCivilDate(s)
    case Some(d) => if ValidDate(d) then Some(DaysOf(d)) else None
    case None =>
      var packed := if (|s| == 8 || |s| == 14) && AllDigits(s) then ParsePackedDate(s[..8]) else None;
      if packed.Some? && ValidDate(packed.value) then Some(DaysOf(packed.value))
      else
        match ParseI64(s)
        case None => None
        case Some(n) => Some(if IsEpochMillis(s) then n / 86400000 else n / 86400)
  }

  function ParseDateDays(s: string): Option<int> {
    match ParseDaysUnchecked(s)
    case None => None
    case Some(days) => if I32_MIN <= days <= I32_MAX && DaysInRange(days) then Some(days) else None
  }

  /** `HH:MM:SS`, without a leap second. */
  function ParseTime(s: string): Option<int> {
    if |s| == 8 && s[2] == ':' && s[5] == ':' && AllDigits(s[..2]) && AllDigits(s[3..5]) && AllDigits(s[6..]) then
      var h, m, sec := NumberIn(s[..2]), NumberIn(s[3..5]), NumberIn(s[6..]);
      if h < 24 && m < 60 && sec < 60 then Some(h * 3600 + m * 60 + sec) else None
    else None
  }

  /** Where the digits at the front of `s` end. */
  function DigitsEnd(s: string): (i: nat)
    ensures i <= |s| && AllDigits(s[..i]) && (i < |s| ==> !IsDigit(s[i]))
  {
    if s == "" || !IsDigit(s[0]) then 0
    else
      var i := 1 + DigitsEnd(s[1..]);
      assert s[..i] == [s[0]] + s[1..][..i - 1];
      i
  }

  /** The first `width` digits of a fraction, zero-filled on the right. */
  function FractionTo(s: string, width: nat): nat
    requires AllDigits(s)
  {
    if |s| >= width then NumberIn(s[..width]) else Shift(NumberIn(s), width - |s|)
  }

  /** `Z` or a numeric offset, as seconds east of UTC. */
  function ParseOffset(s: string): Option<int> {
    if s == "Z" || s == "z" then Some(0)
    else if |s| == 6 && (s[0] == '+' || s[0] == '-') && s[3] == ':' && AllDigits(s[1..3]) && AllDigits(s[4..]) then
      var h, m := NumberIn(s[1..3]), NumberIn(s[4..]);
      if h < 24 && m < 60 then Some((if s[0] == '-' then -1 else 1) * (h * 3600 + m * 60)) else None
    else None
  }

  function Micros(d: Date, secondOfDay: int, nanos: nat): int
    requires ValidDate(d)
  {
    (DaysOf(d) * 86400 + secondOfDay) * 1000000 + nanos / 1000
  }

  /** An optional `.digits` as nanoseconds, and what follows it. */
  function ParseFraction(s: string): Option<(nat, string)> {
    if s == "" || s[0] != '.' then Some((0, s))
    else
      var tail := s[1..];
      var end := DigitsEnd(tail);
      if end == 0 then None else Some((FractionTo(tail[..end], 9), tail[end..]))
  }

  /** RFC 3339, section 5.6, as epoch microseconds. */
  function ParseRfc3339(s: string): Option<int> {
    if |s| < 20 || (s[10] != 'T' && s[10] != 't' && s[10] != ' ') then None
    else
      match (ParseCivilDate(s[..10]), ParseTime(s[11..19]), ParseFraction(s[19..]))
      case (Some(d), Some(t), Some((nanos, zone))) =>
        if ParseOffset(zone).Some? && ValidDate(d) then Some(Micros(d, t - ParseOffset(zone).value, nanos)) else None
      case _ => None
  }

  /** `%Y-%m-%d %H:%M:%S`, read as UTC. */
  function ParseCivil(s: string): Option<int> {
    if |s| != 19 || s[10] != ' ' then None
    else
      match (ParseCivilDate(s[..10]), ParseTime(s[11..]))
      case (Some(d), Some(t)) => if ValidDate(d) then Some(Micros(d, t, 0)) else None
      case _ => None
  }

  /** `%Y%m%d%H%M%S`, read as UTC. */
  function ParsePacked(s: string): Option<int> {
    if |s| != 14 || !AllDigits(s) then None
    else
      var h, m, sec := NumberIn(s[8..10]), NumberIn(s[10..12]), NumberIn(s[12..]);
      match ParsePackedDate(s[..8])
      case Some(d) =>
        if ValidDate(d) && h < 24 && m < 60 && sec < 60 then Some(Micros(d, h * 3600 + m * 60 + sec, 0)) else None
      case None => None
  }

  function CheckedI64(n: int): Option<int> {
    if I64_MIN <= n <= I64_MAX then Some(n) else None
  }

  function ParseMicrosUnchecked(s: string): Option<int> {
    if ParseRfc3339(s).Some? then ParseRfc3339(s)
    else if ParseCivil(s).Some? then ParseCivil(s)
    else if ParsePacked(s).Some? then ParsePacked(s)
    else
      match ParseI64(s)
      case None => None
      case Some(n) => CheckedI64(n * (if IsEpochMillis(s) then 1000 else 1000000))
  }

  function ParseTsMicros(s: string): Option<int> {
    match ParseMicrosUnchecked(s)
    case None => None
    case Some(micros) => if MicrosInRange(micros) then Some(micros) else None
  }

  // ----- round trips -----

  lemma {:induction false} PaddedNumber(n: nat, width: nat)
    requires n < Pow10(width)
    ensures NumberIn(Padded(n, width)) == n
  {
    if width > 0 {
      PaddedNumber(n / 10, width - 1);
      var ds := DigitsOf(Padded(n, width));
      assert ds[..width - 1] == DigitsOf(Padded(n / 10, width - 1));
    }
  }

  lemma TwoDigits(n: nat)
    requires n < 100
    ensures NumberIn(Padded(n, 2)) == n
  {
    assert Pow10(2) == 100;
    PaddedNumber(n, 2);
  }

  lemma FourDigitYear(n: nat)
    requires n < 10000
    ensures NumberIn(Padded(n, 4)) == n
  {
    assert Pow10(4) == 10000;
    PaddedNumber(n, 4);
  }

  lemma CivilParses(y: string, m: string, d: string)
    requires |y| == 4 && |m| == |d| == 2 && AllDigits(y) && AllDigits(m) && AllDigits(d)
    ensures var s := y + ("-" + (m + ("-" + d)));
            |s| == 10 && ParseCivilDate(s) == DateIfValid(Date(NumberIn(y), NumberIn(m), NumberIn(d)))
  {
    var s := y + ("-" + (m + ("-" + d)));
    assert s[..4] == y && s[4] == '-' && s[5..7] == m && s[7] == '-' && s[8..] == d;
  }

  /** Every date of a four-digit year is parsed back. */
  lemma CivilDateRoundTrip(d: Date)
    requires ValidDate(d) && 0 <= d.year <= 9999
    ensures |DateString(d)| == 10
    ensures ParseCivilDate(DateString(d)) == Some(d)
  {
    FourDigitYear(d.year);
    TwoDigits(d.month);
    TwoDigits(d.day);
    CivilParses(Padded(d.year, 4), Padded(d.month, 2), Padded(d.day, 2));
  }

  /** Every day of 1900 to 2299 is printed, and parsed back to itself. */
  lemma {:induction false} DateRoundTrip(days: int)
    requires DaysInRange(days)
    ensures WriteDate(days).Ok? && ParseDateDays(WriteDate(days).value) == Some(days)
  {
    var d := DateOf(days + UNIX_EPOCH_DAYS_FROM_CE);
    DateIsWritten(days);
    CivilDateRoundTrip(d);
    CivilDays(DateString(d), d, days);
  }

  lemma DateIsWritten(days: int)
    requires DaysInRange(days)
    ensures WriteDate(days) == Ok(DateString(DateOf(days + UNIX_EPOCH_DAYS_FROM_CE)))
    ensures 0 <= DateOf(days + UNIX_EPOCH_DAYS_FROM_CE).year <= 9999
  {
    WindowYears(days);
  }

  lemma CivilDays(s: string, d: Date, days: int)
    requires ValidDate(d) && ParseCivilDate(s) == Some(d) && DayNumber(d) == days + UNIX_EPOCH_DAYS_FROM_CE
    requires DaysInRange(days)
    ensures ParseDateDays(s) == Some(days)
  {
    EpochDay();
  }

  /** The day window is exactly the years 1900 to 2299. */
  lemma {:induction false} WindowYears(days: int)
    ensures DaysInRange(days) <==> 1900 <= DateOf(days + UNIX_EPOCH_DAYS_FROM_CE).year <= 2299
  {
    WindowStarts();
    YearsOfWindow(DateOf(days + UNIX_EPOCH_DAYS_FROM_CE));
  }

  lemma WindowStarts()
    ensures YearStart(1900) + 1 == MIN_DAYS + UNIX_EPOCH_DAYS_FROM_CE
    ensures YearStart(2300) == MAX_DAYS + UNIX_EPOCH_DAYS_FROM_CE
  {
    YearStartClosed(1900);
    YearStartClosed(2300);
  }

  lemma YearsOfWindow(d: Date)
    requires ValidDate(d)
    ensures YearStart(1900) < DayNumber(d) <= YearStart(2300) <==> 1900 <= d.year <= 2299
  {
    if YearStart(1900) < DayNumber(d) <= YearStart(2300) {
      YearOfDay(d, 1900, 2299);
    }
    WithinYear(d);
    if 1900 <= d.year <= 2299 {
      YearsOrdered(1900, d.year);
      YearsOrdered(d.year + 1, 2300);
    }
  }

  lemma TimeSplits(t: int)
    requires 0 <= t < 86400
    ensures t == t / 3600 * 3600 + t / 60 % 60 * 60 + t % 60
    ensures 0 <= t / 3600 < 24
  {
    var minutes := t / 60;
    assert minutes / 60 == t / 3600;
  }

  lemma TimeRoundTrip(t: int)
    requires 0 <= t < 86400
    ensures |TimeText(t)| == 8 && ParseTime(TimeText(t)) == Some(t)
  {
    TimeSplits(t);
    ClockRoundTrip(t / 3600, t / 60 % 60, t % 60);
  }

  lemma ClockRoundTrip(h: nat, m: nat, sec: nat)
    requires h < 24 && m < 60 && sec < 60
    ensures var s := Padded(h, 2) + (":" + (Padded(m, 2) + (":" + Padded(sec, 2))));
            |s| == 8 && ParseTime(s) == Some(h * 3600 + m * 60 + sec)
  {
    TwoDigits(h);
    TwoDigits(m);
    TwoDigits(sec);
    ClockParses(Padded(h, 2), Padded(m, 2), Padded(sec, 2), h, m, sec);
  }

  lemma ClockParses(a: string, b: string, c: string, h: nat, m: nat, sec: nat)
    requires |a| == |b| == |c| == 2 && AllDigits(a) && AllDigits(b) && AllDigits(c)
    requires NumberIn(a) == h < 24 && NumberIn(b) == m < 60 && NumberIn(c) == sec < 60
    ensures var s := a + (":" + (b + (":" + c)));
            |s| == 8 && ParseTime(s) == Some(h * 3600 + m * 60 + sec)
  {
    ClockParts(a, b, c);
  }

  lemma ClockParts(a: string, b: string, c: string)
    requires |a| == |b| == |c| == 2
    ensures var s := a + (":" + (b + (":" + c)));
            |s| == 8 && s[..2] == a && s[2] == ':' && s[3..5] == b && s[5] == ':' && s[6..] == c
  {
  }

  lemma {:induction false} DigitsEndAll(s: string, tail: string)
    requires AllDigits(s) && (tail == "" || !IsDigit(tail[0]))
    ensures DigitsEnd(s + tail) == |s|
  {
    if s == "" {
      assert s + tail == tail;
    } else {
      assert (s + tail)[1..] == s[1..] + tail;
      DigitsEndAll(s[1..], tail);
    }
  }

  /** A printed fraction of up to nine digits, read back as nanoseconds. */
  lemma FractionRoundTrip(frac: nat, digits: nat)
    requires 0 < digits && IsUnit(digits) && frac < PerSecond(digits)
    ensures FractionTo(Padded(frac, digits), 9) == frac * NanosPer(digits)
  {
    assert Pow10(3) == 1000;
    Pow10Add(3, 3);
    Pow10Add(6, 3);
    PaddedNumber(frac, digits);
    var s := Padded(frac, digits);
    assert s[..|s|] == s;
    ShiftIsTimes(frac, 9 - digits);
  }

  lemma TailRoundTrip(frac: nat, digits: nat)
    requires IsUnit(digits) && frac < PerSecond(digits)
    ensures ParseFraction(TailText(frac, digits, true)) == Some((frac * NanosPer(digits), "Z"))
  {
    if digits > 0 {
      var text, tail := Padded(frac, digits), TailText(frac, digits, true)[1..];
      assert tail == text + "Z";
      DigitsEndAll(text, "Z");
      assert tail[..digits] == text && tail[digits..] == "Z";
      FractionRoundTrip(frac, digits);
    } else {
      assert frac == 0;
      assert TailText(frac, digits, true) == "Z";
    }
  }

  lemma IsoParts(dateText: string, timeText: string, tail: string)
    requires |dateText| == 10 && |timeText| == 8
    ensures var text := dateText + ("T" + (timeText + tail));
            && |text| == 19 + |tail| && text[..10] == dateText && text[10] == 'T'
            && text[11..19] == timeText && text[19..] == tail
  {
  }

  /** A printed UTC text of a four-digit year parses to its instant. */
  lemma IsoRoundTrip(d: Date, secondOfDay: int, frac: nat, digits: nat, nanos: nat)
    requires ValidDate(d) && 0 <= d.year <= 9999 && 0 <= secondOfDay < 86400
    requires IsUnit(digits) && frac < PerSecond(digits) && nanos == frac * NanosPer(digits)
    ensures ParseRfc3339(IsoText(d, secondOfDay, TailText(frac, digits, true))) == Some(Micros(d, secondOfDay, nanos))
  {
    CivilDateRoundTrip(d);
    TimeRoundTrip(secondOfDay);
    TailRoundTrip(frac, digits);
    ZonedParses(DateString(d), TimeText(secondOfDay), TailText(frac, digits, true), d, secondOfDay, nanos, "Z",
                secondOfDay);
  }

  /** A text whose parts are a date, a time and a fraction with an offset is the instant `at` seconds into
      the date. */
  lemma ZonedParses(date: string, time: string, tail: string, d: Date, secondOfDay: int, nanos: nat, zone: string,
                    at: int)
    requires |date| == 10 && |time| == 8 && tail != "" && ValidDate(d)
    requires ParseCivilDate(date) == Some(d) && ParseTime(time) == Some(secondOfDay)
    requires ParseFraction(tail) == Some((nanos, zone)) && ParseOffset(zone) == Some(secondOfDay - at)
    ensures ParseRfc3339(date + ("T" + (time + tail))) == Some(Micros(d, at, nanos))
  {
    IsoParts(date, time, tail);
  }

  // ----- every other spelling -----

  /** The number `0.s`. */
  ghost function FractionOf(s: string): Exact
    requires AllDigits(s)
  {
    NumberOf(DigitsOf(s), 0)
  }

  /** What follows the seconds: a fraction of any length, and the offset. */
  function FractionZone(s: string, zone: string): string {
    if s == "" then zone else "." + (s + zone)
  }

  /** A numeric offset. */
  function OffsetText(west: bool, h: nat, m: nat): string {
    (if west then "-" else "+") + (Padded(h, 2) + (":" + Padded(m, 2)))
  }

  lemma {:induction false} OffsetParses(west: bool, h: nat, m: nat)
    requires h < 24 && m < 60
    ensures ParseOffset(OffsetText(west, h, m)) == Some((if west then -1 else 1) * (h * 3600 + m * 60))
  {
    TwoDigits(h);
    TwoDigits(m);
    OffsetParts(if west then "-" else "+", Padded(h, 2), Padded(m, 2));
  }

  lemma OffsetParts(sign: string, a: string, b: string)
    requires |sign| == 1 && |a| == |b| == 2
    ensures var s := sign + (a + (":" + b));
            |s| == 6 && s[0] == sign[0] && s[1..3] == a && s[3] == ':' && s[4..] == b
  {
  }

  /** A fraction is read as its nanoseconds, rounded down, however many digits it has. */
  lemma {:induction false} FractionIsFloored(s: string)
    requires AllDigits(s)
    ensures FractionTo(s, 9) == FloorAt(FractionOf(s), 9) < 1000000000
  {
    NineDigits();
    if |s| >= 9 {
      FloorOfPrefix(DigitsOf(s), 0, 9);
      assert DigitsOf(s[..9]) == DigitsOf(s)[..9];
      BelowItsPower(DigitsOf(s[..9]));
    } else {
      ShiftIsTimes(NumberIn(s), 9 - |s|);
      BelowItsPower(DigitsOf(s));
      BelowPower(NumberIn(s), |s|, 9 - |s|);
    }
  }

  lemma NineDigits()
    ensures Pow10(9) == 1000000000
  {
    assert Pow10(3) == 1000;
    Pow10Add(3, 3);
    Pow10Add(6, 3);
  }

  lemma BelowItsPower(ds: seq<Digit>)
    ensures Val(ds) < Pow10(|ds|)
  {
    ValConcat([], ds);
  }

  lemma BelowPower(n: nat, a: nat, b: nat)
    requires n < Pow10(a)
    ensures Times(n, Pow10(b)) < Pow10(a + b)
  {
    Pow10Add(a, b);
    MulMonotone(n + 1, Pow10(a), Pow10(b));
    assert (n + 1) * Pow10(b) == n * Pow10(b) + Pow10(b);
  }

  lemma FractionZoneParses(s: string, zone: string)
    requires AllDigits(s) && ParseOffset(zone).Some?
    ensures FractionZone(s, zone) != "" && ParseFraction(FractionZone(s, zone)) == Some((FractionTo(s, 9), zone))
  {
    if s == "" {
      assert FractionTo(s, 9) == Shift(0, 9);
      ShiftIsTimes(0, 9);
    } else {
      var tail := FractionZone(s, zone)[1..];
      assert tail == s + zone;
      DigitsEndAll(s, zone);
      assert tail[..|s|] == s && tail[|s|..] == zone;
    }
  }

  /** The microseconds of a fraction are its nanoseconds' thousandth. */
  lemma MicrosOfFraction(x: Exact)
    ensures FloorAt(x, 9) / 1000 == FloorAt(x, 6)
  {
    FloorStep(x, 8);
    FloorStep(x, 7);
    FloorStep(x, 6);
  }

  /** Seconds since 1970 of a wall-clock reading. */
  function SecondsOf(d: Date, secondOfDay: int): int
    requires ValidDate(d)
  {
    (DayNumber(d) - UNIX_EPOCH_DAYS_FROM_CE) * 86400 + secondOfDay
  }

  /** The years 1900 to 2299 only. */
  function InWindow(micros: int): Option<int> {
    if MicrosInRange(micros) then Some(micros) else None
  }

  /** The microseconds since 1970 of a wall-clock reading `offset` seconds east of UTC, rounded down. */
  ghost function InstantOf(d: Date, secondOfDay: int, offset: int, fraction: string): int
    requires ValidDate(d) && AllDigits(fraction)
  {
    (SecondsOf(d, secondOfDay) - offset) * 1000000 + FloorAt(FractionOf(fraction), 6)
  }

  /** Every RFC 3339 instant is read to the microsecond, rounded down, whatever the number of its fractional
      digits and whatever its offset, which is taken off; outside the window it is refused. */
  lemma {:induction false} InstantParses(d: Date, secondOfDay: int, fraction: string, zone: string, offset: int)
    requires ValidDate(d) && 0 <= d.year <= 9999 && 0 <= secondOfDay < 86400
    requires AllDigits(fraction) && ParseOffset(zone) == Some(offset)
    ensures ParseTsMicros(IsoText(d, secondOfDay, FractionZone(fraction, zone)))
         == InWindow(InstantOf(d, secondOfDay, offset, fraction))
  {
    var at := secondOfDay - offset;
    InstantIs(d, secondOfDay, offset, at, fraction);
    TextParses(d, secondOfDay, fraction, zone, at);
    ReadByRfc3339(IsoText(d, secondOfDay, FractionZone(fraction, zone)), InstantOf(d, secondOfDay, offset, fraction));
  }

  lemma InstantIs(d: Date, secondOfDay: int, offset: int, at: int, fraction: string)
    requires ValidDate(d) && 0 <= secondOfDay < 86400 && AllDigits(fraction) && at == secondOfDay - offset
    ensures Micros(d, at, FractionTo(fraction, 9)) == InstantOf(d, secondOfDay, offset, fraction)
  {
    FractionIsFloored(fraction);
    MicrosOfFraction(FractionOf(fraction));
    EpochDay();
  }

  lemma ReadByRfc3339(s: string, micros: int)
    requires ParseRfc3339(s) == Some(micros)
    ensures ParseTsMicros(s) == InWindow(micros)
  {
  }

  lemma TextParses(d: Date, secondOfDay: int, fraction: string, zone: string, at: int)
    requires ValidDate(d) && 0 <= d.year <= 9999 && 0 <= secondOfDay < 86400
    requires AllDigits(fraction) && ParseOffset(zone) == Some(secondOfDay - at)
    ensures ParseRfc3339(IsoText(d, secondOfDay, FractionZone(fraction, zone)))
         == Some(Micros(d, at, FractionTo(fraction, 9)))
  {
    CivilDateRoundTrip(d);
    TimeRoundTrip(secondOfDay);
    FractionZoneParses(fraction, zone);
    ZonedParses(DateString(d), TimeText(secondOfDay), FractionZone(fraction, zone), d, secondOfDay,
                FractionTo(fraction, 9), zone, at);
  }

  /** `YYYY-MM-DD HH:MM:SS`. */
  function CivilText(d: Date, secondOfDay: int): string
    requires ValidDate(d) && 0 <= secondOfDay < 86400
  {
    DateString(d) + (" " + TimeText(secondOfDay))
  }

  /** A civil reading is read as UTC. */
  lemma {:induction false} CivilInstantParses(d: Date, secondOfDay: int)
    requires ValidDate(d) && 0 <= d.year <= 9999 && 0 <= secondOfDay < 86400
    ensures ParseTsMicros(CivilText(d, secondOfDay)) == InWindow(SecondsOf(d, secondOfDay) * 1000000)
  {
    CivilTextParses(d, secondOfDay);
    ReadingIs(d, secondOfDay);
    ReadAsCivil(CivilText(d, secondOfDay), Micros(d, secondOfDay, 0));
  }

  lemma ReadingIs(d: Date, secondOfDay: int)
    requires ValidDate(d)
    ensures Micros(d, secondOfDay, 0) == SecondsOf(d, secondOfDay) * 1000000
  {
    EpochDay();
  }

  lemma CivilTextParses(d: Date, secondOfDay: int)
    requires ValidDate(d) && 0 <= d.year <= 9999 && 0 <= secondOfDay < 86400
    ensures ParseCivil(CivilText(d, secondOfDay)) == Some(Micros(d, secondOfDay, 0))
  {
    CivilDateRoundTrip(d);
    TimeRoundTrip(secondOfDay);
    CivilSplits(DateString(d), TimeText(secondOfDay));
  }

  lemma ReadAsCivil(s: string, micros: int)
    requires ParseCivil(s) == Some(micros)
    ensures ParseTsMicros(s) == InWindow(micros)
  {
  }

  lemma CivilSplits(date: string, time: string)
    requires |date| == 10 && |time| == 8
    ensures var s := date + (" " + time);
            |s| == 19 && s[..10] == date && s[10] == ' ' && s[11..] == time
  {
  }

  /** `yyyyMMdd`. */
  function PackedDate(d: Date): string
    requires ValidDate(d) && 0 <= d.year
  {
    Padded(d.year, 4) + (Padded(d.month, 2) + Padded(d.day, 2))
  }

  /** `yyyyMMddHHmmSS`. */
  function PackedText(d: Date, secondOfDay: int): string
    requires ValidDate(d) && 0 <= d.year && 0 <= secondOfDay < 86400
  {
    PackedDate(d)
    + (Padded(secondOfDay / 3600, 2) + (Padded(secondOfDay / 60 % 60, 2) + Padded(secondOfDay % 60, 2)))
  }

  lemma PackedDateParses(d: Date)
    requires ValidDate(d) && 0 <= d.year <= 9999
    ensures |PackedDate(d)| == 8 && AllDigits(PackedDate(d)) && ParsePackedDate(PackedDate(d)) == Some(d)
  {
    FourDigitYear(d.year);
    TwoDigits(d.month);
    TwoDigits(d.day);
    ThreeParts(Padded(d.year, 4), Padded(d.month, 2), Padded(d.day, 2));
  }

  lemma ThreeParts(a: string, b: string, c: string)
    requires AllDigits(a) && AllDigits(b) && AllDigits(c) && |b| == |c| == 2
    ensures var s := a + (b + c);
            && |s| == |a| + 4 && AllDigits(s)
            && s[..|a|] == a && s[|a|..|a| + 2] == b && s[|a| + 2..] == c
  {
  }

  lemma TwoParts(date: string, clock: string)
    requires |date| == 8 && |clock| == 6 && AllDigits(date) && AllDigits(clock)
    ensures var s := date + clock;
            && |s| == 14 && AllDigits(s) && s[..8] == date
            && s[8..10] == clock[..2] && s[10..12] == clock[2..4] && s[12..] == clock[4..]
  {
  }

  /** So is a packed one. */
  lemma {:induction false} PackedInstantParses(d: Date, secondOfDay: int)
    requires ValidDate(d) && 0 <= d.year <= 9999 && 0 <= secondOfDay < 86400
    ensures ParseTsMicros(PackedText(d, secondOfDay)) == InWindow(SecondsOf(d, secondOfDay) * 1000000)
  {
    PackedTextParses(d, secondOfDay);
    ReadingIs(d, secondOfDay);
    ReadAsPacked(PackedText(d, secondOfDay), Micros(d, secondOfDay, 0));
  }

  lemma PackedTextParses(d: Date, secondOfDay: int)
    requires ValidDate(d) && 0 <= d.year <= 9999 && 0 <= secondOfDay < 86400
    ensures ParsePacked(PackedText(d, secondOfDay)) == Some(Micros(d, secondOfDay, 0))
  {
    var h, m, sec := secondOfDay / 3600, secondOfDay / 60 % 60, secondOfDay % 60;
    TimeSplits(secondOfDay);
    TwoDigits(h);
    TwoDigits(m);
    TwoDigits(sec);
    PackedDateParses(d);
    PackedPartsParse(PackedDate(d), Padded(h, 2), Padded(m, 2), Padded(sec, 2), d);
  }

  lemma PackedPartsParse(date: string, h: string, m: string, sec: string, d: Date)
    requires |date| == 8 && AllDigits(date) && ValidDate(d) && ParsePackedDate(date) == Some(d)
    requires |h| == |m| == |sec| == 2 && AllDigits(h) && AllDigits(m) && AllDigits(sec)
    requires NumberIn(h) < 24 && NumberIn(m) < 60 && NumberIn(sec) < 60
    ensures ParsePacked(date + (h + (m + sec)))
         == Some(Micros(d, NumberIn(h) * 3600 + NumberIn(m) * 60 + NumberIn(sec), 0))
  {
    ThreeParts(h, m, sec);
    TwoParts(date, h + (m + sec));
  }

  lemma ReadAsPacked(s: string, micros: int)
    requires ParsePacked(s) == Some(micros)
    ensures ParseTsMicros(s) == InWindow(micros)
  {
  }

  /** Any other integer counts seconds since 1970, or milliseconds when it has thirteen digits. */
  lemma {:induction false} EpochParses(s: string)
    requires ParseI64(s).Some? && ParsePacked(s) == None
    ensures ParseTsMicros(s) == InWindow(ParseI64(s).value * (if IsEpochMillis(s) then 1000 else 1000000))
  {
    if |s| > 10 {
      assert IsDigit(if s[0] == '-' || s[0] == '+' then s[1..][9] else s[10]);
    }
  }

  predicate StartsPacked(s: string) {
    (|s| == 8 || |s| == 14) && AllDigits(s) && ParsePackedDate(s[..8]).Some?
  }

  /** And such an integer, read as a date, is the day its instant is in. */
  lemma {:induction false} EpochDayParses(s: string)
    requires ParseI64(s).Some? && !StartsPacked(s)
    ensures var days := ParseI64(s).value * (if IsEpochMillis(s) then 1000 else 1000000) / 86400000000;
            ParseDateDays(s) == if DaysInRange(days) then Some(days) else None
  {
    var n, millis := ParseI64(s).value, IsEpochMillis(s);
    assert ParseCivilDate(s) == None by {
      if |s| > 4 {
        assert IsDigit(if s[0] == '-' || s[0] == '+' then s[1..][3] else s[4]);
      }
    }
    DayOfMicros(n);
  }

  lemma DayOfMicros(n: int)
    ensures n * 1000 / 86400000000 == n / 86400000 && n * 1000000 / 86400000000 == n / 86400
  {
  }

  /** A date is read from its packed form too, with or without a time of day after it. */
  lemma {:induction false} PackedDayParses(d: Date, clock: string)
    requires ValidDate(d) && 0 <= d.year <= 9999 && AllDigits(clock) && (|clock| == 0 || |clock| == 6)
    ensures var days := DayNumber(d) - UNIX_EPOCH_DAYS_FROM_CE;
            ParseDateDays(PackedDate(d) + clock) == if DaysInRange(days) then Some(days) else None
  {
    PackedDateParses(d);
    DateFirst(PackedDate(d), clock);
    DayReads(PackedDate(d) + clock, d);
  }

  lemma DateFirst(date: string, clock: string)
    requires AllDigits(date) && AllDigits(clock)
    ensures (date + clock)[..|date|] == date && AllDigits(date + clock)
  {
  }

  lemma DayReads(s: string, d: Date)
    requires (|s| == 8 || |s| == 14) && AllDigits(s) && ValidDate(d) && ParsePackedDate(s[..8]) == Some(d)
    ensures var days := DayNumber(d) - UNIX_EPOCH_DAYS_FROM_CE;
            ParseDateDays(s) == if DaysInRange(days) then Some(days) else None
  {
    EpochDay();
  }

  // ----- timestamps -----

  /** `value` in its unit, as microseconds, rounded down. */
  function FloorMicros(value: int, digits: nat): int
    requires IsUnit(digits)
  {
    if digits == 0 then value * 1000000
    else if digits == 3 then value * 1000
    else if digits == 6 then value
    else value / 1000
  }

  /** Splitting into days, seconds and a fraction loses nothing above the microsecond. */
  lemma MicrosSplit(value: int, digits: nat)
    requires IsUnit(digits)
    ensures var secs, frac := value / PerSecond(digits), value % PerSecond(digits);
            && FloorMicros(value, digits)
               == (secs / 86400 * 86400 + secs % 86400) * 1000000 + frac * NanosPer(digits) / 1000
            && 0 <= frac < PerSecond(digits) && 0 <= frac * NanosPer(digits) < 1000000000
  {
    if digits == 9 {
      var secs, frac := value / 1000000000, value % 1000000000;
      assert value == secs * 1000000000 + frac;
    }
  }

  /** Every instant of 1900 to 2299 is printed with a `Z`, and parsed back to the microsecond. */
  lemma InstantRoundTrip(day: int, secondOfDay: int, frac: nat, digits: nat, nanos: nat, micros: int)
    requires 0 <= secondOfDay < 86400
    requires IsUnit(digits) && frac < PerSecond(digits) && nanos == frac * NanosPer(digits) < 1000000000
    requires micros == (day * 86400 + secondOfDay) * 1000000 + nanos / 1000 && MicrosInRange(micros)
    ensures var text := WriteInstant(day, secondOfDay, frac, digits, true);
            text.Ok? && ParseTsMicros(text.value) == Some(micros)
  {
    WindowYears(day);
    var d := DateOf(day + UNIX_EPOCH_DAYS_FROM_CE);
    IsoRoundTrip(d, secondOfDay, frac, digits, nanos);
    EpochDay();
    assert Micros(d, secondOfDay, nanos) == micros;
    ReadByRfc3339(IsoText(d, secondOfDay, TailText(frac, digits, true)), micros);
  }

  /** Every timestamp of any unit in 1900 to 2299 is printed with a `Z` and parsed back, floored to the
      microsecond: a microsecond or coarser value comes back exactly. */
  lemma {:induction false} TimestampRoundTrip(value: int, digits: nat)
    requires IsUnit(digits)
    requires MicrosInRange(FloorMicros(value, digits))
    ensures WriteTimestamp(value, digits, true).Ok?
    ensures ParseTsMicros(WriteTimestamp(value, digits, true).value) == Some(FloorMicros(value, digits))
  {
    MicrosSplit(value, digits);
    var secs, frac := value / PerSecond(digits), value % PerSecond(digits);
    InstantRoundTrip(secs / 86400, secs % 86400, frac, digits, frac * NanosPer(digits), FloorMicros(value, digits));
  }
}
