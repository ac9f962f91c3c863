/** The slice of the `chrono` crate the pipeline depends on, written out:
    the proleptic Gregorian calendar, `NaiveDateTime::parse_from_str` for the
    two formats in use ("%Y-%m-%d %H:%M:%S" and "%Y-%m-%d %H:%M"),
    `timestamp_millis` and `DateTime::from_timestamp`.

    A `NaiveDateTime` is kept as chrono keeps its time part: whole days since
    1970-01-01, seconds since midnight, and a nanosecond fraction that reaches
    past one second only during a leap second. */
module Chrono {
  import opened Prelude
  import opened Text

  /** The years chrono's `NaiveDate` can represent. */
  const MinYear: int := -262143
  const MaxYear: int := 262142

  predicate IsLeapYear(y: int) {
    y % 4 == 0 && (y % 100 != 0 || y % 400 == 0)
  }

  function DaysInMonth(y: int, m: int): int
    requires 1 <= m <= 12
  {
    if m == 2 then (if IsLeapYear(y) then 29 else 28)
    else if m == 4 || m == 6 || m == 9 || m == 11 then 30
    else 31
  }

  predicate ValidDate(y: int, m: int, d: int) {
    MinYear <= y <= MaxYear && 1 <= m <= 12 && 1 <= d <= DaysInMonth(y, m)
  }

  /** Days from 1970-01-01 to March 1st of year `y` shifted by one year, the
      anchor of the civil-to-days computation (years run March to February,
      so that the leap day is last). */
  function MarchDays(y: int): int {
    var era, yoe := y / 400, y % 400;
    era * 146097 + yoe * 365 + yoe / 4 - yoe / 100 - 719468
  }

  /** Days since 1970-01-01 of a proleptic Gregorian date. Dafny's division
      rounds toward negative infinity for a positive divisor, which is the
      floor this computation needs for years before 0. */
  function EpochDays(y: int, m: int, d: int): int
    requires 1 <= m <= 12
  {
    var shifted := if m <= 2 then y - 1 else y;
    MarchDays(shifted) + MonthOffset(m) + d - 1
  }

  /** Days from March 1st to the first of month `m` in a March-to-February
      year. */
  function MonthOffset(m: int): int
    requires 1 <= m <= 12
  {
    var mp := if m > 2 then m - 3 else m + 9;
    (153 * mp + 2) / 5
  }

  lemma MonthOffsets()
    ensures MonthOffset(3) == 0 && MonthOffset(4) == 31 && MonthOffset(5) == 61
    ensures MonthOffset(6) == 92 && MonthOffset(7) == 122 && MonthOffset(8) == 153
    ensures MonthOffset(9) == 184 && MonthOffset(10) == 214 && MonthOffset(11) == 245
    ensures MonthOffset(12) == 275 && MonthOffset(1) == 306 && MonthOffset(2) == 337
  {
  }

  /** The calendar day after a valid date. */
  function NextDay(y: int, m: int, d: int): (int, int, int)
    requires 1 <= m <= 12 && 1 <= d <= DaysInMonth(y, m)
  {
    if d < DaysInMonth(y, m) then (y, m, d + 1)
    else if m < 12 then (y, m + 1, 1)
    else (y + 1, 1, 1)
  }

  lemma EpochIsDayZero()
    ensures EpochDays(1970, 1, 1) == 0
  {
  }

  /** A March-to-February year lasts 366 days exactly when the February that
      ends it has a 29th. */
  lemma MarchYearLength(y: int)
    ensures MarchDays(y + 1) - MarchDays(y) == if IsLeapYear(y + 1) then 366 else 365
  {
    var q, r := y / 400, y % 400;
    assert y == 400 * q + r && 0 <= r < 400;
    MarchDaysOf(y, q, r);
    if r < 399 {
      MarchDaysOf(y + 1, q, r + 1);
      EraYearLength(r);
      LeapOf(y + 1, q, r + 1);
    } else {
      MarchDaysOf(y + 1, q + 1, 0);
      LeapOf(y + 1, q + 1, 0);
      assert MarchDays(y + 1) - MarchDays(y) == 146097 - 365 * 399 - 399 / 4 + 399 / 100;
    }
  }

  /** `MarchDays` in terms of the 400-year era and the year within it. */
  lemma MarchDaysOf(y: int, q: int, r: int)
    requires y == 400 * q + r && 0 <= r < 400
    ensures MarchDays(y) == 146097 * q + 365 * r + r / 4 - r / 100 - 719468
  {
    assert y / 400 == q && y % 400 == r;
  }

  /** Within an era, the count of days before March of the next year grows
      by 366 exactly when that year is a leap year. */
  lemma EraYearLength(r: int)
    requires 0 <= r < 399
    ensures (365 * (r + 1) + (r + 1) / 4 - (r + 1) / 100) - (365 * r + r / 4 - r / 100)
         == if (r + 1) % 4 == 0 && (r + 1) % 100 != 0 then 366 else 365
  {
    YearOfEraStep(r + 1);
  }

  /** One more year within an era adds a quarter-day count exactly at
      multiples of 4, and removes one at multiples of 100. */
  lemma YearOfEraStep(s: int)
    requires 1 <= s < 400
    ensures s / 4 - (s - 1) / 4 == if s % 4 == 0 then 1 else 0
    ensures s / 100 - (s - 1) / 100 == if s % 100 == 0 then 1 else 0
  {
  }

  /** Leap years depend only on the year within its era. */
  lemma LeapOf(y: int, q: int, s: int)
    requires y == 400 * q + s && 0 <= s < 400
    ensures IsLeapYear(y) <==> s % 4 == 0 && (s % 100 != 0 || s == 0)
  {
    assert y == 4 * (100 * q) + s;
    ModShift4(100 * q, s);
    assert y == 100 * (4 * q) + s;
    ModShift100(4 * q, s);
    ModShift400(q, s);
  }

  lemma ModShift4(k: int, s: int)
    ensures (4 * k + s) % 4 == s % 4
  {
  }

  lemma ModShift100(k: int, s: int)
    ensures (100 * k + s) % 100 == s % 100
  {
  }

  lemma ModShift400(k: int, s: int)
    requires 0 <= s < 400
    ensures (400 * k + s) % 400 == s
  {
  }

  /** Counting days: the next calendar day is exactly one epoch day later.
      Together with EpochIsDayZero this pins EpochDays down on every date. */
  lemma NextDayIsOneDayLater(y: int, m: int, d: int)
    requires 1 <= m <= 12 && 1 <= d <= DaysInMonth(y, m)
    ensures var (y', m', d') := NextDay(y, m, d);
      1 <= m' <= 12 && 1 <= d' <= DaysInMonth(y', m') &&
      EpochDays(y', m', d') == EpochDays(y, m, d) + 1
  {
    MonthOffsets();
    if d == DaysInMonth(y, m) && m == 2 {
      MarchYearLength(y - 1);
    }
  }

  /** Epoch days of the first and the last representable date. */
  const MinDays: int := EpochDays(MinYear, 1, 1)
  const MaxDays: int := EpochDays(MaxYear, 12, 31)

  lemma {:induction false} MarchDaysMonotone(a: int, b: int)
    requires a <= b
    ensures MarchDays(a) <= MarchDays(b)
    decreases b - a
  {
    if a < b {
      MarchYearLength(a);
      MarchDaysMonotone(a + 1, b);
    }
  }

  /** Every valid date lies between the first and the last representable
      day, so the day counts of parsed dates are exactly the ones
      `from_timestamp` accepts back. */
  lemma ValidDateInRange(y: int, m: int, d: int)
    requires ValidDate(y, m, d)
    ensures MinDays <= EpochDays(y, m, d) <= MaxDays
  {
    MarchYearLength(y - 1);
    MarchDaysMonotone(MinYear - 1, y - 1);
    MarchDaysMonotone(y, MaxYear);
  }

  /** What `NaiveDateTime::and_utc().timestamp_millis()` returns. */
  datatype NaiveDateTime = NaiveDateTime(days: int, secs: int, frac: int)

  function TimestampMillis(dt: NaiveDateTime): int {
    (dt.days * 86400 + dt.secs) * 1000 + dt.frac / 1_000_000
  }

  /** `DateTime::<Utc>::from_timestamp(secs, nsecs)`: the day is the floor of
      `secs / 86400` and must be representable; `nsecs` must stay below two
      seconds, and only a 59th second of a minute may carry a second
      second (a leap second). */
  function FromTimestamp(secs: int, nsecs: nat): (r: Option<NaiveDateTime>)
    ensures r.Some? <==>
      MinDays <= secs / 86400 <= MaxDays
      && (nsecs < 1_000_000_000 || (nsecs < 2_000_000_000 && secs % 60 == 59))
    ensures r.Some? ==> 0 <= r.value.secs < 86400
  {
    var days, sod := secs / 86400, secs % 86400;
    SecondOfMinute(secs);
    if days < MinDays || days > MaxDays then None
    else if nsecs >= 2_000_000_000 || (nsecs >= 1_000_000_000 && sod % 60 != 59) then None
    else Some(NaiveDateTime(days, sod, nsecs))
  }

  /** The second within the minute is the same whether counted from the
      epoch or from midnight. */
  lemma SecondOfMinute(secs: int)
    ensures (secs % 86400) % 60 == secs % 60
  {
    var days, sod := secs / 86400, secs % 86400;
    assert secs == 60 * (1440 * days) + sod;
    ModShift60(1440 * days, sod);
  }

  lemma ModShift60(k: int, s: int)
    ensures (60 * k + s) % 60 == s % 60
  {
  }

  /** `from_timestamp` is the inverse of `timestamp_millis` on whole
      milliseconds: the date-time it builds counts back to the same
      instant. */
  lemma FromTimestampMillis(secs: int, nsecs: nat)
    requires FromTimestamp(secs, nsecs).Some?
    ensures TimestampMillis(FromTimestamp(secs, nsecs).value) == secs * 1000 + nsecs / 1_000_000
  {
  }

  /** And the other way: a date-time with a representable day, a second of
      the day and no fraction comes back unchanged from its own count of
      seconds. */
  lemma FromTimestampOfDateTime(dt: NaiveDateTime)
    requires MinDays <= dt.days <= MaxDays && 0 <= dt.secs < 86400 && dt.frac == 0
    ensures FromTimestamp(dt.days * 86400 + dt.secs, 0) == Some(dt)
  {
  }

  // ---- parse_from_str ----

  datatype Field = Year | Month | Day | Hour | Minute | Second

  /** A strftime item: a numeric field, a literal character, or a space
      (which matches any run of whitespace, including none). */
  datatype Item = Num(field: Field) | Lit(c: char) | Space

  /** "%Y-%m-%d %H:%M:%S", the report header's format. */
  const HeaderFormat: seq<Item> :=
    [Num(Year), Lit('-'), Num(Month), Lit('-'), Num(Day), Space,
     Num(Hour), Lit(':'), Num(Minute), Lit(':'), Num(Second)]

  /** "%Y-%m-%d %H:%M", the index document's `last_modified` format. */
  const IndexFormat: seq<Item> :=
    [Num(Year), Lit('-'), Num(Month), Lit('-'), Num(Day), Space,
     Num(Hour), Lit(':'), Num(Minute)]

  /** Most digits chrono reads for a field without an explicit sign. */
  function Width(f: Field): nat {
    if f == Year then 4 else 2
  }

  datatype Parsed = Parsed(
    year: Option<int>, month: Option<int>, day: Option<int>,
    hour: Option<int>, minute: Option<int>, second: Option<int>)

  const NothingParsed := Parsed(None, None, None, None, None, None)

  function Set(p: Parsed, f: Field, v: int): Parsed {
    match f
    case Year => p.(year := Some(v))
    case Month => p.(month := Some(v))
    case Day => p.(day := Some(v))
    case Hour => p.(hour := Some(v))
    case Minute => p.(minute := Some(v))
    case Second => p.(second := Some(v))
  }

  predicate IsDigit(c: char) {
    '0' <= c <= '9'
  }

  /** How many ASCII digits start `s`, reading at most `max`. */
  function DigitRun(s: string, max: nat): (n: nat)
    ensures n <= |s| && n <= max
    ensures forall i :: 0 <= i < n ==> IsDigit(s[i])
  {
    if s == [] || max == 0 || !IsDigit(s[0]) then 0 else 1 + DigitRun(s[1..], max - 1)
  }

  /** The decimal value of a string of digits. */
  function DigitsValue(s: string): nat
    requires forall i :: 0 <= i < |s| ==> IsDigit(s[i])
  {
    if s == [] then 0
    else
      assert IsDigit(s[|s| - 1]);
      DigitsValue(s[..|s| - 1]) * 10 + DigitValue(s[|s| - 1])
  }

  function DigitValue(c: char): nat
    requires IsDigit(c)
  {
    c as int - '0' as int
  }

  /** `str::trim_start`. */
  function TrimStart(s: string): (r: string)
    ensures |r| <= |s|
  {
    if s != [] && IsWhitespace(s[0]) then TrimStart(s[1..]) else s
  }

  /** One numeric field: leading whitespace skipped, then a year may carry a
      sign and as many digits as follow; otherwise between one and `Width`
      digits. Yields the value and the unread rest. */
  function ScanField(s: string, f: Field): Option<(int, string)> {
    var t := TrimStart(s);
    if f == Year && t != [] && (t[0] == '-' || t[0] == '+') then
      var n := DigitRun(t[1..], |t|);
      if n == 0 then None
      else
        var v: int := DigitsValue(t[1..][..n]);
        Some((if t[0] == '-' then -v else v, t[1..][n..]))
    else
      var n := DigitRun(t, Width(f));
      if n == 0 then None else Some((DigitsValue(t[..n]), t[n..]))
  }

  /** Walks the items over the input; anything left over is an error. */
  function ParseItems(s: string, items: seq<Item>, p: Parsed): Option<Parsed>
    decreases |items|
  {
    if items == [] then (if s == [] then Some(p) else None)
    else
      match items[0]
      case Lit(c) => if s != [] && s[0] == c then ParseItems(s[1..], items[1..], p) else None
      case Space => ParseItems(TrimStart(s), items[1..], p)
      case Num(f) =>
        match ScanField(s, f)
        case None => None
        case Some((v, rest)) => ParseItems(rest, items[1..], Set(p, f, v))
  }

  /** Turns the fields read into a date and time: the date must exist, the
      hour is below 24, the minute below 60, the second (0 when absent) at
      most 60, and a 60th second is kept as second 59 plus one whole second
      of fraction. */
  function ToNaiveDateTime(p: Parsed): (r: Option<NaiveDateTime>)
    ensures r.Some? ==> 0 <= r.value.secs < 86400 && r.value.frac % 1_000_000_000 == 0
    ensures r.Some? ==> MinDays <= r.value.days <= MaxDays
  {
    if p.year.None? || p.month.None? || p.day.None? || p.hour.None? || p.minute.None? then None
    else
      var y, m, d, h, mi := p.year.value, p.month.value, p.day.value, p.hour.value, p.minute.value;
      var s := if p.second.Some? then p.second.value else 0;
      if !ValidDate(y, m, d) || !(0 <= h < 24) || !(0 <= mi < 60) || !(0 <= s <= 60) then None
      else
        var sec := if s == 60 then 59 else s;
        var frac := if s == 60 then 1_000_000_000 else 0;
        ValidDateInRange(y, m, d);
        Some(NaiveDateTime(EpochDays(y, m, d), h * 3600 + mi * 60 + sec, frac))
  }

  /** `NaiveDateTime::parse_from_str(s, format)`. */
  function ParseFromStr(s: string, format: seq<Item>): Option<NaiveDateTime> {
    match ParseItems(s, format, NothingParsed)
    case None => None
    case Some(p) => ToNaiveDateTime(p)
  }

  /** Whole-second date-times have a whole number of seconds in milliseconds. */
  lemma ParsedMillisAreWholeSeconds(s: string, format: seq<Item>)
    requires ParseFromStr(s, format).Some?
    ensures TimestampMillis(ParseFromStr(s, format).value) % 1000 == 0
  {
    var dt := ParseFromStr(s, format).value;
    assert dt.frac / 1_000_000 == 0 || dt.frac / 1_000_000 == 1000;
  }

  // ---- printing, the inverse direction ----

  function Pow10(n: nat): nat {
    if n == 0 then 1 else 10 * Pow10(n - 1)
  }

  /** `v` written with exactly `w` digits, zero-padded. */
  function Digits(v: nat, w: nat): (s: string)
    ensures |s| == w
    ensures forall i :: 0 <= i < |s| ==> IsDigit(s[i])
  {
    if w == 0 then [] else Digits(v / 10, w - 1) + [('0' as int + v % 10) as char]
  }

  lemma {:induction false} DigitsValueOfDigits(v: nat, w: nat)
    requires v < Pow10(w)
    ensures DigitsValue(Digits(v, w)) == v
  {
    if w > 0 {
      var s := Digits(v, w);
      assert s[..|s| - 1] == Digits(v / 10, w - 1);
      DigitsValueOfDigits(v / 10, w - 1);
    }
  }

  /** Any run of digits followed by anything is read up to its own length when
      the limit is that length. */
  lemma {:induction false} DigitRunOfDigitString(ds: string, rest: string)
    requires forall i :: 0 <= i < |ds| ==> IsDigit(ds[i])
    ensures DigitRun(ds + rest, |ds|) == |ds|
  {
    if ds != [] {
      assert (ds + rest)[0] == ds[0];
      assert (ds + rest)[1..] == ds[1..] + rest;
      DigitRunOfDigitString(ds[1..], rest);
    }
  }

  /** Reading a zero-padded field of exactly its width gives its value back
      and leaves the rest untouched. */
  lemma ScanFieldDigits(f: Field, v: nat, rest: string)
    requires v < Pow10(Width(f))
    ensures ScanField(Digits(v, Width(f)) + rest, f) == Some((v, rest))
  {
    var w := Width(f);
    var t := Digits(v, w) + rest;
    assert IsDigit(t[0]);
    assert TrimStart(t) == t;
    DigitRunOfDigitString(Digits(v, w), rest);
    assert t[..w] == Digits(v, w);
    assert t[w..] == rest;
    DigitsValueOfDigits(v, w);
  }

  /** "YYYY-MM-DD" for a year with at most four digits. */
  function FormatDate(y: nat, m: nat, d: nat): string {
    Digits(y, 4) + "-" + Digits(m, 2) + "-" + Digits(d, 2)
  }

  /** "HH:MM". */
  function FormatMinutes(h: nat, mi: nat): string {
    Digits(h, 2) + ":" + Digits(mi, 2)
  }

  /** "HH:MM:SS". */
  function FormatSeconds(h: nat, mi: nat, s: nat): string {
    FormatMinutes(h, mi) + ":" + Digits(s, 2)
  }

  lemma StepNum(f: Field, v: nat, rest: string, items: seq<Item>, p: Parsed)
    requires v < Pow10(Width(f)) && items != [] && items[0] == Num(f)
    ensures ParseItems(Digits(v, Width(f)) + rest, items, p) == ParseItems(rest, items[1..], Set(p, f, v))
  {
    ScanFieldDigits(f, v, rest);
  }

  lemma StepLit(c: char, rest: string, items: seq<Item>, p: Parsed)
    requires items != [] && items[0] == Lit(c)
    ensures ParseItems([c] + rest, items, p) == ParseItems(rest, items[1..], p)
  {
    assert ([c] + rest)[1..] == rest;
  }

  lemma StepSpace(rest: string, items: seq<Item>, p: Parsed)
    requires items != [] && items[0] == Space
    requires rest != [] && IsDigit(rest[0])
    ensures ParseItems(" " + rest, items, p) == ParseItems(rest, items[1..], p)
  {
    assert (" " + rest)[1..] == rest;
    assert TrimStart(rest) == rest;
  }

  /** The date part of both formats reads back the year, month and day. */
  lemma ParseDatePart(y: nat, m: nat, d: nat, rest: string, items: seq<Item>)
    requires y < 10000 && m < 100 && d < 100
    requires |items| >= 6
    requires items[0] == Num(Year) && items[1] == Lit('-') && items[2] == Num(Month)
    requires items[3] == Lit('-') && items[4] == Num(Day) && items[5] == Space
    requires rest != [] && IsDigit(rest[0])
    ensures ParseItems(FormatDate(y, m, d) + " " + rest, items, NothingParsed)
         == ParseItems(rest, items[6..], Parsed(Some(y), Some(m), Some(d), None, None, None))
  {
    assert Pow10(2) == 100 && Pow10(4) == 10000;
    var r5 := " " + rest;
    var r4 := Digits(d, 2) + r5;
    var r3 := "-" + r4;
    var r2 := Digits(m, 2) + r3;
    var r1 := "-" + r2;
    assert FormatDate(y, m, d) + " " + rest == Digits(y, 4) + r1;
    var p1 := Set(NothingParsed, Year, y);
    var p2 := Set(p1, Month, m);
    var p3 := Set(p2, Day, d);
    StepNum(Year, y, r1, items, NothingParsed);
    StepLit('-', r2, items[1..], p1);
    assert items[1..][1..] == items[2..];
    StepNum(Month, m, r3, items[2..], p1);
    assert items[2..][1..] == items[3..];
    StepLit('-', r4, items[3..], p2);
    assert items[3..][1..] == items[4..];
    StepNum(Day, d, r5, items[4..], p2);
    assert items[4..][1..] == items[5..];
    StepSpace(rest, items[5..], p3);
    assert items[5..][1..] == items[6..];
  }

  /** "HH:MM" read against "%H:%M" (the end of IndexFormat). */
  lemma ParseMinutesPart(h: nat, mi: nat, rest: string, items: seq<Item>, p: Parsed)
    requires h < 100 && mi < 100
    requires |items| >= 3 && items[0] == Num(Hour) && items[1] == Lit(':') && items[2] == Num(Minute)
    ensures ParseItems(FormatMinutes(h, mi) + rest, items, p)
         == ParseItems(rest, items[3..], p.(hour := Some(h), minute := Some(mi)))
  {
    assert Pow10(2) == 100 && Width(Hour) == 2 && Width(Minute) == 2;
    var r2 := Digits(mi, 2) + rest;
    var r1 := ":" + r2;
    assert FormatMinutes(h, mi) + rest == Digits(h, 2) + r1;
    var p1 := Set(p, Hour, h);
    StepNum(Hour, h, r1, items, p);
    assert items[1..][0] == Lit(':') && items[1..][1..] == items[2..];
    StepLit(':', r2, items[1..], p1);
    assert items[2..][0] == Num(Minute);
    StepNum(Minute, mi, rest, items[2..], p1);
    assert items[2..][1..] == items[3..];
  }

  lemma HeaderItemsRead(y: nat, m: nat, d: nat, h: nat, mi: nat, s: nat)
    requires y < 10000 && m < 100 && d < 100 && h < 100 && mi < 100 && s < 100
    ensures ParseItems(FormatDate(y, m, d) + " " + FormatSeconds(h, mi, s), HeaderFormat, NothingParsed)
         == Some(Parsed(Some(y), Some(m), Some(d), Some(h), Some(mi), Some(s)))
  {
    var p3 := Parsed(Some(y), Some(m), Some(d), None, None, None);
    var p5 := p3.(hour := Some(h), minute := Some(mi));
    var tail := ":" + Digits(s, 2);
    var clock := FormatSeconds(h, mi, s);
    assert clock == FormatMinutes(h, mi) + tail;
    assert IsDigit(clock[0]);
    ParseDatePart(y, m, d, clock, HeaderFormat);
    ParseMinutesPart(h, mi, tail, HeaderFormat[6..], p3);
    assert HeaderFormat[6..][3..] == [Lit(':'), Num(Second)];
    ParseSecondsPart(s, HeaderFormat[6..][3..], p5);
  }

  /** ":SS" read against ":%S" (the end of HeaderFormat). */
  lemma ParseSecondsPart(s: nat, items: seq<Item>, p: Parsed)
    requires s < 100 && items == [Lit(':'), Num(Second)]
    ensures ParseItems(":" + Digits(s, 2), items, p) == Some(p.(second := Some(s)))
  {
    StepLit(':', Digits(s, 2), items, p);
    assert Pow10(2) == 100;
    StepNum(Second, s, [], items[1..], p);
    assert Digits(s, 2) + [] == Digits(s, 2);
    assert items[1..][1..] == [];
  }

  lemma IndexItemsRead(y: nat, m: nat, d: nat, h: nat, mi: nat)
    requires y < 10000 && m < 100 && d < 100 && h < 100 && mi < 100
    ensures ParseItems(FormatDate(y, m, d) + " " + FormatMinutes(h, mi), IndexFormat, NothingParsed)
         == Some(Parsed(Some(y), Some(m), Some(d), Some(h), Some(mi), None))
  {
    var p3 := Parsed(Some(y), Some(m), Some(d), None, None, None);
    assert IsDigit(FormatMinutes(h, mi)[0]);
    ParseDatePart(y, m, d, FormatMinutes(h, mi), IndexFormat);
    ParseMinutesPart(h, mi, [], IndexFormat[6..], p3);
    assert FormatMinutes(h, mi) + [] == FormatMinutes(h, mi);
    assert IndexFormat[6..][3..] == [];
  }

  /** Round trip for the header format: a valid date and time with a year
      between 0 and 9999, printed as "YYYY-MM-DD HH:MM:SS", parses back to
      that date and time. */
  lemma ParseFormattedSeconds(y: nat, m: nat, d: nat, h: nat, mi: nat, s: nat)
    requires ValidDate(y, m, d) && y < 10000 && h < 24 && mi < 60 && s < 60
    ensures ParseFromStr(FormatDate(y, m, d) + " " + FormatSeconds(h, mi, s), HeaderFormat)
         == Some(NaiveDateTime(EpochDays(y, m, d), h * 3600 + mi * 60 + s, 0))
  {
    var p := Parsed(Some(y), Some(m), Some(d), Some(h), Some(mi), Some(s));
    var dt := NaiveDateTime(EpochDays(y, m, d), h * 3600 + mi * 60 + s, 0);
    ReadFieldsToDateTime(y, m, d, h, mi, Some(s));
    assert ToNaiveDateTime(p) == Some(dt);
    HeaderItemsRead(y, m, d, h, mi, s);
    HeaderParseOf(FormatDate(y, m, d) + " " + FormatSeconds(h, mi, s), p, dt);
  }

  /** Round trip for the index format "YYYY-MM-DD HH:MM": the missing second
      reads as 0. */
  lemma ParseFormattedMinutes(y: nat, m: nat, d: nat, h: nat, mi: nat)
    requires ValidDate(y, m, d) && y < 10000 && h < 24 && mi < 60
    ensures ParseFromStr(FormatDate(y, m, d) + " " + FormatMinutes(h, mi), IndexFormat)
         == Some(NaiveDateTime(EpochDays(y, m, d), h * 3600 + mi * 60, 0))
  {
    var p := Parsed(Some(y), Some(m), Some(d), Some(h), Some(mi), None);
    var dt := NaiveDateTime(EpochDays(y, m, d), h * 3600 + mi * 60, 0);
    ReadFieldsToDateTime(y, m, d, h, mi, None);
    assert ToNaiveDateTime(p) == Some(dt);
    IndexItemsRead(y, m, d, h, mi);
    IndexParseOf(FormatDate(y, m, d) + " " + FormatMinutes(h, mi), p, dt);
  }

  lemma HeaderParseOf(text: string, p: Parsed, dt: NaiveDateTime)
    requires ParseItems(text, HeaderFormat, NothingParsed) == Some(p)
    requires ToNaiveDateTime(p) == Some(dt)
    ensures ParseFromStr(text, HeaderFormat) == Some(dt)
  {
  }

  lemma IndexParseOf(text: string, p: Parsed, dt: NaiveDateTime)
    requires ParseItems(text, IndexFormat, NothingParsed) == Some(p)
    requires ToNaiveDateTime(p) == Some(dt)
    ensures ParseFromStr(text, IndexFormat) == Some(dt)
  {
  }

  lemma ReadFieldsToDateTime(y: int, m: int, d: int, h: int, mi: int, s: Option<int>)
    requires ValidDate(y, m, d) && 0 <= h < 24 && 0 <= mi < 60
    requires s.Some? ==> 0 <= s.value < 60
    ensures var sec := if s.Some? then s.value else 0;
      ToNaiveDateTime(Parsed(Some(y), Some(m), Some(d), Some(h), Some(mi), s))
        == Some(NaiveDateTime(EpochDays(y, m, d), h * 3600 + mi * 60 + sec, 0))
  {
  }
}
