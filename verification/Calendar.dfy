/**
 Calendar arithmetic: the days-from-civil formula against a count of days one by one under the
 Gregorian leap rule, and RFC 3339 timestamps as instants (sections 5.6 and 5.7).
 */
module Calendar {
  import opened Text

  datatype Date = Date(year: int, month: int, day: int)

  predicate IsLeapYear(year: int) {
    year % 4 == 0 && (year % 100 != 0 || year % 400 == 0)
  }

  function DaysInMonth(year: int, month: int): (n: int)
    requires 1 <= month <= 12
    ensures 28 <= n <= 31
  {
    if month == 2 then if IsLeapYear(year) then 29 else 28
    else if month in {4, 6, 9, 11} then 30 else 31
  }

  predicate ValidDate(d: Date) {
    1 <= d.month <= 12 && 1 <= d.day <= DaysInMonth(d.year, d.month)
  }

  // ---- counting days one by one

  const EPOCH := Date(1970, 1, 1)

  function NextDay(d: Date): (n: Date)
    requires ValidDate(d)
    ensures ValidDate(n)
  {
    if d.day < DaysInMonth(d.year, d.month) then Date(d.year, d.month, d.day + 1)
    else if d.month < 12 then Date(d.year, d.month + 1, 1)
    else Date(d.year + 1, 1, 1)
  }

  function PreviousDay(d: Date): (p: Date)
    requires ValidDate(d)
    ensures ValidDate(p) && NextDay(p) == d
  {
    if d.day > 1 then Date(d.year, d.month, d.day - 1)
    else if d.month > 1 then Date(d.year, d.month - 1, DaysInMonth(d.year, d.month - 1))
    else Date(d.year - 1, 12, 31)
  }

  /** The date `n` days after the epoch, stepping one day at a time. */
  function DateAt(n: int): (d: Date)
    ensures ValidDate(d)
    decreases if n < 0 then -n else n
  {
    if n == 0 then EPOCH else if n > 0 then NextDay(DateAt(n - 1)) else PreviousDay(DateAt(n + 1))
  }

  // ---- the formula

  /** `_days_from_civil`. Floor division by a positive constant is Dafny's own. */
  function DaysFromCivil(d: Date): int {
    var y := ShiftedYear(d);
    var era := (if y >= 0 then y else y - 399) / 400;
    var yoe := y - era * 400;
    var doe := yoe * 365 + yoe / 4 - yoe / 100 + MarchDay(d);
    era * 146097 + doe - 719468
  }

  /** The year that begins in March. */
  function ShiftedYear(d: Date): int {
    d.year - if d.month <= 2 then 1 else 0
  }

  /** The day within the year that begins in March. */
  function MarchDay(d: Date): int {
    (153 * (d.month + (if d.month > 2 then -3 else 9)) + 2) / 5 + d.day - 1
  }

  /** Days before the March of a year, counted from the March of year zero. */
  function YearStart(y: int): int {
    365 * y + y / 4 - y / 100 + y / 400
  }

  /** The number the formula stands for. */
  function DayNumber(d: Date): int {
    YearStart(ShiftedYear(d)) + MarchDay(d) - 719468
  }

  lemma YearStartStep(y: int)
    ensures YearStart(y + 1) - YearStart(y) == 365 + if IsLeapYear(y + 1) then 1 else 0
  {
    DivStep(y, 4);
    DivStep(y, 100);
    DivStep(y, 400);
    assert (y + 1) % 400 == 0 ==> (y + 1) % 100 == 0;
    assert (y + 1) % 100 == 0 ==> (y + 1) % 4 == 0;
  }

  lemma DivStep(y: int, k: int)
    requires k in {4, 100, 400}
    ensures (y + 1) / k - y / k == if (y + 1) % k == 0 then 1 else 0
  {
    if k == 4 {
    } else if k == 100 {
    } else {
    }
  }

  /** The day number grows by one from each day to the next. */
  lemma DayNumberCounts(d: Date)
    requires ValidDate(d)
    ensures DayNumber(NextDay(d)) == DayNumber(d) + 1
  {
    hide YearStart, IsLeapYear;
    if d.month == 2 && d.day == DaysInMonth(d.year, d.month) {
      YearStartStep(d.year - 1);
    }
  }

  lemma {:induction false} DayNumberOfDateAt(n: int)
    ensures DayNumber(DateAt(n)) == n
    decreases if n < 0 then -n else n
  {
    hide DayNumber;
    if n == 0 {
      assert DayNumber(EPOCH) == 0 by { EpochIsDayZero(); }
    } else if n > 0 {
      DayNumberOfDateAt(n - 1);
      DayNumberCounts(DateAt(n - 1));
    } else {
      DayNumberOfDateAt(n + 1);
      DayNumberCounts(DateAt(n));
    }
  }

  lemma EpochIsDayZero()
    ensures DayNumber(EPOCH) == 0
  {
  }

  // ---- order

  predicate Before(d: Date, e: Date) {
    d.year < e.year || (d.year == e.year && (d.month < e.month || (d.month == e.month && d.day < e.day)))
  }

  /** Days of the year before a month. */
  function MonthStart(year: int, month: int): int
    requires 1 <= month <= 12
  {
    if month == 1 then 0 else MonthStart(year, month - 1) + DaysInMonth(year, month - 1)
  }

  /** The day number told from January: whole years, whole months, days. */
  lemma DayNumberFromJanuary(d: Date)
    requires ValidDate(d)
    ensures DayNumber(d) == YearStart(d.year - 1) + 306 + MonthStart(d.year, d.month) + d.day - 1 - 719468
    ensures MonthStart(d.year, d.month) + d.day <= 365 + if IsLeapYear(d.year) then 1 else 0
  {
    YearStartStep(d.year - 1);
    hide YearStart, IsLeapYear;
    MonthStarts(d.year, d.month);
  }

  lemma MonthStarts(year: int, month: int)
    requires 1 <= month <= 12
    ensures MonthStart(year, month) ==
            [0, 31, 59, 90, 120, 151, 181, 212, 243, 273, 304, 334][month - 1]
            + if month > 2 && IsLeapYear(year) then 1 else 0
  {
    if month > 1 {
      MonthStarts(year, month - 1);
    }
  }

  lemma {:induction false} MonthStartGrows(year: int, m: int, n: int)
    requires 1 <= m < n <= 12
    ensures MonthStart(year, m) + DaysInMonth(year, m) <= MonthStart(year, n)
  {
    if m + 1 < n {
      MonthStartGrows(year, m, n - 1);
    }
  }

  lemma {:induction false} YearStartGrows(y: int, z: int)
    requires y <= z
    ensures YearStart(y) <= YearStart(z)
    decreases z - y
  {
    if y < z {
      YearStartGrows(y, z - 1);
      YearStartStep(z - 1);
    }
  }

  /** Later dates have larger numbers. */
  lemma DayNumberGrows(d: Date, e: Date)
    requires ValidDate(d) && ValidDate(e) && Before(d, e)
    ensures DayNumber(d) < DayNumber(e)
  {
    hide DayNumber, YearStart, MonthStart, DaysInMonth, IsLeapYear;
    DayNumberFromJanuary(d);
    DayNumberFromJanuary(e);
    if d.year < e.year {
      YearStartStep(d.year - 1);
      YearStartGrows(d.year, e.year - 1);
      assert MonthStart(e.year, e.month) >= 0 by { MonthStarts(e.year, e.month); }
    } else if d.month < e.month {
      MonthStartGrows(d.year, d.month, e.month);
    }
  }

  // ---- the formula is the count

  /** The era split computes the day number, except that the branch for negative years is one
      short unless the shifted year is the last of its era. */
  lemma FormulaOrShort(d: Date)
    ensures var y := ShiftedYear(d);
      DaysFromCivil(d) == DayNumber(d) - if y >= 0 || y % 400 == 399 then 0 else 1
  {
    var y := ShiftedYear(d);
    var q, r := y / 400, y % 400;
    assert y == 400 * q + r;
    var era := (if y >= 0 then y else y - 399) / 400;
    assert era == if y >= 0 || r == 399 then q else q - 1;
    var yoe := y - era * 400;
    assert yoe == if era == q then r else r + 400;
    assert y / 4 == 100 * q + r / 4 && y / 100 == 4 * q + r / 100;
    assert (r + 400) / 4 == r / 4 + 100 && (r + 400) / 100 == r / 100 + 4;
  }

  /** Counting that many days from 1970-01-01 lands on the date exactly when the shifted year
      is not negative or ends its era; so always for the years RFC 3339 can write. */
  lemma DaysFromCivilCounts(d: Date)
    requires ValidDate(d)
    ensures DateAt(DaysFromCivil(d)) == d <==> ShiftedYear(d) >= 0 || ShiftedYear(d) % 400 == 399
    ensures d.year >= 0 ==> DateAt(DaysFromCivil(d)) == d
  {
    hide DayNumber, DaysFromCivil;
    FormulaOrShort(d);
    var e := DateAt(DaysFromCivil(d));
    DayNumberOfDateAt(DaysFromCivil(d));
    if e != d {
      if Before(d, e) { DayNumberGrows(d, e); } else { DayNumberGrows(e, d); }
    }
  }

  /** The first of March of the year -2 is one it gets wrong. */
  lemma YearMinusTwoIsShort()
    ensures DateAt(DaysFromCivil(Date(-2, 3, 1))) != Date(-2, 3, 1)
  {
    hide DateAt, DaysFromCivil;
    DaysFromCivilCounts(Date(-2, 3, 1));
  }

  // ---- timestamps

  /** A timestamp as written: date, time of day, fraction of a second, offset from UTC. */
  datatype Stamp = Stamp(date: Date, hour: int, minute: int, second: int, fraction: real, offset: int)

  predicate ValidStamp(s: Stamp) {
    ValidDate(s.date) && 0 <= s.hour <= 23 && 0 <= s.minute <= 59 && 0 <= s.second <= 60
    && 0.0 <= s.fraction < 1.0
  }

  function SecondOfDay(s: Stamp): int {
    s.hour * 3600 + s.minute * 60 + s.second
  }

  /** Seconds since the epoch, UTC. */
  function EpochSeconds(s: Stamp): real {
    (DaysFromCivil(s.date) * 86400 + SecondOfDay(s) - s.offset) as real + s.fraction
  }

  predicate EarlierInDay(s: Stamp, t: Stamp) {
    s.hour < t.hour
    || (s.hour == t.hour
        && (s.minute < t.minute
            || (s.minute == t.minute
                && (s.second < t.second || (s.second == t.second && s.fraction < t.fraction)))))
  }

  /** At one offset and outside leap seconds, epoch seconds keep the order of date and time,
      strictly. */
  lemma EpochSecondsGrow(s: Stamp, t: Stamp)
    requires ValidStamp(s) && ValidStamp(t) && s.date.year >= 0 && t.date.year >= 0
    requires s.offset == t.offset && s.second < 60 && t.second < 60
    requires Before(s.date, t.date) || (s.date == t.date && EarlierInDay(s, t))
    ensures EpochSeconds(s) < EpochSeconds(t)
  {
    hide DaysFromCivil, DayNumber;
    FormulaOrShort(s.date);
    FormulaOrShort(t.date);
    assert 0 <= SecondOfDay(s) < 86400 && 0 <= SecondOfDay(t) < 86400;
    if Before(s.date, t.date) {
      DayNumberGrows(s.date, t.date);
    }
  }

  /** A leap second is the same instant as the midnight after it: there the order is not strict. */
  lemma LeapSecondIsNextMidnight(d: Date, offset: int)
    requires ValidDate(d) && d.year >= 0
    ensures EpochSeconds(Stamp(d, 23, 59, 60, 0.0, offset)) == EpochSeconds(Stamp(NextDay(d), 0, 0, 0, 0.0, offset))
  {
    hide DaysFromCivil, DayNumber;
    FormulaOrShort(d);
    FormulaOrShort(NextDay(d));
    DayNumberCounts(d);
  }

  // ---- the text form

  function Number(text: string, from: nat, to: nat): Option<nat>
    requires from <= to <= |text|
  {
    if AllDigits(text[from..to]) then Some(Value(text[from..to])) else None
  }

  function Tenth(k: nat): real {
    if k == 0 then 1.0 else Tenth(k - 1) / 10.0
  }

  function Scaled(n: nat, unit: real): real {
    n as real * unit
  }

  /** `float("." + digits)`, exactly. */
  function FractionOf(digits: string): real
    requires AllDigits(digits)
  {
    Scaled(Value(digits), Tenth(|digits|))
  }

  function DigitRun(text: string, from: nat): (n: nat)
    requires from <= |text|
    ensures from + n <= |text| && AllDigits(text[from..from + n])
    decreases |text| - from
  {
    if from < |text| && IsDigit(text[from]) then
      var n := DigitRun(text, from + 1);
      assert text[from..from + n + 1] == [text[from]] + text[from + 1..from + 1 + n];
      n + 1
    else 0
  }

  /** The offset and what may follow it: `Z` or a signed hour and minute, then at most one
      newline, which the pattern's trailing `$` lets pass. */
  function OffsetOf(text: string): Option<int> {
    if text == "Z" || text == "Z\n" then Some(0)
    else if (|text| == 6 || (|text| == 7 && text[6] == '\n')) && text[0] in {'+', '-'} && text[3] == ':'
            && AllDigits(text[1..3]) && AllDigits(text[4..6]) then
      var seconds := Value(text[1..3]) * 3600 + Value(text[4..6]) * 60;
      Some(if text[0] == '+' then seconds else -seconds)
    else None
  }

  /** The shape the pattern accepts, before any range is checked. */
  function StampOf(text: string): Option<Stamp> {
    if |text| < 20 || text[4] != '-' || text[7] != '-' || text[10] != 'T' || text[13] != ':' || text[16] != ':'
       || Number(text, 0, 4).None? || Number(text, 5, 7).None? || Number(text, 8, 10).None?
       || Number(text, 11, 13).None? || Number(text, 14, 16).None? || Number(text, 17, 19).None?
    then None
    else
      var run := if text[19] == '.' then DigitRun(text, 20) else 0;
      var tail := if text[19] == '.' then 20 + run else 19;
      if text[19] == '.' && run == 0 then None
      else match OffsetOf(text[tail..])
        case None => None
        case Some(offset) =>
          Some(Stamp(Date(Number(text, 0, 4).value, Number(text, 5, 7).value, Number(text, 8, 10).value),
                     Number(text, 11, 13).value, Number(text, 14, 16).value, Number(text, 17, 19).value,
                     if text[19] == '.' then FractionOf(text[20..tail]) else 0.0, offset))
  }

  /** `rfc3339_to_epoch_seconds`. */
  function EpochOf(text: string): Option<real> {
    match StampOf(text)
    case None => None
    case Some(s) =>
      if 1 <= s.date.month <= 12 && 1 <= s.date.day <= DaysInMonth(s.date.year, s.date.month)
         && s.hour <= 23 && s.minute <= 59 && s.second <= 60
      then Some(EpochSeconds(s)) else None
  }

  lemma {:induction false} PowerOfTenth(k: nat)
    ensures Tenth(k) > 0.0 && Pow10(k) as real * Tenth(k) == 1.0
  {
    if k > 0 {
      PowerOfTenth(k - 1);
      assert Pow10(k) as real == 10.0 * (Pow10(k - 1) as real);
    }
  }

  lemma ScaledBelowOne(v: nat, p: nat, t: real)
    requires v < p && t > 0.0 && p as real * t == 1.0
    ensures 0.0 <= Scaled(v, t) < 1.0
  {
    assert (p as real - v as real) * t > 0.0;
  }

  lemma FractionBelowOne(digits: string)
    requires AllDigits(digits)
    ensures 0.0 <= FractionOf(digits) < 1.0
  {
    hide Scaled;
    PowerOfTenth(|digits|);
    ValueBelow(digits);
    hide *;
    ScaledBelowOne(Value(digits), Pow10(|digits|), Tenth(|digits|));
    UnfoldFraction(digits);
  }

  lemma UnfoldFraction(digits: string)
    requires AllDigits(digits)
    ensures FractionOf(digits) == Scaled(Value(digits), Tenth(|digits|))
  {
    hide Scaled, Value, Tenth, AllDigits;
  }

  /** Whatever the reader turns into seconds was a valid timestamp of a year the formula counts
      exactly, read field by field. */
  lemma ReadIsValid(text: string)
    ensures EpochOf(text).Some? ==>
              StampOf(text).Some? && ValidStamp(StampOf(text).value) && StampOf(text).value.date.year >= 0
              && EpochOf(text) == Some(EpochSeconds(StampOf(text).value))
  {
    hide FractionOf, OffsetOf, EpochSeconds;
    if EpochOf(text).Some? && text[19] == '.' {
      FractionBelowOne(text[20..20 + DigitRun(text, 20)]);
    }
  }

  /** Two timestamps read from text at one offset, neither a leap second, compare as their dates
      and times do. */
  lemma ReadKeepsOrder(a: string, b: string)
    requires EpochOf(a).Some? && EpochOf(b).Some?
    requires var s, t := StampOf(a).value, StampOf(b).value;
      s.offset == t.offset && s.second < 60 && t.second < 60
    ensures var s, t := StampOf(a).value, StampOf(b).value;
      EpochOf(a).value < EpochOf(b).value <==> Before(s.date, t.date) || (s.date == t.date && EarlierInDay(s, t))
  {
    hide StampOf, EpochSeconds;
    ReadIsValid(a);
    ReadIsValid(b);
    var s, t := StampOf(a).value, StampOf(b).value;
    hide EpochOf;
    if Before(s.date, t.date) || (s.date == t.date && EarlierInDay(s, t)) {
      EpochSecondsGrow(s, t);
    } else if Before(t.date, s.date) || (s.date == t.date && EarlierInDay(t, s)) {
      EpochSecondsGrow(t, s);
    } else {
      assert s == t;
    }
  }

  lemma {:induction false} DigitRunExact(text: string, from: nat, n: nat)
    requires from + n < |text| && AllDigits(text[from..from + n]) && !IsDigit(text[from + n])
    ensures DigitRun(text, from) == n
    decreases n
  {
    if n > 0 {
      assert IsDigit(text[from..from + n][0]);
      assert text[from + 1..from + n] == text[from..from + n][1..];
      DigitRunExact(text, from + 1, n - 1);
    }
  }

  lemma TrailingZero(digits: string)
    requires AllDigits(digits)
    ensures AllDigits(digits + "0") && FractionOf(digits + "0") == FractionOf(digits)
  {
    assert (digits + "0")[..|digits|] == digits;
    assert Value(digits + "0") == 10 * Value(digits);
    var v, t := Value(digits) as real, Tenth(|digits|);
    assert (10.0 * v) * (t / 10.0) == v * t;
  }

  /** Two spellings of one instant read the same: a trailing zero in the fraction and `+00:00`
      for `Z` change nothing, whatever stands before them. */
  lemma SpellingsAgree(core: string, digits: string)
    requires |core| == 19 && digits != "" && AllDigits(digits)
    ensures EpochOf(core + "." + digits + "Z") == EpochOf(core + "." + digits + "0" + "+00:00")
  {
    hide FractionOf, EpochSeconds, Value, OffsetOf, DigitRun, Number, DaysInMonth;
    var a, b := core + "." + digits + "Z", core + "." + digits + "0" + "+00:00";
    var n := |digits|;
    assert a[20..20 + n] == digits && b[20..20 + (n + 1)] == digits + "0";
    assert a[20 + n] == 'Z' && b[20 + (n + 1)] == '+';
    TrailingZero(digits);
    DigitRunExact(a, 20, n);
    DigitRunExact(b, 20, n + 1);
    assert a[20 + n..] == "Z" && b[20 + (n + 1)..] == "+00:00";
    ZeroOffset();
    SameFields(core, a, b);
  }

  lemma ZeroOffset()
    ensures OffsetOf("+00:00") == Some(0) && OffsetOf("Z") == Some(0)
  {
    assert "+00:00"[1..3] == "00" && "+00:00"[4..6] == "00";
    assert "00"[..1] == "0" && "0"[..0] == "";
    assert Value("00") == 0;
  }

  lemma SameFields(core: string, a: string, b: string)
    requires |core| == 19 && core <= a && core <= b
    ensures forall i, j :: 0 <= i <= j <= 19 ==> Number(a, i, j) == Number(b, i, j)
    ensures forall i :: 0 <= i < 19 ==> a[i] == b[i]
  {
    forall i, j | 0 <= i <= j <= 19 ensures Number(a, i, j) == Number(b, i, j) {
      assert a[i..j] == core[i..j] == b[i..j];
    }
  }
}
