/**
 * src/lib/date.ts: getFormattedLocaleDateTime shifts a Unix-seconds timestamp
 * by a timezone offset, renders it with Date.prototype.toUTCString and
 * rewrites that text as "dd-mm-yyyy h:mmam" / "dd-mm-yyyy h:mmpm".
 */
module DateFormat {
  import opened Common
  import opened JsString
  import opened EcmaTime

  /** The weekday names of toUTCString, Sunday first (ECMA-262 section 21.4.4.41.2, Table 63). */
  const WeekdayNames: seq<string> := ["Sun", "Mon", "Tue", "Wed", "Thu", "Fri", "Sat"]

  /** The month names of toUTCString, January first (Table 64). */
  const MonthNames: seq<string> :=
    ["Jan", "Feb", "Mar", "Apr", "May", "Jun", "Jul", "Aug", "Sep", "Oct", "Nov", "Dec"]

  /**
   * `monthMap`: month name to two-digit month number; any other name reads as
   * undefined (None). Names inherited from Object.prototype (`constructor`,
   * `toString`, `__proto__`) would read as functions or objects in the source;
   * they are None here, and no toUTCString text puts them in the month position.
   */
  function MonthMap(name: string): Option<string> {
    if name == "Jan" then Some("01")
    else if name == "Feb" then Some("02")
    else if name == "Mar" then Some("03")
    else if name == "Apr" then Some("04")
    else if name == "May" then Some("05")
    else if name == "Jun" then Some("06")
    else if name == "Jul" then Some("07")
    else if name == "Aug" then Some("08")
    else if name == "Sep" then Some("09")
    else if name == "Oct" then Some("10")
    else if name == "Nov" then Some("11")
    else if name == "Dec" then Some("12")
    else None
  }

  // ---------------------------------------------------------------------
  // Date.prototype.toUTCString (ECMA-262 section 21.4.4.43)
  // ---------------------------------------------------------------------

  /** The clock of TimeString(tv): "HH:mm:ss". */
  function Clock(t: int): string {
    Join([ZeroPadded(HourFromTime(t), 2), ZeroPadded(MinFromTime(t), 2), ZeroPadded(SecFromTime(t), 2)], ':')
  }

  /** yearSign followed by paddedYear: at least four digits, "-" before a negative year. */
  function YearString(y: int): string {
    (if y >= 0 then "" else "-") + ZeroPadded(if y >= 0 then y else -y, 4)
  }

  /**
   * toUTCString of a time value, or of NaN (None): the weekday, ", ", then
   * day, month, year, clock and "GMT" separated by single spaces
   * ("Wed, 11 Dec 2024 23:04:52 GMT").
   */
  function ToUTCString(tv: Option<int>): string {
    if tv.None? then "Invalid Date"
    else
      var t := tv.value;
      WeekdayNames[WeekDay(t)] + [',', ' ']
        + Join([ZeroPadded(DateFromTime(t), 2), MonthNames[MonthFromTime(t)],
                YearString(YearFromTime(t)), Clock(t), "GMT"], ' ')
  }

  // ---------------------------------------------------------------------
  // getFormattedLocaleDateTime
  // ---------------------------------------------------------------------

  /** The if/else chain on hourInt: hour on a 12-hour clock and its am/pm suffix. */
  function To12Hour(hourInt: int): (int, string) {
    if hourInt == 0 then (12, "am")
    else if hourInt == 12 then (12, "pm")
    else if hourInt > 12 then (hourInt - 12, "pm")
    else (hourInt, "am")
  }

  /** Reading a 12-hour clock back as a 24-hour one. */
  function From12Hour(hour: int, suffix: string): int {
    hour % 12 + (if suffix == "pm" then 12 else 0)
  }

  /** `${n}` for an integer. */
  function IntString(n: int): string {
    if n < 0 then "-" + DecimalString(-n) else DecimalString(n)
  }

  /** `${v}` for a string that may be undefined. */
  function Template(v: Option<string>): string {
    if v.Some? then v.value else "undefined"
  }

  /** `(utcString.split(', ')[1] || '').split(' ')`: the parts after the weekday. */
  function DateTimeParts(utc: string): seq<string> {
    var halves := SplitOnPair(utc, ',', ' ');
    Split(if |halves| > 1 then halves[1] else "", ' ')
  }

  /**
   * The rest of the `try` block on those parts: day, month through `monthMap`,
   * year, then the hour and minutes of the clock on a 12-hour dial.
   * None stands for a thrown error: a missing part (a method called on
   * undefined) or an hour that parses to NaN.
   */
  function Reassemble(parts: seq<string>): Option<string> {
    if |parts| < 4 then None
    else
      var timeParts := Split(parts[3], ':');
      var hourInt := ParseInt(timeParts[0]);
      if hourInt.None? then None
      else if |timeParts| < 2 then None
      else
        var min := PadStart(timeParts[1], 2, '0');
        var clock := To12Hour(hourInt.value);
        Some(parts[0] + "-" + Template(MonthMap(parts[1])) + "-" + parts[2] + " "
             + IntString(clock.0) + ":" + min + clock.1)
  }

  /** The body of the `try` block; None when it throws. */
  function ReformatUtcString(utc: string): Option<string> {
    Reassemble(DateTimeParts(utc))
  }

  /**
   * getFormattedLocaleDateTime(dt, timezoneOffset) for whole-second inputs;
   * an absent argument is None.
   */
  function FormatLocaleDateTime(dt: Option<int>, timezoneOffset: Option<int>): (r: string)
    ensures dt.None? || timezoneOffset.None? ==> r == ""
  {
    if dt.None? || timezoneOffset.None? then ""
    else FormatTimeValue(ShiftedTimeValue(dt.value, timezoneOffset.value))
  }

  /** `new Date((dt + timezoneOffset) * 1000)`: the clipped time value, None when it is out of range. */
  function ShiftedTimeValue(dt: int, timezoneOffset: int): (r: Option<int>)
    ensures r.Some? <==> -MaxTimeValue <= (dt + timezoneOffset) * 1000 <= MaxTimeValue
    ensures r.Some? ==> r.value == (dt + timezoneOffset) * 1000
  {
    TimeClip((dt + timezoneOffset) * 1000)
  }

  /** From `new Date(...)` on: the reformatted toUTCString text, or that text itself when reformatting throws. */
  function FormatTimeValue(tv: Option<int>): string {
    var utc := ToUTCString(tv);
    var formatted := ReformatUtcString(utc);
    if formatted.Some? then formatted.value else utc
  }

  // ---------------------------------------------------------------------
  // What the result means
  // ---------------------------------------------------------------------

  /** The intended display of calendar fields: "dd-mm-yyyy h:mm" and the suffix. */
  function Display(f: DateTimeFields): string
    requires ValidFields(f)
  {
    var clock := To12Hour(f.hours);
    ZeroPadded(f.date, 2) + "-" + ZeroPadded(f.month + 1, 2) + "-" + YearString(f.year) + " "
      + DecimalString(if clock.0 >= 0 then clock.0 else 0) + ":" + ZeroPadded(f.minutes, 2) + clock.1
  }

  /**
   * Every hour of the day is shown as 1..12 with "am" before noon and "pm"
   * from noon on, and the 12-hour reading gives the hour back.
   */
  lemma To12HourCorrect(h: int)
    requires 0 <= h < 24
    ensures 1 <= To12Hour(h).0 <= 12
    ensures To12Hour(h).1 == (if h < 12 then "am" else "pm")
    ensures From12Hour(To12Hour(h).0, To12Hour(h).1) == h
  {
  }

  /** Two-digit padding of a number below 100: its tens digit and its units digit. */
  lemma TwoDigits(n: nat)
    requires n < 100
    ensures ZeroPadded(n, 2) == [DigitChar(n / 10), DigitChar(n % 10)]
  {
  }

  /** `monthMap` turns each toUTCString month name into its number 01..12. */
  lemma MonthMapNumbers(m: int)
    requires 0 <= m < 12
    ensures MonthMap(MonthNames[m]) == Some(ZeroPadded(m + 1, 2))
  {
    TwoDigits(m + 1);
    if m < 4 {
    } else if m < 8 {
    } else {
    }
  }

  /** Whatever `monthMap` returns is two digits naming a month 1..12. */
  lemma MonthMapRange(name: string)
    requires MonthMap(name).Some?
    ensures |MonthMap(name).value| == 2 && AllDigits(MonthMap(name).value)
    ensures 1 <= DigitsValue(MonthMap(name).value) <= 12
  {
    var v := MonthMap(name).value;
    assert v[..1] == [v[0]];
  }

  /** Digit strings hold no separator. */
  lemma NoSeparators(s: string)
    requires AllDigits(s)
    ensures ',' !in s && ' ' !in s && ':' !in s
  {
    forall i | 0 <= i < |s| ensures s[i] != ',' && s[i] != ' ' && s[i] != ':' {
      assert IsDigit(s[i]);
    }
  }

  /** Splitting toUTCString-shaped text finds its date parts, clock and "GMT". */
  lemma DateTimePartsOfLayout(w: string, d: string, m: string, y: string, clock: string)
    requires ',' !in w
    requires ',' !in d && ' ' !in d && ',' !in m && ' ' !in m && ',' !in y && ' ' !in y
    requires ',' !in clock && ' ' !in clock
    ensures DateTimeParts(w + [',', ' '] + Join([d, m, y, clock, "GMT"], ' ')) == [d, m, y, clock, "GMT"]
  {
    var parts := [d, m, y, clock, "GMT"];
    var rest := Join(parts, ' ');
    assert parts[1..] == [m, y, clock, "GMT"];
    assert parts[1..][1..] == [y, clock, "GMT"];
    assert parts[1..][1..][1..] == [clock, "GMT"];
    assert parts[1..][1..][1..][1..] == ["GMT"];
    JoinAvoids(parts, ' ', ',');
    SplitOnPairAfterPrefix(w, rest, ',', ' ');
    SplitOnPairNoSeparator(rest, ',', ' ');
    SplitJoin(parts, ' ');
  }

  /** Splitting the clock "HH:mm:ss" at colons. */
  lemma ClockParts(hh: string, mm: string, ss: string)
    requires AllDigits(hh) && AllDigits(mm) && AllDigits(ss)
    ensures Split(Join([hh, mm, ss], ':'), ':') == [hh, mm, ss]
  {
    NoSeparators(hh);
    NoSeparators(mm);
    NoSeparators(ss);
    SplitJoin([hh, mm, ss], ':');
  }

  /** Reassembling the parts of toUTCString-shaped text. */
  lemma ReassembleLayout(d: string, m: string, y: string, hh: string, mm: string, ss: string)
    requires AllDigits(hh) && AllDigits(mm) && AllDigits(ss)
    requires 0 < |hh| && |mm| == 2
    ensures Reassemble([d, m, y, Join([hh, mm, ss], ':'), "GMT"])
            == Some(d + "-" + Template(MonthMap(m)) + "-" + y + " "
                    + IntString(To12Hour(DigitsValue(hh)).0) + ":" + mm + To12Hour(DigitsValue(hh)).1)
  {
    ClockParts(hh, mm, ss);
    ParseIntDigits(hh);
  }

  /** The weekday and month names hold no separator. */
  lemma NamesHaveNoSeparator(w: int, m: int)
    requires 0 <= w < 7 && 0 <= m < 12
    ensures ',' !in WeekdayNames[w]
    ensures ',' !in MonthNames[m] && ' ' !in MonthNames[m]
  {
  }

  /** The year text holds no separator. */
  lemma YearHasNoSeparator(y: int)
    ensures ',' !in YearString(y) && ' ' !in YearString(y)
  {
    NoSeparators(ZeroPadded(if y >= 0 then y else -y, 4));
  }

  /** The parts after the weekday of toUTCString's text. */
  lemma UtcDateTimeParts(t: int)
    ensures DateTimeParts(ToUTCString(Some(t)))
            == [ZeroPadded(DateFromTime(t), 2), MonthNames[MonthFromTime(t)],
                YearString(YearFromTime(t)), Clock(t), "GMT"]
  {
    var hh, mm, ss := ZeroPadded(HourFromTime(t), 2), ZeroPadded(MinFromTime(t), 2), ZeroPadded(SecFromTime(t), 2);
    NamesHaveNoSeparator(WeekDay(t), MonthFromTime(t));
    YearHasNoSeparator(YearFromTime(t));
    NoSeparators(ZeroPadded(DateFromTime(t), 2));
    NoSeparators(hh);
    NoSeparators(mm);
    NoSeparators(ss);
    JoinAvoids([hh, mm, ss], ':', ',');
    JoinAvoids([hh, mm, ss], ':', ' ');
    DateTimePartsOfLayout(WeekdayNames[WeekDay(t)], ZeroPadded(DateFromTime(t), 2),
                          MonthNames[MonthFromTime(t)], YearString(YearFromTime(t)), Clock(t));
  }

  /** Reassembling those parts gives the intended display of the fields. */
  lemma UtcReassembled(t: int)
    ensures Reassemble([ZeroPadded(DateFromTime(t), 2), MonthNames[MonthFromTime(t)],
                        YearString(YearFromTime(t)), Clock(t), "GMT"])
            == Some(Display(Decompose(t)))
  {
    var h := HourFromTime(t);
    ZeroPaddedValue(h, 2);
    ZeroPaddedValue(MinFromTime(t), 2);
    ReassembleLayout(ZeroPadded(DateFromTime(t), 2), MonthNames[MonthFromTime(t)],
                     YearString(YearFromTime(t)), ZeroPadded(h, 2),
                     ZeroPadded(MinFromTime(t), 2), ZeroPadded(SecFromTime(t), 2));
    MonthMapNumbers(MonthFromTime(t));
    To12HourCorrect(h);
  }

  /** For an instant in range, the text is toUTCString's date and time in the required layout. */
  lemma ReformatUtcStringCorrect(t: int)
    ensures ReformatUtcString(ToUTCString(Some(t))) == Some(Display(Decompose(t)))
  {
    UtcDateTimeParts(t);
    UtcReassembled(t);
  }

  /**
   * getFormattedLocaleDateTime shows the UTC calendar fields of the instant
   * dt + timezoneOffset seconds, as "dd-mm-yyyy h:mm" followed by am or pm.
   */
  lemma FormatShowsShiftedFields(dt: int, timezoneOffset: int)
    requires -MaxTimeValue <= (dt + timezoneOffset) * 1000 <= MaxTimeValue
    ensures FormatLocaleDateTime(Some(dt), Some(timezoneOffset))
            == Display(Decompose((dt + timezoneOffset) * 1000))
  {
    var t := (dt + timezoneOffset) * 1000;
    assert ShiftedTimeValue(dt, timezoneOffset) == Some(t);
    ReformatUtcStringCorrect(t);
    assert FormatTimeValue(Some(t)) == Display(Decompose(t));
  }

  /** Outside the time range the Date is invalid and its text "Invalid Date" comes back unchanged. */
  lemma FormatOutOfRange(dt: int, timezoneOffset: int)
    requires !(-MaxTimeValue <= (dt + timezoneOffset) * 1000 <= MaxTimeValue)
    ensures FormatLocaleDateTime(Some(dt), Some(timezoneOffset)) == "Invalid Date"
  {
    SplitOnPairNoSeparator("Invalid Date", ',', ' ');
    assert Split("", ' ') == [""];
  }
}
