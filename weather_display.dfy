/**
 * The date line the weather views render under a reading: shown only when
 * dt is truthy, with the text getFormattedLocaleDateTime returns. The
 * current-weather card and each search-history entry render it alike.
 */
module WeatherDisplay {
  import opened Common
  import opened EcmaTime
  import opened DateFormat
  import opened CurrentWeather

  /**
   * The call as written: `getFormattedLocaleDateTime(new Date(dt * 1000))`.
   * The Date object stands in as its time value dt * 1000; no timezone
   * offset is passed, so the formatter returns before reading either.
   * None means the line is not rendered (dt undefined or 0).
   */
  function ShownDateTimeAsWritten(data: CurrentWeatherData): (r: Option<string>)
    ensures r.Some? <==> data.dt.Some? && data.dt.value != 0
  {
    if data.dt.None? || data.dt.value == 0 then None
    else Some(FormatLocaleDateTime(Some(data.dt.value * 1000), None))
  }

  /** As written, the line is rendered but always empty, whatever the reading holds. */
  lemma ShownDateTimeAsWrittenIsEmpty(data: CurrentWeatherData)
    requires data.dt.Some? && data.dt.value != 0
    ensures ShownDateTimeAsWritten(data) == Some("")
  {
  }

  /**
   * The intended call: `getFormattedLocaleDateTime(dt, timezone)`, with the
   * reading's own dt in seconds and its timezone offset in seconds.
   */
  function ShownDateTime(data: CurrentWeatherData): (r: Option<string>)
    ensures r.Some? <==> data.dt.Some? && data.dt.value != 0
    ensures r.Some? && data.timezone.None? ==> r.value == ""
  {
    if data.dt.None? || data.dt.value == 0 then None
    else Some(FormatLocaleDateTime(data.dt, data.timezone))
  }

  /**
   * Corrected, a reading with dt and timezone shows the calendar fields of
   * the provider's instant at the place's offset, and that text is never empty.
   */
  lemma ShownDateTimeIsLocalTime(data: CurrentWeatherData)
    requires data.dt.Some? && data.dt.value != 0 && data.timezone.Some?
    requires -MaxTimeValue <= (data.dt.value + data.timezone.value) * 1000 <= MaxTimeValue
    ensures var t := (data.dt.value + data.timezone.value) * 1000;
      ShownDateTime(data) == Some(Display(Decompose(t))) && |ShownDateTime(data).value| > 0
  {
    FormatShowsShiftedFields(data.dt.value, data.timezone.value);
  }

  /**
   * Corrected, a rendered line with a timezone is never empty: in range it
   * is the local date and time, out of range the text `Invalid Date`.
   */
  lemma ShownDateTimeNonEmpty(data: CurrentWeatherData)
    requires data.dt.Some? && data.dt.value != 0 && data.timezone.Some?
    ensures ShownDateTime(data).Some? && |ShownDateTime(data).value| > 0
  {
    if -MaxTimeValue <= (data.dt.value + data.timezone.value) * 1000 <= MaxTimeValue {
      ShownDateTimeIsLocalTime(data);
    } else {
      FormatOutOfRange(data.dt.value, data.timezone.value);
    }
  }
}
