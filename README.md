# Weather app core, modelled in Dafny

This project models the logic underneath a small React weather app built on the
OpenWeatherMap API, and proves what it does. The app checks a city search query
against a regular expression and asks the geocoding endpoint for the place. It
then asks for the current weather at the place's coordinates. A formatter
turns a timestamp and a timezone offset into a local date and time. The two
views that render a reading's date call that formatter without the offset,
so they show an empty line (see "## Findings"). Both requests go through one
shared fetch wrapper. The wrapper turns every outcome into an `[error, result]`
pair and builds standard error records.

The model has one module per core source file, three support modules (`EcmaTime`, `JsString`, `Common`), and `WeatherDisplay`, which models the views' call of the date formatter:

| module | file | models |
|---|---|---|
| `QueryValidator` | query_validator.dfy | `OPEN_WEATHER_QUERY_REGEX`, as a recursive recogniser, and a pattern-shaped reference definition it is proved equal to |
| `DateFormat` | date_format.dfy | `getFormattedLocaleDateTime`, `monthMap`, and the text of `Date.prototype.toUTCString` |
| `EcmaTime` | ecma_time.dfy | the time-value arithmetic of ECMA-262 section 21.4.1 (Day, YearFromTime, MonthFromTime, DateFromTime, WeekDay, HourFromTime, MakeDay, MakeDate, TimeClip) that `toUTCString` uses |
| `JsString` | js_string.dfy | the JavaScript string operations the code relies on: `split`, `padStart`, `parseInt`, `toLowerCase`, `replace(/_/g, ' ')`, a regex test for a literal text, and decimal rendering |
| `FetchApi` | fetch_api.dfy | `getErrorData`, `isApiErrorData`, the `Response` pair, and how `API` (and `GET`, which only fixes the method) classifies one fetch |
| `GeoCoding` | geocoding.dfy | `getGeoCoding` after its `GET` call |
| `CurrentWeather` | current_weather.dfy | `getCurrentWeather` after its `GET` call, with the clock as a parameter |
| `WeatherDisplay` | weather_display.dfy | the date line of the current-weather card and of each search-history entry, as written and as intended |
| `Common` | common.dfy | `Option` |

All five core source files are pure computations once the network and the clock are
taken out. The model is therefore functions over datatypes, with lemmas relating
them.

The central theorems are these:

- `QueryValidator.ValidQueryMatchesPattern`: the scanner accepts exactly the
  strings that split into a city part and an optional `,cc` suffix.
- `DateFormat.FormatShowsShiftedFields`: the formatter's string surgery on the
  `toUTCString` text yields the calendar fields of the shifted instant in the
  layout `dd-mm-yyyy h:mmam`.
- `EcmaTime.ComposeDecompose` and `EcmaTime.DecomposeCompose`: decomposing a
  time value into calendar fields is a bijection.

## Model

| member | source | states |
|---|---|---|
| QueryValidator.ValidQuery | src/api/openWeatherMap/openWeatherMapHelpers.ts:5 | `OPEN_WEATHER_QUERY_REGEX.test(q)`; what it accepts is stated by ValidQueryMatchesPattern and the lemmas below. |
| QueryValidator.ScanCity | src/api/openWeatherMap/openWeatherMapHelpers.ts:5 | The recogniser's scan of the city run; ScanCityCorrect states what it accepts from each position. |
| QueryValidator.ScanCityCorrect | src/api/openWeatherMap/openWeatherMapHelpers.ts:2-5 | From any position inside a city run of letters and spaces, the scanner accepts exactly when the whole string matches the pattern (induction on the position). |
| QueryValidator.ValidQueryMatchesPattern | src/api/openWeatherMap/openWeatherMapHelpers.ts:2-5 | A query is accepted iff it is a non-empty run of ASCII letters and spaces ending in a letter, optionally followed by `,` and exactly two ASCII letters. |
| QueryValidator.CityAndCountryAccepted | src/api/openWeatherMap/openWeatherMapHelpers.ts:1-5 | Every city part of letters and spaces ending in a letter is accepted, alone or followed by `,` and a two-letter country code. |
| QueryValidator.AcceptedEndsWithLetter | src/api/openWeatherMap/openWeatherMapHelpers.ts:3-5 | Every accepted query is non-empty and ends in a letter, so an empty query, an all-space query and a query ending in a space (`'london '`) are rejected. |
| QueryValidator.AcceptedAlphabet | src/api/openWeatherMap/openWeatherMapHelpers.ts:5 | An accepted query holds only ASCII letters, spaces and commas, so digits, other punctuation and non-ASCII letters are rejected anywhere. |
| QueryValidator.AcceptedCommaShape | src/api/openWeatherMap/openWeatherMapHelpers.ts:3-5 | In an accepted query a comma follows a letter, is the only comma, and is followed by exactly two letters that end the string, so a comma after a space (`' ,CN'`, `'london ,gb'`) is rejected. |
| QueryValidator.LeadingSpaceAccepted | src/api/openWeatherMap/openWeatherMapHelpers.ts:5 | Putting a space in front of an accepted query keeps it accepted, because only the last city character is constrained. |
| QueryValidator.DocumentedExamples | src/api/openWeatherMap/openWeatherMapHelpers.ts:1-5 | `london`, `london,gb`, ` london` and `Paris,FR` are accepted; the empty string, all spaces, ` ,CN`, `london `, `london ,gb`, `london,`, `london,gbr`, `london,g`, `Paris FR!` and `london2` are rejected. |
| EcmaTime.TimeClip | src/lib/date.ts:23 | `new Date(ms)` has a time value exactly when the absolute value of ms is at most 8.64e15, and that value is ms itself. |
| EcmaTime.YearFromDay | src/lib/date.ts:26 | The year of a day number is the year whose first day is at or before the day and whose successor's first day is after it. |
| EcmaTime.YearFromDayIsLargest | src/lib/date.ts:26 | That year is the largest whose first day is at or before the day, so it is unique. |
| EcmaTime.MonthOfDay | src/lib/date.ts:26 | The month of a day within the year is the one whose cumulative month start is at or before the day and whose successor's start is after it (months 0..11). |
| EcmaTime.MonthOfDayUnique | src/lib/date.ts:26 | Any month bracketing the day is the one MonthOfDay returns. |
| EcmaTime.DateFromTime | src/lib/date.ts:26 | The day of the month lies between 1 and the length of its month in its year. |
| EcmaTime.Decompose | src/lib/date.ts:26 | Every time value decomposes into valid fields: a month in 0..11, a date within the month, hours 0..23, minutes and seconds 0..59, and milliseconds 0..999. |
| EcmaTime.ComposeDecompose | src/lib/date.ts:23-26 | Composing the fields of a time value with MakeDay/MakeTime/MakeDate gives the time value back. |
| EcmaTime.DecomposeCompose | src/lib/date.ts:23-26 | Decomposing the time value composed from valid fields gives the same fields back, so the calendar fields are determined by the instant and determine it. |
| DateFormat.FormatLocaleDateTime | src/lib/date.ts:16-20 | A missing dt or timezoneOffset gives the empty string. |
| DateFormat.ShiftedTimeValue | src/lib/date.ts:23 | The shifted date is valid exactly when (dt + timezoneOffset) * 1000 is in the time range, and its time value is that product. |
| DateFormat.MonthMap | src/lib/date.ts:2-5 | `monthMap[name]`; MonthMapNumbers and MonthMapRange state its values. |
| DateFormat.To12Hour | src/lib/date.ts:44-53 | The 12-hour reading of an hour; To12HourCorrect states its range, suffix and inverse. |
| DateFormat.ToUTCString | src/lib/date.ts:26 | `date.toUTCString()`; UtcDateTimeParts states the parts it splits into and FormatOutOfRange its `Invalid Date`. |
| DateFormat.DateTimeParts | src/lib/date.ts:30 | The split of the toUTCString text after its weekday, on spaces; DateTimePartsOfLayout states its result on the toUTCString layout. |
| DateFormat.Reassemble | src/lib/date.ts:31-55 | The try block from the parts on; ReassembleLayout states the text it builds. |
| DateFormat.ReformatUtcString | src/lib/date.ts:28-61 | The try block on a toUTCString text; ReformatUtcStringCorrect states that it succeeds with the display of the decomposed fields. |
| DateFormat.FormatTimeValue | src/lib/date.ts:23-61 | From `new Date` on; FormatShowsShiftedFields and FormatOutOfRange state its result in and out of range. |
| DateFormat.To12HourCorrect | src/lib/date.ts:41-53 | Hours 0..23 map to 1..12 with `am` before noon and `pm` from noon on (0 is `12am`, 12 is `12pm`, 13..23 are h-12 `pm`), and the 12-hour reading gives the hour back. |
| DateFormat.MonthMapNumbers | src/lib/date.ts:2-5 | `monthMap` maps the name of month m (0-based) to m + 1 written as two digits. |
| DateFormat.MonthMapRange | src/lib/date.ts:2-5 | Every value of `monthMap` is two digits between 01 and 12. |
| DateFormat.DateTimePartsOfLayout | src/lib/date.ts:29-30 | Splitting `W, d m y clock GMT` on `', '` and then on `' '` gives exactly `[d, m, y, clock, GMT]` when no part holds a separator. |
| DateFormat.ClockParts | src/lib/date.ts:35-36 | Splitting `hh:mm:ss` on `:` gives the three digit groups back. |
| DateFormat.ReassembleLayout | src/lib/date.ts:31-55 | From such parts the try block builds `day-month-year h:mm` with the month through `monthMap` and the hour on a 12-hour dial. |
| DateFormat.YearHasNoSeparator | src/lib/date.ts:30 | The year text of toUTCString never holds a comma or a space, so splitting cannot break it up. |
| DateFormat.UtcDateTimeParts | src/lib/date.ts:26-30 | The parts after the weekday of a toUTCString text are its two-digit day, month name, year, `HH:mm:ss` clock and `GMT`. |
| DateFormat.UtcReassembled | src/lib/date.ts:31-55 | Reassembling those parts gives the display of the decomposed fields. |
| DateFormat.ReformatUtcStringCorrect | src/lib/date.ts:26-56 | For every valid time value the try block succeeds and returns `dd-mm-yyyy h:mm` plus `am`/`pm`, from the day, month (01..12), year, hour on a 12-hour dial and two-digit minutes of its UTC fields; the seconds are dropped. |
| DateFormat.FormatShowsShiftedFields | src/lib/date.ts:16-56 | When the shifted instant is in range, getFormattedLocaleDateTime shows the UTC calendar fields of dt + timezoneOffset seconds in that layout. |
| DateFormat.FormatOutOfRange | src/lib/date.ts:26-61 | When the shifted instant is out of range, the result is toUTCString's `Invalid Date`, returned from the catch block instead of an exception. |
| JsString.DecimalString | src/lib/date.ts:55 | The decimal text of a natural number is digits without a leading zero whose value is the number. |
| JsString.ParseIntZeroPadded | src/lib/date.ts:37 | parseInt reads a zero-padded decimal back as its number. |
| JsString.Split | src/lib/date.ts:30-36 | Splitting gives at least one part, no part holds the separator, and joining the parts with the separator gives the string back. |
| JsString.SplitJoin | src/lib/date.ts:30-36 | Splitting parts joined by a separator they do not contain gives the parts back. |
| JsString.ContainsIff | src/lib/fetchApi.ts:89-91 | A pattern test for a literal text holds exactly when the text occurs at some position. |
| FetchApi.OrDefault | src/lib/fetchApi.ts:30-31 | A JavaScript `or` of an optional text and a fallback: the value when it is present and non-empty, else the fallback. |
| FetchApi.Humanised | src/lib/fetchApi.ts:30-31 | The shown text never holds an underscore; HumanisedFallback states that a fallback without underscores is shown as it is. |
| FetchApi.GetErrorData | src/lib/fetchApi.ts:26-34 | is_aborted is the argument, error_data is always set, and neither of its texts holds an underscore. |
| FetchApi.GetErrorDataDefaultTitle | src/lib/fetchApi.ts:30 | A missing or empty error gives GENERIC_ERROR_TITLE. |
| FetchApi.GetErrorDataDefaultDescription | src/lib/fetchApi.ts:31 | A missing or empty description gives GENERIC_ERROR_DESC. |
| FetchApi.GetErrorDataKeepsText | src/lib/fetchApi.ts:30 | A given error keeps its length and each character except that every `_` becomes a space; one without underscores is unchanged. |
| FetchApi.GetErrorDataKeepsDescription | src/lib/fetchApi.ts:31 | A given description keeps its length and each character except that every `_` becomes a space; one without underscores is unchanged. |
| FetchApi.GetErrorDataRecognised | src/lib/fetchApi.ts:26-43 | Every record getErrorData builds passes isApiErrorData, even when isAborted is omitted, and its is_aborted reads back as the argument. |
| FetchApi.IsApiErrorData | src/lib/fetchApi.ts:41-43 | `isApiErrorData`; GetErrorDataRecognised and GuardRejectsForeignValues state what it accepts and rejects. |
| FetchApi.GuardRejectsForeignValues | src/lib/fetchApi.ts:41-43 | isApiErrorData is false for every value that is not an object with an is_aborted property: a provider error body, a thrown Error, a string, null, undefined. |
| FetchApi.ApiErrorJs | src/lib/fetchApi.ts:108-126 | The object built for an error record always carries is_aborted, and carries error_data and is_error_html with their values when set. |
| FetchApi.ContentType | src/lib/fetchApi.ts:86 | The content type is the lower-cased header, or the empty text when there is none. |
| FetchApi.ReturnData | src/lib/fetchApi.ts:86-93 | The body read by content type; ApiSuccessIff, HtmlErrorPage, JsonErrorBody and UnknownContentTypeFails state its three cases. |
| FetchApi.TryBlock | src/lib/fetchApi.ts:86-104 | The try block; ApiSuccessIff states when it returns and what. |
| FetchApi.CatchBlock | src/lib/fetchApi.ts:105-128 | The catch block always sets is_aborted; AbortedSignalWins, AbortErrorIsAbort, ThrownStringIsHtmlError and OtherThrownBecomesErrorData state its three branches. |
| FetchApi.Api | src/lib/fetchApi.ts:63-130 | Every response has exactly one slot defined; a result is truthy; every error record passes isApiErrorData. |
| FetchApi.ApiSuccessIff | src/lib/fetchApi.ts:86-102 | A result is returned iff a response arrived with ok set and its body (JSON for an `application/json` type, text for `text/html`, otherwise undefined) was read and is truthy; the result is that body. |
| FetchApi.SuccessIgnoresSignal | src/lib/fetchApi.ts:95-107 | A successful call is returned whatever the abort signal says. |
| FetchApi.AbortedSignalWins | src/lib/fetchApi.ts:105-114 | Any failure while the signal is aborted gives `{is_aborted: true}` and nothing else, ahead of every other failure. |
| FetchApi.AbortErrorIsAbort | src/lib/fetchApi.ts:105-114 | Whenever a DOMException named AbortError reaches the catch block, from fetch or from reading the body, the call gives `{is_aborted: true}` and no result, whatever the signal says. |
| FetchApi.OtherThrownBecomesErrorData | src/lib/fetchApi.ts:116-128 | With the signal not aborted, any thrown value that is neither a string nor an AbortError DOMException becomes error_data unchanged, with is_aborted and is_error_html false. |
| FetchApi.ThrownStringIsHtmlError | src/lib/fetchApi.ts:116-128 | With the signal not aborted, a thrown string gives is_aborted false, is_error_html true and no error_data. |
| FetchApi.HtmlErrorPage | src/lib/fetchApi.ts:86-128 | With the signal not aborted, an HTML page with an error status gives an HTML error record. |
| FetchApi.JsonErrorBody | src/lib/fetchApi.ts:86-128 | With the signal not aborted, a JSON error body that is not a string becomes error_data unchanged, with is_aborted and is_error_html false. |
| FetchApi.UnknownContentTypeFails | src/lib/fetchApi.ts:89-128 | With the signal not aborted, a content type that is neither JSON nor HTML fails even with ok set, with error_data undefined. |
| FetchApi.ContentTypeCaseInsensitive | src/lib/fetchApi.ts:86-93 | The content type is compared case-insensitively: lower-casing the header first changes nothing. |
| GeoCoding.Prune | src/api/openWeatherMap/getGeoCoding.ts:33-38 | The pruned record; PruneKeepsExactlyFourFields states what it keeps. |
| GeoCoding.PruneKeepsExactlyFourFields | src/api/openWeatherMap/getGeoCoding.ts:33-37 | Two candidates prune to the same record iff they agree on name, lat, lon and country; nothing else is kept. |
| GeoCoding.GetGeoCoding | src/api/openWeatherMap/getGeoCoding.ts:28-50 | There is a result exactly when GET gave one, and a pair with one slot defined stays so. |
| GeoCoding.ErrorPassesThrough | src/api/openWeatherMap/getGeoCoding.ts:46-50 | A provider error is returned unchanged in the error slot. |
| GeoCoding.FirstCandidateKept | src/api/openWeatherMap/getGeoCoding.ts:32-38 | A non-empty list yields the first element's name, lat, lon and country. |
| GeoCoding.EmptyListIsNull | src/api/openWeatherMap/getGeoCoding.ts:33-40 | An empty list is a success carrying null, not an error. |
| GeoCoding.LaterCandidatesIgnored | src/api/openWeatherMap/getGeoCoding.ts:33-37 | Elements after the first never influence the result. |
| CurrentWeather.LocalSeconds | src/api/openWeatherMap/getCurrentWeather.ts:62 | local_dt is the client clock in whole seconds, floor(ms / 1000). |
| CurrentWeather.FirstWeather | src/api/openWeatherMap/getCurrentWeather.ts:50-52 | The weather summary is empty when the list is absent, the first entry's main, description and icon otherwise, and the expression throws exactly when the list is empty. |
| CurrentWeather.ReadingsOf | src/api/openWeatherMap/getCurrentWeather.ts:54-59 | `response.main?.x` for the four readings; SuccessCopiesFields, MissingBlocksGiveEmptyRecords and PruneKeepsExactlyTheseFields state what it copies. |
| CurrentWeather.Prune | src/api/openWeatherMap/getCurrentWeather.ts:48-63 | Pruning throws exactly for an empty weather list; otherwise dt, timezone and the four readings are copied and local_dt is the clock in seconds. |
| CurrentWeather.GetCurrentWeather | src/api/openWeatherMap/getCurrentWeather.ts:32-75 | The query it sends gives `lon` the first argument and `lat` the second. The call rejects exactly when a success carries an empty weather list; otherwise it has a result exactly when GET gave one, and a pair with one slot defined stays so. |
| CurrentWeather.ErrorPassesThrough | src/api/openWeatherMap/getCurrentWeather.ts:71-75 | A provider error is returned unchanged in the error slot. |
| CurrentWeather.SuccessCopiesFields | src/api/openWeatherMap/getCurrentWeather.ts:48-63 | On success the summary is the first weather entry's main, description and icon; temp, temp_min, temp_max, humidity, dt and timezone are copied; local_dt brackets the clock. |
| CurrentWeather.MissingBlocksGiveEmptyRecords | src/api/openWeatherMap/getCurrentWeather.ts:48-59 | A success always has weather and main sub-records, even when the provider omitted them; their fields are then undefined. |
| CurrentWeather.LocalDtIgnoresPayload | src/api/openWeatherMap/getCurrentWeather.ts:62 | local_dt depends on the clock only, never on the provider's dt or anything else in the payload. |
| CurrentWeather.PruneKeepsExactlyTheseFields | src/api/openWeatherMap/getCurrentWeather.ts:48-63 | Two payloads prune alike iff they agree on the first weather entry's three fields, the four readings, dt and timezone. |
| CurrentWeather.LaterEntriesIgnored | src/api/openWeatherMap/getCurrentWeather.ts:50-52 | Weather entries after the first never influence the result. |
| WeatherDisplay.ShownDateTimeAsWritten | src/lib/date.ts:16-20 | The date line of WeatherInfoCurrent.tsx and WeatherSearchHistoryList.tsx calls this formatter with a Date and no offset; the line is rendered exactly when dt is defined and non-zero. |
| WeatherDisplay.ShownDateTimeAsWrittenIsEmpty | src/lib/date.ts:20 | As written, the missing offset takes the early return, so a rendered date line is always the empty string. |
| WeatherDisplay.ShownDateTime | src/lib/date.ts:16-20 | Corrected to pass dt and timezone, the line is rendered exactly when dt is defined and non-zero, and is empty when timezone is missing; ShownDateTimeNonEmpty states that otherwise it is never empty. |
| WeatherDisplay.ShownDateTimeIsLocalTime | src/lib/date.ts:16-56 | Corrected, a reading with dt and timezone in range shows the calendar fields of dt + timezone seconds, and that text is never empty. |
| WeatherDisplay.ShownDateTimeNonEmpty | src/lib/date.ts:16-61 | Corrected, a rendered line whose reading has a timezone is never empty: the local date and time in range, `Invalid Date` out of range. |

## Left out

- The `fetch` call, request headers, `cache`, request-body construction (FormData or JSON) and `AbortController` signalling are network I/O. `FetchApi.Api` instead takes an abstract outcome: fetch rejected, or a response with its ok flag and content-type header, plus how reading the body as JSON or as text would settle. It also takes the state of the abort signal when the error is caught.
- URL building with the API key from `import.meta.env` and number-to-text interpolation (src/api/openWeatherMap/getGeoCoding.ts:27, src/api/openWeatherMap/getCurrentWeather.ts:37-39) is left out. Only which coordinate goes to which query key is modelled.
- The type casts of the source are trusted. `GeoCoding` and `CurrentWeather` take payloads of the declared shapes. What the app does with JSON of another shape (a string where a list is declared, say) is not modelled.
- `CurrentWeather.LocalSeconds`: `Date.now()` is a parameter in milliseconds, and `* 0.001` is modelled as exact division. A double rounding the product up to the next whole second is not modelled.
- `DateFormat.FormatLocaleDateTime`: dt and timezoneOffset are whole seconds (`int`). Fractional seconds, NaN and infinite JavaScript numbers are not modelled.
- `FetchApi.Truthy`: numbers are exact reals, so NaN (which JSON cannot produce) is not modelled.
- `JsString.ParseInt` reads an optional sign and a run of decimal digits. Leading whitespace, hexadecimal prefixes and other radixes are not modelled, because the text the code parses never holds them.
- `JsString.ToLowerAscii` lower-cases ASCII letters only; the full Unicode case mapping of `toLowerCase` is not modelled.
- `EcmaTime.Compose` builds dates from months 0..11 only, which is all the formatter needs. MakeDay's month carry is not modelled.
- `console.error` in the catch block of src/lib/date.ts is output only and is not modelled.
- The JSDoc of `getErrorData` documents a default of `false` for isAborted, but the code passes the argument through unchanged (possibly undefined). The model follows the code.
- src/lib/weatherHistoryLocalStorage.ts, the React contexts, hooks and components (apart from the date line of WeatherInfoCurrent.tsx and WeatherSearchHistoryList.tsx), and the app bootstrap are not part of this model.
- `DateFormat.MonthMap` reads every name other than the twelve month names as undefined. Names inherited from `Object.prototype` are left out, because a toUTCString text never puts them in the month position.

## Findings

| source | as written | input that shows it | evidently intended | confidence | as-written member | corrected member |
|---|---|---|---|---|---|---|
| src/app/weather/(components)/WeatherInfoCurrent/WeatherInfoCurrent.tsx:35-39 | `getFormattedLocaleDateTime(new Date(dt * 1000))` passes a Date and no timezone offset; WeatherSearchHistoryList.tsx:49-53 does the same. By src/lib/date.ts:20 the result is always `''`. | A reading with dt 1733958292 and timezone 28800 renders an empty line. | `getFormattedLocaleDateTime(dt, timezone)`, which shows `12-12-2024 7:04am` for that reading. | not executed | WeatherDisplay.ShownDateTimeAsWrittenIsEmpty | WeatherDisplay.ShownDateTimeIsLocalTime |
