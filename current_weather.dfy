/**
 * getCurrentWeather after its GET call: the provider's payload reduced to
 * the first weather entry, four readings, dt and timezone, stamped with the
 * client clock in whole seconds; an error is handed on as it came.
 */
module CurrentWeather {
  import opened Common
  import opened FetchApi

  // ---------------------------------------------------------------------
  // The provider's payload
  // ---------------------------------------------------------------------

  /** One element of the weather list (id is one of the properties dropped). */
  datatype WeatherEntry = WeatherEntry(main: Option<string>, description: Option<string>, icon: Option<string>, id: Option<int>)

  /** The main block (feels_like and pressure are dropped). */
  datatype MainBlock = MainBlock(
    temp: Option<real>, tempMin: Option<real>, tempMax: Option<real>, humidity: Option<real>,
    feelsLike: Option<real>, pressure: Option<real>)

  /** CurrentWeatherApiData, plus the city name the app does not keep. */
  datatype CurrentWeatherApiData = CurrentWeatherApiData(
    weather: Option<seq<WeatherEntry>>, main: Option<MainBlock>,
    dt: Option<int>, timezone: Option<int>, name: Option<string>)

  // ---------------------------------------------------------------------
  // The pruned record
  // ---------------------------------------------------------------------

  datatype WeatherSummary = WeatherSummary(main: Option<string>, description: Option<string>, icon: Option<string>)

  datatype Readings = Readings(temp: Option<real>, tempMin: Option<real>, tempMax: Option<real>, humidity: Option<real>)

  /**
   * CurrentWeatherData as getCurrentWeather builds it: the weather and main
   * objects and local_dt are always written, so they are not optional here.
   */
  datatype CurrentWeatherData = CurrentWeatherData(
    weather: WeatherSummary, main: Readings, dt: Option<int>, timezone: Option<int>, localDt: int)

  /** The value the query string gives a key: the first pair with that key, if any. */
  function QueryValue(q: seq<(string, real)>, key: string): (v: Option<real>)
    ensures v.Some? <==> exists i :: 0 <= i < |q| && q[i].0 == key
    ensures v.Some? ==> exists i :: 0 <= i < |q| && q[i] == (key, v.value)
  {
    if |q| == 0 then None
    else if q[0].0 == key then Some(q[0].1)
    else
      var v := QueryValue(q[1..], key);
      assert forall i :: 0 < i < |q| ==> q[i] == q[1..][i - 1];
      v
  }

  /**
   * One call of getCurrentWeather: the coordinates of the query string it
   * requests and the promise it settles to.
   */
  datatype WeatherCall<E> = WeatherCall(query: seq<(string, real)>, outcome: Settled<Response<CurrentWeatherData, E>>)

  /** Math.floor(Date.now() * 0.001) for a clock reading in milliseconds. */
  function LocalSeconds(nowMs: int): (s: int)
    ensures s * 1000 <= nowMs < s * 1000 + 1000
  {
    nowMs / 1000
  }

  /**
   * `response.weather?.[0]`: no entry when the list is absent, Rejected
   * (reading `.main` of undefined) when it is empty, else the first entry.
   */
  function FirstWeather(weather: Option<seq<WeatherEntry>>): (s: Settled<WeatherSummary>)
    ensures s.Rejected? <==> weather == Some([])
    ensures weather.None? ==> s == Fulfilled(WeatherSummary(None, None, None))
    ensures weather.Some? && |weather.value| > 0 ==>
      s == Fulfilled(WeatherSummary(weather.value[0].main, weather.value[0].description, weather.value[0].icon))
  {
    if weather.None? then Fulfilled(WeatherSummary(None, None, None))
    else if |weather.value| == 0 then Rejected(ErrorObject(false, "TypeError"))
    else
      var w := weather.value[0];
      Fulfilled(WeatherSummary(w.main, w.description, w.icon))
  }

  /** `response.main?.x` for the four readings. */
  function ReadingsOf(main: Option<MainBlock>): Readings {
    if main.None? then Readings(None, None, None, None)
    else Readings(main.value.temp, main.value.tempMin, main.value.tempMax, main.value.humidity)
  }

  /** The object literal prunedWeatherData, or the TypeError its construction throws. */
  function Prune(response: CurrentWeatherApiData, nowMs: int): (s: Settled<CurrentWeatherData>)
    ensures s.Rejected? <==> response.weather == Some([])
    ensures s.Fulfilled? ==>
      s.value.dt == response.dt && s.value.timezone == response.timezone &&
      s.value.main == ReadingsOf(response.main) && s.value.localDt == LocalSeconds(nowMs)
  {
    var weather := FirstWeather(response.weather);
    if weather.Rejected? then Rejected(weather.thrown)
    else Fulfilled(CurrentWeatherData(weather.value, ReadingsOf(response.main), response.dt, response.timezone, LocalSeconds(nowMs)))
  }

  /**
   * getCurrentWeather(lon, lat) given the pair its GET call returned and the
   * clock reading nowMs: the query it sends (lon first, then lat) and the
   * promise it settles to.
   */
  function GetCurrentWeather<E>(lon: real, lat: real, response: Response<CurrentWeatherApiData, E>, nowMs: int): (c: WeatherCall<E>)
    ensures QueryValue(c.query, "lon") == Some(lon) && QueryValue(c.query, "lat") == Some(lat)
    ensures c.outcome.Rejected? <==> response.resultSlot.Some? && response.resultSlot.value.weather == Some([])
    ensures c.outcome.Fulfilled? ==> (c.outcome.value.resultSlot.Some? <==> response.resultSlot.Some?)
    ensures c.outcome.Fulfilled? && ExactlyOneSlot(response) ==> ExactlyOneSlot(c.outcome.value)
  {
    var query := [("lon", lon), ("lat", lat)];
    if response.resultSlot.Some? then
      var pruned := Prune(response.resultSlot.value, nowMs);
      if pruned.Rejected? then WeatherCall(query, Rejected(pruned.thrown))
      else WeatherCall(query, Fulfilled(Response(None, Some(pruned.value))))
    else
      WeatherCall(query, Fulfilled(Response(response.errorSlot, None)))
  }

  /** A provider error comes back unchanged in the error slot. */
  lemma ErrorPassesThrough<E>(lon: real, lat: real, error: ApiErrorData<E>, nowMs: int)
    ensures GetCurrentWeather(lon, lat, Response(Some(error), None), nowMs).outcome == Fulfilled(Response(Some(error), None))
  {
  }

  /**
   * On success the summary is the first weather entry's main, description
   * and icon, the four readings and dt and timezone are copied, and
   * local_dt is the clock in whole seconds.
   */
  lemma SuccessCopiesFields<E>(lon: real, lat: real, payload: CurrentWeatherApiData, nowMs: int)
    requires payload.weather.Some? && |payload.weather.value| > 0
    ensures var s := GetCurrentWeather<E>(lon, lat, Response(None, Some(payload)), nowMs).outcome;
      s.Fulfilled? && s.value.resultSlot.Some? &&
      var d := s.value.resultSlot.value;
      var w := payload.weather.value[0];
      d.weather == WeatherSummary(w.main, w.description, w.icon) &&
      (payload.main.Some? ==>
        d.main == Readings(payload.main.value.temp, payload.main.value.tempMin,
                           payload.main.value.tempMax, payload.main.value.humidity)) &&
      d.dt == payload.dt && d.timezone == payload.timezone &&
      d.localDt * 1000 <= nowMs < d.localDt * 1000 + 1000
  {
  }

  /** Missing weather and main blocks still give both sub-records, with every field undefined. */
  lemma MissingBlocksGiveEmptyRecords<E>(lon: real, lat: real, dt: Option<int>, timezone: Option<int>, name: Option<string>, nowMs: int)
    ensures var s := GetCurrentWeather<E>(lon, lat, Response(None, Some(CurrentWeatherApiData(None, None, dt, timezone, name))), nowMs).outcome;
      s.Fulfilled? && s.value.resultSlot.Some? &&
      s.value.resultSlot.value.weather == WeatherSummary(None, None, None) &&
      s.value.resultSlot.value.main == Readings(None, None, None, None)
  {
  }

  /** local_dt depends on the clock only: never on the provider's dt or on anything else in the payload. */
  lemma LocalDtIgnoresPayload(a: CurrentWeatherApiData, b: CurrentWeatherApiData, nowMs: int)
    requires Prune(a, nowMs).Fulfilled? && Prune(b, nowMs).Fulfilled?
    ensures Prune(a, nowMs).value.localDt == Prune(b, nowMs).value.localDt
  {
  }

  /** Two payloads prune alike exactly when they agree on what is kept. */
  lemma PruneKeepsExactlyTheseFields(a: CurrentWeatherApiData, b: CurrentWeatherApiData, nowMs: int)
    requires a.weather != Some([]) && b.weather != Some([])
    ensures Prune(a, nowMs) == Prune(b, nowMs) <==>
      FirstWeather(a.weather) == FirstWeather(b.weather) &&
      ReadingsOf(a.main) == ReadingsOf(b.main) &&
      a.dt == b.dt && a.timezone == b.timezone
  {
  }

  /** Weather entries after the first never influence the result. */
  lemma LaterEntriesIgnored(payload: CurrentWeatherApiData, first: WeatherEntry, rest: seq<WeatherEntry>, nowMs: int)
    ensures Prune(payload.(weather := Some([first] + rest)), nowMs)
      == Prune(payload.(weather := Some([first])), nowMs)
  {
  }
}
