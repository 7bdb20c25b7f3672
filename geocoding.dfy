/**
 * getGeoCoding after its GET call: the first candidate of the provider's
 * list, reduced to name, lat, lon and country, or null for an empty list;
 * an error is handed on as it came.
 */
module GeoCoding {
  import opened Common
  import opened FetchApi

  /**
   * One element of the provider's list: the four properties the app reads
   * and two of the properties it throws away.
   */
  datatype GeoCandidate = GeoCandidate(
    name: Option<string>, lat: Option<real>, lon: Option<real>, country: Option<string>,
    state: Option<string>, localNames: map<string, string>)

  /** The pruned record. */
  datatype Location = Location(name: Option<string>, lat: Option<real>, lon: Option<real>, country: Option<string>)

  /** GeoCodingData: a location, or null (None) when nothing matched. */
  type GeoCodingData = Option<Location>

  /** The object literal built from response[0]. */
  function Prune(c: GeoCandidate): Location {
    Location(c.name, c.lat, c.lon, c.country)
  }

  /** Two candidates prune to the same record exactly when they agree on the four kept properties. */
  lemma PruneKeepsExactlyFourFields(a: GeoCandidate, b: GeoCandidate)
    ensures Prune(a) == Prune(b) <==>
      a.name == b.name && a.lat == b.lat && a.lon == b.lon && a.country == b.country
  {
  }

  /**
   * getGeoCoding on the pair GET returned. A list is truthy even when
   * empty, so any result goes down the success branch.
   */
  function GetGeoCoding<E>(response: Response<seq<GeoCandidate>, E>): (r: Response<GeoCodingData, E>)
    ensures r.resultSlot.Some? <==> response.resultSlot.Some?
    ensures ExactlyOneSlot(response) ==> ExactlyOneSlot(r)
  {
    if response.resultSlot.Some? then
      var candidates := response.resultSlot.value;
      Response(None, Some(if |candidates| > 0 then Some(Prune(candidates[0])) else None))
    else
      Response(response.errorSlot, None)
  }

  /** A provider error comes back unchanged in the error slot. */
  lemma ErrorPassesThrough<E>(error: ApiErrorData<E>)
    ensures GetGeoCoding(Response(Some(error), None)) == Response(Some(error), None)
  {
  }

  /** A non-empty list yields the first candidate's name, lat, lon and country. */
  lemma FirstCandidateKept<E>(error: Option<ApiErrorData<E>>, candidates: seq<GeoCandidate>)
    requires |candidates| > 0
    ensures var r := GetGeoCoding(Response(error, Some(candidates)));
      r.errorSlot.None? && r.resultSlot.Some? && r.resultSlot.value.Some? &&
      var l := r.resultSlot.value.value;
      l.name == candidates[0].name && l.lat == candidates[0].lat &&
      l.lon == candidates[0].lon && l.country == candidates[0].country
  {
  }

  /** An empty list is a success carrying null, not an error. */
  lemma EmptyListIsNull<E>(error: Option<ApiErrorData<E>>)
    ensures GetGeoCoding(Response(error, Some([]))) == Response(None, Some(None))
  {
  }

  /** Candidates after the first never influence the result. */
  lemma LaterCandidatesIgnored<E>(error: Option<ApiErrorData<E>>, first: GeoCandidate, rest: seq<GeoCandidate>)
    ensures GetGeoCoding(Response(error, Some([first] + rest)))
      == GetGeoCoding(Response(error, Some([first])))
  {
  }
}
