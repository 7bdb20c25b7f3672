/**
 * The search-query validator of src/api/openWeatherMap/openWeatherMapHelpers.ts,
 * the regular expression  ^[a-zA-Z ]+(?<=\S)(?:,[a-zA-Z]{2})?$
 * written as a hand-made recogniser over characters.
 */
module QueryValidator {

  predicate IsAsciiLetter(c: char) {
    ('a' <= c <= 'z') || ('A' <= c <= 'Z')
  }

  /** The class [a-zA-Z ] of the city part. */
  predicate IsCityChar(c: char) {
    IsAsciiLetter(c) || c == ' '
  }

  /**
   * Scans the city part from position i. `lastIsLetter` tells whether the
   * character before i is a letter (the look-behind (?<=\S): inside the city
   * part, the only non-whitespace characters are letters). The city ends at
   * the end of the input or at the first comma, which must be followed by
   * exactly two letters.
   */
  predicate ScanCity(s: string, i: nat, lastIsLetter: bool)
    requires i <= |s|
    decreases |s| - i
  {
    if i == |s| then lastIsLetter
    else if IsCityChar(s[i]) then ScanCity(s, i + 1, IsAsciiLetter(s[i]))
    else s[i] == ',' && lastIsLetter && IsCountryCode(s[i + 1..])
  }

  /** [a-zA-Z]{2} up to the end of the input. */
  predicate IsCountryCode(t: string) {
    |t| == 2 && IsAsciiLetter(t[0]) && IsAsciiLetter(t[1])
  }

  /** OPEN_WEATHER_QUERY_REGEX.test(s) */
  predicate ValidQuery(s: string) {
    ScanCity(s, 0, false)
  }

  // ---------------------------------------------------------------------
  // Reference reading of the regular expression: the input splits into a
  // city part and an optional country suffix.
  // ---------------------------------------------------------------------

  /** [a-zA-Z ]+ whose last character is not whitespace. */
  predicate IsCityPart(c: string) {
    |c| > 0
    && (forall j :: 0 <= j < |c| ==> IsCityChar(c[j]))
    && IsAsciiLetter(c[|c| - 1])
  }

  /** (?:,[a-zA-Z]{2})? followed by the end of the input. */
  predicate IsCountrySuffix(t: string) {
    t == [] || (|t| == 3 && t[0] == ',' && IsCountryCode(t[1..]))
  }

  predicate IsSplitAt(s: string, k: nat)
    requires k <= |s|
  {
    IsCityPart(s[..k]) && IsCountrySuffix(s[k..])
  }

  predicate MatchesPattern(s: string) {
    exists k: nat :: k <= |s| && IsSplitAt(s, k)
  }

  /** What a valid split says about the characters of the input. */
  lemma SplitFacts(s: string, k: nat)
    requires k <= |s| && IsSplitAt(s, k)
    ensures 0 < k
    ensures forall j :: 0 <= j < k ==> IsCityChar(s[j])
    ensures IsAsciiLetter(s[k - 1])
    ensures k < |s| ==> |s| == k + 3 && s[k] == ',' && IsCountryCode(s[k + 1..])
  {
    assert forall j :: 0 <= j < k ==> s[..k][j] == s[j];
    if k < |s| {
      assert s[k..][0] == s[k];
      assert s[k..][1..] == s[k + 1..];
    }
  }

  lemma {:induction false} ScanCityCorrect(s: string, i: nat, lastIsLetter: bool)
    requires i <= |s|
    requires forall j :: 0 <= j < i ==> IsCityChar(s[j])
    requires lastIsLetter == (i > 0 && IsAsciiLetter(s[i - 1]))
    ensures ScanCity(s, i, lastIsLetter) <==> MatchesPattern(s)
    decreases |s| - i
  {
    if MatchesPattern(s) {
      var k: nat :| k <= |s| && IsSplitAt(s, k);
      SplitFacts(s, k);
    }
    if i == |s| {
      if lastIsLetter {
        assert s[..i] == s;
        assert IsSplitAt(s, i);
      }
    } else if IsCityChar(s[i]) {
      ScanCityCorrect(s, i + 1, IsAsciiLetter(s[i]));
    } else if s[i] == ',' && lastIsLetter && IsCountryCode(s[i + 1..]) {
      assert s[i..][1..] == s[i + 1..];
      assert IsSplitAt(s, i);
    }
  }

  /** The recogniser accepts exactly the inputs the regular expression matches. */
  lemma ValidQueryMatchesPattern(s: string)
    ensures ValidQuery(s) <==> MatchesPattern(s)
  {
    ScanCityCorrect(s, 0, false);
  }

  // ---------------------------------------------------------------------
  // The facts the comments in openWeatherMapHelpers.ts claim.
  // ---------------------------------------------------------------------

  /** A city of letters and spaces ending in a letter is accepted, alone or followed by ",cc". */
  lemma CityAndCountryAccepted(city: string, cc: string)
    requires IsCityPart(city)
    ensures ValidQuery(city)
    ensures IsCountryCode(cc) ==> ValidQuery(city + [','] + cc)
  {
    var s := city + [','] + cc;
    assert city[..|city|] == city;
    assert IsSplitAt(city, |city|);
    ValidQueryMatchesPattern(city);
    if IsCountryCode(cc) {
      assert s[..|city|] == city;
      assert s[|city|..] == [','] + cc;
      assert IsSplitAt(s, |city|);
      ValidQueryMatchesPattern(s);
    }
  }

  /**
   * Every accepted query ends in a letter: the empty string, all-space
   * strings, a city ending in a space ("london ") and a dangling comma
   * ("london,") are all rejected.
   */
  lemma AcceptedEndsWithLetter(s: string)
    requires ValidQuery(s)
    ensures |s| > 0 && IsAsciiLetter(s[|s| - 1])
  {
    ValidQueryMatchesPattern(s);
    var k: nat :| k <= |s| && IsSplitAt(s, k);
    SplitFacts(s, k);
  }

  /** Digits, punctuation other than the comma, and non-ASCII letters never appear in an accepted query. */
  lemma AcceptedAlphabet(s: string)
    requires ValidQuery(s)
    ensures forall j :: 0 <= j < |s| ==> IsCityChar(s[j]) || s[j] == ','
  {
    ValidQueryMatchesPattern(s);
    var k: nat :| k <= |s| && IsSplitAt(s, k);
    SplitFacts(s, k);
  }

  /**
   * A comma in an accepted query is the only one: it directly follows a
   * letter (so " ,CN" and "london ,gb" are rejected) and is followed by
   * exactly two letters (so "london,gbr" is rejected).
   */
  lemma AcceptedCommaShape(s: string, i: nat)
    requires ValidQuery(s)
    requires i < |s| && s[i] == ','
    ensures 0 < i && IsAsciiLetter(s[i - 1])
    ensures i == |s| - 3 && IsCountryCode(s[i + 1..])
    ensures forall j :: 0 <= j < |s| && j != i ==> s[j] != ','
  {
    ValidQueryMatchesPattern(s);
    var k: nat :| k <= |s| && IsSplitAt(s, k);
    SplitFacts(s, k);
  }

  /** Only the last city character is constrained: leading spaces are accepted. */
  lemma LeadingSpaceAccepted(s: string)
    requires ValidQuery(s)
    ensures ValidQuery([' '] + s)
  {
    ValidQueryMatchesPattern(s);
    var k: nat :| k <= |s| && IsSplitAt(s, k);
    SplitFacts(s, k);
    var t := [' '] + s;
    assert t[..k + 1] == [' '] + s[..k];
    assert t[k + 1..] == s[k..];
    assert IsSplitAt(t, k + 1);
    ValidQueryMatchesPattern(t);
  }

  /** The examples of the source comments and of the input hook. */
  lemma DocumentedExamples()
    ensures ValidQuery("london") && ValidQuery("london,gb") && ValidQuery(" london")
    ensures ValidQuery("Paris,FR")
    ensures !ValidQuery("") && !ValidQuery("   ")
    ensures !ValidQuery(" ,CN") && !ValidQuery("london ") && !ValidQuery("london ,gb")
    ensures !ValidQuery("london,") && !ValidQuery("london,gbr") && !ValidQuery("london,g")
    ensures !ValidQuery("Paris FR!") && !ValidQuery("london2")
  {
    CityAndCountryAccepted("london", "gb");
    CityAndCountryAccepted("Paris", "FR");
    LeadingSpaceAccepted("london");
    assert [' '] + "london" == " london";
    assert "london" + [','] + "gb" == "london,gb";
    assert "Paris" + [','] + "FR" == "Paris,FR";
    if ValidQuery("   ") { AcceptedEndsWithLetter("   "); }
    if ValidQuery("") { AcceptedEndsWithLetter(""); }
    if ValidQuery("london ") { AcceptedEndsWithLetter("london "); }
    if ValidQuery("london,") { AcceptedEndsWithLetter("london,"); }
    if ValidQuery("london ,gb") { AcceptedCommaShape("london ,gb", 7); }
    if ValidQuery("london,gbr") { AcceptedCommaShape("london,gbr", 6); }
    if ValidQuery("london,g") { AcceptedCommaShape("london,g", 6); }
    if ValidQuery("Paris FR!") { AcceptedEndsWithLetter("Paris FR!"); }
    if ValidQuery("london2") { AcceptedEndsWithLetter("london2"); }
  }
}
