/** `WeatherViewModel`: the weather-code labels, the six-city coordinate
    table, and the newest-first list that `fetchWeather` maintains. The
    HTTP call is not modelled; its outcome is a parameter. */
module Weather {
  import opened Wrappers
  import opened Platform

  /** The numeric fields of an entry (temperature and wind speed are
      `Double`, humidity is `Int`). The model only carries them along. */
  datatype Reading = Reading(temperature: real, humidity: int, windSpeed: real)

  /** The data-class defaults, which loading and error entries keep. */
  const NoReading: Reading := Reading(0.0, 0, 0.0)

  /** One card of the weather screen. `error` is `null` on success and on
      a loading entry. */
  datatype WeatherData = WeatherData(
    city: string,
    reading: Reading,
    description: string,
    isLoading: bool,
    error: Option<string>
  )

  const CityNotFound: string :=
    "City not found. Try London, New York, Tokyo, Paris, Berlin or Rome."

  // ---------------------------------------------------------------------
  // getWeatherDescription

  /** The labels the app knows, by WMO weather interpretation code. */
  const WmoLabels: map<int, string> := map[
    0 := "Clear sky",
    1 := "Partly cloudy", 2 := "Partly cloudy", 3 := "Partly cloudy",
    45 := "Fog", 48 := "Fog",
    51 := "Drizzle", 53 := "Drizzle", 55 := "Drizzle",
    61 := "Rain", 63 := "Rain", 65 := "Rain",
    71 := "Snow", 73 := "Snow", 75 := "Snow",
    77 := "Snow grains",
    80 := "Rain showers", 81 := "Rain showers", 82 := "Rain showers",
    85 := "Snow showers", 86 := "Snow showers",
    95 := "Thunderstorm", 96 := "Thunderstorm", 99 := "Thunderstorm"
  ]

  /** `getWeatherDescription(code)`: the listed label for a listed code,
      "Unknown" for every other integer. */
  function WeatherDescription(code: int): (text: string)
    ensures code in WmoLabels ==> text == WmoLabels[code]
    ensures code !in WmoLabels ==> text == "Unknown"
  {
    if code == 0 then "Clear sky"
    else if code == 1 || code == 2 || code == 3 then "Partly cloudy"
    else if code == 45 || code == 48 then "Fog"
    else if code == 51 || code == 53 || code == 55 then "Drizzle"
    else if code == 61 || code == 63 || code == 65 then "Rain"
    else if code == 71 || code == 73 || code == 75 then "Snow"
    else if code == 77 then "Snow grains"
    else if code == 80 || code == 81 || code == 82 then "Rain showers"
    else if code == 85 || code == 86 then "Snow showers"
    else if code == 95 || code == 96 || code == 99 then "Thunderstorm"
    else "Unknown"
  }

  /** "Unknown" is never the label of a listed code, only 0 is "Clear sky",
      and 1, 2 and 3 share "Partly cloudy", so the mapping is not
      injective. */
  lemma DescriptionFacts(code: int)
    ensures WeatherDescription(code) == "Unknown" <==> code !in WmoLabels
    ensures WeatherDescription(code) == "Clear sky" <==> code == 0
    ensures WeatherDescription(code) == "Partly cloudy" <==> 1 <= code <= 3
    ensures WeatherDescription(1) == WeatherDescription(2) == WeatherDescription(3)
  {
    if code in WmoLabels {
      assert WmoLabels[code] != "Unknown";
    }
  }

  // ---------------------------------------------------------------------
  // getCityCoordinates

  datatype KnownCity = London | NewYork | Tokyo | Paris | Berlin | Rome

  /** The lower-case spelling each city is matched by. */
  function Key(k: KnownCity): string {
    match k
    case London => "london"
    case NewYork => "new york"
    case Tokyo => "tokyo"
    case Paris => "paris"
    case Berlin => "berlin"
    case Rome => "rome"
  }

  function Coordinates(k: KnownCity): (real, real) {
    match k
    case London => (51.5074, -0.1278)
    case NewYork => (40.7128, -74.0060)
    case Tokyo => (35.6762, 139.6503)
    case Paris => (48.8566, 2.3522)
    case Berlin => (52.5200, 13.4050)
    case Rome => (41.9028, 12.4964)
  }

  /** The "not found" answer. */
  const Sentinel: (real, real) := (0.0, 0.0)

  /** `getCityCoordinates(city)`: the input is lower-cased (not trimmed) and
      compared with the six keys. No city sits at (0, 0), so the sentinel
      comes back exactly for the inputs that match no key. */
  function GetCityCoordinates(lib: Library, city: string): (p: (real, real))
    ensures p == Sentinel <==> forall k :: lib.lowercase(city) != Key(k)
    ensures forall k :: lib.lowercase(city) == Key(k) ==> p == Coordinates(k)
  {
    var key := lib.lowercase(city);
    assert Key(London) == "london" && Key(NewYork) == "new york" && Key(Tokyo) == "tokyo";
    assert Key(Paris) == "paris" && Key(Berlin) == "berlin" && Key(Rome) == "rome";
    if key == "london" then (51.5074, -0.1278)
    else if key == "new york" then (40.7128, -74.0060)
    else if key == "tokyo" then (35.6762, 139.6503)
    else if key == "paris" then (48.8566, 2.3522)
    else if key == "berlin" then (52.5200, 13.4050)
    else if key == "rome" then (41.9028, 12.4964)
    else (0.0, 0.0)
  }

  /** The test `fetchWeather` applies to the coordinates. */
  predicate Found(lib: Library, city: string)
    ensures Found(lib, city) <==> exists k :: lib.lowercase(city) == Key(k)
  {
    var p := GetCityCoordinates(lib, city);
    !(p.0 == 0.0 && p.1 == 0.0)
  }

  lemma LowercaseOfAscii(lib: Library, s: string, key: string)
    requires AsciiLowercase(lib) && IsAscii(s)
    requires |key| == |s| && forall i :: 0 <= i < |s| ==> AsciiLowerChar(s[i]) == key[i]
    ensures lib.lowercase(s) == key
  {
    assert AsciiLower(s) == key;
  }

  /** With the documented behaviour of `lowercase()` on ASCII, the lookup
      ignores case but not surrounding spaces. */
  lemma LookupIgnoresCaseButNotSpaces(lib: Library)
    requires AsciiLowercase(lib)
    ensures Found(lib, "London") && Found(lib, "LONDON") && Found(lib, "new YORK")
    ensures !Found(lib, " London") && !Found(lib, "London ")
  {
    LowercaseOfAscii(lib, "London", "london");
    LowercaseOfAscii(lib, "LONDON", "london");
    LowercaseOfAscii(lib, "new YORK", "new york");
    LowercaseOfAscii(lib, " London", " london");
    LowercaseOfAscii(lib, "London ", "london ");
  }

  // ---------------------------------------------------------------------
  // The list updates inside fetchWeather

  /** `b` is `a` with some entries dropped, the rest in their order. */
  predicate IsSubsequence<T(==)>(b: seq<T>, a: seq<T>)
    decreases |a|
  {
    if |b| == 0 then true
    else if |a| == 0 then false
    else if b[0] == a[0] then IsSubsequence(b[1..], a[1..])
    else IsSubsequence(b, a[1..])
  }

  predicate SameCity(lib: Library, d: WeatherData, city: string) {
    EqualsIgnoreCase(lib, d.city, city)
  }

  /** `filterNot { d -> d.city.equals(city, ignoreCase = true) }`. */
  function RemoveCity(lib: Library, list: seq<WeatherData>, city: string): (r: seq<WeatherData>)
    ensures IsSubsequence(r, list)
    ensures forall e :: e in r ==> !SameCity(lib, e, city)
    ensures forall e :: e in list && !SameCity(lib, e, city) ==> e in r
    ensures (forall e :: e in list ==> !SameCity(lib, e, city)) ==> r == list
    ensures forall e :: !SameCity(lib, e, city) ==> multiset(r)[e] == multiset(list)[e]
  {
    if |list| == 0 then []
    else
      var rest := RemoveCity(lib, list[1..], city);
      assert list == [list[0]] + list[1..];
      assert multiset(list) == multiset{list[0]} + multiset(list[1..]);
      if SameCity(lib, list[0], city) then rest
      else
        var r := [list[0]] + rest;
        assert r[0] == list[0] && r[1..] == rest;
        assert multiset(r) == multiset{list[0]} + multiset(rest);
        r
  }

  /** The filter works piecewise, which with the contract above pins it
      down as "keep the non-matching entries, in order". */
  lemma {:induction false} RemoveCityDistributes(lib: Library, a: seq<WeatherData>, b: seq<WeatherData>, city: string)
    ensures RemoveCity(lib, a + b, city) == RemoveCity(lib, a, city) + RemoveCity(lib, b, city)
    decreases |a|
  {
    if |a| == 0 {
      assert a + b == b;
    } else {
      assert (a + b)[1..] == a[1..] + b;
      RemoveCityDistributes(lib, a[1..], b, city);
    }
  }

  /** Unknown city: one error entry in front of the whole old list. */
  function RecordUnknownCity(list: seq<WeatherData>, city: string): (r: seq<WeatherData>)
    ensures |r| == |list| + 1 && r[1..] == list
    ensures r[0].city == city && !r[0].isLoading && r[0].error == Some(CityNotFound)
  {
    [WeatherData(city, NoReading, "", false, Some(CityNotFound))] + list
  }

  /** Known city, first update: a loading entry replaces every entry for the
      city. */
  function StartLoading(lib: Library, list: seq<WeatherData>, city: string): (r: seq<WeatherData>)
    ensures |r| >= 1 && r[0] == WeatherData(city, NoReading, "", true, None)
    ensures r[1..] == RemoveCity(lib, list, city)
    ensures IsSubsequence(r[1..], list)
    ensures forall i :: 1 <= i < |r| ==> !SameCity(lib, r[i], city)
    ensures forall e :: e in list && !SameCity(lib, e, city) ==> e in r[1..]
  {
    var rest := RemoveCity(lib, list, city);
    var r := [WeatherData(city, NoReading, "", true, None)] + rest;
    assert r[1..] == rest;
    r
  }

  /** What the network call produced: the decoded `current` block, or an
      exception with its `localizedMessage` (which may be null). */
  datatype FetchOutcome =
    | Fetched(reading: Reading, weatherCode: int)
    | Failed(message: Option<string>)

  /** Known city, second update: the result or the error replaces every
      entry for the city (including the loading entry). */
  function Complete(lib: Library, list: seq<WeatherData>, city: string, outcome: FetchOutcome): (r: seq<WeatherData>)
    ensures |r| >= 1 && r[0].city == city && !r[0].isLoading
    ensures r[0].error.None? <==> outcome.Fetched?
    ensures outcome.Fetched? ==>
              r[0].reading == outcome.reading && r[0].description == WeatherDescription(outcome.weatherCode)
    ensures outcome.Failed? ==>
              r[0].reading == NoReading && r[0].error == Some("Error: " + outcome.message.GetOr("null"))
    ensures r[1..] == RemoveCity(lib, list, city)
    ensures IsSubsequence(r[1..], list)
    ensures forall i :: 1 <= i < |r| ==> !SameCity(lib, r[i], city)
    ensures forall e :: e in list && !SameCity(lib, e, city) ==> e in r[1..]
  {
    var entry := match outcome
      case Fetched(reading, code) =>
        WeatherData(city, reading, WeatherDescription(code), false, None)
      case Failed(message) =>
        WeatherData(city, NoReading, "", false, Some("Error: " + message.GetOr("null")));
    var rest := RemoveCity(lib, list, city);
    var r := [entry] + rest;
    assert r[1..] == rest;
    r
  }

  /** How many entries name `city`, ignoring case. */
  function CountCity(lib: Library, list: seq<WeatherData>, city: string): nat {
    if |list| == 0 then 0
    else (if SameCity(lib, list[0], city) then 1 else 0) + CountCity(lib, list[1..], city)
  }

  lemma {:induction false} CountCityNone(lib: Library, list: seq<WeatherData>, city: string)
    requires forall i :: 0 <= i < |list| ==> !SameCity(lib, list[i], city)
    ensures CountCity(lib, list, city) == 0
    decreases |list|
  {
    if |list| > 0 {
      CountCityNone(lib, list[1..], city);
    }
  }

  /** Filtering a city out of a list that starts with that city's card and
      holds no other card for it leaves the rest untouched. */
  lemma RemoveCityAfterReplace(lib: Library, head: WeatherData, rest: seq<WeatherData>, city: string)
    requires head.city == city
    requires forall i :: 0 <= i < |rest| ==> !SameCity(lib, rest[i], city)
    ensures RemoveCity(lib, [head] + rest, city) == rest
  {
    RemoveCityDistributes(lib, [head], rest, city);
    EqualsIgnoreCaseIsReflexiveAndSymmetric(lib, city, city);
    assert [head][1..] == [];
  }

  /** `fetchWeather(city)`: the states the list goes through, in order. An
      unknown city publishes one state; a known one publishes the loading
      state and then the completed one. */
  function FetchWeather(lib: Library, list: seq<WeatherData>, city: string, outcome: FetchOutcome): (trace: seq<seq<WeatherData>>)
    ensures !Found(lib, city) ==>
              && |trace| == 1 && |trace[0]| == |list| + 1 && trace[0][1..] == list
              && trace[0][0].city == city && !trace[0][0].isLoading
              && trace[0][0].error == Some(CityNotFound)
    ensures Found(lib, city) ==>
              && |trace| == 2 && |trace[0]| >= 1 && |trace[1]| >= 1
              && trace[0][0].isLoading && trace[0][0].city == city
              && trace[1][0].city == city && !trace[1][0].isLoading
              && CountCity(lib, trace[0], city) == 1
              && CountCity(lib, trace[1], city) == 1
              // the cards for other cities survive both updates, in order
              && trace[0][1..] == RemoveCity(lib, list, city)
              && trace[1][1..] == RemoveCity(lib, list, city)
              && (trace[1][0].error.None? <==> outcome.Fetched?)
  {
    if !Found(lib, city) then
      [RecordUnknownCity(list, city)]
    else
      var loading := StartLoading(lib, list, city);
      var done := Complete(lib, loading, city, outcome);
      CountCityNone(lib, loading[1..], city);
      CountCityNone(lib, done[1..], city);
      RemoveCityAfterReplace(lib, loading[0], loading[1..], city);
      assert loading == [loading[0]] + loading[1..];
      [loading, done]
  }

  /** No two entries name the same city, ignoring case. */
  predicate DistinctCities(lib: Library, list: seq<WeatherData>) {
    forall i, j :: 0 <= i < j < |list| ==> !EqualsIgnoreCase(lib, list[i].city, list[j].city)
  }

  lemma {:induction false} SubsequenceKeepsDistinct(lib: Library, b: seq<WeatherData>, a: seq<WeatherData>)
    requires IsSubsequence(b, a) && DistinctCities(lib, a)
    ensures DistinctCities(lib, b)
    ensures forall e :: e in b ==> e in a
    decreases |a|
  {
    if |b| == 0 {
    } else if b[0] == a[0] {
      SubsequenceKeepsDistinct(lib, b[1..], a[1..]);
      assert forall e :: e in b ==> e == b[0] || e in b[1..];
      forall j | 0 < j < |b|
        ensures !EqualsIgnoreCase(lib, b[0].city, b[j].city)
      {
        assert b[j] in b[1..];
        var k :| 0 <= k < |a[1..]| && a[1..][k] == b[j];
        assert a[k + 1] == b[j];
      }
    } else {
      SubsequenceKeepsDistinct(lib, b, a[1..]);
    }
  }

  lemma PrependKeepsDistinct(lib: Library, entry: WeatherData, rest: seq<WeatherData>)
    requires DistinctCities(lib, rest)
    requires forall k :: 0 <= k < |rest| ==> !SameCity(lib, rest[k], entry.city)
    ensures DistinctCities(lib, [entry] + rest)
  {
    var r := [entry] + rest;
    forall i, j | 0 <= i < j < |r|
      ensures !EqualsIgnoreCase(lib, r[i].city, r[j].city)
    {
      assert r[j] == rest[j - 1];
      if i == 0 {
        EqualsIgnoreCaseIsReflexiveAndSymmetric(lib, rest[j - 1].city, entry.city);
      } else {
        assert r[i] == rest[i - 1];
      }
    }
  }

  /** Putting a card in front of the list with its city filtered out keeps
      the cities distinct. */
  lemma ReplaceCityKeepsDistinct(lib: Library, list: seq<WeatherData>, entry: WeatherData)
    requires DistinctCities(lib, list)
    ensures DistinctCities(lib, [entry] + RemoveCity(lib, list, entry.city))
  {
    var rest := RemoveCity(lib, list, entry.city);
    SubsequenceKeepsDistinct(lib, rest, list);
    assert forall k :: 0 <= k < |rest| ==> rest[k] in rest;
    PrependKeepsDistinct(lib, entry, rest);
  }

  /** A known-city fetch keeps "at most one entry per city" in every state it
      publishes. */
  lemma KnownFetchKeepsCitiesDistinct(lib: Library, list: seq<WeatherData>, city: string, outcome: FetchOutcome)
    requires DistinctCities(lib, list) && Found(lib, city)
    ensures forall s :: s in FetchWeather(lib, list, city, outcome) ==> DistinctCities(lib, s)
  {
    var loading := StartLoading(lib, list, city);
    ReplaceCityKeepsDistinct(lib, list, loading[0]);
    assert loading == [loading[0]] + RemoveCity(lib, list, city);
    var done := Complete(lib, loading, city, outcome);
    ReplaceCityKeepsDistinct(lib, loading, done[0]);
    assert done == [done[0]] + RemoveCity(lib, loading, city);
    assert FetchWeather(lib, list, city, outcome) == [loading, done];
  }

  /** An unknown city removes nothing: searching it twice shows two error
      cards for it, above everything that was there. */
  lemma UnknownCityKeepsDuplicates(lib: Library, list: seq<WeatherData>, city: string, o1: FetchOutcome, o2: FetchOutcome)
    requires !Found(lib, city)
    ensures
      var once := FetchWeather(lib, list, city, o1)[0];
      var twice := FetchWeather(lib, once, city, o2)[0];
      |twice| == |list| + 2 && twice[0] == twice[1] && twice[0].city == city && twice[2..] == list
  {
  }

  // ---------------------------------------------------------------------
  // Entry points

  /** The Search button of the weather screen: blank input does nothing,
      anything else is trimmed and fetched. */
  function Search(lib: Library, list: seq<WeatherData>, input: string, outcome: FetchOutcome): (trace: seq<seq<WeatherData>>)
    ensures IsBlank(lib, input) <==> trace == []
    ensures !IsBlank(lib, input) ==>
              && |trace| >= 1 && |trace[|trace| - 1]| >= 1
              && trace[|trace| - 1][0].city == Trim(lib, input)
              && |Trim(lib, input)| > 0
    // the old cards stay below the new head card: all of them for an
    // unknown city, those for every other city for a known one
    ensures !IsBlank(lib, input) && !Found(lib, Trim(lib, input)) ==>
              |trace| == 1 && |trace[0]| == |list| + 1 && trace[0][1..] == list
    ensures !IsBlank(lib, input) && Found(lib, Trim(lib, input)) ==>
              && |trace| == 2 && |trace[0]| >= 1 && |trace[1]| >= 1
              && trace[0][1..] == RemoveCity(lib, list, Trim(lib, input))
              && trace[1][1..] == RemoveCity(lib, list, Trim(lib, input))
  {
    if IsBlank(lib, input) then [] else FetchWeather(lib, list, Trim(lib, input), outcome)
  }

  /** The view model as constructed: an empty list, then a fetch for
      "London". */
  function Initial(lib: Library, outcome: FetchOutcome): (trace: seq<seq<WeatherData>>)
    ensures |trace| >= 2 && trace[0] == []
    ensures |trace[1]| >= 1 && trace[1][0].city == "London"
    ensures var last := trace[|trace| - 1]; |last| == 1 && last[0].city == "London"
  {
    [[]] + FetchWeather(lib, [], "London", outcome)
  }

  /** With the documented ASCII behaviour of `lowercase()`, "London" is found,
      so the screen goes from empty to one loading card to one London card. */
  lemma InitialShowsLondon(lib: Library, outcome: FetchOutcome)
    requires AsciiLowercase(lib)
    ensures
      var trace := Initial(lib, outcome);
      && |trace| == 3
      && trace[1] == [WeatherData("London", NoReading, "", true, None)]
      && |trace[2]| == 1 && trace[2][0].city == "London" && !trace[2][0].isLoading
      && (trace[2][0].error.None? <==> outcome.Fetched?)
  {
    LookupIgnoresCaseButNotSpaces(lib);
    var loading := StartLoading(lib, [], "London");
    assert RemoveCity(lib, [], "London") == [];
    var done := Complete(lib, loading, "London", outcome);
    assert loading[1..] == [];
  }
}
