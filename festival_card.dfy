/** The location line of the festival card. */
module FestivalCard {
  import opened Strings

  /** The location fields of a festival; each may be null. */
  datatype Festival = Festival(city: Option<string>, region: Option<string>, country: Option<string>)

  /** JavaScript truthiness of a nullable string: set and non-empty. */
  predicate Truthy(p: Option<string>)
  {
    p.Some? && p.value != ""
  }

  /** The country in lower case, the empty string when it is null. */
  function CountryKey(country: Option<string>): string
  {
    if country.Some? then Lower(country.value) else ""
  }

  predicate IsUSA(country: Option<string>)
  {
    var c := CountryKey(country);
    c == "united states" || c == "us" || c == "usa"
  }

  predicate IsUK(country: Option<string>)
  {
    var c := CountryKey(country);
    c == "united kingdom" || c == "uk"
  }

  /** `filter(Boolean)`: every truthy part is kept and nothing else;
      `TruthfulAppend` adds that order is kept. */
  function Truthful(parts: seq<Option<string>>): (r: seq<string>)
    ensures |r| <= |parts|
    ensures forall i :: 0 <= i < |r| ==> r[i] != ""
    ensures forall i :: 0 <= i < |parts| && Truthy(parts[i]) ==> parts[i].value in r
    ensures |parts| == 1 ==> r == (if Truthy(parts[0]) then [parts[0].value] else [])
  {
    if parts == [] then []
    else
      var r := (if Truthy(parts[0]) then [parts[0].value] else []) + Truthful(parts[1..]);
      assert forall i :: 1 <= i < |parts| ==> parts[i] == parts[1..][i - 1];
      r
  }

  /** Filtering works piece by piece, so the kept parts stay in their order. */
  lemma {:induction false} TruthfulAppend(a: seq<Option<string>>, b: seq<Option<string>>)
    ensures Truthful(a + b) == Truthful(a) + Truthful(b)
    decreases |a|
  {
    if a == [] {
      assert a + b == b;
    } else {
      assert (a + b)[0] == a[0] && (a + b)[1..] == a[1..] + b;
      TruthfulAppend(a[1..], b);
    }
  }

  /** Two optional parts separated by ", ", each left out when null or empty. */
  function CommaPair(a: Option<string>, b: Option<string>): string
  {
    if Truthy(a) && Truthy(b) then a.value + ", " + b.value
    else if Truthy(a) then a.value
    else if Truthy(b) then b.value
    else ""
  }

  lemma TruthfulJoinPair(a: Option<string>, b: Option<string>)
    ensures Join(Truthful([a, b]), ", ") == CommaPair(a, b)
  {
    var tail: seq<string> := if Truthy(b) then [b.value] else [];
    assert [a, b][1..] == [b];
    assert [b][1..] == [];
    assert Truthful([b]) == tail + Truthful([]);
    assert tail + [] == tail;
    if Truthy(a) && Truthy(b) {
      JoinPair(a.value, b.value, ", ");
    }
  }

  /** `formatLocation`: city and region for a US or UK festival with a region,
      city and country otherwise; nothing is substituted when both are missing. */
  function FormatLocation(f: Festival): (r: string)
    ensures (IsUSA(f.country) || IsUK(f.country)) && Truthy(f.region) ==> r == CommaPair(f.city, f.region)
    ensures !((IsUSA(f.country) || IsUK(f.country)) && Truthy(f.region)) ==> r == CommaPair(f.city, f.country)
    ensures r == "" <==>
      (!Truthy(f.city) && !Truthy(if (IsUSA(f.country) || IsUK(f.country)) && Truthy(f.region) then f.region else f.country))
  {
    var home := IsUSA(f.country) || IsUK(f.country);
    if home && f.region.Some? && f.region.value != "" then
      TruthfulJoinPair(f.city, f.region);
      Join(Truthful([f.city, f.region]), ", ")
    else
      TruthfulJoinPair(f.city, f.country);
      Join(Truthful([f.city, f.country]), ", ")
  }

  /** The country test ignores letter case. */
  lemma CountryTestIgnoresCase(c: string)
    ensures IsUSA(Some(c)) == IsUSA(Some(Lower(c)))
    ensures IsUK(Some(c)) == IsUK(Some(Lower(c)))
  {
    LowerIdempotent(c);
  }

  /** For a US or UK festival with a region, the country text plays no part. */
  lemma HomeCountryTextIrrelevant(city: Option<string>, region: Option<string>, c1: string, c2: string)
    requires IsUSA(Some(c1)) || IsUK(Some(c1))
    requires IsUSA(Some(c2)) || IsUK(Some(c2))
    requires Truthy(region)
    ensures FormatLocation(Festival(city, region, Some(c1))) == FormatLocation(Festival(city, region, Some(c2)))
  {
  }

  /** A null country is neither US nor UK, so the region never shows. */
  lemma NullCountryShowsCityOnly(city: Option<string>, region: Option<string>)
    ensures FormatLocation(Festival(city, region, None)) == (if Truthy(city) then city.value else "")
  {
  }
}
