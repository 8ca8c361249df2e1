/** Display helpers of the artist card: the location line and the CSS size
    class of the artist's name. */
module ArtistCard {
  import opened Strings

  /** A location part is shown when it is set, non-empty and not a stand-in value. */
  predicate Shown(p: Option<string>)
  {
    p.Some? && p.value != "" && p.value != "Unknown" && p.value != "TBD"
  }

  /** For the United States and the United Kingdom the region is more telling than the country. */
  predicate IsUSorUK(country: string)
  {
    country == "United States" || country == "United Kingdom"
  }

  function SecondPart(region: Option<string>, country: string): Option<string>
  {
    if IsUSorUK(country) then region else Some(country)
  }

  /** `filter((p) => p && p !== "Unknown" && p !== "TBD")`: every shown part
      is kept and nothing else; `KeepShownAppend` adds that order is kept. */
  function KeepShown(parts: seq<Option<string>>): (r: seq<string>)
    ensures |r| <= |parts|
    ensures forall i :: 0 <= i < |r| ==> Shown(Some(r[i]))
    ensures forall i :: 0 <= i < |parts| && Shown(parts[i]) ==> parts[i].value in r
    ensures |parts| == 1 ==> r == (if Shown(parts[0]) then [parts[0].value] else [])
  {
    if parts == [] then []
    else
      var r := (if Shown(parts[0]) then [parts[0].value] else []) + KeepShown(parts[1..]);
      assert forall i :: 1 <= i < |parts| ==> parts[i] == parts[1..][i - 1];
      r
  }

  /** Filtering works piece by piece, so the kept parts stay in their order. */
  lemma {:induction false} KeepShownAppend(a: seq<Option<string>>, b: seq<Option<string>>)
    ensures KeepShown(a + b) == KeepShown(a) + KeepShown(b)
    decreases |a|
  {
    if a == [] {
      assert a + b == b;
    } else {
      assert (a + b)[0] == a[0] && (a + b)[1..] == a[1..] + b;
      KeepShownAppend(a[1..], b);
    }
  }

  /** `getLocation`: "city, second part" with the unshown parts left out, and
      "Unknown" when nothing is left; never the empty string. */
  function GetLocation(city: string, region: Option<string>, country: string): (r: string)
    ensures r != ""
    ensures r == "Unknown" <==> !Shown(Some(city)) && !Shown(SecondPart(region, country))
    ensures Shown(Some(city)) && Shown(SecondPart(region, country)) ==>
      r == city + ", " + SecondPart(region, country).value
    ensures Shown(Some(city)) && !Shown(SecondPart(region, country)) ==> r == city
    ensures !Shown(Some(city)) && Shown(SecondPart(region, country)) ==> r == SecondPart(region, country).value
  {
    var second := SecondPart(region, country);
    var parts := [Some(city), second];
    var kept := KeepShown(parts);
    assert kept == (if Shown(Some(city)) then [city] else []) + (if Shown(second) then [second.value] else []) by {
      var tail: seq<string> := if Shown(second) then [second.value] else [];
      assert parts[1..] == [second];
      assert [second][1..] == [];
      assert KeepShown([second]) == tail + KeepShown([]);
      assert tail + [] == tail;
    }
    var joined := Join(kept, ", ");
    assert Shown(Some(city)) && Shown(second) ==> joined == city + ", " + second.value by {
      if Shown(Some(city)) && Shown(second) {
        assert kept == [city, second.value];
        JoinPair(city, second.value, ", ");
      }
    }
    assert Shown(Some(city)) && Shown(second) ==> joined != "Unknown" by {
      if Shown(Some(city)) && Shown(second) {
        assert joined[|city|] == ',';
        assert ',' !in "Unknown";
      }
    }
    if joined == "" then "Unknown" else joined
  }

  /** In the United States and the United Kingdom the country never shows:
      the location is the same whichever of the two it is. */
  lemma UsUkLocationOmitsCountry(city: string, region: Option<string>)
    ensures GetLocation(city, region, "United States") == GetLocation(city, region, "United Kingdom")
  {
  }

  /** `getNameSizeClass`: longer names get a smaller type size. */
  function GetNameSizeClass(name: string): (r: string)
    ensures r == "text-sm" <==> |name| > 30
    ensures r == "text-base" <==> 20 < |name| <= 30
    ensures r == "text-xl" <==> |name| <= 20
  {
    if |name| > 30 then "text-sm"
    else if |name| > 20 then "text-base"
    else "text-xl"
  }

  /** Position of a size class on the type scale, smallest first. */
  function SizeRank(cls: string): int
  {
    if cls == "text-sm" then 0 else if cls == "text-base" then 1 else 2
  }

  /** A longer name never gets a larger type size than a shorter one. */
  lemma NameSizeMonotone(a: string, b: string)
    requires |a| <= |b|
    ensures SizeRank(GetNameSizeClass(b)) <= SizeRank(GetNameSizeClass(a))
  {
  }
}
