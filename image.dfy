/** Resolution of a stored artist or member image reference to a URL on the
    asset CDN. The CDN base (an environment variable) is a parameter: `None`
    when it is unset. */
module Image {
  import opened Strings

  /** A stored reference that stands for "no image". */
  const PLACEHOLDER: string := "a-few-moments-later.png"
  /** Where legacy bare file names live on the CDN, as WebP renditions. */
  const LEGACY_DIR: string := "/transformed/artists/images/"

  /** The CDN base is set and non-empty; the empty string is falsy. */
  predicate Configured(cdn: Option<string>)
  {
    cdn.Some? && cdn.value != ""
  }

  /** The CDN base as a template literal prints it: an unset variable prints as "undefined". */
  function BaseText(cdn: Option<string>): string
  {
    if cdn.Some? then cdn.value else "undefined"
  }

  /** References that resolve to no image at all. */
  predicate Dropped(imageUrl: Option<string>)
  {
    imageUrl.None? || imageUrl.value == "" || imageUrl.value == PLACEHOLDER
  }

  predicate IsAbsolute(s: string)
  {
    StartsWith(s, "http")
  }

  /** The newer format: a path under `media/`, with or without a leading slash. */
  predicate IsMediaPath(s: string)
  {
    StartsWith(s, "media/") || StartsWith(s, "/media/")
  }

  /** What follows the `media/` directory in a media path. */
  function MediaTail(s: string): string
    requires IsMediaPath(s)
  {
    if StartsWith(s, "/media/") then s[7..] else s[6..]
  }

  /** `split(".")[0]`: the text up to the first dot, or all of it when there is none. */
  function BeforeFirstDot(s: string): (r: string)
    ensures StartsWith(s, r)
    ensures '.' !in r
    ensures |r| < |s| ==> s[|r|] == '.'
  {
    if s == [] || s[0] == '.' then [] else [s[0]] + BeforeFirstDot(s[1..])
  }

  /** `getArtistImageUrl`. */
  function GetArtistImageUrl(imageUrl: Option<string>, cdn: Option<string>): (r: Option<string>)
    ensures Dropped(imageUrl) ==> r.None?
    ensures !Dropped(imageUrl) && IsAbsolute(imageUrl.value) ==>
      (r.Some? <==> Configured(cdn) && StartsWith(imageUrl.value, cdn.value))
      && (r.Some? ==> r.value == imageUrl.value)
    ensures !Dropped(imageUrl) && !IsAbsolute(imageUrl.value) && IsMediaPath(imageUrl.value) ==>
      r == Some(BaseText(cdn) + "/media/" + MediaTail(imageUrl.value))
    ensures !Dropped(imageUrl) && !IsAbsolute(imageUrl.value) && !IsMediaPath(imageUrl.value) ==>
      r == Some(BaseText(cdn) + LEGACY_DIR + BeforeFirstDot(imageUrl.value) + ".webp")
    ensures Configured(cdn) && r.Some? ==> StartsWith(r.value, cdn.value)
  {
    match imageUrl
    case None => None
    case Some(s) =>
      if s == "" || s == PLACEHOLDER then None
      else if StartsWith(s, "http") then
        if Configured(cdn) && StartsWith(s, cdn.value) then Some(s) else None
      else if StartsWith(s, "media/") || StartsWith(s, "/media/") then
        var path := if StartsWith(s, "/") then s else "/" + s;
        assert path == "/media/" + MediaTail(s) by {
          if StartsWith(s, "/media/") {
            assert s == s[..7] + s[7..];
            assert StartsWith(s, "/");
          } else {
            assert s[..6] == "media/";
            assert !StartsWith(s, "/") by { assert s[0] == 'm'; }
            assert s == s[..6] + s[6..];
            assert path == "/" + s[..6] + s[6..];
          }
        }
        assert BaseText(cdn) + path == BaseText(cdn) + "/media/" + MediaTail(s);
        Some(BaseText(cdn) + path)
      else
        Some(BaseText(cdn) + LEGACY_DIR + BeforeFirstDot(s) + ".webp")
  }

  /** With an absolute CDN base, resolving an already resolved URL gives it
      back unchanged: the resolver's outputs are its own fixed points. */
  lemma ResolveIdempotent(imageUrl: Option<string>, cdn: Option<string>)
    requires Configured(cdn) && IsAbsolute(cdn.value)
    ensures GetArtistImageUrl(GetArtistImageUrl(imageUrl, cdn), cdn) == GetArtistImageUrl(imageUrl, cdn)
  {
    var r := GetArtistImageUrl(imageUrl, cdn);
    if r.Some? {
      var u, b := r.value, cdn.value;
      assert u[..|b|] == b;
      assert u[..4] == b[..4] == "http";
      assert u != PLACEHOLDER by { assert PLACEHOLDER[0] == 'a' && u[0] == 'h'; }
    }
  }

  /** Without a CDN base no absolute URL is ever shown. */
  lemma UnconfiguredDropsAbsolute(s: string, cdn: Option<string>)
    requires !Configured(cdn) && IsAbsolute(s)
    ensures GetArtistImageUrl(Some(s), cdn).None?
  {
  }
}
