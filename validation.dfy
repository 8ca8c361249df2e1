/** Validation of a crowd-sourced band-member submission: text sanitising,
    the host allow-lists for image and Wikipedia links, and the per-field
    constraints of the submission schema. URL parsing is not modelled: a URL
    arrives with the host name its parser produced, or none when it did not parse. */
module Validation {
  import opened Strings

  /** The roles the submission form offers. The schema does not check against them. */
  const MEMBER_ROLES: seq<string> :=
    ["vocals", "guitar", "bass", "drums", "keys", "synth", "dj", "producer", "other"]

  /** Text a sanitised field may hold: no angle brackets and no white space at either end. */
  predicate Clean(s: string)
  {
    '<' !in s && '>' !in s && Trimmed(s)
  }

  /** No `<` is followed, anywhere later, by a `>`: nothing tag-like is left. */
  predicate NoTagLeft(r: string)
  {
    forall i :: 0 <= i < |r| && r[i] == '<' ==> '>' !in r[i + 1..]
  }

  /** `replace(/<[^>]*>/g, "")`: scanning left to right, each `<` that has a
      `>` somewhere after it starts a tag running to the first such `>`, and
      the tag is removed; every other character is kept. */
  function StripTags(s: string): string
    decreases |s|
  {
    if s == [] then []
    else if s[0] == '<' && '>' in s then StripTags(AfterTag(s))
    else [s[0]] + StripTags(s[1..])
  }

  /** What follows the first `>`. */
  function AfterTag(s: string): (r: string)
    requires '>' in s
    ensures |r| < |s|
  {
    s[IndexOf(s, '>') + 1..]
  }

  /** The result is made of the input's characters, and is no longer. */
  lemma {:induction false} StripTagsFromInput(s: string)
    ensures |StripTags(s)| <= |s|
    ensures forall c :: c in StripTags(s) ==> c in s
    decreases |s|
  {
    if s == [] {
    } else if s[0] == '<' && '>' in s {
      var a := AfterTag(s);
      StripTagsFromInput(a);
      forall c | c in a ensures c in s {
        var k :| 0 <= k < |a| && a[k] == c;
        assert a[k] == s[IndexOf(s, '>') + 1 + k];
      }
    } else {
      StripTagsFromInput(s[1..]);
    }
  }

  /** No tag survives: no `<` of the result has a `>` after it. */
  lemma {:induction false} StripTagsLeavesNoTag(s: string)
    ensures NoTagLeft(StripTags(s))
    decreases |s|
  {
    if s == [] {
    } else if s[0] == '<' && '>' in s {
      StripTagsLeavesNoTag(AfterTag(s));
    } else {
      var rest := StripTags(s[1..]);
      StripTagsLeavesNoTag(s[1..]);
      if s[0] == '<' {
        StripTagsFromInput(s[1..]);
        assert '>' !in s[1..] by {
          assert s == [s[0]] + s[1..];
        }
      }
      NoTagLeftCons(s[0], rest);
    }
  }

  /** One character in front of tag-free text leaves it tag-free unless it
      opens a tag that the text closes. */
  lemma NoTagLeftCons(c: char, rest: string)
    requires NoTagLeft(rest)
    requires c == '<' ==> '>' !in rest
    ensures NoTagLeft([c] + rest)
  {
    var r := [c] + rest;
    forall i | 0 <= i < |r| && r[i] == '<' ensures '>' !in r[i + 1..] {
      var tail := if i == 0 then rest else rest[i..];
      assert r[i + 1..] == tail;
      assert '>' !in tail by {
        if i > 0 {
          assert rest[i - 1] == '<';
        }
      }
    }
  }

  /** Text holding no tag comes back unchanged. */
  lemma {:induction false} StripTagsKeepsTagFree(s: string)
    requires NoTagLeft(s)
    ensures StripTags(s) == s
    decreases |s|
  {
    if s != [] {
      assert s[0] == '<' ==> '>' !in s by {
        if s[0] == '<' {
          assert '>' !in s[1..];
          assert s == [s[0]] + s[1..];
        }
      }
      assert NoTagLeft(s[1..]) by {
        forall i | 0 <= i < |s[1..]| && s[1..][i] == '<' ensures '>' !in s[1..][i + 1..] {
          assert s[i + 1] == '<' && s[1..][i + 1..] == s[i + 2..];
        }
      }
      StripTagsKeepsTagFree(s[1..]);
    }
  }

  /** A first character other than `<` is kept. */
  lemma StripTagsKeepsFirst(s: string)
    requires s != [] && s[0] != '<'
    ensures StripTags(s) == [s[0]] + StripTags(s[1..])
  {
  }

  /** Text without `<` in front of anything passes through unchanged. */
  lemma {:induction false} StripTagsPlainPrefix(u: string, w: string)
    requires '<' !in u
    ensures StripTags(u + w) == u + StripTags(w)
    decreases |u|
  {
    if u == [] {
      assert u + w == w;
    } else {
      var s, x := u + w, u[1..] + w;
      assert s[0] == u[0];
      assert s[1..] == x;
      StripTagsKeepsFirst(s);
      StripTagsPlainPrefix(u[1..], w);
      assert [u[0]] + (u[1..] + StripTags(w)) == u + StripTags(w);
    }
  }

  /** A tag after tag-free text is removed, the text before it kept: `u`
      has no `<`, and `t` no `>`, so the leftmost match is `<t>`. */
  lemma StripTagsLeadingTag(u: string, t: string, v: string)
    requires '<' !in u && '>' !in t
    ensures StripTags(u + "<" + t + ">" + v) == u + StripTags(v)
  {
    var w := "<" + t + ">" + v;
    assert u + "<" + t + ">" + v == u + w;
    StripTagsPlainPrefix(u, w);
    assert StripTags(u + "<" + t + ">" + v) == u + StripTags(w);
    TagAtFront(t, v);
  }

  lemma TagAtFront(t: string, v: string)
    requires '>' !in t
    ensures StripTags("<" + t + ">" + v) == StripTags(v)
  {
    var s := "<" + t + ">" + v;
    assert s[|t| + 1] == '>';
    assert s[..|t| + 1] == "<" + t;
    assert IndexOf(s, '>') == |t| + 1;
    assert s[|t| + 2..] == v;
    assert AfterTag(s) == v;
  }

  /** `replace(/[<>]/g, "")`: every character other than `<` and `>` is kept,
      as often as it occurs; `RemoveAnglesAppend` adds that order is kept too. */
  function RemoveAngles(s: string): (r: string)
    ensures '<' !in r && '>' !in r
    ensures |r| <= |s|
    ensures forall c :: c in r ==> c in s
    ensures forall c :: c != '<' && c != '>' ==> multiset(r)[c] == multiset(s)[c]
    ensures '<' !in s && '>' !in s ==> r == s
  {
    if s == [] then []
    else
      assert s == [s[0]] + s[1..];
      if s[0] == '<' || s[0] == '>' then RemoveAngles(s[1..])
      else [s[0]] + RemoveAngles(s[1..])
  }

  /** Removing angle brackets works piece by piece, so the kept characters stay in order. */
  lemma {:induction false} RemoveAnglesAppend(a: string, b: string)
    ensures RemoveAngles(a + b) == RemoveAngles(a) + RemoveAngles(b)
    decreases |a|
  {
    if a == [] {
      assert a + b == b;
    } else {
      assert (a + b)[0] == a[0] && (a + b)[1..] == a[1..] + b;
      RemoveAnglesAppend(a[1..], b);
    }
  }

  /** `sanitizeText`: strip tags, strip leftover angle brackets, trim. Text
      without angle brackets is only trimmed. */
  function Sanitize(s: string): (r: string)
    ensures Clean(r)
    ensures |r| <= |s|
    ensures forall c :: c in r ==> c in s
    ensures '<' !in s && '>' !in s ==> r == Trim(s)
  {
    StripTagsFromInput(s);
    if '<' !in s && '>' !in s then
      StripTagsKeepsTagFree(s);
      Trim(RemoveAngles(StripTags(s)))
    else
      Trim(RemoveAngles(StripTags(s)))
  }

  /** A leading tag contributes nothing to the sanitised text. */
  lemma SanitizeTagAtFront(t: string, v: string)
    requires '>' !in t
    ensures Sanitize("<" + t + ">" + v) == Sanitize(v)
  {
    TagAtFront(t, v);
  }

  /** Text that is already clean passes through unchanged. */
  lemma SanitizeClean(s: string)
    requires Clean(s)
    ensures Sanitize(s) == s
  {
    TrimOfTrimmed(s);
  }

  /** Sanitising twice is sanitising once. */
  lemma SanitizeIdempotent(s: string)
    ensures Sanitize(Sanitize(s)) == Sanitize(s)
  {
    SanitizeClean(Sanitize(s));
  }

  /** The image hosts links may point to, each with its sub-domains. */
  const ALLOWED_IMAGE_DOMAINS: seq<string> := [
    "wikipedia.org", "wikimedia.org", "imgur.com", "i.imgur.com", "cloudfront.net",
    "discogs.com", "last.fm", "spotify.com", "scdn.co"
  ]

  /** The host is the domain, or ends with the domain's text with a dot just before it. */
  predicate DotBoundary(host: string, domain: string)
  {
    host == domain ||
    (|domain| < |host| && host[|host| - |domain| - 1] == '.' && host[|host| - |domain|..] == domain)
  }

  /** The host is the domain itself or one of its sub-domains: it ends with
      the domain's text, and the character just before that text is a dot. */
  predicate OnDomain(host: string, domain: string): (b: bool)
    ensures b <==> DotBoundary(host, domain)
  {
    var d := "." + domain;
    assert EndsWith(host, d) && |domain| < |host| ==> host[|host| - |domain|..] == host[|host| - |d|..][1..];
    assert |domain| < |host| && host[|host| - |domain| - 1] == '.' && host[|host| - |domain|..] == domain
      ==> host[|host| - |d|..] == d;
    host == domain || EndsWith(host, d)
  }

  /** `isAllowedImageHost`: a host passes exactly when it is an allow-listed
      domain or ends with one behind a dot; in particular the allow-listed
      domains themselves pass, and a passing host ends with the text of one. */
  predicate IsAllowedImageHost(host: string): (b: bool)
    ensures b <==> exists i :: 0 <= i < |ALLOWED_IMAGE_DOMAINS| && DotBoundary(host, ALLOWED_IMAGE_DOMAINS[i])
    ensures host in ALLOWED_IMAGE_DOMAINS ==> b
    ensures b ==> exists i :: 0 <= i < |ALLOWED_IMAGE_DOMAINS| && EndsWith(host, ALLOWED_IMAGE_DOMAINS[i])
  {
    assert host in ALLOWED_IMAGE_DOMAINS ==> OnDomain(host, ALLOWED_IMAGE_DOMAINS[IndexOfDomain(host)]);
    exists i :: 0 <= i < |ALLOWED_IMAGE_DOMAINS| && OnDomain(host, ALLOWED_IMAGE_DOMAINS[i])
  }

  /** Where an allow-listed domain stands in the list. */
  function IndexOfDomain(host: string): (i: nat)
    requires host in ALLOWED_IMAGE_DOMAINS
    ensures i < |ALLOWED_IMAGE_DOMAINS| && ALLOWED_IMAGE_DOMAINS[i] == host
  {
    var i :| 0 <= i < |ALLOWED_IMAGE_DOMAINS| && ALLOWED_IMAGE_DOMAINS[i] == host; i
  }

  /** A URL as the schema sees it: its text and the host name its parser
      produced, or `None` when parsing threw. */
  datatype UrlInput = UrlInput(text: string, hostname: Option<string>)

  /** `isValidImageUrl`: an unparseable URL is refused; a parsed URL passes
      exactly when its host is an allow-listed domain or ends with one behind
      a dot, so every URL on an allow-listed host or sub-domain passes. */
  predicate IsValidImageUrl(url: UrlInput): (b: bool)
    ensures b <==> (url.hostname.Some? &&
      exists i :: 0 <= i < |ALLOWED_IMAGE_DOMAINS| && DotBoundary(url.hostname.value, ALLOWED_IMAGE_DOMAINS[i]))
    ensures b ==> url.hostname.Some?
    ensures url.hostname.Some? && url.hostname.value in ALLOWED_IMAGE_DOMAINS ==> b
    ensures forall sub, i :: 0 <= i < |ALLOWED_IMAGE_DOMAINS| && url.hostname == Some(sub + "." + ALLOWED_IMAGE_DOMAINS[i]) ==> b
  {
    url.hostname.Some? && IsAllowedImageHost(url.hostname.value)
  }

  /** `isValidWikipediaUrl`: an unparseable URL is refused, every host on the
      wikipedia.org domain passes, and so does any host whose text merely ends
      in "wikipedia.org" (see `WikipediaSuffixOnly`). */
  predicate IsValidWikipediaUrl(url: UrlInput): (b: bool)
    ensures b <==> (url.hostname.Some? && |url.hostname.value| >= 13 &&
      url.hostname.value[|url.hostname.value| - 13..] == "wikipedia.org")
    ensures b ==> url.hostname.Some?
    ensures url.hostname.Some? && OnDomain(url.hostname.value, "wikipedia.org") ==> b
  {
    url.hostname.Some? && EndsWith(url.hostname.value, "wikipedia.org")
  }

  /** One more label in front keeps a host on the same domain. */
  lemma {:induction false} OnDomainSubdomain(sub: string, host: string, domain: string)
    requires OnDomain(host, domain)
    ensures OnDomain(sub + "." + host, domain)
  {
    var h := sub + "." + host;
    var suffix := "." + domain;
    if host == domain {
      assert h[|h| - |suffix|..] == suffix;
    } else {
      assert h[|h| - |suffix|..] == host[|host| - |suffix|..];
    }
  }

  /** The allow-list is closed under sub-domains: one more label on an allowed host is allowed. */
  lemma SubdomainOfAllowedHost(sub: string, host: string)
    requires IsAllowedImageHost(host)
    ensures IsAllowedImageHost(sub + "." + host)
  {
    var i :| 0 <= i < |ALLOWED_IMAGE_DOMAINS| && OnDomain(host, ALLOWED_IMAGE_DOMAINS[i]);
    OnDomainSubdomain(sub, host, ALLOWED_IMAGE_DOMAINS[i]);
  }

  /** A host is off a domain when it differs from it and has no dot just before its text. */
  lemma {:induction false} OffDomain(host: string, domain: string)
    requires host != domain
    requires |host| <= |domain| || host[|host| - |domain| - 1] != '.'
    ensures !OnDomain(host, domain)
  {
  }

  /** Sub-domains of allow-listed hosts pass; a host that only shares the
      text of an allowed domain without the dot does not. */
  lemma ImageHostExamples()
    ensures IsAllowedImageHost("i.imgur.com")
    ensures IsAllowedImageHost("upload.wikimedia.org")
    ensures !IsAllowedImageHost("evilimgur.com")
  {
    assert OnDomain("i.imgur.com", ALLOWED_IMAGE_DOMAINS[3]);
    assert OnDomain("upload.wikimedia.org", ALLOWED_IMAGE_DOMAINS[1]);
    var host := "evilimgur.com";
    forall i | 0 <= i < |ALLOWED_IMAGE_DOMAINS|
      ensures !OnDomain(host, ALLOWED_IMAGE_DOMAINS[i])
    {
      var d := ALLOWED_IMAGE_DOMAINS[i];
      assert host[0] == 'e' && host[3] == 'l';
      assert d[0] != 'e' || |d| != 13;
      OffDomain(host, d);
    }
  }

  /** Any host whose text ends in "wikipedia.org" passes, with or without a dot before it. */
  lemma WikipediaSuffixOnly(prefix: string)
    ensures IsValidWikipediaUrl(UrlInput("https://" + prefix + "wikipedia.org/", Some(prefix + "wikipedia.org")))
  {
    var h := prefix + "wikipedia.org";
    assert h[|h| - 13..] == "wikipedia.org";
  }

  lemma WikipediaExamples()
    ensures IsValidWikipediaUrl(UrlInput("https://en.wikipedia.org/wiki/X", Some("en.wikipedia.org")))
    ensures !IsValidWikipediaUrl(UrlInput("https://example.com/wiki/X", Some("example.com")))
    ensures !IsValidWikipediaUrl(UrlInput("wikipedia.org", None))
  {
  }

  /** How a JSON field arrived: missing, explicitly null, or with a value. */
  datatype Field<+T> = Absent | Null | Present(value: T)

  /** The submission body, field by field, as the request carried it. */
  datatype RawSubmission = RawSubmission(
    name: Field<string>,
    role: Field<string>,
    isActive: Field<bool>,
    startYear: Field<real>,
    endYear: Field<real>,
    imageUrl: Field<UrlInput>,
    wikipediaUrl: Field<UrlInput>,
    note: Field<string>,
    honeypot: Field<string>,
    turnstileToken: Field<string>)

  /** The submission once the schema has accepted and transformed it. */
  datatype MemberSubmission = MemberSubmission(
    name: string,
    role: string,
    isActive: bool,
    startYear: Field<int>,
    endYear: Field<int>,
    imageUrl: Field<string>,
    wikipediaUrl: Field<string>,
    note: Field<string>,
    honeypot: Field<string>,
    turnstileToken: Field<string>)

  datatype FieldName =
    Name | Role | IsActive | StartYear | EndYear | ImageUrl | WikipediaUrl | Note | Honeypot | TurnstileToken

  datatype Result<+T, +E> = Success(value: T) | Failure(error: E)

  /** `name`: 1 to 200 characters as sent, then sanitised, and still non-empty after that. */
  function CheckName(f: Field<string>): (r: Option<string>)
    ensures r.Some? <==> f.Present? && 1 <= |f.value| <= 200 && Sanitize(f.value) != ""
    ensures r.Some? ==> r.value == Sanitize(f.value) && Clean(r.value) && 1 <= |r.value| <= 200
  {
    match f
    case Present(s) => if 1 <= |s| <= 200 && Sanitize(s) != "" then Some(Sanitize(s)) else None
    case _ => None
  }

  /** `role`: any non-empty string, sanitised (possibly to nothing). */
  function CheckRole(f: Field<string>): (r: Option<string>)
    ensures r.Some? <==> f.Present? && f.value != ""
    ensures r.Some? ==> r.value == Sanitize(f.value) && Clean(r.value)
  {
    match f
    case Present(s) => if s != "" then Some(Sanitize(s)) else None
    case _ => None
  }

  /** `isActive`: a boolean, `true` when missing; null is refused. */
  function CheckIsActive(f: Field<bool>): (r: Option<bool>)
    ensures r.Some? <==> !f.Null?
    ensures f.Absent? ==> r == Some(true)
    ensures f.Present? ==> r == Some(f.value)
  {
    match f
    case Absent => Some(true)
    case Null => None
    case Present(b) => Some(b)
  }

  /** `startYear` / `endYear`: missing, null, or an integer in 1900..currentYear. */
  function CheckYear(f: Field<real>, currentYear: int): (r: Option<Field<int>>)
    ensures r.Some? <==> !f.Present? || (f.value == f.value.Floor as real && 1900 <= f.value.Floor <= currentYear)
    ensures r.Some? ==> r.value.Absent? == f.Absent? && r.value.Null? == f.Null?
    ensures r.Some? && f.Present? ==> r.value.value as real == f.value && 1900 <= r.value.value <= currentYear
  {
    match f
    case Absent => Some(Absent)
    case Null => Some(Null)
    case Present(y) =>
      if y == y.Floor as real && 1900 <= y.Floor <= currentYear then Some(Present(y.Floor)) else None
  }

  /** `imageUrl`: missing, null, the empty string, or a parseable URL on an allow-listed host. */
  function CheckImageUrl(f: Field<UrlInput>): (r: Option<Field<string>>)
    ensures r.Some? <==> !f.Present? || f.value.text == "" || IsValidImageUrl(f.value)
    ensures r.Some? && f.Present? ==> r.value == Present(f.value.text)
  {
    match f
    case Absent => Some(Absent)
    case Null => Some(Null)
    case Present(u) => if IsValidImageUrl(u) || u.text == "" then Some(Present(u.text)) else None
  }

  /** `wikipediaUrl`: missing, null, the empty string, or a parseable URL whose host ends in "wikipedia.org". */
  function CheckWikipediaUrl(f: Field<UrlInput>): (r: Option<Field<string>>)
    ensures r.Some? <==> !f.Present? || f.value.text == "" || IsValidWikipediaUrl(f.value)
    ensures r.Some? && f.Present? ==> r.value == Present(f.value.text)
  {
    match f
    case Absent => Some(Absent)
    case Null => Some(Null)
    case Present(u) => if IsValidWikipediaUrl(u) || u.text == "" then Some(Present(u.text)) else None
  }

  /** `note`: missing, null, or at most 500 characters as sent, then sanitised. */
  function CheckNote(f: Field<string>): (r: Option<Field<string>>)
    ensures r.Some? <==> !f.Present? || |f.value| <= 500
    ensures r.Some? && f.Present? ==> r.value == Present(Sanitize(f.value)) && |r.value.value| <= 500
    ensures r.Some? && !f.Present? ==> r.value == f
  {
    match f
    case Absent => Some(Absent)
    case Null => Some(Null)
    case Present(s) => if |s| <= 500 then Some(Present(Sanitize(s))) else None
  }

  /** `honeypot`: missing or the empty string; null and any text are refused. */
  function CheckHoneypot(f: Field<string>): (r: Option<Field<string>>)
    ensures r.Some? <==> f == Absent || f == Present("")
    ensures r.Some? ==> r.value == f
  {
    match f
    case Absent => Some(Absent)
    case Null => None
    case Present(s) => if s == "" then Some(f) else None
  }

  /** `turnstileToken`: missing or a non-empty string. */
  function CheckToken(f: Field<string>): (r: Option<Field<string>>)
    ensures r.Some? <==> f.Absent? || (f.Present? && f.value != "")
    ensures r.Some? ==> r.value == f
  {
    match f
    case Absent => Some(Absent)
    case Null => None
    case Present(s) => if s != "" then Some(f) else None
  }

  /** The fields whose constraint the submission breaks. */
  function FieldErrors(raw: RawSubmission, currentYear: int): set<FieldName>
  {
    (if CheckName(raw.name).None? then {Name} else {})
    + (if CheckRole(raw.role).None? then {Role} else {})
    + (if CheckIsActive(raw.isActive).None? then {IsActive} else {})
    + (if CheckYear(raw.startYear, currentYear).None? then {StartYear} else {})
    + (if CheckYear(raw.endYear, currentYear).None? then {EndYear} else {})
    + (if CheckImageUrl(raw.imageUrl).None? then {ImageUrl} else {})
    + (if CheckWikipediaUrl(raw.wikipediaUrl).None? then {WikipediaUrl} else {})
    + (if CheckNote(raw.note).None? then {Note} else {})
    + (if CheckHoneypot(raw.honeypot).None? then {Honeypot} else {})
    + (if CheckToken(raw.turnstileToken).None? then {TurnstileToken} else {})
  }

  /** `memberSubmissionSchema.safeParse`: either the transformed submission or
      the set of offending fields; `currentYear` stands for the clock's year. */
  function Validate(raw: RawSubmission, currentYear: int): (r: Result<MemberSubmission, set<FieldName>>)
    ensures r.Failure? ==> r.error != {} && r.error == FieldErrors(raw, currentYear)
    ensures r.Success? <==> FieldErrors(raw, currentYear) == {}
    ensures r.Success? ==>
      && raw.name.Present? && 1 <= |raw.name.value| <= 200
      && r.value.name == Sanitize(raw.name.value) && r.value.name != "" && Clean(r.value.name)
      && raw.role.Present? && raw.role.value != "" && r.value.role == Sanitize(raw.role.value)
      && (r.value.honeypot == Absent || r.value.honeypot == Present(""))
      && (r.value.note.Present? ==> Clean(r.value.note.value) && |r.value.note.value| <= 500)
      && (r.value.startYear.Present? ==> 1900 <= r.value.startYear.value <= currentYear)
      && (r.value.endYear.Present? ==> 1900 <= r.value.endYear.value <= currentYear)
    ensures r.Success? ==>
      && r.value.isActive == (if raw.isActive.Present? then raw.isActive.value else true)
      && r.value.startYear.Absent? == raw.startYear.Absent? && r.value.startYear.Null? == raw.startYear.Null?
      && (raw.startYear.Present? ==> r.value.startYear.value as real == raw.startYear.value)
      && r.value.endYear.Absent? == raw.endYear.Absent? && r.value.endYear.Null? == raw.endYear.Null?
      && (raw.endYear.Present? ==> r.value.endYear.value as real == raw.endYear.value)
      && r.value.imageUrl.Absent? == raw.imageUrl.Absent? && r.value.imageUrl.Null? == raw.imageUrl.Null?
      && (raw.imageUrl.Present? ==> r.value.imageUrl == Present(raw.imageUrl.value.text))
      && r.value.wikipediaUrl.Absent? == raw.wikipediaUrl.Absent? && r.value.wikipediaUrl.Null? == raw.wikipediaUrl.Null?
      && (raw.wikipediaUrl.Present? ==> r.value.wikipediaUrl == Present(raw.wikipediaUrl.value.text))
      && r.value.note == (if raw.note.Present? then Present(Sanitize(raw.note.value)) else raw.note)
      && r.value.honeypot == raw.honeypot
      && r.value.turnstileToken == raw.turnstileToken
  {
    var errors := FieldErrors(raw, currentYear);
    if errors != {} then Failure(errors)
    else
      assert Name !in errors && Role !in errors && IsActive !in errors && StartYear !in errors;
      assert EndYear !in errors && ImageUrl !in errors && WikipediaUrl !in errors;
      assert Note !in errors && Honeypot !in errors && TurnstileToken !in errors;
      Success(MemberSubmission(
        CheckName(raw.name).value,
        CheckRole(raw.role).value,
        CheckIsActive(raw.isActive).value,
        CheckYear(raw.startYear, currentYear).value,
        CheckYear(raw.endYear, currentYear).value,
        CheckImageUrl(raw.imageUrl).value,
        CheckWikipediaUrl(raw.wikipediaUrl).value,
        CheckNote(raw.note).value,
        CheckHoneypot(raw.honeypot).value,
        CheckToken(raw.turnstileToken).value))
  }

  /** The order of the two years is not checked: any in-range pair, an end
      before the start included, leaves an accepted submission accepted. */
  lemma YearOrderNotEnforced(raw: RawSubmission, currentYear: int, start: int, end: int)
    requires Validate(raw, currentYear).Success?
    requires 1900 <= end < start <= currentYear
    ensures Validate(raw.(startYear := Present(start as real), endYear := Present(end as real)), currentYear).Success?
  {
    var raw' := raw.(startYear := Present(start as real), endYear := Present(end as real));
    assert FieldErrors(raw, currentYear) == {};
    assert CheckYear(raw'.startYear, currentYear).Some? by {
      assert (start as real).Floor == start;
    }
    assert CheckYear(raw'.endYear, currentYear).Some? by {
      assert (end as real).Floor == end;
    }
    assert FieldErrors(raw', currentYear) == {};
  }

  /** A filled-in honeypot makes the whole submission invalid. */
  lemma FilledHoneypotRejected(raw: RawSubmission, currentYear: int)
    requires raw.honeypot.Present? && raw.honeypot.value != ""
    ensures Validate(raw, currentYear).Failure?
    ensures Honeypot in Validate(raw, currentYear).error
  {
  }

  /** The role is not checked against MEMBER_ROLES: any non-empty clean
      text is accepted as it is, on the list or not. */
  lemma RoleNotRestrictedToList(role: string)
    requires role != "" && Clean(role) && role !in MEMBER_ROLES
    ensures CheckRole(Present(role)) == Some(role)
  {
    SanitizeClean(role);
  }

  /** The 200-character limit applies to the name as sent, not as sanitised:
      a 202-character name that sanitises to a single letter is refused. */
  lemma NameLimitIsOnRawText(pad: string, c: char)
    requires |pad| == 199 && '>' !in pad
    requires Clean([c])
    ensures Sanitize("<" + pad + ">" + [c]) == [c]
    ensures CheckName(Present("<" + pad + ">" + [c])).None?
  {
    SanitizeTagAtFront(pad, [c]);
    SanitizeClean([c]);
  }

  /** A name made only of one tag sanitises to nothing and is refused,
      although its raw length is within 1..200. */
  lemma MarkupOnlyNameRejected(tag: string)
    requires '>' !in tag && |tag| <= 198
    ensures Sanitize("<" + tag + ">") == ""
    ensures CheckName(Present("<" + tag + ">")).None?
  {
    TagAtFront(tag, "");
    assert "<" + tag + ">" + "" == "<" + tag + ">";
  }
}
