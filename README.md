# Orchestra submission checks and card helpers, in Dafny

Orchestra is a web application. Visitors search for musical artists, view
band member rosters and festival appearances, and submit new band members
for moderation. This project models the parts of it that hold logic rather
than presentation:

- **Rate limiter** (`lib/rate-limit.ts`). This is an in-process table from
  client IP to a counter and a reset time, with fixed one-hour windows and
  at most 10 submissions per window. It is modelled as the class
  `RateLimit.RateLimiter`, whose `submissions` map is reassigned by
  `CheckRateLimit`. The method is proved against the pure step functions
  `Decide` and `NextEntry`. Lemmas over `Replay`, a run of calls from one
  IP, prove what a window admits.
- **Submission validation** (`lib/validation.ts`). This covers the
  `sanitizeText` pipeline (strip tags, strip stray angle brackets, trim),
  the image-host allow-list, the Wikipedia host test, and every field
  constraint of the member submission schema. `Validation.Validate` returns
  either the cleaned submission or the set of offending fields.
- **Image URL resolution** (`lib/image.ts`). `getArtistImageUrl` is
  modelled with the CDN base, an environment variable, as a parameter.
- **Card helpers**:
  - the artist card's location line and name size class;
  - the festival card's location line;
  - the member card's years badge and artist-page slug.

`strings.dfy` models the JavaScript string built-ins that this code relies
on:
- `trim` and the `\s` class, over the ECMAScript white space and line
  terminator set;
- `startsWith`, `endsWith`, `indexOf` and `join`;
- `toLowerCase`;
- the decimal text of an integer.

These are parameters of the model rather than computed inside it:
- the clock, as `now` in milliseconds and `currentYear`;
- the CDN base;
- the result of URL parsing, as a host name or `None` when parsing throws.

Three facts about the code shape what the model proves:
- **Fixed window.** The window is fixed, not rolling. A stored entry is
  replaced only once `now > resetAt` (lib/rate-limit.ts:10), and nothing
  looks at the times of earlier calls. `RateLimit.FixedWindowAllowsBurstAtBoundary`
  and `RateLimit.BurstOfTwiceMaxAtWindowEnd` show 2 × 10 calls allowed
  across a window boundary, 19 of them within two milliseconds.
- **Role list.** `MEMBER_ROLES` only feeds the options of the form's role
  select (components/MemberForm.tsx:121). The schema's role rule is any
  non-empty string, sanitised (lib/validation.ts:65-68), so
  `Validation.RoleNotRestrictedToList` proves that a role off the list is
  accepted as it is.
- **Honeypot.** The schema bounds the honeypot with `max(0)`
  (lib/validation.ts:92), so a filled-in honeypot fails validation
  (`Validation.FilledHoneypotRejected`). The submission route's branch that
  answers success to a filled-in honeypot
  (app/api/artists/[id]/members/route.ts:43-46) runs only after validation
  has succeeded, and `Validation.Validate` proves that the honeypot of an
  accepted submission is missing or empty. That branch is therefore never
  taken.

## Model

| member | source | states |
|---|---|---|
| RateLimit.Decide | lib/rate-limit.ts:10-20 | With no entry, or an expired one (`now > resetAt`), the call is allowed with 9 remaining. Inside a window it is allowed exactly when the count is below 10, and then remaining is 10 − count − 1. A refused call reports 0 remaining. For a stored entry, remaining lies in 0..9. |
| RateLimit.NextEntry | lib/rate-limit.ts:10-20 | An expired or missing entry is replaced by count 1 with `resetAt = now + 1 h`. Inside a window the reset time is kept, and an allowed call adds one to the count. A blocked call leaves the entry untouched. Counts stay within 1..10. When allowed, remaining = 10 − stored count. |
| RateLimit.InWindowVerdicts | lib/rate-limit.ts:15-20 | Inside an open window holding `count`, exactly the first `10 − count` calls are allowed, with remaining counting down to 0. Every later call is refused. |
| RateLimit.AtMostMaxPerWindow | lib/rate-limit.ts:3-20 | Of the call that opens a window and all later calls up to its end, exactly the first 10 are allowed. So at most 10 succeed per window. |
| RateLimit.FixedWindowAllowsBurstAtBoundary | lib/rate-limit.ts:10-13 | Ten calls that fill one window, then ten calls after it expires, each stretch within one hour of its start, are all allowed: 20 successes across two consecutive windows. |
| RateLimit.BurstOfTwiceMaxAtWindowEnd | lib/rate-limit.ts:10-20 | One call at `t`, nine at `t + 1 h` and ten at `t + 1 h + 1 ms` are all allowed. The last 19 of those 20 calls lie within two milliseconds, which a rolling one-hour limit of 10 would refuse. |
| RateLimit.WindowEndKept | lib/rate-limit.ts:15-20 | Calls inside an open window never move the window's end. |
| RateLimit.RateLimiter.constructor | lib/rate-limit.ts:1 | The table starts empty. |
| RateLimit.RateLimiter.CheckRateLimit | lib/rate-limit.ts:6-21 | The verdict is `Decide` on the caller's old entry. Only the caller's entry changes, to `NextEntry`; every other IP's entry is unchanged. Stored counts stay within 1..10, and remaining is within 0..9. |
| Strings.Trim | lib/validation.ts:20 | The result is a piece `s[i..j]` of the input with only white space before `i` and after `j`, and it neither begins nor ends with white space. That fixes it as the input minus its leading and trailing white space. |
| Strings.Lower | components/FestivalCard.tsx:46 | Same length; each character is mapped by the letter case mapping. |
| Strings.IntToString | components/MemberCard.tsx:22 | The text of a year is non-empty and made of digits and `-`. `Strings.IntRoundTrip` proves that reading it back gives the year. |
| Validation.StripTagsFromInput | lib/validation.ts:18 | Removing tags never lengthens the text and uses only its characters. |
| Validation.StripTagsLeavesNoTag | lib/validation.ts:18 | No `<` in the result is followed by a `>` anywhere after it, so no tag is left. |
| Validation.StripTagsKeepsTagFree | lib/validation.ts:18 | Text in which no `<` has a `>` after it comes back unchanged. |
| Validation.StripTagsPlainPrefix | lib/validation.ts:18 | Text without `<` in front of anything is kept as it is, followed by the stripped rest. |
| Validation.StripTagsLeadingTag | lib/validation.ts:18 | For `u` without `<` and `t` without `>`, stripping `u<t>v` gives `u` followed by the stripped `v`: the leftmost tag runs to the first `>` and is removed, and the text before it is kept. |
| Validation.RemoveAngles | lib/validation.ts:19 | No `<` or `>` is left. Every other character is kept as often as it occurs, and only input characters appear. Text without angle brackets is unchanged. |
| Validation.RemoveAnglesAppend | lib/validation.ts:19 | Removing angle brackets from a concatenation is removing them from each part, so the kept characters stay in order. |
| Validation.Sanitize | lib/validation.ts:16-21 | The result has no angle brackets and no white space at either end, is no longer than the input and uses only its characters. Text without angle brackets is only trimmed. |
| Validation.SanitizeTagAtFront | lib/validation.ts:16-21 | A leading tag contributes nothing: sanitising `<t>v` is sanitising `v`. |
| Validation.SanitizeClean | lib/validation.ts:16-21 | Text that is already clean passes through unchanged. |
| Validation.SanitizeIdempotent | lib/validation.ts:16-21 | Sanitising twice is sanitising once. |
| Validation.OnDomain | lib/validation.ts:41 | A host is on a domain exactly when it is the domain or ends with the domain's text with a `.` just before it. |
| Validation.IsAllowedImageHost | lib/validation.ts:40-42 | A host passes exactly when it is an allow-listed domain or ends with one behind a `.`. Each allow-listed domain passes. |
| Validation.IsValidImageUrl | lib/validation.ts:37-46 | An unparseable URL is refused. A parsed URL passes exactly when its host is an allow-listed domain or ends with one behind a `.`. |
| Validation.IsValidWikipediaUrl | lib/validation.ts:49-56 | An unparseable URL is refused. A parsed URL passes exactly when its host's text ends in `wikipedia.org`, with no label boundary required. Every host on the `wikipedia.org` domain passes. |
| Validation.OnDomainSubdomain | lib/validation.ts:41 | Putting one more label in front of a host on a domain keeps it on that domain. |
| Validation.SubdomainOfAllowedHost | lib/validation.ts:24-42 | The image-host allow-list is closed under sub-domains. |
| Validation.OffDomain | lib/validation.ts:41 | A host that differs from a domain and has no `.` right before the domain's text is not on that domain. |
| Validation.ImageHostExamples | lib/validation.ts:24-46 | `i.imgur.com` and `upload.wikimedia.org` are accepted. `evilimgur.com`, which shares text with `imgur.com` but has no dot before it, is refused. |
| Validation.WikipediaSuffixOnly | lib/validation.ts:52 | Any host whose text ends in `wikipedia.org` passes, with or without a label boundary before it. |
| Validation.WikipediaExamples | lib/validation.ts:49-56 | `en.wikipedia.org` passes. `example.com` fails. An unparseable URL fails. |
| Validation.CheckName | lib/validation.ts:59-64 | Accepted exactly when the name is present, 1..200 characters as sent, and non-empty after sanitising. The value is then the sanitised name. |
| Validation.CheckRole | lib/validation.ts:65-68 | Accepted exactly when the role is present and non-empty as sent. The value is then the sanitised role. |
| Validation.CheckIsActive | lib/validation.ts:69 | Missing means `true`. Null is refused. A boolean is kept. |
| Validation.CheckYear | lib/validation.ts:70-71 | Missing and null pass as they are. A number passes exactly when it is an integer within 1900..currentYear. |
| Validation.CheckImageUrl | lib/validation.ts:72-78 | Missing, null and `""` pass. Otherwise it passes exactly when the URL parses and its host is on the allow-list. The text is kept. |
| Validation.CheckWikipediaUrl | lib/validation.ts:79-85 | Missing, null and `""` pass. Otherwise it passes exactly when the URL parses and its host ends in `wikipedia.org`. The text is kept. |
| Validation.CheckNote | lib/validation.ts:86-91 | Missing and null pass as they are. A note passes exactly when it is at most 500 characters as sent, and it is then sanitised. |
| Validation.CheckHoneypot | lib/validation.ts:92 | Passes exactly when missing or empty. Null and any text are refused. |
| Validation.CheckToken | lib/validation.ts:93 | Passes exactly when missing or a non-empty string. |
| Validation.Validate | lib/validation.ts:58-94 | Fails exactly when some field breaks its constraint, reporting the non-empty set of those fields. On success: the name is the sanitised, clean, non-empty name of 1..200 raw characters; the role is the sanitised role; `isActive` is the sent boolean, or `true` when missing; each year is missing, null or the sent integer, within 1900..currentYear; each URL is missing, null or the sent text; the note is missing, null or the sanitised sent note, clean and at most 500 characters; the honeypot is missing or empty; the token is as sent. |
| Validation.YearOrderNotEnforced | lib/validation.ts:70-71 | An end year before the start year still validates. |
| Validation.FilledHoneypotRejected | lib/validation.ts:92 | A non-empty honeypot makes the submission invalid, with the honeypot among the offending fields. |
| Validation.RoleNotRestrictedToList | lib/validation.ts:65-68 | Any non-empty clean role, on the `MEMBER_ROLES` list or not, is accepted as it is. |
| Validation.NameLimitIsOnRawText | lib/validation.ts:59-64 | The 200-character limit applies to the name as sent. `<`, 199 characters without `>`, `>` and one clean character make 202 characters that sanitise to that one character, and the name is refused. |
| Validation.MarkupOnlyNameRejected | lib/validation.ts:59-64 | A name that is one tag and nothing else sanitises to the empty string and is refused. |
| Image.BeforeFirstDot | lib/image.ts:21 | The result is a prefix of the name that contains no `.`, and it stops only at a `.` or at the end. |
| Image.GetArtistImageUrl | lib/image.ts:3-23 | Null, `""` and the placeholder give no image. An absolute URL is kept exactly when the CDN base is set and prefixes it, and dropped otherwise. A media path maps to `<base>/media/<rest>`. A legacy name maps to `<base>/transformed/artists/images/<stem>.webp`. With a CDN base set, every result lies under it. |
| Image.ResolveIdempotent | lib/image.ts:3-23 | With an absolute CDN base, resolving an already resolved URL gives it back unchanged. |
| Image.UnconfiguredDropsAbsolute | lib/image.ts:8-14 | Without a CDN base, no absolute URL is ever shown. |
| ArtistCard.KeepShown | components/ArtistCard/ArtistCard.tsx:20-22 | Every kept part is a shown value (set, non-empty, neither "Unknown" nor "TBD"), and every shown part is kept. A single part is kept exactly when it is shown. |
| ArtistCard.KeepShownAppend | components/ArtistCard/ArtistCard.tsx:20-22 | Filtering a concatenation is filtering each part, so the kept parts stay in order. |
| ArtistCard.GetLocation | components/ArtistCard/ArtistCard.tsx:13-24 | The result is never empty. It is "city, second part" with the parts that are not shown left out, and "Unknown" exactly when neither part is shown. The second part is the region for the US or UK and the country otherwise. |
| ArtistCard.UsUkLocationOmitsCountry | components/ArtistCard/ArtistCard.tsx:18-19 | The location is the same for the United States and the United Kingdom: the country never shows. |
| ArtistCard.GetNameSizeClass | components/ArtistCard/ArtistCard.tsx:26-30 | `text-sm` exactly above 30 characters, `text-base` exactly for 21..30, `text-xl` exactly up to 20. |
| ArtistCard.NameSizeMonotone | components/ArtistCard/ArtistCard.tsx:26-30 | A longer name never gets a larger type size. |
| FestivalCard.Truthful | components/FestivalCard.tsx:51-53 | Every kept part is non-empty, and every truthy part is kept. A single part is kept exactly when it is truthy. |
| FestivalCard.TruthfulAppend | components/FestivalCard.tsx:51-53 | Filtering a concatenation is filtering each part, so the kept parts stay in order. |
| FestivalCard.TruthfulJoinPair | components/FestivalCard.tsx:51-53 | Joining the truthy parts of a pair equals the case-by-case "a, b" / "a" / "b" / "" reference. |
| FestivalCard.FormatLocation | components/FestivalCard.tsx:45-54 | A US or UK festival with a region shows city and region. Every other festival shows city and country. The result is empty exactly when both chosen parts are missing. |
| FestivalCard.CountryTestIgnoresCase | components/FestivalCard.tsx:46-48 | The US and UK tests do not depend on letter case. |
| FestivalCard.HomeCountryTextIrrelevant | components/FestivalCard.tsx:50-51 | For a US or UK festival with a region, which spelling of the country it has makes no difference. |
| FestivalCard.NullCountryShowsCityOnly | components/FestivalCard.tsx:46-53 | With a null country, only the city shows, whatever the region. |
| MemberCard.YearsLabel | components/MemberCard.tsx:20-25 | There is no badge exactly when the start year is missing or 0. Otherwise it is "start–end", or "start–present" when the end year is missing or 0. |
| MemberCard.YearsLabelRoundTrip | components/MemberCard.tsx:20-25 | The badge is unambiguous. Reading it back gives the start year and whether and when the membership ended. |
| MemberCard.CollapseSpaces | components/MemberCard.tsx:80 | The collapse never lengthens the text, and its result is empty only for empty text. |
| MemberCard.CollapseSpacesKeepsText | components/MemberCard.tsx:80 | Every character other than white space and `-` survives the collapse as often as it occurs. |
| MemberCard.CollapseSpacesRemovesSpace | components/MemberCard.tsx:80 | No white space survives the collapse. Text without white space is left as it is. |
| MemberCard.LeadingRunBecomesOneDash | components/MemberCard.tsx:80 | A leading run of white space turns into one dash. |
| MemberCard.SpaceRunBecomesOneDash | components/MemberCard.tsx:80 | A run of white space of any length between non-space characters turns into exactly one dash. |
| MemberCard.KeepSlugChars | components/MemberCard.tsx:80 | Only `[a-z0-9-]` is kept, and every such character is kept as often as it occurs. A string already made of those is unchanged. |
| MemberCard.KeepSlugCharsAppend | components/MemberCard.tsx:80 | Filtering a concatenation is filtering each part, so the kept characters stay in order. |
| MemberCard.Slug | components/MemberCard.tsx:80 | A slug contains only `[a-z0-9-]`, and every lower-case letter and digit of the lower-cased name survives in it as often as it occurs. |
| MemberCard.SlugRunBecomesOneDash | components/MemberCard.tsx:80 | A run of white space between two non-space characters becomes one dash that joins the slugs of the two sides. |
| MemberCard.SlugIdempotent | components/MemberCard.tsx:80 | A slug is its own slug. |

## Left out

- Turnstile CAPTCHA verification, the API routes, database access, persistence and the route's honeypot branch are not modelled. They are I/O and framework glue around the modelled logic.
- The UI components beyond the named helpers are not modelled. This includes the festival card's `formatDateRange`, which is locale date formatting.
- The relationship ranker is not part of this model. Its source is not available.
- The clock is not read. `now` (milliseconds) and `currentYear` are parameters. The schema reads the year once, when the module loads. The model takes it as a parameter and does not capture the year going stale in a long-running process.
- The `NEXT_PUBLIC_CLOUDFRONT_URL` environment variable is a parameter, not read. URL parsing (`new URL`, zod's `.url()`) is a parameter too: the host name, or `None` when parsing throws.
- RateLimit.RateLimiter.CheckRateLimit: `record.count++` mutates the stored object in place. The model reassigns the map entry, which is the same observable state. Requests do interleave, at the submission route's `await`s (app/api/artists/[id]/members/route.ts:12-80), and that interleaving is not modelled. `checkRateLimit` itself contains no `await` (lib/rate-limit.ts:6-21), so on Node's single thread each call runs to completion before another starts; one `CheckRateLimit` call is that atomic step.
- Strings.Lower: `toLowerCase` is modelled for ASCII letters only. Names with non-ASCII capitals slug differently in the real code.
- Validation.CheckName: lengths count characters, not UTF-16 code units as JavaScript's `length` does.
- Validation.CheckNote: the 500 limit counts characters, not UTF-16 code units as JavaScript's `length` does.
- ArtistCard.GetNameSizeClass: the 20 and 30 thresholds count characters, not UTF-16 code units as JavaScript's `length` does.
- Validation.Validate: a field of the wrong JSON type, such as a number for the name, is not modelled. Each field is either missing, null, or a value of its expected type.
- MemberCard.YearsLabel: years are integers here. JavaScript's number formatting of fractional years and of years at or above 1e21 is not modelled.
- Validation.StripTagsLeadingTag: `StripTags` (the tag-removing replace) is characterised only through this and the other `StripTags*` lemmas; regular-expression engine details beyond this pattern's leftmost, shortest-tag matching are not modelled.
