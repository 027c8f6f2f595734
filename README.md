# netfliz catalog rules in Dafny

netfliz is a multi-tenant video catalog. Each tenant is an owner account with a
public slug and a subscription that may end. Tenants publish videos; a video can
be blocked for chosen tenants. The tenant's signed-in users get a portal with a
"continue watching" row, built from per-(tenant, video) playback progress.
Videos hosted on Google Drive are played through a proxy route.

This project models the rules behind that catalog and proves properties of them:
- slug generation;
- the subscription and popup rules;
- visibility and the portal listing;
- progress upsert and reset;
- Google Drive id extraction and the two-request download handshake;
- the owner's video form: iframe `src` extraction, fragment encoding, the slug check and category coercion;
- the subscription gate middleware.

The database is the class `Models.Store`. It keeps one map per table, keyed by primary key, and the methods that save rows change those maps in place. The progress table is keyed by (tenant, video), so there is at most one record per pair. The store's invariant `Valid` also keeps:
- tenant slugs unique;
- series slugs unique per tenant;
- video slugs unique per tenant.

Timestamps are integers, and playback positions are reals. Network replies are records, and the HTTP client is a function parameter `fetch`.

Modules:
- `Wrappers`: `Option` and `Result`.
- `Text`: `str.strip`, `str.isspace`, decimal rendering, `str.find`.
- `Slugify`: the ASCII part of Django's `slugify`.
- `UrlQuote`: `urllib.parse.quote(s, safe="")` over UTF-8.
- `Models`: stream/models.py.
- `Http`: the error responses.
- `Drive`: the Google Drive parts of stream/views.py.
- `Views`: tenant lookup, duration label, video lookup, progress post and reset, owner tenant.
- `Portal`: `TenantPortalView.get_queryset`.
- `Forms`: stream/forms.py.
- `Middleware`: stream/middleware.py.

## Model

| member | source | states |
|---|---|---|
| Text.Strip | stream/forms.py:145 | The result is the slice left after every leading and trailing whitespace character is cut, and it neither starts nor ends with whitespace. |
| Text.StripIdempotent | stream/forms.py:145-148 | Stripping a stripped value changes nothing. |
| Text.NatToString | stream/views.py:125-126 | Rendering a number gives a non-empty string of decimal digits with no leading zero. |
| Text.NatToStringRoundTrip | stream/views.py:125-126 | Reading the rendered digits back gives the number. |
| Text.NatToStringInjective | stream/models.py:14 | Different numbers render differently. |
| Text.IndexOf | stream/forms.py:149-151 | The index of the first occurrence of a character, and None exactly when the character is absent. |
| Slugify.Slugify | stream/models.py:8 | Whatever the input, `slugify` gives a slug: lower-case ASCII letters, digits, `_` and `-`; no doubled dash; no `-` or `_` at either end. |
| Slugify.StripEdgesIsSlug | stream/models.py:8 | Trimming `-` and `_` from the ends of single-dash slug characters leaves a slug. |
| Slugify.AsciiOnlyKeepsAscii | stream/models.py:8 | Slug characters survive the ASCII step. |
| Slugify.KeepSlugCharsKeepsSlugChars | stream/models.py:8 | Slug characters survive the character filter. |
| Slugify.CollapseKeepsSingleDashes | stream/models.py:8 | Collapsing separators leaves single dashes alone. |
| Slugify.SlugifyFixesSlugs | stream/models.py:8 | A slug passes through `slugify` unchanged. |
| Slugify.SlugifyIdempotent | stream/models.py:8 | `slugify` applied twice is `slugify` applied once. |
| UrlQuote.UnquoteQuotedBytes | stream/forms.py:152 | Percent-decoding quoted bytes gives back those bytes. |
| UrlQuote.QuoteRoundTrip | stream/forms.py:152 | Percent-decoding the quoted text gives back its UTF-8 bytes. |
| UrlQuote.QuoteBytesChars | stream/forms.py:152 | Quoted output holds only unreserved characters and `%`. |
| UrlQuote.QuoteHasNoHash | stream/forms.py:152 | Quoted text holds only unreserved characters and `%`, so never `#`. |
| UrlQuote.QuoteEmpty | stream/forms.py:152 | The quoted text is empty exactly when the input is empty. |
| Models.IsSubscriptionActive | stream/models.py:34-36 | A tenant without an end date is active. A tenant with one is active up to and including that instant. |
| Models.LapseIsPermanent | stream/models.py:34-36 | A subscription inactive at one time is inactive at every later time. |
| Models.PopupAfterSave | stream/models.py:46-60 | The popup flag is raised exactly when it was already raised, when an end date that was set moves strictly later, or when a new tenant is saved with an end date. It is never lowered. |
| Models.StreamMime | stream/models.py:149-155 | m3u8 maps to `application/x-mpegURL`, mp4 to `video/mp4`, and every other type to the empty string. |
| Models.UsesVideoElement | stream/models.py:157-159 | Exactly mp4 and m3u8 play in a video element, and these are exactly the types with a MIME type. |
| Models.UsesIframePlayer | stream/models.py:161-163 | A type played in an iframe is not played in a video element and announces no MIME type. |
| Models.IsVisibleTo | stream/models.py:165-166 | A video is visible to a tenant exactly when the tenant is not on its blocklist, so a video blocked for nobody is visible to every tenant. |
| Models.PlaybackKindsAgree | stream/models.py:149-163 | A MIME type is announced exactly for the types played by a video element. No type is played both by a video element and in an iframe. Each declared type is played in exactly one of those two ways. |
| Models.Candidate | stream/models.py:14 | Every suffixed attempt is longer than the original plus the dash. |
| Models.CandidatesDiffer | stream/models.py:11-15 | Different attempt numbers give different slugs, so the search never tries the same slug twice. |
| Models.CandidateIsSlug | stream/models.py:14 | Every attempt built from a non-empty slug is a slug. |
| Models.FirstFreeSlug | stream/models.py:11-16 | The loop stops. It returns a slug that is not taken, and every earlier attempt in `original`, `original-1`, ... is taken. |
| Models.FirstFreeIsSlug | stream/models.py:11-16 | The slug the search settles on is a slug when the search starts from one. |
| Models.SlugBaseIsSlug | stream/models.py:8-10 | The base, with the fallback used when slugify leaves nothing, is a non-empty slug. |
| Models.GenerateUniqueSlug | stream/models.py:7-16 | The result is not used by any other row. It is the first free attempt from the slugified base, or from "tenant" when that base is empty. |
| Models.FirstNonEmpty | stream/models.py:42 | The `or` chain gives the first non-empty option, or "" when every option is empty. |
| Models.Store.constructor | stream/models.py:19-29 | An empty store satisfies the table constraints. |
| Models.Store.SaveTenant | stream/models.py:38-60 | An empty slug is filled with the first free slug from the owner's full name, else e-mail, else username, and is never rejected. A non-empty slug is kept. The popup flag follows `PopupAfterSave` against the stored end date. The save fails exactly when another tenant has the slug. Tenant slugs stay unique and no other table changes. |
| Models.Store.SaveSeries | stream/models.py:83-86 | A series with an empty slug gets the first free slug generated from its title, checked against every other series row, and is never rejected. A series with a non-empty slug keeps it. The save fails, and nothing is written, exactly when the slug is non-empty and another series of the same tenant already has it. Table constraints hold afterwards, and no other table changes. |
| Drive.FirstMatch | stream/views.py:34-38 | The leftmost position at or after the start where a marker is followed by an id character. |
| Drive.SearchToken | stream/views.py:34-38 | A `re.search` for `marker([0-9A-Za-z_-]+)`. None exactly when no marker is followed by an id character anywhere; otherwise the result is a non-empty id string. |
| Drive.FirstPatternToken | stream/views.py:71-75 | Patterns are tried in order and the first hit wins: a result is the token of some pattern, and every earlier pattern has no hit. None exactly when no pattern hits. |
| Drive.ExtractDriveId | stream/views.py:68-75 | An empty or missing URL gives None. Otherwise None exactly when none of the three patterns hits, and a found id is the token of the first pattern that hits. A found id is a non-empty run of `[0-9A-Za-z_-]`. |
| Drive.OpenLinkImpliesIdParam | stream/views.py:34-38 | Wherever the third pattern hits, the `id=` pattern hits inside it. |
| Drive.OpenLinkPatternIsRedundant | stream/views.py:34-38 | Dropping the third pattern changes no result. |
| Drive.GetPlaybackSource | stream/views.py:113-117 | A URL with a Drive id becomes the proxy link for that id. Any other URL is returned unchanged. |
| Drive.DriveLinkId | stream/views.py:113-117 | The proxy link built for an id yields that same id. |
| Drive.PlaybackSourceKeepsId | stream/views.py:113-117 | The playback source carries the same Drive id as the stored URL. A URL without an id is returned unchanged. |
| Drive.PlaybackSourceIdempotent | stream/views.py:113-117 | Rewriting a rewritten source changes nothing. |
| Drive.ExtractConfirmToken | stream/views.py:39-44 | The text after the first `confirm=` that is followed by id characters. None exactly when there is no such place. |
| Drive.FirstWarningCookie | stream/views.py:84-88 | None exactly when no cookie key starts with `download_warning`. Otherwise the value of the first such cookie in jar order. |
| Drive.FindWarningCookie | stream/views.py:84-88 | The cookie loop with its `break` finds the first warning cookie. |
| Drive.ConfirmToken | stream/views.py:83-90 | The token is the first warning cookie's value when that value is non-empty, and otherwise the `confirm=` token of the body. There is a token exactly when there is a non-empty warning cookie or a body token. A token is never empty. |
| Drive.CookieTokenWins | stream/views.py:84-90 | A non-empty warning cookie takes priority over any `confirm=` token in the body. |
| Drive.Advance | stream/views.py:78-94 | The handshake waits for confirmation exactly when the first reply is 200 and carries a token. The second request adds `confirm=<token>`. Every other reply ends the handshake with that reply. |
| Drive.RunDownload | stream/views.py:78-94 | One or two requests are sent. The first carries `export=download` and the id. The reply is the reply to the last request. |
| Drive.RunDownloadRequests | stream/views.py:78-94 | Two requests are sent exactly when the first reply is 200 with a token, and the second one carries `confirm`. With one request, the first reply is returned. |
| Drive.FollowDriveDownload | stream/views.py:78-94 | The imperative handshake sends exactly the requests of `RunDownload` and returns its reply. |
| Drive.GoogleDriveStream | stream/views.py:97-110 | A missing or empty id, or a final reply other than 200, gives NotFound. Otherwise the reply has the upstream content type (default `application/octet-stream`), Content-Length only when upstream gives a non-empty one, and `inline; filename="<id>"`. |
| Views.GetTenantFromSlug | stream/views.py:21-27 | A tenant is returned only if it is active, has the slug, and its subscription is active. NotFound exactly when no active tenant with that slug has an active subscription. |
| Views.FormatDurationLabel | stream/views.py:120-128 | The label is the minutes of the whole seconds, a colon, and the remaining seconds in two digits; a negative position counts as 0 seconds. |
| Views.TruncateTowardZero | stream/views.py:120-122 | `int(x)` lies within one of `x`, on the side of zero. |
| Views.TwoDigitsValue | stream/views.py:126 | The two zero-padded digits read back as the number. |
| Views.FormatDurationLabelRoundTrip | stream/views.py:120-126 | The `M:SS` label shows exactly the whole seconds of the position: minutes, a colon, then seconds below 60 in two digits. A negative position shows as `0:00`. |
| Views.GetVideoBySlug | stream/views.py:327 | A video comes back exactly when one video matches. NotFound exactly when none match. Otherwise the result is MultipleObjectsReturned. |
| Views.OwnVideoFound | stream/views.py:327 | A video whose slug no other video shares is found by that slug. |
| Views.ParsePositionAsWritten | stream/views.py:330-343 | The handler fails exactly for a JSON body that is not an object, or whose position is null, a list or an object. Every other payload gives a number, with 0.0 where ValueError is caught. |
| Views.NullPositionFails | stream/views.py:334-338 | `{"position": null}` raises TypeError. |
| Views.ParsePositionCorrectsFailures | stream/views.py:330-343 | The corrected reading agrees with the handler wherever the handler does not fail, and gives 0.0 where it fails. |
| Views.ClampPosition | stream/views.py:344 | The clamped position is non-negative, at least the input, and is either the input or 0. |
| Views.PostProgress | stream/views.py:321-348 | Signed out gives LoginRequired. An unknown or lapsed tenant slug gives NotFound. A tenant other than the user's own gives Forbidden. A video slug that does not resolve gives the lookup's error (NotFound, or MultipleObjectsReturned), and a video blocked for the tenant gives NotFound. Otherwise the call succeeds: the (tenant, video) record becomes the clamped position stamped now, and every other record is unchanged. On any error nothing is written. |
| Views.ResetProgress | stream/views.py:209-223 | Signed out gives LoginRequired, and a user without a tenant gets Forbidden. Only public videos are looked up; a slug that does not resolve gives the lookup's error, and a video blocked for the tenant gives NotFound. Otherwise the call succeeds:  the (tenant, video) record is removed, the result tells whether it existed, and every other record is unchanged. |
| Views.OwnerSlugBaseIsSlug | stream/views.py:52-59 | The owner's slug base is a non-empty slug, with "proprietario" as the fallback. |
| Views.GetOrCreateOwnerTenant | stream/views.py:48-65 | An existing profile is returned and nothing changes. Otherwise a new active tenant is stored under a fresh key. Its slug is the first free attempt from the slugified full name, username, e-mail or "proprietario", so it is a slug and not an existing one. |
| Portal.Eligible | stream/views.py:176-183 | With a tenant, a video passes the filter exactly when it is public and visible to the tenant. Without a tenant, exactly when it is public and blocked for nobody. |
| Portal.ListedVideos | stream/views.py:176-183 | With a tenant, a video is listed exactly when it is public and not blocked for that tenant. Without a tenant, exactly when it is public and blocked for nobody. |
| Portal.TenantSeesMore | stream/views.py:176-183 | A tenant sees every video that a visitor without a tenant sees. |
| Portal.NoRepeatsCard | stream/views.py:186-189 | A list of distinct rows is as long as its set of videos is large. |
| Portal.PrependNewest | stream/views.py:198 | A row at least as new as every row of a newest-first list can go in front of it. |
| Portal.InsertByRecency | stream/views.py:198 | Inserting a row into a newest-first list keeps it newest-first and adds exactly that row. |
| Portal.SortByRecency | stream/views.py:198 | The sorted rows are newest-first and a permutation of the input. |
| Portal.Resumable | stream/views.py:195-197 | The filtered list holds exactly the rows at a positive position, and never more copies of a row than the input has. |
| Portal.LeftOutNotNewer | stream/views.py:199 | In a newest-first list, no row past the cut is newer than a row before it. |
| Portal.ReadProgressRows | stream/views.py:186-189 | Every row of the tenant is read once, in an unspecified order. The progress map sends each video to its position. |
| Portal.ResumePositions | stream/views.py:190-191 | Every listed video gets its stored position, or 0 without progress. |
| Portal.ResumableSnoc | stream/views.py:195-197 | Filtering a list that is one row longer adds that row exactly when it is at a positive position. |
| Portal.ResumableEntries | stream/views.py:195-197 | The filtering loop computes `Resumable`. |
| Portal.LabelItems | stream/views.py:200-202 | Each shown video gets its resume position and its duration label. |
| Portal.ContinueWatching | stream/views.py:193-202 | At most 4 items, forming a prefix of the newest-first ranking of exactly the rows at a positive position. Each item carries its position and its label. No candidate left out is newer than one shown. |
| Portal.ShownItemsFacts | stream/views.py:199-202 | Each shown item of a newest-first ranking of the candidates resumes at its row's positive position. No candidate past the cut is newer than a shown one. |
| Portal.RankedFacts | stream/views.py:193-199 | The ranked list has no repeats and holds exactly the candidates. |
| Portal.BuildPortal | stream/views.py:174-206 | Signed out gives LoginRequired. Otherwise the page holds the listed videos, the progress map, every listed video's resume position (0 without progress), and the continue-watching row as in `ContinueWatching`. |
| Forms.SkipSpaces | stream/forms.py:10 | `\s*` stops at the first non-space. |
| Forms.RunEnd | stream/forms.py:10 | `[^"\\']+` stops at the first delimiter. |
| Forms.GroupAt | stream/forms.py:10 | A match at a position captures a non-empty run of non-delimiters that has a delimiter on each side. |
| Forms.FirstSrcMatch | stream/forms.py:14 | `search` finds the leftmost matching position, and None when no position matches. |
| Forms.ExtractIframeSrc | stream/forms.py:13-15 | None for missing input and exactly when nothing matches. A result is the captured value of the leftmost match: no earlier position matches. It is non-empty and free of delimiters. |
| Forms.EmbedMarkupMatch | stream/forms.py:10 | In standard embed markup, the pattern matches at the `src` attribute. |
| Forms.EmbedSrcRoundTrip | stream/forms.py:10-15 | The address inside `<iframe src="...">` markup is read back exactly. |
| Forms.PreferIframeSrc | stream/forms.py:146-148 | Without an iframe match the value is kept. With one, the value becomes the stripped `src`: free of delimiters, with no whitespace at either end. |
| Forms.EncodeFragment | stream/forms.py:149-155 | The text before the first `#` is kept and holds no `#`. An empty fragment drops the `#`. Otherwise exactly one `#` remains, right after the kept text. |
| Forms.EncodeFragmentDecodes | stream/forms.py:152-155 | For a non-empty fragment, the text after the `#` that `EncodeFragment` writes percent-decodes back to the UTF-8 bytes of the original fragment. |
| Forms.CleanSourceUrl | stream/forms.py:144-156 | A prepared value without `#` is kept. With a `#`, the value is the prepared value with its fragment encoded as `EncodeFragment` states. The cleaned value holds a `#` only when the prepared one did. |
| Forms.NoSrcAttribute | stream/forms.py:146-147 | Without a character that can start `src`, the value is not replaced. |
| Forms.PreparedTrimmed | stream/forms.py:145 | A value with no surrounding whitespace is prepared from itself. |
| Forms.CleanBareFragment | stream/forms.py:144-156 | A bare `#fragment` is cleaned to `#` followed by the quoted rest. |
| Forms.EncodeLeadingHash | stream/forms.py:149-155 | A leading `#` is kept and the rest is quoted. |
| Forms.QuotePercent | stream/forms.py:152 | `quote("%")` is `%25`. |
| Forms.QuotePercent25 | stream/forms.py:152 | `quote("%25")` is `%2525`. |
| Forms.CleanPercent | stream/forms.py:144-156 | `#%` is cleaned to `#%25`. |
| Forms.CleanPercent25 | stream/forms.py:144-156 | `#%25` is cleaned to `#%2525`. |
| Forms.CleanSourceUrlReencodes | stream/forms.py:144-156 | Cleaning is not idempotent: a cleaned fragment is encoded again, so `#%` becomes `#%25` and then `#%2525`. |
| Forms.CoerceCategory | stream/forms.py:126-130 | A selected series forces the category "series". Without a series the data is unchanged. The other fields are always kept. |
| Forms.CoerceCategoryIdempotent | stream/forms.py:126-130 | Coercing twice is coercing once. |
| Forms.CleanSlug | stream/forms.py:132-142 | Rejected exactly when there is an owner, the slug is non-empty, and another video of that owner, other than the one being edited, has it. Otherwise the slug is returned, with "" for None. |
| Forms.CleanSlugKeepsSlugsUnique | stream/forms.py:132-142 | Saving a video whose slug passed the check, as a new row or over the row being edited, keeps video slugs unique per tenant. |
| Forms.VideoForm.constructor | stream/forms.py:76-77 | The form keeps its owner, the instance being edited, and the cleaned data. |
| Forms.VideoForm.Clean | stream/forms.py:126-130 | The cleaned data becomes its category-coerced form, and owner and instance are unchanged. |
| Middleware.ShouldBlock | stream/middleware.py:15-24 | Blocks exactly an authenticated user whose tenant's subscription has ended, on a path outside the four allowed ones. Never blocks the subscription-expired page. |
| Middleware.Call | stream/middleware.py:10-13 | A blocked request is redirected to `/subscription-expired/` and the rest of the stack is not consulted. Any other request gets the downstream response. |
| Middleware.RedirectTargetPasses | stream/middleware.py:5-24 | Following the redirect reaches the page, so the gate cannot loop. |
| Middleware.BlockPersists | stream/middleware.py:19-21 | A blocked request stays blocked at every later time while the tenant is unchanged. |
| Middleware.OnlyLapsedOwnersRedirected | stream/middleware.py:15-21 | An anonymous user, a user without a tenant, or a user whose tenant is active is always passed through. |

## Left out

- Network I/O: the `requests` session, chunked streaming and response headers other than Content-Type and Content-Length. Replies are records and the HTTP client is the parameter `fetch`.
- Float positions: positions are reals. NaN, infinities and `float()` text parsing are not modelled; the result of `float()` on a text is an input, `Option<real>`. A posted `"inf"` would be stored, and its label would raise OverflowError; neither is captured.
- Views.FormatDurationLabel: takes a real. The fallback to `0:00` for non-numeric input is not modelled, because every caller passes a stored position.
- Slugify.Slugify: models only the ASCII part of Django's `slugify`. The NFKD normalisation that turns accented letters into ASCII is not modelled; non-ASCII characters are dropped.
- Forms.CleanSourceUrl: `urlsplit`/`urlunsplit` are taken to give back the text before the first `#` unchanged. Their normalisations are not modelled, and the following list is not exhaustive:
  - the lower-cased scheme;
  - a dropped empty `?`;
  - removed tab and newline characters;
  - `//` rebuilt after a scheme that takes a network location when that location is empty (`http:#x` becomes `http://#x`, `https:a#x` becomes `https:///a#x`);
  - the ValueError `urlsplit` raises on an unbalanced `[` or `]` in the network location. It is not caught, so the request fails with a server error, where the model returns a string.
- Views.PostProgress: reads the position with the corrected `ParsePosition` of the Findings row. Where the handler as written raises TypeError or AttributeError (a JSON body that is not an object, or a position that is null, a list or an object), the request fails with a server error and nothing is written; the model records 0.0 instead.
- Portal.SortByRecency: builds a new sorted sequence instead of sorting the list in place. Whether the sort is stable is not observable, because the database returns rows in no fixed order.
- Portal.BuildPortal: the order in which the database returns progress rows is left open. The contract holds for every order, so equal timestamps may rank either way.
- The Drive proxy route is taken as `/drive/`, with the app mounted at the site root; the project's root URL configuration is not part of this model.
- Django's `reverse`, the ORM (`Q` filters, `distinct`, `get_or_create`, `select_related`), messages and template rendering are not modelled. Lookups and upserts are map operations.
- The one-to-one link from user to tenant is modelled as an optional tenant key on the user. The store does not enforce that two tenants cannot share one user.
- Forms.CleanSlugKeepsSlugsUnique: covers non-empty slugs only. `clean_slug` lets an empty slug through unchecked, and `Video` has no save hook that fills one in, so two empty-slug videos of one owner would meet the table's unique constraint.
- `TenantPublicView`, `WatchVideoView`, the dashboard, login and logout views, `stream/backends.py`, `stream/admin.py` and `stream/apps.py` are not part of this model.
- stream/urls.py imports views that stream/views.py does not define (`OwnerSeries*`, `PwaHeartbeatView`, `TvChannelStreamView`). The video form's `genre` field reads `Video.VIDEO_GENRE_CHOICES` (stream/forms.py:63-64), which stream/models.py does not define. Neither is modelled.
- Portal caching, series and episode grouping, genre buckets, a top-20 cap, TV-channel extraction and a Cache-Control header on the Drive stream do not exist in the code and are not modelled.

## Findings

| source | as written | input that shows it | evidently intended | confidence | as-written member | corrected member |
|---|---|---|---|---|---|---|
| stream/views.py:334-338 | The JSON branch catches only ValueError, so `float(None)` raises TypeError and `payload.get` on a non-object raises AttributeError. Both escape as a server error. | The JSON body `{"position": null}` (or `[1]`) | Any unreadable position is recorded as 0.0, like the form branch and the other fallbacks | not executed | Views.NullPositionFails | Views.ParsePositionCorrectsFailures |
