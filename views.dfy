/**
 * The request handlers that read and change the catalog: tenant lookup by
 * slug, the resume-time label, saving and clearing playback progress, and
 * the owner's own tenant.
 */
module Views {
  import opened Wrappers
  import opened Text
  import opened Http
  import opened Models
  import Slugify

  // ---------------------------------------------------------------------
  // Tenant lookup

  /**
   * `get_tenant_from_slug(slug)`: the active tenant with that slug, unless
   * its access has ended. The slug is unique, so at most one tenant matches.
   */
  function GetTenantFromSlug(tenants: map<TenantId, Tenant>, slug: string, now: Timestamp): (r: Result<TenantId, HttpError>)
    requires UniqueTenantSlugs(tenants)
    ensures r.Ok? ==> r.value in tenants && tenants[r.value].slug == slug && tenants[r.value].isActive
                      && IsSubscriptionActive(tenants[r.value], now)
    ensures r.Err? ==> r.error == NotFound
    ensures r.Err? ==> forall id :: id in tenants && tenants[id].slug == slug && tenants[id].isActive
                                    ==> !IsSubscriptionActive(tenants[id], now)
  {
    var found := set id | id in tenants && tenants[id].slug == slug && tenants[id].isActive;
    if found == {} then
      assert forall id :: id in tenants && tenants[id].slug == slug && tenants[id].isActive ==> id in found;
      Err(NotFound)
    else
      var id :| id in found;
      if !IsSubscriptionActive(tenants[id], now) then Err(NotFound) else Ok(id)
  }

  // ---------------------------------------------------------------------
  // Resume label

  /** `int(x)` for a float: the integer part, rounding toward zero. */
  function TruncateTowardZero(x: real): (n: int)
    ensures x >= 0.0 ==> n as real <= x < n as real + 1.0
    ensures x < 0.0 ==> n as real - 1.0 < x <= n as real
  {
    if x >= 0.0 then x.Floor else -((-x).Floor)
  }

  /** `f"{secs:02d}"` for a number of seconds below 60. */
  function TwoDigits(n: nat): string
    requires n < 100
  {
    [DigitChar(n / 10), DigitChar(n % 10)]
  }

  /**
   * `format_duration_label(seconds)`: "minutes:seconds" of the whole seconds,
   * with negative positions shown as "0:00".
   */
  function FormatDurationLabel(seconds: real): (shown: string)
    ensures shown == NatToString(WholeSeconds(seconds) / 60) + ":" + TwoDigits(WholeSeconds(seconds) % 60)
  {
    var total := TruncateTowardZero(seconds);
    var total := if total < 0 then 0 else total;
    NatToString(total / 60) + ":" + TwoDigits(total % 60)
  }

  /** The whole seconds a position stands for: none for a negative position. */
  function WholeSeconds(seconds: real): nat {
    if seconds < 0.0 then 0 else seconds.Floor
  }

  /** Reads a "minutes:seconds" label back into seconds; None for anything else. */
  function ParseDurationLabel(shown: string): Option<nat> {
    match IndexOf(shown, ':')
    case None => None
    case Some(i) =>
      var minutes, secs := shown[..i], shown[i + 1..];
      if minutes != [] && AllDigits(minutes) && |secs| == 2 && AllDigits(secs) && DigitsValue(secs) < 60
      then Some(DigitsValue(minutes) * 60 + DigitsValue(secs))
      else None
  }

  /** Two rendered digits read back as the number. */
  lemma TwoDigitsValue(n: nat)
    requires n < 100
    ensures AllDigits(TwoDigits(n)) && DigitsValue(TwoDigits(n)) == n
  {
    var t := TwoDigits(n);
    assert t[..1] == [DigitChar(n / 10)];
    assert DigitsValue(t[..1]) == DigitValue(DigitChar(n / 10)) by {
      assert t[..1][..0] == [];
    }
  }

  /**
   * The label shows exactly the whole seconds of the position: reading it back
   * gives the position rounded down, or 0 for a negative position.
   */
  lemma FormatDurationLabelRoundTrip(seconds: real)
    ensures ParseDurationLabel(FormatDurationLabel(seconds)) == Some(WholeSeconds(seconds))
  {
    var total := WholeSeconds(seconds);
    var m := NatToString(total / 60);
    var s := TwoDigits(total % 60);
    var text := m + ":" + s;
    assert text == FormatDurationLabel(seconds);
    assert ':' !in m by {
      forall i | 0 <= i < |m|
        ensures m[i] != ':'
      {
        assert IsDigit(m[i]);
      }
    }
    assert text[..|m|] == m;
    assert IndexOf(text, ':') == Some(|m|);
    assert text[|m| + 1..] == s;
    TwoDigitsValue(total % 60);
    NatToStringRoundTrip(total / 60);
  }

  // ---------------------------------------------------------------------
  // Video lookup

  /** The videos `Video.objects.filter(slug=..., [is_public=True])` selects. */
  function VideosWithSlug(videos: map<VideoId, Video>, slug: string, publicOnly: bool): set<VideoId> {
    set id | id in videos && videos[id].slug == slug && (!publicOnly || videos[id].isPublic)
  }

  /** A set of one element is the singleton of that element. */
  lemma SingletonSet(s: set<VideoId>)
    requires |s| == 1
    ensures exists x :: s == {x}
  {
    var x :| x in s;
    assert |s - {x}| == 0;
    assert s == {x};
  }

  /**
   * `get_object_or_404(Video, slug=..., [is_public=True])`: the one matching
   * video; 404 when none matches, and an error when several tenants' videos
   * share the slug (the slug is unique only within a tenant).
   */
  function GetVideoBySlug(videos: map<VideoId, Video>, slug: string, publicOnly: bool): (r: Result<VideoId, HttpError>)
    ensures r.Ok? <==> |VideosWithSlug(videos, slug, publicOnly)| == 1
    ensures r.Ok? ==> VideosWithSlug(videos, slug, publicOnly) == {r.value}
    ensures r.Err? ==> (r.error == NotFound <==> VideosWithSlug(videos, slug, publicOnly) == {})
    ensures r.Err? ==> r.error == NotFound || r.error == MultipleObjectsReturned
  {
    var found := VideosWithSlug(videos, slug, publicOnly);
    if |found| == 0 then Err(NotFound)
    else if |found| > 1 then Err(MultipleObjectsReturned)
    else
      SingletonSet(found);
      var id :| found == {id};
      Ok(id)
  }

  /** Video slugs are unique per tenant, so a tenant's own video is found by slug only when no other tenant uses it. */
  lemma OwnVideoFound(videos: map<VideoId, Video>, id: VideoId, publicOnly: bool)
    requires id in videos && (!publicOnly || videos[id].isPublic)
    requires forall other :: other in videos && other != id ==> videos[other].slug != videos[id].slug
    ensures GetVideoBySlug(videos, videos[id].slug, publicOnly) == Ok(id)
  {
    assert VideosWithSlug(videos, videos[id].slug, publicOnly) == {id};
  }

  // ---------------------------------------------------------------------
  // Playback position of a progress request

  /** A JSON value as `json.loads` gives it, kept to what `float()` does with it. */
  datatype JsonValue =
    | JsonNumber(number: real)           // an int or a float; true and false are 1 and 0
    | JsonString(asFloat: Option<real>)  // float() of the text; None when it raises ValueError
    | JsonNull
    | JsonContainer                      // a list or an object

  /** The body of a JSON request. */
  datatype JsonBody =
    | Undecodable                        // not UTF-8 or not JSON: ValueError
    | NonObject                          // a top-level value other than an object
    | JsonObject(position: Option<JsonValue>)  // an object, with its "position" member if present

  datatype ProgressRequest =
    | JsonRequest(body: JsonBody)
    /** A form post: the "position" field if sent, with float() of its text. */
    | FormRequest(field: Option<Option<real>>)

  /** A body whose position `float()` or `.get` rejects with an exception other than ValueError. */
  predicate FailsToRead(body: JsonBody) {
    || body.NonObject?
    || (body.JsonObject? && body.position.Some? && (body.position.value.JsonNull? || body.position.value.JsonContainer?))
  }

  /** The exceptions that escape the handler's `try` blocks. */
  datatype Uncaught = TypeError | AttributeError

  /**
   * The position as the handler reads it: `float(payload.get("position", 0.0))`
   * for JSON, `float(request.POST.get("position", 0.0))` for a form, 0.0 where
   * ValueError is caught. The JSON branch does not catch TypeError or
   * AttributeError.
   */
  function ParsePositionAsWritten(req: ProgressRequest): (r: Result<real, Uncaught>)
    ensures r.Err? <==> req.JsonRequest? && FailsToRead(req.body)
  {
    match req
    case JsonRequest(body) =>
      (match body
       case Undecodable => Ok(0.0)
       case NonObject => Err(AttributeError)
       case JsonObject(None) => Ok(0.0)
       case JsonObject(Some(v)) =>
         match v
         case JsonNumber(x) => Ok(x)
         case JsonString(f) => Ok(if f.Some? then f.value else 0.0)
         case JsonNull => Err(TypeError)
         case JsonContainer => Err(TypeError))
    case FormRequest(field) => Ok(if field.Some? && field.value.Some? then field.value.value else 0.0)
  }

  /** A JSON body `{"position": null}` makes the handler fail instead of recording 0. */
  lemma NullPositionFails()
    ensures ParsePositionAsWritten(JsonRequest(JsonObject(Some(JsonNull)))) == Err(TypeError)
  {
  }

  /**
   * The position with every unreadable payload treated as 0.0, as the
   * handler's fallbacks intend.
   */
  function ParsePosition(req: ProgressRequest): real {
    match req
    case JsonRequest(JsonObject(Some(JsonNumber(x)))) => x
    case JsonRequest(JsonObject(Some(JsonString(Some(x))))) => x
    case FormRequest(Some(Some(x))) => x
    case _ => 0.0
  }

  /**
   * The corrected reading agrees with the handler wherever the handler does
   * not fail, and gives the fallback 0.0 where it fails.
   */
  lemma ParsePositionCorrectsFailures(req: ProgressRequest)
    ensures ParsePositionAsWritten(req).Ok? ==> ParsePosition(req) == ParsePositionAsWritten(req).value
    ensures ParsePositionAsWritten(req).Err? ==> ParsePosition(req) == 0.0
  {
  }

  /** `max(0.0, position)`. */
  function ClampPosition(position: real): (r: real)
    ensures r >= 0.0 && r >= position
    ensures r == position || r == 0.0
  {
    if position < 0.0 then 0.0 else position
  }

  // ---------------------------------------------------------------------
  // Handlers that change the store

  /**
   * `VideoProgressView.post`: the signed-in user of tenant `slug` records the
   * playback position of video `videoSlug`. The (tenant, video) record is
   * created or overwritten with the clamped position and stamped `now`.
   */
  method PostProgress(store: Store, user: User, slug: string, videoSlug: string, req: ProgressRequest, now: Timestamp)
    returns (r: Result<real, HttpError>)
    requires store.Valid()
    modifies store
    ensures store.Valid()
    ensures store.tenants == old(store.tenants) && store.series == old(store.series) && store.videos == old(store.videos)
    ensures !user.isAuthenticated ==> r == Err(LoginRequired)
    ensures user.isAuthenticated && GetTenantFromSlug(old(store.tenants), slug, now).Err? ==> r == Err(NotFound)
    ensures user.isAuthenticated && GetTenantFromSlug(old(store.tenants), slug, now).Ok?
            && user.tenantProfile != Some(GetTenantFromSlug(old(store.tenants), slug, now).value)
            ==> r == Err(Forbidden)
    ensures user.isAuthenticated && GetTenantFromSlug(old(store.tenants), slug, now).Ok?
            && user.tenantProfile == Some(GetTenantFromSlug(old(store.tenants), slug, now).value)
            && GetVideoBySlug(old(store.videos), videoSlug, false).Err?
            ==> r == Err(GetVideoBySlug(old(store.videos), videoSlug, false).error)
    ensures user.isAuthenticated && GetTenantFromSlug(old(store.tenants), slug, now).Ok?
            && user.tenantProfile == Some(GetTenantFromSlug(old(store.tenants), slug, now).value)
            && GetVideoBySlug(old(store.videos), videoSlug, false).Ok?
            && !IsVisibleTo(old(store.videos)[GetVideoBySlug(old(store.videos), videoSlug, false).value],
                            GetTenantFromSlug(old(store.tenants), slug, now).value)
            ==> r == Err(NotFound)
    ensures r.Ok? <==>
      && user.isAuthenticated
      && GetTenantFromSlug(old(store.tenants), slug, now).Ok?
      && user.tenantProfile == Some(GetTenantFromSlug(old(store.tenants), slug, now).value)
      && GetVideoBySlug(old(store.videos), videoSlug, false).Ok?
      && IsVisibleTo(old(store.videos)[GetVideoBySlug(old(store.videos), videoSlug, false).value],
                     GetTenantFromSlug(old(store.tenants), slug, now).value)
    ensures r.Ok? ==> r.value == ClampPosition(ParsePosition(req)) && r.value >= 0.0
    ensures r.Ok? ==>
      var key := (GetTenantFromSlug(old(store.tenants), slug, now).value, GetVideoBySlug(old(store.videos), videoSlug, false).value);
      store.progress == old(store.progress)[key := Progress(r.value, now)]
    ensures r.Err? ==> store.progress == old(store.progress)
  {
    if !user.isAuthenticated {
      return Err(LoginRequired);
    }
    var tenant := GetTenantFromSlug(store.tenants, slug, now);
    if tenant.Err? {
      return Err(tenant.error);
    }
    if user.tenantProfile != Some(tenant.value) {
      return Err(Forbidden);
    }
    var video := GetVideoBySlug(store.videos, videoSlug, false);
    if video.Err? {
      return Err(video.error);
    }
    if !IsVisibleTo(store.videos[video.value], tenant.value) {
      return Err(NotFound);
    }
    var position := ClampPosition(ParsePosition(req));
    store.progress := store.progress[(tenant.value, video.value) := Progress(position, now)];
    r := Ok(position);
  }

  /**
   * `ResetContinueView.post`: the signed-in user's tenant forgets its
   * progress on public video `videoSlug`. The result says whether a record
   * was there to delete.
   */
  method ResetProgress(store: Store, user: User, videoSlug: string) returns (r: Result<bool, HttpError>)
    requires store.Valid()
    modifies store
    ensures store.Valid()
    ensures store.tenants == old(store.tenants) && store.series == old(store.series) && store.videos == old(store.videos)
    ensures !user.isAuthenticated ==> r == Err(LoginRequired)
    ensures user.isAuthenticated && user.tenantProfile.None? ==> r == Err(Forbidden)
    ensures user.isAuthenticated && user.tenantProfile.Some? && GetVideoBySlug(old(store.videos), videoSlug, true).Err?
            ==> r == Err(GetVideoBySlug(old(store.videos), videoSlug, true).error)
    ensures user.isAuthenticated && user.tenantProfile.Some? && GetVideoBySlug(old(store.videos), videoSlug, true).Ok?
            && !IsVisibleTo(old(store.videos)[GetVideoBySlug(old(store.videos), videoSlug, true).value], user.tenantProfile.value)
            ==> r == Err(NotFound)
    ensures r.Ok? <==>
      && user.isAuthenticated
      && user.tenantProfile.Some?
      && GetVideoBySlug(old(store.videos), videoSlug, true).Ok?
      && IsVisibleTo(old(store.videos)[GetVideoBySlug(old(store.videos), videoSlug, true).value], user.tenantProfile.value)
    ensures r.Ok? ==>
      var key := (user.tenantProfile.value, GetVideoBySlug(old(store.videos), videoSlug, true).value);
      r.value == (key in old(store.progress)) && store.progress == old(store.progress) - {key}
    ensures r.Err? ==> store.progress == old(store.progress)
  {
    if !user.isAuthenticated {
      return Err(LoginRequired);
    }
    if user.tenantProfile.None? {
      return Err(Forbidden);
    }
    var tenant := user.tenantProfile.value;
    var video := GetVideoBySlug(store.videos, videoSlug, true);
    if video.Err? {
      return Err(video.error);
    }
    if !IsVisibleTo(store.videos[video.value], tenant) {
      return Err(NotFound);
    }
    var key := (tenant, video.value);
    var existed := key in store.progress;
    store.progress := store.progress - {key};
    r := Ok(existed);
  }

  /** The slug an owner's new tenant starts from: full name, else username, else e-mail, else "proprietario". */
  function OwnerSlugBase(user: User): string {
    SlugBase(FirstNonEmpty([user.fullName, user.username, user.email, "proprietario"]), "proprietario")
  }

  /** The starting slug of an owner's tenant is a non-empty slug. */
  lemma OwnerSlugBaseIsSlug(user: User)
    ensures OwnerSlugBase(user) != [] && Slugify.IsSlug(OwnerSlugBase(user))
  {
    assert Slugify.IsSlug("proprietario");
    SlugBaseIsSlug(FirstNonEmpty([user.fullName, user.username, user.email, "proprietario"]), "proprietario");
  }

  /** Slugs in use by any tenant. */
  function AllTenantSlugs(tenants: map<TenantId, Tenant>): set<string> {
    set id | id in tenants :: tenants[id].slug
  }

  /**
   * `get_or_create_owner_tenant(user)`: the user's tenant, or a new active
   * tenant under the first free slug built from the owner's name.
   */
  method GetOrCreateOwnerTenant(store: Store, user: User) returns (id: TenantId)
    requires store.Valid()
    modifies store
    ensures store.Valid()
    ensures store.series == old(store.series) && store.videos == old(store.videos) && store.progress == old(store.progress)
    ensures user.tenantProfile.Some? ==> id == user.tenantProfile.value && store.tenants == old(store.tenants)
    ensures user.tenantProfile.None? ==>
      && id !in old(store.tenants)
      && id in store.tenants
      && store.tenants == old(store.tenants)[id := Tenant(user.id, store.tenants[id].slug, true, None, false)]
      && IsFirstFree(OwnerSlugBase(user), AllTenantSlugs(old(store.tenants)), store.tenants[id].slug)
      && Slugify.IsSlug(store.tenants[id].slug)
  {
    if user.tenantProfile.Some? {
      return user.tenantProfile.value;
    }
    var base := OwnerSlugBase(user);
    OwnerSlugBaseIsSlug(user);
    var taken := AllTenantSlugs(store.tenants);
    var slug := FirstFreeSlug(base, taken);
    FirstFreeIsSlug(base, taken, slug);
    assert OtherTenantSlugs(store.tenants, None) == taken;
    var t := Tenant(user.id, slug, true, None, false);
    var saved := store.SaveTenant(None, t, user);
    assert saved.Ok?;
    assert saved.value.1 == t;
    id := saved.value.0;
  }
}
