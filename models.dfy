/**
 * The records of the catalog (tenants, series, videos, playback progress),
 * the rules attached to them, and the store that holds them.
 */
module Models {
  import opened Wrappers
  import opened Text
  import Slugify

  /** Primary keys: auto-increment keys start at 1, so a key is never falsy. */
  type Id = n: nat | n > 0 witness 1
  type UserId = Id
  type TenantId = Id
  type SeriesId = Id
  type VideoId = Id
  /** Instants, in any fixed unit; only their order matters. */
  type Timestamp = int

  /** The authenticated user of a request; `tenantProfile` is the reverse one-to-one link to its tenant. */
  datatype User = User(
    id: UserId,
    fullName: string,
    username: string,
    email: string,
    isAuthenticated: bool,
    tenantProfile: Option<TenantId>)

  datatype Tenant = Tenant(
    user: UserId,
    slug: string,
    isActive: bool,
    accessEndDate: Option<Timestamp>,
    showSubscriptionPopup: bool)

  datatype Series = Series(tenant: TenantId, title: string, slug: string, isActive: bool)

  datatype Video = Video(
    tenant: TenantId,
    title: string,
    slug: string,
    sourceUrl: string,
    videoType: string,
    category: string,
    isPublic: bool,
    createdAt: Timestamp,
    blockedTenants: set<TenantId>,
    series: Option<SeriesId>)

  /** The one progress record of a (tenant, video) pair; the pair is its key in the store. */
  datatype Progress = Progress(position: real, updatedAt: Timestamp)

  type ProgressKey = (TenantId, VideoId)

  const VideoTypeMp4 := "mp4"
  const VideoTypeM3u8 := "m3u8"
  const EmbedType := "iframe"
  const VideoElementTypes: set<string> := {VideoTypeMp4, VideoTypeM3u8}
  const DeclaredVideoTypes: set<string> := {VideoTypeMp4, VideoTypeM3u8, EmbedType}

  const CategoryMovie := "movie"
  const CategorySeries := "series"
  const CategoryTv := "tv"

  // ---------------------------------------------------------------------
  // Tenant rules

  /** `Tenant.is_subscription_active`: no end date, or an end date not yet passed. */
  predicate IsSubscriptionActive(t: Tenant, now: Timestamp)
    ensures t.accessEndDate.None? ==> IsSubscriptionActive(t, now)
    ensures t.accessEndDate.Some? ==> (IsSubscriptionActive(t, now) <==> now <= t.accessEndDate.value)
  {
    t.accessEndDate.None? || t.accessEndDate.value >= now
  }

  /** Once a subscription has lapsed it stays lapsed as time goes on. */
  lemma LapseIsPermanent(t: Tenant, now: Timestamp, later: Timestamp)
    requires !IsSubscriptionActive(t, now) && now <= later
    ensures !IsSubscriptionActive(t, later)
  {
  }

  /** The stored end date was set and the one being saved is strictly later. */
  predicate AccessExtended(previous: Option<Option<Timestamp>>, endDate: Option<Timestamp>) {
    previous.Some? && previous.value.Some? && endDate.Some? && endDate.value > previous.value.value
  }

  /**
   * `Tenant.save`'s update of `show_subscription_popup`. `previous` is the
   * stored row's end date when a row with the tenant's key exists. The flag is
   * raised when access is extended or a new tenant is saved with an end date,
   * and it is never lowered.
   */
  function PopupAfterSave(shown: bool, previous: Option<Option<Timestamp>>, endDate: Option<Timestamp>): (r: bool)
    ensures shown ==> r
    ensures r <==> shown || AccessExtended(previous, endDate) || (previous.None? && endDate.Some?)
  {
    if previous.Some? && endDate.Some? && previous.value.Some? && endDate.value > previous.value.value then true
    else if previous.None? && endDate.Some? then true
    else shown
  }

  // ---------------------------------------------------------------------
  // Video rules

  /** `Video.stream_mime`. */
  function StreamMime(videoType: string): (mime: string)
    ensures videoType == VideoTypeM3u8 ==> mime == "application/x-mpegURL"
    ensures videoType == VideoTypeMp4 ==> mime == "video/mp4"
    ensures videoType !in VideoElementTypes ==> mime == ""
  {
    if videoType == VideoTypeM3u8 then "application/x-mpegURL"
    else if videoType == VideoTypeMp4 then "video/mp4"
    else ""
  }

  /** `Video.uses_video_element`. */
  predicate UsesVideoElement(videoType: string)
    ensures UsesVideoElement(videoType) <==> videoType == VideoTypeMp4 || videoType == VideoTypeM3u8
    ensures UsesVideoElement(videoType) <==> StreamMime(videoType) != ""
  {
    videoType in VideoElementTypes
  }

  /** `Video.uses_iframe_player`. */
  predicate UsesIframePlayer(videoType: string)
    ensures UsesIframePlayer(videoType) ==> !UsesVideoElement(videoType) && StreamMime(videoType) == ""
  {
    videoType == EmbedType
  }

  /**
   * The three playback-kind properties agree: a MIME type is announced exactly
   * for the types played by a video element, no type is played both ways, and
   * every declared type is played exactly one way.
   */
  lemma PlaybackKindsAgree(videoType: string)
    ensures StreamMime(videoType) != "" <==> UsesVideoElement(videoType)
    ensures !(UsesVideoElement(videoType) && UsesIframePlayer(videoType))
    ensures videoType in DeclaredVideoTypes <==> UsesVideoElement(videoType) || UsesIframePlayer(videoType)
  {
  }

  /** `Video.is_visible_to`: the tenant is not on the video's blocklist. */
  predicate IsVisibleTo(v: Video, tenant: TenantId)
    ensures v.blockedTenants == {} ==> IsVisibleTo(v, tenant)
    ensures IsVisibleTo(v, tenant) <==> tenant !in v.blockedTenants
  {
    tenant !in v.blockedTenants
  }

  // ---------------------------------------------------------------------
  // Unique slugs

  /** The k-th slug tried for `original`: `original`, then `original-1`, `original-2`, ... */
  function Candidate(original: string, k: nat): (slug: string)
    ensures k > 0 ==> |slug| > |original| + 1
  {
    if k == 0 then original else original + "-" + NatToString(k)
  }

  /** Distinct attempts give distinct slugs, so the search never revisits a slug. */
  lemma CandidatesDiffer(original: string, j: nat, k: nat)
    requires j != k
    ensures Candidate(original, j) != Candidate(original, k)
  {
    if j > 0 && k > 0 {
      var sj, sk := Candidate(original, j), Candidate(original, k);
      if sj == sk {
        var n := |original| + 1;
        assert NatToString(j) == sj[n..] == sk[n..] == NatToString(k);
        NatToStringInjective(j, k);
      }
    }
  }

  /** Every candidate built from a non-empty slug is itself a slug. */
  lemma CandidateIsSlug(original: string, k: nat)
    requires original != [] && Slugify.IsSlug(original)
    ensures Slugify.IsSlug(Candidate(original, k))
  {
    if k > 0 {
      var digits := NatToString(k);
      var c := Candidate(original, k);
      var n := |original|;
      assert c == original + "-" + digits;
      forall i | 0 <= i < |c|
        ensures ('a' <= c[i] <= 'z') || IsDigit(c[i]) || c[i] == '_' || c[i] == '-'
      {
        if i < n {
          assert c[i] == original[i];
        } else if i > n {
          assert c[i] == digits[i - n - 1];
        }
      }
      forall i | 0 <= i < |c| - 1
        ensures !(c[i] == '-' && c[i + 1] == '-')
      {
        if i < n - 1 {
          assert c[i] == original[i] && c[i + 1] == original[i + 1];
        } else if i == n - 1 {
          assert c[i] == original[n - 1];
        } else {
          assert c[i + 1] == digits[i - n];
        }
      }
      assert c[0] == original[0];
      assert c[|c| - 1] == digits[|digits| - 1];
    }
  }

  /** `slug` is the first candidate for `original` that is not in `taken`. */
  ghost predicate IsFirstFree(original: string, taken: set<string>, slug: string) {
    exists k: nat :: slug == Candidate(original, k) && slug !in taken
      && forall j: nat :: j < k ==> Candidate(original, j) in taken
  }

  /**
   * The search loop shared by `_generate_unique_slug` and
   * `get_or_create_owner_tenant`: try `original`, `original-1`, ... until a
   * slug is not taken. It stops because the attempts are pairwise different
   * and only finitely many slugs are taken.
   */
  method FirstFreeSlug(original: string, taken: set<string>) returns (slug: string)
    ensures slug !in taken
    ensures IsFirstFree(original, taken, slug)
  {
    slug := original;
    var idx := 1;
    ghost var tried: set<string> := {};
    while slug in taken
      invariant idx >= 1
      invariant slug == Candidate(original, idx - 1)
      invariant tried == set j: nat | j < idx - 1 :: Candidate(original, j)
      invariant tried <= taken
      invariant |tried| == idx - 1
      decreases |taken| - |tried|
    {
      forall j: nat | j < idx - 1
        ensures Candidate(original, j) != slug
      {
        CandidatesDiffer(original, j, idx - 1);
      }
      assert slug !in tried;
      tried := tried + {slug};
      assert |tried| <= |taken| by {
        SubsetSize(tried, taken);
      }
      slug := original + "-" + NatToString(idx);
      idx := idx + 1;
    }
    assert forall j: nat :: j < idx - 1 ==> Candidate(original, j) in tried;
  }

  /** The slug the search settles on is a slug when it starts from one. */
  lemma FirstFreeIsSlug(original: string, taken: set<string>, slug: string)
    requires original != [] && Slugify.IsSlug(original)
    requires IsFirstFree(original, taken, slug)
    ensures Slugify.IsSlug(slug)
  {
    var k: nat :| slug == Candidate(original, k) && slug !in taken
      && forall j: nat :: j < k ==> Candidate(original, j) in taken;
    CandidateIsSlug(original, k);
  }

  lemma SubsetSize<T>(a: set<T>, b: set<T>)
    requires a <= b
    ensures |a| <= |b|
  {
    assert b == a + (b - a);
  }

  /** The slugified text, or `fallback` when slugify leaves nothing. */
  function SlugBase(text: string, fallback: string): string {
    var s := Slugify.Slugify(text);
    if s == [] then fallback else s
  }

  /** A generated base is always a non-empty slug when the fallback is one. */
  lemma SlugBaseIsSlug(text: string, fallback: string)
    requires fallback != [] && Slugify.IsSlug(fallback)
    ensures SlugBase(text, fallback) != [] && Slugify.IsSlug(SlugBase(text, fallback))
  {
  }

  /**
   * `_generate_unique_slug(model, base, instance)`: `otherSlugs` are the slugs
   * of the table's rows other than the instance's own.
   */
  method GenerateUniqueSlug(base: string, otherSlugs: set<string>) returns (slug: string)
    ensures slug !in otherSlugs
    ensures IsFirstFree(SlugBase(base, "tenant"), otherSlugs, slug)
  {
    var original := Slugify.Slugify(base);
    if original == [] {
      original := "tenant";
    }
    slug := FirstFreeSlug(original, otherSlugs);
  }

  /** The first non-empty string of the `or` chain, or "" when all are empty. */
  function FirstNonEmpty(options: seq<string>): (r: string)
    ensures r == [] <==> forall i :: 0 <= i < |options| ==> options[i] == []
    ensures r != [] ==>
              exists i :: 0 <= i < |options| && r == options[i] && forall j :: 0 <= j < i ==> options[j] == []
  {
    if options == [] then []
    else if options[0] != [] then options[0]
    else
      var r := FirstNonEmpty(options[1..]);
      assert forall i :: 1 <= i < |options| ==> options[i] == options[1..][i - 1];
      r
  }

  // ---------------------------------------------------------------------
  // Table constraints

  /** `Tenant.slug` is unique. */
  ghost predicate UniqueTenantSlugs(tenants: map<TenantId, Tenant>) {
    forall a, b :: a in tenants && b in tenants && a != b ==> tenants[a].slug != tenants[b].slug
  }

  /** `Series` is unique on (tenant, slug). */
  ghost predicate UniqueSeriesSlugs(series: map<SeriesId, Series>) {
    forall a, b :: a in series && b in series && a != b && series[a].tenant == series[b].tenant
      ==> series[a].slug != series[b].slug
  }

  /** Writing a series whose slug no other series of its tenant has keeps (tenant, slug) unique. */
  lemma SeriesWriteKeepsUnique(series: map<SeriesId, Series>, id: SeriesId, saved: Series)
    requires UniqueSeriesSlugs(series)
    requires forall a :: a in series && a != id && series[a].tenant == saved.tenant ==> series[a].slug != saved.slug
    ensures UniqueSeriesSlugs(series[id := saved])
  {
  }

  /** `Video` is unique on (tenant, slug). */
  ghost predicate UniqueVideoSlugs(videos: map<VideoId, Video>) {
    forall a, b :: a in videos && b in videos && a != b && videos[a].tenant == videos[b].tenant
      ==> videos[a].slug != videos[b].slug
  }

  /** Slugs of the tenants other than the one keyed `pk` (all of them when `pk` is None). */
  function OtherTenantSlugs(tenants: map<TenantId, Tenant>, pk: Option<TenantId>): set<string> {
    set id | id in tenants && Some(id) != pk :: tenants[id].slug
  }

  function OtherSeriesSlugs(series: map<SeriesId, Series>, pk: Option<SeriesId>): set<string> {
    set id | id in series && Some(id) != pk :: series[id].slug
  }

  /** What `Tenant.save` reads back before saving: the stored end date, when a row with that key exists. */
  function StoredEndDate(tenants: map<TenantId, Tenant>, pk: Option<TenantId>): Option<Option<Timestamp>> {
    if pk.Some? && pk.value in tenants then Some(tenants[pk.value].accessEndDate) else None
  }

  /** The text `Tenant._prepare_slug` slugifies: full name, else e-mail, else username. */
  function TenantSlugSource(owner: User): string {
    FirstNonEmpty([owner.fullName, owner.email, owner.username])
  }

  datatype SaveError = IntegrityError

  /** The database: one map per table, keyed by primary key. */
  class Store {
    var tenants: map<TenantId, Tenant>
    var series: map<SeriesId, Series>
    var videos: map<VideoId, Video>
    /** Keyed by (tenant, video), so there is at most one record per pair. */
    var progress: map<ProgressKey, Progress>
    /** The next key the database hands out. */
    var nextId: Id

    ghost predicate Valid()
      reads this
    {
      && (forall id :: id in tenants ==> id < nextId)
      && (forall id :: id in series ==> id < nextId)
      && UniqueTenantSlugs(tenants)
      && UniqueSeriesSlugs(series)
      && UniqueVideoSlugs(videos)
    }

    constructor ()
      ensures Valid()
      ensures tenants == map[] && series == map[] && videos == map[] && progress == map[]
    {
      tenants, series, videos, progress := map[], map[], map[], map[];
      nextId := 1;
    }

    /**
     * `Tenant.save` for an instance with key `pk` and field values `t`, owned
     * by `owner`: an empty slug is filled by `_prepare_slug`, the popup flag
     * follows `PopupAfterSave`, and the row is written. A slug that another
     * tenant already has violates the unique constraint.
     */
    method SaveTenant(pk: Option<TenantId>, t: Tenant, owner: User) returns (r: Result<(TenantId, Tenant), SaveError>)
      requires Valid()
      modifies this
      ensures Valid()
      ensures series == old(series) && videos == old(videos) && progress == old(progress)
      ensures r.Ok? ==> var (id, saved) := r.value;
        && (pk.Some? ==> id == pk.value)
        && (pk.None? ==> id !in old(tenants))
        && tenants == old(tenants)[id := saved]
        && saved == t.(slug := saved.slug,
                       showSubscriptionPopup := PopupAfterSave(t.showSubscriptionPopup, StoredEndDate(old(tenants), pk), t.accessEndDate))
        && (t.slug != "" ==> saved.slug == t.slug)
        && (t.slug == "" ==> IsFirstFree(SlugBase(TenantSlugSource(owner), "tenant"), OtherTenantSlugs(old(tenants), pk), saved.slug))
      ensures r.Err? ==> tenants == old(tenants)
      ensures r.Err? <==> t.slug != "" && t.slug in OtherTenantSlugs(old(tenants), pk)
      ensures t.slug == "" ==> r.Ok?
    {
      var previous := StoredEndDate(tenants, pk);
      var slug := t.slug;
      var others := OtherTenantSlugs(tenants, pk);
      if slug == "" {
        slug := GenerateUniqueSlug(TenantSlugSource(owner), others);
      }
      var saved := t.(slug := slug, showSubscriptionPopup := PopupAfterSave(t.showSubscriptionPopup, previous, t.accessEndDate));
      var id := if pk.Some? then pk.value else nextId;
      assert OtherTenantSlugs(tenants, Some(id)) == others;
      if slug in others {
        return Err(IntegrityError);
      }
      forall a | a in tenants && a != id
        ensures tenants[a].slug != slug
      {
        assert tenants[a].slug in others;
      }
      tenants := tenants[id := saved];
      if id >= nextId {
        nextId := id + 1;
      }
      r := Ok((id, saved));
    }

    /**
     * `Series.save`: an empty slug is filled from the title by
     * `_generate_unique_slug` over every series row but this one; the row is
     * written unless another series of the same tenant has the slug.
     */
    method SaveSeries(pk: Option<SeriesId>, s: Series) returns (r: Result<(SeriesId, Series), SaveError>)
      requires Valid()
      modifies this
      ensures Valid()
      ensures tenants == old(tenants) && videos == old(videos) && progress == old(progress)
      ensures r.Ok? ==> var (id, saved) := r.value;
        && (pk.Some? ==> id == pk.value)
        && (pk.None? ==> id !in old(series))
        && series == old(series)[id := saved]
        && saved == s.(slug := saved.slug)
        && (s.slug != "" ==> saved.slug == s.slug)
        && (s.slug == "" ==> IsFirstFree(SlugBase(s.title, "tenant"), OtherSeriesSlugs(old(series), pk), saved.slug))
      ensures r.Err? ==> series == old(series)
      ensures r.Err? <==> s.slug != "" && exists a :: a in old(series) && Some(a) != pk
                                                    && old(series)[a].tenant == s.tenant && old(series)[a].slug == s.slug
      ensures s.slug == "" ==> r.Ok?
    {
      var slug := s.slug;
      var others := OtherSeriesSlugs(series, pk);
      if slug == "" {
        slug := GenerateUniqueSlug(s.title, others);
      }
      var saved := s.(slug := slug);
      var id := if pk.Some? then pk.value else nextId;
      assert OtherSeriesSlugs(series, Some(id)) == others;
      assert forall a :: a in series ==> (Some(a) != pk <==> a != id);
      if exists a :: a in series && a != id && series[a].tenant == s.tenant && series[a].slug == slug {
        assert s.slug != "" by {
          var a :| a in series && a != id && series[a].tenant == s.tenant && series[a].slug == slug;
          assert series[a].slug in others;
        }
        return Err(IntegrityError);
      }
      SeriesWriteKeepsUnique(series, id, saved);
      series := series[id := saved];
      if id >= nextId {
        nextId := id + 1;
      }
      r := Ok((id, saved));
    }
  }
}
