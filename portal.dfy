/**
 * The tenant portal's catalog page: which videos are listed, where each
 * resumes, and the "continue watching" row.
 */
module Portal {
  import opened Wrappers
  import opened Http
  import opened Models
  import Views

  /** How many videos the "continue watching" row shows at most. */
  const ContinueLimit: nat := 4

  // ---------------------------------------------------------------------
  // Listed videos

  /**
   * The portal's filter: public, and not blocked for the tenant; with no
   * tenant, only videos blocked for nobody.
   */
  predicate Eligible(v: Video, tenant: Option<TenantId>)
    ensures tenant.Some? ==> (Eligible(v, tenant) <==> v.isPublic && IsVisibleTo(v, tenant.value))
    ensures tenant.None? ==> (Eligible(v, tenant) <==> v.isPublic && v.blockedTenants == {})
  {
    v.isPublic && (if tenant.Some? then v.blockedTenants == {} || tenant.value !in v.blockedTenants
                   else v.blockedTenants == {})
  }

  /** The videos the portal lists. */
  function ListedVideos(videos: map<VideoId, Video>, tenant: Option<TenantId>): (listed: set<VideoId>)
    ensures forall id :: id in listed ==> id in videos && videos[id].isPublic
    ensures tenant.Some? ==> forall id :: id in videos ==>
              (id in listed <==> videos[id].isPublic && IsVisibleTo(videos[id], tenant.value))
    ensures tenant.None? ==> forall id :: id in videos ==>
              (id in listed <==> videos[id].isPublic && videos[id].blockedTenants == {})
  {
    set id | id in videos && Eligible(videos[id], tenant)
  }

  /** A tenant sees every video a visitor without a tenant sees. */
  lemma TenantSeesMore(videos: map<VideoId, Video>, tenant: TenantId)
    ensures ListedVideos(videos, None) <= ListedVideos(videos, Some(tenant))
  {
  }

  // ---------------------------------------------------------------------
  // Progress rows

  /** The tenant's progress rows on listed videos, by video. */
  function TenantRows(progress: map<ProgressKey, Progress>, tenant: TenantId, listed: set<VideoId>): map<VideoId, Progress> {
    map v | v in listed && (tenant, v) in progress :: progress[(tenant, v)]
  }

  /** Every element names a row. */
  predicate InRows(rows: map<VideoId, Progress>, s: seq<VideoId>) {
    forall i :: 0 <= i < |s| ==> s[i] in rows
  }

  /** The rows are ordered by `updated_at`, newest first. */
  predicate NewestFirst(rows: map<VideoId, Progress>, s: seq<VideoId>) {
    InRows(rows, s) && forall i, j :: 0 <= i < j < |s| ==> rows[s[i]].updatedAt >= rows[s[j]].updatedAt
  }

  /** No element occurs twice. */
  ghost predicate NoRepeats(s: seq<VideoId>) {
    forall x :: multiset(s)[x] <= 1
  }

  /** The elements of a sequence. */
  function Elems(s: seq<VideoId>): set<VideoId> {
    set x | x in s
  }

  /** A sequence without repeats is as long as its set of elements is large. */
  lemma {:induction false} NoRepeatsCard(s: seq<VideoId>)
    requires NoRepeats(s)
    ensures |s| == |Elems(s)|
  {
    if s != [] {
      var t := s[1..];
      assert s == [s[0]] + t;
      assert multiset(s) == multiset{s[0]} + multiset(t);
      assert NoRepeats(t) by {
        forall x
          ensures multiset(t)[x] <= 1
        {
          assert multiset(t)[x] <= multiset(s)[x];
        }
      }
      assert s[0] !in t by {
        assert multiset(s)[s[0]] == 1 + multiset(t)[s[0]];
      }
      assert Elems(s) == {s[0]} + Elems(t);
      NoRepeatsCard(t);
    }
  }

  /** Putting a row in front of a newest-first sequence of rows no newer than it keeps the order. */
  lemma PrependNewest(rows: map<VideoId, Progress>, x: VideoId, s: seq<VideoId>)
    requires x in rows && NewestFirst(rows, s)
    requires forall i :: 0 <= i < |s| ==> rows[x].updatedAt >= rows[s[i]].updatedAt
    ensures NewestFirst(rows, [x] + s)
  {
    var t := [x] + s;
    forall i, j | 0 <= i < j < |t|
      ensures rows[t[i]].updatedAt >= rows[t[j]].updatedAt
    {
      assert t[j] == s[j - 1];
      if i > 0 {
        assert t[i] == s[i - 1];
      }
    }
  }

  /** The rows of `sorted`'s tail, with `v` added, are no newer than its head. */
  lemma NoNewerThanHead(rows: map<VideoId, Progress>, sorted: seq<VideoId>, v: VideoId, rest: seq<VideoId>)
    requires NewestFirst(rows, sorted) && sorted != [] && v in rows
    requires rows[sorted[0]].updatedAt >= rows[v].updatedAt
    requires multiset(rest) == multiset(sorted[1..]) + multiset{v} && InRows(rows, rest)
    ensures forall i :: 0 <= i < |rest| ==> rows[sorted[0]].updatedAt >= rows[rest[i]].updatedAt
  {
    forall i | 0 <= i < |rest|
      ensures rows[sorted[0]].updatedAt >= rows[rest[i]].updatedAt
    {
      assert rest[i] in multiset(rest);
      if rest[i] != v {
        assert rest[i] in multiset(sorted[1..]);
        var j :| 0 <= j < |sorted[1..]| && sorted[1..][j] == rest[i];
        assert sorted[1..][j] == sorted[j + 1];
      }
    }
  }

  /**
   * Inserts `v` into a newest-first sequence after every row at least as new
   * as it, which is how a stable sort orders rows with equal timestamps.
   */
  function InsertByRecency(rows: map<VideoId, Progress>, sorted: seq<VideoId>, v: VideoId): (r: seq<VideoId>)
    requires NewestFirst(rows, sorted) && v in rows
    ensures NewestFirst(rows, r)
    ensures multiset(r) == multiset(sorted) + multiset{v}
  {
    if sorted == [] then [v]
    else if rows[sorted[0]].updatedAt >= rows[v].updatedAt then
      var tail := sorted[1..];
      assert NewestFirst(rows, tail) by {
        assert forall i :: 0 <= i < |tail| ==> tail[i] == sorted[i + 1];
      }
      var rest := InsertByRecency(rows, tail, v);
      NoNewerThanHead(rows, sorted, v, rest);
      PrependNewest(rows, sorted[0], rest);
      assert sorted == [sorted[0]] + tail;
      [sorted[0]] + rest
    else
      PrependNewest(rows, v, sorted);
      [v] + sorted
  }

  /** `continue_entries.sort(key=updated_at, reverse=True)`, as insertion of one row at a time. */
  method SortByRecency(rows: map<VideoId, Progress>, entries: seq<VideoId>) returns (sorted: seq<VideoId>)
    requires InRows(rows, entries)
    ensures NewestFirst(rows, sorted)
    ensures multiset(sorted) == multiset(entries)
  {
    sorted := [];
    for i := 0 to |entries|
      invariant NewestFirst(rows, sorted)
      invariant multiset(sorted) == multiset(entries[..i])
    {
      sorted := InsertByRecency(rows, sorted, entries[i]);
      assert entries[..i + 1] == entries[..i] + [entries[i]];
    }
    assert entries[..|entries|] == entries;
  }

  /** `[progress for progress in entries if progress.position > 0]` */
  function Resumable(rows: map<VideoId, Progress>, s: seq<VideoId>): (r: seq<VideoId>)
    requires InRows(rows, s)
    ensures InRows(rows, r)
    ensures forall v :: v in r <==> v in s && rows[v].position > 0.0
    ensures multiset(r) <= multiset(s)
  {
    if s == [] then []
    else
      var last := s[|s| - 1];
      var init := Resumable(rows, s[..|s| - 1]);
      assert s == s[..|s| - 1] + [last];
      if rows[last].position > 0.0 then init + [last] else init
  }

  /** The videos with a row at a positive position: the candidates for "continue watching". */
  function ContinueCandidates(rows: map<VideoId, Progress>): set<VideoId> {
    set v | v in rows && rows[v].position > 0.0
  }

  // ---------------------------------------------------------------------
  // The page

  /** A "continue watching" entry: the video with its resume position and label. */
  datatype ContinueItem = ContinueItem(video: VideoId, resumePosition: real, resumeLabel: string)

  /** What `get_queryset` hands to the template. */
  datatype PortalPage = PortalPage(
    videos: set<VideoId>,
    resume: map<VideoId, real>,        // `resume_position` of each listed video
    progressMap: map<VideoId, real>,
    continueItems: seq<ContinueItem>)

  /** `progress_map.get(video, 0)` */
  function PositionOr0(progressMap: map<VideoId, real>, v: VideoId): real {
    if v in progressMap then progressMap[v] else 0.0
  }

  /** The item shown for video `v`. */
  function ItemFor(progressMap: map<VideoId, real>, v: VideoId): ContinueItem {
    ContinueItem(v, PositionOr0(progressMap, v), Views.FormatDurationLabel(PositionOr0(progressMap, v)))
  }

  /** The progress rows the page is built from: none for a user without a tenant. */
  function PageRows(store: Store, user: User): map<VideoId, Progress>
    reads store
  {
    var listed := ListedVideos(store.videos, user.tenantProfile);
    if user.tenantProfile.Some? then TenantRows(store.progress, user.tenantProfile.value, listed) else map[]
  }

  /** Every row that is a candidate is in the ranked list, ahead of or after the shown prefix. */
  lemma LeftOutNotNewer(rows: map<VideoId, Progress>, ranked: seq<VideoId>, k: nat, v: VideoId)
    requires NewestFirst(rows, ranked) && k <= |ranked|
    requires v in ranked && v !in ranked[..k]
    ensures forall i :: 0 <= i < k ==> rows[v].updatedAt <= rows[ranked[i]].updatedAt
  {
    var j :| 0 <= j < |ranked| && ranked[j] == v;
  }

  /**
   * The tenant's progress rows in the order the database returns them (no
   * fixed order), and `progress_map`, their positions by video.
   */
  method ReadProgressRows(rows: map<VideoId, Progress>) returns (entries: seq<VideoId>, progressMap: map<VideoId, real>)
    ensures InRows(rows, entries) && NoRepeats(entries)
    ensures forall v :: v in entries <==> v in rows
    ensures progressMap == map v | v in rows :: rows[v].position
  {
    entries, progressMap := [], map[];
    var remaining := rows.Keys;
    while remaining != {}
      invariant remaining <= rows.Keys
      invariant InRows(rows, entries) && NoRepeats(entries)
      invariant forall v :: v in entries <==> v in rows && v !in remaining
      invariant progressMap == map v | v in rows && v !in remaining :: rows[v].position
      decreases |remaining|
    {
      var v :| v in remaining;
      assert multiset(entries + [v]) == multiset(entries) + multiset{v};
      entries := entries + [v];
      progressMap := progressMap[v := rows[v].position];
      remaining := remaining - {v};
    }
  }

  /** The loop that sets `resume_position` on every listed video. */
  method ResumePositions(listed: set<VideoId>, progressMap: map<VideoId, real>) returns (resume: map<VideoId, real>)
    ensures resume.Keys == listed
    ensures forall v :: v in listed ==> resume[v] == PositionOr0(progressMap, v)
  {
    resume := map[];
    var pending := listed;
    while pending != {}
      invariant pending <= listed
      invariant resume.Keys == listed - pending
      invariant forall v :: v in resume ==> resume[v] == PositionOr0(progressMap, v)
      decreases |pending|
    {
      var v :| v in pending;
      resume := resume[v := PositionOr0(progressMap, v)];
      pending := pending - {v};
    }
  }

  /** Filtering one more row at the end appends it when its position is positive. */
  lemma ResumableSnoc(rows: map<VideoId, Progress>, s: seq<VideoId>, x: VideoId)
    requires InRows(rows, s) && x in rows
    ensures InRows(rows, s + [x])
    ensures Resumable(rows, s + [x]) == Resumable(rows, s) + (if rows[x].position > 0.0 then [x] else [])
  {
    assert (s + [x])[..|s|] == s;
  }

  /** The loop form of `Resumable`: keeps the rows at a positive position, in order. */
  method ResumableEntries(rows: map<VideoId, Progress>, entries: seq<VideoId>) returns (candidates: seq<VideoId>)
    requires InRows(rows, entries)
    ensures candidates == Resumable(rows, entries)
  {
    candidates := [];
    for i := 0 to |entries|
      invariant candidates == Resumable(rows, entries[..i])
    {
      assert entries[..i + 1] == entries[..i] + [entries[i]];
      ResumableSnoc(rows, entries[..i], entries[i]);
      if rows[entries[i]].position > 0.0 {
        candidates := candidates + [entries[i]];
      }
    }
    assert entries[..|entries|] == entries;
  }

  /** The loop that gives each shown video its resume position and label. */
  method LabelItems(progressMap: map<VideoId, real>, shown: seq<VideoId>) returns (items: seq<ContinueItem>)
    ensures |items| == |shown|
    ensures forall k :: 0 <= k < |shown| ==> items[k] == ItemFor(progressMap, shown[k])
  {
    items := [];
    for i := 0 to |shown|
      invariant |items| == i
      invariant forall k :: 0 <= k < i ==> items[k] == ItemFor(progressMap, shown[k])
    {
      items := items + [ItemFor(progressMap, shown[i])];
    }
  }

  /**
   * The "continue watching" row: the rows at a positive position, sorted
   * newest first, cut to the first four, each with its resume position and
   * label. `ranked` is the full sorted list the row is cut from.
   */
  method ContinueWatching(rows: map<VideoId, Progress>, entries: seq<VideoId>, progressMap: map<VideoId, real>)
    returns (items: seq<ContinueItem>, ghost ranked: seq<VideoId>)
    requires InRows(rows, entries) && NoRepeats(entries)
    requires forall v :: v in entries <==> v in rows
    requires progressMap == map v | v in rows :: rows[v].position
    ensures NewestFirst(rows, ranked) && NoRepeats(ranked)
    ensures Elems(ranked) == ContinueCandidates(rows) && |ranked| == |ContinueCandidates(rows)|
    ensures |items| == (if |ranked| < ContinueLimit then |ranked| else ContinueLimit)
    ensures forall i :: 0 <= i < |items| ==> items[i] == ItemFor(progressMap, ranked[i])
    ensures forall i :: 0 <= i < |items| ==>
              items[i].video in rows && items[i].resumePosition == rows[items[i].video].position > 0.0
    ensures forall v :: v in ContinueCandidates(rows) && v !in ranked[..|items|] ==>
              forall i :: 0 <= i < |items| ==> rows[v].updatedAt <= rows[items[i].video].updatedAt
  {
    items, ranked := [], [];
    if entries != [] {
      var candidates := ResumableEntries(rows, entries);
      var sorted := SortByRecency(rows, candidates);
      ranked := sorted;
      var shown := if |sorted| > ContinueLimit then sorted[..ContinueLimit] else sorted;
      items := LabelItems(progressMap, shown);
    }
    RankedFacts(rows, entries, ranked);
    ShownItemsFacts(rows, progressMap, ranked, items);
  }

  /**
   * The shown items of a newest-first ranking of the candidates each resume
   * at their row's positive position, and no candidate left out is newer.
   */
  lemma ShownItemsFacts(rows: map<VideoId, Progress>, progressMap: map<VideoId, real>, ranked: seq<VideoId>, items: seq<ContinueItem>)
    requires progressMap == map v | v in rows :: rows[v].position
    requires NewestFirst(rows, ranked) && Elems(ranked) == ContinueCandidates(rows)
    requires |items| <= |ranked|
    requires forall i :: 0 <= i < |items| ==> items[i] == ItemFor(progressMap, ranked[i])
    ensures forall i :: 0 <= i < |items| ==>
              items[i].video in rows && items[i].resumePosition == rows[items[i].video].position > 0.0
    ensures forall v :: v in ContinueCandidates(rows) && v !in ranked[..|items|] ==>
              forall i :: 0 <= i < |items| ==> rows[v].updatedAt <= rows[items[i].video].updatedAt
  {
    forall i | 0 <= i < |items|
      ensures items[i].video in rows && items[i].resumePosition == rows[items[i].video].position > 0.0
    {
      assert ranked[i] in Elems(ranked);
    }
    forall v | v in ContinueCandidates(rows) && v !in ranked[..|items|]
      ensures forall i :: 0 <= i < |items| ==> rows[v].updatedAt <= rows[items[i].video].updatedAt
    {
      assert v in Elems(ranked);
      LeftOutNotNewer(rows, ranked, |items|, v);
    }
  }

  /**
   * `TenantPortalView.get_queryset`: lists the eligible videos, gives each its
   * resume position (0 without progress), and picks the "continue watching"
   * row: the tenant's rows at a positive position, newest first, at most
   * four. `ranked` is the full newest-first list of candidates the row is
   * cut from; the database returns rows in no fixed order, so ties between
   * equal timestamps may fall either way.
   */
  method BuildPortal(store: Store, user: User) returns (r: Result<PortalPage, HttpError>, ghost ranked: seq<VideoId>)
    ensures !user.isAuthenticated ==> r == Err(LoginRequired)
    ensures user.isAuthenticated ==> r.Ok?
    ensures r.Ok? ==>
      var page, rows := r.value, PageRows(store, user);
      && page.videos == ListedVideos(store.videos, user.tenantProfile)
      && page.progressMap == (map v | v in rows :: rows[v].position)
      && page.resume.Keys == page.videos
      && (forall v :: v in page.videos ==> page.resume[v] == if v in rows then rows[v].position else 0.0)
      && NewestFirst(rows, ranked) && NoRepeats(ranked) && Elems(ranked) == ContinueCandidates(rows)
      && |ranked| == |ContinueCandidates(rows)|
      && |page.continueItems| == (if |ranked| < ContinueLimit then |ranked| else ContinueLimit)
      && (forall i :: 0 <= i < |page.continueItems| ==> page.continueItems[i] == ItemFor(page.progressMap, ranked[i]))
      && (forall i :: 0 <= i < |page.continueItems| ==>
            page.continueItems[i].video in rows && page.continueItems[i].resumePosition == rows[page.continueItems[i].video].position > 0.0)
      && (forall v :: v in ContinueCandidates(rows) && v !in ranked[..|page.continueItems|] ==>
            forall i :: 0 <= i < |page.continueItems| ==> rows[v].updatedAt <= rows[page.continueItems[i].video].updatedAt)
  {
    ranked := [];
    if !user.isAuthenticated {
      return Err(LoginRequired), ranked;
    }
    var tenant := user.tenantProfile;
    var listed := ListedVideos(store.videos, tenant);
    var rows: map<VideoId, Progress> := map[];
    if tenant.Some? {
      rows := TenantRows(store.progress, tenant.value, listed);
    }
    assert rows == PageRows(store, user);
    var entries, progressMap := ReadProgressRows(rows);
    var resume := ResumePositions(listed, progressMap);
    var items;
    items, ranked := ContinueWatching(rows, entries, progressMap);
    r := Ok(PortalPage(listed, resume, progressMap, items));
  }

  /** What ranking the candidates keeps: no repeats, exactly the candidates, as many as there are. */
  lemma RankedFacts(rows: map<VideoId, Progress>, entries: seq<VideoId>, ranked: seq<VideoId>)
    requires InRows(rows, entries) && NoRepeats(entries)
    requires forall v :: v in entries <==> v in rows
    requires entries == [] ==> ranked == []
    requires entries != [] ==> multiset(ranked) == multiset(Resumable(rows, entries))
    ensures NoRepeats(ranked)
    ensures Elems(ranked) == ContinueCandidates(rows)
    ensures |ranked| == |ContinueCandidates(rows)|
  {
    if entries != [] {
      var c := Resumable(rows, entries);
      forall x
        ensures multiset(ranked)[x] <= 1
      {
        assert multiset(ranked)[x] == multiset(c)[x] <= multiset(entries)[x];
      }
      forall x
        ensures x in ranked <==> x in c
      {
        assert x in ranked <==> x in multiset(ranked);
        assert x in c <==> x in multiset(c);
      }
    }
    NoRepeatsCard(ranked);
  }
}
