/**
 * Google Drive links: finding the file id in a shared link, rewriting the
 * playback URL to the local drive route, and the download handshake that
 * follows a "confirm" token.
 */
module Drive {
  import opened Wrappers
  import opened Http

  /** `[0-9A-Za-z_-]`. */
  predicate IsIdChar(c: char) {
    ('0' <= c <= '9') || ('A' <= c <= 'Z') || ('a' <= c <= 'z') || c == '_' || c == '-'
  }

  /** What `([0-9A-Za-z_-]+)` captures: a non-empty run of id characters. */
  predicate IsIdString(t: string) {
    t != [] && forall i :: 0 <= i < |t| ==> IsIdChar(t[i])
  }

  // ---------------------------------------------------------------------
  // Regular-expression search for `<marker>([0-9A-Za-z_-]+)`

  /** The literal `m` stands at `i` and an id character follows it. */
  predicate MarkerAt(s: string, i: nat, m: string) {
    i + |m| < |s| && s[i..i + |m|] == m && IsIdChar(s[i + |m|])
  }

  /** The first of the alternative markers that matches at `i`. */
  function FirstMarker(s: string, i: nat, markers: seq<string>): (r: Option<string>)
    ensures r.Some? ==> r.value in markers && MarkerAt(s, i, r.value)
    ensures r.None? ==> forall m :: m in markers ==> !MarkerAt(s, i, m)
  {
    if markers == [] then None
    else if MarkerAt(s, i, markers[0]) then Some(markers[0])
    else FirstMarker(s, i, markers[1..])
  }

  /** The pattern matches with its match starting at `i`. */
  predicate MatchesAt(s: string, i: nat, markers: seq<string>) {
    FirstMarker(s, i, markers).Some?
  }

  /** The leftmost start at or after `from` where the pattern matches, as `re.search` scans. */
  function FirstMatch(s: string, markers: seq<string>, from: nat): (r: Option<nat>)
    ensures r.Some? ==> from <= r.value < |s| && MatchesAt(s, r.value, markers)
    ensures r.Some? ==> forall k :: from <= k < r.value ==> !MatchesAt(s, k, markers)
    ensures r.None? ==> forall k :: from <= k < |s| ==> !MatchesAt(s, k, markers)
    decreases |s| - from
  {
    if from >= |s| then None
    else if MatchesAt(s, from, markers) then Some(from)
    else FirstMatch(s, markers, from + 1)
  }

  /** Where the greedy run of id characters starting at `i` ends. */
  function IdRunEnd(s: string, i: nat): (j: nat)
    requires i <= |s|
    ensures i <= j <= |s|
    ensures forall k :: i <= k < j ==> IsIdChar(s[k])
    ensures j == |s| || !IsIdChar(s[j])
    decreases |s| - i
  {
    if i < |s| && IsIdChar(s[i]) then IdRunEnd(s, i + 1) else i
  }

  /**
   * `re.search(pattern, s).group(1)` for a pattern made of a marker (one of
   * the alternatives) and `([0-9A-Za-z_-]+)`: the id characters after the
   * marker of the leftmost match.
   */
  function SearchToken(s: string, markers: seq<string>): (token: Option<string>)
    ensures token.None? <==> forall k :: 0 <= k < |s| ==> !MatchesAt(s, k, markers)
    ensures token.Some? ==> IsIdString(token.value)
  {
    match FirstMatch(s, markers, 0)
    case None => None
    case Some(k) =>
      var m := FirstMarker(s, k, markers).value;
      var t := s[k + |m|..IdRunEnd(s, k + |m|)];
      assert t[0] == s[k + |m|];
      Some(t)
  }

  // ---------------------------------------------------------------------
  // File ids

  /** `/file/d/([0-9A-Za-z_-]+)` */
  const FilePathMarkers: seq<string> := ["/file/d/"]
  /** `id=([0-9A-Za-z_-]+)` */
  const IdParamMarkers: seq<string> := ["id="]
  /** `/open\\?id=([0-9A-Za-z_-]+)`: "/open", an optional backslash, then "id=". */
  const OpenLinkMarkers: seq<string> := ["/open\\id=", "/openid="]

  /** `DRIVE_ID_PATTERNS`, in the order they are tried. */
  const DriveIdPatterns: seq<seq<string>> := [FilePathMarkers, IdParamMarkers, OpenLinkMarkers]

  /** The token of the first pattern in `patterns` that matches somewhere in `s`. */
  function FirstPatternToken(s: string, patterns: seq<seq<string>>): (token: Option<string>)
    ensures token.Some? ==> IsIdString(token.value)
    ensures token.None? <==> forall p :: p in patterns ==> SearchToken(s, p).None?
    ensures token.Some? ==> exists i :: 0 <= i < |patterns| && SearchToken(s, patterns[i]) == token
                                        && forall j :: 0 <= j < i ==> SearchToken(s, patterns[j]).None?
  {
    if patterns == [] then None
    else if SearchToken(s, patterns[0]).Some? then SearchToken(s, patterns[0])
    else FirstPatternToken(s, patterns[1..])
  }

  /** `_extract_google_drive_id(url)`; `None` stands for Python's None. */
  function ExtractDriveId(url: Option<string>): (id: Option<string>)
    ensures id.Some? ==> IsIdString(id.value)
    ensures url.None? || url.value == [] ==> id.None?
    ensures url.Some? && url.value != [] ==>
      (id.None? <==> forall i :: 0 <= i < |DriveIdPatterns| ==> SearchToken(url.value, DriveIdPatterns[i]).None?)
    ensures id.Some? ==> exists i :: 0 <= i < |DriveIdPatterns| && SearchToken(url.value, DriveIdPatterns[i]) == id
                                     && forall j :: 0 <= j < i ==> SearchToken(url.value, DriveIdPatterns[j]).None?
  {
    if url.None? || url.value == [] then None
    else FirstPatternToken(url.value, DriveIdPatterns)
  }

  /** Wherever the open-link pattern matches, the `id=` pattern matches too. */
  lemma {:induction false} OpenLinkImpliesIdParam(s: string, k: nat)
    requires MatchesAt(s, k, OpenLinkMarkers)
    ensures MatchesAt(s, k + |FirstMarker(s, k, OpenLinkMarkers).value| - 3, IdParamMarkers)
  {
    var m := FirstMarker(s, k, OpenLinkMarkers).value;
    var j := k + |m| - 3;
    assert s[j..j + 3] == s[k..k + |m|][|m| - 3..];
    assert MarkerAt(s, j, "id=");
  }

  /**
   * The third pattern never decides the result: any link it matches is
   * already matched by `id=`, which is tried before it. So the id is the one
   * the first two patterns give.
   */
  lemma OpenLinkPatternIsRedundant(url: string)
    ensures FirstPatternToken(url, DriveIdPatterns) == FirstPatternToken(url, [FilePathMarkers, IdParamMarkers])
  {
    if SearchToken(url, FilePathMarkers).None? && SearchToken(url, IdParamMarkers).None? {
      if SearchToken(url, OpenLinkMarkers).Some? {
        var k := FirstMatch(url, OpenLinkMarkers, 0).value;
        OpenLinkImpliesIdParam(url, k);
        assert false;
      }
      assert DriveIdPatterns[2..] == [OpenLinkMarkers];
    }
  }

  // ---------------------------------------------------------------------
  // Playback source

  /** The path `reverse("stream:google-drive-stream")` gives, with the app mounted at the site root. */
  const DriveRoute: string := "/drive/"

  /** The local streaming URL for a Drive file id. */
  function DriveLink(id: string): string {
    DriveRoute + "?id=" + id
  }

  /** `get_playback_source`: Drive links are rewritten to the local stream route, anything else is kept. */
  function GetPlaybackSource(sourceUrl: string): (r: string)
    ensures ExtractDriveId(Some(sourceUrl)).Some? ==> r == DriveLink(ExtractDriveId(Some(sourceUrl)).value)
    ensures ExtractDriveId(Some(sourceUrl)).None? ==> r == sourceUrl
  {
    var id := ExtractDriveId(Some(sourceUrl));
    if id.Some? then DriveLink(id.value) else sourceUrl
  }

  /** The greedy run of id characters reaches the end when everything after `i` is an id character. */
  lemma IdRunToEnd(s: string, i: nat)
    requires i <= |s|
    requires forall k :: i <= k < |s| ==> IsIdChar(s[k])
    ensures IdRunEnd(s, i) == |s|
  {
  }

  /** A marker standing at `i` fixes the characters it covers. */
  lemma MarkerChars(s: string, i: nat, m: string)
    ensures MarkerAt(s, i, m) ==> forall j :: 0 <= j < |m| ==> s[i + j] == m[j]
  {
    if MarkerAt(s, i, m) {
      forall j | 0 <= j < |m|
        ensures s[i + j] == m[j]
      {
        assert s[i..i + |m|][j] == s[i + j];
      }
    }
  }

  /** A match at `k` with none before it is the leftmost one. */
  lemma LeftmostMatch(s: string, markers: seq<string>, k: nat)
    requires MatchesAt(s, k, markers)
    requires forall j :: 0 <= j < k ==> !MatchesAt(s, j, markers)
    ensures FirstMatch(s, markers, 0) == Some(k)
  {
  }

  /** A marker cannot stand where one of its characters differs from the text. */
  lemma MarkerCharDiffers(s: string, i: nat, m: string, j: nat)
    requires j < |m| && i + j < |s| && s[i + j] != m[j]
    ensures !MarkerAt(s, i, m)
  {
    if i + |m| <= |s| {
      assert s[i..i + |m|][j] == s[i + j];
    }
  }

  /** The local stream link has no `/file/d/` in it. */
  lemma DriveLinkHasNoFilePath(id: string)
    requires IsIdString(id)
    ensures SearchToken(DriveLink(id), FilePathMarkers).None?
  {
    var r := DriveLink(id);
    var m := FilePathMarkers[0];
    assert m[0] == '/' && m[1] == 'f';
    assert r[..11] == "/drive/?id=";
    forall k | 0 <= k < |r|
      ensures !MatchesAt(r, k, FilePathMarkers)
    {
      if k == 0 || k == 6 {
        assert r[k + 1] == r[..11][k + 1];
        MarkerCharDiffers(r, k, m, 1);
      } else {
        if k < 11 {
          assert r[k] == r[..11][k];
        } else {
          assert r[k] == id[k - 11];
        }
        MarkerCharDiffers(r, k, m, 0);
      }
    }
  }

  /** In the local stream link the leftmost `id=` is the one at position 8. */
  lemma DriveLinkIdParamAt(id: string)
    requires IsIdString(id)
    ensures FirstMatch(DriveLink(id), IdParamMarkers, 0) == Some(8)
    ensures FirstMarker(DriveLink(id), 8, IdParamMarkers) == Some("id=")
  {
    var r := DriveLink(id);
    assert r[..11] == "/drive/?id=";
    assert r[8..11] == "id=";
    assert r[11] == id[0];
    assert MarkerAt(r, 8, "id=");
    forall k | 0 <= k < 8
      ensures !MatchesAt(r, k, IdParamMarkers)
    {
      MarkerChars(r, k, "id=");
      assert r[k] == r[..11][k];
      assert r[k + 1] == r[..11][k + 1];
    }
    assert FirstMarker(r, 8, IdParamMarkers) == Some("id=");
    LeftmostMatch(r, IdParamMarkers, 8);
  }

  /** The token of a search is the id run after the marker of the leftmost match. */
  lemma SearchTokenAt(s: string, markers: seq<string>, k: nat, m: string)
    requires FirstMatch(s, markers, 0) == Some(k)
    requires FirstMarker(s, k, markers) == Some(m)
    ensures SearchToken(s, markers) == Some(s[k + |m|..IdRunEnd(s, k + |m|)])
  {
  }

  /** When no `/file/d/` link is found, the `id=` parameter decides. */
  lemma IdParamDecides(s: string)
    requires s != []
    requires SearchToken(s, FilePathMarkers).None?
    requires SearchToken(s, IdParamMarkers).Some?
    ensures ExtractDriveId(Some(s)) == SearchToken(s, IdParamMarkers)
  {
    var rest := DriveIdPatterns[1..];
    assert DriveIdPatterns[0] == FilePathMarkers;
    assert FirstPatternToken(s, DriveIdPatterns) == FirstPatternToken(s, rest);
    assert rest[0] == IdParamMarkers;
  }

  /** The id is read back from the local stream link that carries it. */
  lemma DriveLinkId(id: string)
    requires IsIdString(id)
    ensures ExtractDriveId(Some(DriveLink(id))) == Some(id)
  {
    var r := DriveLink(id);
    DriveLinkHasNoFilePath(id);
    DriveLinkIdParamAt(id);
    SearchTokenAt(r, IdParamMarkers, 8, "id=");
    forall k | 11 <= k < |r|
      ensures IsIdChar(r[k])
    {
      assert r[k] == id[k - 11];
    }
    IdRunToEnd(r, 11);
    assert r[11..|r|] == id;
    IdParamDecides(r);
  }

  /** Rewriting a link keeps the Drive id it carries, and leaves links without one as they are. */
  lemma PlaybackSourceKeepsId(sourceUrl: string)
    ensures ExtractDriveId(Some(GetPlaybackSource(sourceUrl))) == ExtractDriveId(Some(sourceUrl))
    ensures ExtractDriveId(Some(sourceUrl)).None? ==> GetPlaybackSource(sourceUrl) == sourceUrl
  {
    var id := ExtractDriveId(Some(sourceUrl));
    if id.Some? {
      DriveLinkId(id.value);
    }
  }

  /** Rewriting the playback source twice gives the same URL as rewriting it once. */
  lemma PlaybackSourceIdempotent(sourceUrl: string)
    ensures GetPlaybackSource(GetPlaybackSource(sourceUrl)) == GetPlaybackSource(sourceUrl)
  {
    PlaybackSourceKeepsId(sourceUrl);
  }

  // ---------------------------------------------------------------------
  // Download handshake

  /** `confirm=([0-9A-Za-z_-]+)` */
  const ConfirmMarkers: seq<string> := ["confirm="]

  /** `_extract_confirm_token(body)`: the token after the leftmost `confirm=` in the page. */
  function ExtractConfirmToken(body: string): (token: Option<string>)
    ensures token.Some? ==> IsIdString(token.value)
    ensures token.None? <==> forall k :: 0 <= k < |body| ==> !MatchesAt(body, k, ConfirmMarkers)
  {
    SearchToken(body, ConfirmMarkers)
  }

  /** Query parameters of a request to the Drive download endpoint. */
  type Params = map<string, string>

  /** What the model keeps of a reply from the Drive download endpoint. */
  datatype Reply = Reply(
    status: int,
    cookies: seq<(string, string)>,   // the cookie jar, in iteration order
    body: string,
    contentType: Option<string>,      // the Content-Type header, if present
    contentLength: Option<string>)    // the Content-Length header, if present

  /** `{"export": "download", "id": file_id}` */
  function DownloadParams(fileId: string): Params {
    map["export" := "download", "id" := fileId]
  }

  /** `key.startswith("download_warning")` */
  predicate IsWarningCookie(key: string) {
    |key| >= 16 && key[..16] == "download_warning"
  }

  /** The value of the first cookie whose name starts with `download_warning`. */
  function FirstWarningCookie(cookies: seq<(string, string)>): (token: Option<string>)
    ensures token.None? <==> forall i :: 0 <= i < |cookies| ==> !IsWarningCookie(cookies[i].0)
    ensures token.Some? ==> exists i :: 0 <= i < |cookies| && IsWarningCookie(cookies[i].0) && token.value == cookies[i].1
                                        && forall j :: 0 <= j < i ==> !IsWarningCookie(cookies[j].0)
  {
    if cookies == [] then None
    else if IsWarningCookie(cookies[0].0) then Some(cookies[0].1)
    else
      var rest := FirstWarningCookie(cookies[1..]);
      assert forall i :: 1 <= i < |cookies| ==> cookies[i] == cookies[1..][i - 1];
      rest
  }

  /** The loop over the cookie jar that stops at the first warning cookie. */
  method FindWarningCookie(cookies: seq<(string, string)>) returns (token: Option<string>)
    ensures token == FirstWarningCookie(cookies)
  {
    token := None;
    var i := 0;
    while i < |cookies|
      invariant 0 <= i <= |cookies|
      invariant FirstWarningCookie(cookies) == FirstWarningCookie(cookies[i..])
    {
      if IsWarningCookie(cookies[i].0) {
        token := Some(cookies[i].1);
        return;
      }
      assert cookies[i..][1..] == cookies[i + 1..];
      i := i + 1;
    }
  }

  /**
   * The confirmation token of a first reply: a non-empty value of the first
   * warning cookie, otherwise the token in the page. Python's `if not token`
   * treats None and "" alike, so an empty cookie value falls back to the page.
   */
  function ConfirmToken(reply: Reply): (token: Option<string>)
    ensures token.Some? ==> token.value != []
    ensures token.Some? <==>
      (FirstWarningCookie(reply.cookies).Some? && FirstWarningCookie(reply.cookies).value != [])
      || ExtractConfirmToken(reply.body).Some?
    ensures FirstWarningCookie(reply.cookies).Some? && FirstWarningCookie(reply.cookies).value != [] ==>
      token == FirstWarningCookie(reply.cookies)
    ensures !(FirstWarningCookie(reply.cookies).Some? && FirstWarningCookie(reply.cookies).value != []) ==>
      token == ExtractConfirmToken(reply.body)
  {
    var cookie := FirstWarningCookie(reply.cookies);
    if cookie.Some? && cookie.value != [] then cookie else ExtractConfirmToken(reply.body)
  }

  /** A warning cookie with a value wins over a token in the page. */
  lemma CookieTokenWins(reply: Reply, value: string)
    requires FirstWarningCookie(reply.cookies) == Some(value) && value != []
    ensures ConfirmToken(reply) == Some(value)
  {
  }

  /** The state of a download: which request is next, or the reply that ends it. */
  datatype Handshake =
    | InitialRequest(params: Params)
    | AwaitingConfirmation(params: Params)
    | Resolved(reply: Reply)

  /** One step: the reply to the pending request either ends the download or asks for confirmation. */
  function Advance(h: Handshake, reply: Reply): (next: Handshake)
    requires !h.Resolved?
    ensures next.AwaitingConfirmation? <==> h.InitialRequest? && reply.status == 200 && ConfirmToken(reply).Some?
    ensures next.AwaitingConfirmation? ==> next.params == h.params["confirm" := ConfirmToken(reply).value]
    ensures next.Resolved? ==> next.reply == reply
    ensures !next.InitialRequest?
  {
    match h
    case InitialRequest(params) =>
      if reply.status != 200 then Resolved(reply)
      else
        var token := ConfirmToken(reply);
        if token.Some? then AwaitingConfirmation(params["confirm" := token.value]) else Resolved(reply)
    case AwaitingConfirmation(_) => Resolved(reply)
  }

  /** A download: the reply it ends with and the requests it sent, in order. */
  datatype Download = Download(reply: Reply, sent: seq<Params>)

  /** The handshake run to its end, with `fetch` standing for one GET of the download endpoint. */
  function RunDownload(fileId: string, fetch: Params -> Reply): (d: Download)
    ensures 1 <= |d.sent| <= 2 && d.sent[0] == DownloadParams(fileId)
    ensures d.reply == fetch(d.sent[|d.sent| - 1])
  {
    var first := fetch(DownloadParams(fileId));
    match Advance(InitialRequest(DownloadParams(fileId)), first)
    case AwaitingConfirmation(params) =>
      var last := Advance(AwaitingConfirmation(params), fetch(params));
      Download(last.reply, [DownloadParams(fileId), params])
    case Resolved(reply) => Download(reply, [DownloadParams(fileId)])
  }

  /**
   * At most two requests: the second is sent exactly when the first reply is
   * 200 and carries a token, and it repeats the first with `confirm` added.
   */
  lemma RunDownloadRequests(fileId: string, fetch: Params -> Reply)
    ensures var d := RunDownload(fileId, fetch);
      var first := fetch(DownloadParams(fileId));
      (|d.sent| == 2 <==> first.status == 200 && ConfirmToken(first).Some?)
      && (|d.sent| == 2 ==> d.sent[1] == DownloadParams(fileId)["confirm" := ConfirmToken(first).value])
      && (|d.sent| == 1 ==> d.reply == first)
  {
  }

  /** `_follow_drive_download(file_id)` */
  method FollowDriveDownload(fileId: string, fetch: Params -> Reply) returns (reply: Reply, sent: seq<Params>)
    ensures Download(reply, sent) == RunDownload(fileId, fetch)
  {
    var params := DownloadParams(fileId);
    reply := fetch(params);
    sent := [params];
    if reply.status != 200 {
      return;
    }
    var token := FindWarningCookie(reply.cookies);
    if token.None? || token.value == [] {
      token := ExtractConfirmToken(reply.body);
    }
    if token.Some? && token.value != [] {
      params := params["confirm" := token.value];
      reply := fetch(params);
      sent := sent + [params];
    }
  }

  /** The streamed reply `google_drive_stream` returns; its body is the upstream body. */
  datatype StreamReply = StreamReply(contentType: string, contentLength: Option<string>, contentDisposition: string)

  /** The type used when the upstream reply has no Content-Type. */
  const DefaultContentType: string := "application/octet-stream"

  /** `google_drive_stream`: `fileId` is the `id` query parameter, if present. */
  method GoogleDriveStream(fileId: Option<string>, fetch: Params -> Reply) returns (r: Result<StreamReply, HttpError>)
    ensures fileId.None? || fileId.value == [] ==> r == Err(NotFound)
    ensures fileId.Some? && fileId.value != [] ==>
      var final := RunDownload(fileId.value, fetch).reply;
      (r.Ok? <==> final.status == 200)
      && (r.Err? ==> r.error == NotFound)
      && (r.Ok? ==> r.value.contentType == (if final.contentType.Some? then final.contentType.value else DefaultContentType))
      && (r.Ok? ==> r.value.contentLength == (if final.contentLength.Some? && final.contentLength.value != [] then final.contentLength else None))
      && (r.Ok? ==> r.value.contentDisposition == "inline; filename=\"" + fileId.value + "\"")
  {
    if fileId.None? || fileId.value == [] {
      return Err(NotFound);
    }
    var reply, _ := FollowDriveDownload(fileId.value, fetch);
    if reply.status != 200 {
      return Err(NotFound);
    }
    var contentType := if reply.contentType.Some? then reply.contentType.value else DefaultContentType;
    var contentLength := None;
    if reply.contentLength.Some? && reply.contentLength.value != [] {
      contentLength := reply.contentLength;
    }
    r := Ok(StreamReply(contentType, contentLength, "inline; filename=\"" + fileId.value + "\""));
  }
}
