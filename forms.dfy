/**
 * The owner's video form: reading the source URL out of pasted `<iframe>`
 * markup, percent-encoding the URL fragment, the per-owner slug check and
 * the category a series implies.
 */
module Forms {
  import opened Wrappers
  import opened Text
  import opened Models
  import UrlQuote

  // ---------------------------------------------------------------------
  // `src\s*=\s*["\\']([^"\\']+)["\\']`, case-insensitive

  /** The characters that open and close the attribute value: `"`, `'` and `\`. */
  predicate IsDelimiter(c: char) {
    c == '"' || c == '\'' || c == '\\'
  }

  /** What each letter of `src` matches under IGNORECASE; 's' also matches U+017F, the long s. */
  predicate MatchesS(c: char) { c == 's' || c == 'S' || c == '\U{17F}' }
  predicate MatchesR(c: char) { c == 'r' || c == 'R' }
  predicate MatchesC(c: char) { c == 'c' || c == 'C' }

  /** Where `\s*` starting at `i` stops. */
  function SkipSpaces(s: string, i: nat): (j: nat)
    requires i <= |s|
    ensures i <= j <= |s|
    ensures forall k :: i <= k < j ==> IsSpace(s[k])
    ensures j == |s| || !IsSpace(s[j])
    decreases |s| - i
  {
    if i < |s| && IsSpace(s[i]) then SkipSpaces(s, i + 1) else i
  }

  /** Where the run of non-delimiters starting at `i` stops. */
  function RunEnd(s: string, i: nat): (j: nat)
    requires i <= |s|
    ensures i <= j <= |s|
    ensures forall k :: i <= k < j ==> !IsDelimiter(s[k])
    ensures j == |s| || IsDelimiter(s[j])
    decreases |s| - i
  {
    if i < |s| && !IsDelimiter(s[i]) then RunEnd(s, i + 1) else i
  }

  /**
   * The span of the captured value when the pattern matches starting at `i`.
   * Each `\s*` can only stop at the first non-space, and the greedy value
   * run can only stop at the first delimiter, so a match at `i` is unique.
   */
  function GroupAt(s: string, i: nat): (g: Option<(nat, nat)>)
    ensures g.Some? ==> i + 3 < g.value.0 < g.value.1 < |s|
    ensures g.Some? ==> IsDelimiter(s[g.value.0 - 1]) && IsDelimiter(s[g.value.1])
    ensures g.Some? ==> forall k :: g.value.0 <= k < g.value.1 ==> !IsDelimiter(s[k])
  {
    if i + 3 > |s| || !(MatchesS(s[i]) && MatchesR(s[i + 1]) && MatchesC(s[i + 2])) then None
    else
      var j := SkipSpaces(s, i + 3);
      if j == |s| || s[j] != '=' then None
      else
        var k := SkipSpaces(s, j + 1);
        if k == |s| || !IsDelimiter(s[k]) then None
        else
          var e := RunEnd(s, k + 1);
          if e == k + 1 || e == |s| then None else Some((k + 1, e))
  }

  /** The leftmost position in `[from, end)` that satisfies `p`, as a left-to-right scan finds it. */
  function Leftmost(p: nat -> bool, from: nat, end: nat): (r: Option<nat>)
    ensures r.Some? ==> from <= r.value < end && p(r.value)
    ensures r.Some? ==> forall k :: from <= k < r.value ==> !p(k)
    ensures r.None? ==> forall k :: from <= k < end ==> !p(k)
    decreases end - from
  {
    if from >= end then None
    else if p(from) then Some(from)
    else Leftmost(p, from + 1, end)
  }

  /** The leftmost start at or after `from` where the pattern matches. */
  function FirstSrcMatch(s: string, from: nat): (r: Option<nat>)
    ensures r.Some? ==> from <= r.value < |s| && GroupAt(s, r.value).Some?
    ensures r.Some? ==> forall k :: from <= k < r.value ==> GroupAt(s, k).None?
    ensures r.None? ==> forall k :: from <= k < |s| ==> GroupAt(s, k).None?
  {
    var matches := (k: nat) => GroupAt(s, k).Some?;
    assert forall k: nat :: matches(k) == GroupAt(s, k).Some?;
    Leftmost(matches, from, |s|)
  }

  /**
   * `_extract_iframe_src(value)`: the attribute value of the leftmost match,
   * or None; None stands for Python's None as input too.
   */
  function ExtractIframeSrc(value: Option<string>): (src: Option<string>)
    ensures value.None? ==> src.None?
    ensures value.Some? ==> (src.None? <==> forall k :: 0 <= k < |value.value| ==> GroupAt(value.value, k).None?)
    ensures src.Some? ==> src.value != [] && forall k :: 0 <= k < |src.value| ==> !IsDelimiter(src.value[k])
    ensures src.Some? ==> value.Some? && (exists i :: 0 <= i < |value.value| && GroupAt(value.value, i).Some?
                                                 && (forall k :: 0 <= k < i ==> GroupAt(value.value, k).None?)
                                                 && src.value == value.value[GroupAt(value.value, i).value.0..GroupAt(value.value, i).value.1])
  {
    if value.None? then None
    else
      var s := value.value;
      match FirstSrcMatch(s, 0)
      case None => None
      case Some(i) =>
        var (b, e) := GroupAt(s, i).value;
        Some(s[b..e])
  }

  /** Embed markup as video sites hand it out, around the address `url`. */
  function EmbedMarkup(url: string): string {
    "<iframe src=\"" + url + "\"></iframe>"
  }

  /** The pattern matches the embed markup at the `src` attribute, position 8. */
  lemma EmbedMarkupMatch(url: string)
    requires url != [] && forall k :: 0 <= k < |url| ==> !IsDelimiter(url[k])
    ensures GroupAt(EmbedMarkup(url), 8) == Some((13, 13 + |url|))
  {
    var m := EmbedMarkup(url);
    assert m[..13] == "<iframe src=\"";
    assert m[8] == m[..13][8] && m[9] == m[..13][9] && m[10] == m[..13][10];
    assert m[11] == m[..13][11] && m[12] == m[..13][12];
    assert SkipSpaces(m, 11) == 11;
    assert SkipSpaces(m, 12) == 12;
    forall k | 13 <= k < 13 + |url|
      ensures !IsDelimiter(m[k])
    {
      assert m[k] == url[k - 13];
    }
    assert m[13 + |url|] == '"';
    assert RunEnd(m, 13) == 13 + |url|;
  }

  /** The address in embed markup is read back exactly. */
  lemma EmbedSrcRoundTrip(url: string)
    requires url != [] && forall k :: 0 <= k < |url| ==> !IsDelimiter(url[k])
    ensures ExtractIframeSrc(Some(EmbedMarkup(url))) == Some(url)
  {
    var m := EmbedMarkup(url);
    EmbedMarkupMatch(url);
    assert m[..13] == "<iframe src=\"";
    forall k | 0 <= k < 8
      ensures GroupAt(m, k).None?
    {
      assert m[k] == m[..13][k];
    }
    var first := FirstSrcMatch(m, 0);
    assert first == Some(8);
    assert m[13..13 + |url|] == url;
  }

  // ---------------------------------------------------------------------
  // clean_source_url

  /** The value before the fragment step: stripped, and replaced by the stripped iframe `src` when there is one. */
  function PreparedUrl(value: Option<string>): string {
    PreferIframeSrc(Strip(if value.Some? then value.value else ""))
  }

  /** The stripped `src` of the iframe markup in `url`, or `url` itself when there is none. */
  function PreferIframeSrc(url: string): (r: string)
    ensures ExtractIframeSrc(Some(url)).None? ==> r == url
    ensures ExtractIframeSrc(Some(url)).Some? ==>
      && r == Strip(ExtractIframeSrc(Some(url)).value)
      && (forall k :: 0 <= k < |r| ==> !IsDelimiter(r[k]))
      && (r == [] || (!IsSpace(r[0]) && !IsSpace(r[|r| - 1])))
  {
    var src := ExtractIframeSrc(Some(url));
    if src.Some? then Strip(src.value) else url
  }

  /**
   * The fragment step: everything after the first '#' is percent-encoded
   * with no safe characters, and an empty fragment drops the '#'. The text
   * before the first '#' is kept and at most that one '#' is left.
   */
  function EncodeFragment(url: string): (r: string)
    requires '#' in url
    ensures var i := IndexOf(url, '#').value;
      && |r| >= i && r[..i] == url[..i]
      && '#' !in url[..i]
      && (url[i + 1..] == [] ==> r == url[..i])
      && (url[i + 1..] != [] ==>
            |r| > i && r[i] == '#' && '#' !in r[i + 1..])
  {
    var i := IndexOf(url, '#').value;
    var fragment := url[i + 1..];
    UrlQuote.QuoteEmpty(fragment);
    UrlQuote.QuoteHasNoHash(fragment);
    var quoted := UrlQuote.Quote(fragment);
    if quoted == [] then url[..i]
    else
      var r := url[..i] + "#" + quoted;
      assert r[i + 1..] == quoted;
      r
  }

  /** What follows the '#' of an encoded fragment decodes back to the UTF-8 bytes of the original fragment. */
  lemma EncodeFragmentDecodes(url: string)
    requires '#' in url
    ensures var r, i := EncodeFragment(url), IndexOf(url, '#').value;
      url[i + 1..] != [] ==> UrlQuote.UnquoteToBytes(r[i + 1..]) == Some(UrlQuote.Utf8Encode(url[i + 1..]))
  {
    var i := IndexOf(url, '#').value;
    var fragment := url[i + 1..];
    UrlQuote.QuoteEmpty(fragment);
    UrlQuote.QuoteRoundTrip(fragment);
    if fragment != [] {
      assert EncodeFragment(url)[i + 1..] == UrlQuote.Quote(fragment);
    }
  }

  /** `VideoForm.clean_source_url`; `value` is the submitted field, None when absent. */
  function CleanSourceUrl(value: Option<string>): (r: string)
    ensures '#' !in PreparedUrl(value) ==> r == PreparedUrl(value)
    ensures '#' in PreparedUrl(value) ==> r == EncodeFragment(PreparedUrl(value))
    ensures '#' in r ==> '#' in PreparedUrl(value)
  {
    var url := PreparedUrl(value);
    if '#' in url then EncodeFragment(url) else url
  }

  /** Without a character that can start `src`, the pattern cannot match. */
  lemma NoSrcAttribute(s: string)
    requires forall k :: 0 <= k < |s| ==> !MatchesS(s[k])
    ensures PreferIframeSrc(s) == s
  {
    assert forall k :: 0 <= k < |s| ==> GroupAt(s, k).None?;
    assert ExtractIframeSrc(Some(s)).None?;
  }

  /** A value with no surrounding whitespace is prepared from itself. */
  lemma PreparedTrimmed(s: string)
    requires s == [] || (!IsSpace(s[0]) && !IsSpace(s[|s| - 1]))
    ensures PreparedUrl(Some(s)) == PreferIframeSrc(s)
  {
    StripOfTrimmed(s);
  }

  /**
   * A bare fragment (a '#' first) with no whitespace at its end and no `src`
   * attribute is cleaned to '#' followed by the percent-encoding of the rest.
   */
  lemma CleanBareFragment(s: string)
    requires |s| >= 2 && s[0] == '#' && !IsSpace(s[|s| - 1])
    requires forall k :: 0 <= k < |s| ==> !MatchesS(s[k])
    ensures CleanSourceUrl(Some(s)) == "#" + UrlQuote.Quote(s[1..])
  {
    assert PreparedUrl(Some(s)) == s by {
      PreparedTrimmed(s);
      NoSrcAttribute(s);
    }
    assert CleanSourceUrl(Some(s)) == EncodeFragment(s);
    EncodeLeadingHash(s);
  }

  lemma EncodeLeadingHash(s: string)
    requires |s| >= 2 && s[0] == '#'
    ensures EncodeFragment(s) == "#" + UrlQuote.Quote(s[1..])
  {
    assert IndexOf(s, '#') == Some(0);
    assert s[..0] == [];
    UrlQuote.QuoteEmpty(s[1..]);
  }

  /** `quote` writes '%' as "%25". */
  lemma QuotePercent(p: string)
    requires |p| == 1 && p[0] == '%'
    ensures UrlQuote.Quote(p) == "%25"
  {
    assert UrlQuote.Utf8Encode(p) == [37] by { assert p[1..] == []; }
    var bs: seq<UrlQuote.Byte> := [37];
    assert UrlQuote.QuoteBytes(bs) == "%25" by { assert bs[1..] == []; }
  }

  /** `quote` writes "%25" as "%2525". */
  lemma QuotePercent25(p: string)
    requires |p| == 3 && p[0] == '%' && p[1] == '2' && p[2] == '5'
    ensures UrlQuote.Quote(p) == "%2525"
  {
    assert UrlQuote.Utf8Encode(p[2..]) == [53] by { assert p[2..][1..] == []; }
    assert UrlQuote.Utf8Encode(p[1..]) == [50, 53] by { assert p[1..][1..] == p[2..]; }
    assert UrlQuote.Utf8Encode(p) == [37, 50, 53];
    var bs: seq<UrlQuote.Byte> := [37, 50, 53];
    assert UrlQuote.QuoteBytes(bs[2..]) == "5" by { assert bs[2..][1..] == []; }
    assert UrlQuote.QuoteBytes(bs[1..]) == "25" by { assert bs[1..][1..] == bs[2..]; }
    assert UrlQuote.QuoteByte(37) == "%25";
  }

  lemma CleanPercent(value: string)
    requires |value| == 2 && value[0] == '#' && value[1] == '%'
    ensures CleanSourceUrl(Some(value)) == "#%25"
  {
    var q := UrlQuote.Quote(value[1..]);
    assert q == "%25" by {
      QuotePercent(value[1..]);
    }
    assert "#" + q == "#%25";
    assert CleanSourceUrl(Some(value)) == "#" + q by {
      assert forall k :: 0 <= k < |value| ==> !MatchesS(value[k]);
      CleanBareFragment(value);
    }
  }

  lemma CleanPercent25(value: string)
    requires |value| == 4 && value[0] == '#' && value[1] == '%' && value[2] == '2' && value[3] == '5'
    ensures CleanSourceUrl(Some(value)) == "#%2525"
  {
    var q := UrlQuote.Quote(value[1..]);
    assert q == "%2525" by {
      QuotePercent25(value[1..]);
    }
    assert "#" + q == "#%2525";
    assert CleanSourceUrl(Some(value)) == "#" + q by {
      assert forall k :: 0 <= k < |value| ==> !MatchesS(value[k]);
      CleanBareFragment(value);
    }
  }

  /**
   * Cleaning is not idempotent: cleaning a cleaned value encodes its fragment
   * a second time, so the '%' the first pass wrote becomes "%25".
   */
  lemma CleanSourceUrlReencodes(value: string)
    requires |value| == 2 && value[0] == '#' && value[1] == '%'
    ensures var once := CleanSourceUrl(Some(value));
      once == "#%25" && CleanSourceUrl(Some(once)) == "#%2525" && CleanSourceUrl(Some(once)) != once
  {
    var once := CleanSourceUrl(Some(value));
    assert once == "#%25" by {
      CleanPercent(value);
    }
    assert CleanSourceUrl(Some(once)) == "#%2525" by {
      CleanPercent25(once);
    }
  }

  // ---------------------------------------------------------------------
  // The form

  /** The fields of `cleaned_data` the form's own clean methods read or write. */
  datatype Cleaned = Cleaned(slug: Option<string>, sourceUrl: Option<string>, category: string, series: Option<SeriesId>)

  /** A selected series makes the video part of a series. */
  function CoerceCategory(c: Cleaned): (r: Cleaned)
    ensures r.series == c.series && r.slug == c.slug && r.sourceUrl == c.sourceUrl
    ensures c.series.Some? ==> r.category == CategorySeries
    ensures c.series.None? ==> r == c
  {
    if c.series.Some? then c.(category := CategorySeries) else c
  }

  /** Coercing twice is coercing once. */
  lemma CoerceCategoryIdempotent(c: Cleaned)
    ensures CoerceCategory(CoerceCategory(c)) == CoerceCategory(c)
  {
  }

  datatype FormError = SlugTaken

  /** Some video of `owner` other than the one being edited already has `slug`. */
  predicate SlugUsedByOther(slug: string, owner: TenantId, instancePk: Option<VideoId>, videos: map<VideoId, Video>) {
    exists id :: id in videos && Some(id) != instancePk && videos[id].tenant == owner && videos[id].slug == slug
  }

  /**
   * `VideoForm.clean_slug`: a non-empty slug that another video of the owner
   * already has is rejected (the video being edited does not count); None
   * becomes "".
   */
  function CleanSlug(slug: Option<string>, owner: Option<TenantId>, instancePk: Option<VideoId>, videos: map<VideoId, Video>): (r: Result<string, FormError>)
    ensures r.Ok? ==> r.value == if slug.Some? then slug.value else ""
    ensures r.Err? <==> (owner.Some? && slug.Some? && slug.value != [] && SlugUsedByOther(slug.value, owner.value, instancePk, videos))
  {
    var s := if slug.Some? then slug.value else "";
    if owner.Some? && s != [] && SlugUsedByOther(s, owner.value, instancePk, videos)
    then Err(SlugTaken)
    else Ok(s)
  }

  /**
   * A video saved under its owner with a slug the check accepted keeps video
   * slugs unique per tenant, for a new video (a fresh key) and for an edited
   * one (its own key).
   */
  lemma CleanSlugKeepsSlugsUnique(videos: map<VideoId, Video>, id: VideoId, instancePk: Option<VideoId>, v: Video)
    requires UniqueVideoSlugs(videos)
    requires instancePk.Some? ==> id == instancePk.value
    requires instancePk.None? ==> id !in videos
    requires v.slug != []
    requires CleanSlug(Some(v.slug), Some(v.tenant), instancePk, videos).Ok?
    ensures UniqueVideoSlugs(videos[id := v])
  {
    var after := videos[id := v];
    forall a, b | a in after && b in after && a != b && after[a].tenant == after[b].tenant
      ensures after[a].slug != after[b].slug
    {
      if a == id {
        assert !(b in videos && Some(b) != instancePk && videos[b].tenant == v.tenant && videos[b].slug == v.slug);
      } else if b == id {
        assert !(a in videos && Some(a) != instancePk && videos[a].tenant == v.tenant && videos[a].slug == v.slug);
      }
    }
  }

  /** The video form with the state its `clean` hook updates. */
  class VideoForm {
    /** The tenant the form saves videos for, if any. */
    var owner: Option<TenantId>
    /** The key of the video being edited; None for a new one. */
    var instancePk: Option<VideoId>
    var cleaned: Cleaned

    constructor (owner: Option<TenantId>, instancePk: Option<VideoId>, cleaned: Cleaned)
      ensures this.owner == owner && this.instancePk == instancePk && this.cleaned == cleaned
    {
      this.owner := owner;
      this.instancePk := instancePk;
      this.cleaned := cleaned;
    }

    /** `VideoForm.clean`: forces the category to "series" when a series is selected. */
    method Clean()
      modifies this
      ensures cleaned == CoerceCategory(old(cleaned))
      ensures owner == old(owner) && instancePk == old(instancePk)
    {
      if cleaned.series.Some? {
        cleaned := cleaned.(category := CategorySeries);
      }
    }
  }
}
