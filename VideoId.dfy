/** Video-ID extraction from a video URL, in the three forms the scripts use:
    the strengthened crawler's (URL normalisation, short links, first all-digit
    path segment), the search module's (the same segment rule, None for a
    missing URL) and the old crawler's (last path segment only).  Splitting on
    '/' and cutting at '?' stand in for the path segments and the query
    component of section 3.3 and 3.4 of RFC 3986. */
module VideoId {
  import opened Wrappers
  import opened PyStr

  /** The host of the platform's short links. */
  const ShortLinkHost: string := "v.douyin.com"

  /** The ValueError raised when neither a URL nor an ID is given. */
  datatype VideoIdError = UrlRequired

  /** Python's `not url` for a URL that may be None. */
  predicate Missing(url: Option<string>) {
    url.None? || url.value == ""
  }

  /** The fullwidth colon that pasted URLs often carry. */
  const FullwidthColon: char := '\U{ff1a}'

  /** The crawler's URL normalisation: fullwidth colons become ':', the URL is
      stripped, and a URL not starting with "http" gets "https://" in place of
      its leading ':' and '/' characters. */
  function NormalizeUrl(url: string): (r: string)
    ensures StartsWith(r, "http")
  {
    var t := Strip(ReplaceChar(url, FullwidthColon, ':'));
    if StartsWith(t, "http") then t
    else
      var r := "https://" + LStripChars(t, {':', '/'});
      assert r[..4] == "http";
      r
  }

  /** The normalised URL carries no fullwidth colon. */
  lemma NormalizeUrlNoWideColon(url: string)
    ensures FullwidthColon !in NormalizeUrl(url)
  {
    var c := ReplaceChar(url, FullwidthColon, ':');
    var t := Strip(c);
    StripChars(c);
    LStripCharsSpec(t, {':', '/'});
    var u := LStripChars(t, {':', '/'});
    assert forall ch :: ch in u ==> ch in t;
  }

  /** Dropping leading ':' and '/' keeps a string's last character. */
  lemma SchemeRestEnd(t: string)
    requires t == [] || !IsSpace(t[|t| - 1])
    ensures var u := LStripChars(t, {':', '/'}); u == [] || !IsSpace(u[|u| - 1])
  {
    LStripCharsSpec(t, {':', '/'});
    var u := LStripChars(t, {':', '/'});
    assert u != [] ==> u[|u| - 1] == t[|t| - 1];
  }

  /** Prefixing "https://" to a string that ends in no whitespace gives a
      string that ends in no whitespace at either end. */
  lemma SchemePrefixStripped(t: string)
    requires t == [] || !IsSpace(t[|t| - 1])
    ensures var r := "https://" + LStripChars(t, {':', '/'}); Strip(r) == r
  {
    SchemeRestEnd(t);
    StripConcat("https://", LStripChars(t, {':', '/'}));
  }

  /** The normalised URL has no whitespace around it. */
  lemma NormalizeUrlStripped(url: string)
    ensures Strip(NormalizeUrl(url)) == NormalizeUrl(url)
  {
    var t := Strip(ReplaceChar(url, FullwidthColon, ':'));
    StripIsSlice(ReplaceChar(url, FullwidthColon, ':'));
    if StartsWith(t, "http") {
      StripNoop(t);
    } else {
      SchemePrefixStripped(t);
    }
  }

  /** Normalising twice changes nothing. */
  lemma NormalizeIdempotent(url: string)
    ensures NormalizeUrl(NormalizeUrl(url)) == NormalizeUrl(url)
  {
    var r := NormalizeUrl(url);
    NormalizeUrlNoWideColon(url);
    NormalizeUrlStripped(url);
    assert ReplaceChar(r, FullwidthColon, ':') == r;
  }

  /** The last index below `n` whose piece strips to something non-empty. */
  function LastNonBlank(parts: seq<string>, n: nat): (r: Option<nat>)
    requires n <= |parts|
    ensures r.Some? ==> (r.value < n && Strip(parts[r.value]) != "" &&
      forall k :: r.value < k < n ==> Strip(parts[k]) == "")
    ensures r.None? ==> forall k :: 0 <= k < n ==> Strip(parts[k]) == ""
  {
    if n == 0 then None
    else if Strip(parts[n - 1]) != "" then Some(n - 1)
    else LastNonBlank(parts, n - 1)
  }

  /** The first index from `from` on whose piece strips to an all-digit string. */
  function FirstDigitPart(parts: seq<string>, from: nat): (r: Option<nat>)
    requires from <= |parts|
    ensures r.Some? ==> (from <= r.value < |parts| && IsDigits(Strip(parts[r.value])) &&
      forall k :: from <= k < r.value ==> !IsDigits(Strip(parts[k])))
    ensures r.None? ==> forall k :: from <= k < |parts| ==> !IsDigits(Strip(parts[k]))
    decreases |parts| - from
  {
    if from == |parts| then None
    else if IsDigits(Strip(parts[from])) then Some(from)
    else FirstDigitPart(parts, from + 1)
  }

  /** The segment rule shared by the crawler and the search module; the ID
      never holds a '/'. */
  function SegmentId(url: string): (r: string)
    ensures '/' !in r
  {
    var parts := Split(url, '/');
    match FirstDigitPart(parts, 0)
    case Some(k) =>
      StripChars(parts[k]);
      Strip(parts[k])
    case None =>
      var last := parts[|parts| - 1];
      SplitFirstIsPrefix(last, '?');
      var r := Split(last, '?')[0];
      assert forall c :: c in r ==> c in last;
      r
  }

  /** The ID is the first '/'-piece that strips to digits, stripped, when
      there is one, and otherwise the last piece cut at its first '?'. */
  lemma SegmentIdSpec(url: string)
    ensures var parts, r := Split(url, '/'), SegmentId(url);
      (exists k :: 0 <= k < |parts| && IsDigits(Strip(parts[k])) && r == Strip(parts[k]) &&
         forall j :: 0 <= j < k ==> !IsDigits(Strip(parts[j])))
      || ((forall k :: 0 <= k < |parts| ==> !IsDigits(Strip(parts[k]))) &&
          r == Split(parts[|parts| - 1], '?')[0])
  {
    var parts := Split(url, '/');
    match FirstDigitPart(parts, 0)
    case Some(k) =>
    case None =>
  }

  /** `_extract_video_id` of the strengthened crawler. */
  function CrawlerVideoId(url: Option<string>): (r: Result<string, VideoIdError>)
    ensures r.Failure? <==> Missing(url)
    ensures r.Success? ==> '/' !in r.value
  {
    if Missing(url) then Failure(UrlRequired)
    else
      var u := NormalizeUrl(url.value);
      var parts := Split(u, '/');
      if Contains(u, ShortLinkHost) && LastNonBlank(parts, |parts|).Some? then
        var k := LastNonBlank(parts, |parts|).value;
        StripChars(parts[k]);
        Success(Strip(parts[k]))
      else Success(SegmentId(u))
  }

  /** For a short link the crawler always finds a non-blank piece: the one
      holding the host name.  The ID is the last non-blank piece, stripped. */
  lemma ShortLinkId(url: string)
    requires url != "" && Contains(NormalizeUrl(url), ShortLinkHost)
    ensures var parts := Split(NormalizeUrl(url), '/');
      exists k :: 0 <= k < |parts| && CrawlerVideoId(Some(url)) == Success(Strip(parts[k])) &&
        Strip(parts[k]) != "" && forall j :: k < j < |parts| ==> Strip(parts[j]) == ""
  {
    var u := NormalizeUrl(url);
    var parts := Split(u, '/');
    var i := ContainsWitness(u, ShortLinkHost);
    assert u[i] == 'v' by {
      assert u[i..i + |ShortLinkHost|][0] == ShortLinkHost[0];
    }
    SplitKeepsChar(u, '/', i);
    var k :| 0 <= k < |parts| && u[i] in parts[k];
    if Strip(parts[k]) == "" {
      StripEmpty(parts[k]);
      assert false;
    }
    assert LastNonBlank(parts, |parts|).Some?;
  }

  /** Without the short-link host, the crawler's ID is the segment rule applied
      to the normalised URL. */
  lemma StandardLinkId(url: string)
    requires url != "" && !Contains(NormalizeUrl(url), ShortLinkHost)
    ensures CrawlerVideoId(Some(url)) == Success(SegmentId(NormalizeUrl(url)))
  {
  }

  /** `_extract_video_id` of the search module: None for a missing URL. */
  function SearchVideoId(url: Option<string>): (r: Option<string>)
    ensures r.None? <==> Missing(url)
    ensures r.Some? ==> '/' !in r.value
  {
    if Missing(url) then None else Some(SegmentId(url.value))
  }

  /** On a URL the crawler's normalisation leaves alone and that is not a short
      link, the crawler and the search module agree. */
  lemma SearchAgreesWithCrawler(url: string)
    requires url != "" && Strip(url) == url && StartsWith(url, "http")
    requires FullwidthColon !in url && !Contains(url, ShortLinkHost)
    ensures CrawlerVideoId(Some(url)) == Success(SearchVideoId(Some(url)).value)
  {
    assert ReplaceChar(url, FullwidthColon, ':') == url;
    assert NormalizeUrl(url) == url;
  }

  /** `_extract_video_id` of the old crawler: the last '/'-piece cut at '?'. */
  function OldVideoId(url: Option<string>): (r: Result<string, VideoIdError>)
    ensures r.Failure? <==> Missing(url)
  {
    if Missing(url) then Failure(UrlRequired)
    else
      var parts := Split(url.value, '/');
      Success(Split(parts[|parts| - 1], '?')[0])
  }

  /** The old crawler's ID is free of '/' and '?', and is a prefix of the text
      after the URL's last '/'. */
  lemma OldVideoIdShape(url: string)
    requires url != ""
    ensures var r := OldVideoId(Some(url)).value;
      var parts := Split(url, '/');
      var last := parts[|parts| - 1];
      '/' !in r && '?' !in r && StartsWith(last, r) &&
      |last| <= |url| && url[|url| - |last|..] == last
  {
    var parts := Split(url, '/');
    var last := parts[|parts| - 1];
    var r := Split(last, '?')[0];
    SplitFirstIsPrefix(last, '?');
    SplitLastIsSuffix(url, '/');
    assert forall c :: c in r ==> c in last;
  }

  /** When no piece is all digits, the old rule and the search rule agree. */
  lemma OldAgreesWithSearch(url: string)
    requires url != ""
    requires forall k :: 0 <= k < |Split(url, '/')| ==> !IsDigits(Strip(Split(url, '/')[k]))
    ensures SearchVideoId(Some(url)) == Some(OldVideoId(Some(url)).value)
  {
    assert FirstDigitPart(Split(url, '/'), 0).None?;
  }
}
