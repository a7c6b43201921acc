/** The keyword search of `DouyinVideoSearcher`: the empty-keyword guard, the
    bounded scroll loop, the result list built from the page's result
    containers, and the interactive choice of one result.  What the browser
    finds and what the user types are inputs. */
module Search {
  import opened Seqs
  import opened Wrappers
  import opened PyStr
  import opened VideoId

  const UnknownTitle: string := "未知标题"
  const UnknownAuthor: string := "未知作者"
  const UnknownStat: string := "未知"

  /** One entry of `search_results`. */
  datatype VideoResult = VideoResult(
    title: string, url: string, videoId: Option<string>,
    author: string, likes: string, comments: string)

  /** What the lookups inside one result container give: the link's href,
      and the text of the title and author elements; None where the lookup
      raises (or, for `firstP`, where there is no paragraph). */
  datatype Container = Container(
    href: Option<string>,
    titleP: Option<string>, titleDiv: Option<string>, firstP: Option<string>,
    authorP: Option<string>, authorDiv: Option<string>)

  // ---------------------------------------------------------------------------
  // One container

  /** A title lookup replaces the title only when it succeeds. */
  function Lookup(current: string, found: Option<string>): string {
    match found case Some(t) => t case None => current
  }

  /** The fallback lookups run while the title is empty or still the default. */
  predicate TitleMissing(t: string) {
    t == "" || t == UnknownTitle
  }

  /** The title text before stripping: the `p.title` element, then the
      `div.title` element, then the first paragraph. */
  function RawTitle(c: Container): (t: string)
    ensures c.titleP.Some? && !TitleMissing(c.titleP.value) ==> t == c.titleP.value
    ensures t == UnknownTitle || t == "" || Some(t) in {c.titleP, c.titleDiv, c.firstP}
  {
    var t1 := Lookup(UnknownTitle, c.titleP);
    var t2 := if TitleMissing(t1) then Lookup(t1, c.titleDiv) else t1;
    if TitleMissing(t2) then Lookup(t2, c.firstP) else t2
  }

  /** The author text before stripping: `p.author`, else `div.author`. */
  function RawAuthor(c: Container): string {
    match c.authorP
    case Some(a) => a
    case None => Lookup(UnknownAuthor, c.authorDiv)
  }

  /** `x.strip() if x else default`. */
  function StripOr(x: string, default: string): (r: string)
    requires Strip(default) == default
    ensures Strip(r) == r
  {
    if x != "" then StripIdempotent(x); Strip(x) else default
  }

  /** The entry built from one container; None when no URL was found, which
      skips the container. */
  function ContainerResult(c: Container): (r: Option<VideoResult>)
    ensures r.Some? <==> !Missing(c.href)
    ensures r.Some? ==> (r.value.url == c.href.value && r.value.videoId == SearchVideoId(c.href))
  {
    if Missing(c.href) then None
    else
      StripNoop(UnknownTitle);
      StripNoop(UnknownAuthor);
      Some(VideoResult(StripOr(RawTitle(c), UnknownTitle), c.href.value, SearchVideoId(c.href),
                       StripOr(RawAuthor(c), UnknownAuthor), UnknownStat, UnknownStat))
  }

  /** A result's title and author are stripped, fall back to the defaults
      when the text found is empty, and its ID is the search module's ID of
      its URL. */
  lemma ContainerResultShape(c: Container)
    requires !Missing(c.href)
    ensures var v := ContainerResult(c).value;
      v.url != "" && Strip(v.title) == v.title && Strip(v.author) == v.author &&
      (RawTitle(c) == "" ==> v.title == UnknownTitle) &&
      (RawTitle(c) != "" ==> v.title == Strip(RawTitle(c))) &&
      (RawAuthor(c) == "" ==> v.author == UnknownAuthor) &&
      (RawAuthor(c) != "" ==> v.author == Strip(RawAuthor(c))) &&
      v.likes == UnknownStat && v.comments == UnknownStat && v.videoId.Some?
  {
  }

  // ---------------------------------------------------------------------------
  // The result list

  /** Python's `cs[:n]`: a negative `n` drops elements from the end. */
  function TakePy<T>(cs: seq<T>, n: int): (r: seq<T>)
    ensures |r| <= |cs| && r == cs[..|r|]
    ensures n >= 0 ==> |r| == if n < |cs| then n else |cs|
    ensures n < 0 ==> |r| == if |cs| + n > 0 then |cs| + n else 0
  {
    var m := if n >= 0 then (if n < |cs| then n else |cs|) else (if |cs| + n > 0 then |cs| + n else 0);
    cs[..m]
  }

  /** The entries of the containers that have a URL, in order. */
  function Collect(cs: seq<Container>): seq<VideoResult> {
    if cs == [] then [] else Entry(cs[0]) + Collect(cs[1..])
  }

  /** The entry of one container, as a list of zero or one. */
  function Entry(c: Container): seq<VideoResult> {
    match ContainerResult(c) case Some(v) => [v] case None => []
  }

  /** The entries built from at most `max_videos` containers. */
  function Extracted(cs: seq<Container>, maxVideos: int): seq<VideoResult> {
    Collect(TakePy(cs, maxVideos))
  }

  /** The loop over the examined containers: one entry per container with
      a link, in order. */
  method CollectResults(examined: seq<Container>) returns (results: seq<VideoResult>)
    ensures results == Collect(examined)
  {
    results := [];
    ghost var prefix: seq<Container> := [];
    for i := 0 to |examined|
      invariant prefix == examined[..i]
      invariant results == Collect(prefix)
    {
      var c := examined[i];
      CollectStep(prefix, c, results);
      SliceSnoc(examined, i);
      prefix := prefix + [c];
      if Missing(c.href) {
        continue;
      }
      var v := ContainerResult(c).value;
      results := results + [v];
    }
    SliceAll(examined);
  }

  /** The loop's step: a container without a link leaves the entries, and
      one with a link appends its entry. */
  lemma CollectStep(prefix: seq<Container>, c: Container, results: seq<VideoResult>)
    requires results == Collect(prefix)
    ensures Missing(c.href) ==> Collect(prefix + [c]) == results
    ensures !Missing(c.href) ==> Collect(prefix + [c]) == results + [ContainerResult(c).value]
  {
    CollectSnoc(prefix, c);
  }

  /** One more container adds its entry, if it has a link. */
  lemma CollectSnoc(cs: seq<Container>, c: Container)
    ensures Collect(cs + [c]) == Collect(cs) + if Missing(c.href) then [] else [ContainerResult(c).value]
  {
    CollectConcat(cs, [c]);
    CollectOne(c);
  }

  lemma CollectOne(c: Container)
    ensures Collect([c]) == if Missing(c.href) then [] else [ContainerResult(c).value]
  {
    assert [c][1..] == [];
  }

  /** Collecting a concatenation collects both parts. */
  lemma {:induction false} CollectConcat(a: seq<Container>, b: seq<Container>)
    ensures Collect(a + b) == Collect(a) + Collect(b)
    decreases |a|
  {
    if a == [] {
      assert a + b == b;
    } else {
      assert (a + b)[0] == a[0] && (a + b)[1..] == a[1..] + b;
      CollectConcat(a[1..], b);
      calc {
        Collect(a + b);
        Entry(a[0]) + Collect(a[1..] + b);
        Entry(a[0]) + (Collect(a[1..]) + Collect(b));
        (Entry(a[0]) + Collect(a[1..])) + Collect(b);
      }
    }
  }

  /** Every entry comes from a container with a URL, so there are no more
      entries than containers and each entry has a URL. */
  lemma {:induction false} CollectBound(cs: seq<Container>)
    ensures |Collect(cs)| <= |cs|
    ensures forall k :: 0 <= k < |Collect(cs)| ==> Collect(cs)[k].url != ""
    ensures (forall k :: 0 <= k < |cs| ==> !Missing(cs[k].href)) ==> |Collect(cs)| == |cs|
  {
    if cs != [] {
      CollectBound(cs[1..]);
      var head := Entry(cs[0]);
      assert Collect(cs) == head + Collect(cs[1..]);
      forall k | 0 <= k < |Collect(cs)| ensures Collect(cs)[k].url != "" {
        if k >= |head| {
          assert Collect(cs)[k] == Collect(cs[1..])[k - |head|];
        }
      }
    }
  }

  /** At most `max_videos` entries, each with a URL. */
  lemma ExtractedBound(cs: seq<Container>, maxVideos: int)
    ensures |Extracted(cs, maxVideos)| <= |cs|
    ensures maxVideos >= 0 ==> |Extracted(cs, maxVideos)| <= maxVideos
    ensures forall k :: 0 <= k < |Extracted(cs, maxVideos)| ==> Extracted(cs, maxVideos)[k].url != ""
  {
    CollectBound(TakePy(cs, maxVideos));
  }

  /** `[v for v in results if 'url' in v and v['url']]`. */
  function WithUrl(rs: seq<VideoResult>): (r: seq<VideoResult>)
    ensures |r| <= |rs|
    ensures forall k :: 0 <= k < |r| ==> r[k].url != "" && r[k] in rs
    ensures forall v :: v in rs && v.url != "" ==> v in r
  {
    if rs == [] then []
    else (if rs[0].url != "" then [rs[0]] else []) + WithUrl(rs[1..])
  }

  /** One result is kept exactly when it has a URL. */
  lemma WithUrlOne(v: VideoResult)
    ensures WithUrl([v]) == if v.url != "" then [v] else []
  {
    assert [v][1..] == [];
  }

  /** The filter works entry by entry: filtering a concatenation is filtering
      each part, so order and repetitions are kept. */
  lemma {:induction false} WithUrlConcat(a: seq<VideoResult>, b: seq<VideoResult>)
    ensures WithUrl(a + b) == WithUrl(a) + WithUrl(b)
    decreases |a|
  {
    if a == [] {
      assert a + b == b;
    } else {
      var head := if a[0].url != "" then [a[0]] else [];
      assert (a + b)[0] == a[0] && (a + b)[1..] == a[1..] + b;
      calc {
        WithUrl(a + b);
        head + WithUrl(a[1..] + b);
        { WithUrlConcat(a[1..], b); }
        head + (WithUrl(a[1..]) + WithUrl(b));
        (head + WithUrl(a[1..])) + WithUrl(b);
      }
    }
  }

  /** The filter keeps a list whose entries all have URLs as it is, so it
      changes nothing on what the search produced. */
  lemma {:induction false} WithUrlKeepsExtracted(rs: seq<VideoResult>)
    requires forall k :: 0 <= k < |rs| ==> rs[k].url != ""
    ensures WithUrl(rs) == rs
  {
    if rs != [] {
      WithUrlKeepsExtracted(rs[1..]);
      assert rs == [rs[0]] + rs[1..];
    }
  }

  // ---------------------------------------------------------------------------
  // The scroll loop

  /** `max_videos // 3 + 3`; Dafny's division agrees with Python's floor
      division for the positive divisor 3. */
  function MaxScrolls(maxVideos: int): int {
    maxVideos / 3 + 3
  }

  /** The number of iterations below `n` whose script call does not raise. */
  function Succeeded(fails: set<nat>, n: nat): (r: nat)
    ensures r <= n
  {
    if n == 0 then 0 else Succeeded(fails, n - 1) + (if n - 1 in fails then 0 else 1)
  }

  /** With no failing call every iteration counts; with every call failing
      none does. */
  lemma {:induction false} SucceededExtremes(fails: set<nat>, n: nat)
    ensures (forall i :: 0 <= i < n ==> i !in fails) ==> Succeeded(fails, n) == n
    ensures (forall i :: 0 <= i < n ==> i in fails) ==> Succeeded(fails, n) == 0
  {
    if n > 0 {
      SucceededExtremes(fails, n - 1);
    }
  }

  // ---------------------------------------------------------------------------
  // Choosing a result

  /** A line that makes `select_video` ask again: non-blank, and not a number
      in 1..len(results). */
  predicate Retries(count: nat, line: Option<string>) {
    line.Some? && Strip(line.value) != "" &&
    (ParseInt(line.value).None? || !(1 <= ParseInt(line.value).value <= count))
  }

  /** What `select_video` returns for the lines typed: the first line that is
      not a retry decides; a blank line, the end of input or a non-numeric
      error gives None. */
  function Choose(valid: seq<VideoResult>, inputs: seq<Option<string>>): Option<VideoResult>
    decreases |inputs|
  {
    if inputs == [] then None
    else match inputs[0]
      case None => None
      case Some(line) =>
        if Strip(line) == "" then None
        else match ParseInt(line)
          case None => Choose(valid, inputs[1..])
          case Some(n) => if 0 <= n - 1 < |valid| then Some(valid[n - 1]) else Choose(valid, inputs[1..])
  }

  /** The index of the first line that is not a retry. */
  function FirstDecisive(count: nat, inputs: seq<Option<string>>): (k: nat)
    ensures k <= |inputs|
    ensures forall j :: 0 <= j < k ==> Retries(count, inputs[j])
    ensures k < |inputs| ==> !Retries(count, inputs[k])
  {
    if inputs == [] || !Retries(count, inputs[0]) then 0
    else 1 + FirstDecisive(count, inputs[1..])
  }

  /** A choice is accepted exactly when the deciding line is a number in
      1..len(results), and then it is that entry; otherwise None. */
  lemma {:induction false} ChooseSpec(valid: seq<VideoResult>, inputs: seq<Option<string>>)
    ensures var k := FirstDecisive(|valid|, inputs);
      Choose(valid, inputs) ==
        if k < |inputs| && inputs[k].Some? && Strip(inputs[k].value) != "" &&
           ParseInt(inputs[k].value).Some? && 1 <= ParseInt(inputs[k].value).value <= |valid|
        then Some(valid[ParseInt(inputs[k].value).value - 1])
        else None
    decreases |inputs|
  {
    if inputs != [] && Retries(|valid|, inputs[0]) {
      ChooseSpec(valid, inputs[1..]);
      assert inputs[1..][FirstDecisive(|valid|, inputs[1..])..] == inputs[FirstDecisive(|valid|, inputs)..];
    }
  }

  /** A chosen video is one of the results. */
  lemma ChosenIsValid(valid: seq<VideoResult>, inputs: seq<Option<string>>)
    ensures Choose(valid, inputs).Some? ==> Choose(valid, inputs).value in valid
  {
    ChooseSpec(valid, inputs);
  }

  /** The prompt loop of `select_video`: read lines until one decides. */
  method ReadChoice(valid: seq<VideoResult>, inputs: seq<Option<string>>) returns (selected: Option<VideoResult>)
    ensures selected == Choose(valid, inputs)
  {
    var i := 0;
    while i < |inputs|
      invariant 0 <= i <= |inputs|
      invariant Choose(valid, inputs[i..]) == Choose(valid, inputs)
    {
      assert inputs[i..][1..] == inputs[i + 1..];
      var line := inputs[i];
      if line.None? {
        return None;
      }
      if Strip(line.value) == "" {
        return None;
      }
      var n := ParseInt(line.value);
      if n.Some? && 0 <= n.value - 1 < |valid| {
        return Some(valid[n.value - 1]);
      }
      i := i + 1;
    }
    return None;
  }

  // ---------------------------------------------------------------------------
  // The searcher object

  class VideoSearcher {
    /** `self.search_results`. */
    var searchResults: seq<VideoResult>

    constructor ()
      ensures searchResults == []
    {
      searchResults := [];
    }

    /** `_extract_video_info`: `found` is the container lookup (None when
        every lookup raises, which leaves an empty result list). No container
        returns [] and keeps the previous results. */
    method ExtractVideoInfo(found: Option<seq<Container>>, maxVideos: int) returns (results: seq<VideoResult>)
      modifies this
      ensures found == Some([]) ==> results == [] && searchResults == old(searchResults)
      ensures found.None? ==> results == [] && searchResults == []
      ensures found.Some? && found.value != [] ==>
        results == Extracted(found.value, maxVideos) && searchResults == results
    {
      results := [];
      if found.None? {
        searchResults := results;
        return;
      }
      var containers := found.value;
      if containers == [] {
        return;
      }
      var examined := TakePy(containers, maxVideos);
      results := CollectResults(examined);
      searchResults := results;
    }

    /** `_load_more_results`: `fails` holds the iterations whose script call
        raises. The loop runs `max_videos // 3 + 3` times (none when that is
        negative) and counts the calls that succeed. */
    method LoadMoreResults(maxVideos: int, fails: set<nat>) returns (scrollCount: nat, iterations: nat)
      ensures iterations == if MaxScrolls(maxVideos) > 0 then MaxScrolls(maxVideos) else 0
      ensures scrollCount == Succeeded(fails, iterations) && scrollCount <= iterations
    {
      scrollCount := 0;
      var maxScrolls := MaxScrolls(maxVideos);
      iterations := 0;
      while iterations < maxScrolls
        invariant iterations <= (if maxScrolls > 0 then maxScrolls else 0)
        invariant scrollCount == Succeeded(fails, iterations)
      {
        if iterations !in fails {
          scrollCount := scrollCount + 1;
        }
        iterations := iterations + 1;
      }
    }

    /** `search_videos`: an empty keyword, or a browser that cannot be
        started, returns [] before any page work. */
    method SearchVideos(keyword: string, maxVideos: int, browserReady: bool, fails: set<nat>,
                        found: Option<seq<Container>>) returns (results: seq<VideoResult>)
      modifies this
      ensures keyword == "" || !browserReady ==> results == [] && searchResults == old(searchResults)
      ensures keyword != "" && browserReady && found.Some? && found.value != [] ==>
        results == Extracted(found.value, maxVideos) && searchResults == results
      ensures keyword != "" && browserReady && found == Some([]) ==> results == [] && searchResults == old(searchResults)
      ensures keyword != "" && browserReady && found.None? ==> results == [] && searchResults == []
      ensures maxVideos >= 0 ==> |results| <= maxVideos
    {
      if keyword == "" {
        return [];
      }
      if !browserReady {
        return [];
      }
      var _, _ := LoadMoreResults(maxVideos, fails);
      results := ExtractVideoInfo(found, maxVideos);
      if found.Some? {
        ExtractedBound(found.value, maxVideos);
      }
    }

    /** `select_video`: `inputs` are the lines typed, None standing for the
        end of input. Entries without a URL are dropped and the rest stored
        back; nothing to choose from gives None. */
    method SelectVideo(inputs: seq<Option<string>>) returns (selected: Option<VideoResult>)
      modifies this
      ensures old(searchResults) == [] || WithUrl(old(searchResults)) == [] ==>
        selected.None? && searchResults == old(searchResults)
      ensures old(searchResults) != [] && WithUrl(old(searchResults)) != [] ==>
        searchResults == WithUrl(old(searchResults)) && selected == Choose(searchResults, inputs)
      ensures selected.Some? ==> selected.value in searchResults && selected.value.url != ""
    {
      if searchResults == [] {
        return None;
      }
      var valid := WithUrl(searchResults);
      if valid == [] {
        return None;
      }
      searchResults := valid;
      ChosenIsValid(valid, inputs);
      selected := ReadChoice(valid, inputs);
    }
  }
}
