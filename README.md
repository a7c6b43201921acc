# Douyin comment crawler and analyzer — a verified model of its core logic

The repository collects the comments of Douyin (TikTok China) videos with a
scripted browser, writes them to CSV, and analyses them with pandas. Beneath
the browser automation and the chart rendering is a layer of sequential logic.
This project models that layer in Dafny and proves what it guarantees:

- **Video IDs.** Three variants of `_extract_video_id` derive a video ID from
  a share URL: the crawler's, the searcher's and the old crawler's (`VideoId`).
- **The dedup accumulator.** Both crawlers keep a seen-ID set and an
  append-only list of records, plus counters that end the page loop (`Dedup`,
  `Crawler`, `OldCrawler`).
- **Rows.** A raw API comment becomes a CSV row, and rows are written through
  `csv.DictWriter` (`Records`).
- **Hot words.** The old analyzer filters stopwords and counts words
  (`HotWords`).
- **Search.** The searcher builds its result list, bounds its scrolling and
  checks the user's choice of video (`Search`).
- **The analyzer's rules:**
  - @-mention reply targets (`Mentions`);
  - the time-window fallback and the reply graph (`Interaction`);
  - keyword tagging for language styles, content categories and hot topics
    (`Tagging`);
  - the lexicon sentiment rule (`Sentiment`);
  - the hour-of-day, interaction-level and province buckets (`Buckets`);
  - the max-normalised influence score (`Influence`).

`Wrappers` holds Option/Result. `PyStr` holds the Python string operations the
source relies on: `strip`, `split`, `join`, `in`, `lower`, `split()`, `int()`
and `str(int)`.

Stateful parts of the source are classes whose fields the methods update:
- `Crawler.CommentCrawler` and `OldCrawler.OldCommentCrawler` (the seen IDs and
  the records);
- `Search.VideoSearcher` (the stored results);
- `Interaction.CommentAnalyzer` (the comment table).

Each loop is a method whose `ensures` ties its final state to a specification
function. The properties are then proved about that function. The crawlers'
page loops consume a finite sequence of page events: a missing response, an
invalid body, an empty list, or a batch of comments. Foreign calls become
parameters:
- the browser, through the page events;
- the tokenizer (jieba);
- the string similarity (difflib);
- the synthetic user IDs (based on `hash()`);
- the console input.

## Model

| member | source | states |
|---|---|---|
| VideoId.NormalizeUrl | douyin_analysis_results/douyin_crawler.py:67-69 | the normalised URL always starts with "http" |
| VideoId.NormalizeUrlNoWideColon | douyin_analysis_results/douyin_crawler.py:67 | no full-width colon survives normalisation |
| VideoId.NormalizeUrlStripped | douyin_analysis_results/douyin_crawler.py:68-69 | the normalised URL has no surrounding whitespace |
| VideoId.NormalizeIdempotent | douyin_analysis_results/douyin_crawler.py:67-69 | normalising twice gives the same URL as normalising once |
| VideoId.LastNonBlank | douyin_analysis_results/douyin_crawler.py:74-77 | the index found is the last segment whose stripped form is non-empty; None only when every segment is blank |
| VideoId.FirstDigitPart | douyin_analysis_results/douyin_crawler.py:83-86 | the index found is the first segment whose stripped form is all digits; None only when no segment is |
| VideoId.SegmentIdSpec | douyin_analysis_results/douyin_crawler.py:80-90 | the ID has no '/', and is the first all-digit stripped segment if there is one, else the last segment cut at '?' |
| VideoId.CrawlerVideoId | douyin_analysis_results/douyin_crawler.py:61-94 | fails (ValueError) exactly on an absent or empty URL; a returned ID never contains '/' |
| VideoId.ShortLinkId | douyin_analysis_results/douyin_crawler.py:71-78 | a v.douyin.com link yields its last non-blank stripped segment (or the segment rule when all are blank) |
| VideoId.StandardLinkId | douyin_analysis_results/douyin_crawler.py:80-90 | a link other than a short link yields the segment rule on the normalised URL |
| VideoId.SearchVideoId | douyin_analysis_results/douyin_search.py:344-361 | None exactly on an absent or empty URL; a returned ID never contains '/' |
| VideoId.SearchAgreesWithCrawler | douyin_analysis_results/douyin_search.py:344-361 | on an already normalised link other than a short link the searcher and the crawler give the same ID |
| VideoId.OldVideoId | douyin_analysis_results/douyin_comment_analyzer_old.py:53-57 | fails exactly on an absent or empty URL |
| VideoId.OldVideoIdShape | douyin_analysis_results/douyin_comment_analyzer_old.py:55-57 | the old ID is the last '/'-segment cut at the first '?', so it contains neither '/' nor '?' |
| VideoId.OldAgreesWithSearch | douyin_analysis_results/douyin_comment_analyzer_old.py:55-57 | when no segment is all digits, the old rule and the searcher's rule agree |
| Records.FieldnamesShape | douyin_analysis_results/douyin_crawler.py:257-261 | the header has exactly 16 names, none of them the reply flag, and contains the six basic names |
| Records.CommentIdCases | douyin_analysis_results/douyin_crawler.py:619 | the ID is `cid` when present, else `str(id)`, which reads back as `id`, else empty |
| Records.Hashtags | douyin_analysis_results/douyin_crawler.py:645-646 | exactly the non-empty hashtag names of the extras, each from some extra |
| Records.MentionIdsSpec | douyin_analysis_results/douyin_crawler.py:649-652 | exactly the user IDs of the type-0 extras |
| Records.MentionIdsConcat | douyin_analysis_results/douyin_crawler.py:649-652 | the mention list of two runs of extras is the concatenation of their lists |
| Records.NoMentionsNoIds | douyin_analysis_results/douyin_crawler.py:649-652 | extras without a type-0 item mention nobody |
| Records.Flag | douyin_analysis_results/douyin_crawler.py:641-642 | '是' exactly when the source value is non-zero, '否' otherwise |
| Records.FullCell | douyin_analysis_results/douyin_crawler.py:619-672 | in the full row, the pinned and hot columns are '是' exactly when the flag is truthy and '否' otherwise, the text is stripped, and the mentions join the type-0 user IDs |
| Records.FullRow | douyin_analysis_results/douyin_crawler.py:655-672 | the full row has exactly the 16 field names, each holding its parsed value |
| Records.FallbackRow | douyin_analysis_results/douyin_crawler.py:679-687 | the fallback row has exactly the six basic field names, each holding its fallback value |
| Records.BasicFieldnamesShape | douyin_analysis_results/douyin_comment_analyzer_old.py:65 | the old header names are exactly the six basic columns |
| Records.ParseCommentDetails | douyin_analysis_results/douyin_crawler.py:607-687 | None exactly when the fallback raises too (a `null` user, or a `null` or out-of-range time); otherwise exactly the 16 field names, or the six basic ones when a step of the full parse raises, each holding that path's value for the column, the comment ID among them |
| Records.OldRecord | douyin_analysis_results/douyin_comment_analyzer_old.py:201-225 | a record exists exactly when the user is an object with a nickname, the time is present and convertible, and the text is present; it then has exactly the six basic field names, with the comment ID, nickname, time and text |
| Records.CsvRow | douyin_analysis_results/douyin_crawler.py:262 | `DictWriter.writerow` succeeds exactly when every key is a field name; it then writes one cell per field name, '' for the missing ones |
| Records.CsvCells | douyin_analysis_results/douyin_crawler.py:262 | one cell per field name, the row's value or '' |
| Records.FileRows | douyin_analysis_results/douyin_crawler.py:574-576 | a `writerow` that raises adds no line; when every call succeeds, the file gets every row in order |
| Records.ParsedRowWritable | douyin_analysis_results/douyin_crawler.py:504-505 | every row the parser returns is accepted by the writer, as 16 cells led by the comment ID |
| Records.ReplyRow | douyin_analysis_results/douyin_crawler.py:736-743 | a reply record has exactly the six reply keys, its ID and the flag '是' |
| Records.Padded | douyin_analysis_results/douyin_crawler.py:570-574 | padding keeps every value and adds '' for each missing field name, and nothing else |
| Records.ReplyRowsAlwaysRejected | douyin_analysis_results/douyin_crawler.py:564-576 | as written, the writer rejects every padded reply for its key '是否回复评论' |
| Records.CsvRowIgnoringExtras | douyin_analysis_results/douyin_crawler.py:564 | a write that ignores extra keys gives one cell per field name and agrees with the raising write wherever that succeeds |
| Records.PaddedReplyCell | douyin_analysis_results/douyin_crawler.py:570-574 | each field of a padded reply holds the reply's value or '' |
| Records.ReplyCellAt | douyin_analysis_results/douyin_crawler.py:570-576 | each written cell of a reply is its padded value |
| Records.ReplyRowsWritten | douyin_analysis_results/douyin_crawler.py:564-576 | with extra keys ignored, a reply is written as 16 cells carrying its ID, nickname, text, likes and parent ID |
| Dedup.IdSet | douyin_analysis_results/douyin_crawler.py:496 | every comment's ID is in the set |
| Dedup.IdSetWitness | douyin_analysis_results/douyin_crawler.py:496 | every ID in the set belongs to some comment |
| Dedup.SeenAfter | douyin_analysis_results/douyin_crawler.py:488-496 | after a batch the seen set contains the old set and every ID of the batch |
| Dedup.KeptConcat | douyin_analysis_results/douyin_crawler.py:488-516 | filtering two batches in a row is filtering their concatenation |
| Dedup.KeptFresh | douyin_analysis_results/douyin_crawler.py:492-493 | every kept comment is from the batch and its ID was not seen before |
| Dedup.KeptDistinct | douyin_analysis_results/douyin_crawler.py:492-502 | the kept comments carry pairwise different IDs |
| Dedup.KeptIdSet | douyin_analysis_results/douyin_crawler.py:496-502 | the seen set grows by exactly the kept IDs, which were all new |
| Dedup.KeptCount | douyin_analysis_results/douyin_crawler.py:518 | the growth of the seen set is the number of kept comments |
| Dedup.DistinctIdSetSize | douyin_analysis_results/douyin_crawler.py:518 | comments with distinct IDs have as many IDs as comments |
| Dedup.KeptNothingNew | douyin_analysis_results/douyin_crawler.py:492-493 | a batch of seen IDs keeps nothing and leaves the set unchanged |
| Dedup.KeptTwice | douyin_analysis_results/douyin_crawler.py:492-493 | the same batch delivered again keeps nothing |
| Dedup.IdSetConcat | douyin_analysis_results/douyin_crawler.py:496 | the ID set of a concatenation is the union of the ID sets |
| Dedup.KeptSnoc | douyin_analysis_results/douyin_crawler.py:488-502 | one more comment is kept exactly when its ID is unseen, and its ID joins the set either way |
| Dedup.KeptSkip | douyin_analysis_results/douyin_crawler.py:492-493 | a comment whose ID is already seen changes neither the kept comments nor the seen set |
| Dedup.AppendWithin | douyin_analysis_results/douyin_crawler.py:502 | appending rows with new distinct IDs drawn from the grown set keeps every row's ID in the set and all row IDs distinct |
| Dedup.ParseKeepsIds | douyin_analysis_results/douyin_crawler.py:619-687 | every record the strengthened parser returns carries the comment's ID |
| Dedup.OldRecordKeepsIds | douyin_analysis_results/douyin_comment_analyzer_old.py:201-225 | every record the old crawler builds carries the comment's ID |
| Dedup.RecordedConcat | douyin_analysis_results/douyin_crawler.py:488-515 | records are built comment by comment, in order |
| Dedup.RecordedSnoc | douyin_analysis_results/douyin_crawler.py:498-504 | one more comment appends its record when the parse returns one, and nothing otherwise |
| Dedup.RecordedCount | douyin_analysis_results/douyin_crawler.py:498-508 | at most one record per comment, exactly one each when every parse returns |
| Dedup.RecordedKeys | douyin_analysis_results/douyin_comment_analyzer_old.py:218-228 | every record has the keys every parse result has |
| Dedup.RecordedWithin | douyin_analysis_results/douyin_crawler.py:498-504 | records of comments with distinct IDs carry distinct IDs, each that of one of the comments |
| Dedup.RecordedKeepsWithin | douyin_analysis_results/douyin_crawler.py:488-515 | after a batch the records still carry distinct IDs, all of them in the seen set |
| Dedup.RecordedIds | douyin_analysis_results/douyin_crawler.py:498-504 | when every parse returns, the records carry exactly the comments' IDs, in order |
| Dedup.RecordedKeepsMatch | douyin_analysis_results/douyin_crawler.py:488-515 | when every parse of the batch returns, the records' IDs stay exactly the seen set |
| Crawler.ScrollMethod | douyin_analysis_results/douyin_crawler.py:422 | the scroll strategy is always between 1 and 10 |
| Crawler.RunPages | douyin_analysis_results/douyin_crawler.py:416-422 | the loop takes at most `max_pages` pages and no more than there are page events, each with strategy `page % 10 + 1` |
| Crawler.RunNeverStopsOnNoResponse | douyin_analysis_results/douyin_crawler.py:432-457 | the break after 10 missing responses is never taken, because the counter is set back to 9 |
| Crawler.RunAppendOnly | douyin_analysis_results/douyin_crawler.py:488-516 | the records and the seen set only grow |
| Crawler.RunKeepsRows | douyin_analysis_results/douyin_crawler.py:488-515 | the records keep distinct IDs from the seen set and the processed count equals their number; when every comment of the pages gets a record, the IDs stay exactly the seen set |
| Crawler.StepKeepsRows | douyin_analysis_results/douyin_crawler.py:488-515 | one page keeps the records within the seen set and the processed count equal to their number, and keeps them matched with the seen set when every comment of the page gets a record |
| Crawler.UnparsedCommentOnlySeen | douyin_analysis_results/douyin_crawler.py:498-515 | a comment with a `null` user has its ID marked as seen but gets no record and no count, so the seen set then holds an ID no record carries |
| Crawler.BatchResetsCounter | douyin_analysis_results/douyin_crawler.py:518-534 | a batch with a new ID resets the no-new counter to 0; a batch with no new ID increments it unless more comments were loaded, and the loop stops exactly when it reaches 10 |
| Crawler.CommentCrawler.constructor | douyin_analysis_results/douyin_crawler.py:31-46 | an empty seen set, no records, no processed comments, and the invariant holds |
| Crawler.CommentCrawler.AcceptBatch | douyin_analysis_results/douyin_crawler.py:485-518 | the seen set becomes the dedup filter's, the records and the processed count grow by the kept comments whose parse returns, and the number added is the growth of the seen set |
| Crawler.CommentCrawler.PageLoop | douyin_analysis_results/douyin_crawler.py:416-541 | the object ends in the state the page-loop specification gives |
| Crawler.CommentCrawler.Crawl | douyin_analysis_results/douyin_crawler.py:384-541 | the same, plus: no stop for missing responses, the pages stay within `max_pages`, strategies 1..10, the distinct-IDs invariant is kept, and the records match the seen set when every comment gets a record |
| Crawler.CommentCrawler.SaveReplies | douyin_analysis_results/douyin_crawler.py:546-581 | on answer 'y' with records and replies, every reply is padded, handed to `writerow`, which raises each time so the file gets no row, and appended to the records; otherwise nothing changes |
| Crawler.WriteReplies | douyin_analysis_results/douyin_crawler.py:566-576 | the loop pads every reply in order, and each `writerow` raises, so no row reaches the file |
| Crawler.RepliesWriteNothing | douyin_analysis_results/douyin_crawler.py:568-576 | as written, the reply writes put no row in the file |
| Crawler.PadReply | douyin_analysis_results/douyin_crawler.py:570-574 | the padded reply is the reply with '' added for each missing field name: it has every field name and its own keys, nothing else |
| OldCrawler.RetryCounter | douyin_analysis_results/douyin_comment_analyzer_old.py:132-166 | the retry counter stays below 5; reaching 5 resets it and increments the no-new counter; an invalid body or a batch resets it |
| OldCrawler.BatchLeavesCounterLow | douyin_analysis_results/douyin_comment_analyzer_old.py:184-192 | a non-empty batch sets the no-new counter to at most 1, to 1 exactly when nothing was new and no button was clicked, and never stops the loop |
| OldCrawler.OldRunNeverStopsOnNoNew | douyin_analysis_results/douyin_comment_analyzer_old.py:236-274 | the refresh-or-stop branch for three pages without new IDs is never reached |
| OldCrawler.OldRunPages | douyin_analysis_results/douyin_comment_analyzer_old.py:101 | the loop takes at most `max_pages` pages and no more than there are events |
| OldCrawler.OldRowsKeys | douyin_analysis_results/douyin_comment_analyzer_old.py:218-228 | every record has exactly the six basic fields |
| OldCrawler.OldRunKeepsRowsWithin | douyin_analysis_results/douyin_comment_analyzer_old.py:101-280 | the whole loop keeps that invariant |
| OldCrawler.OldRunLoopsOnStalePages | douyin_analysis_results/douyin_comment_analyzer_old.py:101-274 | with `max_pages` None, pages that keep returning seen comments never end the loop: it runs through all of them, one page each, with the seen set and records unchanged |
| OldCrawler.StaleWatchStops | douyin_analysis_results/douyin_comment_analyzer_old.py:241-271 | the corrected no-new watch stops exactly when the stale lists in a row reach its allowance, which is at most four |
| OldCrawler.OldCommentCrawler.constructor | douyin_analysis_results/douyin_comment_analyzer_old.py:35-47 | an empty seen set, no records, and the invariant holds |
| OldCrawler.OldCommentCrawler.AcceptBatch | douyin_analysis_results/douyin_comment_analyzer_old.py:194-236 | the seen set and records become the dedup filter's, and the number added is the growth of the seen set |
| OldCrawler.OldTakeStep | douyin_analysis_results/douyin_comment_analyzer_old.py:199-228 | a comment with a new ID is kept, its ID joins the seen set, and its record, if any, is appended |
| OldCrawler.OldCommentCrawler.PageLoop | douyin_analysis_results/douyin_comment_analyzer_old.py:101-280 | the object ends in the state the old page-loop specification gives |
| OldCrawler.OldCommentCrawler.Crawl | douyin_analysis_results/douyin_comment_analyzer_old.py:88-282 | the same, plus: no stop for lack of new IDs, pages within `max_pages`, and the distinct-IDs invariant is kept |
| HotWords.ContentHasNoNewline | douyin_analysis_results/douyin_comment_analyzer_old.py:521 | the comments are joined with spaces, so no newline is added |
| HotWords.FilteredWords | douyin_analysis_results/douyin_comment_analyzer_old.py:528-531 | every kept word is longer than one character and not a stopword |
| HotWords.FilteredCounts | douyin_analysis_results/douyin_comment_analyzer_old.py:528-534 | a hot word keeps its full count and every other word drops out |
| HotWords.FirstPos | douyin_analysis_results/douyin_comment_analyzer_old.py:534 | the index of a word's first occurrence, or the length when it is absent |
| HotWords.BeforeTotal | douyin_analysis_results/douyin_comment_analyzer_old.py:537 | the count-then-first-occurrence order ranks any two different words one way round |
| HotWords.BeforeTrans | douyin_analysis_results/douyin_comment_analyzer_old.py:537 | the order is transitive |
| HotWords.Uniq | douyin_analysis_results/douyin_comment_analyzer_old.py:534 | the distinct words, each once |
| HotWords.InsertElems | douyin_analysis_results/douyin_comment_analyzer_old.py:537 | inserting adds exactly the one word |
| HotWords.SortedTail | douyin_analysis_results/douyin_comment_analyzer_old.py:537 | the tail of a ranking is a ranking |
| HotWords.SortedCons | douyin_analysis_results/douyin_comment_analyzer_old.py:537 | a word ranked before the head extends a ranking |
| HotWords.InsertSorted | douyin_analysis_results/douyin_comment_analyzer_old.py:537 | inserting a new word into a ranking keeps it ranked |
| HotWords.SortSpec | douyin_analysis_results/douyin_comment_analyzer_old.py:537 | the ranking is ordered and a permutation of the words |
| HotWords.RankedSpec | douyin_analysis_results/douyin_comment_analyzer_old.py:534-537 | the ranking lists each hot word of the comments once, in count-then-first-occurrence order |
| HotWords.MostCommonLength | douyin_analysis_results/douyin_comment_analyzer_old.py:537 | `most_common(top_n)` has min(top_n, distinct hot words) entries |
| HotWords.MostCommonCounts | douyin_analysis_results/douyin_comment_analyzer_old.py:534-537 | each entry is a hot word with its true, positive count |
| HotWords.MostCommonOrder | douyin_analysis_results/douyin_comment_analyzer_old.py:537 | counts do not increase, and ties keep first-occurrence order |
| HotWords.MostCommonComplete | douyin_analysis_results/douyin_comment_analyzer_old.py:537 | a hot word left out counts no more than any word kept |
| Search.RawTitle | douyin_analysis_results/douyin_search.py:278-304 | the `p.title` text when it is neither empty nor the default, else the later lookups in order; always one of the lookups, the default or '' |
| Search.StripOr | douyin_analysis_results/douyin_search.py:326-329 | the stored title or author is stripped |
| Search.ContainerResult | douyin_analysis_results/douyin_search.py:272-332 | a container gives a result exactly when it has a URL, carrying that URL and the searcher's video ID |
| Search.ContainerResultShape | douyin_analysis_results/douyin_search.py:325-332 | title and author are stripped, an empty raw text becomes the default, and likes and comment counts are unknown |
| Search.TakePy | douyin_analysis_results/douyin_search.py:241 | Python slicing `[:n]`, including negative `n` |
| Search.CollectConcat | douyin_analysis_results/douyin_search.py:243-332 | the results are built container by container |
| Search.CollectSnoc | douyin_analysis_results/douyin_search.py:272-332 | one more container adds its entry exactly when it has a link |
| Search.CollectResults | douyin_analysis_results/douyin_search.py:243-332 | the loop over the examined containers builds exactly the entries of those with a link, in order |
| Search.CollectBound | douyin_analysis_results/douyin_search.py:272-273 | no more results than containers, each with a URL, one per container when all have one |
| Search.ExtractedBound | douyin_analysis_results/douyin_search.py:241-332 | at most `max_videos` results, each with a URL |
| Search.WithUrl | douyin_analysis_results/douyin_search.py:394-400 | every kept result has a URL and comes from the input, and every input result with a URL is kept |
| Search.WithUrlOne | douyin_analysis_results/douyin_search.py:394-400 | one result is kept exactly when it has a URL |
| Search.WithUrlConcat | douyin_analysis_results/douyin_search.py:394-400 | the filter works entry by entry, so it keeps the order and the repetitions of the results |
| Search.WithUrlKeepsExtracted | douyin_analysis_results/douyin_search.py:394-400 | filtering results built here changes nothing |
| Search.Succeeded | douyin_analysis_results/douyin_search.py:195-201 | the scroll count never exceeds the iterations |
| Search.SucceededExtremes | douyin_analysis_results/douyin_search.py:195-201 | no failed scroll counts every iteration, all failed counts none |
| Search.FirstDecisive | douyin_analysis_results/douyin_search.py:402-420 | the first input that ends the prompt loop, with every earlier one re-prompting |
| Search.ChooseSpec | douyin_analysis_results/douyin_search.py:402-420 | a choice is accepted exactly when 1 ≤ choice ≤ the count, giving result choice-1; blank input or exhausted input gives None |
| Search.ChosenIsValid | douyin_analysis_results/douyin_search.py:406-413 | the chosen video is one of the filtered results |
| Search.VideoSearcher.constructor | douyin_analysis_results/douyin_search.py:24-33 | no stored results |
| Search.VideoSearcher.ExtractVideoInfo | douyin_analysis_results/douyin_search.py:217-342 | no containers keep the old results; a failure clears them; otherwise the bounded result list is returned and stored |
| Search.VideoSearcher.LoadMoreResults | douyin_analysis_results/douyin_search.py:189-215 | exactly `max_videos // 3 + 3` iterations, and the scroll count never exceeds them |
| Search.VideoSearcher.SearchVideos | douyin_analysis_results/douyin_search.py:134-187 | an empty keyword or no browser returns [] before searching; otherwise the result of the extraction, at most `max_videos` long |
| Search.VideoSearcher.SelectVideo | douyin_analysis_results/douyin_search.py:387-420 | the stored results become the ones with a URL; the choice is the validated index into them, or None |
| Search.ReadChoice | douyin_analysis_results/douyin_search.py:402-420 | the prompt loop returns the choice the first decisive line makes, or None |
| Mentions.AtTokensOccur | douyin_analysis_results/douyin_analyzer.py:601-610 | every extracted token occurs after an '@' in the comment |
| Mentions.AtTokensShape | douyin_analysis_results/douyin_analyzer.py:601 | every token is non-empty, with no whitespace, ':' or '：' |
| Mentions.NoAtNoTokens | douyin_analysis_results/douyin_analyzer.py:601-611 | a comment without '@' has no tokens |
| Mentions.NameKeysSpec | douyin_analysis_results/douyin_analyzer.py:604 | the keys of `dict(zip(...))` are the nicknames, each once |
| Mentions.NameToIdSpec | douyin_analysis_results/douyin_analyzer.py:604 | a nickname maps to the user ID of its last row |
| Mentions.KeyInDict | douyin_analysis_results/douyin_analyzer.py:604 | every nickname is a key |
| Mentions.CandidatesSpec | douyin_analysis_results/douyin_analyzer.py:615-616 | the candidates are exactly the names containing the token or contained in it |
| Mentions.CandidateIsName | douyin_analysis_results/douyin_analyzer.py:615-620 | every candidate has an ID |
| Mentions.Longest | douyin_analysis_results/douyin_analyzer.py:619 | the chosen name is a candidate and no candidate is longer |
| Mentions.LongestIsFirst | douyin_analysis_results/douyin_analyzer.py:619 | among the longest candidates the first one wins |
| Mentions.FirstMatched | douyin_analysis_results/douyin_analyzer.py:613-622 | the first token that has a candidate; None when none has |
| Mentions.MentionTargetExists | douyin_analysis_results/douyin_analyzer.py:611-622 | a comment gets a target exactly when one of its tokens has a candidate |
| Mentions.MentionTargetChoice | douyin_analysis_results/douyin_analyzer.py:613-622 | the target is the ID of the longest candidate of the first token that has any |
| Mentions.NoAtNoTarget | douyin_analysis_results/douyin_analyzer.py:610-611 | a comment without '@' gets no target |
| Mentions.MentionTargetOf | douyin_analysis_results/douyin_analyzer.py:608-622 | the loop over one comment's tokens computes its target |
| Mentions.InferMentionTargets | douyin_analysis_results/douyin_analyzer.py:607-622 | one target per comment, and the found flag is set exactly when some comment got one |
| Interaction.InsertByTimeCount | douyin_analysis_results/douyin_analyzer.py:638 | inserting adds exactly the one row |
| Interaction.TimeSortedCons | douyin_analysis_results/douyin_analyzer.py:638 | a row no later than every other row extends a sorted table |
| Interaction.InsertByTimeSpec | douyin_analysis_results/douyin_analyzer.py:638 | inserting into a sorted table keeps it sorted and adds the row |
| Interaction.SortByTimeSpec | douyin_analysis_results/douyin_analyzer.py:637-638 | `sort_values(by='时间')` gives a time-sorted permutation of the rows |
| Interaction.FirstRelated | douyin_analysis_results/douyin_analyzer.py:653-666 | the first other row, no later and within 5 minutes, whose similarity exceeds 0.4 or one of whose words longer than one character occurs in the comment; None when there is none |
| Interaction.FallbackTargetSpec | douyin_analysis_results/douyin_analyzer.py:644-666 | a row with a target keeps it; otherwise it takes the user of the first related row, or none |
| Interaction.WithFallback | douyin_analysis_results/douyin_analyzer.py:644-666 | every row keeps its place and length |
| Interaction.FallbackLoop | douyin_analysis_results/douyin_analyzer.py:644-666 | the nested loops compute the fallback table, and the found flag is set exactly when some row gained a target |
| Interaction.ScanEarlier | douyin_analysis_results/douyin_analyzer.py:653-666 | the inner loop finds the row's fallback target |
| Interaction.ReplyEdgesSpec | douyin_analysis_results/douyin_analyzer.py:677-685 | every edge joins two users of the table, and every target that is a user gives an edge |
| Interaction.BuildEdges | douyin_analysis_results/douyin_analyzer.py:683-685 | the loop builds exactly the set of edges |
| Interaction.SortKeepsTargets | douyin_analysis_results/douyin_analyzer.py:637-638 | sorting neither adds nor removes reply targets |
| Interaction.FoundSpec | douyin_analysis_results/douyin_analyzer.py:585-672 | a drawn graph has a reply target; except when only the user-ID column is missing, the graph is drawn exactly when the final table has a target |
| Interaction.MentionStep | douyin_analysis_results/douyin_analyzer.py:596-622 | the mention pass fills in the targets, and the found flag is set exactly when some target exists |
| Interaction.CommentAnalyzer.constructor | douyin_analysis_results/douyin_analyzer.py:33-47 | the analyzer holds the given table and column flags |
| Interaction.CommentAnalyzer.AddMissingColumns | douyin_analysis_results/douyin_analyzer.py:589-598 | both columns exist afterwards: synthetic IDs for a missing user column, empty targets for a missing reply column |
| Interaction.CommentAnalyzer.AnalyzeInteractionNetwork | douyin_analysis_results/douyin_analyzer.py:585-685 | the table becomes the analysed one; a graph is returned exactly when a reply relation was found, and then it is the edge set of the table |
| Tagging.AnyInSpec | douyin_analysis_results/douyin_analyzer.py:411-413 | a comment is tagged exactly when some keyword is a substring of it |
| Tagging.TagCountIsTagged | douyin_analysis_results/douyin_analyzer.py:409-415 | a category's count is the number of comments it tags, so never more than the comments |
| Tagging.TagCountSnoc | douyin_analysis_results/douyin_analyzer.py:809-818 | one more comment raises a count by one exactly when it is tagged |
| Tagging.Counts | douyin_analysis_results/douyin_analyzer.py:806-818 | one count per category |
| Tagging.CountCategories | douyin_analysis_results/douyin_analyzer.py:806-818 | the nested counting loop computes every category's count |
| Tagging.AnalyzeLanguageStyle | douyin_analysis_results/douyin_analyzer.py:400-415 | each language style counts the lowercased comments it tags |
| Tagging.AnalyzeContentCategories | douyin_analysis_results/douyin_analyzer.py:793-818 | each content category counts the lowercased comments it tags |
| Tagging.TopicColumnCount | douyin_analysis_results/douyin_analyzer.py:1169-1178 | the sum of a topic's flag column is its count on the text as written |
| Tagging.TopicCountsSpec | douyin_analysis_results/douyin_analyzer.py:1160-1178 | the topic counts are the counts over the topic table without lowercasing |
| Tagging.MultiLabel | douyin_analysis_results/douyin_analyzer.py:793-818 | a comment can fall in two categories, e.g. "值得" |
| Tagging.LowercasedMatch | douyin_analysis_results/douyin_analyzer.py:400-415 | "YYDS" matches the slang keyword "yyds" after lowercasing |
| Sentiment.CountInZero | douyin_analysis_results/douyin_analyzer.py:337-338 | a count is zero exactly when no token is in the lexicon |
| Sentiment.CountInConcat | douyin_analysis_results/douyin_analyzer.py:337-338 | the counts are additive over tokens |
| Sentiment.CountInDisjoint | douyin_analysis_results/douyin_analyzer.py:337-338 | with disjoint lexicons the two counts together never exceed the tokens |
| Sentiment.LexiconsDisjoint | douyin_analysis_results/douyin_analyzer.py:320-326 | the positive and negative lexicons share no word |
| Sentiment.LexiconCounts | douyin_analysis_results/douyin_analyzer.py:320-338 | the positive and negative counts of a comment sum to at most its tokens |
| Sentiment.LabelSpec | douyin_analysis_results/douyin_analyzer.py:340-345 | 正面 exactly when pos > neg, 负面 exactly when neg > pos, 中性 exactly on a tie |
| Sentiment.AnalyzeSentiment | douyin_analysis_results/douyin_analyzer.py:328-347 | one label per comment, in order, each the rule applied to its tokens |
| Buckets.HourGroupsPartition | douyin_analysis_results/douyin_analyzer.py:436-451 | every hour 0..23 is in exactly one period, any other value in none |
| Buckets.HourStatsTotal | douyin_analysis_results/douyin_analyzer.py:436-451 | the four period counts sum to the number of comments |
| Buckets.CountHours | douyin_analysis_results/douyin_analyzer.py:444-451 | the loop computes the count of every period |
| Buckets.InteractionLevelsPartition | douyin_analysis_results/douyin_analyzer.py:472-480 | the three levels partition the users, their sizes sum to the number of distinct users, and low-level users have one or two comments |
| Buckets.FirstProvince | douyin_analysis_results/douyin_analyzer.py:509-514 | a found province is in the list and in the area; None exactly when no province is |
| Buckets.FirstProvinceIsFirst | douyin_analysis_results/douyin_analyzer.py:509-514 | the province found is the first in list order that the area contains |
| Buckets.SumOfOne | douyin_analysis_results/douyin_analyzer.py:509-514 | one area adds one to at most one province |
| Buckets.SumCountsSnoc | douyin_analysis_results/douyin_analyzer.py:509-514 | the counts are additive over areas |
| Buckets.SumZero | douyin_analysis_results/douyin_analyzer.py:503-508 | no areas, no counts |
| Buckets.CountTotal | douyin_analysis_results/douyin_analyzer.py:503-514 | the province counts sum to the number of areas naming a province, at most the areas |
| Buckets.ProvincesDistinct | douyin_analysis_results/douyin_analyzer.py:503-507 | the province list has no repeats |
| Buckets.ProvinceTotal | douyin_analysis_results/douyin_analyzer.py:503-514 | each area counts for at most one province |
| Buckets.CountMapSnoc | douyin_analysis_results/douyin_analyzer.py:509-514 | one more area raises exactly its first province's count |
| Buckets.CountProvinces | douyin_analysis_results/douyin_analyzer.py:503-514 | the loop with its `break` computes the province map |
| Buckets.CountFirstNames | douyin_analysis_results/douyin_analyzer.py:503-514 | for any name list, the loop counts each area under the first name it contains |
| Influence.MetricsNonNegative | douyin_analysis_results/douyin_analyzer.py:938-950 | with non-negative likes, the total likes and the average length are non-negative |
| Influence.TotalLengthBound | douyin_analysis_results/douyin_analyzer.py:949-950 | a user's total length is at most their comments times the longest comment |
| Influence.Max | douyin_analysis_results/douyin_analyzer.py:973-978 | the maximum is attained and bounds the column |
| Influence.NormalizeSpec | douyin_analysis_results/douyin_analyzer.py:973-978 | a non-negative column normalises into [0,1], has a 1 where its positive maximum is, and normalises to zeros when the maximum is 0 |
| Influence.DivideBound | douyin_analysis_results/douyin_analyzer.py:976 | a value up to the positive maximum divides into [0,1] |
| Influence.InfluenceScoresBounds | douyin_analysis_results/douyin_analyzer.py:934-985 | with non-negative likes every score lies in [0,100] |
| Influence.NoLikesColumn | douyin_analysis_results/douyin_analyzer.py:938-946 | without a like column every score lies in [0,60] |
| Influence.NoLikes | douyin_analysis_results/douyin_analyzer.py:945-946 | without a like column every user's total likes are 0 |
| PyStr.JoinSplit | douyin_analysis_results/douyin_crawler.py:80 | joining a split with its separator gives the string back |
| PyStr.StripIdempotent | douyin_analysis_results/douyin_crawler.py:68 | stripping twice is stripping once |
| PyStr.IntToStrRoundTrip | douyin_analysis_results/douyin_crawler.py:619 | `int(str(n))` is `n` |

## Left out

- Browser control (DrissionPage): navigation, network listening, XPath lookups, scrolling and refreshing. Page loads become page events and searched containers; `_perform_scroll` and similar helpers are foreign calls.
- The keyboard and login monitor threads (`msvcrt`, `threading`) and the `is_crawling` flag they clear. They are concurrency and console I/O. The strengthened loop's `Interrupted` stop stands for the flag being cleared, and for the end of the modelled page events.
- CSV and file I/O, including finding the newest file; the model keeps the rows and cells it would write.
- `time.sleep`, `datetime` formatting and `to_datetime`: timestamps are integers (seconds), and the 5-minute window is 300.
- jieba tokenisation is a `tokenize` parameter, and difflib's `SequenceMatcher().ratio()` is a `sim` parameter.
- The `hash()`-based synthetic user IDs are a `synthetic` parameter, since `hash()` is randomised per process.
- networkx degree centrality, pyecharts, wordcloud, PIL and matplotlib rendering, and the top-20 tables printed.
- `urllib.parse.quote` for the search URL; printing and progress messages.
- `douyin_tool.py`: menus and dispatch.
- The sklearn TF-IDF keywords of the hot topics.
- Interaction.SortByTimeSpec: pandas' default sort is not stable for equal times; the model sorts stably, which is one of the orders pandas may produce.
- PyStr.Lower: lowers ASCII letters only; Python's `str.lower` also lowers other alphabets. The keyword tables are Chinese and lowercase ASCII, so only Latin letters matter for them.
- PyStr.IntToStrRoundTrip: `int()` also accepts underscores and Unicode digits; the model reads an optional sign and ASCII digits only.
- VideoId.FirstDigitPart: `str.isdigit` is also true for non-ASCII digits such as '١' or '²'; the model tests ASCII digits only, so a segment made of other digits is not picked as the ID.
- VideoId.SegmentIdSpec: uses the same ASCII-only digit test, and so do `VideoId.StandardLinkId` and `VideoId.SearchVideoId`.
- The range of `datetime.fromtimestamp`: it works in local time and its exact range depends on the platform; the model accepts the instants of the years 1 to 9999 in UTC, and treats only integer times.
- JSON `null` outside `user` and `create_time`: only those two keys may hold it in the model. A `null` elsewhere (for instance under `text` or `avatar_thumb`) is not modelled.
- Influence.InfluenceScoresBounds: the likes column is coerced with `to_numeric(errors='coerce')`, modelled as an optional real per row; floating-point rounding is not modelled.
- Records.Flag: the flags are integers in the model; other truthy Python values are not modelled.
- Search.VideoSearcher.ExtractVideoInfo: lookups that raise are absent values; the per-container exception is not modelled.

## Findings

| source | as written | input that shows it | evidently intended | confidence | as-written member | corrected member |
|---|---|---|---|---|---|---|
| douyin_analysis_results/douyin_crawler.py:564-576 | the reply writer is a `DictWriter` with the default `extrasaction='raise'`, and every reply dict (736-743) carries the key 是否回复评论, which is not a field name | any reply answered with 'y' | write each reply as a 16-column row (its extra key ignored or declared) | not executed | Records.ReplyRowsAlwaysRejected | Records.ReplyRowsWritten |
| douyin_analysis_results/douyin_comment_analyzer_old.py:192 | a non-empty comment list resets the no-new counter before the "no new IDs" branch (241-271) raises it, and that branch's refresh sets it back to 2, so the counter never exceeds 3 and the stop is never reached (`OldCrawler.OldRunNeverStopsOnNoNew`) | an empty page-count answer (`max_pages` None, 624-626) and a page that keeps returning the same comments without reply buttons: the loop never ends | stop after three lists in a row without new IDs and one refresh | not executed | OldCrawler.OldRunLoopsOnStalePages | OldCrawler.StaleWatchStops |

Both findings are modelled as written in the crawl: `Crawler.CommentCrawler.SaveReplies` hands every reply to the raising writer, and `OldCrawler.OldRun` keeps the resetting counter. The corrected write (`Records.ReplyRowsWritten`) and the corrected watch (`OldCrawler.StaleWatchStops`) stand beside them.

One more behaviour of the source is modelled as written and proved. It is dead code: in `douyin_crawler.py:447-456` the counter is set back to 9 after a refresh, so the break at 10 missing responses is never taken (`Crawler.RunNeverStopsOnNoResponse`).

Other behaviours the model keeps as written:
- `_extract_video_info` returns `[]` at 234-236 before storing, so the previous results stay.
- The time-window fallback includes rows with an equal time, wherever they sit, and does not exclude a row pointing at its own user.
- When the reply-ID column exists but the user-ID column does not, existing targets do not count as a found relation. The graph is then drawn only if the fallback adds a target (see `Interaction.FoundSpec`).
- A whitespace-only title is stored as "".
- Between equally long name candidates the first key of `dict(zip(...))` wins.
