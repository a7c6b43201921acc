/** The page loop of the strengthened crawler's `start_crawler`: each page
    scrolls, waits for one comment-list response and feeds its comments
    through the ID filter; a "no new comments" counter ends the loop. The
    browser's answers are the sequence of page events the loop consumes.
    `Run` is the reference definition of the loop; the class's methods are
    proved against it. */
module Crawler {
  import opened Seqs
  import opened Wrappers
  import opened PyStr
  import opened Records
  import opened Dedup

  /** What one page of the loop gets from the browser. */
  datatype PageEvent =
    | NoResponse(loadedMore: bool)   // no packet; loadedMore: `_try_load_more_comments()` clicked something
    | InvalidBody                    // a body that is empty or has no 'comments' key
    | Comments(batch: seq<RawComment>, loadedMore: bool)  // loadedMore is asked only when nothing new came
    | PageFailure                    // an exception raised in the page body

  /** Why the page loop ended. `Interrupted` is the end of the modelled
      trace: it stands for the monitor thread clearing `is_crawling` (the
      user pressing Enter) or for the events simply running out. */
  datatype StopReason =
    | PageLimit | Interrupted | NoResponseLimit | InvalidLimit | EmptyLimit | NoNewLimit | ErrorLimit

  /** `max_no_new_attempts`. */
  const MaxNoNew: nat := 10
  /** Consecutive failures after which the loop gives up. */
  const MaxFailures: nat := 3

  /** The loop variables and the crawler's fields the loop updates. */
  datatype LoopState = LoopState(
    ids: set<string>, rows: seq<Row>, processed: nat,
    page: nat, noNew: nat, scrolls: seq<int>)

  /** `self.max_pages is None or page < self.max_pages`. */
  predicate MayContinue(maxPages: Option<int>, page: nat) {
    maxPages.None? || page < maxPages.value
  }

  /** `(page % 10) + 1`, the scroll strategy of a page. */
  function ScrollMethod(page: nat): (m: int)
    ensures 1 <= m <= 10
  {
    page % 10 + 1
  }

  /** One iteration of the page loop; the second component is the reason
      when the iteration breaks out of the loop. */
  function PageStep(s: LoopState, e: PageEvent): (LoopState, Option<StopReason>) {
    var t := s.(page := s.page + 1, scrolls := s.scrolls + [ScrollMethod(s.page + 1)]);
    match e
    case NoResponse(loaded) =>
      if loaded then (t, None)
      else if t.noNew + 1 >= MaxNoNew then
        if t.noNew + 1 == MaxNoNew then (t.(noNew := t.noNew + 1 - 1), None)
        else (t.(noNew := t.noNew + 1), Some(NoResponseLimit))
      else (t.(noNew := t.noNew + 1), None)
    case InvalidBody =>
      (t.(noNew := t.noNew + 1), if t.noNew + 1 >= MaxNoNew then Some(InvalidLimit) else None)
    case Comments(batch, loaded) =>
      if batch == [] then
        (t.(noNew := t.noNew + 1), if t.noNew + 1 >= MaxNoNew then Some(EmptyLimit) else None)
      else
        var recorded := Recorded(ParseCommentDetails, Kept(s.ids, batch));
        var u := t.(ids := SeenAfter(s.ids, batch), rows := s.rows + recorded,
                    processed := s.processed + |recorded|);
        if |u.ids| - |s.ids| > 0 then (u.(noNew := 0), None)
        else
          var n := s.noNew + 1 - (if loaded then 1 else 0);
          (u.(noNew := n), if n >= MaxNoNew then Some(NoNewLimit) else None)
    case PageFailure =>
      (t.(noNew := t.noNew + 1), if t.noNew + 1 >= MaxFailures then Some(ErrorLimit) else None)
  }

  /** The page loop from state `s` over the remaining events. */
  function Run(maxPages: Option<int>, s: LoopState, events: seq<PageEvent>): (LoopState, StopReason)
    decreases |events|
  {
    if !MayContinue(maxPages, s.page) then (s, PageLimit)
    else if events == [] then (s, Interrupted)
    else
      var (t, stop) := PageStep(s, events[0]);
      if stop.Some? then (t, stop.value) else Run(maxPages, t, events[1..])
  }

  // ---------------------------------------------------------------------------
  // Properties of the loop

  /** The scroll strategy recorded for each page so far is `(page % 10) + 1`. */
  predicate ScrollsFollowPages(s: LoopState) {
    |s.scrolls| == s.page && forall k :: 0 <= k < |s.scrolls| ==> s.scrolls[k] == ScrollMethod(k + 1)
  }

  /** The loop runs at most `max_pages` pages and at most one page per event,
      and every page's scroll strategy is `(page % 10) + 1`, in 1..10. */
  lemma {:induction false} RunPages(maxPages: Option<int>, s: LoopState, events: seq<PageEvent>)
    requires ScrollsFollowPages(s)
    requires maxPages.Some? ==> s.page <= maxPages.value
    ensures var r := Run(maxPages, s, events).0;
      ScrollsFollowPages(r) && s.page <= r.page <= s.page + |events| &&
      (maxPages.Some? ==> r.page <= maxPages.value) &&
      forall k :: 0 <= k < |r.scrolls| ==> 1 <= r.scrolls[k] <= 10
    decreases |events|
  {
    if MayContinue(maxPages, s.page) && events != [] {
      var t := PageStep(s, events[0]).0;
      assert t.scrolls == s.scrolls + [ScrollMethod(s.page + 1)];
      assert ScrollsFollowPages(t);
      if PageStep(s, events[0]).1.None? {
        RunPages(maxPages, t, events[1..]);
      }
    }
  }

  /** Between pages the no-new counter is at most 9, so the no-response
      branch's break is never taken: reaching 10 there always refreshes the
      page and sets the counter back to 9. */
  lemma {:induction false} RunNeverStopsOnNoResponse(maxPages: Option<int>, s: LoopState, events: seq<PageEvent>)
    requires s.noNew < MaxNoNew
    ensures Run(maxPages, s, events).1 != NoResponseLimit
    decreases |events|
  {
    if MayContinue(maxPages, s.page) && events != [] {
      var (t, stop) := PageStep(s, events[0]);
      if stop.None? {
        RunNeverStopsOnNoResponse(maxPages, t, events[1..]);
      }
    }
  }

  /** The loop only appends: earlier records and seen IDs are kept. */
  lemma {:induction false} RunAppendOnly(maxPages: Option<int>, s: LoopState, events: seq<PageEvent>)
    ensures var r := Run(maxPages, s, events).0;
      s.ids <= r.ids && |s.rows| <= |r.rows| && r.rows[..|s.rows|] == s.rows
    decreases |events|
  {
    if MayContinue(maxPages, s.page) && events != [] {
      var (t, stop) := PageStep(s, events[0]);
      assert s.ids <= t.ids && t.rows[..|s.rows|] == s.rows;
      if stop.None? {
        RunAppendOnly(maxPages, t, events[1..]);
        var r := Run(maxPages, t, events[1..]).0;
        assert r.rows[..|s.rows|] == r.rows[..|t.rows|][..|s.rows|];
      }
    }
  }

  /** Every comment of the page, if it is a comment list, gets a record:
      none has a `null` user or a `null` or out-of-range time. */
  predicate Parses(e: PageEvent) {
    e.Comments? ==> forall i :: 0 <= i < |e.batch| ==> !FallbackRaises(e.batch[i])
  }

  /** The records keep distinct IDs from the seen set, and
      `processed_comments` stays the number of records. When every comment
      of the pages gets a record, the records' IDs are moreover exactly the
      seen set. */
  lemma {:induction false} RunKeepsRows(maxPages: Option<int>, s: LoopState, events: seq<PageEvent>)
    requires RowsWithin(s.rows, s.ids) && s.processed == |s.rows|
    ensures var r := Run(maxPages, s, events).0;
      RowsWithin(r.rows, r.ids) && r.processed == |r.rows|
    ensures var r := Run(maxPages, s, events).0;
      RowsMatch(s.rows, s.ids) && (forall k :: 0 <= k < |events| ==> Parses(events[k])) ==> RowsMatch(r.rows, r.ids)
    decreases |events|
  {
    if MayContinue(maxPages, s.page) && events != [] {
      var (t, stop) := PageStep(s, events[0]);
      StepKeepsRows(s, events[0]);
      if stop.None? {
        assert forall k :: 0 <= k < |events[1..]| ==> events[1..][k] == events[k + 1];
        RunKeepsRows(maxPages, t, events[1..]);
      }
    }
  }

  /** One page keeps the records within the seen set and the processed count
      equal to their number, and keeps them matched with the seen set when
      every comment of the page gets a record. */
  lemma StepKeepsRows(s: LoopState, e: PageEvent)
    requires RowsWithin(s.rows, s.ids) && s.processed == |s.rows|
    ensures var t := PageStep(s, e).0;
      RowsWithin(t.rows, t.ids) && t.processed == |t.rows|
    ensures var t := PageStep(s, e).0;
      RowsMatch(s.rows, s.ids) && Parses(e) ==> RowsMatch(t.rows, t.ids)
  {
    if e.Comments? && e.batch != [] {
      ParseKeepsIds();
      RecordedKeepsWithin(ParseCommentDetails, s.rows, s.ids, e.batch);
      if RowsMatch(s.rows, s.ids) && Parses(e) {
        RecordedKeepsMatch(ParseCommentDetails, s.rows, s.ids, e.batch);
      }
    }
  }

  /** A comment whose fallback record raises too (here a `null` user) has its
      ID marked as seen but leaves no record and is not counted, so the seen
      set then holds an ID no record carries. */
  lemma UnparsedCommentOnlySeen(s: LoopState, c: RawComment, loaded: bool)
    requires RowsWithin(s.rows, s.ids) && CommentId(c) !in s.ids && c.user.Null?
    ensures var t := PageStep(s, Comments([c], loaded)).0;
      t.ids == s.ids + {CommentId(c)} && t.rows == s.rows && t.processed == s.processed &&
      !RowsMatch(t.rows, t.ids)
  {
    assert Kept(s.ids, [c]) == [c];
    assert IdSet([c]) == {CommentId(c)};
    assert Recorded(ParseCommentDetails, [c]) == [] by {
      assert [c][1..] == [];
    }
    var t := PageStep(s, Comments([c], loaded)).0;
    assert t.rows == s.rows;
  }

  /** A page with new IDs resets the no-new counter and never ends the loop;
      a page with none ends it exactly when the counter reaches 10 without a
      successful "load more" click. */
  lemma BatchResetsCounter(s: LoopState, batch: seq<RawComment>, loaded: bool)
    requires batch != [] && s.noNew < MaxNoNew
    ensures var (t, stop) := PageStep(s, Comments(batch, loaded));
      |Kept(s.ids, batch)| > 0 ==> t.noNew == 0 && stop.None?
    ensures var (t, stop) := PageStep(s, Comments(batch, loaded));
      |Kept(s.ids, batch)| == 0 ==> (t.noNew == s.noNew + (if loaded then 0 else 1) &&
        (stop == Some(NoNewLimit) <==> !loaded && s.noNew == MaxNoNew - 1) &&
        (stop.Some? ==> stop == Some(NoNewLimit)))
  {
    KeptCount(s.ids, batch);
  }

  // ---------------------------------------------------------------------------
  // The crawler object

  /** A comment with a new ID is kept, its ID is seen, and its parsed
      record, if it has one, follows the records before it. */
  lemma TakeStep(seen: set<string>, batch: seq<RawComment>, i: nat, kept: seq<RawComment>, row: Option<Row>,
                 rows0: seq<Row>, rows: seq<Row>)
    requires i < |batch| && CommentId(batch[i]) !in SeenAfter(seen, batch[..i])
    requires kept == Kept(seen, batch[..i]) && row == ParseCommentDetails(batch[i])
    requires rows == rows0 + Recorded(ParseCommentDetails, kept)
    ensures Kept(seen, batch[..i + 1]) == kept + [batch[i]]
    ensures SeenAfter(seen, batch[..i + 1]) == SeenAfter(seen, batch[..i]) + {CommentId(batch[i])}
    ensures (if row.Some? then rows + [row.value] else rows) == rows0 + Recorded(ParseCommentDetails, kept + [batch[i]])
  {
    SliceSnoc(batch, i);
    KeptSnoc(seen, batch[..i], batch[i]);
    RecordedSnoc(ParseCommentDetails, kept, batch[i]);
  }

  class CommentCrawler {
    /** `self.comment_ids`, the seen set. */
    var commentIds: set<string>
    /** `self.comments`, the records in the order they were appended. */
    var comments: seq<Row>
    /** `self.processed_comments`. */
    var processedComments: nat
    /** `self.max_pages`; None crawls until the loop gives up. */
    const maxPages: Option<int>

    /** No record yet and nothing seen. */
    constructor (maxPages: Option<int>)
      ensures this.maxPages == maxPages
      ensures commentIds == {} && comments == [] && processedComments == 0
      ensures Valid()
    {
      this.maxPages := maxPages;
      commentIds := {};
      comments := [];
      processedComments := 0;
    }

    /** The records carry distinct IDs, all of them seen, and there is one
        processed comment per record. */
    predicate Valid()
      reads this
    {
      RowsWithin(comments, commentIds) && processedComments == |comments|
    }

    /** The loop variables together with the object's fields. */
    function State(page: nat, noNew: nat, scrolls: seq<int>): LoopState
      reads this
    {
      LoopState(commentIds, comments, processedComments, page, noNew, scrolls)
    }

    /** The `for comment in comments` loop of one page: skip seen IDs, add a
        new ID to the set, then append its parsed record and count it; when
        the parse raises, the exception is caught after the ID was added.
        Returns `comment_id_added`, the growth of the seen set. */
    method AcceptBatch(batch: seq<RawComment>) returns (added: nat)
      modifies this
      ensures commentIds == SeenAfter(old(commentIds), batch)
      ensures comments == old(comments) + Recorded(ParseCommentDetails, Kept(old(commentIds), batch))
      ensures processedComments == old(processedComments) + |Recorded(ParseCommentDetails, Kept(old(commentIds), batch))|
      ensures added == |commentIds| - |old(commentIds)| == |Kept(old(commentIds), batch)|
    {
      ghost var seen0, rows0, processed0 := commentIds, comments, processedComments;
      ghost var kept: seq<RawComment> := [];
      var before := |commentIds|;
      for i := 0 to |batch|
        invariant kept == Kept(seen0, batch[..i])
        invariant commentIds == SeenAfter(seen0, batch[..i])
        invariant comments == rows0 + Recorded(ParseCommentDetails, kept)
        invariant processedComments == processed0 + |Recorded(ParseCommentDetails, kept)|
      {
        var c := batch[i];
        var id := CommentId(c);
        if id in commentIds {
          KeptSkip(seen0, batch, i);
          continue;
        }
        commentIds := commentIds + {id};
        var row := ParseCommentDetails(c);
        TakeStep(seen0, batch, i, kept, row, rows0, comments);
        kept := kept + [c];
        if row.Some? {
          comments := comments + [row.value];
          processedComments := processedComments + 1;
        }
      }
      assert batch[..|batch|] == batch;
      KeptCount(seen0, batch);
      added := |commentIds| - before;
    }

    /** The crawl of `start_crawler`: the page loop, with what `Run`'s
        lemmas give about it. The no-response break is never taken, the pages
        are bounded by `max_pages` and by the events, every scroll strategy is
        `(page % 10) + 1`, and the records keep distinct IDs from the seen
        set; they stay exactly the seen set when every comment gets a record. */
    method Crawl(events: seq<PageEvent>) returns (stop: StopReason, scrolls: seq<int>)
      modifies this
      ensures var (r, why) := Run(maxPages, LoopState(old(commentIds), old(comments),
        old(processedComments), 0, 0, []), events);
        commentIds == r.ids && comments == r.rows && processedComments == r.processed &&
        scrolls == r.scrolls && stop == why
      ensures stop != NoResponseLimit
      ensures |scrolls| <= |events| && forall k :: 0 <= k < |scrolls| ==> scrolls[k] == ScrollMethod(k + 1)
      ensures maxPages.Some? && maxPages.value >= 0 ==> |scrolls| <= maxPages.value
      ensures old(Valid()) ==> Valid()
      ensures (old(Valid()) && old(RowsMatch(comments, commentIds)) &&
        forall k :: 0 <= k < |events| ==> Parses(events[k])) ==> RowsMatch(comments, commentIds)
    {
      ghost var start := State(0, 0, []);
      stop, scrolls := PageLoop(events);
      RunNeverStopsOnNoResponse(maxPages, start, events);
      if maxPages.None? || maxPages.value >= 0 {
        RunPages(maxPages, start, events);
      } else {
        assert Run(maxPages, start, events).0 == start;
      }
      if old(Valid()) {
        RunKeepsRows(maxPages, start, events);
      }
    }

    /** The page loop. Returns why it ended and the scroll strategy of every
        page; the object ends in the state `Run` gives. */
    method PageLoop(events: seq<PageEvent>) returns (stop: StopReason, scrolls: seq<int>)
      modifies this
      ensures var (r, why) := Run(maxPages, LoopState(old(commentIds), old(comments),
        old(processedComments), 0, 0, []), events);
        commentIds == r.ids && comments == r.rows && processedComments == r.processed &&
        scrolls == r.scrolls && stop == why
    {
      ghost var start := State(0, 0, []);
      var page: nat := 0;
      var noNew: nat := 0;
      var i := 0;
      scrolls := [];
      while MayContinue(maxPages, page) && i < |events|
        invariant 0 <= i <= |events|
        invariant Run(maxPages, State(page, noNew, scrolls), events[i..]) == Run(maxPages, start, events)
        decreases |events| - i
      {
        ghost var before := State(page, noNew, scrolls);
        ghost var step := PageStep(before, events[i]);
        assert Run(maxPages, before, events[i..]) ==
          if step.1.Some? then (step.0, step.1.value) else Run(maxPages, step.0, events[i + 1..]);
        var e := events[i];
        i := i + 1;
        page := page + 1;
        scrolls := scrolls + [ScrollMethod(page)];
        match e {
          case NoResponse(loaded) =>
            if !loaded {
              noNew := noNew + 1;
              if noNew >= MaxNoNew {
                if noNew == MaxNoNew {
                  noNew := noNew - 1;     // refresh the page and give it one more chance
                } else {
                  stop := NoResponseLimit;
                  return;
                }
              }
            }
            assert State(page, noNew, scrolls) == step.0;
          case InvalidBody =>
            noNew := noNew + 1;
            if noNew >= MaxNoNew {
              stop := InvalidLimit;
              return;
            }
            assert State(page, noNew, scrolls) == step.0;
          case Comments(batch, loaded) =>
            if batch == [] {
              noNew := noNew + 1;
              if noNew >= MaxNoNew {
                stop := EmptyLimit;
                return;
              }
            } else {
              var added := AcceptBatch(batch);
              if added > 0 {
                noNew := 0;
              } else {
                noNew := noNew + 1;
                if loaded {
                  noNew := noNew - 1;
                }
                if noNew >= MaxNoNew {
                  stop := NoNewLimit;
                  return;
                }
              }
            }
            assert State(page, noNew, scrolls) == step.0;
          case PageFailure =>
            noNew := noNew + 1;
            if noNew >= MaxFailures {
              stop := ErrorLimit;
              return;
            }
            assert State(page, noNew, scrolls) == step.0;
        }
      }
      stop := if !MayContinue(maxPages, page) then PageLimit else Interrupted;
    }

    /** After the loop: when the answer is 'y' (stripped, any case), some
        comments were crawled and some replies were found, every reply is
        padded with '' for the columns it lacks, handed to `writerow`, and
        appended to the records. Returns the outcome of each `writerow`:
        every one raises, so the replies file holds only its header (see
        `Records.ReplyRowsAlwaysRejected`). A failed `input()` is None. */
    method SaveReplies(answer: Option<string>, replies: seq<ReplyFields>)
      returns (attempts: seq<Result<seq<Cell>, CsvError>>)
      modifies this
      ensures var go := answer.Some? && Lower(Strip(answer.value)) == "y" &&
          |old(comments)| > 0 && |replies| > 0;
        (go ==> comments == old(comments) + PaddedReplies(replies) &&
                |attempts| == |replies| &&
                (forall k :: 0 <= k < |replies| ==> attempts[k] == ReplyCsvRow(replies[k])) &&
                FileRows(attempts) == []) &&
        (!go ==> comments == old(comments) && attempts == [])
      ensures commentIds == old(commentIds) && processedComments == old(processedComments)
    {
      attempts := [];
      if answer.None? || Lower(Strip(answer.value)) != "y" || |comments| == 0 || |replies| == 0 {
        return;
      }
      var padded;
      padded, attempts := WriteReplies(replies);
      comments := comments + padded;
    }
  }

  /** The write loop of the replies file: each reply is padded, then handed
      to `writerow` in its default raise mode. Every call raises, the
      exception is caught, and no row reaches the file. */
  method WriteReplies(replies: seq<ReplyFields>) returns (padded: seq<Row>, attempts: seq<Result<seq<Cell>, CsvError>>)
    ensures padded == PaddedReplies(replies)
    ensures |attempts| == |replies| && forall k :: 0 <= k < |replies| ==> attempts[k] == ReplyCsvRow(replies[k])
    ensures FileRows(attempts) == []
  {
    padded, attempts := [], [];
    for k := 0 to |replies|
      invariant padded == PaddedRows(replies[..k], Fieldnames)
      invariant |attempts| == k && forall j :: 0 <= j < k ==> attempts[j] == ReplyCsvRow(replies[j])
    {
      var row := PadReply(ReplyRow(replies[k]), Fieldnames);
      PaddedRowsSnoc(replies, k, Fieldnames);
      attempts := attempts + [CsvRow(row, Fieldnames)];
      padded := padded + [row];
    }
    assert replies[..|replies|] == replies;
    RepliesWriteNothing(replies, attempts);
  }

  /** As written, no reply reaches the replies file. */
  lemma {:induction false} RepliesWriteNothing(replies: seq<ReplyFields>, attempts: seq<Result<seq<Cell>, CsvError>>)
    requires |attempts| == |replies| && forall k :: 0 <= k < |replies| ==> attempts[k] == ReplyCsvRow(replies[k])
    ensures FileRows(attempts) == []
  {
    if attempts != [] {
      ReplyRowsAlwaysRejected(replies[0]);
      RepliesWriteNothing(replies[1..], attempts[1..]);
    }
  }

  /** The reply rows after padding. */
  function PaddedReplies(replies: seq<ReplyFields>): (r: seq<Row>)
    ensures |r| == |replies|
  {
    PaddedRows(replies, Fieldnames)
  }

  /** The reply rows padded to the given field names. */
  function PaddedRows(replies: seq<ReplyFields>, fieldnames: seq<Field>): (r: seq<Row>)
    ensures |r| == |replies|
  {
    seq(|replies|, k requires 0 <= k < |replies| => Padded(ReplyRow(replies[k]), fieldnames))
  }

  lemma PaddedRowsSnoc(replies: seq<ReplyFields>, k: nat, fieldnames: seq<Field>)
    requires k < |replies|
    ensures PaddedRows(replies[..k + 1], fieldnames) == PaddedRows(replies[..k], fieldnames) + [Padded(ReplyRow(replies[k]), fieldnames)]
  {
  }

  /** `for field in fieldnames: if field not in reply: reply[field] = ''`. */
  method PadReply(row: Row, fieldnames: seq<Field>) returns (padded: Row)
    ensures padded == Padded(row, fieldnames)
    ensures forall f :: f in padded <==> f in row || f in fieldnames
  {
    padded := row;
    for j := 0 to |fieldnames|
      invariant padded == Padded(row, fieldnames[..j])
    {
      if fieldnames[j] !in padded {
        padded := padded[fieldnames[j] := Text("")];
      }
      SliceSnoc(fieldnames, j);
    }
    SliceAll(fieldnames);
  }
}
