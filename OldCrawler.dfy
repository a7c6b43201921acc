/** The page loop of the old crawler's `start_crawler`: a retry counter for
    pages without a response, and a "no new comments" counter that ends the
    loop. Records are the six-field `OldRecord`; a comment whose record
    cannot be built still has its ID marked as seen. `OldRun` is the
    reference definition of the loop. */
module OldCrawler {
  import opened Seqs
  import opened Wrappers
  import opened Records
  import opened Dedup

  /** What one page of the loop gets from the browser. */
  datatype OldPageEvent =
    | OldNoResponse                  // no packet within the timeout
    | OldInvalidBody                 // a body that is empty or has no 'comments' key
    | OldComments(batch: seq<RawComment>, replyButtons: bool)  // replyButtons: "查看…回复" buttons were found
    | OldPageFailure                 // an exception raised in the page body

  /** Why the loop ended. `OldInterrupted` is the end of the modelled trace:
      the old loop has no stop flag, so it stands for the events running out
      while the loop would go on asking for pages. */
  datatype OldStopReason =
    | OldPageLimit | OldInterrupted | OldNoResponseLimit | OldInvalidLimit
    | OldEmptyLimit | OldNoNewLimit | OldErrorLimit

  /** `max_retry`. */
  const MaxRetry: nat := 5
  /** The no-new count that ends the loop for invalid, empty or failed pages. */
  const MaxNoNewOld: nat := 3
  /** The no-new count that ends the loop when no response arrives. */
  const MaxSilentRounds: nat := 5

  /** The no-new counter is an `int` so that the refresh branch, which a
      non-empty batch never reaches, needs no range check. */
  datatype OldState = OldState(ids: set<string>, rows: seq<Row>, page: nat, noNew: int, retry: nat)

  /** One iteration of the old page loop; the second component is the
      reason when the iteration breaks out of the loop. */
  function OldStep(s: OldState, e: OldPageEvent): (OldState, Option<OldStopReason>) {
    var t := s.(page := s.page + 1);
    match e
    case OldNoResponse =>
      if t.retry + 1 >= MaxRetry then
        var u := t.(noNew := t.noNew + 1, retry := 0);
        (u, if u.noNew >= MaxSilentRounds then Some(OldNoResponseLimit) else None)
      else (t.(retry := t.retry + 1), None)
    case OldInvalidBody =>
      var u := t.(retry := 0, noNew := t.noNew + 1);
      (u, if u.noNew >= MaxNoNewOld then Some(OldInvalidLimit) else None)
    case OldComments(batch, buttons) =>
      if batch == [] then
        var u := t.(retry := 0, noNew := t.noNew + 1);
        (u, if u.noNew >= MaxNoNewOld then Some(OldEmptyLimit) else None)
      else
        var u := t.(retry := 0, noNew := 0, ids := SeenAfter(s.ids, batch),
                    rows := s.rows + Recorded(OldRecord, Kept(s.ids, batch)));
        if |u.ids| - |s.ids| == 0 then
          var n := if buttons then 0 else u.noNew + 1;
          if n >= MaxNoNewOld then
            if n == MaxNoNewOld then (u.(noNew := 2), None)
            else (u.(noNew := n), Some(OldNoNewLimit))
          else (u.(noNew := n), None)
        else (u.(noNew := 0), None)
    case OldPageFailure =>
      var u := t.(noNew := t.noNew + 1);
      (u, if u.noNew >= MaxNoNewOld then Some(OldErrorLimit) else None)
  }

  /** The old page loop from state `s` over the remaining events. */
  function OldRun(maxPages: Option<int>, s: OldState, events: seq<OldPageEvent>): (OldState, OldStopReason)
    decreases |events|
  {
    if !(maxPages.None? || s.page < maxPages.value) then (s, OldPageLimit)
    else if events == [] then (s, OldInterrupted)
    else
      var (t, stop) := OldStep(s, events[0]);
      if stop.Some? then (t, stop.value) else OldRun(maxPages, t, events[1..])
  }

  // ---------------------------------------------------------------------------
  // Properties

  /** The retry counter: a page without a response raises it, and on reaching
      5 it goes back to 0 while the no-new counter rises by one; the loop
      stops there once that counter is 5 or more. Any response resets it. */
  lemma RetryCounter(s: OldState, e: OldPageEvent)
    requires s.retry < MaxRetry
    ensures var (t, stop) := OldStep(s, e); t.retry < MaxRetry
    ensures var (t, stop) := OldStep(s, e);
      e.OldNoResponse? && s.retry + 1 == MaxRetry ==>
        (t.retry == 0 && t.noNew == s.noNew + 1 && (stop.Some? <==> t.noNew >= MaxSilentRounds))
    ensures var (t, stop) := OldStep(s, e);
      e.OldNoResponse? && s.retry + 1 < MaxRetry ==> (t.retry == s.retry + 1 && t.noNew == s.noNew && stop.None?)
    ensures var (t, stop) := OldStep(s, e); e.OldInvalidBody? || e.OldComments? ==> t.retry == 0
  {
  }

  /** A non-empty comment list resets the no-new counter, so after it the
      counter is at most 1, and the refresh-or-stop branch for three pages
      without new IDs is never reached. */
  lemma BatchLeavesCounterLow(s: OldState, batch: seq<RawComment>, buttons: bool)
    requires batch != []
    ensures var (t, stop) := OldStep(s, OldComments(batch, buttons)); t.noNew <= 1 && stop.None?
    ensures var (t, stop) := OldStep(s, OldComments(batch, buttons));
      t.noNew == 1 <==> |Kept(s.ids, batch)| == 0 && !buttons
  {
    KeptCount(s.ids, batch);
  }

  /** The loop never ends through the "no new IDs" break. */
  lemma {:induction false} OldRunNeverStopsOnNoNew(maxPages: Option<int>, s: OldState, events: seq<OldPageEvent>)
    ensures OldRun(maxPages, s, events).1 != OldNoNewLimit
    decreases |events|
  {
    if (maxPages.None? || s.page < maxPages.value) && events != [] {
      var (t, stop) := OldStep(s, events[0]);
      if events[0].OldComments? && events[0].batch != [] {
        BatchLeavesCounterLow(s, events[0].batch, events[0].replyButtons);
      }
      if stop.None? {
        OldRunNeverStopsOnNoNew(maxPages, t, events[1..]);
      }
    }
  }

  /** The loop runs at most `max_pages` pages and at most one per event. */
  lemma {:induction false} OldRunPages(maxPages: Option<int>, s: OldState, events: seq<OldPageEvent>)
    requires maxPages.Some? ==> s.page <= maxPages.value
    ensures var r := OldRun(maxPages, s, events).0;
      s.page <= r.page <= s.page + |events| && (maxPages.Some? ==> r.page <= maxPages.value)
    decreases |events|
  {
    if (maxPages.None? || s.page < maxPages.value) && events != [] {
      var (t, stop) := OldStep(s, events[0]);
      if stop.None? {
        OldRunPages(maxPages, t, events[1..]);
      }
    }
  }

  /** Every record has exactly the six basic fields. */
  lemma OldRowsKeys(cs: seq<RawComment>)
    ensures forall i :: 0 <= i < |Recorded(OldRecord, cs)| ==>
      Recorded(OldRecord, cs)[i].Keys == set f | f in BasicFieldnames
  {
    RecordedKeys(OldRecord, cs, set f | f in BasicFieldnames);
  }

  /** Every record of the loop carries a distinct ID from the seen set. */
  lemma {:induction false} OldRunKeepsRowsWithin(maxPages: Option<int>, s: OldState, events: seq<OldPageEvent>)
    requires RowsWithin(s.rows, s.ids)
    ensures var r := OldRun(maxPages, s, events).0; RowsWithin(r.rows, r.ids)
    decreases |events|
  {
    if (maxPages.None? || s.page < maxPages.value) && events != [] {
      var (t, stop) := OldStep(s, events[0]);
      if events[0].OldComments? && events[0].batch != [] {
        OldRecordKeepsIds();
        RecordedKeepsWithin(OldRecord, s.rows, s.ids, events[0].batch);
      }
      if stop.None? {
        OldRunKeepsRowsWithin(maxPages, t, events[1..]);
      }
    }
  }

  // ---------------------------------------------------------------------------
  // Pages that bring nothing new

  /** A non-empty comment list whose IDs have all been seen. */
  predicate StalePage(ids: set<string>, e: OldPageEvent) {
    e.OldComments? && e.batch != [] && forall i :: 0 <= i < |e.batch| ==> CommentId(e.batch[i]) in ids
  }

  /** As written, with `max_pages` None, pages that keep returning comments
      already seen never end the loop: each list resets the no-new counter
      before the "no new IDs" branch raises it, so it stays below 3. The loop
      goes through all such pages, changing neither the seen set nor the
      records, and only the end of the modelled trace stops it. */
  lemma {:induction false} OldRunLoopsOnStalePages(s: OldState, events: seq<OldPageEvent>)
    requires forall k :: 0 <= k < |events| ==> StalePage(s.ids, events[k])
    ensures var (r, why) := OldRun(None, s, events);
      why == OldInterrupted && r.ids == s.ids && r.rows == s.rows && r.page == s.page + |events|
    decreases |events|
  {
    if events != [] {
      var e := events[0];
      assert StalePage(s.ids, e);
      KeptNothingNew(s.ids, e.batch);
      BatchLeavesCounterLow(s, e.batch, e.replyButtons);
      var t := OldStep(s, e).0;
      assert t.ids == s.ids && t.rows == s.rows && t.page == s.page + 1;
      assert forall k :: 0 <= k < |events[1..]| ==> events[1..][k] == events[k + 1];
      OldRunLoopsOnStalePages(t, events[1..]);
    }
  }

  /** The "no new comments" watch as the old loop evidently intends it: the
      number of comment lists in a row without new IDs, and whether the one
      refresh has been spent. */
  datatype Watch = Watch(count: nat, refreshed: bool)

  /** The watch after a non-empty comment list: new IDs clear the count;
      clicked reply buttons clear it too; otherwise it rises, and on
      reaching 3 the page is refreshed once, back to 2, and after the
      refresh the loop stops (None). */
  function WatchStep(w: Watch, newIds: bool, buttons: bool): Option<Watch> {
    if newIds || buttons then Some(w.(count := 0))
    else if w.count + 1 < MaxNoNewOld then Some(w.(count := w.count + 1))
    else if !w.refreshed then Some(Watch(MaxNoNewOld - 1, true))
    else None
  }

  /** The watch after `n` lists in a row without new IDs or reply buttons;
      None once the loop has stopped. */
  function StaleRun(w: Watch, n: nat): Option<Watch>
    decreases n
  {
    if n == 0 then Some(w)
    else match WatchStep(w, false, false)
      case None => None
      case Some(v) => StaleRun(v, n - 1)
  }

  /** The stale lists the corrected watch still allows: up to the third in a
      row, plus one for the refresh while it is unspent. */
  function StaleAllowance(w: Watch): nat
    requires w.count < MaxNoNewOld
  {
    MaxNoNewOld - w.count + (if w.refreshed then 0 else 1)
  }

  /** The corrected watch ends the loop: from any count below 3, the loop
      stops exactly when the stale lists reach the allowance, so at most
      four stale lists in a row pass. */
  lemma {:induction false} StaleWatchStops(w: Watch, n: nat)
    requires w.count < MaxNoNewOld
    ensures StaleRun(w, n).None? <==> n >= StaleAllowance(w)
    ensures StaleAllowance(w) <= MaxNoNewOld + 1
    decreases n
  {
    if n > 0 {
      match WatchStep(w, false, false)
      case None =>
      case Some(v) =>
        StaleWatchStops(v, n - 1);
    }
  }

  // ---------------------------------------------------------------------------
  // The crawler object

  class OldCommentCrawler {
    /** `self.comment_ids`. */
    var commentIds: set<string>
    /** `self.comments`. */
    var comments: seq<Row>
    /** `self.max_pages`. */
    const maxPages: Option<int>

    constructor (maxPages: Option<int>)
      ensures this.maxPages == maxPages && commentIds == {} && comments == []
      ensures Valid()
    {
      this.maxPages := maxPages;
      commentIds := {};
      comments := [];
    }

    /** The records carry distinct IDs, all of them seen. */
    predicate Valid()
      reads this
    {
      RowsWithin(comments, commentIds)
    }

    /** The `for comment in comments` loop: skip seen IDs, add a new ID to the
        set, then append its record if it can be built. Returns
        `comment_id_added`. */
    method AcceptBatch(batch: seq<RawComment>) returns (added: nat)
      modifies this
      ensures commentIds == SeenAfter(old(commentIds), batch)
      ensures comments == old(comments) + Recorded(OldRecord, Kept(old(commentIds), batch))
      ensures added == |commentIds| - |old(commentIds)| == |Kept(old(commentIds), batch)|
    {
      ghost var seen0, rows0 := commentIds, comments;
      ghost var kept: seq<RawComment> := [];
      var before := |commentIds|;
      for i := 0 to |batch|
        invariant kept == Kept(seen0, batch[..i])
        invariant commentIds == SeenAfter(seen0, batch[..i])
        invariant comments == rows0 + Recorded(OldRecord, kept)
      {
        var c := batch[i];
        var id := CommentId(c);
        if id in commentIds {
          KeptSkip(seen0, batch, i);
          continue;
        }
        commentIds := commentIds + {id};
        var record := OldRecord(c);
        OldTakeStep(seen0, batch, i, kept, record, rows0, comments);
        kept := kept + [c];
        if record.Some? {
          comments := comments + [record.value];
        }
      }
      assert batch[..|batch|] == batch;
      KeptCount(seen0, batch);
      added := |commentIds| - before;
    }

    /** The old crawl, with what `OldRun`'s lemmas give about it: the pages are
        bounded by `max_pages` and the events, the "no new IDs" break is never
        taken, and the records keep distinct IDs from the seen set. */
    method Crawl(events: seq<OldPageEvent>) returns (stop: OldStopReason, pages: nat)
      modifies this
      ensures var (r, why) := OldRun(maxPages, OldState(old(commentIds), old(comments), 0, 0, 0), events);
        commentIds == r.ids && comments == r.rows && pages == r.page && stop == why
      ensures stop != OldNoNewLimit
      ensures pages <= |events| && (maxPages.Some? && maxPages.value >= 0 ==> pages <= maxPages.value)
      ensures old(Valid()) ==> Valid()
    {
      ghost var start := OldState(commentIds, comments, 0, 0, 0);
      stop, pages := PageLoop(events);
      OldRunNeverStopsOnNoNew(maxPages, start, events);
      if maxPages.None? || maxPages.value >= 0 {
        OldRunPages(maxPages, start, events);
      }
      if old(Valid()) {
        OldRunKeepsRowsWithin(maxPages, start, events);
      }
    }

    /** The page loop; the object ends in the state `OldRun` gives. */
    method PageLoop(events: seq<OldPageEvent>) returns (stop: OldStopReason, page: nat)
      modifies this
      ensures var (r, why) := OldRun(maxPages, OldState(old(commentIds), old(comments), 0, 0, 0), events);
        commentIds == r.ids && comments == r.rows && page == r.page && stop == why
    {
      ghost var start := OldState(commentIds, comments, 0, 0, 0);
      page := 0;
      var noNew: int := 0;
      var retry: nat := 0;
      var i := 0;
      while (maxPages.None? || page < maxPages.value) && i < |events|
        invariant 0 <= i <= |events|
        invariant OldRun(maxPages, OldState(commentIds, comments, page, noNew, retry), events[i..]) ==
          OldRun(maxPages, start, events)
        decreases |events| - i
      {
        ghost var before := OldState(commentIds, comments, page, noNew, retry);
        ghost var step := OldStep(before, events[i]);
        assert OldRun(maxPages, before, events[i..]) ==
          if step.1.Some? then (step.0, step.1.value) else OldRun(maxPages, step.0, events[i + 1..]);
        var e := events[i];
        i := i + 1;
        page := page + 1;
        match e {
          case OldNoResponse =>
            retry := retry + 1;
            if retry >= MaxRetry {
              noNew := noNew + 1;
              retry := 0;
              if noNew >= MaxSilentRounds {
                stop := OldNoResponseLimit;
                return;
              }
            }
            assert OldState(commentIds, comments, page, noNew, retry) == step.0;
          case OldInvalidBody =>
            retry := 0;
            noNew := noNew + 1;
            if noNew >= MaxNoNewOld {
              stop := OldInvalidLimit;
              return;
            }
            assert OldState(commentIds, comments, page, noNew, retry) == step.0;
          case OldComments(batch, buttons) =>
            retry := 0;
            if batch == [] {
              noNew := noNew + 1;
              if noNew >= MaxNoNewOld {
                stop := OldEmptyLimit;
                return;
              }
            } else {
              noNew := 0;
              var added := AcceptBatch(batch);
              if added == 0 {
                noNew := noNew + 1;
                if buttons {
                  noNew := 0;
                }
                if noNew >= MaxNoNewOld {
                  if noNew == MaxNoNewOld {
                    noNew := 2;     // refresh the page and give it one more chance
                  } else {
                    stop := OldNoNewLimit;
                    return;
                  }
                }
              } else {
                noNew := 0;
              }
            }
            assert OldState(commentIds, comments, page, noNew, retry) == step.0;
          case OldPageFailure =>
            noNew := noNew + 1;
            if noNew >= MaxNoNewOld {
              stop := OldErrorLimit;
              return;
            }
            assert OldState(commentIds, comments, page, noNew, retry) == step.0;
        }
      }
      stop := if !(maxPages.None? || page < maxPages.value) then OldPageLimit else OldInterrupted;
    }
  }

  /** A comment with a new ID is kept, its ID is seen, and its record, if it
      has one, follows the records before it. */
  lemma OldTakeStep(seen: set<string>, batch: seq<RawComment>, i: nat, kept: seq<RawComment>, record: Option<Row>,
                 rows0: seq<Row>, rows: seq<Row>)
    requires i < |batch| && CommentId(batch[i]) !in SeenAfter(seen, batch[..i])
    requires kept == Kept(seen, batch[..i]) && record == OldRecord(batch[i])
    requires rows == rows0 + Recorded(OldRecord, kept)
    ensures Kept(seen, batch[..i + 1]) == kept + [batch[i]]
    ensures SeenAfter(seen, batch[..i + 1]) == SeenAfter(seen, batch[..i]) + {CommentId(batch[i])}
    ensures (if record.Some? then rows + [record.value] else rows) == rows0 + Recorded(OldRecord, kept + [batch[i]])
  {
    SliceSnoc(batch, i);
    KeptSnoc(seen, batch[..i], batch[i]);
    RecordedSnoc(OldRecord, kept, batch[i]);
  }
}
