/** The rest of `analyze_interaction_network`: the time-window fallback that
    links a comment to an earlier similar one, the sort by time it runs on,
    the reply edges of the interaction graph, and the analyzer object whose
    rows the analysis updates.  The similarity score and the synthetic user
    IDs are parameters. */
module Interaction {
  import opened Wrappers
  import opened PyStr
  import opened Mentions

  /** One row of the comment table, with the time in seconds. */
  datatype CommentRow = CommentRow(nickname: string, userId: string, replyTo: Option<string>, time: int, text: string)

  /** The fallback's `time_window`: five minutes. */
  const TimeWindow: int := 300

  /** The fallback's similarity threshold. */
  const SimilarityThreshold: real := 0.4

  // ---------------------------------------------------------------------------
  // The sort by time

  /** Inserts `x` before the first row that is not earlier. */
  function InsertByTime(x: CommentRow, s: seq<CommentRow>): seq<CommentRow> {
    if s == [] || x.time <= s[0].time then [x] + s
    else [s[0]] + InsertByTime(x, s[1..])
  }

  /** `sort_values(by='时间')`, as a stable insertion sort. */
  function SortByTime(rows: seq<CommentRow>): seq<CommentRow> {
    if rows == [] then [] else InsertByTime(rows[0], SortByTime(rows[1..]))
  }

  predicate TimeSorted(rows: seq<CommentRow>) {
    forall i, j :: 0 <= i < j < |rows| ==> rows[i].time <= rows[j].time
  }

  lemma {:induction false} InsertByTimeCount(x: CommentRow, s: seq<CommentRow>)
    ensures multiset(InsertByTime(x, s)) == multiset(s) + multiset{x}
  {
    if s != [] && x.time > s[0].time {
      InsertByTimeCount(x, s[1..]);
      assert s == [s[0]] + s[1..];
    }
  }

  lemma TimeSortedCons(a: CommentRow, u: seq<CommentRow>)
    requires TimeSorted(u)
    requires forall k :: 0 <= k < |u| ==> a.time <= u[k].time
    ensures TimeSorted([a] + u)
  {
    forall i, j | 0 <= i < j < |[a] + u| ensures ([a] + u)[i].time <= ([a] + u)[j].time {
      if i > 0 {
        assert ([a] + u)[i] == u[i - 1];
      }
      assert ([a] + u)[j] == u[j - 1];
    }
  }

  lemma {:induction false} InsertByTimeSpec(x: CommentRow, s: seq<CommentRow>)
    requires TimeSorted(s)
    ensures TimeSorted(InsertByTime(x, s))
    ensures multiset(InsertByTime(x, s)) == multiset(s) + multiset{x}
  {
    InsertByTimeCount(x, s);
    if s == [] || x.time <= s[0].time {
      TimeSortedCons(x, s);
    } else {
      var t := s[1..];
      InsertByTimeSpec(x, t);
      var u := InsertByTime(x, t);
      forall k | 0 <= k < |u| ensures s[0].time <= u[k].time {
        assert u[k] in multiset(t) + multiset{x};
        if u[k] != x {
          var m :| 0 <= m < |t| && t[m] == u[k];
          assert s[m + 1] == u[k];
        }
      }
      TimeSortedCons(s[0], u);
    }
  }

  /** The sort orders the rows by time and keeps each row. */
  lemma {:induction false} SortByTimeSpec(rows: seq<CommentRow>)
    ensures TimeSorted(SortByTime(rows))
    ensures multiset(SortByTime(rows)) == multiset(rows)
  {
    if rows != [] {
      SortByTimeSpec(rows[1..]);
      InsertByTimeSpec(rows[0], SortByTime(rows[1..]));
      assert rows == [rows[0]] + rows[1..];
    }
  }

  // ---------------------------------------------------------------------------
  // The time-window fallback

  /** `any(word in current for word in previous.split() if len(word) > 1)`. */
  predicate SharesWord(words: seq<string>, current: string) {
    words != [] && ((|words[0]| > 1 && Contains(current, words[0])) || SharesWord(words[1..], current))
  }

  /** Row `j` is a reply candidate for row `i`: another row, not later, at
      most five minutes earlier, and similar or sharing a word. */
  predicate Related(rows: seq<CommentRow>, sim: (string, string) -> real, i: nat, j: nat)
    requires i < |rows| && j < |rows|
  {
    i != j && rows[j].time <= rows[i].time && rows[i].time - rows[j].time <= TimeWindow &&
    (sim(rows[i].text, rows[j].text) > SimilarityThreshold || SharesWord(Words(rows[j].text), rows[i].text))
  }

  /** The first candidate for row `i` at or after `from`. */
  function FirstRelated(rows: seq<CommentRow>, sim: (string, string) -> real, i: nat, from: nat): (r: Option<nat>)
    requires i < |rows| && from <= |rows|
    ensures r.Some? ==> (from <= r.value < |rows| && Related(rows, sim, i, r.value) &&
      forall j :: from <= j < r.value ==> !Related(rows, sim, i, j))
    ensures r.None? ==> forall j :: from <= j < |rows| ==> !Related(rows, sim, i, j)
    decreases |rows| - from
  {
    if from == |rows| then None
    else if Related(rows, sim, i, from) then Some(from)
    else FirstRelated(rows, sim, i, from + 1)
  }

  /** The reply target of row `i` after the fallback. */
  function FallbackTarget(rows: seq<CommentRow>, sim: (string, string) -> real, i: nat): Option<string>
    requires i < |rows|
  {
    if rows[i].replyTo.Some? then rows[i].replyTo
    else match FirstRelated(rows, sim, i, 0)
      case None => None
      case Some(j) => Some(rows[j].userId)
  }

  /** A row that already has a target keeps it; otherwise it gets the user
      of the first related row, and none when no row is related. */
  lemma FallbackTargetSpec(rows: seq<CommentRow>, sim: (string, string) -> real, i: nat)
    requires i < |rows|
    ensures rows[i].replyTo.Some? ==> FallbackTarget(rows, sim, i) == rows[i].replyTo
    ensures rows[i].replyTo.None? ==>
      (FallbackTarget(rows, sim, i).None? <==> forall j :: 0 <= j < |rows| ==> !Related(rows, sim, i, j))
    ensures rows[i].replyTo.None? && FallbackTarget(rows, sim, i).Some? ==>
      exists j :: 0 <= j < |rows| && Related(rows, sim, i, j) &&
        (forall k :: 0 <= k < j ==> !Related(rows, sim, i, k)) &&
        FallbackTarget(rows, sim, i) == Some(rows[j].userId)
  {
    var r := FirstRelated(rows, sim, i, 0);
    if rows[i].replyTo.None? && r.Some? {
      assert Related(rows, sim, i, r.value);
    }
  }

  /** The rows after the fallback. */
  function WithFallback(rows: seq<CommentRow>, sim: (string, string) -> real): (r: seq<CommentRow>)
    ensures |r| == |rows|
  {
    seq(|rows|, i requires 0 <= i < |rows| => rows[i].(replyTo := FallbackTarget(rows, sim, i)))
  }

  /** The fallback loop over the time-sorted rows; `found` reports whether it
      set any target. */
  method FallbackLoop(rows: seq<CommentRow>, sim: (string, string) -> real)
    returns (updated: seq<CommentRow>, found: bool)
    ensures updated == WithFallback(rows, sim)
    ensures found <==> exists i :: 0 <= i < |rows| && rows[i].replyTo.None? && updated[i].replyTo.Some?
  {
    updated := rows;
    found := false;
    for i := 0 to |rows|
      invariant |updated| == |rows|
      invariant forall r :: 0 <= r < i ==> updated[r] == WithFallback(rows, sim)[r]
      invariant forall r :: i <= r < |rows| ==> updated[r] == rows[r]
      invariant found <==> exists r :: 0 <= r < i && rows[r].replyTo.None? && updated[r].replyTo.Some?
    {
      if rows[i].replyTo.Some? {
        continue;
      }
      var target := ScanEarlier(rows, sim, i);
      if target.Some? {
        updated := updated[i := rows[i].(replyTo := target)];
        found := true;
      }
    }
  }

  /** The inner loop for one row: the first related row gives the target. */
  method ScanEarlier(rows: seq<CommentRow>, sim: (string, string) -> real, i: nat) returns (target: Option<string>)
    requires i < |rows| && rows[i].replyTo.None?
    ensures target == FallbackTarget(rows, sim, i)
  {
    for j := 0 to |rows|
      invariant forall k :: 0 <= k < j ==> !Related(rows, sim, i, k)
    {
      var previous := rows[j];
      if i == j || previous.time > rows[i].time {
        continue;
      }
      if rows[i].time - previous.time <= TimeWindow {
        if sim(rows[i].text, previous.text) > SimilarityThreshold || SharesWord(Words(previous.text), rows[i].text) {
          assert Related(rows, sim, i, j);
          assert FirstRelated(rows, sim, i, 0) == Some(j);
          return Some(previous.userId);
        }
      }
    }
    assert FirstRelated(rows, sim, i, 0).None?;
    return None;
  }

  // ---------------------------------------------------------------------------
  // The graph

  function UserIds(rows: seq<CommentRow>): set<string> {
    set i | 0 <= i < |rows| :: rows[i].userId
  }

  /** The reply edges: from a row's user to its target, when the target is a
      node of the graph. */
  function ReplyEdges(rows: seq<CommentRow>): set<(string, string)> {
    set i | 0 <= i < |rows| && rows[i].replyTo.Some? && rows[i].replyTo.value in UserIds(rows) ::
      (rows[i].userId, rows[i].replyTo.value)
  }

  /** Both ends of every edge are nodes, and every row whose target is a node
      gives its edge. */
  lemma ReplyEdgesSpec(rows: seq<CommentRow>)
    ensures forall e :: e in ReplyEdges(rows) ==> e.0 in UserIds(rows) && e.1 in UserIds(rows)
    ensures forall i :: 0 <= i < |rows| && rows[i].replyTo.Some? && rows[i].replyTo.value in UserIds(rows) ==>
      (rows[i].userId, rows[i].replyTo.value) in ReplyEdges(rows)
  {
    forall e | e in ReplyEdges(rows) ensures e.0 in UserIds(rows) && e.1 in UserIds(rows) {
      var i :| 0 <= i < |rows| && rows[i].replyTo.Some? && rows[i].replyTo.value in UserIds(rows) &&
        e == (rows[i].userId, rows[i].replyTo.value);
      assert rows[i].userId in UserIds(rows);
    }
  }

  /** The edge loop, `G.add_edge` for every row with a target in the graph. */
  method BuildEdges(rows: seq<CommentRow>) returns (edges: set<(string, string)>)
    ensures edges == ReplyEdges(rows)
  {
    var nodes := UserIds(rows);
    edges := {};
    for i := 0 to |rows|
      invariant edges == set r | 0 <= r < i && rows[r].replyTo.Some? && rows[r].replyTo.value in nodes ::
        (rows[r].userId, rows[r].replyTo.value)
    {
      if rows[i].replyTo.Some? && rows[i].replyTo.value in nodes {
        edges := edges + {(rows[i].userId, rows[i].replyTo.value)};
      }
    }
  }

  // ---------------------------------------------------------------------------
  // The analyzer object

  function Texts(rows: seq<CommentRow>): seq<string> {
    seq(|rows|, i requires 0 <= i < |rows| => rows[i].text)
  }

  function People(rows: seq<CommentRow>): seq<(string, string)> {
    seq(|rows|, i requires 0 <= i < |rows| => (rows[i].nickname, rows[i].userId))
  }

  predicate AnyTarget(rows: seq<CommentRow>) {
    exists i :: 0 <= i < |rows| && rows[i].replyTo.Some?
  }

  /** The rows with their targets set from the mentions. */
  function WithMentions(rows: seq<CommentRow>): (r: seq<CommentRow>)
    ensures |r| == |rows|
  {
    seq(|rows|, i requires 0 <= i < |rows| => rows[i].(replyTo := MentionTarget(People(rows), rows[i].text)))
  }

  /** The table after the missing ID columns are added: synthetic user IDs
      from the nickname, and an empty reply-ID column. */
  function Filled(rows: seq<CommentRow>, hasUserIds: bool, hasReplyIds: bool, synthetic: string -> string): (r: seq<CommentRow>)
    ensures |r| == |rows|
  {
    seq(|rows|, i requires 0 <= i < |rows| =>
      rows[i].(userId := if hasUserIds then rows[i].userId else synthetic(rows[i].nickname),
               replyTo := if hasReplyIds then rows[i].replyTo else None))
  }

  /** The table before the fallback: as loaded when both ID columns exist;
      otherwise filled, with the mention targets when the reply-ID column was
      missing. */
  function Targeted(rows: seq<CommentRow>, hasUserIds: bool, hasReplyIds: bool, synthetic: string -> string): seq<CommentRow> {
    if hasUserIds && hasReplyIds then rows
    else
      var filled := Filled(rows, hasUserIds, hasReplyIds, synthetic);
      if !hasReplyIds then WithMentions(filled) else filled
  }

  /** `reply_relation_found` before the fallback: some reply ID is present
      when both columns exist, some mention matched when the reply-ID column
      was missing, and false when only the user-ID column was missing. */
  function FoundBefore(rows: seq<CommentRow>, hasUserIds: bool, hasReplyIds: bool, synthetic: string -> string): bool {
    var t := Targeted(rows, hasUserIds, hasReplyIds, synthetic);
    (hasUserIds && hasReplyIds && AnyTarget(t)) || (!hasReplyIds && AnyTarget(t))
  }

  /** The table after the analysis. */
  function Analyzed(rows: seq<CommentRow>, hasUserIds: bool, hasReplyIds: bool,
                    synthetic: string -> string, sim: (string, string) -> real): seq<CommentRow> {
    var t := Targeted(rows, hasUserIds, hasReplyIds, synthetic);
    if FoundBefore(rows, hasUserIds, hasReplyIds, synthetic) then t else WithFallback(SortByTime(t), sim)
  }

  /** Whether the fallback set a target. */
  predicate FallbackSetSome(rows: seq<CommentRow>, sim: (string, string) -> real) {
    exists i :: 0 <= i < |rows| && rows[i].replyTo.None? && WithFallback(rows, sim)[i].replyTo.Some?
  }

  /** `reply_relation_found` at the end, which decides whether a graph is drawn. */
  predicate Found(rows: seq<CommentRow>, hasUserIds: bool, hasReplyIds: bool,
                  synthetic: string -> string, sim: (string, string) -> real) {
    FoundBefore(rows, hasUserIds, hasReplyIds, synthetic) ||
    FallbackSetSome(SortByTime(Targeted(rows, hasUserIds, hasReplyIds, synthetic)), sim)
  }

  /** Sorting keeps whether some row has a target. */
  lemma SortKeepsTargets(rows: seq<CommentRow>)
    ensures AnyTarget(SortByTime(rows)) <==> AnyTarget(rows)
  {
    SortByTimeSpec(rows);
    var s := SortByTime(rows);
    if AnyTarget(rows) {
      var i :| 0 <= i < |rows| && rows[i].replyTo.Some?;
      assert rows[i] in multiset(s);
    }
    if AnyTarget(s) {
      var i :| 0 <= i < |s| && s[i].replyTo.Some?;
      assert s[i] in multiset(rows);
    }
  }

  /** A graph is drawn only when some row has a reply target; and, except
      when only the user-ID column was missing, whenever some row has one. */
  lemma FoundSpec(rows: seq<CommentRow>, hasUserIds: bool, hasReplyIds: bool,
                  synthetic: string -> string, sim: (string, string) -> real)
    ensures Found(rows, hasUserIds, hasReplyIds, synthetic, sim) ==>
      AnyTarget(Analyzed(rows, hasUserIds, hasReplyIds, synthetic, sim))
    ensures !(hasReplyIds && !hasUserIds) ==>
      (Found(rows, hasUserIds, hasReplyIds, synthetic, sim) <==>
       AnyTarget(Analyzed(rows, hasUserIds, hasReplyIds, synthetic, sim)))
  {
    var t := Targeted(rows, hasUserIds, hasReplyIds, synthetic);
    var s := SortByTime(t);
    var a := Analyzed(rows, hasUserIds, hasReplyIds, synthetic, sim);
    if !FoundBefore(rows, hasUserIds, hasReplyIds, synthetic) {
      assert a == WithFallback(s, sim);
      if FallbackSetSome(s, sim) {
        var i :| 0 <= i < |s| && s[i].replyTo.None? && a[i].replyTo.Some?;
      }
      if !(hasReplyIds && !hasUserIds) {
        SortKeepsTargets(t);
        if AnyTarget(a) {
          var i :| 0 <= i < |a| && a[i].replyTo.Some?;
          assert s[i].replyTo.None?;
        }
      }
    }
  }

  /** The mention pass: every row's target is the user its text mentions;
      `found` reports whether any mention matched. */
  method MentionStep(rows: seq<CommentRow>) returns (updated: seq<CommentRow>, found: bool)
    ensures updated == WithMentions(rows)
    ensures found <==> AnyTarget(updated)
  {
    var targets;
    targets, found := InferMentionTargets(People(rows), Texts(rows));
    updated := seq(|rows|, i requires 0 <= i < |rows| => rows[i].(replyTo := targets[i]));
    assert found <==> AnyTarget(updated) by {
      if found {
        var i :| 0 <= i < |targets| && targets[i].Some?;
        assert updated[i].replyTo.Some?;
      }
    }
  }

  class CommentAnalyzer {
    /** `self.df`, one row per comment. */
    var rows: seq<CommentRow>
    /** Whether the table has the '用户ID' column. */
    var hasUserIds: bool
    /** Whether the table has the '回复给用户ID' column. */
    var hasReplyIds: bool

    constructor (rows: seq<CommentRow>, hasUserIds: bool, hasReplyIds: bool)
      ensures this.rows == rows && this.hasUserIds == hasUserIds && this.hasReplyIds == hasReplyIds
    {
      this.rows := rows;
      this.hasUserIds := hasUserIds;
      this.hasReplyIds := hasReplyIds;
    }

    /** A missing user-ID column is filled from `synthetic` (the nickname
        prefix and hash suffix), and a missing reply-ID column starts empty. */
    method AddMissingColumns(synthetic: string -> string)
      modifies this
      ensures hasUserIds && hasReplyIds
      ensures rows == Filled(old(rows), old(hasUserIds), old(hasReplyIds), synthetic)
    {
      var updated := rows;
      for i := 0 to |updated|
        invariant |updated| == |rows|
        invariant forall r :: 0 <= r < i ==> updated[r] == Filled(rows, hasUserIds, hasReplyIds, synthetic)[r]
        invariant forall r :: i <= r < |updated| ==> updated[r] == rows[r]
      {
        var row := updated[i];
        if !hasUserIds {
          row := row.(userId := synthetic(row.nickname));
        }
        if !hasReplyIds {
          row := row.(replyTo := None);
        }
        updated := updated[i := row];
      }
      rows := updated;
      hasUserIds := true;
      hasReplyIds := true;
    }

    /** `analyze_interaction_network` up to the graph: the reply targets, the
        fallback when none was found (which leaves the table sorted by time),
        and the edges, or None when no reply relation was found. */
    method AnalyzeInteractionNetwork(synthetic: string -> string, sim: (string, string) -> real)
      returns (edges: Option<set<(string, string)>>)
      modifies this
      ensures hasUserIds && hasReplyIds
      ensures rows == Analyzed(old(rows), old(hasUserIds), old(hasReplyIds), synthetic, sim)
      ensures edges.Some? <==> Found(old(rows), old(hasUserIds), old(hasReplyIds), synthetic, sim)
      ensures edges.Some? ==> AnyTarget(rows) && edges.value == ReplyEdges(rows)
    {
      ghost var rows0 := rows;
      var hadUserIds, hadReplyIds := hasUserIds, hasReplyIds;
      var current := rows;
      var found: bool;
      if !(hasUserIds && hasReplyIds) {
        AddMissingColumns(synthetic);
        current := rows;
        if !hadReplyIds {
          current, found := MentionStep(current);
        } else {
          found := false;
        }
      } else {
        found := exists i :: 0 <= i < |current| && current[i].replyTo.Some?;
      }
      assert current == Targeted(rows0, hadUserIds, hadReplyIds, synthetic);
      assert found == FoundBefore(rows0, hadUserIds, hadReplyIds, synthetic);
      if !found {
        current := SortByTime(current);
        current, found := FallbackLoop(current, sim);
      }
      rows := current;
      FoundSpec(rows0, hadUserIds, hadReplyIds, synthetic, sim);
      if found {
        var e := BuildEdges(rows);
        edges := Some(e);
      } else {
        edges := None;
      }
    }
  }
}
