/** The user influence score: per nickname, the number of comments, the
    total likes and the average comment length, each divided by its maximum
    over the users, weighted 0.4 / 0.4 / 0.2 and scaled to 0..100.  The
    arithmetic is over the reals. */
module Influence {
  import opened Wrappers

  /** One comment: the nickname, the like count after `to_numeric` (None
      where the value is not a number) and the text. */
  datatype Row = Row(nickname: string, likes: Option<real>, text: string)

  /** `fillna(0)` after the coercion; zero for every row when the like column
      is missing. */
  function Likes(row: Row, hasLikes: bool): real {
    if hasLikes then row.likes.GetOr(0.0) else 0.0
  }

  /** The per-user metrics. */
  function CommentCount(rows: seq<Row>, user: string): nat {
    if rows == [] then 0
    else CommentCount(rows[..|rows| - 1], user) + (if rows[|rows| - 1].nickname == user then 1 else 0)
  }

  function TotalLikes(rows: seq<Row>, user: string, hasLikes: bool): real {
    if rows == [] then 0.0
    else
      var last := rows[|rows| - 1];
      TotalLikes(rows[..|rows| - 1], user, hasLikes) + (if last.nickname == user then Likes(last, hasLikes) else 0.0)
  }

  function TotalLength(rows: seq<Row>, user: string): nat {
    if rows == [] then 0
    else
      var last := rows[|rows| - 1];
      TotalLength(rows[..|rows| - 1], user) + (if last.nickname == user then |last.text| else 0)
  }

  /** The mean comment length of a user; a user without comments has none,
      and is given zero. */
  function AverageLength(rows: seq<Row>, user: string): real {
    var n := CommentCount(rows, user);
    if n == 0 then 0.0 else TotalLength(rows, user) as real / n as real
  }

  /** With non-negative like counts (or none), every metric is non-negative. */
  lemma {:induction false} MetricsNonNegative(rows: seq<Row>, user: string, hasLikes: bool)
    requires hasLikes ==> forall k :: 0 <= k < |rows| && rows[k].likes.Some? ==> rows[k].likes.value >= 0.0
    ensures TotalLikes(rows, user, hasLikes) >= 0.0
    ensures AverageLength(rows, user) >= 0.0
  {
    if rows != [] {
      MetricsNonNegative(rows[..|rows| - 1], user, hasLikes);
    }
  }

  /** A user's total length is at most their number of comments times the
      longest comment, so the average never exceeds the longest. */
  lemma {:induction false} TotalLengthBound(rows: seq<Row>, user: string, bound: nat)
    requires forall k :: 0 <= k < |rows| ==> |rows[k].text| <= bound
    ensures TotalLength(rows, user) <= CommentCount(rows, user) * bound
  {
    if rows != [] {
      TotalLengthBound(rows[..|rows| - 1], user, bound);
    }
  }

  // ---------------------------------------------------------------------------
  // Normalisation

  /** `max()` of a non-empty column. */
  function Max(xs: seq<real>): (m: real)
    requires |xs| > 0
    ensures (exists i :: 0 <= i < |xs| && xs[i] == m) && forall i :: 0 <= i < |xs| ==> xs[i] <= m
  {
    if |xs| == 1 then xs[0]
    else
      var m := Max(xs[1..]);
      assert forall i :: 1 <= i < |xs| ==> xs[i] == xs[1..][i - 1];
      if xs[0] >= m then xs[0] else m
  }

  /** `col / max_val` when the maximum is positive, and zero otherwise. */
  function Normalize(xs: seq<real>): (r: seq<real>)
    ensures |r| == |xs|
  {
    if xs == [] then []
    else
      var m := Max(xs);
      seq(|xs|, i requires 0 <= i < |xs| => if m > 0.0 then xs[i] / m else 0.0)
  }

  /** A non-negative column normalises into [0, 1]; a column whose maximum
      is positive has a 1 where the maximum is, and a column whose maximum is
      not positive normalises to zeros. */
  lemma NormalizeSpec(xs: seq<real>)
    requires forall i :: 0 <= i < |xs| ==> xs[i] >= 0.0
    ensures forall i :: 0 <= i < |xs| ==> 0.0 <= Normalize(xs)[i] <= 1.0
    ensures |xs| > 0 && Max(xs) > 0.0 ==> exists i :: 0 <= i < |xs| && Normalize(xs)[i] == 1.0
    ensures |xs| > 0 && Max(xs) <= 0.0 ==> forall i :: 0 <= i < |xs| ==> Normalize(xs)[i] == 0.0
  {
    forall i | 0 <= i < |xs| ensures 0.0 <= Normalize(xs)[i] <= 1.0 {
      NormalizeAt(xs, i);
      if Max(xs) > 0.0 {
        DivideBound(xs[i], Max(xs));
      }
    }
    if |xs| > 0 && Max(xs) > 0.0 {
      var i :| 0 <= i < |xs| && xs[i] == Max(xs);
      NormalizeAt(xs, i);
      DivideSelf(xs[i]);
    }
    if |xs| > 0 && Max(xs) <= 0.0 {
      forall i | 0 <= i < |xs| ensures Normalize(xs)[i] == 0.0 {
        NormalizeAt(xs, i);
      }
    }
  }

  lemma DivideSelf(m: real)
    requires m > 0.0
    ensures m / m == 1.0
  {
  }

  /** One entry of the normalised column. */
  lemma NormalizeAt(xs: seq<real>, i: nat)
    requires i < |xs|
    ensures Normalize(xs)[i] == if Max(xs) > 0.0 then xs[i] / Max(xs) else 0.0
  {
  }

  lemma DivideBound(x: real, m: real)
    requires 0.0 <= x <= m && m > 0.0
    ensures 0.0 <= x / m <= 1.0
  {
    assert x / m * m == x;
  }

  /** The weighted score. */
  function Score(comments: real, likes: real, length: real): real {
    (comments * 0.4 + likes * 0.4 + length * 0.2) * 100.0
  }

  /** Normalised metrics give a score in [0, 100], at 100 only when all three
      are 1. */
  lemma ScoreBounds(comments: real, likes: real, length: real)
    requires 0.0 <= comments <= 1.0 && 0.0 <= likes <= 1.0 && 0.0 <= length <= 1.0
    ensures 0.0 <= Score(comments, likes, length) <= 100.0
    ensures Score(comments, likes, length) == 100.0 ==> comments == 1.0 && likes == 1.0 && length == 1.0
  {
  }

  // ---------------------------------------------------------------------------
  // The scores of the users

  function CountColumn(rows: seq<Row>, users: seq<string>): (r: seq<real>)
    ensures |r| == |users|
  {
    seq(|users|, i requires 0 <= i < |users| => CommentCount(rows, users[i]) as real)
  }

  function LikesColumn(rows: seq<Row>, users: seq<string>, hasLikes: bool): (r: seq<real>)
    ensures |r| == |users|
  {
    seq(|users|, i requires 0 <= i < |users| => TotalLikes(rows, users[i], hasLikes))
  }

  function LengthColumn(rows: seq<Row>, users: seq<string>): (r: seq<real>)
    ensures |r| == |users|
  {
    seq(|users|, i requires 0 <= i < |users| => AverageLength(rows, users[i]))
  }

  /** `影响力得分` for every user of `users` (the nicknames of the table). */
  function InfluenceScores(rows: seq<Row>, users: seq<string>, hasLikes: bool): (r: seq<real>)
    ensures |r| == |users|
  {
    var c := Normalize(CountColumn(rows, users));
    var l := Normalize(LikesColumn(rows, users, hasLikes));
    var a := Normalize(LengthColumn(rows, users));
    seq(|users|, i requires 0 <= i < |users| => Score(c[i], l[i], a[i]))
  }

  /** With non-negative like counts (or no like column) every user's score lies in [0, 100]. */
  lemma InfluenceScoresBounds(rows: seq<Row>, users: seq<string>, hasLikes: bool)
    requires hasLikes ==> forall k :: 0 <= k < |rows| && rows[k].likes.Some? ==> rows[k].likes.value >= 0.0
    ensures forall i :: 0 <= i < |users| ==> 0.0 <= InfluenceScores(rows, users, hasLikes)[i] <= 100.0
  {
    var cs, ls, lens := CountColumn(rows, users), LikesColumn(rows, users, hasLikes), LengthColumn(rows, users);
    forall i | 0 <= i < |users| ensures ls[i] >= 0.0 && lens[i] >= 0.0 {
      MetricsNonNegative(rows, users[i], hasLikes);
    }
    NormalizeSpec(cs);
    NormalizeSpec(ls);
    NormalizeSpec(lens);
    forall i | 0 <= i < |users| ensures 0.0 <= InfluenceScores(rows, users, hasLikes)[i] <= 100.0 {
      ScoreBounds(Normalize(cs)[i], Normalize(ls)[i], Normalize(lens)[i]);
    }
  }

  /** Without a like column the likes take no part: the score is the
      comment and length part alone, at most 60. */
  lemma NoLikesColumn(rows: seq<Row>, users: seq<string>)
    ensures forall i :: 0 <= i < |users| ==> 0.0 <= InfluenceScores(rows, users, false)[i] <= 60.0
  {
    var cs, ls, lens := CountColumn(rows, users), LikesColumn(rows, users, false), LengthColumn(rows, users);
    forall i | 0 <= i < |users| ensures ls[i] == 0.0 && lens[i] >= 0.0 {
      NoLikes(rows, users[i]);
      MetricsNonNegative(rows, users[i], false);
    }
    NormalizeSpec(cs);
    NormalizeSpec(ls);
    NormalizeSpec(lens);
    if |users| > 0 {
      assert ls[0] == 0.0;
      assert Max(ls) <= 0.0;
    }
  }

  lemma {:induction false} NoLikes(rows: seq<Row>, user: string)
    ensures TotalLikes(rows, user, false) == 0.0
  {
    if rows != [] {
      NoLikes(rows[..|rows| - 1], user);
    }
  }
}
