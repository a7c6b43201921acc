/** The comment-ID filter both crawlers run over each page of comments: an ID
    already in the seen set is skipped, a new one is added to the set before
    its record is kept. `Kept` is the reference definition the crawler
    methods are proved against. */
module Dedup {
  import opened Seqs
  import opened Wrappers
  import opened Records

  /** The IDs of a sequence of raw comments. */
  function Ids(cs: seq<RawComment>): (r: seq<string>)
    ensures |r| == |cs| && forall i :: 0 <= i < |cs| ==> r[i] == CommentId(cs[i])
  {
    seq(|cs|, i requires 0 <= i < |cs| => CommentId(cs[i]))
  }

  /** No string occurs twice. */
  predicate Distinct(s: seq<string>) {
    forall i, j :: 0 <= i < j < |s| ==> s[i] != s[j]
  }

  /** The comments of `batch` that the loop keeps, starting from the seen set
      `seen`: those whose ID is neither seen before the batch nor earlier in it. */
  function Kept(seen: set<string>, batch: seq<RawComment>): seq<RawComment>
    decreases |batch|
  {
    if batch == [] then []
    else if CommentId(batch[0]) in seen then Kept(seen, batch[1..])
    else [batch[0]] + Kept(seen + {CommentId(batch[0])}, batch[1..])
  }

  /** The set of IDs of a sequence of raw comments. */
  function IdSet(cs: seq<RawComment>): (r: set<string>)
    ensures forall i :: 0 <= i < |cs| ==> CommentId(cs[i]) in r
  {
    if cs == [] then {} else {CommentId(cs[0])} + IdSet(cs[1..])
  }

  /** Every ID in the set is the ID of some comment of the sequence. */
  lemma {:induction false} IdSetWitness(cs: seq<RawComment>, x: string)
    requires x in IdSet(cs)
    ensures exists i :: 0 <= i < |cs| && CommentId(cs[i]) == x
  {
    if CommentId(cs[0]) != x {
      IdSetWitness(cs[1..], x);
      var i :| 0 <= i < |cs[1..]| && CommentId(cs[1..][i]) == x;
      assert cs[i + 1] == cs[1..][i];
    }
  }

  /** The seen set after the batch: every ID of the batch is added. */
  function SeenAfter(seen: set<string>, batch: seq<RawComment>): (r: set<string>)
    ensures seen <= r
    ensures forall i :: 0 <= i < |batch| ==> CommentId(batch[i]) in r
  {
    seen + IdSet(batch)
  }

  /** Filtering `a + b` is filtering `a`, then filtering `b` against the set
      `a` leaves behind. */
  lemma {:induction false} KeptConcat(seen: set<string>, a: seq<RawComment>, b: seq<RawComment>)
    ensures Kept(seen, a + b) == Kept(seen, a) + Kept(SeenAfter(seen, a), b)
    decreases |a|
  {
    if a == [] {
      assert a + b == b;
      assert SeenAfter(seen, a) == seen;
    } else {
      var id := CommentId(a[0]);
      assert (a + b)[0] == a[0] && (a + b)[1..] == a[1..] + b;
      var next := if id in seen then seen else seen + {id};
      KeptConcat(next, a[1..], b);
      assert SeenAfter(next, a[1..]) == SeenAfter(seen, a) by {
        assert a == [a[0]] + a[1..];
        assert forall c :: c in a <==> c == a[0] || c in a[1..];
      }
    }
  }

  /** Every kept comment comes from the batch and carries an ID not seen
      before the batch. */
  lemma {:induction false} KeptFresh(seen: set<string>, batch: seq<RawComment>)
    ensures forall c :: c in Kept(seen, batch) ==> c in batch && CommentId(c) !in seen
    decreases |batch|
  {
    if batch != [] {
      var id := CommentId(batch[0]);
      assert forall c :: c in batch[1..] ==> c in batch;
      if id in seen {
        KeptFresh(seen, batch[1..]);
      } else {
        KeptFresh(seen + {id}, batch[1..]);
      }
    }
  }

  /** The kept comments carry distinct IDs. */
  lemma {:induction false} KeptDistinct(seen: set<string>, batch: seq<RawComment>)
    ensures Distinct(Ids(Kept(seen, batch)))
    decreases |batch|
  {
    if batch != [] {
      var id := CommentId(batch[0]);
      if id in seen {
        KeptDistinct(seen, batch[1..]);
      } else {
        var rest := Kept(seen + {id}, batch[1..]);
        KeptDistinct(seen + {id}, batch[1..]);
        KeptFresh(seen + {id}, batch[1..]);
        assert Kept(seen, batch) == [batch[0]] + rest;
        DistinctCons(batch[0], rest);
      }
    }
  }

  /** A comment whose ID no later comment carries keeps the IDs distinct. */
  lemma DistinctCons(c: RawComment, rest: seq<RawComment>)
    requires Distinct(Ids(rest)) && forall x :: x in rest ==> CommentId(x) != CommentId(c)
    ensures Distinct(Ids([c] + rest))
  {
    var k := [c] + rest;
    forall i, j | 0 <= i < j < |k| ensures Ids(k)[i] != Ids(k)[j] {
      assert k[j] == rest[j - 1];
      assert k[j] in rest;
      if i > 0 {
        assert k[i] == rest[i - 1];
        assert Ids(rest)[i - 1] != Ids(rest)[j - 1];
      }
    }
  }

  /** The seen set after the batch is the seen set plus the IDs of the kept
      comments, and those IDs are new. */
  lemma {:induction false} KeptIdSet(seen: set<string>, batch: seq<RawComment>)
    ensures SeenAfter(seen, batch) == seen + IdSet(Kept(seen, batch))
    ensures seen !! IdSet(Kept(seen, batch))
    decreases |batch|
  {
    if batch != [] {
      var id := CommentId(batch[0]);
      var next := if id in seen then seen else seen + {id};
      KeptIdSet(next, batch[1..]);
      assert IdSet(batch) == {id} + IdSet(batch[1..]);
      if id !in seen {
        var rest := Kept(next, batch[1..]);
        assert Kept(seen, batch) == [batch[0]] + rest;
        assert IdSet(Kept(seen, batch)) == {id} + IdSet(rest);
      }
    }
  }

  /** `comment_id_added`, the growth of the seen set, is the number of kept
      comments. */
  lemma KeptCount(seen: set<string>, batch: seq<RawComment>)
    ensures |SeenAfter(seen, batch)| == |seen| + |Kept(seen, batch)|
  {
    KeptDistinct(seen, batch);
    KeptIdSet(seen, batch);
    DistinctIdSetSize(Kept(seen, batch));
  }

  /** Comments with distinct IDs have as many IDs as comments. */
  lemma {:induction false} DistinctIdSetSize(cs: seq<RawComment>)
    requires Distinct(Ids(cs))
    ensures |IdSet(cs)| == |cs|
  {
    if cs != [] {
      var t := cs[1..];
      assert Distinct(Ids(t)) by {
        forall i, j | 0 <= i < j < |t| ensures Ids(t)[i] != Ids(t)[j] {
          assert Ids(cs)[i + 1] != Ids(cs)[j + 1];
        }
      }
      DistinctIdSetSize(t);
      if CommentId(cs[0]) in IdSet(t) {
        IdSetWitness(t, CommentId(cs[0]));
        assert false;
      }
    }
  }

  /** A page whose IDs have all been seen adds nothing; in particular the same
      page delivered twice is kept only once. */
  lemma {:induction false} KeptNothingNew(seen: set<string>, batch: seq<RawComment>)
    requires forall i :: 0 <= i < |batch| ==> CommentId(batch[i]) in seen
    ensures Kept(seen, batch) == []
    ensures SeenAfter(seen, batch) == seen
    decreases |batch|
  {
    if batch != [] {
      assert forall i :: 0 <= i < |batch[1..]| ==> batch[1..][i] == batch[i + 1];
      KeptNothingNew(seen, batch[1..]);
    }
  }

  /** Filtering is idempotent: after a batch, the batch itself keeps nothing. */
  lemma KeptTwice(seen: set<string>, batch: seq<RawComment>)
    ensures Kept(SeenAfter(seen, batch), batch) == []
  {
    KeptNothingNew(SeenAfter(seen, batch), batch);
  }

  /** The IDs of a concatenation are the IDs of both parts. */
  lemma {:induction false} IdSetConcat(a: seq<RawComment>, b: seq<RawComment>)
    ensures IdSet(a + b) == IdSet(a) + IdSet(b)
    decreases |a|
  {
    if a == [] {
      assert a + b == b;
    } else {
      assert (a + b)[0] == a[0] && (a + b)[1..] == a[1..] + b;
      IdSetConcat(a[1..], b);
    }
  }

  /** Extending the batch by one comment: the comment is kept exactly when its
      ID is not yet seen, and the seen set gains its ID. */
  lemma KeptSnoc(seen: set<string>, batch: seq<RawComment>, c: RawComment)
    ensures Kept(seen, batch + [c]) ==
      Kept(seen, batch) + (if CommentId(c) in SeenAfter(seen, batch) then [] else [c])
    ensures SeenAfter(seen, batch + [c]) == SeenAfter(seen, batch) + {CommentId(c)}
  {
    KeptConcat(seen, batch, [c]);
    IdSetConcat(batch, [c]);
    assert [c][1..] == [];
  }

  /** A comment whose ID is already seen leaves the kept comments and the
      seen set as they are. */
  lemma KeptSkip(seen: set<string>, batch: seq<RawComment>, i: nat)
    requires i < |batch| && CommentId(batch[i]) in SeenAfter(seen, batch[..i])
    ensures Kept(seen, batch[..i + 1]) == Kept(seen, batch[..i])
    ensures SeenAfter(seen, batch[..i + 1]) == SeenAfter(seen, batch[..i])
  {
    SliceSnoc(batch, i);
    KeptSnoc(seen, batch[..i], batch[i]);
  }

  // ---------------------------------------------------------------------------
  // Records against the seen set

  /** The records a run of kept comments leaves behind when each comment's
      record is built by `parse`: a comment whose record cannot be built
      (None) leaves none, and the others follow in order. */
  function Recorded(parse: RawComment -> Option<Row>, cs: seq<RawComment>): seq<Row> {
    if cs == [] then [] else RecordOf(parse(cs[0])) + Recorded(parse, cs[1..])
  }

  /** A record, as a list of zero or one. */
  function RecordOf(r: Option<Row>): seq<Row> {
    match r case Some(row) => [row] case None => []
  }

  /** Every record `parse` builds carries the comment's ID. */
  ghost predicate KeepsIds(parse: RawComment -> Option<Row>) {
    forall c :: parse(c).Some? ==> IdField in parse(c).value && parse(c).value[IdField] == Text(CommentId(c))
  }

  /** `_parse_comment_details` keeps the comment's ID in its record. */
  lemma ParseKeepsIds()
    ensures KeepsIds(ParseCommentDetails)
  {
  }

  /** The old crawler's record keeps the comment's ID. */
  lemma OldRecordKeepsIds()
    ensures KeepsIds(OldRecord)
  {
  }

  /** Records of a concatenation are the records of both parts. */
  lemma {:induction false} RecordedConcat(parse: RawComment -> Option<Row>, a: seq<RawComment>, b: seq<RawComment>)
    ensures Recorded(parse, a + b) == Recorded(parse, a) + Recorded(parse, b)
    decreases |a|
  {
    if a == [] {
      assert a + b == b;
    } else {
      assert (a + b)[0] == a[0] && (a + b)[1..] == a[1..] + b;
      RecordedConcat(parse, a[1..], b);
    }
  }

  /** One more comment adds its record, if it has one. */
  lemma RecordedSnoc(parse: RawComment -> Option<Row>, cs: seq<RawComment>, c: RawComment)
    ensures Recorded(parse, cs + [c]) == Recorded(parse, cs) + RecordOf(parse(c))
  {
    RecordedConcat(parse, cs, [c]);
    assert [c][1..] == [];
  }

  /** There are at most as many records as comments, and exactly as many
      when every record can be built. */
  lemma {:induction false} RecordedCount(parse: RawComment -> Option<Row>, cs: seq<RawComment>)
    ensures |Recorded(parse, cs)| <= |cs|
    ensures (forall i :: 0 <= i < |cs| ==> parse(cs[i]).Some?) ==> |Recorded(parse, cs)| == |cs|
  {
    if cs != [] {
      RecordedCount(parse, cs[1..]);
      assert forall i :: 0 <= i < |cs[1..]| ==> cs[1..][i] == cs[i + 1];
    }
  }

  /** Every record has the given keys when every record `parse` builds for
      the comments does. */
  lemma {:induction false} RecordedKeys(parse: RawComment -> Option<Row>, cs: seq<RawComment>, keys: set<Field>)
    requires forall i :: 0 <= i < |cs| && parse(cs[i]).Some? ==> parse(cs[i]).value.Keys == keys
    ensures forall i :: 0 <= i < |Recorded(parse, cs)| ==> Recorded(parse, cs)[i].Keys == keys
  {
    if cs != [] {
      assert forall i :: 0 <= i < |cs[1..]| ==> cs[1..][i] == cs[i + 1];
      RecordedKeys(parse, cs[1..], keys);
    }
  }

  /** Every row carries a textual 评论ID. */
  predicate HasIds(rows: seq<Row>) {
    forall i :: 0 <= i < |rows| ==> IdField in rows[i] && rows[i][IdField].Text?
  }

  /** The 评论ID of every row, in order. */
  function RowIds(rows: seq<Row>): (r: seq<string>)
    requires HasIds(rows)
    ensures |r| == |rows| && forall i :: 0 <= i < |rows| ==> r[i] == rows[i][IdField].s
  {
    seq(|rows|, i requires 0 <= i < |rows| => rows[i][IdField].s)
  }

  /** The records carry distinct IDs, all of them in the seen set. */
  predicate RowsWithin(rows: seq<Row>, ids: set<string>) {
    HasIds(rows) && Distinct(RowIds(rows)) && forall i :: 0 <= i < |rows| ==> RowIds(rows)[i] in ids
  }

  /** The records carry distinct IDs, and these are exactly the seen set. */
  predicate RowsMatch(rows: seq<Row>, ids: set<string>) {
    RowsWithin(rows, ids) && forall x :: x in ids ==> x in RowIds(rows)
  }

  /** Appending rows with distinct IDs outside the seen set keeps the IDs
      distinct and within the enlarged set. */
  lemma AppendWithin(rows: seq<Row>, ids: set<string>, more: seq<Row>, ids': set<string>)
    requires RowsWithin(rows, ids) && HasIds(more) && Distinct(RowIds(more))
    requires forall i :: 0 <= i < |more| ==> RowIds(more)[i] !in ids && RowIds(more)[i] in ids'
    requires ids <= ids'
    ensures RowsWithin(rows + more, ids')
    ensures RowIds(rows + more) == RowIds(rows) + RowIds(more)
  {
    var all := rows + more;
    assert HasIds(all) by {
      forall i | 0 <= i < |all| ensures IdField in all[i] && all[i][IdField].Text? {
        if i >= |rows| {
          assert all[i] == more[i - |rows|];
        }
      }
    }
    assert RowIds(all) == RowIds(rows) + RowIds(more);
  }

  /** Records built from comments with distinct IDs carry distinct IDs, each
      the ID of one of the comments. */
  lemma {:induction false} RecordedWithin(parse: RawComment -> Option<Row>, cs: seq<RawComment>)
    requires KeepsIds(parse) && Distinct(Ids(cs))
    ensures RowsWithin(Recorded(parse, cs), IdSet(cs))
  {
    if cs != [] {
      var t := cs[1..];
      DistinctTail(cs);
      RecordedWithin(parse, t);
      RecordOfWithin(parse, cs[0]);
      AppendWithin(RecordOf(parse(cs[0])), {CommentId(cs[0])}, Recorded(parse, t), IdSet(cs));
    }
  }

  /** A comment's record, if any, carries the comment's ID. */
  lemma RecordOfWithin(parse: RawComment -> Option<Row>, c: RawComment)
    requires KeepsIds(parse)
    ensures RowsWithin(RecordOf(parse(c)), {CommentId(c)})
  {
  }

  /** The tail of a sequence with distinct IDs has distinct IDs, none of them
      the head's. */
  lemma DistinctTail(cs: seq<RawComment>)
    requires cs != [] && Distinct(Ids(cs))
    ensures Distinct(Ids(cs[1..]))
    ensures CommentId(cs[0]) !in IdSet(cs[1..])
  {
    var t := cs[1..];
    forall i, j | 0 <= i < j < |t| ensures Ids(t)[i] != Ids(t)[j] {
      assert Ids(cs)[i + 1] != Ids(cs)[j + 1];
    }
    if CommentId(cs[0]) in IdSet(t) {
      IdSetWitness(t, CommentId(cs[0]));
      assert false;
    }
  }

  /** One batch keeps the records within the seen set, with distinct IDs:
      the kept comments' records are appended and their IDs are seen. */
  lemma RecordedKeepsWithin(parse: RawComment -> Option<Row>, rows: seq<Row>, ids: set<string>, batch: seq<RawComment>)
    requires KeepsIds(parse) && RowsWithin(rows, ids)
    ensures RowsWithin(rows + Recorded(parse, Kept(ids, batch)), SeenAfter(ids, batch))
  {
    var k := Kept(ids, batch);
    KeptDistinct(ids, batch);
    KeptIdSet(ids, batch);
    RecordedWithin(parse, k);
    AppendWithin(rows, ids, Recorded(parse, k), SeenAfter(ids, batch));
  }

  /** When every comment's record can be built, the records carry exactly
      the comments' IDs, in order. */
  lemma {:induction false} RecordedIds(parse: RawComment -> Option<Row>, cs: seq<RawComment>)
    requires KeepsIds(parse) && forall i :: 0 <= i < |cs| ==> parse(cs[i]).Some?
    ensures HasIds(Recorded(parse, cs)) && RowIds(Recorded(parse, cs)) == Ids(cs)
  {
    if cs != [] {
      assert forall i :: 0 <= i < |cs[1..]| ==> cs[1..][i] == cs[i + 1];
      RecordedIds(parse, cs[1..]);
      var rest := Recorded(parse, cs[1..]);
      var r := Recorded(parse, cs);
      assert r == [parse(cs[0]).value] + rest;
      assert forall i :: 1 <= i < |r| ==> r[i] == rest[i - 1];
      assert HasIds(r);
      forall i | 0 <= i < |r|
        ensures RowIds(r)[i] == Ids(cs)[i]
      {
        if i > 0 {
          assert RowIds(r)[i] == RowIds(rest)[i - 1];
        }
      }
    }
  }

  /** One batch keeps the records matched with the seen set when every
      record of the batch can be built. */
  lemma RecordedKeepsMatch(parse: RawComment -> Option<Row>, rows: seq<Row>, ids: set<string>, batch: seq<RawComment>)
    requires KeepsIds(parse) && RowsMatch(rows, ids)
    requires forall i :: 0 <= i < |batch| ==> parse(batch[i]).Some?
    ensures RowsMatch(rows + Recorded(parse, Kept(ids, batch)), SeenAfter(ids, batch))
  {
    var k := Kept(ids, batch);
    KeptFresh(ids, batch);
    KeptDistinct(ids, batch);
    KeptIdSet(ids, batch);
    assert forall i :: 0 <= i < |k| ==> k[i] in k;
    RecordedIds(parse, k);
    IdSetIsIds(k, ids);
    AppendIdentified(rows, ids, Recorded(parse, k), Ids(k), IdSet(k));
  }

  /** The ID set holds exactly the IDs of the sequence, which are outside
      a set every comment's ID is outside of. */
  lemma IdSetIsIds(k: seq<RawComment>, ids: set<string>)
    requires forall i :: 0 <= i < |k| ==> CommentId(k[i]) !in ids
    ensures forall i :: 0 <= i < |k| ==> Ids(k)[i] !in ids && Ids(k)[i] in IdSet(k)
    ensures forall x :: x in IdSet(k) ==> x in Ids(k)
  {
    forall x | x in IdSet(k) ensures x in Ids(k) {
      IdSetWitness(k, x);
      var i :| 0 <= i < |k| && CommentId(k[i]) == x;
      assert Ids(k)[i] == x;
    }
  }

  /** Appending records whose IDs are distinct, outside the seen set and
      exactly the new IDs keeps the records matched with the enlarged set. */
  lemma AppendIdentified(rows: seq<Row>, ids: set<string>, more: seq<Row>, newIds: seq<string>, added: set<string>)
    requires RowsMatch(rows, ids) && Distinct(newIds)
    requires HasIds(more) && RowIds(more) == newIds
    requires forall i :: 0 <= i < |newIds| ==> newIds[i] !in ids && newIds[i] in added
    requires forall x :: x in added ==> x in newIds
    ensures RowsMatch(rows + more, ids + added)
  {
    AppendWithin(rows, ids, more, ids + added);
  }
}
