/** Comment records: the raw comment object the comment-list API returns, the
    row the strengthened crawler builds from it (`_parse_comment_details`),
    the old crawler's six-field record, the reply rows, and the row
    `csv.DictWriter.writerow` writes for a record. */
module Records {
  import opened Wrappers
  import opened PyStr

  /** A cell of a record: the scripts store strings and JSON integers. */
  datatype Cell = Text(s: string) | Num(n: int)

  /** The value under a key of a JSON object: the key is absent, it holds
      `null`, or it holds a value. */
  datatype Json<+T> = Absent | Null | Given(value: T) {
    /** `obj.get(key, default)` for a key that does not hold `null`. */
    function GetOr(default: T): T
      requires !Null?
    {
      if Given? then value else default
    }
  }

  /** The user object of a raw comment; an absent key is None. */
  datatype RawUser = RawUser(
    nickname: Option<string>,
    uid: Option<string>,
    secUid: Option<string>,
    avatarUrls: Option<seq<string>>)   // `avatar_thumb.url_list`

  /** One entry of `text_extra`: a hashtag (a non-empty `hashtag_name`) or a
      mention (`type` 0, with the mentioned `user_id`). An absent name is "". */
  datatype TextExtra = TextExtra(hashtagName: string, kind: Option<int>, userId: Option<string>)

  /** The raw comment object. Absent keys are None; `user` and `create_time`
      may also hold `null`. `cid` is "" when absent or empty, and the two
      flags are the integer values the API sends. */
  datatype RawComment = RawComment(
    cid: string,
    id: Option<int>,
    text: Option<string>,
    createTime: Json<int>,
    diggCount: Option<int>,
    user: Json<RawUser>,
    ipLabel: Option<string>,
    replyTotal: Option<int>,
    replyToUserId: Option<string>,
    replyToNickname: Option<string>,
    stickPosition: int,
    isHotComment: int,
    textExtra: seq<TextExtra>)

  // ---------------------------------------------------------------------------
  // Field names

  /** The keys a record can carry; `Name` gives the column name the scripts use. */
  datatype Field =
    | IdField | NicknameField | UserIdField | SecUidField | AvatarField | RegionField
    | TimeField | TextField | LikesField | ReplyCountField | ReplyToNameField
    | ReplyToIdField | PinnedField | HotField | TopicsField | MentionsField
    | IsReplyField   // carried by reply records only
  {
    function Name(): string {
      match this
      case IdField => "评论ID"
      case NicknameField => "昵称"
      case UserIdField => "用户ID"
      case SecUidField => "用户sec_id"
      case AvatarField => "头像"
      case RegionField => "地区"
      case TimeField => "时间"
      case TextField => "评论"
      case LikesField => "点赞数"
      case ReplyCountField => "回复数"
      case ReplyToNameField => "回复给用户"
      case ReplyToIdField => "回复给用户ID"
      case PinnedField => "是否置顶"
      case HotField => "是否热评"
      case TopicsField => "包含话题"
      case MentionsField => "提及用户"
      case IsReplyField => "是否回复评论"
    }
  }

  /** A record is a Python dict from column name to value. */
  type Row = map<Field, Cell>

  const Yes: string := "是"
  const No: string := "否"

  /** The strengthened crawler's CSV columns, in order. */
  const Fieldnames: seq<Field> := [IdField, NicknameField, UserIdField, SecUidField,
    AvatarField, RegionField, TimeField, TextField, LikesField, ReplyCountField,
    ReplyToNameField, ReplyToIdField, PinnedField, HotField, TopicsField, MentionsField]

  /** The old crawler's CSV columns, which are also the keys of the parser's
      fallback record. */
  const BasicFieldnames: seq<Field> := [IdField, NicknameField, RegionField, TimeField,
    TextField, LikesField]

  /** The 16 columns are every field but the reply flag, and the six basic
      ones are among them. */
  lemma FieldnamesShape()
    ensures |Fieldnames| == 16
    ensures forall f :: f in Fieldnames <==> f != IsReplyField
    ensures forall f :: f in BasicFieldnames ==> f in Fieldnames
  {
    forall f | f != IsReplyField ensures f in Fieldnames {
      match f
      case IdField => assert Fieldnames[0] == f;
      case NicknameField => assert Fieldnames[1] == f;
      case UserIdField => assert Fieldnames[2] == f;
      case SecUidField => assert Fieldnames[3] == f;
      case AvatarField => assert Fieldnames[4] == f;
      case RegionField => assert Fieldnames[5] == f;
      case TimeField => assert Fieldnames[6] == f;
      case TextField => assert Fieldnames[7] == f;
      case LikesField => assert Fieldnames[8] == f;
      case ReplyCountField => assert Fieldnames[9] == f;
      case ReplyToNameField => assert Fieldnames[10] == f;
      case ReplyToIdField => assert Fieldnames[11] == f;
      case PinnedField => assert Fieldnames[12] == f;
      case HotField => assert Fieldnames[13] == f;
      case TopicsField => assert Fieldnames[14] == f;
      case MentionsField => assert Fieldnames[15] == f;
    }
  }

  // ---------------------------------------------------------------------------
  // Comment ID

  /** `comment.get('cid', '') or str(comment.get('id', ''))`. */
  function CommentId(c: RawComment): string {
    if c.cid != "" then c.cid
    else match c.id
      case None => ""
      case Some(n) => IntToStr(n)
  }

  /** The ID is the `cid` when there is one, else the decimal text of `id`,
      which reads back as that number, else "". */
  lemma CommentIdCases(c: RawComment)
    ensures c.cid != "" ==> CommentId(c) == c.cid
    ensures c.cid == "" && c.id.None? ==> CommentId(c) == ""
    ensures c.cid == "" && c.id.Some? ==> ParseInt(CommentId(c)) == Some(c.id.value)
  {
    if c.cid == "" && c.id.Some? {
      IntToStrRoundTrip(c.id.value);
    }
  }

  // ---------------------------------------------------------------------------
  // _parse_comment_details

  /** The hashtag names of `text_extra` that are non-empty, in order. */
  function Hashtags(extras: seq<TextExtra>): (r: seq<string>)
    ensures |r| <= |extras|
    ensures forall k :: 0 <= k < |r| ==> r[k] != ""
    ensures forall e :: e in extras && e.hashtagName != "" ==> e.hashtagName in r
    ensures forall h :: h in r ==> exists e :: e in extras && e.hashtagName == h
  {
    if extras == [] then []
    else
      var rest := Hashtags(extras[1..]);
      assert forall e :: e in extras[1..] ==> e in extras;
      if extras[0].hashtagName != "" then [extras[0].hashtagName] + rest else rest
  }

  /** A mention entry: `item.get('type') == 0`. */
  predicate IsMention(e: TextExtra) {
    e.kind == Some(0)
  }

  /** Joining the mentioned IDs raises a TypeError when a mention has no
      `user_id` (None is not a string). */
  predicate MentionWithoutId(extras: seq<TextExtra>) {
    exists k :: 0 <= k < |extras| && IsMention(extras[k]) && extras[k].userId.None?
  }

  /** The `user_id` of every mention entry, in order. */
  function MentionIds(extras: seq<TextExtra>): (r: seq<string>)
    requires !MentionWithoutId(extras)
    ensures |r| <= |extras|
  {
    if extras == [] then []
    else
      MentionWithoutIdTail(extras);
      var rest := MentionIds(extras[1..]);
      if IsMention(extras[0]) then [extras[0].userId.value] + rest else rest
  }

  lemma MentionWithoutIdTail(extras: seq<TextExtra>)
    requires extras != [] && !MentionWithoutId(extras)
    ensures !MentionWithoutId(extras[1..])
  {
    forall k | 0 <= k < |extras[1..]| && IsMention(extras[1..][k])
      ensures extras[1..][k].userId.Some?
    {
      assert extras[1..][k] == extras[k + 1];
    }
  }

  /** The list holds exactly the user IDs of the mention entries. */
  lemma {:induction false} MentionIdsSpec(extras: seq<TextExtra>)
    requires !MentionWithoutId(extras)
    ensures forall e :: e in extras && IsMention(e) ==> e.userId.value in MentionIds(extras)
    ensures forall u :: u in MentionIds(extras) ==> exists e :: e in extras && IsMention(e) && e.userId == Some(u)
  {
    if extras != [] {
      MentionWithoutIdTail(extras);
      MentionIdsSpec(extras[1..]);
      assert forall e :: e in extras ==> e == extras[0] || e in extras[1..];
      assert forall e :: e in extras[1..] ==> e in extras;
    }
  }

  /** A mention without an ID in a part is one in the whole. */
  lemma MentionWithoutIdParts(a: seq<TextExtra>, b: seq<TextExtra>)
    requires !MentionWithoutId(a + b)
    ensures !MentionWithoutId(a) && !MentionWithoutId(b)
  {
    forall k | 0 <= k < |a| && IsMention(a[k]) ensures a[k].userId.Some? {
      assert (a + b)[k] == a[k];
    }
    forall k | 0 <= k < |b| && IsMention(b[k]) ensures b[k].userId.Some? {
      assert (a + b)[|a| + k] == b[k];
    }
  }

  /** The mentions of two stretches of `text_extra` are the mentions of the
      first followed by those of the second. */
  lemma {:induction false} MentionIdsConcat(a: seq<TextExtra>, b: seq<TextExtra>)
    requires !MentionWithoutId(a + b)
    ensures !MentionWithoutId(a) && !MentionWithoutId(b)
    ensures MentionIds(a + b) == MentionIds(a) + MentionIds(b)
  {
    MentionWithoutIdParts(a, b);
    if a != [] {
      assert (a + b)[0] == a[0] && (a + b)[1..] == a[1..] + b;
      MentionWithoutIdParts(a[1..], b);
      MentionIdsConcat(a[1..], b);
    } else {
      assert a + b == b;
    }
  }

  /** The seconds since the epoch `datetime.fromtimestamp` accepts: the
      instants of the years 1 to 9999, UTC. */
  const MinTimestamp: int := -62135596800
  const MaxTimestamp: int := 253402300799

  /** `fromtimestamp(comment.get('create_time', 0))` returns: the key is
      absent (and 0 is used) or holds a time in range. It raises on `null`
      and on a time out of range. */
  predicate TimeConverts(t: Json<int>) {
    t.Absent? || (t.Given? && MinTimestamp <= t.value <= MaxTimestamp)
  }

  /** The steps that raise in the fallback record as well: `.get` on a
      `null` user, and converting a `null` or out-of-range time. The
      exception then leaves `_parse_comment_details`. */
  predicate FallbackRaises(c: RawComment) {
    c.user.Null? || !TimeConverts(c.createTime)
  }

  /** The steps that raise in the full parse, sending `_parse_comment_details`
      to its fallback record: those of the fallback, indexing an empty avatar
      URL list, and joining a mention without an ID. */
  predicate ParseRaises(c: RawComment) {
    FallbackRaises(c) || (c.user.Given? && c.user.value.avatarUrls == Some([])) ||
    MentionWithoutId(c.textExtra)
  }

  /** The user object `comment.get('user', {})`, when it is not `null`. */
  function UserOf(c: RawComment): RawUser
    requires !c.user.Null?
  {
    c.user.GetOr(RawUser(None, None, None, None))
  }

  /** `bool(x)` of an integer flag, written as the crawler's '是'/'否'. */
  function Flag(x: int): (r: string)
    ensures r == Yes <==> x != 0
    ensures r == Yes || r == No
  {
    if x != 0 then Yes else No
  }

  /** The value the full parse stores under a column. The pinned and hot
      columns are '是' exactly when the flag is truthy, the text is
      stripped, and the mentions column joins the IDs of the type-0 entries
      only. */
  function FullCell(c: RawComment, f: Field): (r: Cell)
    requires !ParseRaises(c) && f != IsReplyField
    ensures f == PinnedField ==> (r == Text(Yes) <==> c.stickPosition != 0) && (r == Text(No) <==> c.stickPosition == 0)
    ensures f == HotField ==> (r == Text(Yes) <==> c.isHotComment != 0) && (r == Text(No) <==> c.isHotComment == 0)
    ensures f == TextField ==> r == Text(Strip(c.text.GetOr(""))) && Strip(r.s) == r.s
    ensures f == MentionsField ==> r == Text(Join(MentionIds(c.textExtra), ','))
  {
    var user := UserOf(c);
    match f
    case IdField => Text(CommentId(c))
    case NicknameField => Text(user.nickname.GetOr("未知用户"))
    case UserIdField => Text(user.uid.GetOr(""))
    case SecUidField => Text(user.secUid.GetOr(""))
    case AvatarField => Text(user.avatarUrls.GetOr([""])[0])
    case RegionField => Text(c.ipLabel.GetOr("未知"))
    case TimeField => Num(c.createTime.GetOr(0))
    case TextField =>
      StripIsSlice(c.text.GetOr(""));
      StripNoop(Strip(c.text.GetOr("")));
      Text(Strip(c.text.GetOr("")))
    case LikesField => Num(c.diggCount.GetOr(0))
    case ReplyCountField => Num(c.replyTotal.GetOr(0))
    case ReplyToNameField => Text(c.replyToNickname.GetOr(""))
    case ReplyToIdField => Text(c.replyToUserId.GetOr(""))
    case PinnedField => Text(Flag(c.stickPosition))
    case HotField => Text(Flag(c.isHotComment))
    case TopicsField => Text(Join(Hashtags(c.textExtra), ','))
    case MentionsField => Text(Join(MentionIds(c.textExtra), ','))
  }

  /** The full 16-field row of a comment that parses. */
  function FullRow(c: RawComment): (r: Row)
    requires !ParseRaises(c)
    ensures r.Keys == set f | f in Fieldnames
    ensures forall f :: f != IsReplyField ==> f in r && r[f] == FullCell(c, f)
  {
    FieldnamesShape();
    map f | f != IsReplyField :: FullCell(c, f)
  }

  /** One of the six basic columns. */
  predicate IsBasic(f: Field) {
    f.IdField? || f.NicknameField? || f.RegionField? || f.TimeField? || f.TextField? || f.LikesField?
  }

  /** The basic columns are the old crawler's field names. */
  lemma BasicFieldnamesShape()
    ensures forall f :: f in BasicFieldnames <==> IsBasic(f)
  {
  }

  /** The value the fallback record stores under one of its columns. */
  function FallbackCell(c: RawComment, f: Field): Cell
    requires !FallbackRaises(c) && IsBasic(f)
  {
    if f == IdField then Text(CommentId(c))
    else if f == NicknameField then Text(UserOf(c).nickname.GetOr("未知"))
    else if f == RegionField then Text(c.ipLabel.GetOr("未知"))
    else if f == TimeField then Num(c.createTime.GetOr(0))
    else if f == TextField then Text(c.text.GetOr(""))
    else Num(c.diggCount.GetOr(0))
  }

  /** The six-field record the parser falls back to when a step raises. */
  function FallbackRow(c: RawComment): (r: Row)
    requires !FallbackRaises(c)
    ensures r.Keys == set f | f in BasicFieldnames
    ensures forall f :: IsBasic(f) ==> f in r && r[f] == FallbackCell(c, f)
  {
    BasicFieldnamesShape();
    map f | IsBasic(f) :: FallbackCell(c, f)
  }

  /** `_parse_comment_details`: the full 16-field row; the six-field fallback
      row when a step of the full parse raises; None when the fallback raises
      too, and the exception leaves the function. Every row carries the
      comment's ID. */
  function ParseCommentDetails(c: RawComment): (r: Option<Row>)
    ensures r.None? <==> FallbackRaises(c)
    ensures r.Some? ==> r.value.Keys == if ParseRaises(c) then set f | f in BasicFieldnames else set f | f in Fieldnames
    ensures r.Some? ==> forall f :: f in r.value ==>
      r.value[f] == if ParseRaises(c) then FallbackCell(c, f) else FullCell(c, f)
    ensures r.Some? ==> IdField in r.value && r.value[IdField] == Text(CommentId(c))
  {
    if FallbackRaises(c) then None
    else if ParseRaises(c) then Some(FallbackRow(c))
    else Some(FullRow(c))
  }

  /** A `text_extra` without mention entries gives an empty mentions column. */
  lemma NoMentionsNoIds(extras: seq<TextExtra>)
    requires forall k :: 0 <= k < |extras| ==> !IsMention(extras[k])
    ensures MentionIds(extras) == []
  {
    assert (set k | 0 <= k < |extras| && IsMention(extras[k])) == {};
  }

  // ---------------------------------------------------------------------------
  // The old crawler's record

  /** The old crawler builds its record by indexing `user.nickname`,
      `create_time` and `text` and converting the time; a missing key, a
      `null` user or time, or a time out of range raises, and there is no
      record. */
  function OldRecord(c: RawComment): (r: Option<Row>)
    ensures r.Some? <==> (c.user.Given? && c.user.value.nickname.Some? &&
      c.createTime.Given? && TimeConverts(c.createTime) && c.text.Some?)
    ensures r.Some? ==> (r.value.Keys == (set f | f in BasicFieldnames) &&
      r.value[IdField] == Text(CommentId(c)) && r.value[TextField] == Text(c.text.value) &&
      r.value[NicknameField] == Text(c.user.value.nickname.value) &&
      r.value[TimeField] == Num(c.createTime.value))
  {
    if !c.user.Given? || c.user.value.nickname.None? || !c.createTime.Given? ||
       !TimeConverts(c.createTime) || c.text.None? then None
    else Some(map[
      IdField := Text(CommentId(c)),
      NicknameField := Text(c.user.value.nickname.value),
      RegionField := Text(c.ipLabel.GetOr("未知")),
      TimeField := Num(c.createTime.value),
      TextField := Text(c.text.value),
      LikesField := Num(c.diggCount.GetOr(0))
    ])
  }

  // ---------------------------------------------------------------------------
  // csv.DictWriter.writerow

  /** The ValueError `writerow` raises, naming the keys that are not field names. */
  datatype CsvError = FieldsNotInFieldnames(extra: set<Field>)

  /** The cells `DictWriter(fieldnames=...).writerow(row)` writes with the
      default `extrasaction='raise'` and `restval=''`: a key not among the
      field names is a ValueError, a missing field is written empty. */
  function CsvRow(row: Row, fieldnames: seq<Field>): (r: Result<seq<Cell>, CsvError>)
    ensures r.Success? <==> forall k :: k in row ==> k in fieldnames
    ensures r.Failure? ==> (r.error.extra != {} &&
      forall k :: k in r.error.extra <==> k in row && k !in fieldnames)
    ensures r.Success? ==> (|r.value| == |fieldnames| &&
      forall i :: 0 <= i < |fieldnames| ==>
        r.value[i] == (if fieldnames[i] in row then row[fieldnames[i]] else Text("")))
  {
    var extra := set k | k in row && k !in fieldnames;
    assert forall k :: k in row && k !in fieldnames ==> k in extra;
    if extra != {} then Failure(FieldsNotInFieldnames(extra))
    else Success(CsvCells(row, fieldnames))
  }

  /** The rows a sequence of `writerow` calls puts in the file, in order: a
      call that raises writes nothing. */
  function FileRows(attempts: seq<Result<seq<Cell>, CsvError>>): (r: seq<seq<Cell>>)
    ensures |r| <= |attempts|
    ensures (forall k :: 0 <= k < |attempts| ==> attempts[k].Success?) ==>
      r == seq(|attempts|, k requires 0 <= k < |attempts| => attempts[k].value)
  {
    if attempts == [] then []
    else (if attempts[0].Success? then [attempts[0].value] else []) + FileRows(attempts[1..])
  }

  /** The cells of the row in field-name order, empty where the row has no value. */
  function CsvCells(row: Row, fieldnames: seq<Field>): (r: seq<Cell>)
    ensures |r| == |fieldnames|
    ensures forall i :: 0 <= i < |fieldnames| ==>
      r[i] == (if fieldnames[i] in row then row[fieldnames[i]] else Text(""))
  {
    if fieldnames == [] then []
    else [if fieldnames[0] in row then row[fieldnames[0]] else Text("")] + CsvCells(row, fieldnames[1..])
  }

  /** Every row the parser builds is accepted by the crawler's writer and
      written as 16 cells led by the comment ID. */
  lemma ParsedRowWritable(c: RawComment)
    ensures var r := ParseCommentDetails(c); r.Some? ==>
      CsvRow(r.value, Fieldnames).Success? && |CsvRow(r.value, Fieldnames).value| == 16 &&
      CsvRow(r.value, Fieldnames).value[0] == Text(CommentId(c))
  {
    FieldnamesShape();
  }

  // ---------------------------------------------------------------------------
  // Reply records

  /** What the page shows for one reply: computed by browser lookups that are
      not part of this model. */
  datatype ReplyFields = ReplyFields(replyId: string, replier: string, text: string, likes: string, parentId: string)

  /** The reply dict `_extract_reply_comments` builds. */
  function ReplyRow(f: ReplyFields): (r: Row)
    ensures r.Keys == {IdField, NicknameField, TextField, LikesField, ReplyToIdField, IsReplyField}
    ensures r[IdField] == Text(f.replyId) && r[IsReplyField] == Text(Yes)
  {
    map[
      IdField := Text(f.replyId),
      NicknameField := Text(f.replier),
      TextField := Text(f.text),
      LikesField := Text(f.likes),
      ReplyToIdField := Text(f.parentId),
      IsReplyField := Text(Yes)
    ]
  }

  /** The row with '' filled in for every field name it lacks. */
  function Padded(row: Row, fieldnames: seq<Field>): (r: Row)
    ensures forall k :: k in r <==> k in row || k in fieldnames
    ensures forall k :: k in row ==> r[k] == row[k]
    ensures forall f :: f in fieldnames && f !in row ==> r[f] == Text("")
  {
    map k | k in row.Keys + (set f | f in fieldnames) :: if k in row then row[k] else Text("")
  }

  /** The reply writer as written: pad the reply, then `writerow` in raise mode. */
  function ReplyCsvRow(f: ReplyFields): Result<seq<Cell>, CsvError> {
    CsvRow(Padded(ReplyRow(f), Fieldnames), Fieldnames)
  }

  /** As written, every reply write raises: the 是否回复评论 key is not a field
      name, and padding only adds keys. */
  lemma ReplyRowsAlwaysRejected(f: ReplyFields)
    ensures ReplyCsvRow(f).Failure?
    ensures ReplyCsvRow(f).error == FieldsNotInFieldnames({IsReplyField})
  {
    FieldnamesShape();
    var p := Padded(ReplyRow(f), Fieldnames);
    assert IsReplyField in p && IsReplyField !in Fieldnames;
    forall k | k in p && k !in Fieldnames ensures k == IsReplyField {
      assert k in ReplyRow(f);
    }
  }

  /** `writerow` with `extrasaction='ignore'`: keys that are not field names
      are dropped instead of raising. */
  function CsvRowIgnoringExtras(row: Row, fieldnames: seq<Field>): (r: seq<Cell>)
    ensures |r| == |fieldnames|
    ensures (forall k :: k in row ==> k in fieldnames) ==> CsvRow(row, fieldnames) == Success(r)
  {
    CsvCells(row, fieldnames)
  }

  /** The padded reply's value in each of the 16 columns. */
  lemma PaddedReplyCell(f: ReplyFields, k: Field)
    requires k != IsReplyField
    ensures k in Padded(ReplyRow(f), Fieldnames)
    ensures Padded(ReplyRow(f), Fieldnames)[k] ==
      match k
      case IdField => Text(f.replyId)
      case NicknameField => Text(f.replier)
      case TextField => Text(f.text)
      case LikesField => Text(f.likes)
      case ReplyToIdField => Text(f.parentId)
      case _ => Text("")
  {
    InFieldnames(k);
    PaddedAt(ReplyRow(f), Fieldnames, k);
    ReplyRowCell(f, k);
  }

  /** A reply record's value for a field, or '' where it has none. */
  lemma ReplyRowCell(f: ReplyFields, k: Field)
    requires k != IsReplyField
    ensures (if k in ReplyRow(f) then ReplyRow(f)[k] else Text("")) ==
      match k
      case IdField => Text(f.replyId)
      case NicknameField => Text(f.replier)
      case TextField => Text(f.text)
      case LikesField => Text(f.likes)
      case ReplyToIdField => Text(f.parentId)
      case _ => Text("")
  {
  }

  lemma InFieldnames(k: Field)
    requires k != IsReplyField
    ensures k in Fieldnames
  {
    FieldnamesShape();
  }

  /** A field name's cell in a padded row: the row's own value, or ''. */
  lemma PaddedAt(row: Row, fieldnames: seq<Field>, k: Field)
    requires k in fieldnames
    ensures k in Padded(row, fieldnames)
    ensures Padded(row, fieldnames)[k] == if k in row then row[k] else Text("")
  {
  }

  /** The cell a padded reply gets in column `i` when extras are ignored. */
  lemma ReplyCellAt(f: ReplyFields, i: nat)
    requires i < 16
    ensures CsvRowIgnoringExtras(Padded(ReplyRow(f), Fieldnames), Fieldnames)[i] ==
      if i == 0 then Text(f.replyId) else if i == 1 then Text(f.replier)
      else if i == 7 then Text(f.text) else if i == 8 then Text(f.likes)
      else if i == 11 then Text(f.parentId) else Text("")
  {
    FieldnamesShape();
    PaddedReplyCell(f, Fieldnames[i]);
  }

  /** With extras ignored, a padded reply is written as 16 cells carrying its
      ID, author, text, likes and parent ID, and empty cells elsewhere. */
  lemma ReplyRowsWritten(f: ReplyFields)
    ensures var r := CsvRowIgnoringExtras(Padded(ReplyRow(f), Fieldnames), Fieldnames);
      |r| == 16 && r[0] == Text(f.replyId) && r[1] == Text(f.replier) && r[7] == Text(f.text) &&
      r[8] == Text(f.likes) && r[11] == Text(f.parentId) &&
      forall i :: 0 <= i < 16 && i !in {0, 1, 7, 8, 11} ==> r[i] == Text("")
  {
    forall i | 0 <= i < 16 {
      ReplyCellAt(f, i);
    }
  }
}
