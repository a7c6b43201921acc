/** The hot-word list of the old analyzer's `analyze_hot_words`: the comment
    texts joined with their newlines removed, tokenised, filtered against the
    stopword list, counted, and the `top_n` most common words kept.  The
    tokeniser is a parameter. */
module HotWords {
  import opened PyStr

  /** The analyzer's stopwords. */
  const Stopwords: set<string> := {
    "了", "的", "我", "你", "是", "都", "把", "能", "就", "这", "还",
    "和", "啊", "在", "吧", "有", "也", "不", "呢", "吗", "啥", "怎么",
    "一个", "什么", "一下", "一样", "一直", "为了", "可以", "那么"}

  /** A word that survives the filter: longer than one character and not a stopword. */
  predicate IsHotWord(w: string) {
    |w| > 1 && w !in Stopwords
  }

  /** `' '.join(str(i).replace('\n', '') for i in comments)`. */
  function Content(comments: seq<string>): string {
    Join(seq(|comments|, i requires 0 <= i < |comments| => RemoveChar(comments[i], '\n')), ' ')
  }

  /** The joined text has no line breaks. */
  lemma ContentHasNoNewline(comments: seq<string>)
    ensures '\n' !in Content(comments)
  {
    var parts := seq(|comments|, i requires 0 <= i < |comments| => RemoveChar(comments[i], '\n'));
    JoinChars(parts, ' ');
    assert forall k :: 0 <= k < |parts| ==> '\n' !in parts[k];
  }

  /** `[word for word in words if len(word) > 1 and word not in stopwords]`. */
  function FilteredWords(words: seq<string>): (r: seq<string>)
    ensures forall k :: 0 <= k < |r| ==> IsHotWord(r[k])
  {
    if words == [] then []
    else (if IsHotWord(words[0]) then [words[0]] else []) + FilteredWords(words[1..])
  }

  /** The filter keeps every occurrence of a hot word and nothing else: the
      `Counter` of the filtered words is the count of hot words. */
  lemma {:induction false} FilteredCounts(words: seq<string>, w: string)
    ensures multiset(FilteredWords(words))[w] == if IsHotWord(w) then multiset(words)[w] else 0
  {
    if words != [] {
      FilteredCounts(words[1..], w);
      assert words == [words[0]] + words[1..];
    }
  }

  /** The index of the first occurrence of `w`, or `|ws|` if there is none. */
  function FirstPos(ws: seq<string>, w: string): (r: nat)
    ensures r <= |ws| && (r < |ws| <==> w in ws)
    ensures r < |ws| ==> ws[r] == w
    ensures forall k :: 0 <= k < r ==> ws[k] != w
  {
    if ws == [] then 0 else if ws[0] == w then 0 else 1 + FirstPos(ws[1..], w)
  }

  /** The order of `Counter.most_common`: the higher count first, and among
      equal counts the word met first (a stable sort of the counter's items,
      which are kept in first-occurrence order). */
  predicate Before(ws: seq<string>, a: string, b: string) {
    multiset(ws)[a] > multiset(ws)[b] ||
    (multiset(ws)[a] == multiset(ws)[b] && FirstPos(ws, a) < FirstPos(ws, b))
  }

  /** `Before` is a strict total order on the words of `ws`. */
  lemma BeforeTotal(ws: seq<string>, a: string, b: string)
    requires a in ws && b in ws
    ensures Before(ws, a, b) || Before(ws, b, a) || a == b
    ensures !(Before(ws, a, b) && Before(ws, b, a))
  {
  }

  lemma BeforeTrans(ws: seq<string>, a: string, b: string, c: string)
    requires Before(ws, a, b) && Before(ws, b, c)
    ensures Before(ws, a, c)
  {
  }

  /** The distinct words of `ws`, each once. */
  function Uniq(ws: seq<string>): (r: seq<string>)
    ensures forall w :: w in r <==> w in ws
    ensures forall i, j :: 0 <= i < j < |r| ==> r[i] != r[j]
  {
    if ws == [] then []
    else if ws[0] in ws[1..] then Uniq(ws[1..])
    else [ws[0]] + Uniq(ws[1..])
  }

  predicate SortedBy(ws: seq<string>, s: seq<string>) {
    forall i, j :: 0 <= i < j < |s| ==> Before(ws, s[i], s[j])
  }

  function Insert(ws: seq<string>, x: string, s: seq<string>): seq<string> {
    if s == [] then [x]
    else if Before(ws, x, s[0]) then [x] + s
    else [s[0]] + Insert(ws, x, s[1..])
  }

  function Sort(ws: seq<string>, items: seq<string>): seq<string> {
    if items == [] then [] else Insert(ws, items[0], Sort(ws, items[1..]))
  }

  /** Insertion adds exactly the inserted word. */
  lemma {:induction false} InsertElems(ws: seq<string>, x: string, s: seq<string>)
    ensures multiset(Insert(ws, x, s)) == multiset(s) + multiset{x}
  {
    if s != [] && !Before(ws, x, s[0]) {
      InsertElems(ws, x, s[1..]);
      assert s == [s[0]] + s[1..];
    }
  }

  /** The tail of a sorted list is sorted. */
  lemma SortedTail(ws: seq<string>, s: seq<string>)
    requires s != [] && SortedBy(ws, s)
    ensures SortedBy(ws, s[1..])
  {
    forall i, j | 0 <= i < j < |s[1..]| ensures Before(ws, s[1..][i], s[1..][j]) {
      assert s[1..][i] == s[i + 1] && s[1..][j] == s[j + 1];
    }
  }

  /** A word that comes before the head of a sorted list comes before all of it. */
  lemma SortedCons(ws: seq<string>, x: string, s: seq<string>)
    requires SortedBy(ws, s) && (s != [] ==> Before(ws, x, s[0]))
    ensures SortedBy(ws, [x] + s)
  {
    forall i, j | 0 <= i < j < |[x] + s| ensures Before(ws, ([x] + s)[i], ([x] + s)[j]) {
      if i == 0 && j > 1 {
        BeforeTrans(ws, x, s[0], s[j - 1]);
      }
    }
  }

  /** Inserting a new word of `ws` into a sorted list keeps it sorted. */
  lemma {:induction false} InsertSorted(ws: seq<string>, x: string, s: seq<string>)
    requires SortedBy(ws, s) && x in ws && x !in s
    requires forall k :: 0 <= k < |s| ==> s[k] in ws
    ensures SortedBy(ws, Insert(ws, x, s))
  {
    if s == [] {
    } else if Before(ws, x, s[0]) {
      SortedCons(ws, x, s);
    } else {
      BeforeTotal(ws, x, s[0]);
      var t := s[1..];
      SortedTail(ws, s);
      InsertSorted(ws, x, t);
      InsertElems(ws, x, t);
      var u := Insert(ws, x, t);
      forall k | 0 <= k < |u| ensures Before(ws, s[0], u[k]) {
        assert u[k] in multiset(t) + multiset{x};
        if u[k] != x {
          var m :| 0 <= m < |t| && t[m] == u[k];
          assert s[m + 1] == u[k];
        }
      }
      assert u != [] ==> Before(ws, s[0], u[0]);
      SortedCons(ws, s[0], u);
    }
  }

  /** Sorting distinct words of `ws` orders them by `Before` and keeps each once. */
  lemma {:induction false} SortSpec(ws: seq<string>, items: seq<string>)
    requires forall i, j :: 0 <= i < j < |items| ==> items[i] != items[j]
    requires forall k :: 0 <= k < |items| ==> items[k] in ws
    ensures SortedBy(ws, Sort(ws, items))
    ensures multiset(Sort(ws, items)) == multiset(items)
  {
    if items != [] {
      var t := items[1..];
      SortSpec(ws, t);
      var s := Sort(ws, t);
      forall k | 0 <= k < |s| ensures s[k] in ws && s[k] != items[0] {
        assert s[k] in multiset(t);
      }
      InsertSorted(ws, items[0], s);
      InsertElems(ws, items[0], s);
      assert items == [items[0]] + t;
    }
  }

  /** The distinct hot words of `words` in `most_common` order. */
  function Ranked(words: seq<string>): seq<string> {
    var f := FilteredWords(words);
    Sort(f, Uniq(f))
  }

  /** `Counter(filtered_words).most_common(top_n)`: the first `top_n` ranked
      words with their counts; a `top_n` of zero or less gives none. */
  function MostCommon(words: seq<string>, topN: int): seq<(string, nat)> {
    var f := FilteredWords(words);
    var s := Ranked(words);
    var m := if topN <= 0 then 0 else if topN < |s| then topN else |s|;
    seq(m, i requires 0 <= i < m => (s[i], multiset(f)[s[i]]))
  }

  /** The word list the chart is built from, with `tokenize` standing for the
      tokeniser. */
  function HotWordList(comments: seq<string>, tokenize: string -> seq<string>, topN: int): seq<(string, nat)> {
    MostCommon(tokenize(Content(comments)), topN)
  }

  /** The ranking holds every distinct hot word once, in `Before` order. */
  lemma RankedSpec(words: seq<string>)
    ensures var s := Ranked(words); var f := FilteredWords(words);
      SortedBy(f, s) && multiset(s) == multiset(Uniq(f)) && |s| == |Uniq(f)|
    ensures var s := Ranked(words); forall w :: w in s <==> IsHotWord(w) && w in words
  {
    var f := FilteredWords(words);
    var u := Uniq(f);
    SortSpec(f, u);
    var s := Sort(f, u);
    assert |multiset(s)| == |multiset(u)|;
    forall w ensures w in s <==> IsHotWord(w) && w in words {
      FilteredCounts(words, w);
      assert w in s <==> w in multiset(u);
      assert w in f <==> w in multiset(f);
      assert w in words <==> w in multiset(words);
    }
  }

  /** `most_common(top_n)` holds `top_n` words, or every hot word when there
      are fewer, and none for a `top_n` of zero or less. */
  lemma MostCommonLength(words: seq<string>, topN: int)
    ensures var r := MostCommon(words, topN); var n := |Uniq(FilteredWords(words))|;
      (topN <= 0 ==> r == []) && (topN > 0 ==> |r| == if topN < n then topN else n)
  {
    RankedSpec(words);
  }

  /** Each reported word is a hot word, reported with its number of
      occurrences, which is positive. */
  lemma MostCommonCounts(words: seq<string>, topN: int)
    ensures var r := MostCommon(words, topN);
      forall i :: 0 <= i < |r| ==> IsHotWord(r[i].0) && r[i].1 == multiset(words)[r[i].0] && r[i].1 > 0
  {
    RankedSpec(words);
    var r := MostCommon(words, topN);
    var s := Ranked(words);
    forall i | 0 <= i < |r|
      ensures IsHotWord(r[i].0) && r[i].1 == multiset(words)[r[i].0] && r[i].1 > 0
    {
      assert r[i].0 == s[i] && s[i] in s;
      FilteredCounts(words, s[i]);
    }
  }

  /** Reported words are distinct and in `most_common` order. */
  lemma MostCommonOrder(words: seq<string>, topN: int)
    ensures var r := MostCommon(words, topN); var f := FilteredWords(words);
      forall i, j :: 0 <= i < j < |r| ==> r[i].0 != r[j].0 && Before(f, r[i].0, r[j].0)
  {
    RankedSpec(words);
    var f := FilteredWords(words);
    var r := MostCommon(words, topN);
    var s := Ranked(words);
    forall i, j | 0 <= i < j < |r| ensures r[i].0 != r[j].0 && Before(f, r[i].0, r[j].0) {
      assert r[i].0 == s[i] && r[j].0 == s[j];
      assert s[i] in s && s[j] in s;
      FilteredCounts(words, s[i]);
      FilteredCounts(words, s[j]);
      assert s[i] in multiset(f) && s[j] in multiset(f);
      BeforeTotal(f, s[i], s[j]);
    }
  }

  /** Every hot word is reported, or ranks below every reported word. */
  lemma MostCommonComplete(words: seq<string>, topN: int, w: string)
    requires IsHotWord(w) && w in words
    ensures var r := MostCommon(words, topN); var f := FilteredWords(words);
      (exists i :: 0 <= i < |r| && r[i].0 == w) || forall i :: 0 <= i < |r| ==> Before(f, r[i].0, w)
  {
    RankedSpec(words);
    var r := MostCommon(words, topN);
    var s := Ranked(words);
    var m :| 0 <= m < |s| && s[m] == w;
    if m < |r| {
      assert r[m].0 == w;
    } else {
      forall i | 0 <= i < |r| ensures Before(FilteredWords(words), r[i].0, w) {
        assert r[i].0 == s[i];
      }
    }
  }
}
