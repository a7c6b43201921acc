/** Keyword tagging: a comment belongs to every category one of whose
    keywords occurs in its text, and each category counts its comments.
    The same rule drives the language styles of the user portraits, the
    content categories and the hot topics; the first two match the
    lowercased text, the topics the text as written. */
module Tagging {
  import opened PyStr

  /** A category table: each category's name and keywords, in the order the
      dictionary literal lists them. */
  type Table = seq<(string, seq<string>)>

  /** `language_patterns` of the user portraits. */
  const LanguagePatterns: Table := [
    ("网络流行语", ["yyds", "绝绝子", "真的蛮", "蕉绿", "破防了", "笑死", "太真了", "奈斯", "无语子"]),
    ("学生用语", ["学校", "作业", "考试", "老师", "课程", "学习", "上课", "复习"]),
    ("职场用语", ["工作", "项目", "公司", "老板", "会议", "客户", "同事", "薪资"]),
    ("情感表达", ["喜欢", "爱", "感动", "哭了", "泪目", "心疼", "心动", "可爱"]),
    ("批判性表达", ["垃圾", "难看", "失望", "差评", "不行", "假", "水平", "浪费"])
  ]

  /** `content_categories` of the content tags. */
  const ContentCategories: Table := [
    ("产品评价", ["质量", "做工", "好用", "实用", "推荐", "好看", "效果", "物超所值", "值得", "购买"]),
    ("价格讨论", ["价格", "贵", "便宜", "划算", "性价比", "优惠", "打折", "值得", "不值", "退款"]),
    ("功能咨询", ["怎么用", "使用", "功能", "操作", "如何", "教程", "说明书", "方法", "步骤"]),
    ("物流相关", ["发货", "快递", "物流", "送货", "收到", "包装", "到货", "破损", "完好"]),
    ("售后服务", ["售后", "退换", "保修", "客服", "维修", "退货", "换货", "联系", "解决"]),
    ("比较参考", ["对比", "差别", "区别", "比较", "选择", "推荐", "哪个好", "还是", "更好"]),
    ("创意灵感", ["创意", "灵感", "设计", "风格", "教程", "搭配", "点子", "技巧", "启发"]),
    ("情感表达", ["喜欢", "讨厌", "爱", "感动", "失望", "开心", "伤心", "期待", "惊喜", "难过"]),
    ("购买意向", ["想买", "想要", "准备", "下单", "入手", "购买", "剁手", "心动", "购物车"]),
    ("使用体验", ["体验", "感受", "使用感", "手感", "舒适度", "用着", "试用", "上手"])
  ]

  /** `topic_keywords` of the hot topics. */
  const TopicKeywords: Table := [
    ("质量问题", ["质量", "差", "坏", "问题", "故障", "退货", "换货"]),
    ("价格相关", ["价格", "贵", "便宜", "值", "不值", "实惠", "优惠"]),
    ("服务体验", ["服务", "态度", "客服", "售后", "快递", "物流", "送货"]),
    ("使用体验", ["好用", "难用", "体验", "操作", "方便", "实用", "手感"]),
    ("外观设计", ["外观", "设计", "漂亮", "好看", "丑", "时尚", "颜值"]),
    ("功能特性", ["功能", "特性", "性能", "速度", "效果", "强大", "智能"])
  ]

  // ---------------------------------------------------------------------------
  // One comment

  /** `any(keyword in text for keyword in keywords)`. */
  predicate AnyIn(keywords: seq<string>, text: string) {
    keywords != [] && (Contains(text, keywords[0]) || AnyIn(keywords[1..], text))
  }

  /** A comment is tagged exactly when one of the keywords occurs in it. */
  lemma {:induction false} AnyInSpec(keywords: seq<string>, text: string)
    ensures AnyIn(keywords, text) <==> exists k :: 0 <= k < |keywords| && Contains(text, keywords[k])
  {
    if keywords != [] {
      AnyInSpec(keywords[1..], text);
      assert forall k :: 1 <= k < |keywords| ==> keywords[1..][k - 1] == keywords[k];
      if AnyIn(keywords[1..], text) {
        var k :| 0 <= k < |keywords[1..]| && Contains(text, keywords[1..][k]);
        assert Contains(text, keywords[k + 1]);
      }
    }
  }

  /** The text a comment is matched as: `str(comment).lower()` or `str(comment)`. */
  function Prepared(text: string, lower: bool): string {
    if lower then Lower(text) else text
  }

  // ---------------------------------------------------------------------------
  // Counting over the comments

  /** The number of comments a category's keywords tag. */
  function TagCount(texts: seq<string>, keywords: seq<string>, lower: bool): nat {
    if texts == [] then 0
    else
      var n := |texts| - 1;
      TagCount(texts[..n], keywords, lower) + (if AnyIn(keywords, Prepared(texts[n], lower)) then 1 else 0)
  }

  /** The positions of the comments a category's keywords tag. */
  function TaggedPositions(texts: seq<string>, keywords: seq<string>, lower: bool): set<nat> {
    set i: nat | i < |texts| && AnyIn(keywords, Prepared(texts[i], lower))
  }

  /** A category counts each comment it tags once: its count is the number of
      tagged positions, so it never exceeds the number of comments. */
  lemma {:induction false} TagCountIsTagged(texts: seq<string>, keywords: seq<string>, lower: bool)
    ensures TagCount(texts, keywords, lower) == |TaggedPositions(texts, keywords, lower)|
    ensures TagCount(texts, keywords, lower) <= |texts|
  {
    if texts != [] {
      var n := |texts| - 1;
      var front := texts[..n];
      TagCountIsTagged(front, keywords, lower);
      var before := TaggedPositions(front, keywords, lower);
      var all := TaggedPositions(texts, keywords, lower);
      assert forall i :: 0 <= i < n ==> front[i] == texts[i];
      if AnyIn(keywords, Prepared(texts[n], lower)) {
        assert all == before + {n};
        assert n !in before;
      } else {
        assert all == before;
      }
    }
  }

  /** Adding one comment raises a category's count by one if the comment is
      tagged and leaves it otherwise. */
  lemma TagCountSnoc(texts: seq<string>, text: string, keywords: seq<string>, lower: bool)
    ensures TagCount(texts + [text], keywords, lower) ==
      TagCount(texts, keywords, lower) + (if AnyIn(keywords, Prepared(text, lower)) then 1 else 0)
  {
    assert (texts + [text])[..|texts|] == texts;
  }

  /** Every category's count, in table order. */
  function Counts(texts: seq<string>, table: Table, lower: bool): (r: seq<nat>)
    ensures |r| == |table|
  {
    seq(|table|, c requires 0 <= c < |table| => TagCount(texts, table[c].1, lower))
  }

  /** The counting loop: for every comment, every category it matches gains one. */
  method CountCategories(texts: seq<string>, table: Table, lower: bool) returns (counts: seq<nat>)
    ensures counts == Counts(texts, table, lower)
  {
    counts := seq(|table|, c => 0);
    for i := 0 to |texts|
      invariant counts == Counts(texts[..i], table, lower)
    {
      var text := Prepared(texts[i], lower);
      assert texts[..i + 1] == texts[..i] + [texts[i]];
      for c := 0 to |table|
        invariant |counts| == |table|
        invariant forall k :: 0 <= k < c ==> counts[k] == TagCount(texts[..i + 1], table[k].1, lower)
        invariant forall k :: c <= k < |table| ==> counts[k] == TagCount(texts[..i], table[k].1, lower)
      {
        TagCountSnoc(texts[..i], texts[i], table[c].1, lower);
        if AnyIn(table[c].1, text) {
          counts := counts[c := counts[c] + 1];
        }
      }
    }
    assert texts[..|texts|] == texts;
  }

  /** `language_stats` of the user portraits. */
  method AnalyzeLanguageStyle(texts: seq<string>) returns (stats: seq<nat>)
    ensures |stats| == |LanguagePatterns|
    ensures forall c :: 0 <= c < |stats| ==> stats[c] == |TaggedPositions(texts, LanguagePatterns[c].1, true)|
  {
    stats := CountCategories(texts, LanguagePatterns, true);
    forall c | 0 <= c < |stats| ensures stats[c] == |TaggedPositions(texts, LanguagePatterns[c].1, true)| {
      TagCountIsTagged(texts, LanguagePatterns[c].1, true);
    }
  }

  /** `category_counts` of the content tags. */
  method AnalyzeContentCategories(texts: seq<string>) returns (counts: seq<nat>)
    ensures |counts| == |ContentCategories|
    ensures forall c :: 0 <= c < |counts| ==> counts[c] == |TaggedPositions(texts, ContentCategories[c].1, true)|
  {
    counts := CountCategories(texts, ContentCategories, true);
    forall c | 0 <= c < |counts| ensures counts[c] == |TaggedPositions(texts, ContentCategories[c].1, true)| {
      TagCountIsTagged(texts, ContentCategories[c].1, true);
    }
  }

  // ---------------------------------------------------------------------------
  // The hot topics, as a flag column per topic and its sum

  /** The `话题_<topic>` column: one flag per comment, on the text as written. */
  function TopicColumn(texts: seq<string>, keywords: seq<string>): (r: seq<bool>)
    ensures |r| == |texts|
  {
    seq(|texts|, i requires 0 <= i < |texts| => AnyIn(keywords, texts[i]))
  }

  /** The sum of a flag column. */
  function CountTrue(flags: seq<bool>): nat {
    if flags == [] then 0 else CountTrue(flags[..|flags| - 1]) + (if flags[|flags| - 1] then 1 else 0)
  }

  /** `topic_counts`: the sum of every topic's column. */
  function TopicCounts(texts: seq<string>): (r: seq<nat>)
    ensures |r| == |TopicKeywords|
  {
    seq(|TopicKeywords|, t requires 0 <= t < |TopicKeywords| => CountTrue(TopicColumn(texts, TopicKeywords[t].1)))
  }

  /** Summing a topic's flag column counts the comments the topic's keywords
      tag, exactly as the counting loop does without lowercasing. */
  lemma {:induction false} TopicColumnCount(texts: seq<string>, keywords: seq<string>)
    ensures CountTrue(TopicColumn(texts, keywords)) == TagCount(texts, keywords, false)
  {
    if texts != [] {
      var n := |texts| - 1;
      TopicColumnCount(texts[..n], keywords);
      assert TopicColumn(texts, keywords)[..n] == TopicColumn(texts[..n], keywords);
    }
  }

  /** The topic counts are the counts of the table matched as written. */
  lemma TopicCountsSpec(texts: seq<string>)
    ensures TopicCounts(texts) == Counts(texts, TopicKeywords, false)
  {
    forall t | 0 <= t < |TopicKeywords| ensures TopicCounts(texts)[t] == Counts(texts, TopicKeywords, false)[t] {
      TopicColumnCount(texts, TopicKeywords[t].1);
    }
  }

  // ---------------------------------------------------------------------------
  // Concrete consequences of the tables

  /** The tagging is multi-label: "值得" is both a product review and a price
      discussion. */
  lemma MultiLabel()
    ensures Counts(["值得"], ContentCategories, true)[0] == 1
    ensures Counts(["值得"], ContentCategories, true)[1] == 1
  {
    var text := "值得";
    assert Lower(text) == text;
    ContainsAt(text, "值得", 0);
    AnyInSpec(ContentCategories[0].1, text);
    AnyInSpec(ContentCategories[1].1, text);
    assert ContentCategories[0].1[8] == "值得";
    assert ContentCategories[1].1[7] == "值得";
    assert ["值得"][..0] == [];
  }

  /** The portraits lowercase first, so an upper-case "YYDS" is internet slang. */
  lemma LowercasedMatch()
    ensures Counts(["YYDS"], LanguagePatterns, true)[0] == 1
  {
    assert Lower("YYDS") == "yyds";
    ContainsAt("yyds", "yyds", 0);
    assert ["YYDS"][..0] == [];
  }
}
