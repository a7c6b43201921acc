/** The lexicon sentiment rule: a comment is positive when its tokens hold
    more positive than negative words, negative in the opposite case, and
    neutral on a tie.  The tokenizer is a parameter. */
module Sentiment {

  /** `positive_words`. */
  const PositiveWords: set<string> := {"喜欢", "好看", "漂亮", "美丽", "精彩", "帅", "棒", "赞", "支持",
                                       "开心", "感动", "完美", "厉害", "牛", "笑", "爱", "感谢", "谢谢"}

  /** `negative_words`. */
  const NegativeWords: set<string> := {"不好", "难看", "失望", "差劲", "烂", "丑", "太差", "恶心", "讨厌",
                                       "无聊", "垃圾", "白痴", "傻", "枯燥", "不行", "假", "骗", "坑"}

  const PositiveLabel: string := "正面"
  const NegativeLabel: string := "负面"
  const NeutralLabel: string := "中性"

  /** `sum(1 for word in words if word in vocabulary)`. */
  function CountIn(words: seq<string>, vocabulary: set<string>): nat {
    if words == [] then 0 else (if words[0] in vocabulary then 1 else 0) + CountIn(words[1..], vocabulary)
  }

  /** The count is zero exactly when no token is in the vocabulary. */
  lemma {:induction false} CountInZero(words: seq<string>, vocabulary: set<string>)
    ensures CountIn(words, vocabulary) == 0 <==> forall i :: 0 <= i < |words| ==> words[i] !in vocabulary
  {
    if words != [] {
      CountInZero(words[1..], vocabulary);
      assert forall i :: 1 <= i < |words| ==> words[i] == words[1..][i - 1];
    }
  }

  /** The count is additive: each token counts on its own. */
  lemma {:induction false} CountInConcat(u: seq<string>, v: seq<string>, vocabulary: set<string>)
    ensures CountIn(u + v, vocabulary) == CountIn(u, vocabulary) + CountIn(v, vocabulary)
  {
    if u != [] {
      CountInConcat(u[1..], v, vocabulary);
      assert (u + v)[1..] == u[1..] + v;
    } else {
      assert u + v == v;
    }
  }

  /** With two vocabularies that share no word, a token counts for at most
      one of them. */
  lemma {:induction false} CountInDisjoint(words: seq<string>, a: set<string>, b: set<string>)
    requires a * b == {}
    ensures CountIn(words, a) + CountIn(words, b) <= |words|
  {
    if words != [] {
      CountInDisjoint(words[1..], a, b);
      var w := words[0];
      assert w in a && w in b ==> w in a * b;
    }
  }

  /** The two lexicons share no word. */
  lemma LexiconsDisjoint()
    ensures PositiveWords * NegativeWords == {}
  {
    assert "喜欢" !in NegativeWords;
    assert "好看" !in NegativeWords;
    assert "漂亮" !in NegativeWords;
    assert "美丽" !in NegativeWords;
    assert "精彩" !in NegativeWords;
    assert "帅" !in NegativeWords;
    assert "棒" !in NegativeWords;
    assert "赞" !in NegativeWords;
    assert "支持" !in NegativeWords;
    assert "开心" !in NegativeWords;
    assert "感动" !in NegativeWords;
    assert "完美" !in NegativeWords;
    assert "厉害" !in NegativeWords;
    assert "牛" !in NegativeWords;
    assert "笑" !in NegativeWords;
    assert "爱" !in NegativeWords;
    assert "感谢" !in NegativeWords;
    assert "谢谢" !in NegativeWords;
  }

  /** The positive and the negative count of a comment together never exceed
      its number of tokens. */
  lemma LexiconCounts(words: seq<string>)
    ensures CountIn(words, PositiveWords) + CountIn(words, NegativeWords) <= |words|
  {
    LexiconsDisjoint();
    CountInDisjoint(words, PositiveWords, NegativeWords);
  }

  /** The label of one tokenized comment. */
  function Label(words: seq<string>): string {
    var pos := CountIn(words, PositiveWords);
    var neg := CountIn(words, NegativeWords);
    if pos > neg then PositiveLabel
    else if neg > pos then NegativeLabel
    else NeutralLabel
  }

  /** Each comment gets exactly one of the three labels, by the comparison of
      its positive and negative counts. */
  lemma LabelSpec(words: seq<string>)
    ensures Label(words) == PositiveLabel <==> CountIn(words, PositiveWords) > CountIn(words, NegativeWords)
    ensures Label(words) == NegativeLabel <==> CountIn(words, NegativeWords) > CountIn(words, PositiveWords)
    ensures Label(words) == NeutralLabel <==> CountIn(words, PositiveWords) == CountIn(words, NegativeWords)
  {
    assert PositiveLabel != NegativeLabel && PositiveLabel != NeutralLabel && NegativeLabel != NeutralLabel by {
      assert PositiveLabel[0] != NegativeLabel[0] && PositiveLabel[0] != NeutralLabel[0] && NegativeLabel[0] != NeutralLabel[0];
    }
  }

  /** `analyze_sentiment`'s loop: one label per comment, in order. */
  method AnalyzeSentiment(texts: seq<string>, tokenize: string -> seq<string>) returns (labels: seq<string>)
    ensures |labels| == |texts|
    ensures forall i :: 0 <= i < |texts| ==> labels[i] == Label(tokenize(texts[i]))
  {
    labels := [];
    for i := 0 to |texts|
      invariant |labels| == i
      invariant forall k :: 0 <= k < i ==> labels[k] == Label(tokenize(texts[k]))
    {
      var words := tokenize(texts[i]);
      var pos := CountIn(words, PositiveWords);
      var neg := CountIn(words, NegativeWords);
      var sentiment;
      if pos > neg {
        sentiment := PositiveLabel;
      } else if neg > pos {
        sentiment := NegativeLabel;
      } else {
        sentiment := NeutralLabel;
      }
      labels := labels + [sentiment];
    }
  }
}
