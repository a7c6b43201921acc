/** Reply targets inferred from "@name" mentions in `analyze_interaction_network`:
    the tokens `re.findall(r'@([^\s:：]+)', text)`, the display-name to user-ID
    dictionary built from the nickname and user-ID columns, and for each
    comment the first mention matching some display name, resolved to the
    longest such name. */
module Mentions {
  import opened Wrappers
  import opened PyStr

  /** A character the token pattern `[^\s:：]` accepts. */
  predicate TokenChar(c: char) {
    !IsSpace(c) && c != ':' && c != '\U{ff1a}'
  }

  /** `re.findall(r'@([^\s:：]+)', s)`: scanning left to right, an '@'
      followed by at least one token character yields the longest such run,
      and scanning resumes after it. */
  function AtTokens(s: string): (ts: seq<string>)
    decreases |s|
  {
    if |s| == 0 then []
    else if s[0] == '@' && Span(s[1..], TokenChar) > 0 then
      var n := Span(s[1..], TokenChar);
      [s[1..1 + n]] + AtTokens(s[1 + n..])
    else AtTokens(s[1..])
  }

  /** `t` is a non-empty run of token characters that occurs in `s` right
      after the '@' at index `i`, and is not followed by another token
      character. */
  predicate TokenAt(s: string, t: string, i: int) {
    |t| > 0 && (forall j :: 0 <= j < |t| ==> TokenChar(t[j])) &&
    0 <= i && i + 1 + |t| <= |s| && s[i] == '@' && s[i + 1..i + 1 + |t|] == t &&
    (i + 1 + |t| == |s| || !TokenChar(s[i + 1 + |t|]))
  }

  /** The index of the '@' before each token. */
  function AtPositions(s: string): (ps: seq<nat>)
    decreases |s|
  {
    if |s| == 0 then []
    else if s[0] == '@' && Span(s[1..], TokenChar) > 0 then
      var n := Span(s[1..], TokenChar);
      var p := AtPositions(s[1 + n..]);
      [0] + seq(|p|, j requires 0 <= j < |p| => p[j] + 1 + n)
    else
      var p := AtPositions(s[1..]);
      seq(|p|, j requires 0 <= j < |p| => p[j] + 1)
  }

  /** An occurrence in a suffix is an occurrence in the whole string. */
  lemma ShiftTokenAt(s: string, d: nat, t: string, i: int)
    requires d <= |s| && TokenAt(s[d..], t, i)
    ensures TokenAt(s, t, i + d)
  {
    assert s[i + d + 1..i + d + 1 + |t|] == s[d..][i + 1..i + 1 + |t|];
  }

  /** The run after a leading '@' is an occurrence at index 0. */
  lemma HeadTokenAt(s: string)
    requires |s| > 0 && s[0] == '@' && Span(s[1..], TokenChar) > 0
    ensures TokenAt(s, s[1..1 + Span(s[1..], TokenChar)], 0)
  {
    var n := Span(s[1..], TokenChar);
    assert 1 + n < |s| ==> s[1 + n] == s[1..][n];
  }

  /** Every token of `s` occurs in `s` at its position. */
  predicate Occurs(s: string) {
    |AtPositions(s)| == |AtTokens(s)| &&
    forall k :: 0 <= k < |AtTokens(s)| ==> TokenAt(s, AtTokens(s)[k], AtPositions(s)[k])
  }

  /** The occurrences after a leading token, shifted, and the token itself. */
  lemma OccursAfterToken(s: string, n: nat)
    requires |s| > 0 && s[0] == '@' && n == Span(s[1..], TokenChar) && n > 0
    requires Occurs(s[1 + n..])
    ensures Occurs(s)
  {
    var rest := s[1 + n..];
    var rts, rps := AtTokens(rest), AtPositions(rest);
    var ts, ps := AtTokens(s), AtPositions(s);
    HeadUnfold(s, n);
    HeadTokenAt(s);
    assert TokenAt(s, ts[0], ps[0]);
    ConsOccurrences(s, 1 + n, s[1..1 + n], rts, rps, ts, ps);
  }

  /** A token at 0 followed by the shifted occurrences of the suffix after
      it gives occurrences in the whole string. */
  lemma ConsOccurrences(s: string, d: nat, t: string, rts: seq<string>, rps: seq<nat>, ts: seq<string>, ps: seq<nat>)
    requires d <= |s| && TokenAt(s, t, 0)
    requires |rps| == |rts| && forall k :: 0 <= k < |rts| ==> TokenAt(s[d..], rts[k], rps[k])
    requires ts == [t] + rts && |ps| == 1 + |rps| && ps[0] == 0
    requires forall k :: 1 <= k < |ps| ==> ps[k] == rps[k - 1] + d
    ensures |ps| == |ts| && forall k :: 0 <= k < |ts| ==> TokenAt(s, ts[k], ps[k])
  {
    forall k | 1 <= k < |ts| ensures TokenAt(s, ts[k], ps[k]) {
      assert ts[k] == rts[k - 1];
      ShiftTokenAt(s, d, rts[k - 1], rps[k - 1]);
    }
  }

  /** One step of the scan over a leading token. */
  lemma HeadUnfold(s: string, n: nat)
    requires |s| > 0 && s[0] == '@' && n == Span(s[1..], TokenChar) && n > 0
    ensures AtTokens(s) == [s[1..1 + n]] + AtTokens(s[1 + n..])
    ensures |AtPositions(s)| == 1 + |AtPositions(s[1 + n..])| && AtPositions(s)[0] == 0
    ensures forall k :: 1 <= k < |AtPositions(s)| ==> AtPositions(s)[k] == AtPositions(s[1 + n..])[k - 1] + 1 + n
  {
  }

  /** The occurrences after a first character that starts no token, shifted. */
  lemma OccursAfterSkip(s: string)
    requires |s| > 0 && !(s[0] == '@' && Span(s[1..], TokenChar) > 0)
    requires Occurs(s[1..])
    ensures Occurs(s)
  {
    var tail := s[1..];
    var rps := AtPositions(tail);
    var ts, ps := AtTokens(s), AtPositions(s);
    assert ts == AtTokens(tail);
    assert ps == seq(|rps|, j requires 0 <= j < |rps| => rps[j] + 1);
    forall k | 0 <= k < |ts| ensures TokenAt(s, ts[k], ps[k]) {
      ShiftTokenAt(s, 1, ts[k], rps[k]);
    }
  }

  /** Every token is a maximal run of token characters right after an '@'. */
  lemma {:induction false} AtTokensOccur(s: string)
    ensures |AtPositions(s)| == |AtTokens(s)|
    ensures forall k :: 0 <= k < |AtTokens(s)| ==> TokenAt(s, AtTokens(s)[k], AtPositions(s)[k])
    decreases |s|
  {
    if |s| > 0 {
      if s[0] == '@' && Span(s[1..], TokenChar) > 0 {
        var n := Span(s[1..], TokenChar);
        AtTokensOccur(s[1 + n..]);
        OccursAfterToken(s, n);
      } else {
        AtTokensOccur(s[1..]);
        OccursAfterSkip(s);
      }
    }
  }

  /** An extracted token is non-empty and holds no whitespace, ':' or '：'. */
  lemma AtTokensShape(s: string)
    ensures forall k :: 0 <= k < |AtTokens(s)| ==>
      AtTokens(s)[k] != "" && forall c :: c in AtTokens(s)[k] ==> TokenChar(c)
  {
    AtTokensOccur(s);
    forall k | 0 <= k < |AtTokens(s)|
      ensures AtTokens(s)[k] != "" && forall c :: c in AtTokens(s)[k] ==> TokenChar(c)
    {
      assert TokenAt(s, AtTokens(s)[k], AtPositions(s)[k]);
    }
  }

  /** A text without '@' mentions nobody. */
  lemma {:induction false} NoAtNoTokens(s: string)
    requires '@' !in s
    ensures AtTokens(s) == []
    decreases |s|
  {
    if |s| > 0 {
      assert '@' !in s[1..];
      NoAtNoTokens(s[1..]);
    }
  }

  // ---------------------------------------------------------------------------
  // The name dictionary

  /** The display names in first-occurrence order: the keys of
      `dict(zip(nicknames, user_ids))`. */
  function NameKeys(names: seq<string>): seq<string> {
    if names == [] then []
    else
      var p := NameKeys(names[..|names| - 1]);
      var last := names[|names| - 1];
      if last in names[..|names| - 1] then p else p + [last]
  }

  /** The keys are the display names, each once. */
  lemma {:induction false} NameKeysSpec(names: seq<string>)
    ensures forall n :: n in NameKeys(names) <==> n in names
    ensures forall i, j :: 0 <= i < j < |NameKeys(names)| ==> NameKeys(names)[i] != NameKeys(names)[j]
  {
    if names != [] {
      var init := names[..|names| - 1];
      NameKeysSpec(init);
      assert names == init + [names[|names| - 1]];
    }
  }

  /** `dict(zip(nicknames, user_ids))`: a later pair overrides an earlier one. */
  function NameToId(people: seq<(string, string)>): map<string, string> {
    if people == [] then map[]
    else NameToId(people[..|people| - 1])[people[|people| - 1].0 := people[|people| - 1].1]
  }

  function Nicknames(people: seq<(string, string)>): seq<string> {
    seq(|people|, i requires 0 <= i < |people| => people[i].0)
  }

  /** The dictionary holds every display name, mapped to the user ID of the
      last row with that name. */
  lemma {:induction false} NameToIdSpec(people: seq<(string, string)>, name: string)
    ensures name in NameToId(people) <==> name in Nicknames(people)
    ensures name in NameToId(people) ==>
      exists j :: 0 <= j < |people| && people[j].0 == name && NameToId(people)[name] == people[j].1 &&
        forall k :: j < k < |people| ==> people[k].0 != name
  {
    if people != [] {
      var init := people[..|people| - 1];
      var last := people[|people| - 1];
      NameToIdSpec(init, name);
      assert Nicknames(people) == Nicknames(init) + [last.0];
      if last.0 != name && name in NameToId(init) {
        var j :| 0 <= j < |init| && init[j].0 == name && NameToId(init)[name] == init[j].1 &&
          forall k :: j < k < |init| ==> init[k].0 != name;
        assert people[j] == init[j];
        assert forall k :: j < k < |people| ==> people[k].0 != name by {
          forall k | j < k < |people| ensures people[k].0 != name {
            if k < |init| {
              assert people[k] == init[k];
            }
          }
        }
      } else if last.0 == name {
        assert people[|people| - 1].0 == name;
      }
    }
  }

  /** Every display name is a key of the dictionary. */
  lemma {:induction false} KeyInDict(people: seq<(string, string)>, name: string)
    requires name in Nicknames(people)
    ensures name in NameToId(people)
  {
    var init := people[..|people| - 1];
    assert Nicknames(people) == Nicknames(init) + [people[|people| - 1].0];
    if people[|people| - 1].0 != name {
      KeyInDict(init, name);
    }
  }

  // ---------------------------------------------------------------------------
  // Choosing the target of one mention

  /** `at_name in name or name in at_name`. */
  predicate Matches(token: string, name: string) {
    Contains(name, token) || Contains(token, name)
  }

  /** `[name for name in keys if at_name in name or name in at_name]`. */
  function Candidates(keys: seq<string>, token: string): seq<string> {
    if keys == [] then []
    else (if Matches(token, keys[0]) then [keys[0]] else []) + Candidates(keys[1..], token)
  }

  /** The candidates are the keys that match the token. */
  lemma {:induction false} CandidatesSpec(keys: seq<string>, token: string)
    ensures forall n :: n in Candidates(keys, token) <==> n in keys && Matches(token, n)
  {
    if keys != [] {
      CandidatesSpec(keys[1..], token);
      assert keys == [keys[0]] + keys[1..];
    }
  }

  /** A candidate is a key of the dictionary. */
  lemma CandidateIsName(people: seq<(string, string)>, token: string, name: string)
    requires name in Candidates(NameKeys(Nicknames(people)), token)
    ensures name in NameToId(people)
  {
    CandidatesSpec(NameKeys(Nicknames(people)), token);
    NameKeysSpec(Nicknames(people));
    KeyInDict(people, name);
  }

  /** `max(names, key=len)`: the first name of the greatest length. */
  function Longest(names: seq<string>): (r: string)
    requires names != []
    ensures r in names
    ensures forall k :: 0 <= k < |names| ==> |names[k]| <= |r|
  {
    if |names| == 1 then names[0]
    else
      var tail := Longest(names[1..]);
      if |names[0]| >= |tail| then names[0] else tail
  }

  /** Every name before index `k` is shorter than `n`. */
  predicate ShorterBefore(names: seq<string>, k: nat, n: nat)
    requires k <= |names|
  {
    forall j :: 0 <= j < k ==> |names[j]| < n
  }

  /** `max` keeps the first of several equally long names: the chosen name
      sits at an index before which every name is shorter. */
  lemma {:induction false} LongestIsFirst(names: seq<string>)
    requires names != []
    ensures exists k :: 0 <= k < |names| && names[k] == Longest(names) && ShorterBefore(names, k, |Longest(names)|)
  {
    var r := Longest(names);
    if |names| > 1 && |names[0]| < |Longest(names[1..])| {
      var tail := names[1..];
      LongestIsFirst(tail);
      var k :| 0 <= k < |tail| && tail[k] == Longest(tail) && ShorterBefore(tail, k, |Longest(tail)|);
      assert r == Longest(tail);
      assert names[k + 1] == r;
      assert ShorterBefore(names, k + 1, |r|) by {
        forall j | 0 <= j < k + 1 ensures |names[j]| < |r| {
          if j > 0 {
            assert names[j] == tail[j - 1];
          }
        }
      }
    } else {
      assert names[0] == r;
      assert ShorterBefore(names, 0, |r|);
    }
  }

  /** The index of the first token that matches some display name. */
  function FirstMatched(keys: seq<string>, tokens: seq<string>): (r: Option<nat>)
    ensures r.Some? ==> (r.value < |tokens| && Candidates(keys, tokens[r.value]) != [] &&
      forall j :: 0 <= j < r.value ==> Candidates(keys, tokens[j]) == [])
    ensures r.None? ==> forall j :: 0 <= j < |tokens| ==> Candidates(keys, tokens[j]) == []
  {
    if tokens == [] then None
    else if Candidates(keys, tokens[0]) != [] then Some(0)
    else match FirstMatched(keys, tokens[1..])
      case None => None
      case Some(k) => Some(k + 1)
  }

  /** The user ID one comment replies to, by its mentions; None when no
      mention matches a display name. */
  function MentionTarget(people: seq<(string, string)>, text: string): Option<string> {
    var keys := NameKeys(Nicknames(people));
    var tokens := AtTokens(text);
    match FirstMatched(keys, tokens)
    case None => None
    case Some(k) =>
      var best := Longest(Candidates(keys, tokens[k]));
      CandidateIsName(people, tokens[k], best);
      Some(NameToId(people)[best])
  }

  /** A comment gets a target exactly when one of its mentions matches a
      display name. */
  lemma MentionTargetExists(people: seq<(string, string)>, text: string)
    ensures var keys := NameKeys(Nicknames(people)); var tokens := AtTokens(text);
      MentionTarget(people, text).Some? <==>
        exists k :: 0 <= k < |tokens| && Candidates(keys, tokens[k]) != []
  {
    var keys := NameKeys(Nicknames(people));
    var tokens := AtTokens(text);
    var m := FirstMatched(keys, tokens);
    if m.Some? {
      assert Candidates(keys, tokens[m.value]) != [];
    }
  }

  /** The target is the user ID of a longest candidate of the first mention
      that has candidates (`FirstMatched` is that mention; the candidates are
      the display names matching it, by `CandidatesSpec` and `NameKeysSpec`). */
  lemma MentionTargetChoice(people: seq<(string, string)>, text: string)
    ensures var keys := NameKeys(Nicknames(people)); var tokens := AtTokens(text);
      MentionTarget(people, text).Some? ==>
        FirstMatched(keys, tokens).Some? &&
        var cs := Candidates(keys, tokens[FirstMatched(keys, tokens).value]);
        exists best :: best in cs && (forall i :: 0 <= i < |cs| ==> |cs[i]| <= |best|) &&
          best in NameToId(people) && MentionTarget(people, text) == Some(NameToId(people)[best])
  {
    var keys := NameKeys(Nicknames(people));
    var tokens := AtTokens(text);
    var m := FirstMatched(keys, tokens);
    if m.Some? {
      var cs := Candidates(keys, tokens[m.value]);
      var best := Longest(cs);
      CandidateIsName(people, tokens[m.value], best);
      assert MentionTarget(people, text) == Some(NameToId(people)[best]);
    }
  }

  /** A comment without '@' gets no target. */
  lemma NoAtNoTarget(people: seq<(string, string)>, text: string)
    requires '@' !in text
    ensures MentionTarget(people, text).None?
  {
    NoAtNoTokens(text);
  }

  /** The inner loop for one comment: the first mention with candidates
      sets the target, and the loop stops. */
  method MentionTargetOf(people: seq<(string, string)>, keys: seq<string>, nameToId: map<string, string>, text: string)
    returns (target: Option<string>)
    requires keys == NameKeys(Nicknames(people)) && nameToId == NameToId(people)
    ensures target == MentionTarget(people, text)
  {
    var tokens := AtTokens(text);
    target := None;
    for t := 0 to |tokens|
      invariant forall j :: 0 <= j < t ==> Candidates(keys, tokens[j]) == []
    {
      var matched := Candidates(keys, tokens[t]);
      if matched != [] {
        var best := Longest(matched);
        CandidateIsName(people, tokens[t], best);
        assert FirstMatched(keys, tokens) == Some(t);
        return Some(nameToId[best]);
      }
    }
    assert FirstMatched(keys, tokens).None?;
  }

  /** The mention loop over the rows: `targets[i]` is the reply target of
      row `i`, and `found` is `reply_relation_found`. */
  method InferMentionTargets(people: seq<(string, string)>, texts: seq<string>)
    returns (targets: seq<Option<string>>, found: bool)
    ensures |targets| == |texts|
    ensures forall i :: 0 <= i < |texts| ==> targets[i] == MentionTarget(people, texts[i])
    ensures found <==> exists i :: 0 <= i < |targets| && targets[i].Some?
  {
    var nameToId := NameToId(people);
    var keys := NameKeys(Nicknames(people));
    targets := [];
    found := false;
    for i := 0 to |texts|
      invariant targets == Targets(people, texts[..i])
      invariant found == SomeTarget(targets)
    {
      var target := MentionTargetOf(people, keys, nameToId, texts[i]);
      TargetsSnoc(people, texts, i);
      SomeTargetSnoc(targets, target);
      targets := targets + [target];
      if target.Some? {
        found := true;
      }
    }
  }

  /** The target of every row. */
  function Targets(people: seq<(string, string)>, texts: seq<string>): (r: seq<Option<string>>)
    ensures |r| == |texts|
  {
    seq(|texts|, i requires 0 <= i < |texts| => MentionTarget(people, texts[i]))
  }

  lemma TargetsSnoc(people: seq<(string, string)>, texts: seq<string>, i: nat)
    requires i < |texts|
    ensures Targets(people, texts[..i + 1]) == Targets(people, texts[..i]) + [MentionTarget(people, texts[i])]
  {
  }

  /** Some row has a target. */
  predicate SomeTarget(targets: seq<Option<string>>) {
    exists r :: 0 <= r < |targets| && targets[r].Some?
  }

  lemma SomeTargetSnoc(targets: seq<Option<string>>, target: Option<string>)
    ensures SomeTarget(targets + [target]) <==> SomeTarget(targets) || target.Some?
  {
    var all := targets + [target];
    if SomeTarget(targets) {
      var r :| 0 <= r < |targets| && targets[r].Some?;
      assert all[r] == targets[r];
    }
    if target.Some? {
      assert all[|targets|] == target;
    }
  }
}
