/** The bucketings of the user portraits: comments by hour of day into four
    periods, users by their number of comments into three interaction
    levels, and comments by the first province their region names. */
module Buckets {
  import opened Wrappers
  import opened PyStr

  // ---------------------------------------------------------------------------
  // Hours of the day

  /** `hour_groups`: each period's name and its hours `range(lo, hi)`. */
  const HourGroups: seq<(string, int, int)> := [
    ("深夜 (0-5点)", 0, 6),
    ("早晨 (6-9点)", 6, 10),
    ("工作时间 (10-17点)", 10, 18),
    ("晚间 (18-23点)", 18, 24)
  ]

  /** `hour in list(range(lo, hi))`. */
  predicate InGroup(hour: int, group: (string, int, int)) {
    group.1 <= hour < group.2
  }

  /** The four periods partition the hours of a day: each hour 0..23 lies in
      exactly one, and no other hour lies in any. */
  lemma HourGroupsPartition(hour: int)
    ensures 0 <= hour < 24 ==> exists g :: 0 <= g < |HourGroups| && InGroup(hour, HourGroups[g])
    ensures forall g, h :: (0 <= g < |HourGroups| && 0 <= h < |HourGroups| &&
      InGroup(hour, HourGroups[g]) && InGroup(hour, HourGroups[h])) ==> g == h
    ensures !(0 <= hour < 24) ==> forall g :: 0 <= g < |HourGroups| ==> !InGroup(hour, HourGroups[g])
  {
    if 0 <= hour < 6 {
      assert InGroup(hour, HourGroups[0]);
    } else if 6 <= hour < 10 {
      assert InGroup(hour, HourGroups[1]);
    } else if 10 <= hour < 18 {
      assert InGroup(hour, HourGroups[2]);
    } else if 18 <= hour < 24 {
      assert InGroup(hour, HourGroups[3]);
    }
  }

  /** The number of comments whose hour lies in a period. */
  function HourCount(hours: seq<int>, group: (string, int, int)): nat {
    if hours == [] then 0
    else HourCount(hours[..|hours| - 1], group) + (if InGroup(hours[|hours| - 1], group) then 1 else 0)
  }

  /** `time_stats`, in the order of the periods. */
  function HourStats(hours: seq<int>): (r: seq<nat>)
    ensures |r| == |HourGroups|
  {
    seq(|HourGroups|, g requires 0 <= g < |HourGroups| => HourCount(hours, HourGroups[g]))
  }

  /** Since the periods partition the day, every comment with an hour of the
      day is counted exactly once: the four counts add up to the number of
      comments. */
  lemma {:induction false} HourStatsTotal(hours: seq<int>)
    requires forall k :: 0 <= k < |hours| ==> 0 <= hours[k] < 24
    ensures HourStats(hours)[0] + HourStats(hours)[1] + HourStats(hours)[2] + HourStats(hours)[3] == |hours|
  {
    if hours != [] {
      var n := |hours| - 1;
      HourStatsTotal(hours[..n]);
    }
  }

  /** The counting loop over the hour column. */
  method CountHours(hours: seq<int>) returns (stats: seq<nat>)
    ensures stats == HourStats(hours)
  {
    stats := seq(|HourGroups|, g => 0);
    for i := 0 to |hours|
      invariant stats == HourStats(hours[..i])
    {
      var hour := hours[i];
      assert hours[..i + 1][..i] == hours[..i];
      for g := 0 to |HourGroups|
        invariant |stats| == |HourGroups|
        invariant forall k :: 0 <= k < g ==> stats[k] == HourCount(hours[..i + 1], HourGroups[k])
        invariant forall k :: g <= k < |HourGroups| ==> stats[k] == HourCount(hours[..i], HourGroups[k])
      {
        if InGroup(hour, HourGroups[g]) {
          stats := stats[g := stats[g] + 1];
        }
      }
    }
    assert hours[..|hours|] == hours;
  }

  // ---------------------------------------------------------------------------
  // Interaction levels

  /** The users of the user-ID column, the index of `value_counts()`. */
  function Users(ids: seq<string>): set<string> {
    set i | 0 <= i < |ids| :: ids[i]
  }

  /** The users with 5 or more comments, with 3 or 4, and with fewer than 3. */
  function HighUsers(ids: seq<string>): set<string> {
    set u | u in Users(ids) && multiset(ids)[u] >= 5
  }

  function MidUsers(ids: seq<string>): set<string> {
    set u | u in Users(ids) && 3 <= multiset(ids)[u] < 5
  }

  function LowUsers(ids: seq<string>): set<string> {
    set u | u in Users(ids) && multiset(ids)[u] < 3
  }

  /** `interaction_levels`: the sizes of the three levels. */
  function InteractionLevels(ids: seq<string>): (int, int, int) {
    (|HighUsers(ids)|, |MidUsers(ids)|, |LowUsers(ids)|)
  }

  /** The levels partition the users: every user is in exactly one, so the
      three sizes add up to the number of distinct users; and every user has
      at least one comment, so the low level holds the users with 1 or 2. */
  lemma InteractionLevelsPartition(ids: seq<string>)
    ensures HighUsers(ids) + MidUsers(ids) + LowUsers(ids) == Users(ids)
    ensures HighUsers(ids) * MidUsers(ids) == {} && HighUsers(ids) * LowUsers(ids) == {} &&
      MidUsers(ids) * LowUsers(ids) == {}
    ensures InteractionLevels(ids).0 + InteractionLevels(ids).1 + InteractionLevels(ids).2 == |Users(ids)|
    ensures forall u :: u in LowUsers(ids) ==> 1 <= multiset(ids)[u] <= 2
  {
    var h, m, l := HighUsers(ids), MidUsers(ids), LowUsers(ids);
    assert h + m + l == Users(ids);
    assert h * m == {} && h * l == {} && m * l == {};
    assert |h + m| == |h| + |m|;
    assert (h + m) * l == {};
    forall u | u in l ensures 1 <= multiset(ids)[u] {
      var i :| 0 <= i < |ids| && ids[i] == u;
      assert ids[i] in multiset(ids);
    }
  }

  // ---------------------------------------------------------------------------
  // Provinces

  /** The province names tried, in order. */
  const Provinces: seq<string> := [
    "北京", "上海", "广东", "江苏", "浙江", "四川", "湖北", "湖南",
    "河南", "河北", "山东", "山西", "陕西", "安徽", "福建", "江西",
    "广西", "云南", "贵州", "辽宁", "吉林", "黑龙江", "内蒙古", "新疆",
    "宁夏", "甘肃", "青海", "西藏", "天津", "重庆", "海南"
  ]

  /** The first of `names` that occurs in the region, if any. */
  function FirstProvince(area: string, names: seq<string>): (r: Option<string>)
    ensures r.Some? ==> r.value in names && Contains(area, r.value)
    ensures r.None? <==> forall k :: 0 <= k < |names| ==> !Contains(area, names[k])
  {
    if names == [] then None
    else if Contains(area, names[0]) then Some(names[0])
    else
      var r := FirstProvince(area, names[1..]);
      assert forall k :: 1 <= k < |names| ==> names[k] == names[1..][k - 1];
      r
  }

  /** A region counts for the first province it names and no later one. */
  lemma {:induction false} FirstProvinceIsFirst(area: string, names: seq<string>, k: nat)
    requires k < |names| && Contains(area, names[k])
    ensures FirstProvince(area, names).Some?
    ensures exists j :: (0 <= j <= k && names[j] == FirstProvince(area, names).value &&
      forall i :: 0 <= i < j ==> !Contains(area, names[i]))
  {
    if !Contains(area, names[0]) {
      FirstProvinceIsFirst(area, names[1..], k - 1);
      var j :| 0 <= j <= k - 1 && names[1..][j] == FirstProvince(area, names[1..]).value &&
        forall i :: 0 <= i < j ==> !Contains(area, names[1..][i]);
      assert forall i :: 1 <= i <= j ==> names[i] == names[1..][i - 1];
      assert names[j + 1] == FirstProvince(area, names).value;
    } else {
      assert names[0] == FirstProvince(area, names).value;
    }
  }

  /** The number of regions whose first province of `names` is `p`. */
  function ProvinceCount(areas: seq<string>, names: seq<string>, p: string): nat {
    if areas == [] then 0
    else
      var n := |areas| - 1;
      ProvinceCount(areas[..n], names, p) + (if FirstProvince(areas[n], names) == Some(p) then 1 else 0)
  }

  /** The counts of every province of `names` some region names first. */
  function CountMap(areas: seq<string>, names: seq<string>): map<string, nat> {
    map p | p in names && ProvinceCount(areas, names, p) > 0 :: ProvinceCount(areas, names, p)
  }

  /** `province_map`. */
  function ProvinceMap(areas: seq<string>): map<string, nat> {
    CountMap(areas, Provinces)
  }

  /** The number of regions that name one of `names`. */
  function Located(areas: seq<string>, names: seq<string>): nat {
    if areas == [] then 0
    else
      var n := |areas| - 1;
      Located(areas[..n], names) + (if FirstProvince(areas[n], names).Some? then 1 else 0)
  }

  /** The sum of the counts of the provinces `ps`. */
  function SumCounts(areas: seq<string>, names: seq<string>, ps: seq<string>): nat {
    if ps == [] then 0 else ProvinceCount(areas, names, ps[0]) + SumCounts(areas, names, ps[1..])
  }

  predicate Distinct(ps: seq<string>) {
    forall i, j :: 0 <= i < j < |ps| ==> ps[i] != ps[j]
  }

  /** The sum over distinct provinces of one region's contribution: one when
      its first province is among them, and nothing otherwise. */
  lemma {:induction false} SumOfOne(area: string, names: seq<string>, ps: seq<string>)
    requires Distinct(ps)
    ensures SumCounts([area], names, ps) ==
      if FirstProvince(area, names).Some? && FirstProvince(area, names).value in ps then 1 else 0
  {
    if ps != [] {
      assert Distinct(ps[1..]) by {
        assert forall i :: 0 <= i < |ps[1..]| ==> ps[1..][i] == ps[i + 1];
      }
      SumOfOne(area, names, ps[1..]);
      assert [area][..0] == [];
      assert ProvinceCount([area], names, ps[0]) == if FirstProvince(area, names) == Some(ps[0]) then 1 else 0;
      if FirstProvince(area, names) == Some(ps[0]) {
        assert ps[0] !in ps[1..];
      }
    }
  }

  /** Counting splits over the regions. */
  lemma {:induction false} SumCountsSnoc(areas: seq<string>, area: string, names: seq<string>, ps: seq<string>)
    ensures SumCounts(areas + [area], names, ps) == SumCounts(areas, names, ps) + SumCounts([area], names, ps)
  {
    if ps != [] {
      SumCountsSnoc(areas, area, names, ps[1..]);
      var all := areas + [area];
      assert all[..|areas|] == areas;
      assert [area][..0] == [];
      assert ProvinceCount(all, names, ps[0]) == ProvinceCount(areas, names, ps[0]) + ProvinceCount([area], names, ps[0]);
    }
  }

  lemma {:induction false} SumZero(names: seq<string>, ps: seq<string>)
    ensures SumCounts([], names, ps) == 0
  {
    if ps != [] {
      SumZero(names, ps[1..]);
    }
  }

  /** With distinct names, every region is counted for at most one of them:
      the counts add up to the number of regions that name one, never more
      than the number of regions. */
  lemma {:induction false} CountTotal(areas: seq<string>, names: seq<string>)
    requires Distinct(names)
    ensures SumCounts(areas, names, names) == Located(areas, names)
    ensures Located(areas, names) <= |areas|
  {
    if areas == [] {
      SumZero(names, names);
    } else {
      var n := |areas| - 1;
      CountTotal(areas[..n], names);
      assert areas == areas[..n] + [areas[n]];
      SumCountsSnoc(areas[..n], areas[n], names, names);
      SumOfOne(areas[n], names, names);
    }
  }

  /** The province names are distinct. */
  lemma ProvincesDistinct()
    ensures Distinct(Provinces)
  {
    ProvincesNewUpTo8();
    ProvincesNewUpTo13();
    ProvincesNewUpTo18();
    ProvincesNewUpTo22();
    ProvincesNewUpTo25();
    ProvincesNewUpTo28();
    ProvincesNewUpTo31();
    DistinctByPrefix(Provinces);
  }

  /** The first and the last character of a name; no two provinces share both. */
  function Ends(s: string): (char, char) {
    if s == [] then (' ', ' ') else (s[0], s[|s| - 1])
  }

  /** Each of the provinces 0..7 differs from all before it. */
  lemma ProvincesNewUpTo8()
    ensures forall k :: 0 <= k < 8 ==> forall j :: 0 <= j < k ==> Provinces[j] != Provinces[k]
  {
    forall k, j | 0 <= k < 8 && 0 <= j < k ensures Provinces[j] != Provinces[k] {
      assert Ends(Provinces[j]) != Ends(Provinces[k]);
    }
  }

  /** Each of the provinces 8..12 differs from all before it. */
  lemma ProvincesNewUpTo13()
    ensures forall k :: 8 <= k < 13 ==> forall j :: 0 <= j < k ==> Provinces[j] != Provinces[k]
  {
    forall k, j | 8 <= k < 13 && 0 <= j < k ensures Provinces[j] != Provinces[k] {
      assert Ends(Provinces[j]) != Ends(Provinces[k]);
    }
  }

  /** Each of the provinces 13..17 differs from all before it. */
  lemma ProvincesNewUpTo18()
    ensures forall k :: 13 <= k < 18 ==> forall j :: 0 <= j < k ==> Provinces[j] != Provinces[k]
  {
    forall k, j | 13 <= k < 18 && 0 <= j < k ensures Provinces[j] != Provinces[k] {
      assert Ends(Provinces[j]) != Ends(Provinces[k]);
    }
  }

  /** Each of the provinces 18..21 differs from all before it. */
  lemma ProvincesNewUpTo22()
    ensures forall k :: 18 <= k < 22 ==> forall j :: 0 <= j < k ==> Provinces[j] != Provinces[k]
  {
    forall k, j | 18 <= k < 22 && 0 <= j < k ensures Provinces[j] != Provinces[k] {
      assert Ends(Provinces[j]) != Ends(Provinces[k]);
    }
  }

  /** Each of the provinces 22..24 differs from all before it. */
  lemma ProvincesNewUpTo25()
    ensures forall k :: 22 <= k < 25 ==> forall j :: 0 <= j < k ==> Provinces[j] != Provinces[k]
  {
    forall k, j | 22 <= k < 25 && 0 <= j < k ensures Provinces[j] != Provinces[k] {
      assert Ends(Provinces[j]) != Ends(Provinces[k]);
    }
  }

  /** Each of the provinces 25..27 differs from all before it. */
  lemma ProvincesNewUpTo28()
    ensures forall k :: 25 <= k < 28 ==> forall j :: 0 <= j < k ==> Provinces[j] != Provinces[k]
  {
    forall k, j | 25 <= k < 28 && 0 <= j < k ensures Provinces[j] != Provinces[k] {
      assert Ends(Provinces[j]) != Ends(Provinces[k]);
    }
  }

  /** Each of the provinces 28..30 differs from all before it. */
  lemma ProvincesNewUpTo31()
    ensures forall k :: 28 <= k < 31 ==> forall j :: 0 <= j < k ==> Provinces[j] != Provinces[k]
  {
    forall k, j | 28 <= k < 31 && 0 <= j < k ensures Provinces[j] != Provinces[k] {
      assert Ends(Provinces[j]) != Ends(Provinces[k]);
    }
  }

  /** A list each of whose names differs from all before it is distinct. */
  lemma DistinctByPrefix(ps: seq<string>)
    requires forall k :: 0 <= k < |ps| ==> forall j :: 0 <= j < k ==> ps[j] != ps[k]
    ensures Distinct(ps)
  {
  }

  /** The province counts add up to the number of regions naming a province,
      at most the number of regions. */
  lemma ProvinceTotal(areas: seq<string>)
    ensures SumCounts(areas, Provinces, Provinces) == Located(areas, Provinces) <= |areas|
  {
    ProvincesDistinct();
    CountTotal(areas, Provinces);
  }

  /** Counting one more region. */
  lemma CountMapSnoc(areas: seq<string>, area: string, names: seq<string>)
    ensures CountMap(areas + [area], names) ==
      match FirstProvince(area, names)
      case None => CountMap(areas, names)
      case Some(p) => CountMap(areas, names)[p := if p in CountMap(areas, names) then CountMap(areas, names)[p] + 1 else 1]
  {
    var before, after := CountMap(areas, names), CountMap(areas + [area], names);
    forall q ensures ProvinceCount(areas + [area], names, q) ==
        ProvinceCount(areas, names, q) + (if FirstProvince(area, names) == Some(q) then 1 else 0) {
      ProvinceCountSnoc(areas, area, names, q);
    }
    match FirstProvince(area, names)
    case None =>
      assert after == before;
    case Some(p) =>
      assert after == before[p := if p in before then before[p] + 1 else 1];
  }

  lemma ProvinceCountSnoc(areas: seq<string>, area: string, names: seq<string>, p: string)
    ensures ProvinceCount(areas + [area], names, p) ==
      ProvinceCount(areas, names, p) + (if FirstProvince(area, names) == Some(p) then 1 else 0)
  {
    assert (areas + [area])[..|areas|] == areas;
  }

  /** The inner loop's step: the first province from `j` on is `names[j]`
      when the region names it, and otherwise the first one from `j + 1` on. */
  lemma FirstProvinceAt(area: string, names: seq<string>, j: nat)
    requires j < |names|
    ensures FirstProvince(area, names[j..]) ==
      if Contains(area, names[j]) then Some(names[j]) else FirstProvince(area, names[j + 1..])
  {
    assert names[j..][0] == names[j] && names[j..][1..] == names[j + 1..];
  }

  lemma FirstProvinceAtEnd(area: string, names: seq<string>)
    ensures FirstProvince(area, names[|names|..]) == None
  {
  }

  /** The region loop, with the inner loop that stops at the first of
      `names` the region contains. */
  method CountFirstNames(areas: seq<string>, names: seq<string>) returns (provinceMap: map<string, nat>)
    ensures provinceMap == CountMap(areas, names)
  {
    provinceMap := map[];
    ghost var prefix: seq<string> := [];
    for i := 0 to |areas|
      invariant prefix == areas[..i]
      invariant provinceMap == CountMap(prefix, names)
    {
      var area := areas[i];
      CountMapSnoc(prefix, area, names);
      var j := 0;
      while j < |names|
        invariant 0 <= j <= |names|
        invariant FirstProvince(area, names[j..]) == FirstProvince(area, names)
        invariant provinceMap == CountMap(prefix, names)
      {
        var province := names[j];
        FirstProvinceAt(area, names, j);
        if Contains(area, province) {
          if province in provinceMap {
            provinceMap := provinceMap[province := provinceMap[province] + 1];
          } else {
            provinceMap := provinceMap[province := 1];
          }
          break;
        }
        j := j + 1;
      }
      FirstProvinceAtEnd(area, names);
      assert areas[..i + 1] == prefix + [area];
      prefix := prefix + [area];
    }
    assert areas[..|areas|] == areas;
  }

  /** The region loop over the province list. */
  method CountProvinces(areas: seq<string>) returns (provinceMap: map<string, nat>)
    ensures provinceMap == ProvinceMap(areas)
  {
    provinceMap := CountFirstNames(areas, Provinces);
  }
}
