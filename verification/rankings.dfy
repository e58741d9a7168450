/** `get_story_points_rankings` of automation.py: the story-point tallies of
    an analysis sorted by points, cut to the first `top_n` for assignees and
    teams, each row with its item count and average. */
module Rankings {
  import opened Wrappers
  import opened Text
  import opened Tally
  import opened StableSort
  import opened WorkItems

  /** One row of a ranking. */
  datatype Ranking = Ranking(name: string, totalPoints: real, itemCount: int, avgPoints: real)

  datatype Rankings = Rankings(
    byAssignee: seq<Ranking>,
    byTeam: seq<Ranking>,
    byType: seq<Ranking>,
    largestItems: seq<StoryEntry>)

  function EntryValue(e: (string, real)): real { e.1 }

  /** `avg` is the average of `count` values that add up to `total`. */
  predicate AveragesTo(avg: real, count: int, total: real) {
    avg * count as real == total
  }

  /** The row of a tally entry: the count is looked up in the matching
      `Counter`, where a missing key counts zero, and the average is zero
      when the count is. */
  function RowOf(e: (string, real), counts: Entries<int>): (r: Ranking)
    ensures r.name == e.0 && r.totalPoints == e.1
    ensures r.itemCount == Get(counts, e.0).GetOr(0)
    ensures r.itemCount <= 0 ==> r.avgPoints == 0.0
    ensures r.itemCount > 0 ==> AveragesTo(r.avgPoints, r.itemCount, r.totalPoints)
  {
    var count := Get(counts, e.0).GetOr(0);
    Ranking(e.0, e.1, count, if count > 0 then e.1 / count as real else 0.0)
  }

  function Rows(entries: Entries<real>, counts: Entries<int>): (r: seq<Ranking>)
    ensures |r| == |entries|
    ensures forall i :: 0 <= i < |r| ==> r[i] == RowOf(entries[i], counts)
  {
    if |entries| == 0 then []
    else Rows(entries[..|entries| - 1], counts) + [RowOf(entries[|entries| - 1], counts)]
  }

  /** One ranking: the tally sorted by points, largest first, cut to the
      first `limit` entries when there is a limit. An empty tally gives no
      rows. */
  function Rank(points: Entries<real>, counts: Entries<int>, limit: Option<int>): (r: seq<Ranking>)
    ensures limit.Some? && limit.value >= 0 ==> |r| <= limit.value
    ensures limit.None? ==> |r| == |points|
    ensures limit.Some? && limit.value >= 0 ==> |r| == if limit.value <= |points| then limit.value else |points|
    ensures limit.Some? && limit.value < 0 ==> |r| == if |points| + limit.value < 0 then 0 else |points| + limit.value
    ensures forall i, j :: 0 <= i < j < |r| ==> r[i].totalPoints >= r[j].totalPoints
  {
    if |points| == 0 then []
    else
      var sorted := Sort(points, EntryValue);
      SortSorted(points, EntryValue);
      var chosen := if limit.Some? then PyPrefix(sorted, limit.value) else sorted;
      assert forall i, j :: 0 <= i < j < |chosen| ==> chosen[i].1 >= chosen[j].1 by {
        forall i, j | 0 <= i < j < |chosen|
          ensures chosen[i].1 >= chosen[j].1
        {
          assert chosen[i] == sorted[i] && chosen[j] == sorted[j];
          assert EntryValue(sorted[i]) >= EntryValue(sorted[j]);
        }
      }
      Rows(chosen, counts)
  }

  /** `get_story_points_rankings(analysis, top_n)`; the empty analysis of no
      items gives four empty lists. The ranking by type is not cut. */
  function GetStoryPointsRankings(analysis: Option<Analysis>, topN: int): (r: Rankings)
    ensures analysis.None? ==> r == Rankings([], [], [], [])
    ensures analysis.Some? ==> |r.byType| == |analysis.value.pointsByType|
    ensures topN >= 0 ==> |r.byAssignee| <= topN && |r.byTeam| <= topN && |r.largestItems| <= topN
    ensures analysis.Some? && topN >= 0 ==>
      var a := analysis.value;
      && |r.byAssignee| == (if topN <= |a.pointsByAssignee| then topN else |a.pointsByAssignee|)
      && |r.byTeam| == (if topN <= |a.pointsByTeam| then topN else |a.pointsByTeam|)
      && |r.largestItems| == (if topN <= |a.largestStoryItems| then topN else |a.largestStoryItems|)
  {
    match analysis
    case None => Rankings([], [], [], [])
    case Some(a) =>
      Rankings(
        Rank(a.pointsByAssignee, a.assigneeDistribution, Some(topN)),
        Rank(a.pointsByTeam, a.teamDistribution, Some(topN)),
        Rank(a.pointsByType, a.typeDistribution, None),
        PyPrefix(a.largestStoryItems, topN))
  }

  /** Cutting to `n` rows keeps the first `n` rows of the full ranking. */
  lemma RankPrefix(points: Entries<real>, counts: Entries<int>, n: int)
    ensures Rank(points, counts, Some(n)) == PyPrefix(Rank(points, counts, None), n)
  {
    if |points| > 0 {
      var sorted := Sort(points, EntryValue);
      var chosen := PyPrefix(sorted, n);
      var full := Rows(sorted, counts);
      var cut := Rows(chosen, counts);
      assert |PyPrefix(full, n)| == |cut|;
      forall i | 0 <= i < |cut|
        ensures cut[i] == PyPrefix(full, n)[i]
      {
        assert chosen[i] == sorted[i];
      }
    }
  }

  /** The full ranking lists each entry of the tally once: its rows are the
      entries of the tally, rearranged. */
  lemma RankListsEachEntry(points: Entries<real>, counts: Entries<int>)
    ensures var r := Rank(points, counts, None);
      forall e :: e in points <==> exists i :: 0 <= i < |r| && r[i] == RowOf(e, counts)
  {
    if |points| > 0 {
      var sorted := Sort(points, EntryValue);
      var r := Rows(sorted, counts);
      forall e
        ensures e in points <==> exists i :: 0 <= i < |r| && r[i] == RowOf(e, counts)
      {
        assert e in points <==> e in multiset(sorted);
        if e in sorted {
          var i :| 0 <= i < |sorted| && sorted[i] == e;
          assert r[i] == RowOf(e, counts);
        }
        if exists i :: 0 <= i < |r| && r[i] == RowOf(e, counts) {
          var i :| 0 <= i < |r| && r[i] == RowOf(e, counts);
          assert RowOf(sorted[i], counts) == RowOf(e, counts);
          assert sorted[i].0 == e.0 && sorted[i].1 == e.1;
          assert sorted[i] == e;
        }
      }
    }
  }

  /** An entry of a tally is what the tally gives for its key. */
  lemma EntryGet<V>(t: Entries<V>, e: (string, V))
    requires DistinctKeys(t) && e in t
    ensures Get(t, e.0) == Some(e.1)
  {
    var i :| 0 <= i < |t| && t[i] == e;
    GetAt(t, i);
  }

  /** For the analysis of a list of items, each row of a ranking by `key`
      carries the points of the items with that name and their number, which
      is at least one. */
  lemma RowsFromItems(items: seq<WorkItem>, key: WorkItem -> string, limit: Option<int>, i: nat)
    requires i < |Rank(PointsBy(items, key), CountBy(items, key), limit)|
    ensures var row := Rank(PointsBy(items, key), CountBy(items, key), limit)[i];
      && row.totalPoints == PointsWhere(items, key, row.name)
      && row.itemCount == Occurrences(items, key, row.name) >= 1
      && AveragesTo(row.avgPoints, row.itemCount, row.totalPoints)
  {
    var points, counts := PointsBy(items, key), CountBy(items, key);
    var sorted := Sort(points, EntryValue);
    var chosen := if limit.Some? then PyPrefix(sorted, limit.value) else sorted;
    assert Rank(points, counts, limit) == Rows(chosen, counts);
    var e := chosen[i];
    assert e == sorted[i];
    assert e in multiset(sorted);
    EntryGet(points, e);
    PointsByGet(items, key, e.0);
    SameKeys(items, key);
    CountByGet(items, key, e.0);
  }

  /** The rankings of an analysis of items, in terms of the items: the
      assignee and team rankings are the first `top_n` rows of the full
      rankings, whose rows carry the points and counts of their items. */
  lemma RankingsOfItems(items: seq<WorkItem>, now: int, topN: int)
    requires |items| > 0
    ensures var r := GetStoryPointsRankings(AnalyzeWorkItems(items, now), topN);
      && r.byAssignee == PyPrefix(Rank(PointsBy(items, AssigneeKey), CountBy(items, AssigneeKey), None), topN)
      && r.byTeam == PyPrefix(Rank(PointsBy(items, TeamKey), CountBy(items, TeamKey), None), topN)
      && r.byType == Rank(PointsBy(items, KindKey), CountBy(items, KindKey), None)
      && r.largestItems == PyPrefix(Sort(StoryEntries(items), EntryPoints), topN)
  {
    RankPrefix(PointsBy(items, AssigneeKey), CountBy(items, AssigneeKey), topN);
    RankPrefix(PointsBy(items, TeamKey), CountBy(items, TeamKey), topN);
  }
}
