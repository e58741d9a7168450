/** The work-item analysis of automation.py: how a CSV row's assignee and
    area path are normalised, the one-pass statistics of
    `analyze_work_items`, and the story-point rankings built from them. */
module WorkItems {
  import opened Wrappers
  import opened Text
  import opened Tally
  import opened StableSort
  import opened Resolution

  const Unassigned: string := "Unassigned"
  const UnknownTeam: string := "Unknown"
  const OpenStates: seq<string> := ["new", "active", "open", "in progress"]
  const ClosedStates: seq<string> := ["closed", "resolved", "done"]
  const TitleLimit: nat := 50
  const Ellipsis: string := "..."
  /** Dates are timestamps in seconds; `timedelta.days` rounds down to whole
      days. */
  const SecondsPerDay: int := 86400

  // ---------------------------------------------------------------------------
  // Row normalisation in `parse_csv_file`
  // ---------------------------------------------------------------------------

  /** The assignee of a row: the text before the first `<` (the e-mail part),
      stripped, or "Unassigned" when the column is missing or empty. */
  function NormalizeAssignee(raw: Option<string>): (r: string)
    ensures raw.None? || raw.value == [] ==> r == Unassigned
    ensures raw.Some? && raw.value != [] ==> r == Strip(Split(raw.value, '<')[0])
    ensures raw.Some? && raw.value != [] ==> '<' !in r && IsTrimmed(r)
  {
    if raw.None? || raw.value == [] then Unassigned
    else
      var s := raw.value;
      var name := s[..FindChar(s, '<', 0)];
      SplitFirst(s, '<');
      StripKeepsOut(name, '<');
      Strip(name)
  }

  /** The team of a row: the last `\`-separated segment of the area path, or
      "Unknown" when the path is missing or empty. */
  function TeamOf(areaPath: Option<string>): (r: string)
    ensures areaPath.None? || areaPath.value == [] ==> r == UnknownTeam
    ensures areaPath.Some? && areaPath.value != [] ==>
      var parts := Split(areaPath.value, '\\');
      r == parts[|parts| - 1]
  {
    if areaPath.None? || areaPath.value == [] then UnknownTeam
    else
      LastSegment(areaPath.value, '\\');
      AfterLast(areaPath.value, '\\')
  }

  // ---------------------------------------------------------------------------
  // Work items and what `analyze_work_items` collects about them
  // ---------------------------------------------------------------------------

  /** A parsed row. Dates are timestamps; `resolutionDays` is the whole days
      from creation to closing when both dates parsed. */
  datatype WorkItem = WorkItem(
    id: string,
    kind: string,
    title: string,
    assignedTo: string,
    state: string,
    priority: string,
    createdDate: Option<int>,
    storyPoints: real,
    team: string,
    resolutionDays: Option<int>)

  function KindKey(item: WorkItem): string { item.kind }
  function StateKey(item: WorkItem): string { item.state }
  function PriorityKey(item: WorkItem): string { item.priority }
  function TeamKey(item: WorkItem): string { item.team }
  function AssigneeKey(item: WorkItem): string { item.assignedTo }

  /** The state, lowercased, is one of the open states. */
  predicate IsOpen(item: WorkItem) {
    Lower(item.state) in OpenStates
  }

  /** The state, lowercased, is one of the closed states. */
  predicate IsClosed(item: WorkItem) {
    Lower(item.state) in ClosedStates
  }

  /** An entry of `largest_story_items`. */
  datatype StoryEntry = StoryEntry(
    id: string, title: string, storyPoints: real, kind: string, state: string,
    assignedTo: string, team: string)

  function EntryOf(item: WorkItem): StoryEntry {
    StoryEntry(item.id, item.title, item.storyPoints, item.kind, item.state, item.assignedTo, item.team)
  }

  function EntryPoints(e: StoryEntry): real { e.storyPoints }

  /** `newest_item` */
  datatype NewestItem = NewestItem(id: string, date: int, title: string, kind: string, storyPoints: real)

  /** `oldest_open_item`; `ageDays` is measured from the `now` of the
      analysis. */
  datatype OldestOpenItem = OldestOpenItem(
    id: string, date: int, title: string, ageDays: int, priority: string, storyPoints: real)

  datatype Analysis = Analysis(
    totalItems: nat,
    typeDistribution: Entries<int>,
    stateDistribution: Entries<int>,
    priorityDistribution: Entries<int>,
    teamDistribution: Entries<int>,
    assigneeDistribution: Entries<int>,
    openItems: seq<WorkItem>,
    closedItems: seq<WorkItem>,
    resolutionTimes: seq<int>,
    storyPointsTotal: real,
    pointsByTeam: Entries<real>,
    pointsByAssignee: Entries<real>,
    pointsByType: Entries<real>,
    largestStoryItems: seq<StoryEntry>,
    oldestOpenItem: Option<OldestOpenItem>,
    newestItem: Option<NewestItem>,
    resolution: Option<ResolutionStats>)

  /** Titles longer than 50 characters are cut to 50 and marked with "...". */
  function ShortTitle(title: string): (r: string)
    ensures |r| <= TitleLimit + |Ellipsis|
    ensures |title| <= TitleLimit ==> r == title
    ensures |title| > TitleLimit ==> |r| == TitleLimit + |Ellipsis| && IsPrefix(r[..TitleLimit], title) && r[TitleLimit..] == Ellipsis
  {
    if |title| > TitleLimit then title[..TitleLimit] + Ellipsis else title
  }

  /** How many items have `key` equal to `k`. */
  function Occurrences(items: seq<WorkItem>, key: WorkItem -> string, k: string): nat {
    if |items| == 0 then 0
    else Occurrences(items[..|items| - 1], key, k) + (if key(items[|items| - 1]) == k then 1 else 0)
  }

  /** The story points of the items with `key` equal to `k`. */
  function PointsWhere(items: seq<WorkItem>, key: WorkItem -> string, k: string): real {
    if |items| == 0 then 0.0
    else PointsWhere(items[..|items| - 1], key, k)
         + (if key(items[|items| - 1]) == k then items[|items| - 1].storyPoints else 0.0)
  }

  /** A key no item has carries no points. */
  lemma {:induction false} NoPointsWhereAbsent(items: seq<WorkItem>, key: WorkItem -> string, k: string)
    requires Occurrences(items, key, k) == 0
    ensures PointsWhere(items, key, k) == 0.0
  {
    if |items| > 0 {
      NoPointsWhereAbsent(items[..|items| - 1], key, k);
    }
  }

  function TotalPoints(items: seq<WorkItem>): real {
    if |items| == 0 then 0.0 else TotalPoints(items[..|items| - 1]) + items[|items| - 1].storyPoints
  }

  /** A `Counter` of `key` over the items, one `+= 1` per item. */
  function CountBy(items: seq<WorkItem>, key: WorkItem -> string): (t: Entries<int>)
    ensures DistinctKeys(t)
  {
    if |items| == 0 then []
    else Count(CountBy(items[..|items| - 1], key), key(items[|items| - 1]))
  }

  /** The counts add up to the number of items. */
  lemma {:induction false} CountByTotal(items: seq<WorkItem>, key: WorkItem -> string)
    ensures SumCounts(CountBy(items, key)) == |items|
  {
    if |items| > 0 {
      var init := items[..|items| - 1];
      CountByTotal(init, key);
      CountSum(CountBy(init, key), key(items[|items| - 1]));
    }
  }

  /** Every value of `key` seen is counted with its number of items, and
      nothing else is counted. */
  lemma {:induction false} CountByGet(items: seq<WorkItem>, key: WorkItem -> string, k: string)
    ensures Get(CountBy(items, key), k) == if Occurrences(items, key, k) == 0 then None
                                           else Some(Occurrences(items, key, k) as int)
  {
    if |items| > 0 {
      var init, last := items[..|items| - 1], items[|items| - 1];
      var t, n := CountBy(init, key), Occurrences(init, key, k);
      assert CountBy(items, key) == Count(t, key(last));
      assert Occurrences(items, key, k) == n + (if key(last) == k then 1 else 0);
      CountByGet(init, key, k);
      CountStep(t, n, key(last), k);
    }
  }

  /** One more count for `j` raises the count for `k` exactly when `j == k`. */
  lemma CountStep(t: Entries<int>, n: nat, j: string, k: string)
    requires DistinctKeys(t)
    requires Get(t, k) == if n == 0 then None else Some(n as int)
    ensures var m := n + (if j == k then 1 else 0);
      Get(Count(t, j), k) == if m == 0 then None else Some(m as int)
  {
    if j == k {
      CountGet(t, k);
    } else {
      CountFacts(t, j);
    }
  }

  /** A `defaultdict(float)` of story points by `key`, one `+=` per item. */
  function PointsBy(items: seq<WorkItem>, key: WorkItem -> string): (t: Entries<real>)
    ensures DistinctKeys(t)
  {
    if |items| == 0 then []
    else AddTo(PointsBy(items[..|items| - 1], key), key(items[|items| - 1]), items[|items| - 1].storyPoints)
  }

  /** The values of a story-point tally add up to all the points. */
  lemma {:induction false} PointsByTotal(items: seq<WorkItem>, key: WorkItem -> string)
    ensures SumPoints(PointsBy(items, key)) == TotalPoints(items)
  {
    if |items| > 0 {
      var init := items[..|items| - 1];
      PointsByTotal(init, key);
      AddToSum(PointsBy(init, key), key(items[|items| - 1]), items[|items| - 1].storyPoints);
    }
  }

  /** Every value of `key` seen holds the points of its items, and a value
      not present stands for no points. */
  lemma {:induction false} PointsByGet(items: seq<WorkItem>, key: WorkItem -> string, k: string)
    ensures Get(PointsBy(items, key), k).GetOr(0.0) == PointsWhere(items, key, k)
  {
    if |items| > 0 {
      var init, last := items[..|items| - 1], items[|items| - 1];
      PointsByGet(init, key, k);
      if key(last) == k {
        AddToGet(PointsBy(init, key), k, last.storyPoints);
      } else {
        AddToFacts(PointsBy(init, key), key(last), last.storyPoints);
      }
    }
  }

  /** The story-point tally and the `Counter` over the same key have the
      same keys in the same order. */
  lemma {:induction false} SameKeys(items: seq<WorkItem>, key: WorkItem -> string)
    ensures Keys(PointsBy(items, key)) == Keys(CountBy(items, key))
  {
    if |items| > 0 {
      var init, k := items[..|items| - 1], key(items[|items| - 1]);
      SameKeys(init, key);
      AddToFacts(PointsBy(init, key), k, items[|items| - 1].storyPoints);
      CountFacts(CountBy(init, key), k);
    }
  }

  /** The open items, in order. */
  function OpenItems(items: seq<WorkItem>): (r: seq<WorkItem>)
    ensures forall x :: x in r <==> x in items && IsOpen(x)
  {
    if |items| == 0 then []
    else
      var last := items[|items| - 1];
      assert items == items[..|items| - 1] + [last];
      OpenItems(items[..|items| - 1]) + (if IsOpen(last) then [last] else [])
  }

  /** The closed items, in order; an item is tested for closed only when it
      is not open. */
  function ClosedItems(items: seq<WorkItem>): (r: seq<WorkItem>)
    ensures forall x :: x in r <==> x in items && !IsOpen(x) && IsClosed(x)
  {
    if |items| == 0 then []
    else
      var last := items[|items| - 1];
      assert items == items[..|items| - 1] + [last];
      ClosedItems(items[..|items| - 1]) + (if !IsOpen(last) && IsClosed(last) then [last] else [])
  }

  /** The resolution days of the closed items that have them. */
  function ResolutionTimes(items: seq<WorkItem>): (r: seq<int>)
    ensures forall d :: d in r <==>
      exists x :: x in items && !IsOpen(x) && IsClosed(x) && x.resolutionDays == Some(d)
  {
    if |items| == 0 then []
    else
      var last := items[|items| - 1];
      assert items == items[..|items| - 1] + [last];
      ResolutionTimes(items[..|items| - 1])
      + (if !IsOpen(last) && IsClosed(last) && last.resolutionDays.Some? then [last.resolutionDays.value] else [])
  }

  /** The story entries of the items with positive story points, in order. */
  function StoryEntries(items: seq<WorkItem>): (r: seq<StoryEntry>)
    ensures forall e :: e in r <==> exists x :: x in items && x.storyPoints > 0.0 && e == EntryOf(x)
  {
    if |items| == 0 then []
    else
      var last := items[|items| - 1];
      assert items == items[..|items| - 1] + [last];
      StoryEntries(items[..|items| - 1]) + (if last.storyPoints > 0.0 then [EntryOf(last)] else [])
  }

  /** The filters work item by item: the result for a concatenation is the
      results for its parts, one after the other. With the one-item case
      (`FiltersOne`) this fixes their order and multiplicity. */
  lemma {:induction false} OpenItemsAppend(a: seq<WorkItem>, b: seq<WorkItem>)
    decreases |b|
    ensures OpenItems(a + b) == OpenItems(a) + OpenItems(b)
  {
    if |b| == 0 {
      assert a + b == a;
    } else {
      var init, last := b[..|b| - 1], b[|b| - 1];
      assert (a + b)[..|a + b| - 1] == a + init && (a + b)[|a + b| - 1] == last;
      var tail := if IsOpen(last) then [last] else [];
      assert OpenItems(a + b) == OpenItems(a + init) + tail;
      assert OpenItems(b) == OpenItems(init) + tail;
      OpenItemsAppend(a, init);
    }
  }

  lemma {:induction false} ClosedItemsAppend(a: seq<WorkItem>, b: seq<WorkItem>)
    decreases |b|
    ensures ClosedItems(a + b) == ClosedItems(a) + ClosedItems(b)
  {
    if |b| == 0 {
      assert a + b == a;
    } else {
      var init, last := b[..|b| - 1], b[|b| - 1];
      assert (a + b)[..|a + b| - 1] == a + init && (a + b)[|a + b| - 1] == last;
      var tail := if !IsOpen(last) && IsClosed(last) then [last] else [];
      assert ClosedItems(a + b) == ClosedItems(a + init) + tail;
      assert ClosedItems(b) == ClosedItems(init) + tail;
      ClosedItemsAppend(a, init);
    }
  }

  lemma {:induction false} ResolutionTimesAppend(a: seq<WorkItem>, b: seq<WorkItem>)
    decreases |b|
    ensures ResolutionTimes(a + b) == ResolutionTimes(a) + ResolutionTimes(b)
  {
    if |b| == 0 {
      assert a + b == a;
    } else {
      var init, last := b[..|b| - 1], b[|b| - 1];
      assert (a + b)[..|a + b| - 1] == a + init && (a + b)[|a + b| - 1] == last;
      ResolutionTimesAppend(a, init);
    }
  }

  lemma {:induction false} StoryEntriesAppend(a: seq<WorkItem>, b: seq<WorkItem>)
    decreases |b|
    ensures StoryEntries(a + b) == StoryEntries(a) + StoryEntries(b)
  {
    if |b| == 0 {
      assert a + b == a;
    } else {
      var init, last := b[..|b| - 1], b[|b| - 1];
      assert (a + b)[..|a + b| - 1] == a + init && (a + b)[|a + b| - 1] == last;
      StoryEntriesAppend(a, init);
    }
  }

  /** An open item is kept as often as it occurs; any other item not at all. */
  lemma {:induction false} OpenItemsCount(items: seq<WorkItem>, x: WorkItem)
    ensures multiset(OpenItems(items))[x] == if IsOpen(x) then multiset(items)[x] else 0
  {
    if |items| > 0 {
      var init, last := items[..|items| - 1], items[|items| - 1];
      assert items == init + [last];
      OpenItemsCount(init, x);
    }
  }

  /** A closed item is kept as often as it occurs; any other item not at all. */
  lemma {:induction false} ClosedItemsCount(items: seq<WorkItem>, x: WorkItem)
    ensures multiset(ClosedItems(items))[x] == if !IsOpen(x) && IsClosed(x) then multiset(items)[x] else 0
  {
    if |items| > 0 {
      var init, last := items[..|items| - 1], items[|items| - 1];
      assert items == init + [last];
      ClosedItemsCount(init, x);
    }
  }

  /** One item passes each filter exactly when it meets the filter's test. */
  lemma FiltersOne(x: WorkItem)
    ensures OpenItems([x]) == if IsOpen(x) then [x] else []
    ensures ClosedItems([x]) == if !IsOpen(x) && IsClosed(x) then [x] else []
    ensures ResolutionTimes([x]) ==
      if !IsOpen(x) && IsClosed(x) && x.resolutionDays.Some? then [x.resolutionDays.value] else []
    ensures StoryEntries([x]) == if x.storyPoints > 0.0 then [EntryOf(x)] else []
  {
    assert [x][..0] == [];
  }

  function NewestOf(item: WorkItem): NewestItem
    requires item.createdDate.Some?
  {
    NewestItem(item.id, item.createdDate.value, ShortTitle(item.title), item.kind, item.storyPoints)
  }

  /** The first item with the latest creation date: a later item replaces
      the current one only when it is strictly newer. */
  function Newest(items: seq<WorkItem>): (r: Option<NewestItem>)
    ensures r.None? <==> forall x :: x in items ==> x.createdDate.None?
    ensures r.Some? ==> exists x :: x in items && x.createdDate.Some? && r.value == NewestOf(x)
    ensures r.Some? ==> forall x :: x in items && x.createdDate.Some? ==> x.createdDate.value <= r.value.date
  {
    if |items| == 0 then None
    else
      var last := items[|items| - 1];
      var prev := Newest(items[..|items| - 1]);
      assert forall x :: x in items <==> x in items[..|items| - 1] || x == last by {
        assert items == items[..|items| - 1] + [last];
      }
      if last.createdDate.Some? && (prev.None? || last.createdDate.value > prev.value.date) then
        Some(NewestOf(last))
      else prev
  }

  /** Item `i` has a creation date and every dated item before it is
      strictly older. */
  predicate FirstNewestAt(items: seq<WorkItem>, i: int) {
    && 0 <= i < |items| && items[i].createdDate.Some?
    && forall j :: 0 <= j < i && items[j].createdDate.Some? ==> items[j].createdDate.value < items[i].createdDate.value
  }

  /** Among items with the same latest date, the first one is reported. */
  lemma {:induction false} NewestIsFirst(items: seq<WorkItem>)
    ensures Newest(items).Some? ==> exists i :: FirstNewestAt(items, i) && Newest(items).value == NewestOf(items[i])
  {
    if |items| > 0 {
      var n := |items| - 1;
      var last, init := items[n], items[..n];
      var prev := Newest(init);
      NewestIsFirst(init);
      if last.createdDate.Some? && (prev.None? || last.createdDate.value > prev.value.date) {
        forall j | 0 <= j < n && items[j].createdDate.Some?
          ensures items[j].createdDate.value < last.createdDate.value
        {
          assert items[j] == init[j] && init[j] in init;
        }
        assert FirstNewestAt(items, n);
        assert Newest(items) == Some(NewestOf(items[n]));
      } else if prev.Some? {
        var i :| FirstNewestAt(init, i) && prev.value == NewestOf(init[i]);
        NewestAtPrefix(items, n, i);
        assert Newest(items) == Some(NewestOf(items[i]));
      }
    }
  }

  function OldestOf(item: WorkItem, now: int): OldestOpenItem
    requires item.createdDate.Some?
  {
    var date := item.createdDate.value;
    OldestOpenItem(item.id, date, ShortTitle(item.title), (now - date) / SecondsPerDay,
                   item.priority, item.storyPoints)
  }

  /** The first open item with the earliest creation date, with its age at
      `now` in whole days. */
  function OldestOpen(items: seq<WorkItem>, now: int): (r: Option<OldestOpenItem>)
    ensures r.None? <==> forall x :: x in items && IsOpen(x) ==> x.createdDate.None?
    ensures r.Some? ==> exists x :: x in items && IsOpen(x) && x.createdDate.Some? && r.value == OldestOf(x, now)
    ensures r.Some? ==> forall x :: x in items && IsOpen(x) && x.createdDate.Some? ==>
      r.value.date <= x.createdDate.value
  {
    if |items| == 0 then None
    else
      var last := items[|items| - 1];
      var prev := OldestOpen(items[..|items| - 1], now);
      assert forall x :: x in items <==> x in items[..|items| - 1] || x == last by {
        assert items == items[..|items| - 1] + [last];
      }
      if last.createdDate.Some? && IsOpen(last) && (prev.None? || last.createdDate.value < prev.value.date) then
        Some(OldestOf(last, now))
      else prev
  }

  /** Item `i` is open with a creation date and every dated open item before
      it is strictly newer. */
  predicate FirstOldestOpenAt(items: seq<WorkItem>, i: int) {
    && 0 <= i < |items| && IsOpen(items[i]) && items[i].createdDate.Some?
    && forall j :: 0 <= j < i && IsOpen(items[j]) && items[j].createdDate.Some? ==>
      items[j].createdDate.value > items[i].createdDate.value
  }

  /** Among open items with the same earliest date, the first one is
      reported. */
  lemma {:induction false} OldestOpenIsFirst(items: seq<WorkItem>, now: int)
    ensures OldestOpen(items, now).Some? ==>
      exists i :: FirstOldestOpenAt(items, i) && OldestOpen(items, now).value == OldestOf(items[i], now)
  {
    if |items| > 0 {
      var n := |items| - 1;
      var last, init := items[n], items[..n];
      var prev := OldestOpen(init, now);
      OldestOpenIsFirst(init, now);
      if last.createdDate.Some? && IsOpen(last) && (prev.None? || last.createdDate.value < prev.value.date) {
        forall j | 0 <= j < n && IsOpen(items[j]) && items[j].createdDate.Some?
          ensures items[j].createdDate.value > last.createdDate.value
        {
          assert items[j] == init[j] && init[j] in init;
        }
        assert FirstOldestOpenAt(items, n);
        assert OldestOpen(items, now) == Some(OldestOf(items[n], now));
      } else if prev.Some? {
        var i :| FirstOldestOpenAt(init, i) && prev.value == OldestOf(init[i], now);
        OldestOpenAtPrefix(items, n, i);
        assert OldestOpen(items, now) == Some(OldestOf(items[i], now));
      }
    }
  }

  lemma NewestAtPrefix(items: seq<WorkItem>, n: nat, i: int)
    requires n <= |items| && FirstNewestAt(items[..n], i)
    ensures FirstNewestAt(items, i)
  {
    assert forall j :: 0 <= j <= i ==> items[j] == items[..n][j];
  }

  lemma OldestOpenAtPrefix(items: seq<WorkItem>, n: nat, i: int)
    requires n <= |items| && FirstOldestOpenAt(items[..n], i)
    ensures FirstOldestOpenAt(items, i)
  {
    assert forall j :: 0 <= j <= i ==> items[j] == items[..n][j];
  }

  // ---------------------------------------------------------------------------
  // `analyze_work_items`
  // ---------------------------------------------------------------------------

  /** What `analyze_work_items` returns: nothing (the empty dict) for no
      items, otherwise the statistics, with `now` the time the ages of open
      items are measured at. */
  function AnalyzeWorkItems(items: seq<WorkItem>, now: int): (r: Option<Analysis>)
    ensures r.None? <==> |items| == 0
    ensures r.Some? ==> forall x :: x in r.value.openItems ==> x !in r.value.closedItems
    ensures r.Some? ==> forall x :: x in items ==> x in r.value.openItems || x in r.value.closedItems || (!IsOpen(x) && !IsClosed(x))
  {
    if |items| == 0 then None
    else
      var times := ResolutionTimes(items);
      Some(Analysis(
        |items|,
        CountBy(items, KindKey), CountBy(items, StateKey), CountBy(items, PriorityKey),
        CountBy(items, TeamKey), CountBy(items, AssigneeKey),
        OpenItems(items), ClosedItems(items), times,
        TotalPoints(items),
        PointsBy(items, TeamKey), PointsBy(items, AssigneeKey), PointsBy(items, KindKey),
        Sort(StoryEntries(items), EntryPoints),
        OldestOpen(items, now), Newest(items), Stats(times)))
  }

  /** What the loop of `analyze_work_items` has collected so far. */
  datatype Collected = Collected(
    typeDist: Entries<int>, stateDist: Entries<int>, priorityDist: Entries<int>,
    teamDist: Entries<int>, assigneeDist: Entries<int>,
    openItems: seq<WorkItem>, closedItems: seq<WorkItem>, times: seq<int>,
    total: real,
    byTeam: Entries<real>, byAssignee: Entries<real>, byType: Entries<real>,
    largest: seq<StoryEntry>,
    oldest: Option<OldestOpenItem>, newest: Option<NewestItem>)

  /** Every counter and story-point tally has each key once. */
  predicate Valid(c: Collected) {
    && DistinctKeys(c.typeDist) && DistinctKeys(c.stateDist) && DistinctKeys(c.priorityDist)
    && DistinctKeys(c.teamDist) && DistinctKeys(c.assigneeDist)
    && DistinctKeys(c.byTeam) && DistinctKeys(c.byAssignee) && DistinctKeys(c.byType)
  }

  /** The initial dictionary of `analyze_work_items`. */
  const Start: Collected :=
    Collected([], [], [], [], [], [], [], [], 0.0, [], [], [], [], None, None)

  /** One pass of the loop body over `item`: the five counters and three
      story-point tallies, the open/closed classification, the largest
      items, and the newest and oldest open items. */
  function Visit(c: Collected, item: WorkItem, now: int): (r: Collected)
    requires Valid(c)
    ensures Valid(r)
  {
    var points := item.storyPoints;
    var open := IsOpen(item);
    var closed := !open && IsClosed(item);
    var date := item.createdDate;
    Collected(
      Count(c.typeDist, item.kind), Count(c.stateDist, item.state),
      Count(c.priorityDist, item.priority), Count(c.teamDist, item.team),
      Count(c.assigneeDist, item.assignedTo),
      if open then c.openItems + [item] else c.openItems,
      if closed then c.closedItems + [item] else c.closedItems,
      if closed && item.resolutionDays.Some? then c.times + [item.resolutionDays.value] else c.times,
      c.total + points,
      AddTo(c.byTeam, item.team, points), AddTo(c.byAssignee, item.assignedTo, points),
      AddTo(c.byType, item.kind, points),
      if points > 0.0 then c.largest + [EntryOf(item)] else c.largest,
      if date.Some? && open && (c.oldest.None? || date.value < c.oldest.value.date)
      then Some(OldestOf(item, now)) else c.oldest,
      if date.Some? && (c.newest.None? || date.value > c.newest.value.date)
      then Some(NewestOf(item)) else c.newest)
  }

  /** The loop run over `items` from the initial dictionary. */
  function Collect(items: seq<WorkItem>, now: int): (r: Collected)
    ensures Valid(r)
  {
    if |items| == 0 then Start
    else Visit(Collect(items[..|items| - 1], now), items[|items| - 1], now)
  }

  /** The five counters of the loop are the counts over the whole list. */
  lemma {:induction false} CollectCounts(items: seq<WorkItem>, now: int)
    ensures var c := Collect(items, now);
      && c.typeDist == CountBy(items, KindKey) && c.stateDist == CountBy(items, StateKey)
      && c.priorityDist == CountBy(items, PriorityKey) && c.teamDist == CountBy(items, TeamKey)
      && c.assigneeDist == CountBy(items, AssigneeKey)
  {
    if |items| > 0 {
      CollectCounts(items[..|items| - 1], now);
    }
  }

  /** The total and the three story-point tallies of the loop are those of
      the whole list. */
  lemma {:induction false} CollectPoints(items: seq<WorkItem>, now: int)
    ensures var c := Collect(items, now);
      && c.total == TotalPoints(items)
      && c.byTeam == PointsBy(items, TeamKey) && c.byAssignee == PointsBy(items, AssigneeKey)
      && c.byType == PointsBy(items, KindKey)
  {
    if |items| > 0 {
      CollectPoints(items[..|items| - 1], now);
    }
  }

  /** The open list of the loop is that of the whole list. */
  lemma {:induction false} CollectOpen(items: seq<WorkItem>, now: int)
    ensures Collect(items, now).openItems == OpenItems(items)
  {
    if |items| > 0 {
      var init, last := items[..|items| - 1], items[|items| - 1];
      CollectOpen(init, now);
      assert Collect(items, now) == Visit(Collect(init, now), last, now);
      assert OpenItems(items) == OpenItems(init) + (if IsOpen(last) then [last] else []);
    }
  }

  /** The closed list of the loop is that of the whole list. */
  lemma {:induction false} CollectClosed(items: seq<WorkItem>, now: int)
    ensures Collect(items, now).closedItems == ClosedItems(items)
  {
    if |items| > 0 {
      var init, last := items[..|items| - 1], items[|items| - 1];
      CollectClosed(init, now);
      assert Collect(items, now) == Visit(Collect(init, now), last, now);
      assert ClosedItems(items) == ClosedItems(init) + (if !IsOpen(last) && IsClosed(last) then [last] else []);
    }
  }

  /** The resolution times the loop appends to are those of the whole
      list. */
  lemma {:induction false} CollectTimes(items: seq<WorkItem>, now: int)
    ensures Collect(items, now).times == ResolutionTimes(items)
  {
    if |items| > 0 {
      var init, last := items[..|items| - 1], items[|items| - 1];
      CollectTimes(init, now);
      assert Collect(items, now) == Visit(Collect(init, now), last, now);
      assert ResolutionTimes(items) == ResolutionTimes(init)
        + (if !IsOpen(last) && IsClosed(last) && last.resolutionDays.Some? then [last.resolutionDays.value] else []);
    }
  }

  /** The largest story items the loop appends to are the entries of the
      whole list. */
  lemma {:induction false} CollectLargest(items: seq<WorkItem>, now: int)
    ensures Collect(items, now).largest == StoryEntries(items)
  {
    if |items| > 0 {
      var init, last := items[..|items| - 1], items[|items| - 1];
      CollectLargest(init, now);
      assert Collect(items, now) == Visit(Collect(init, now), last, now);
      assert StoryEntries(items) == StoryEntries(init) + (if last.storyPoints > 0.0 then [EntryOf(last)] else []);
    }
  }

  /** The newest and oldest open items the loop keeps are those of the whole
      list. */
  lemma {:induction false} CollectExtremes(items: seq<WorkItem>, now: int)
    ensures var c := Collect(items, now);
      && c.oldest == OldestOpen(items, now) && c.newest == Newest(items)
  {
    if |items| > 0 {
      CollectExtremes(items[..|items| - 1], now);
    }
  }

  /** The loop computes, field by field, the counters, tallies, lists and
      extremes defined over the whole list. */
  lemma CollectFields(items: seq<WorkItem>, now: int)
    ensures Collect(items, now) == Collected(
      CountBy(items, KindKey), CountBy(items, StateKey), CountBy(items, PriorityKey),
      CountBy(items, TeamKey), CountBy(items, AssigneeKey),
      OpenItems(items), ClosedItems(items), ResolutionTimes(items),
      TotalPoints(items),
      PointsBy(items, TeamKey), PointsBy(items, AssigneeKey), PointsBy(items, KindKey),
      StoryEntries(items), OldestOpen(items, now), Newest(items))
  {
    CollectCounts(items, now);
    CollectPoints(items, now);
    CollectOpen(items, now);
    CollectClosed(items, now);
    CollectTimes(items, now);
    CollectLargest(items, now);
    CollectExtremes(items, now);
  }

  /** The analysis assembled from what the loop collected over `n` items:
      the resolution statistics and the largest items sorted by points. */
  function Finish(n: nat, c: Collected): Analysis {
    Analysis(
      n, c.typeDist, c.stateDist, c.priorityDist, c.teamDist, c.assigneeDist,
      c.openItems, c.closedItems, c.times, c.total, c.byTeam, c.byAssignee, c.byType,
      Sort(c.largest, EntryPoints), c.oldest, c.newest, Stats(c.times))
  }

  /** `analyze_work_items`: the loop over the items in order, then the
      resolution statistics and the sort of the largest items. */
  method Analyze(items: seq<WorkItem>, now: int) returns (r: Option<Analysis>)
    ensures r == AnalyzeWorkItems(items, now)
  {
    if |items| == 0 {
      return None;
    }
    var c := Start;
    for i := 0 to |items|
      invariant c == Collect(items[..i], now)
    {
      assert items[..i + 1][..i] == items[..i];
      c := Visit(c, items[i], now);
    }
    assert items[..|items|] == items;
    CollectFields(items, now);
    r := Some(Finish(|items|, c));
  }

  // ---------------------------------------------------------------------------
  // What the analysis promises about its items
  // ---------------------------------------------------------------------------

  /** Each distribution counts every item exactly once. */
  lemma DistributionTotals(items: seq<WorkItem>, now: int)
    requires |items| > 0
    ensures var a := AnalyzeWorkItems(items, now).value;
      && a.totalItems == |items|
      && SumCounts(a.typeDistribution) == |items| && SumCounts(a.stateDistribution) == |items|
      && SumCounts(a.priorityDistribution) == |items| && SumCounts(a.teamDistribution) == |items|
      && SumCounts(a.assigneeDistribution) == |items|
  {
    CountByTotal(items, KindKey);
    CountByTotal(items, StateKey);
    CountByTotal(items, PriorityKey);
    CountByTotal(items, TeamKey);
    CountByTotal(items, AssigneeKey);
  }

  /** Each story-point tally shares out the whole story-point total. */
  lemma PointsTotals(items: seq<WorkItem>, now: int)
    requires |items| > 0
    ensures var a := AnalyzeWorkItems(items, now).value;
      && SumPoints(a.pointsByTeam) == a.storyPointsTotal
      && SumPoints(a.pointsByAssignee) == a.storyPointsTotal
      && SumPoints(a.pointsByType) == a.storyPointsTotal
  {
    PointsByTotal(items, TeamKey);
    PointsByTotal(items, AssigneeKey);
    PointsByTotal(items, KindKey);
  }

  /** The largest story items are the entries of the items with positive
      points, rearranged into non-increasing order of points. */
  lemma LargestItems(items: seq<WorkItem>, now: int)
    requires |items| > 0
    ensures var largest := AnalyzeWorkItems(items, now).value.largestStoryItems;
      SortedDesc(largest, EntryPoints) && multiset(largest) == multiset(StoryEntries(items))
  {
    var entries := StoryEntries(items);
    assert AnalyzeWorkItems(items, now).value.largestStoryItems == Sort(entries, EntryPoints);
    SortSorted(entries, EntryPoints);
  }

  /** The sort is stable: the largest story items with any one number of
      points are in the order of their items. */
  lemma LargestStable(items: seq<WorkItem>, now: int, v: real)
    requires |items| > 0
    ensures var largest := AnalyzeWorkItems(items, now).value.largestStoryItems;
      KeyFilter(largest, EntryPoints, v) == KeyFilter(StoryEntries(items), EntryPoints, v)
  {
    var entries := StoryEntries(items);
    assert AnalyzeWorkItems(items, now).value.largestStoryItems == Sort(entries, EntryPoints);
    SortStable(entries, EntryPoints, v);
  }

  /** An entry is among the largest story items exactly when some item with
      positive story points has it. */
  lemma LargestMembers(items: seq<WorkItem>, now: int, e: StoryEntry)
    requires |items| > 0
    ensures e in AnalyzeWorkItems(items, now).value.largestStoryItems <==>
      exists x :: x in items && x.storyPoints > 0.0 && e == EntryOf(x)
  {
    var entries := StoryEntries(items);
    var largest := Sort(entries, EntryPoints);
    assert AnalyzeWorkItems(items, now).value.largestStoryItems == largest;
    assert e in largest <==> e in multiset(largest);
    assert e in entries <==> e in multiset(entries);
  }

  /** Each tally holds, for every key, the count or the points of exactly the
      items with that key. */
  lemma TallyValues(items: seq<WorkItem>, now: int, key: WorkItem -> string, k: string)
    requires |items| > 0
    requires key == TeamKey || key == AssigneeKey || key == KindKey
    ensures var a := AnalyzeWorkItems(items, now).value;
      var counts := if key == TeamKey then a.teamDistribution
                    else if key == AssigneeKey then a.assigneeDistribution else a.typeDistribution;
      var points := if key == TeamKey then a.pointsByTeam
                    else if key == AssigneeKey then a.pointsByAssignee else a.pointsByType;
      && Get(counts, k).GetOr(0) == Occurrences(items, key, k)
      && Get(points, k).GetOr(0.0) == PointsWhere(items, key, k)
      && Keys(points) == Keys(counts)
  {
    CountByGet(items, key, k);
    PointsByGet(items, key, k);
    SameKeys(items, key);
  }

  // ---------------------------------------------------------------------------
  // What the row normalisation promises
  // ---------------------------------------------------------------------------

  /** A trimmed name followed by a space is stripped back to the name. */
  lemma StripSpaceAfter(name: string)
    requires IsTrimmed(name)
    ensures Strip(name + " ") == name
  {
    var s := name + " ";
    if |name| > 0 {
      assert s[0] == name[0];
      SkipSpacesIs(s, 0, 0);
      assert s[..|name|] == name;
    } else {
      assert AllSpace(s);
    }
  }

  /** `Name <mail>` is normalised to the name: the e-mail part is dropped. */
  lemma AssigneeWithEmail(name: string, email: string)
    requires IsTrimmed(name) && '<' !in name
    ensures NormalizeAssignee(Some(name + " <" + email + ">")) == name
  {
    var raw := name + " <" + email + ">";
    var n := |name| + 1;
    assert raw[n] == '<' && raw[..n] == name + " ";
    FindCharIs(raw, '<', 0, n);
    StripSpaceAfter(name);
  }

  /** Normalising a normalised assignee leaves it as it is, except that an
      assignee that came out empty becomes "Unassigned". */
  lemma AssigneeIdempotent(raw: Option<string>)
    ensures var r := NormalizeAssignee(raw);
      NormalizeAssignee(Some(r)) == if r == [] then Unassigned else r
  {
    var r := NormalizeAssignee(raw);
    if r != [] {
      AssigneeClean(r);
    }
  }

  /** A non-empty, trimmed name without `<` is its own assignee. */
  lemma AssigneeClean(name: string)
    requires name != [] && '<' !in name && IsTrimmed(name)
    ensures NormalizeAssignee(Some(name)) == name
  {
    FindCharIs(name, '<', 0, |name|);
    assert name[..|name|] == name;
    StripTrimmed(name);
  }

  /** The team is the part of the area path after its last `\`. */
  lemma TeamOfNested(prefix: string, team: string)
    requires '\\' !in team
    ensures TeamOf(Some(prefix + "\\" + team)) == team
  {
    var path := prefix + "\\" + team;
    var i := |prefix|;
    assert path[i] == '\\' && path[i + 1..] == team;
    AfterLastShift(path, '\\', i);
    AfterLastWhole(team, '\\');
  }

  /** An area path without `\` is its own team. */
  lemma TeamOfPlain(path: string)
    requires path != [] && '\\' !in path
    ensures TeamOf(Some(path)) == path
  {
    AfterLastWhole(path, '\\');
  }
}
