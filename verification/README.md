# Travel agent, work-item analysis and trending scraper, in Dafny

This project models the logic at the centre of three Python programs in one
repository, and proves properties of the model.

- **The travel agent** (`travel_agent/core/parser.py`, `travel_agent/core/agent.py`)
  runs a tool-calling loop driven by a language model. Each turn it:
  - sends the conversation history, one entry per line, to the model;
  - cuts the answer down to its first `Thought: … Action: …` block and records it;
  - reads the thought and the action out of that block.

  The turn then ends in one of five ways:
  - there is no action, so the loop stops;
  - the action is `finish(...)`, so the answer is returned;
  - the action is malformed, so `ValueError` escapes;
  - the action calls an unknown tool, so an error observation is recorded;
  - the action calls a known tool, so the tool's result is recorded as the observation.

  The loop gives up after `max_iterations` calls.

  The regular expressions of the parser are written out as explicit scans:
  - `SegmentEnd` is the lazy group;
  - `CallShape` is the `name(...)` match;
  - `FindAllFrom` is `re.findall`;
  - `FirstBlock` is the truncation pattern.
- **The Azure DevOps work-item analysis** (`automation.py`):
  - how an assignee and a team are normalised from a CSV row;
  - `analyze_work_items`, the single pass over the items that fills the counters, the story-point tallies, the open and closed lists, the resolution times, the largest items and the newest and oldest open items;
  - `get_story_points_rankings`.

  A `Counter` or a `defaultdict(float)` is a list of key/value pairs in insertion order, because Python dicts keep that order and the rankings sort them stably.
- **The GitHub trending scraper** (`worm-1.py`):
  - `is_popular`;
  - `_build_url`;
  - reading the star, fork and stars-today counts from the muted links of one entry;
  - skipping entries that fail to parse;
  - `sort_repos`, whose stable descending sort is shared with the work-item code.

Modules:
- `Wrappers`: `Option` and `Result`.
- `Text`: Python string operations such as `strip`, `split`, `replace`, slicing, `int` and `str`.
- `StableSort`: `sorted(..., reverse=True)`.
- `Tally`: insertion-ordered dicts.
- `Parser`, `Agent`, `WorkItems`, `Resolution`, `Rankings` and `Trending`: one each for the parts of the programs listed above.

## Model

| member | source | states |
|---|---|---|
| Text.Strip | travel_agent/core/parser.py:13 | `strip()` leaves text with no whitespace at either end, never longer, and empty exactly when the input is all whitespace; it is the input with only whitespace removed in front and behind |
| Text.StripTrimmed | travel_agent/core/parser.py:13 | stripping text that has no whitespace at either end leaves it unchanged |
| Text.Split | automation.py:68 | `split` on one character always gives at least one piece, and no piece contains the separator |
| Text.SplitJoin | automation.py:68 | round trip: joining the pieces of `split(c)` with `c` gives the text back |
| Text.LastSegment | automation.py:68-69 | the last piece of `split('\\')` is the text after the last separator |
| Text.FirstToken | worm-1.py:156-158 | `split()[0]` is a non-empty run of non-space characters; there is none exactly when the text is all whitespace; it is the first word: only whitespace comes before it, and whitespace or the end after it |
| Text.DecimalRoundTrip | worm-1.py:159 | `int(str(n)) == n` for every natural number |
| Text.PyPrefix | automation.py:228 | the slice `[:n]` is a prefix of the list of length `n`, or the whole list when it is shorter; a negative `n` drops that many from the end |
| Parser.LabelledSpan | travel_agent/core/parser.py:10-11 | the lazy group after a label: absent exactly when the label is absent; the search matches at the first occurrence of the label, the group starts past the whitespace that follows it, on a non-space character, and ends at the first position where the lookahead holds |
| Parser.SpanShape | travel_agent/core/parser.py:10-11 | the lazy group never ends in whitespace and never contains the other label |
| Parser.Capture | travel_agent/core/parser.py:10-14 | a field is `None` exactly when its label is missing; otherwise it is exactly the lazy group of the match at the first occurrence of the label, a trimmed piece of the output that does not contain the other label |
| Parser.ParseLlmOutput | travel_agent/core/parser.py:8-16 | thought and action are `None` exactly when their label is missing; otherwise each is exactly the lazy group after the first occurrence of its label, ending before the other label; each is trimmed and occurs in the output |
| Parser.FormattedThought | travel_agent/core/parser.py:10-13 | in `Thought: t\nAction: a`, the thought field is `t` |
| Parser.FormattedAction | travel_agent/core/parser.py:11-14 | in `Thought: t\nAction: a`, the action field is `a` |
| Parser.ParseFormattedStep | travel_agent/core/parser.py:8-16 | round trip: parsing a step written in the prompted format gives back its thought and its action |
| Parser.CallShape | travel_agent/core/parser.py:24-25 | `(\w+)\((.*)\)` under `re.match`: a leading word, `(`, and the last `)` before the first line break, with no `)` between it and the line break; it fails exactly when one of these is missing |
| Parser.PairAt | travel_agent/core/parser.py:34 | one match of `(\w+)="([^"]*)"` gives a word key and a value without quotes; the text at the position is exactly `key="value"`, and the match ends right after it |
| Parser.FindAllFrom | travel_agent/core/parser.py:34 | every pair `findall` returns has a word key and a value without quotes, and occurs written as `key="value"` in the text |
| Parser.LastValue | travel_agent/core/parser.py:35-36 | the value of a key is the one given last for it; there is none exactly when the key never occurs |
| Parser.ToMap | travel_agent/core/parser.py:32-36 | the dict filled from the pairs has exactly the keys that occur, each with its last value |
| Parser.FinishSlice | travel_agent/core/parser.py:22 | the slice `[7:-1]` of a text starting with `finish` drops 7 characters in front and one at the end, and is empty for texts shorter than 8 |
| Parser.ArgsMap | travel_agent/core/parser.py:32-36 | the keyword arguments of a call body have word keys and values without quotes, and each occurs written as `key="value"` in the body |
| Parser.ParseAction | travel_agent/core/parser.py:19-38 | `finish...` gives the tool `finish` with the single argument `answer` set to the `[7:-1]` slice; any other text fails exactly when it lacks the call shape, with the `invalid action format` message; a success names the word before `(` as the tool, has no arguments for an empty body, and takes each argument from a `key="value"` written between the parentheses |
| Parser.PairAtFormatted | travel_agent/core/parser.py:34 | one attempt at a written `key="value"` matches exactly that pair |
| Parser.FindAllFormatted | travel_agent/core/parser.py:34-36 | `findall` over arguments written as `k1="v1", k2="v2"` returns exactly those pairs, in order |
| Parser.CallShapeFormatted | travel_agent/core/parser.py:24-29 | `name(body)` with a one-line body matches with the name as group 1 and the body as group 2 |
| Parser.ParseActionRoundTrip | travel_agent/core/parser.py:19-38 | round trip: a call written as `name(k="v", ...)`, with a name not starting with `finish`, parses back to its name and its arguments (last value per key) |
| Parser.BlockEnd | travel_agent/core/parser.py:42-46 | the lazy end of the block is the first position where a line break, whitespace and a label follow, or the end of the text |
| Parser.FirstBlock | travel_agent/core/parser.py:42-46 | the match starts at the first `Thought:`, takes the first `Action:` after it, and ends at the first boundary after that |
| Parser.NoBlockIff | travel_agent/core/parser.py:42-47 | the block pattern fails exactly when no `Thought:` is followed by an `Action:` |
| Parser.TruncateMultipleActions | travel_agent/core/parser.py:41-51 | the result differs from the input exactly when there is a first block whose stripped text differs from the stripped input, and then it is that stripped block: a trimmed piece of the input that begins with `Thought:` and contains `Action:` |
| Parser.BlockCut | travel_agent/core/parser.py:47-50 | a first block whose stripped text differs from the stripped response is a proper, trimmed piece of it that begins with `Thought:` and contains `Action:` |
| Parser.TruncatedBlockIsWhole | travel_agent/core/parser.py:42-48 | a stripped block that was cut out is, on its own, a single block that runs to its end |
| Parser.TruncateIdempotent | travel_agent/core/parser.py:41-51 | truncating twice is the same as truncating once |
| Parser.TwoStepBlock | travel_agent/core/parser.py:42-46 | with a second `Thought:` on the next line, the first block ends at that line break |
| Parser.TruncateAtBlock | travel_agent/core/parser.py:47-50 | when non-space text follows the first block, wherever the block starts, truncation returns the stripped block |
| Parser.TruncateKeepsFirstStep | travel_agent/core/parser.py:41-51 | a response with two steps is cut to the first step |
| Agent.Join | travel_agent/core/agent.py:20-21 | `"\n".join` of no entries is empty; otherwise its length is the sum of the entry lengths plus one break between each two |
| Agent.JoinLength | travel_agent/core/agent.py:21 | the prompt is as long as the entries plus one line break between each two |
| Agent.JoinEntryAt | travel_agent/core/agent.py:21 | every entry appears in the prompt at its offset |
| Agent.JoinBreakAfter | travel_agent/core/agent.py:21 | every entry but the last is followed by a line break |
| Agent.GetFullPrompt | travel_agent/core/agent.py:20-21 | the prompt lays out the history: each entry at its offset, a line break after every entry but the last, and nothing else (`Agent.LaidOutUnique`) |
| Agent.JoinLayout | travel_agent/core/agent.py:21 | `"\n".join` of the entries has that layout |
| Agent.LaidOutUnique | travel_agent/core/agent.py:20-21 | the layout fixes the text: two texts with the layout of the same entries are equal, so the prompt is exactly `"\n".join` of the history |
| Agent.AddToHistory | travel_agent/core/agent.py:17-18 | the entry goes at the end, the earlier entries are unchanged, and the prompt grows by a break and the entry |
| Agent.Reset | travel_agent/core/agent.py:74-76 | the history and the prompt become empty, and the configuration is kept |
| Agent.Decide | travel_agent/core/agent.py:46-65 | a turn stops exactly when the action is missing or empty; it finishes exactly when the action starts with `finish`, answering the `[7:-1]` slice; it raises exactly when any other action lacks the call shape, with the parser's message |
| Agent.Loop | travel_agent/core/agent.py:30-72 | no call is made exactly when the iterations are used up, and then the result is the exhaustion message; otherwise at most `max - i` calls are made; each call adds one or two history entries |
| Agent.RunLoop | travel_agent/core/agent.py:26-72 | the imperative loop gives the outcome of the recursive loop; the history starts with the user entry; there are at most `max_iterations` calls |
| Agent.Run | travel_agent/core/agent.py:23-72 | `run` gives the outcome of the recursive loop, starts the history with the user entry, and calls the model at most `max_iterations` times |
| Agent.RunAgent | travel_agent/core/agent.py:23-72 | the functional `run`: the history starts with the user entry; no model call is made exactly when `max_iterations` is not positive, and then the result is the exhaustion message and the history is the user entry alone; otherwise at most `max_iterations` calls are made |
| Agent.LoopStep | travel_agent/core/agent.py:34-70 | one iteration records the truncated output; it then either ends with `Ending(d)` or records the observation and goes on |
| Agent.LoopExtendsHistory | travel_agent/core/agent.py:44-70 | a run only appends to the history it starts from |
| Agent.LoopExhausted | travel_agent/core/agent.py:30-72 | when every call records an observation, the run makes exactly `max - i` calls and returns the exhaustion message |
| Agent.LoopEndsEarly | travel_agent/core/agent.py:48-59 | a run that ends right after recording an output ends because that output's turn does not go on |
| Agent.LoopEndsWith | travel_agent/core/agent.py:48-59 | such a run returns what that last turn decides: the exhaustion message, the answer, or the error |
| Agent.RunIgnoresEarlierHistory | travel_agent/core/agent.py:26 | `run` resets the history first, so earlier history does not change the outcome |
| Agent.LoopSameSteps | travel_agent/core/agent.py:30-70 | the loop depends only on what the model, the truncation and the decision return |
| Agent.RunStartsWithUserInput | travel_agent/core/agent.py:26-40 | the first prompt is the user entry alone; the history starts with it; the number of calls is bounded by `max_iterations` |
| Agent.NoActionStops | travel_agent/core/agent.py:48-51 | no action: the loop breaks after recording the output and `run` returns the exhaustion message |
| Agent.FinishReturnsAnswer | travel_agent/core/agent.py:53-57 | a `finish` action returns the `[7:-1]` slice as the answer whatever tools the agent has |
| Agent.MalformedActionRaises | travel_agent/core/agent.py:59 | a malformed action raises the parser's `invalid action format` error after the output is recorded |
| Agent.UndefinedToolContinues | travel_agent/core/agent.py:61-70 | an unknown tool records `Observation: Error: tool undefined '<name>'` and the loop goes on |
| Agent.ToolResultRecorded | travel_agent/core/agent.py:61-70 | a known tool is called with the parsed keyword arguments; its result is recorded as the observation and the loop goes on |
| Agent.LoopKeepsTranscript | travel_agent/core/agent.py:42-70 | with an idempotent truncation, the history alternates between the user entry or observations and model outputs that truncation leaves alone |
| Agent.TranscriptExtend | travel_agent/core/agent.py:44-70 | a truncated output and then an observation extend such a transcript |
| Agent.RunLeavesTranscript | travel_agent/core/agent.py:42-70 | every model output in the history `run` leaves is one `truncate_multiple_actions` leaves unchanged |
| StableSort.Sort | automation.py:218 | sorting keeps the length and the multiset of the elements |
| StableSort.SortSorted | automation.py:218 | the result is in non-increasing key order (`reverse=True`) |
| StableSort.SortStable | automation.py:218 | elements with equal keys keep their input order, as Python's `sort` promises even with `reverse=True` |
| Tally.Get | automation.py:235 | a lookup finds nothing exactly when the key is absent |
| Tally.PutFacts | automation.py:152 | a dict store keeps an existing key in place and puts a new key last; it sets the key and changes no other key |
| Tally.CountFacts | automation.py:152-156 | `counter[k] += 1` puts a new key last and leaves every other key's count alone |
| Tally.CountGet | automation.py:152-156 | `counter[k] += 1` raises the count of `k` by one, counting a missing key as zero |
| Tally.CountSum | automation.py:152-156 | `counter[k] += 1` adds one to the sum of the counts |
| Tally.AddToFacts | automation.py:161-163 | `points[k] += p` puts a new key last and leaves every other key alone |
| Tally.AddToGet | automation.py:161-163 | `points[k] += p` raises the value of `k` by `p`, starting a missing key at `0.0` |
| Tally.AddToSum | automation.py:161-163 | `points[k] += p` adds `p` to the sum of the values |
| Resolution.SumIntsBounds | automation.py:213 | a sum of `n` values between `lo` and `hi` lies between `n*lo` and `n*hi` |
| Resolution.MaxOf | automation.py:214 | `max` is an element at least as large as every element |
| Resolution.MinOf | automation.py:215 | `min` is an element no larger than any element |
| Resolution.Average | automation.py:213 | the average is the number that, taken count times, gives the sum |
| Resolution.Mean | automation.py:213 | the average lies between the minimum and the maximum, and is the sum over the count (`Resolution.Average`) |
| Resolution.Stats | automation.py:212-215 | statistics exist exactly when there are resolution times; minimum and maximum are among the times and bound all of them; the average lies between them and is the sum over the count |
| WorkItems.NormalizeAssignee | automation.py:61 | a missing or empty assignee is `Unassigned`; otherwise the text before the first `<`, stripped, which contains no `<` |
| WorkItems.TeamOf | automation.py:64-71 | a missing or empty area path is `Unknown`; otherwise the last `\`-separated segment |
| WorkItems.AssigneeWithEmail | automation.py:61 | `Name <mail>` normalises to `Name` |
| WorkItems.AssigneeIdempotent | automation.py:61 | normalising a normalised assignee changes nothing, except that an empty result becomes `Unassigned` |
| WorkItems.TeamOfNested | automation.py:67-69 | the team of `prefix\team` is `team` |
| WorkItems.TeamOfPlain | automation.py:67-69 | an area path without `\` is its own team |
| WorkItems.ShortTitle | automation.py:193 | a title of at most 50 characters is kept as it is; a longer one becomes its first 50 characters followed by `...`, 53 in all |
| WorkItems.NoPointsWhereAbsent | automation.py:158-163 | a key no item has carries no points |
| WorkItems.CountBy | automation.py:152-156 | a counter has each key once |
| WorkItems.CountByTotal | automation.py:152-156 | the counts add up to the number of items |
| WorkItems.CountByGet | automation.py:152-156 | each key holds the number of items with that key; keys no item has are absent |
| WorkItems.PointsBy | automation.py:161-163 | a story-point tally has each key once |
| WorkItems.PointsByTotal | automation.py:160-163 | the values of a story-point tally add up to the story-point total |
| WorkItems.PointsByGet | automation.py:161-163 | each key holds the points of the items with that key; a missing key stands for `0.0` |
| WorkItems.SameKeys | automation.py:152-163 | a story-point tally and the counter over the same field have the same keys in the same order |
| WorkItems.OpenItems | automation.py:166-167 | the open list holds exactly the items whose lowercased state is open |
| WorkItems.ClosedItems | automation.py:168-169 | the closed list holds exactly the items that are not open and whose lowercased state is closed |
| WorkItems.ResolutionTimes | automation.py:168-173 | the resolution times are exactly the known resolution days of closed items |
| WorkItems.StoryEntries | automation.py:176-185 | the story entries are exactly those of the items with positive story points |
| WorkItems.OpenItemsAppend | automation.py:165-167 | the open list of a concatenation is the open lists of its parts, one after the other, so items keep their order |
| WorkItems.ClosedItemsAppend | automation.py:168-169 | the closed list of a concatenation is the closed lists of its parts, one after the other |
| WorkItems.ResolutionTimesAppend | automation.py:168-173 | the resolution times of a concatenation are those of its parts, one after the other |
| WorkItems.StoryEntriesAppend | automation.py:175-185 | the story entries of a concatenation are those of its parts, one after the other |
| WorkItems.FiltersOne | automation.py:165-185 | one item gives itself, its resolution days or its entry exactly when it passes the test, and nothing otherwise |
| WorkItems.OpenItemsCount | automation.py:165-167 | an open item is listed as often as it occurs, any other item never |
| WorkItems.ClosedItemsCount | automation.py:168-169 | a closed item is listed as often as it occurs, any other item never |
| WorkItems.Newest | automation.py:188-196 | there is no newest item exactly when no item has a date; otherwise it is an item with a date no earlier than any other |
| WorkItems.OldestOpen | automation.py:198-209 | there is no oldest open item exactly when no open item has a date; otherwise it is an open item with a date no later than any other open item |
| WorkItems.NewestIsFirst | automation.py:188-196 | among items with the latest date, the first is reported: every dated item before it is strictly older |
| WorkItems.OldestOpenIsFirst | automation.py:198-209 | among open items with the earliest date, the first is reported: every dated open item before it is strictly newer |
| WorkItems.AnalyzeWorkItems | automation.py:126-220 | no items give the empty analysis; the open and closed lists are disjoint; every item is open, closed, or neither |
| WorkItems.Visit | automation.py:150-209 | one iteration of the loop keeps every counter and tally free of repeated keys |
| WorkItems.CollectCounts | automation.py:150-156 | the five counters the loop fills are the counts over the whole list |
| WorkItems.CollectPoints | automation.py:158-163 | the total and the three tallies the loop fills are those of the whole list |
| WorkItems.CollectOpen | automation.py:165-167 | the open list the loop appends to is that of the whole list |
| WorkItems.CollectClosed | automation.py:168-169 | the closed list the loop appends to is that of the whole list |
| WorkItems.CollectTimes | automation.py:171-173 | the resolution times the loop appends to are those of the whole list |
| WorkItems.CollectLargest | automation.py:175-185 | the largest story items the loop appends to are the entries of the whole list |
| WorkItems.CollectExtremes | automation.py:187-209 | the newest and oldest open items the loop keeps are those of the whole list |
| WorkItems.CollectFields | automation.py:150-209 | the loop computes every field from its whole-list definition |
| WorkItems.Analyze | automation.py:126-220 | the imperative loop followed by statistics and the sort gives the analysis |
| WorkItems.DistributionTotals | automation.py:132-156 | `total_items` is the number of items, and each of the five distributions adds up to it |
| WorkItems.PointsTotals | automation.py:158-163 | each story-point tally shares out exactly the story-point total |
| WorkItems.LargestItems | automation.py:175-218 | the largest items are the positive-point entries, rearranged into non-increasing order of points |
| WorkItems.LargestStable | automation.py:218 | largest items with equal points stay in item order |
| WorkItems.LargestMembers | automation.py:176-185 | an entry is among the largest items exactly when some item with positive points has it |
| WorkItems.TallyValues | automation.py:150-163 | for team, assignee and type, the counter and the tally in the analysis hold each key's item count and points, with the same keys |
| Rankings.RowOf | automation.py:235-236 | a row carries the name and points of its entry and the counter's count, zero for a missing key; the average is zero when the count is, and otherwise the average times the count is the points |
| Rankings.Rows | automation.py:233-242 | there is one row per entry, in order |
| Rankings.Rank | automation.py:232-242 | a ranking is in non-increasing order of points; with a limit it has `min(top_n, entries)` rows (a negative limit drops that many from the end), and otherwise one row per tally entry |
| Rankings.GetStoryPointsRankings | automation.py:222-270 | an empty analysis gives four empty lists; the assignee, team and largest lists have exactly `min(top_n, available)` rows; the type ranking is not cut |
| Rankings.RankPrefix | automation.py:233-234 | cutting to `n` keeps the first `n` rows of the full ranking |
| Rankings.RankListsEachEntry | automation.py:233-242 | the full ranking has a row for an entry exactly when the entry is in the tally |
| Rankings.EntryGet | automation.py:235 | an entry of a tally is what a lookup of its key finds |
| Rankings.RowsFromItems | automation.py:232-255 | each row carries the points and the number of the items with its name; that number is at least one, and the average times it is the points |
| Rankings.RankingsOfItems | automation.py:222-270 | rankings of the analysed items are the cut full rankings of the items' tallies; largest items are the first `top_n` of the sorted entries |
| Trending.IsPopular | worm-1.py:36-44 | popular exactly when there are more than 10000 stars, or a stars-today count above 500 |
| Trending.PopularMonotone | worm-1.py:36-44 | more stars, and more stars today, keep a repository popular |
| Trending.BuildUrl | worm-1.py:86-92 | every address starts with the trending base address |
| Trending.UrlRoundTrip | worm-1.py:86-92 | the address determines the language and the period, for a language without `?` |
| Trending.StarsFromText | worm-1.py:153-161 | a star count is never negative; it is an error exactly when no digit is left after commas are dropped and `k` becomes `000`; its value is given by `Trending.StarsSeparated` (commas are ignored), `Trending.StarsRoundTrip`, `Trending.StarsThousands` and `Trending.StarsDecimalPoint` |
| Trending.TodayFromText | worm-1.py:154-159 | a text without a token keeps the earlier stars-today value; otherwise there is a count exactly when the first word without commas is a non-empty digit string, and the count is that number |
| Trending.ForksFromText | worm-1.py:162-164 | a text that is empty once commas are dropped gives zero forks; otherwise it is an error exactly when no digit is left, and the count is the number the digits form |
| Trending.VisitLink | worm-1.py:149-164 | a stars link whose text says `stars today` sets only the stars-today count; another stars link sets the stars or fails as the star text does; a fork link sets the forks or fails as the fork text does; any other link changes nothing; a failure is `int`'s error |
| Trending.NoCountLinks | worm-1.py:144-164 | with no star or fork links, the counts stay at zero and no stars-today count |
| Trending.ExtractCounts | worm-1.py:149-164 | the loop over the muted links gives non-negative star and fork counts and a non-negative stars-today count; its only failure is `int`'s error |
| Trending.ExtractCountsOk | worm-1.py:149-164 | the loop fails exactly when some stars link (without `stars today`) or fork link has a text from which no number can be read |
| Trending.ExtractedStars | worm-1.py:151-161 | the stars are those of the last stars link without `stars today`, read from its text, or 0 when there is none |
| Trending.ExtractedForks | worm-1.py:162-164 | the forks are those of the last fork link, read from its text, or 0 when there is none |
| Trending.ExtractedToday | worm-1.py:151-159 | the stars-today count is the one read from the last stars link saying `stars today`, or none when there is no such link |
| Trending.TodayIgnoresPrevious | worm-1.py:154-159 | a text saying `stars today` sets the count whatever it was before |
| Trending.StarsRoundTrip | worm-1.py:153-161 | round trip: a count written in decimal is read back |
| Trending.StarsSeparated | worm-1.py:152-153 | thousands separators are ignored: a text of digits and commas reads as the number its digits form once the commas are dropped |
| Trending.StarsOneComma | worm-1.py:152-153 | `1,234` reads as 1234 |
| Trending.StarsThousands | worm-1.py:153-161 | `nk` reads as `n * 1000` |
| Trending.StarsDecimalPoint | worm-1.py:153-161 | a decimal point is ignored: `a.bk` reads as the digits `ab` times 1000 |
| Trending.StarsOnePointTwoK | worm-1.py:153-161 | `1.2k` reads as 12000 |
| Trending.TodayRoundTrip | worm-1.py:154-159 | `n stars today` gives `n` |
| Trending.ForksRoundTrip | worm-1.py:162-164 | round trip: a fork count written in decimal is read back |
| Trending.DigitsValueZeros | worm-1.py:153 | three zeros after the digits multiply the value by 1000 |
| Trending.ParseEntry | worm-1.py:122-181 | an entry gives a repository exactly when it has a title link with an `href` and its counts parse; the name is the title text without spaces, the address is `https://github.com` followed by the `href`, the description and language are the entry's, and the stars, forks and stars today are those of the count loop (`Trending.ExtractedStars`, `Trending.ExtractedForks`, `Trending.ExtractedToday`) |
| Trending.ThreeLinks | worm-1.py:149-164 | a stars link, a fork link and a stars-today link, in that order, give the counts read from their three texts |
| Trending.ParseEntryExample | worm-1.py:122-175 | an entry titled `a / b` with counts `1,234`, `56` and `12 stars today` gives `a/b` at `https://github.com/a/b` with 1234 stars, 56 forks and 12 stars today |
| Trending.ParseRepos | worm-1.py:110-183 | a repository is in the result exactly when some entry parses to it; entries that fail are skipped, so there are never more repositories than entries |
| Trending.ParseReposAppend | worm-1.py:110-183 | entries are parsed one by one: the repositories of a concatenation of entries are those of its parts, one after the other |
| Trending.ParseReposOne | worm-1.py:122-181 | one entry gives its repository, or nothing when it fails to parse |
| Trending.WithToday | worm-1.py:194 | the filter keeps exactly the repositories with a stars-today count, without adding any |
| Trending.WithTodayAppend | worm-1.py:194 | the filter keeps the repositories in order: the result of a concatenation is the results of its parts, one after the other |
| Trending.WithTodayCount | worm-1.py:194 | a repository with a stars-today count is kept as often as it occurs, any other never |
| Trending.SortRepos | worm-1.py:185-197 | an unrecognised order returns the list as it is; otherwise the result is in non-increasing order of the chosen count and rearranges the list, or for stars today the repositories that have that count |
| Trending.SortReposOrdered | worm-1.py:185-195 | sorting by stars, forks or stars today gives non-increasing order and a permutation of the kept repositories, and keeps equal counts in input order |
| Trending.SortReposMembers | worm-1.py:185-197 | sorting by stars today keeps exactly the repositories with that count; the other orders keep every repository |

## Left out

- HTTP, HTML and files:
  - The page fetch (`fetch_page`, `httpx`, `asyncio`) and the BeautifulSoup search are not modelled. An entry of the page is given as a `RepoEntry`: its title link, description, language and muted links. The `if not html` guard is part of that abstraction.
  - `save_to_json`, `generate_report`, CSV reading and `parse_date` are not modelled: they are I/O and formatting. A work item is given with its fields already parsed.
- Clocks, printing and logging:
  - `datetime.now()` is the parameter `now`. Dates are whole seconds, and an age in days is the floor of the difference divided by 86400, as `timedelta.days` gives.
  - `print` and `logging` calls are left out: they do not change any result.
- The language model and the tools:
  - The model is a function of the call number and the request, so the transport is abstracted away.
  - A tool is a total function from keyword arguments to its observation. A tool that raises, or a `**kwargs` call whose argument names do not fit the tool, is not modelled.
  - `config/prompt.py` is not part of this model. The system prompt is a field of the agent.
- Number formats:
  - Floats are modelled as exact reals, so rounding in sums and averages is not modelled.
  - `str.isdigit`, `str.lower` and `\w` are restricted to ASCII. Python accepts more characters, for example superscript digits for `isdigit`.
- Trending.IsPopular: the source's `ts and ts > 500` is stated as `ts > 500`, because a zero count is falsy and fails the comparison anyway.
- Parser.FindAllFrom: states the shape of each match. It does not state, for every text, that no other match exists. Exact recovery is proved for arguments written in the prompted format (`Parser.FindAllFormatted`).
- Parser.ArgsMap: states that every argument is written in the body. It does not state, for every body, that every written `key="value"` becomes an argument, for the reason given for `Parser.FindAllFrom`.
- Parser.ParseAction: follows the code for `finish`, not what the code evidently means to do. For `finish(answer="Paris is great")` the evident intent is the answer `Paris is great`. The code slices `[7:-1]`, which gives `answer="Paris is great"`, and the model follows the code (`Parser.FinishSlice`, `Agent.FinishReturnsAnswer`).
- WorkItems.AnalyzeWorkItems: the model returns `None` for an empty list, where the source returns `{}`. `Rankings.GetStoryPointsRankings` treats `None` as the source treats `{}`.
- The `__init__` of the scraper and of the agent, the enum values, and the dataclass constructors are plain datatype values.
