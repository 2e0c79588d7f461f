# OpenSecDash: a verified model of its cursors, counters and concurrency

This project models the algorithms of OpenSecDash that carry state from one run to the next, and
proves what they promise over every run. The database is modelled as maps and sequences, and a
commit as the atomic end of a step. Code that changes stored rows, fields or local variables step
by step is an imperative method or a class, proved against a specification function; the properties
of whole runs are lemmas about those functions.

| area | modules |
|---|---|
| Level 2 correlation: a persisted cycle over rule batches and ban anchors | `Level2`, `Level2Worker`, `Level2Safety`, `Level2Runs`, `Level2Evaluations` |
| Boolean search: tokenizer, linear validator, recursive-descent parser | `SearchLexer`, `SearchTokens`, `SearchParser`, `SearchGrammar`, `SearchMeaning`, `SearchText` |
| Conditional plugin settings: a bounded iteration of a non-monotone operator | `Dependencies`, `PluginSettings`, `PluginCycles` |
| Daily and monthly counters, compaction, retention, duplicate cleanup | `Rollups`, `RollupStore`, `RollupViews`, `DuplicateCleanup` |
| Trend cycle: a cursor over (metric, dimension), from stored row to stored row | `Trends`, `TrendRuns`, `TrendStored`, `TrendClock`, `TrendSkips` |
| WebSocket broadcast, MQTT export, paged download | `Broadcast`, `MqttExport`, `InsightPages` |
| Password-check admission and login backoff | `LoginAdmission`, `LoginBackoff`, `LoginBackoffRuns` |
| Log tailing, nearest partner, recording of findings | `LogTail`, `Relationships`, `Insights` |
| Shared | `Wrappers`, `Keyset`, `FiniteSets` |

`dafny verify dfyconfig.toml` checks everything.

## Where a promise holds only under a condition

* **Level 2 windows and the clock.** The completed cutoff never moves back, but a new window covers
  the bans that become visible now (at most 15 minutes after their creation) exactly when the cutoff
  is not later than now (`Level2Runs.NewWindowCoversIff`). After a clock step back behind the cutoff,
  new bans created more than 15 minutes before it are in no later window
  (`Level2Runs.BehindCutoffIsLost`). While the clock moves forward nothing is missed
  (`Level2Runs.NoBanMissed`).
* **Quoted terms side by side.** The validator accepts any token list without operators and
  parentheses, but the parser then reads only its first term: `"a""b"` filters by `a` alone. All
  tokens are consumed exactly when the list has syntax or a single token (`SearchMeaning.ConsumesAllIff`, `SearchText.FilterPlain`).
* **Cyclic setting conditions.** The bounded passes always end, but a condition graph guarantees a
  consistent answer - for every choice of condition values on it, and everything stored and posted -
  exactly when it is acyclic (`PluginCycles.SafeIffAcyclic`). One plugin whose cyclic conditions can
  never be met is still consistent.
* **Trend windows and the clock.** From a fresh install no group is evaluated twice under one window,
  whatever the sources and the data do, exactly when no day comes back after another one
  (`TrendClock.SafeDaysIff`; `TrendClock.SafeDaysFromIff` for a run that finds any row). A clock that
  only steps forward is safe (`TrendStored.NoGroupTwice`), and so is one that steps back for good;
  a concrete run whose day steps back and forward again visits a group twice
  (`TrendStored.StepBackVisitsTwice`).
* **A trend metric that is not ready** is skipped, and once a later metric has been visited, or the cycle
  is completed, it is never returned to (`TrendSkips.PassedMetricIff`, `TrendRuns.PassedForGood`). A
  completed window has had all its groups visited exactly when no tick passed a metric that it could not
  read and that had groups ahead (`TrendSkips.CompletedCoversIff`); a concrete window is completed without
  its one group (`TrendSkips.SkippedGroup`). Only a *failing* source holds the cycle back.
* **An invalid topic prefix** stops the MQTT export in front of pending insights until the setting is
  corrected (`MqttExport.StuckIff`); and an export turned on by a tick that then fails is not turned on
  (`MqttExport.ActivationStoredIff`).
* **A WebSocket client lost before its loop** - while the state is read, the connection accepted or the
  first message sent - leaves its slot subscribed; every other ending frees it
  (`Broadcast.EndStep`, `Broadcast.SlotIsFreeIff`).
* **Front-only purging** of the login backoff equals filtering exactly when no expired entry sits
  behind a live one (`LoginBackoff.FrontPurgeIff`). Recorded times that never decrease ensure it, but a
  monotonic clock does not: it is read before the lock is taken, so two threads can record out of order,
  and then a failure that has expired is counted (`LoginBackoffRuns.OutOfOrder`). A key's count is its
  history exactly when no recording leaves its expired entry behind a live one
  (`LoginBackoffRuns.CountsAreHistoryIff`).
* **Order of arrival.** The pair of two related events is recorded by whichever arrives second, against
  its own nearest event, so the two orders of arrival can record different pairs
  (`Relationships.OrderMatters`); both record this pair exactly when neither event has a nearer related
  one (`Relationships.SamePairEitherWay`).
* **A half-written log line** read at the end of a file is returned in two pieces
  (`LogTail.IntactIff`).

## Model

| member | source | states |
|---|---|---|
| Level2Safety.AcceptedIffGood | backend/app/services/insight_correlation.py:30-63 | a cycle survives being saved and validated, unchanged, if and only if its window is at least 15 minutes, its batch is at most 20 strictly ascending rules behind the rule cursor, and a used anchor cursor has a batch |
| Level2Safety.AcceptedIsGood | backend/app/services/insight_correlation.py:30-63 | every row the validation accepts, also from older versions, satisfies that invariant |
| Level2Safety.AcceptIff | backend/app/services/insight_correlation.py:30-63 | which stored rows of the three versions are resumed and as which cycle, field by field: older versions start over at the first rule or the first ban |
| Level2Worker.Worker.EvaluateBan | backend/app/services/insight_correlation.py:168-176 | the inner loop stores exactly the findings of all rules on one ban and counts the failed evaluations |
| Level2Worker.Worker.EvaluateAnchors | backend/app/services/insight_correlation.py:168-178 | both loops evaluate every (rule, ban) of the page in order and leave the cursor on its last ban |
| Level2Worker.Worker.DrainCycle | backend/app/services/insight_correlation.py:157-192 | batch completion, cursor reset, cycle completion and the written cutoff and row are those of the specification |
| Level2Worker.Worker.Tick | backend/app/services/insight_correlation.py:146-207 | a whole tick, from the stored row to the stored row, with what it processed and whether it completed; stored findings keep distinct keys |
| Level2Worker.AtMostOneFinding | backend/app/services/insight_correlation.py:89-91 | whatever pairs are evaluated, in whatever overlapping cycles, at most one finding per (rule, ban) exists and none is lost |
| Level2Safety.TickSettles | backend/app/services/insight_correlation.py:154-185 | one tick evaluates a pair at most as often as the cycle still owes it, and passes the rest on, while rules appear and vanish |
| Level2Runs.SavedRowResumes | backend/app/services/insight_correlation.py:30-63 | whatever row a tick found, the row it saves is accepted unchanged by the next tick's validation, in the same window |
| Level2Runs.CycleSettles | backend/app/services/insight_correlation.py:146-197 | over the rest of a cycle each pair is evaluated at most as often as owed, exactly as often if rule and ban are there at every tick |
| Level2Runs.EvaluatedAtMostOnce | backend/app/services/insight_correlation.py:157-161 | no (rule, ban) is evaluated twice in one cycle, whatever rules come and go between ticks |
| Level2Runs.CoveredExactlyOnce | backend/app/services/insight_correlation.py:146-197 | a rule offered throughout a cycle is evaluated exactly once on every ban of the window visible from the first tick on |
| Level2Runs.CycleLength | backend/app/services/insight_correlation.py:157-185 | with rules and bans fixed, a run completes the cycle if and only if it has ceil(n/20) * (floor(B/100) + 1) ticks, one when n = 0 |
| Level2Evaluations.TickEvaluatesBans | backend/app/services/insight_correlation.py:155-178 | whatever a tick evaluates is an available rule of kind scan_ban_chain on an event of type security.ban with a nonempty address, created inside the cycle's window |
| Level2Evaluations.CycleEvaluatesBans | backend/app/services/insight_correlation.py:146-197 | so does every tick of a cycle, over the window the cycle began with |
| Level2Evaluations.CycleEvaluatesIff | backend/app/services/insight_correlation.py:146-197 | with rules and events held fixed, a whole cycle evaluates each available chain rule once on each such ban, and nothing else |
| Level2Runs.BoundedWork | backend/app/services/insight_correlation.py:23-24 | no tick does more than 2000 evaluations |
| Level2Runs.CutoffMovesBackIff | backend/app/services/insight_correlation.py:64-79 | a tick moves the completed cutoff back if and only if it completes a stored cycle that ends before it, and no tick leaves such a cycle behind |
| Level2Runs.CutoffNeverDecreases | backend/app/services/insight_correlation.py:64-79 | over every run, also from unreadable rows and cutoffs and under a clock that steps back, a completed cutoff never decreases, unless the stored cycle ended before it |
| Level2Runs.RunChains | backend/app/services/insight_correlation.py:64-79 | over every run every resumable window starts 15 minutes before the completed cutoff and ends at or after it |
| Level2Runs.CompletedCutoff | backend/app/services/insight_correlation.py:186-192 | a completed cycle leaves no row, and the end of the window it started with as the cutoff |
| Level2Runs.NewWindowCoversIff | backend/app/services/insight_correlation.py:66-79 | a new window covers all bans that become visible at most 15 minutes late if and only if the cutoff is not ahead of that moment |
| Level2Runs.BehindCutoffIsLost | backend/app/services/insight_correlation.py:76-79 | a ban created more than 15 minutes before the cutoff is in no later window of any run |
| Level2Runs.ClockStepBackLosesBan | backend/app/services/insight_correlation.py:66-79 | a concrete cutoff at two hours and a clock at one: a ban created now is outside the window |
| Level2Runs.NoGap | backend/app/services/insight_correlation.py:64-79 | from a fresh install under a forward clock, the cycle after any completed one has every ban in its window that became visible since, at most 15 minutes late |
| Level2Runs.NoBanMissed | backend/app/services/insight_correlation.py:146-197 | a rule offered throughout that cycle is evaluated exactly once on each such ban |
| Level2Runs.BanBetweenCycles | backend/app/services/insight_correlation.py:146-197 | a concrete run: a ban that appears between two cycles is evaluated by the second |
| SearchLexer.LexOne | backend/app/services/events.py:644-676 | one round of the tokenizer: operator, parenthesis, quoted term, bare word, or an error; the index always moves on |
| SearchLexer.Tokenize | backend/app/services/events.py:639-679 | the loop computes the recursive token list, with the length, count, quote and empty-term errors |
| SearchLexer.TokensNonempty | backend/app/services/events.py:639-679 | no token is ever empty |
| SearchTokens.TokensIff | backend/app/services/events.py:639-679 | told by characters: the tokenizer returns a list if and only if the text is made of spaces, operators, parentheses, terms in single or double quotes and bare terms that end at the end, a space, a parenthesis or an operator, with these tokens, within 256 characters and 32 tokens |
| SearchTokens.TokenErrorIff | backend/app/services/events.py:639-679 | it raises for an unclosed quote, or for an empty one, if and only if such pieces lead up to it; for the count if and only if the text is all pieces with more than 32 tokens |
| SearchTokens.SpacesAre | backend/app/services/events.py:646 | the space characters are the 29 that str.isspace knows |
| SearchParser.CheckTokens | backend/app/services/events.py:682-719 | the one-pass validator with its depth counter computes the specified scan |
| SearchParser.ValidateSearchExpression | backend/app/services/events.py:682-719 | blank text is no tokens; otherwise tokenizing, the empty check and the scan, with their errors |
| SearchGrammar.ScansInfix | backend/app/services/events.py:690-719 | scanning the spelling of an infix expression returns to the same depth and is refused exactly when it nests too deep |
| SearchGrammar.ValidatorIsGrammar | backend/app/services/events.py:682-719 | a token list is accepted by the scan if and only if it spells a derivation of the infix grammar with nesting at most 4, and then it spells a layered expression |
| SearchGrammar.CheckedIffDerivable | backend/app/services/events.py:682-719 | for lists with an operator or parenthesis the validator accepts exactly the derivable ones |
| SearchMeaning.RefusedIff | backend/app/services/events.py:695-718 | a list with syntax is refused as too deep if and only if some parenthesis opens, where a term may begin, with four open; any other refusal is as invalid |
| SearchParser.Parser.Or | backend/app/services/events.py:767-779 | the or-level of the index-based parser computes the specified result and moves its position there |
| SearchParser.Parser.And | backend/app/services/events.py:781-792 | the same for the and-level |
| SearchParser.Parser.Factor | backend/app/services/events.py:794-806 | the same for terms and parentheses |
| SearchParser.BuildSearchExpression | backend/app/services/events.py:763-809 | parsing starts at position 0 and reports the or-level's expression or error |
| SearchGrammar.ParsesOr | backend/app/services/events.py:763-809 | on the spelling of an expression, in any context that ends it, the parser consumes exactly that spelling and builds its left-associated query |
| SearchMeaning.SplitOverInfix | backend/app/services/events.py:763-809 | cutting a token list at its top-level operators cuts the spelling of an expression at that expression's own operators only |
| SearchMeaning.HoldsOr | backend/app/services/events.py:763-809 | the truth of an expression is the OR of ANDs of its token list cut at its top-level or-operators, then and-operators |
| SearchMeaning.ParserIsCorrect | backend/app/services/events.py:763-809 | on every accepted list with syntax the parser raises nothing, consumes every token, and under every truth assignment its result is the OR of ANDs of the tokens |
| SearchMeaning.FilterMeansTokens | backend/app/services/events.py:908-930 | the search box's filter is true exactly when the tokens' OR of ANDs is |
| SearchMeaning.FilterRaisesIff | backend/app/services/events.py:908-930 | the filter raises exactly what the validator raises: on validated tokens the parser never does |
| SearchMeaning.ConsumesAllIff | backend/app/services/events.py:919-930 | the parser reads all tokens of a validated text if and only if it has syntax or a single token |
| SearchMeaning.ParserTolerates | backend/app/services/events.py:767-809 | on concrete lists that the validator refuses the parser accepts a missing or a leftover closing parenthesis and raises for a missing or empty term |
| SearchText.FilterPlain | backend/app/services/events.py:908-929 | a text without operators and parentheses filters by the whole trimmed text as one term, and with a quote character anywhere in it by its first token alone |
| SearchText.FilterBlank | backend/app/services/events.py:908-911 | a text of spaces alone filters nothing out |
| SearchText.QuotedPairLosesSecond | backend/app/services/events.py:919-930 | the concrete text `"a""b"` is validated as two terms and filters by the first alone |
| SearchText.StripIs | backend/app/services/events.py:909 | trimming takes the spaces at both ends and nothing else |
| SearchMeaning.StripTwice | backend/app/services/events.py:683-686 | trimming twice is trimming once, so the filter and the validator see the same text |
| SearchText.ReadsBack | backend/app/services/events.py:639-930 | however an expression is written - spaces or none, terms bare or in either quotes - searching for the text yields its tokens and filters by its left-associated query, within the limits |
| SearchText.PrintRoundTrip | backend/app/services/events.py:639-930 | so does printing it with quoted terms |
| PluginSettings.Unique | backend/app/plugins/base.py:119-131 | declared conditions without duplicates |
| PluginSettings.FirstsInOrder | backend/app/plugins/base.py:126-131 | in the order of first occurrence |
| PluginSettings.VisibleIff | backend/app/plugins/manager.py:269-300 | a declared setting is visible in a state if and only if its visible_if condition, if it has one, and all its visible_if_all conditions hold, and where it has neither and some setting is the enabled toggle, that toggle is "true" |
| PluginSettings.ConsistentIff | backend/app/plugins/manager.py:302-332 | a set of values is a consistent answer if and only if it writes exactly the posted values of the settings visible, by those fields, in the state of written, else saved, else default values |
| PluginSettings.StoredAt | backend/app/plugins/manager.py:291-297 | a setting's stored value is the saved one or else its default |
| PluginSettings.DisabledStaysUnwritten | backend/app/plugins/manager.py:269-332 | in a consistent answer that leaves the plugin disabled, no setting without a condition of its own is written, whatever is posted |
| Dependencies.LayersExhaust | backend/app/plugins/manager.py:319-323 | an acyclic dependency graph is exhausted by as many layers as it has nodes, so one pass per setting suffices |
| Dependencies.IterateUntilStable | backend/app/plugins/manager.py:324-331 | stopping early at a fixpoint gives the same state as all passes |
| PluginSettings.Form.AllForgotten | backend/app/plugins/manager.py:319-331 | over an acyclic graph, after as many passes as settings the starting state no longer matters |
| PluginSettings.Form.ReachesFixpoint | backend/app/plugins/manager.py:319-331 | and the state reached is a fixpoint of the pass |
| PluginSettings.Form.ConsistentIsUnique | backend/app/plugins/manager.py:302-332 | over an acyclic graph there is only one consistent set of written values |
| PluginSettings.WritableSettings | backend/app/plugins/manager.py:302-332 | the returned map is the posted values visible in the state after the bounded passes; over an acyclic graph it writes exactly the posted values of the settings visible, field by field, in the state it leads to |
| PluginSettings.WrittenIsTheConsistentSet | backend/app/plugins/manager.py:302-332 | over an acyclic graph a set of values is consistent if and only if it is the returned one |
| PluginSettings.CyclicFormEscapes | backend/app/plugins/manager.py:319-332 | a concrete self-dependent setting is written although the state it leads to hides it |
| PluginCycles.CycleEscapes | backend/app/plugins/manager.py:319-332 | over every cyclic graph, and for every number of passes, some form over exactly that graph is answered inconsistently |
| PluginCycles.SafeIffAcyclic | backend/app/plugins/manager.py:302-332 | the answer is consistent for all condition values, stored values and posted values over a graph if and only if the graph is acyclic |
| Rollups.CountedOnce | backend/app/services/events.py:307-329 | an event is counted exactly once under each series it belongs to and not at all under any other |
| Rollups.IngestCounts | backend/app/services/events.py:307-356 | storing an event adds to each (month, metric, key) exactly its occurrences in the event's metrics |
| Rollups.CompactionKeeps | backend/app/services/events.py:377-419 | compacting any months leaves monthly value plus daily values unchanged for every month, metric and key |
| Rollups.CompactedAdd | backend/app/services/events.py:385-419 | compacting one more month after others equals compacting them together |
| RollupStore.Store.UpdateRollups | backend/app/services/events.py:332-356 | the loop increments or creates exactly the event's daily rows |
| RollupStore.Store.StoreEvent | backend/app/services/events.py:230-237 | the event row and its counters appear together |
| RollupStore.Store.CompactMonth | backend/app/services/events.py:396-415 | one month's daily sums are added to its monthly rows and exactly those daily rows are deleted |
| RollupStore.Store.CompactCompleted | backend/app/services/events.py:377-419 | all months older than the oldest retained one are compacted, each once |
| RollupStore.Store.CleanupByRetention | backend/app/services/events.py:422-439 | nothing for a non-positive period; else compaction, then only old raw events are deleted |
| RollupStore.RetentionDeletesIff | backend/app/services/events.py:429-439 | an event stays if and only if the period is not positive, or it is not of class raw, or is no older than that many days of 86400 seconds; of what stays every copy does |
| RollupStore.RetentionKeepsOrder | backend/app/services/events.py:434-438 | and its order |
| RollupStore.RetentionCompacts | backend/app/services/events.py:431-433 | after retention no daily row is older than the oldest retained month and every younger row is as it was |
| RollupStore.RunEventsIff | backend/app/services/events.py:195-439 | over any run an event is in the table if and only if it was there or was stored and no later retention deletes it |
| RollupStore.Store.CleanupDuplicates | backend/app/services/events.py:240-304 | the surviving events, and the rebuilt counters if anything was deleted |
| RollupStore.RunConserves | backend/app/services/events.py:332-439 | over any run of ingestion in any order, compaction and retention, monthly value plus daily values equal the count ever ingested |
| RollupStore.TotalCountsEvents | backend/app/services/events.py:332-439 | over any run from empty tables a month's total is the number of events ever stored in it |
| RollupStore.CompactionSplits | backend/app/services/events.py:379-415 | after a pass no daily row is older than the oldest retained month and every younger row is as it was |
| RollupViews.CombineRollupValues | backend/app/services/rollups.py:47-53 | the combined dictionary holds, for exactly the shown keys, the sum of the rows grouped under them |
| RollupViews.ViewShowsTotals | backend/app/api/pages.py:286-311 | a month or year view shows under a key the sum of the period's counts of the stored keys grouped under it, whichever table holds them |
| RollupViews.CompactionKeepsViews | backend/app/api/pages.py:286-311 | compaction, also during retention, changes no month or year view: same keys, same values |
| DuplicateCleanup.SurvivorsAreMinima | backend/app/services/events.py:241-288 | a row survives if and only if no older row of the same plugin and type has the same raw data or, where both have none, the same eight named fields |
| DuplicateCleanup.EveryClassSurvives | backend/app/services/events.py:240-288 | every class keeps a representative with an id no larger |
| DuplicateCleanup.SecondRunIsIdle | backend/app/services/events.py:289-295 | a second run deletes nothing and leaves events and counters alone |
| DuplicateCleanup.RebuildRecounts | backend/app/services/events.py:297-304 | when anything was deleted, the daily rows equal a recount of the survivors per day, metric and key, and the monthly table is empty |
| TrendRuns.SavedRowResumesIff | backend/app/services/insight_trends.py:59-77 | a saved cycle resumes unchanged if and only if it is of today, or of an earlier day and unfinished (or is itself the new one); otherwise a new one starts |
| TrendRuns.LoadIff | backend/app/services/insight_trends.py:59-77 | which stored rows are resumed and as which cycle, field by field; any other is replaced by a new cycle for today |
| Trends.Worker.VisitPage | backend/app/services/insight_trends.py:151-175 | the loop visits the page in order and leaves the cursor on its last group |
| Trends.Worker.Tick | backend/app/services/insight_trends.py:80-189 | both metrics under the shared budget, the skip and block rules, completion and the stored row |
| TrendSkips.VisitsAreGroups | backend/app/services/insight_trends.py:128-175 | every group a tick visits has events in the cycle's window, and its own metric's source is ready, covered and not failing |
| TrendStored.RunIsLinked | backend/app/services/insight_trends.py:59-77 | over any run from any stored row each tick takes up the cycle the last one saved, or, if that row is ahead of its clock or of a finished earlier day, begins the window of its own day |
| TrendStored.NoGroupTwice | backend/app/services/insight_trends.py:59-177 | while the day never steps back, over any run from any stored row each window is begun at most once, and the groups visited under it strictly increase in (metric, dimension): none is evaluated twice |
| TrendStored.VisitsIncreaseUnder | backend/app/services/insight_trends.py:128-177 | whatever the clock does, that holds of every window that is begun only once |
| TrendStored.StepBackVisitsTwice | backend/app/services/insight_trends.py:64-77 | a concrete run whose day steps back and forward again begins one window twice and visits its group twice |
| TrendStored.AlwaysNewerIff | backend/app/services/insight_trends.py:64-77 | windows are begun in strictly increasing order if and only if no tick finds the saved row ahead of its clock |
| TrendClock.SafeDaysIff | backend/app/services/insight_trends.py:59-77 | from no stored row, every run on the given days, whatever its sources and data, visits the groups of each window in strictly increasing order, if and only if no day comes back after another one |
| TrendClock.SafeDaysFromIff | backend/app/services/insight_trends.py:59-77 | from any stored row, the same, and no run visits again what the found cycle had passed, if and only if no window comes back: the found one counts for the first day, and the days of a cycle found completed without a group do not count |
| TrendRuns.FailingBlocks | backend/app/services/insight_trends.py:133-135 | a failing metric that is not passed stops the tick before it |
| TrendStored.FailingNeverPassed | backend/app/services/insight_trends.py:133-135 | while a metric's source keeps failing, no stored run, whatever the clock does, visits or passes the metric or completes a window, from a row that has not passed it |
| TrendRuns.PassedForGood | backend/app/services/insight_trends.py:131-140 | once the second metric was visited the rest of the cycle visits no other |
| TrendSkips.PassedMetricIff | backend/app/services/insight_trends.py:131-179 | where a tick passes a metric, all its groups ahead are visited if and only if the metric is ready, covered and not failing, or has none ahead |
| TrendSkips.CompletedVisitsAllIff | backend/app/services/insight_trends.py:128-179 | a cycle that is completed on fixed data has visited all that was pending if and only if no tick passed an unreadable metric with groups ahead |
| TrendSkips.CompletedCoversIff | backend/app/services/insight_trends.py:59-180 | so over stored rows, whatever the sources do, while the day never steps back and the data is fixed: a window begun and completed has had all its groups visited, in order, if and only if no tick under it skipped one |
| TrendSkips.SkippedGroup | backend/app/services/insight_trends.py:131-140 | a concrete window whose access metric is not ready is completed by its first tick without its one group |
| TrendRuns.TickDrains | backend/app/services/insight_trends.py:147-179 | an undisturbed tick takes the next at most 100 groups and completes exactly when fewer were left |
| TrendStored.FirstWindowIsOneCycle | backend/app/services/insight_trends.py:59-77 | while no row is ahead of its clock, all a stored run does under its first window is one cycle advanced tick by tick, until it is completed and left for a newer window |
| TrendStored.CoversEveryWindow | backend/app/services/insight_trends.py:59-179 | from the tick that begins a window, with both metrics ready, the data fixed and the day never stepping back, a stored run visits the window's G groups in order, 100 a tick, all of them and each once, and has completed it if and only if it made floor(G/100) + 1 ticks |
| Broadcast.Broadcaster.Publish | backend/app/services/event_broadcaster.py:73-77 | every subscriber's slot ends with the new state, full or not: a slow client never blocks |
| Broadcast.Broadcaster.Poll | backend/app/services/event_broadcaster.py:64-71 | the first poll and an unchanged one notify nobody, a changed one everybody |
| Broadcast.Broadcaster.Start | backend/app/services/event_broadcaster.py:32-38 | starting twice polls once |
| Broadcast.PollStep | backend/app/services/event_broadcaster.py:64-77 | a poll keeps the invariant: for every open client the last of known, taken and queued state is the broadcaster's, and connecting clients miss nothing |
| Broadcast.StartStep | backend/app/services/event_broadcaster.py:32-38 | so does starting |
| Broadcast.StopStep | backend/app/services/event_broadcaster.py:40-50 | so does stopping, after which no poll loop runs |
| Broadcast.ConnectStep | backend/app/main.py:313-314 | so does a new subscriber before it has read the state |
| Broadcast.ReadStateStep | backend/app/main.py:315-319 | the initial read, or the refusal while events are disabled, loses no update since the subscription |
| Broadcast.AcceptStep | backend/app/main.py:320-327 | accepting and telling the first id, with updates queued meanwhile, loses none either |
| Broadcast.LoseStep | backend/app/main.py:314-327 | a client lost before the loop leaves its slot subscribed |
| Broadcast.TakeStep | backend/app/main.py:324-337 | a pending get that takes the queued item keeps it |
| Broadcast.HandleStep | backend/app/main.py:336-344 | the client's last seen id never decreases, what is sent strictly increases, and a disabled state closes and unsubscribes |
| Broadcast.DisconnectStep | backend/app/main.py:352-359 | a client lost inside the loop frees its slot without disturbing the others |
| Broadcast.EndStep | backend/app/main.py:314-359 | of the four ways a client can end, exactly the loss before the loop leaves its slot subscribed |
| Broadcast.SlotIsFreeIff | backend/app/main.py:314-359 | at any time a slot is free if and only if its client is closed, and a lost client never ends any other way |
| Broadcast.DrainedClientIsCurrent | backend/app/main.py:336-344 | an open client with nothing queued knows the current state and has reported at least its last event id |
| MqttExport.LevelsIff | plugins/mqtt/plugin.py:189 | the topic pattern accepts exactly the texts of topic characters and single slashes without an outer slash |
| MqttExport.PrefixIff | plugins/mqtt/plugin.py:188-190 | a text between outer slashes is a valid prefix if and only if it has 1 to 200 characters, all letters, digits, underscores, dots, hyphens or single slashes |
| MqttExport.Plugin.SyncInsightActivation | plugins/mqtt/plugin.py:165-176 | in the session the toggle is stored in both directions, and turning the export on puts the cursor at the newest insight |
| MqttExport.Plugin.OnSettingsChanged | plugins/mqtt/plugin.py:161-163 | a changed setting stores both toggle directions |
| MqttExport.Plugin.PublishInsights | plugins/mqtt/plugin.py:178-204 | with pending insights it raises if and only if the prefix is invalid or the broker does not take the batch, and else commits cursor and activation; with none it commits nothing |
| MqttExport.Plugin.RunTick | plugins/mqtt/plugin.py:206-217 | a whole tick with its session: what is not committed when publishing or a later asset export raises is rolled back |
| MqttExport.RunKeeps | plugins/mqtt/plugin.py:165-217 | over any run of inserts, toggles, successes, invalid prefixes, broker failures, failing asset exports and crashes: every insight between activation and cursor was published, nothing that existed at activation was, and the cursor never moves back |
| MqttExport.ToggleIsStored | plugins/mqtt/plugin.py:161-176 | a changed setting is stored whether on or off, and only turning on moves the cursor, to or past every insight |
| MqttExport.SentIsLogged | plugins/mqtt/plugin.py:178-204 | what the run log gains in a tick is what the broker receives in it; an activating tick sends nothing |
| MqttExport.OffAndOnForgets | plugins/mqtt/plugin.py:161-204 | over any run with the export turned off and later on again, no insight that was there or inserted before it is turned on is sent by any later step |
| MqttExport.ActivationStoredIff | plugins/mqtt/plugin.py:165-217 | a tick that activates the export keeps the activation if and only if the whole tick succeeds |
| MqttExport.ActivationIsIdle | plugins/mqtt/plugin.py:165-176 | the tick that activates publishes nothing |
| MqttExport.TicksDrain | plugins/mqtt/plugin.py:178-204 | n successful ticks under a valid prefix publish the first 100n pending insights in order |
| MqttExport.DrainsInCeil | plugins/mqtt/plugin.py:178-204 | n successful ticks drain N pending insights if and only if n is at least ceil(N/100) |
| MqttExport.PendingMovesIff | plugins/mqtt/plugin.py:178-204 | pending insights move with a tick if and only if the configured prefix is valid and the broker takes the batch; under an invalid prefix nothing is sent |
| MqttExport.StuckIff | plugins/mqtt/plugin.py:178-204 | while the export stays on, any run leaves pending insights where they are if and only if none of its ticks runs under a valid prefix with a broker that takes the batch |
| InsightPages.FirstRequestIff | backend/app/api/insights.py:61-72 | a request without a cursor is accepted if and only if its window is positive and at most 30 days and its type known; the window ends now or as asked and starts as asked or a day earlier |
| InsightPages.CursorRequestIff | backend/app/api/insights.py:47-72 | a request with a cursor is accepted if and only if it names nothing else and the cursor's id, window, position and type are in range; it goes on below the position |
| InsightPages.PageSplits | backend/app/api/insights.py:78-94 | a page lists matching rows in descending order, and what matches and is not on it is exactly what its cursor selects; no cursor means nothing is left |
| InsightPages.NextCursorAccepted | backend/app/api/insights.py:49-77 | the produced cursor always passes the decoder's checks, whenever it comes and whatever was inserted, and asks for the same window from the last row on |
| InsightPages.NextNarrows | backend/app/api/insights.py:80-82 | what a cursor selects lies below every row of the page, also in a later table |
| InsightPages.WalkIsComplete | backend/app/api/insights.py:46-94 | following cursors to the end, for any page limits and while rows are inserted: strictly descending, each row once, and every row that was there throughout is listed |
| InsightPages.WalkIsTheQuery | backend/app/api/insights.py:46-94 | on an unchanging table the walk lists exactly the rows of the window and type |
| InsightPages.DownloadLists | backend/app/api/insights.py:46-94 | following the cursors of an accepted request lists exactly the rows whose occurrence, or else storage, lies in the asked window and that have the asked type, latest first, then by falling id |
| InsightPages.FinishedIff | backend/app/api/insights.py:84-92 | on an unchanging table a walk is finished if and only if its page limits add up to at least the rows to list |
| InsightPages.WalkLength | backend/app/api/insights.py:84-92 | so with one limit it is finished if and only if requests times limit reach the rows to list, after at least one request |
| LoginAdmission.StepKeeps | backend/app/api/auth.py:162-178 | every atomic step of every thread keeps: free slots plus slot holders are 5, the active set is exactly the accounts being checked, pairwise distinct; no release exceeds the bound |
| LoginAdmission.AnyInterleaving | backend/app/api/auth.py:162-178 | so does every interleaving of any number of threads, and none raises |
| LoginAdmission.EveryRunIsSafe | backend/app/api/auth.py:162-178 | every run of any threads from the start, with all five slots free, raises nothing and keeps that balance |
| LoginAdmission.AtMostFiveChecks | backend/app/api/auth.py:162-178 | at most five checks run at once, for distinct accounts |
| LoginAdmission.QuiescentIsFree | backend/app/api/auth.py:175-178 | when all threads are done every slot is free and no account is held |
| LoginAdmission.Gate.BeginPasswordCheck | backend/app/api/auth.py:162-172 | admitted exactly with a free slot and an account not in flight; a rejected duplicate gives its slot back |
| LoginAdmission.Gate.EndPasswordCheck | backend/app/api/auth.py:175-178 | the account leaves the set and the slot is free again |
| LoginAdmission.UninterruptedBegin | backend/app/api/auth.py:162-172 | the method is the sequence of atomic steps run without interruption |
| LoginBackoff.Backoff.KeysLocked | backend/app/api/auth.py:152-155 | locked exactly when one of the keys has an entry locked beyond now |
| LoginBackoff.Backoff.RecordFailedLogin | backend/app/api/auth.py:194-212 | the three loops purge the front, count each bucket and move it to the end, and evict from the front down to 4096 |
| LoginBackoff.Backoff.ClearAccount | backend/app/api/auth.py:277-280 | a success removes exactly the account's entry |
| LoginBackoff.FrontPurgeIff | backend/app/api/auth.py:197-201 | in any dictionary front-only purging equals filtering all expired entries if and only if no expired entry sits behind a live one |
| LoginBackoff.FrontPurgeIsFilter | backend/app/api/auth.py:197-201 | in a dictionary ordered by last failure it does so, and the order stays |
| LoginBackoff.PurgedKeyIff | backend/app/api/auth.py:197-201 | in any dictionary the purge leaves a key's entry as filtering would, unless it is expired and behind a live one, and then it stays |
| LoginBackoff.RecordKeeps | backend/app/api/auth.py:194-212 | from any dictionary, whatever the order of times: after a record the size is at most 4096, each of the attempt's keys not left behind a live entry has one more failure than unexpired before, any other is as filtering leaves it or evicted at the bound; and an ordered dictionary stays ordered and loses no entry newer than a survivor |
| LoginBackoff.LockedIff | backend/app/api/auth.py:152-155 | any list of keys is locked if and only if some entry of one of them is locked beyond that time |
| LoginBackoff.LockLastsOneSecond | backend/app/api/auth.py:152-212 | after a recorded failure, whatever the order of times, any list of keys is found locked if and only if one is a key of the attempt whose failures left by the purge, this one included, reach its threshold, and less than a second has passed, or one the attempt does not name is still locked |
| LoginBackoffRuns.CountsAreHistoryIff | backend/app/api/auth.py:194-212 | over every run from an empty dictionary, whatever the order of the recorded times, a key's count is at every moment its failures since its last success, expiry or eviction if and only if no recording leaves its expired entry behind a live one |
| LoginBackoffRuns.CountsAreHistory | backend/app/api/auth.py:194-212 | with times that never decrease none does, so every count is the history, and the dictionary stays ordered and bounded |
| LoginBackoffRuns.OutOfOrder | backend/app/api/auth.py:194-212 | two threads that read the clock and take the lock in different orders make the purge miss an expired failure, and its key is then counted 2 instead of 1 |
| LogTail.Handle.ReadLine | backend/app/plugins/base.py:80-85 | a line runs to its newline or to the end; the empty string means the end |
| LogTail.TailTextFile | backend/app/plugins/base.py:48-93 | the capped loop and the look-ahead return the specified lines, offset and flag |
| LogTail.TailedIsText | backend/app/plugins/base.py:80-93 | the lines of a call concatenate to the text between its offsets; more is available if and only if text is left, and then the cap was hit |
| LogTail.ReadIsPrefix | backend/app/plugins/base.py:72-93 | over any run of capped calls on a file that grows and is noticeably rotated, what was read since the last restart is exactly the current file's prefix up to the stored offset |
| LogTail.RestartsIffReplaced | backend/app/plugins/base.py:72-78 | over any run a call starts over if and only if the file was replaced noticeably since the last one: another inode, or smaller than it was or than what was read |
| LogTail.GrowingFileIsReadOnce | backend/app/plugins/base.py:72-93 | while the file only grows, all lines ever returned concatenate to exactly its prefix up to the stored offset |
| LogTail.DrainsInCeil | backend/app/plugins/base.py:80-91 | L lines drain in ceil(L/k) calls, one when there are none, never more than floor(L/k) + 1 |
| LogTail.IntactIff | backend/app/plugins/base.py:82-89 | stopping at an offset leaves the lines of the file intact if and only if it is the end or behind a newline |
| Relationships.FirstCompatible | backend/app/services/events.py:488-495 | the first compatible row of a one-sided ordered stream is the nearest related event on that side, and none means there is none |
| Relationships.NearestRelated | backend/app/services/events.py:484-498 | the nearer of the two is the global minimum of (gap, id) over all compatible candidates, and none is found only when there is none |
| Relationships.NearestIsUnique | backend/app/services/events.py:498 | with distinct ids there is one nearest related event |
| Relationships.CandidateIff | backend/app/services/events.py:466-487 | the filter selects exactly the pairs of one access failure and one event of the relation's types with the same address, at most 60 seconds apart, the access never after a ban, whichever of the two is the new row |
| Relationships.RelatedIff | backend/app/services/events.py:448-495 | two events are related if and only if, field by field, address, types, distance in time and order fit and no asset or host that both know differs |
| Relationships.NoFartherIff | backend/app/services/events.py:498 | nearer means strictly between the other event and its mirror image in time, or at either of them with no larger id |
| Relationships.RelatedEitherWay | backend/app/services/events.py:448-483 | two events are related for the one that arrives second exactly when they are for the other |
| Relationships.CreateRelationshipInsights | backend/app/services/events.py:463-515 | at most one pair per relation, with the nearest event, and one exactly when there is a related event; none without an address |
| Relationships.FindsIff | backend/app/services/events.py:463-497 | an event finds a partner if and only if it has an address and a stored event is related to it |
| Relationships.PairIs | backend/app/services/events.py:504-510 | a pair names both rows, the smaller id first, at the time of the later |
| Relationships.RecordsIff | backend/app/services/events.py:480-510 | the event that arrives second records its pair with the other if and only if the two are related and no related event of the table is nearer to it |
| Relationships.SamePairEitherWay | backend/app/services/events.py:480-510 | on one table both orders of arrival of two events record their pair, and the same one, if and only if they are related and neither has a nearer related event |
| Relationships.OrderMatters | backend/app/services/events.py:480-510 | a concrete table where one order of arrival records the pair and the other does not |
| Insights.DedupeKeyInjective | backend/app/services/insight_rules.py:611 | two findings about bans, events, pairs, rule windows or trends share a dedupe key only if they are about the same thing, whatever colons rule ids, types, addresses and times contain |
| Insights.KeyForms | backend/app/services/insight_rules.py:611 | the texts of the five key shapes |
| Insights.CorrelationIsUnmarked | backend/app/services/insight_rules.py:564 | both kinds of correlation key meet the one condition this needs of them |
| Insights.Table.RecordInsight | backend/app/services/insights.py:105-149 | the value checks, both pre-checks, the insert that may lose to a rival, and one queued notification per inserted row |
| Insights.RecordedKeeps | backend/app/services/insights.py:126-147 | no row is lost, no two rows share a key even when a rival wins the race, and the answer is a stored row about the same key or evidence |
| Insights.StoredIff | backend/app/services/insights.py:112-149 | a finding becomes a new row if and only if its ids, sample count and key lengths pass, it is a trend or no row has its type and exactly its events, no row or rival carries its key, and nothing else refuses it |
| Insights.AnswerIff | backend/app/services/insights.py:126-133 | an acceptable finding that is there already is answered by the first row about its evidence, unless it is a trend, else by the first row with its key, and nothing is stored |
| Insights.RaceHasOneWinner | backend/app/services/insights.py:138-147 | losing the race on a key adds no row and answers with the winner's |
| Insights.AgainAddsNothingIff | backend/app/services/insights.py:126-133 | recording a finding again adds nothing if and only if it is no trend or carries a key |

## Left out

- Level 2 rule predicates: what `evaluate_chain` reads and counts, its cooldown included, is one verdict per (rule, ban) given as a parameter; only "evaluated" and "at most one finding" are proved.
- Level 2 rule ids: ids are only compared, so a rule is its rank in code-point order; that `active_rules` returns ascending ids is an assumption of every tick.
- Stored row text: JSON and ISO parsing of the cycle rows; a text that does not parse is one "unreadable" value.
- Search terms: a term is an abstract predicate, and its SQL condition is not part of this model. `str.isspace` is written out for the code points Python lists.
- Level2Worker.AtMostOneFinding: the key of a (rule, ban) is the pair itself; that the text keys are as distinct is `Insights.DedupeKeyInjective`, and the insert that loses a race is `Insights.RaceHasOneWinner`.
- RollupStore.RunConserves: duplicate cleanup is not one of its operations, because it recounts the surviving raw events only and so forgets counts of events that retention deleted earlier; `DuplicateCleanup.RebuildRecounts` says what it leaves instead.
- RollupStore.Store.CompactCompleted: one pass is atomic with respect to ingestion; nothing in the code excludes a write between the sum and the DELETE. The oldest retained month comes in as a number, the calendar arithmetic that derives it from the clock does not.
- RollupViews.ViewShowsTotals: day views, and the sorting and limiting of the combined dictionary, which depend on nothing else.
- Trends: the comparison of a group's counts, the readiness and coverage of a source and its failure marker are inputs of a tick.
- Broadcast: transport, session checks and the cancellation of tasks; whatever breaks a connection is one step before the loop or one inside it.
- MqttExport: delivery inside the broker (QoS 1, section 4.3.2 of MQTT 3.1.1) is one outcome per tick; the payload and its 8 KiB check, which the closed payload stays far below, are not modelled, nor are stored settings that the export did not write itself.
- InsightPages: the cursor's base64url text (section 5 of RFC 4648) and JSON, and the text forms of times. No code deletes an insight, which `InsightPages.NextCursorAccepted` relies on.
- LoginAdmission: the password hash, sessions, and what the login page renders.
- LoginBackoff: digests of buckets are numbers, distinct within one attempt.
- LogTail: decoding and newline translation, so an offset counts characters; a file replaced between `stat` and the read.
- LogTail.ReadIsPrefix: a rewrite of the file under the same inode that has regrown past the last observed size and the offset is not noticed, as the source's own documentation says, and is outside the run's assumptions.
- Relationships: the normalisation of host names; the wording of the recorded finding. Times are present and in microseconds.
- Insights: the shape of the evidence and the notification that a row queues. Rivals obey the unique constraint. An address is any text; one that contains ":window" (possible only in the name of a zone) is outside `Insights.DedupeKeyInjective`.
- Routes, templates, locales, enrichment, dashboard layout, OIDC, onboarding, notifications and cryptography are not part of this model.
