/** Daily and monthly event counters, "merge on delete" compaction and retention
    (backend/app/services/events.py, backend/app/services/rollups.py). */
module Rollups {
  import opened Wrappers

  /** Months are numbered from year 0: year * 12 + month - 1, in the order of their "YYYY-MM" text. */
  datatype Day = Day(month: nat, day: nat)

  const LAST_DAY: nat := 31

  datatype Series = Series(metric: string, key: string)

  type Daily = map<(Day, Series), nat>
  type Monthly = map<(nat, Series), nat>

  datatype Db = Db(daily: Daily, monthly: Monthly) {
    /** Days of real dates; the sums below run over days 1 to 31. */
    ghost predicate Valid() {
      forall row :: row in daily ==> 1 <= row.0.day <= LAST_DAY
    }
  }

  datatype Event = Event(
    id: nat, time: int, day: Day, hour: string, eventType: string, ip: Option<string>, localIp: bool,
    country: Option<string>, scenario: Option<string>, plugin: string, rawData: Option<string>,
    retentionClass: Option<string>, hostname: Option<string>, httpMethod: Option<string>,
    path: Option<string>, statusCode: Option<int>, assetId: Option<int>)

  /** The grouping plugins register for scenario names; it is a parameter of the whole model. */
  type Grouping = (string, string) -> string

  predicate StartsWith(s: string, prefix: string) {
    prefix <= s
  }

  predicate Filled(value: Option<string>) {
    value.Some? && value.value != ""
  }

  function When(condition: bool, series: seq<Series>): seq<Series> {
    if condition then series else []
  }

  function TypeOf(e: Event): string {
    if e.eventType == "" then "unknown" else e.eventType
  }

  function Place(e: Event): Series {
    Series("summary", if e.localIp then "access_internal_events" else "access_external_events")
  }

  /** The totals, and the counters of access and security events by hour. */
  function TypeMetrics(e: Event): seq<Series> {
    var t := TypeOf(e);
    [Series("summary", "total_events"), Series("event_type", t)]
    + When(StartsWith(t, "access.") && Filled(e.ip),
           [Place(e), Series("hour_access", e.hour)])
    + When(StartsWith(t, "security."), [Series("summary", "security_events"), Series("hour_security", e.hour)])
  }

  /** `rollup_metrics_for_event`. */
  function Metrics(e: Event, group: Grouping): seq<Series> {
    var t := TypeOf(e);
    TypeMetrics(e)
    + When(StartsWith(t, "security.ban"), [Series("summary", "bans")])
    + When(t == "security.geoblock", [Series("summary", "geoblocks")])
    + When(Filled(e.country), [Series("country", e.country.GetOr(""))])
    + When(Filled(e.scenario), [Series("scenario", group("scenario", e.scenario.GetOr("")))])
  }

  // ---- The operations on the tables --------------------------------------------------------------

  function At<K(==)>(table: map<K, nat>, row: K): nat {
    if row in table then table[row] else 0
  }

  function Bump(daily: Daily, day: Day, s: Series): Daily {
    daily[(day, s) := At(daily, (day, s)) + 1]
  }

  function BumpAll(daily: Daily, day: Day, series: seq<Series>): Daily
    decreases |series|
  {
    if series == [] then daily else BumpAll(Bump(daily, day, series[0]), day, series[1..])
  }

  /** `update_rollups`: only daily rows are written. */
  function Ingest(db: Db, e: Event, group: Grouping): Db {
    Db(BumpAll(db.daily, e.day, Metrics(e, group)), db.monthly)
  }

  /** The sum of a month's daily rows of one series, up to a day. */
  function DaySum(daily: Daily, month: nat, s: Series, upTo: nat): nat {
    if upTo == 0 then 0 else DaySum(daily, month, s, upTo - 1) + At(daily, (Day(month, upTo), s))
  }

  /** The (month, series) pairs that have a daily row in one of the months. */
  function MonthRows(daily: Daily, months: set<nat>): set<(nat, Series)> {
    set row | row in daily && row.0.month in months :: (row.0.month, row.1)
  }

  /** The monthly table with the daily sums of some rows added, creating rows where there were none. */
  function WithSums(monthly: Monthly, daily: Daily, rows: set<(nat, Series)>): Monthly {
    monthly + map row | row in rows :: At(monthly, row) + DaySum(daily, row.0, row.1, LAST_DAY)
  }

  lemma {:induction false} WithSumsAdd(monthly: Monthly, daily: Daily, rows: set<(nat, Series)>, row: (nat, Series))
    requires row !in rows
    ensures WithSums(monthly, daily, rows + {row}) ==
            WithSums(monthly, daily, rows)[row := At(monthly, row) + DaySum(daily, row.0, row.1, LAST_DAY)]
    ensures At(WithSums(monthly, daily, rows), row) == At(monthly, row)
  {
  }

  /** Compaction of the given months: the daily sums are added to the monthly rows, and exactly
      those daily rows are deleted. */
  function Compacted(db: Db, months: set<nat>): Db {
    Db(map row | row in db.daily && row.0.month !in months :: db.daily[row],
       WithSums(db.monthly, db.daily, MonthRows(db.daily, months)))
  }

  /** The months compaction takes: those with daily rows, older than the oldest retained month. */
  function Months(daily: Daily, oldest: nat): set<nat> {
    set row | row in daily && row.0.month < oldest :: row.0.month
  }

  // ---- What is counted ----------------------------------------------------------------------------

  /** Everything the tables know of a series in a month. */
  function Count(db: Db, month: nat, s: Series): nat {
    At(db.monthly, (month, s)) + DaySum(db.daily, month, s, LAST_DAY)
  }

  /** Whether any row of the series is there for the month. */
  ghost predicate Present(db: Db, month: nat, s: Series) {
    (month, s) in db.monthly || exists row :: row in db.daily && row.0.month == month && row.1 == s
  }

  function Occurrences(series: seq<Series>, s: Series): nat {
    if series == [] then 0 else (if series[0] == s then 1 else 0) + Occurrences(series[1..], s)
  }

  lemma {:induction false} OccurrencesConcat(a: seq<Series>, b: seq<Series>, s: Series)
    ensures Occurrences(a + b, s) == Occurrences(a, s) + Occurrences(b, s)
  {
    if a == [] {
      assert a + b == b;
    } else {
      assert (a + b)[1..] == a[1..] + b;
      OccurrencesConcat(a[1..], b, s);
    }
  }

  function One(b: bool): nat { if b then 1 else 0 }

  lemma {:induction false} AppendPair(series: seq<Series>, condition: bool, a: Series, b: Series, s: Series)
    ensures Occurrences(series + When(condition, [a, b]), s) ==
            Occurrences(series, s) + One(condition && a == s) + One(condition && b == s)
  {
    OccurrencesConcat(series, When(condition, [a, b]), s);
    assert [a, b][1..] == [b] && [b][1..] == [];
    assert Occurrences([b], s) == One(b == s) + Occurrences([], s);
    assert Occurrences([a, b], s) == One(a == s) + Occurrences([b], s);
  }

  lemma {:induction false} AppendOne(series: seq<Series>, condition: bool, a: Series, s: Series)
    ensures Occurrences(series + When(condition, [a]), s) == Occurrences(series, s) + One(condition && a == s)
  {
    OccurrencesConcat(series, When(condition, [a]), s);
    assert [a][1..] == [];
    assert Occurrences([a], s) == One(a == s) + Occurrences([], s);
  }

  /** What an event is counted under. */
  predicate CountedUnder(e: Event, group: Grouping, s: Series) {
    var access := "access." <= e.eventType && e.ip.Some? && e.ip.value != "";
    || s == Series("summary", "total_events")
    || s == Series("event_type", if e.eventType == "" then "unknown" else e.eventType)
    || (s == Series("summary", "access_internal_events") && access && e.localIp)
    || (s == Series("summary", "access_external_events") && access && !e.localIp)
    || (s == Series("hour_access", e.hour) && access)
    || (s == Series("summary", "security_events") && "security." <= e.eventType)
    || (s == Series("hour_security", e.hour) && "security." <= e.eventType)
    || (s == Series("summary", "bans") && "security.ban" <= e.eventType)
    || (s == Series("summary", "geoblocks") && e.eventType == "security.geoblock")
    || (e.country.Some? && e.country.value != "" && s == Series("country", e.country.value))
    || (e.scenario.Some? && e.scenario.value != "" && s == Series("scenario", group("scenario", e.scenario.value)))
  }

  lemma MetricNamesDiffer(metric: string)
    ensures One(metric == "summary") + One(metric == "event_type") + One(metric == "hour_access")
            + One(metric == "hour_security") + One(metric == "country") + One(metric == "scenario") <= 1
  {
    assert "summary"[0] != "country"[0];
    assert |"event_type"| == 10 && |"hour_access"| == 11 && |"hour_security"| == 13 && |"scenario"| == 8;
  }

  lemma SummaryKeysDiffer(key: string)
    ensures One(key == "total_events") + One(key == "access_internal_events") + One(key == "access_external_events")
            + One(key == "security_events") + One(key == "bans") + One(key == "geoblocks") <= 1
  {
    assert "access_internal_events"[7] != "access_external_events"[7];
    assert |"total_events"| == 12 && |"access_internal_events"| == 22 && |"security_events"| == 15;
    assert |"bans"| == 4 && |"geoblocks"| == 9;
  }

  /** The series of an event one by one. */
  function TypeTally(e: Event, s: Series): nat {
    var t := TypeOf(e);
    One(Series("summary", "total_events") == s) + One(Series("event_type", t) == s)
    + One(StartsWith(t, "access.") && Filled(e.ip) && Place(e) == s)
    + One(StartsWith(t, "access.") && Filled(e.ip) && Series("hour_access", e.hour) == s)
    + One(StartsWith(t, "security.") && Series("summary", "security_events") == s)
    + One(StartsWith(t, "security.") && Series("hour_security", e.hour) == s)
  }

  function Tally(e: Event, group: Grouping, s: Series): nat {
    var t := TypeOf(e);
    TypeTally(e, s)
    + One(StartsWith(t, "security.ban") && Series("summary", "bans") == s)
    + One(t == "security.geoblock" && Series("summary", "geoblocks") == s)
    + One(Filled(e.country) && Series("country", e.country.GetOr("")) == s)
    + One(Filled(e.scenario) && Series("scenario", group("scenario", e.scenario.GetOr(""))) == s)
  }

  lemma {:induction false} TypeOccurrences(e: Event, s: Series)
    ensures Occurrences(TypeMetrics(e), s) == TypeTally(e, s)
  {
    var t := TypeOf(e);
    var total, kind := Series("summary", "total_events"), Series("event_type", t);
    var access := When(StartsWith(t, "access.") && Filled(e.ip), [Place(e), Series("hour_access", e.hour)]);
    AppendPair([], true, total, kind, s);
    assert [] + When(true, [total, kind]) == [total, kind];
    AppendPair([total, kind], StartsWith(t, "access.") && Filled(e.ip), Place(e), Series("hour_access", e.hour), s);
    AppendPair([total, kind] + access, StartsWith(t, "security."), Series("summary", "security_events"),
               Series("hour_security", e.hour), s);
  }

  lemma {:induction false} OccurrencesTally(e: Event, group: Grouping, s: Series)
    ensures Occurrences(Metrics(e, group), s) == Tally(e, group, s)
  {
    var t := TypeOf(e);
    var bans := TypeMetrics(e) + When(StartsWith(t, "security.ban"), [Series("summary", "bans")]);
    var blocks := bans + When(t == "security.geoblock", [Series("summary", "geoblocks")]);
    var country := blocks + When(Filled(e.country), [Series("country", e.country.GetOr(""))]);
    TypeOccurrences(e, s);
    AppendOne(TypeMetrics(e), StartsWith(t, "security.ban"), Series("summary", "bans"), s);
    AppendOne(bans, t == "security.geoblock", Series("summary", "geoblocks"), s);
    AppendOne(blocks, Filled(e.country), Series("country", e.country.GetOr("")), s);
    AppendOne(country, Filled(e.scenario), Series("scenario", group("scenario", e.scenario.GetOr(""))), s);
  }

  lemma UnknownHasNoPrefix()
    ensures !("access." <= "unknown") && !("security." <= "unknown") && !("security.ban" <= "unknown")
  {
    assert "access."[0] == 'a' && "security."[0] == 's' && "unknown"[0] == 'u';
  }

  /** An event is counted once under each of its series and not at all elsewhere. */
  lemma {:induction false} CountedOnce(e: Event, group: Grouping, s: Series)
    ensures Occurrences(Metrics(e, group), s) == One(CountedUnder(e, group, s))
  {
    OccurrencesTally(e, group, s);
    UnknownHasNoPrefix();
    MetricNamesDiffer(s.metric);
    SummaryKeysDiffer(s.key);
  }

  lemma {:induction false} DaySumBump(daily: Daily, day: Day, t: Series, month: nat, s: Series, upTo: nat)
    ensures DaySum(Bump(daily, day, t), month, s, upTo) ==
            DaySum(daily, month, s, upTo) + if month == day.month && s == t && 1 <= day.day <= upTo then 1 else 0
  {
    if upTo > 0 {
      DaySumBump(daily, day, t, month, s, upTo - 1);
    }
  }

  lemma {:induction false} BumpAllCounts(daily: Daily, day: Day, series: seq<Series>, month: nat, s: Series)
    requires 1 <= day.day <= 31
    ensures DaySum(BumpAll(daily, day, series), month, s, LAST_DAY) ==
            DaySum(daily, month, s, LAST_DAY) + if month == day.month then Occurrences(series, s) else 0
    ensures forall row :: row in BumpAll(daily, day, series) ==> row in daily || row.0 == day
    decreases |series|
  {
    if series != [] {
      DaySumBump(daily, day, series[0], month, s, LAST_DAY);
      BumpAllCounts(Bump(daily, day, series[0]), day, series[1..], month, s);
    }
  }

  /** Storing an event adds exactly its metrics to its month and nothing elsewhere, whether or
      not the month was compacted before. */
  lemma {:induction false} IngestCounts(db: Db, e: Event, group: Grouping, month: nat, s: Series)
    requires db.Valid() && 1 <= e.day.day <= 31
    ensures Ingest(db, e, group).Valid()
    ensures Count(Ingest(db, e, group), month, s) ==
            Count(db, month, s) + if month == e.day.month then Occurrences(Metrics(e, group), s) else 0
  {
    BumpAllCounts(db.daily, e.day, Metrics(e, group), month, s);
  }

  lemma {:induction false} DaySumWithout(daily: Daily, gone: set<nat>, month: nat, s: Series, upTo: nat)
    ensures DaySum(map row | row in daily && row.0.month !in gone :: daily[row], month, s, upTo) ==
            if month in gone then 0 else DaySum(daily, month, s, upTo)
  {
    if upTo > 0 {
      DaySumWithout(daily, gone, month, s, upTo - 1);
    }
  }

  lemma {:induction false} DaySumZero(daily: Daily, month: nat, s: Series, upTo: nat)
    requires forall row :: row in daily ==> row.0.month != month || row.1 != s
    ensures DaySum(daily, month, s, upTo) == 0
  {
    if upTo > 0 {
      DaySumZero(daily, month, s, upTo - 1);
    }
  }

  /** Compacting any months keeps every count and every presence of a row. */
  lemma {:induction false} CompactionKeeps(db: Db, gone: set<nat>, month: nat, s: Series)
    requires db.Valid()
    ensures Compacted(db, gone).Valid()
    ensures Count(Compacted(db, gone), month, s) == Count(db, month, s)
    ensures Present(Compacted(db, gone), month, s) <==> Present(db, month, s)
  {
    var merged, row := Compacted(db, gone), (month, s);
    DaySumWithout(db.daily, gone, month, s, LAST_DAY);
    if month in gone && row !in MonthRows(db.daily, gone) {
      forall r | r in db.daily ensures r.0.month != month || r.1 != s {
        assert r.0.month in gone ==> (r.0.month, r.1) in MonthRows(db.daily, gone);
      }
      DaySumZero(db.daily, month, s, LAST_DAY);
    }
    PresentAfter(db, gone, month, s);
  }

  lemma PresentAfter(db: Db, gone: set<nat>, month: nat, s: Series)
    ensures Present(Compacted(db, gone), month, s) <==> Present(db, month, s)
  {
    var merged := Compacted(db, gone);
    if r :| r in db.daily && r.0.month == month && r.1 == s {
      if month in gone {
        assert (r.0.month, r.1) in MonthRows(db.daily, gone);
      } else {
        assert r in merged.daily;
      }
    }
  }

  lemma MonthRowsAfter(db: Db, done: set<nat>, month: nat)
    requires month !in done
    ensures MonthRows(Compacted(db, done).daily, {month}) == MonthRows(db.daily, {month})
    ensures MonthRows(db.daily, done + {month}) == MonthRows(db.daily, done) + MonthRows(db.daily, {month})
  {
    var first := Compacted(db, done);
    forall row | row in MonthRows(db.daily, {month}) ensures row in MonthRows(first.daily, {month}) {
      var r :| r in db.daily && r.0.month == month && row == (r.0.month, r.1);
      assert r in first.daily;
    }
  }

  lemma MonthlyValue(db: Db, months: set<nat>, row: (nat, Series))
    ensures At(Compacted(db, months).monthly, row) ==
            At(db.monthly, row) + if row in MonthRows(db.daily, months) then DaySum(db.daily, row.0, row.1, LAST_DAY) else 0
  {
  }

  lemma MonthlyAdd(db: Db, done: set<nat>, month: nat, row: (nat, Series))
    requires month !in done
    ensures At(Compacted(Compacted(db, done), {month}).monthly, row) == At(Compacted(db, done + {month}).monthly, row)
  {
    MonthRowsAfter(db, done, month);
    MonthlyValue(db, done + {month}, row);
    MonthlyValue(db, done, row);
    MonthlyValue(Compacted(db, done), {month}, row);
    DaySumWithout(db.daily, done, row.0, row.1, LAST_DAY);
    assert row in MonthRows(db.daily, {month}) ==> row.0 == month && row !in MonthRows(db.daily, done);
  }

  lemma SameTable<K>(a: map<K, nat>, b: map<K, nat>)
    requires a.Keys == b.Keys && forall k :: k in a ==> At(a, k) == At(b, k)
    ensures a == b
  {
    forall k | k in a ensures a[k] == b[k] {
      assert At(a, k) == At(b, k);
    }
  }

  lemma DailyAdd(db: Db, done: set<nat>, month: nat)
    ensures Compacted(Compacted(db, done), {month}).daily == Compacted(db, done + {month}).daily
  {
  }

  lemma MonthlyKeysAdd(db: Db, done: set<nat>, month: nat)
    requires month !in done
    ensures Compacted(Compacted(db, done), {month}).monthly.Keys == Compacted(db, done + {month}).monthly.Keys
  {
    MonthRowsAfter(db, done, month);
  }

  /** Compacting one month after others is compacting them together. */
  lemma {:induction false} CompactedAdd(db: Db, done: set<nat>, month: nat)
    requires month !in done
    ensures Compacted(Compacted(db, done), {month}) == Compacted(db, done + {month})
  {
    var both := Compacted(db, done + {month}).monthly;
    var second := Compacted(Compacted(db, done), {month}).monthly;
    DailyAdd(db, done, month);
    MonthlyKeysAdd(db, done, month);
    forall row | row in both ensures At(second, row) == At(both, row) {
      MonthlyAdd(db, done, month, row);
    }
    SameTable(both, second);
  }
}
