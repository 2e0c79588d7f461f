/** The one-off removal of duplicate events and the rebuild of the rollups it forces
    (backend/app/services/events.py, `cleanup_duplicate_events`). */
module DuplicateCleanup {
  import opened Rollups

  predicate SameRaw(a: Event, b: Event) {
    Filled(a.rawData) && a.rawData == b.rawData && a.plugin == b.plugin && a.eventType == b.eventType
  }

  /** Rows without raw data are compared by their fields; missing values count as equal. */
  predicate SameFields(a: Event, b: Event) {
    && !Filled(a.rawData) && !Filled(b.rawData)
    && a.plugin == b.plugin && a.eventType == b.eventType && a.time == b.time && a.ip == b.ip
    && a.country == b.country && a.hostname == b.hostname && a.httpMethod == b.httpMethod
    && a.path == b.path && a.statusCode == b.statusCode && a.assetId == b.assetId
  }

  predicate Twins(a: Event, b: Event) {
    SameRaw(a, b) || SameFields(a, b)
  }

  /** `row_number() > 1`: an earlier row of the same partition exists. */
  predicate Ranked(all: seq<Event>, e: Event, same: (Event, Event) -> bool) {
    exists f :: f in all && same(f, e) && f.id < e.id
  }

  /** DELETE of the rows ranked second or later among `all`. */
  function WithoutRanked(all: seq<Event>, rows: seq<Event>, same: (Event, Event) -> bool): (r: seq<Event>)
    ensures |r| <= |rows|
  {
    if rows == [] then []
    else (if Ranked(all, rows[0], same) then [] else [rows[0]]) + WithoutRanked(all, rows[1..], same)
  }

  /** The two deletes, raw partitions first. */
  function Deduplicated(events: seq<Event>): seq<Event> {
    var rawDone := WithoutRanked(events, events, SameRaw);
    WithoutRanked(rawDone, rawDone, SameFields)
  }

  function IngestAll(db: Db, events: seq<Event>, group: Grouping): Db
    decreases |events|
  {
    if events == [] then db else IngestAll(Ingest(db, events[0], group), events[1..], group)
  }

  datatype Cleaned = Cleaned(db: Db, events: seq<Event>, deleted: nat)

  /** The whole operation: nothing is touched unless something was deleted. */
  function Cleanup(db: Db, events: seq<Event>, group: Grouping): Cleaned {
    var kept := Deduplicated(events);
    if |kept| >= |events| then Cleaned(db, kept, 0)
    else Cleaned(IngestAll(Db(map[], map[]), kept, group), kept, |events| - |kept|)
  }

  // ---- Who survives ----------------------------------------------------------------------------------

  lemma {:induction false} WithoutRankedMembers(all: seq<Event>, rows: seq<Event>, same: (Event, Event) -> bool)
    ensures forall e :: e in WithoutRanked(all, rows, same) <==> e in rows && !Ranked(all, e, same)
  {
    if rows != [] {
      WithoutRankedMembers(all, rows[1..], same);
      assert rows == [rows[0]] + rows[1..];
    }
  }

  lemma {:induction false} WithoutRankedSame(all: seq<Event>, rows: seq<Event>, same: (Event, Event) -> bool)
    ensures |WithoutRanked(all, rows, same)| == |rows| <==> forall e :: e in rows ==> !Ranked(all, e, same)
    ensures |WithoutRanked(all, rows, same)| == |rows| ==> WithoutRanked(all, rows, same) == rows
  {
    if rows != [] {
      WithoutRankedSame(all, rows[1..], same);
      assert rows == [rows[0]] + rows[1..];
      assert rows[0] in rows;
    }
  }

  /** Exactly the rows without an older twin survive. Rows with raw data are twins when raw data, plugin and
      type agree; rows without any when plugin, type, time, address, country, host, method, path, status
      and asset agree. */
  lemma SurvivorsAreMinima(events: seq<Event>, e: Event)
    ensures e in Deduplicated(events) <==>
              && e in events
              && !(exists k :: 0 <= k < |events| &&
                     var f := events[k];
                     && f.id < e.id && f.plugin == e.plugin && f.eventType == e.eventType
                     && (if e.rawData.Some? && e.rawData.value != "" then f.rawData == e.rawData
                         else
                           && (f.rawData.None? || f.rawData.value == "")
                           && f.time == e.time && f.ip == e.ip && f.country == e.country && f.hostname == e.hostname
                           && f.httpMethod == e.httpMethod && f.path == e.path && f.statusCode == e.statusCode
                           && f.assetId == e.assetId))
  {
    SurvivorsHaveNoOlder(events, e);
    if Ranked(events, e, Twins) {
      var f :| f in events && Twins(f, e) && f.id < e.id;
      var k :| 0 <= k < |events| && events[k] == f;
    }
    forall k | 0 <= k < |events| && Twins(events[k], e) && events[k].id < e.id ensures Ranked(events, e, Twins) {
      assert events[k] in events;
    }
  }

  lemma SurvivorsHaveNoOlder(events: seq<Event>, e: Event)
    ensures e in Deduplicated(events) <==> e in events && !Ranked(events, e, Twins)
  {
    var rawDone := WithoutRanked(events, events, SameRaw);
    WithoutRankedMembers(events, events, SameRaw);
    WithoutRankedMembers(rawDone, rawDone, SameFields);
    if e in events && Ranked(events, e, Twins) {
      var f :| f in events && Twins(f, e) && f.id < e.id;
      if SameFields(f, e) {
        assert f in rawDone;
      }
    }
  }

  /** Every event keeps a twin, itself or an older one. */
  lemma EveryClassSurvives(events: seq<Event>, e: Event) returns (f: Event)
    requires e in events
    ensures f in Deduplicated(events) && f.id <= e.id && (f == e || Twins(f, e))
    decreases e.id
  {
    SurvivorsHaveNoOlder(events, e);
    if Ranked(events, e, Twins) {
      var g :| g in events && Twins(g, e) && g.id < e.id;
      f := EveryClassSurvives(events, g);
    } else {
      f := e;
    }
  }

  /** A second run deletes nothing. */
  lemma SecondRunIsIdle(db: Db, events: seq<Event>, group: Grouping)
    ensures var once := Cleanup(db, events, group);
            Cleanup(once.db, once.events, group) == Cleaned(once.db, once.events, 0)
  {
    var kept := Deduplicated(events);
    forall e | e in kept ensures !Ranked(kept, e, SameRaw) && !Ranked(kept, e, SameFields) {
      SurvivorsHaveNoOlder(events, e);
      if f :| f in kept && Twins(f, e) && f.id < e.id {
        SurvivorsHaveNoOlder(events, f);
        assert Ranked(events, e, Twins);
      }
    }
    WithoutRankedSame(kept, kept, SameRaw);
    WithoutRankedSame(kept, kept, SameFields);
  }

  // ---- What the rebuild counts ------------------------------------------------------------------------

  /** The events of one day that count towards a series. */
  function Recount(events: seq<Event>, group: Grouping, day: Day, s: Series): nat {
    if events == [] then 0
    else (if events[0].day == day then Occurrences(Metrics(events[0], group), s) else 0)
         + Recount(events[1..], group, day, s)
  }

  lemma {:induction false} BumpAllAt(daily: Daily, day: Day, series: seq<Series>, at: Day, s: Series)
    ensures At(BumpAll(daily, day, series), (at, s)) ==
            At(daily, (at, s)) + if at == day then Occurrences(series, s) else 0
    decreases |series|
  {
    if series != [] {
      BumpAllAt(Bump(daily, day, series[0]), day, series[1..], at, s);
    }
  }

  lemma {:induction false} IngestAllCounts(db: Db, events: seq<Event>, group: Grouping, day: Day, s: Series)
    ensures At(IngestAll(db, events, group).daily, (day, s)) ==
            At(db.daily, (day, s)) + Recount(events, group, day, s)
    ensures IngestAll(db, events, group).monthly == db.monthly
    decreases |events|
  {
    if events != [] {
      BumpAllAt(db.daily, events[0].day, Metrics(events[0], group), day, s);
      IngestAllCounts(Ingest(db, events[0], group), events[1..], group, day, s);
    }
  }

  /** When anything is deleted, the daily rows are a recount of the surviving events and the
      monthly table is empty: what only the rollups still knew of retired events is gone. */
  lemma {:induction false} RebuildRecounts(db: Db, events: seq<Event>, group: Grouping, day: Day, s: Series)
    ensures var c := Cleanup(db, events, group);
            && c.events == Deduplicated(events)
            && (c.deleted == 0 ==> c.db == db && c.events == events)
            && (c.deleted > 0 ==> c.db.monthly == map[] && At(c.db.daily, (day, s)) == Recount(c.events, group, day, s))
  {
    var rawDone := WithoutRanked(events, events, SameRaw);
    WithoutRankedSame(events, events, SameRaw);
    WithoutRankedSame(rawDone, rawDone, SameFields);
    IngestAllCounts(Db(map[], map[]), Deduplicated(events), group, day, s);
  }
}
