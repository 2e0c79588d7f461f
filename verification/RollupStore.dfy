/** The rollup tables as the code changes them in place, and conservation over whole runs. */
module RollupStore {
  import opened Wrappers
  import opened Rollups
  import DuplicateCleanup

  const MICROSECONDS_PER_DAY: int := 24 * 3600 * 1_000_000

  /** Which stored events retention keeps. */
  predicate Kept(e: Event, cutoff: int) {
    e.time >= cutoff || e.retentionClass != Some("raw")
  }

  function KeptEvents(events: seq<Event>, cutoff: int): seq<Event> {
    if events == [] then []
    else (if Kept(events[0], cutoff) then [events[0]] else []) + KeptEvents(events[1..], cutoff)
  }

  // ---- Runs ----------------------------------------------------------------------------------

  datatype State = State(db: Db, events: seq<Event>)

  /** One committed operation. The clock comes in as the oldest month the 30-day trend still
      touches and, for retention, the current time. */
  datatype Op =
    | StoreEvent(event: Event)
    | Compact(oldest: nat)
    | Retain(days: int, now: int, oldest: nat)

  function Apply(st: State, op: Op, group: Grouping): State {
    match op
    case StoreEvent(e) => State(Ingest(st.db, e, group), st.events + [e])
    case Compact(oldest) => st.(db := Compacted(st.db, Months(st.db.daily, oldest)))
    case Retain(days, now, oldest) =>
      if days <= 0 then st
      else State(Compacted(st.db, Months(st.db.daily, oldest)), KeptEvents(st.events, now - days * MICROSECONDS_PER_DAY))
  }

  function Run(st: State, ops: seq<Op>, group: Grouping): State
    decreases |ops|
  {
    if ops == [] then st else Run(Apply(st, ops[0], group), ops[1..], group)
  }

  /** How often the run counted a series in a month. */
  function Ingested(ops: seq<Op>, group: Grouping, month: nat, s: Series): nat {
    if ops == [] then 0
    else (if ops[0].StoreEvent? && ops[0].event.day.month == month
          then Occurrences(Metrics(ops[0].event, group), s) else 0)
         + Ingested(ops[1..], group, month, s)
  }

  ghost predicate RealDates(ops: seq<Op>) {
    forall i :: 0 <= i < |ops| && ops[i].StoreEvent? ==> 1 <= ops[i].event.day.day <= 31
  }

  /** Over any run - late events for compacted months, repeated compaction, retention that deletes
      raw events - the monthly row plus that month's daily rows hold exactly what was ingested. */
  lemma {:induction false} RunConserves(st: State, ops: seq<Op>, group: Grouping, month: nat, s: Series)
    requires st.db.Valid() && RealDates(ops)
    ensures Run(st, ops, group).db.Valid()
    ensures Count(Run(st, ops, group).db, month, s) == Count(st.db, month, s) + Ingested(ops, group, month, s)
    decreases |ops|
  {
    if ops != [] {
      match ops[0] {
        case StoreEvent(e) => IngestCounts(st.db, e, group, month, s);
        case Compact(oldest) => CompactionKeeps(st.db, Months(st.db.daily, oldest), month, s);
        case Retain(_, _, oldest) => CompactionKeeps(st.db, Months(st.db.daily, oldest), month, s);
      }
      RunConserves(Apply(st, ops[0], group), ops[1..], group, month, s);
    }
  }

  /** The events a run stored in a month. */
  function StoredIn(ops: seq<Op>, month: nat): nat {
    if ops == [] then 0
    else (if ops[0].StoreEvent? && ops[0].event.day.month == month then 1 else 0) + StoredIn(ops[1..], month)
  }

  lemma {:induction false} IngestedTotal(ops: seq<Op>, group: Grouping, month: nat)
    ensures Ingested(ops, group, month, Series("summary", "total_events")) == StoredIn(ops, month)
  {
    if ops != [] {
      IngestedTotal(ops[1..], group, month);
      if ops[0].StoreEvent? {
        CountedOnce(ops[0].event, group, Series("summary", "total_events"));
      }
    }
  }

  /** So a month's total is the number of events ever stored in it, however many of them retention
      has deleted since. */
  lemma {:induction false} TotalCountsEvents(ops: seq<Op>, group: Grouping, month: nat)
    requires RealDates(ops)
    ensures Count(Run(State(Db(map[], map[]), []), ops, group).db, month, Series("summary", "total_events"))
            == StoredIn(ops, month)
  {
    var start := State(Db(map[], map[]), []);
    IngestedTotal(ops, group, month);
    RunConserves(start, ops, group, month, Series("summary", "total_events"));
    DaySumZero(start.db.daily, month, Series("summary", "total_events"), LAST_DAY);
  }

  /** After a pass no daily row is older than the oldest retained month, and every younger row is
      as it was. */
  lemma {:induction false} CompactionSplits(db: Db, oldest: nat)
    ensures var after := Compacted(db, Months(db.daily, oldest)).daily;
            forall row :: row in after <==> row in db.daily && row.0.month >= oldest
    ensures var after := Compacted(db, Months(db.daily, oldest)).daily;
            forall row :: row in after ==> after[row] == db.daily[row]
  {
    forall row | row in db.daily ensures row.0.month in Months(db.daily, oldest) <==> row.0.month < oldest {
    }
  }

  // ---- What retention deletes --------------------------------------------------------------------

  lemma {:induction false} KeptCounts(events: seq<Event>, cutoff: int, e: Event)
    ensures multiset(KeptEvents(events, cutoff))[e] ==
            if e.retentionClass != Some("raw") || e.time >= cutoff then multiset(events)[e] else 0
  {
    if events != [] {
      KeptCounts(events[1..], cutoff, e);
      assert events == [events[0]] + events[1..];
    }
  }

  /** The rows of `part` are rows of `all`, at the ascending indices `at`. */
  ghost predicate PickedAt<T>(part: seq<T>, all: seq<T>, at: seq<nat>) {
    && |at| == |part|
    && (forall i, j :: 0 <= i < j < |at| ==> at[i] < at[j])
    && (forall i :: 0 <= i < |at| ==> at[i] < |all| && part[i] == all[at[i]])
  }

  lemma PickedNext<T>(part: seq<T>, all: seq<T>, at: seq<nat>, first: bool) returns (moved: seq<nat>)
    requires all != [] && PickedAt(part, all[1..], at)
    ensures PickedAt((if first then [all[0]] else []) + part, all, moved)
  {
    moved := seq(|at|, i requires 0 <= i < |at| => at[i] + 1);
    if first {
      moved := [0] + moved;
    }
  }

  lemma {:induction false} KeptInOrder(events: seq<Event>, cutoff: int) returns (at: seq<nat>)
    ensures PickedAt(KeptEvents(events, cutoff), events, at)
  {
    at := [];
    if events != [] {
      at := KeptInOrder(events[1..], cutoff);
      at := PickedNext(KeptEvents(events[1..], cutoff), events, at, Kept(events[0], cutoff));
    }
  }

  lemma SameCopies<T>(part: seq<T>, all: seq<T>, x: T)
    ensures x in part <==> multiset(part)[x] > 0
    ensures x in all <==> multiset(all)[x] > 0
  {
  }

  /** Retention deletes exactly the raw events older than the days to keep, counted back from now in
      microseconds, and none when the days are not positive; of what stays every copy does. */
  lemma {:induction false} RetentionDeletesIff(st: State, days: int, now: int, oldest: nat, group: Grouping, e: Event)
    ensures var after := Apply(st, Retain(days, now, oldest), group).events;
            && (e in after <==>
                  e in st.events && (days <= 0 || e.retentionClass != Some("raw") || e.time >= now - days * 86_400_000_000))
            && (e in after ==> multiset(after)[e] == multiset(st.events)[e])
  {
    if days > 0 {
      KeptIff(st.events, now - days * MICROSECONDS_PER_DAY, e);
    }
  }

  lemma {:induction false} KeptIff(events: seq<Event>, cutoff: int, e: Event)
    ensures var kept := KeptEvents(events, cutoff);
            && (e in kept <==> e in events && (e.retentionClass != Some("raw") || e.time >= cutoff))
            && (e in kept ==> multiset(kept)[e] == multiset(events)[e])
  {
    KeptCounts(events, cutoff, e);
    SameCopies(KeptEvents(events, cutoff), events, e);
  }

  /** And what stays keeps its order. */
  lemma {:induction false} RetentionKeepsOrder(st: State, days: int, now: int, oldest: nat, group: Grouping)
    returns (at: seq<nat>)
    ensures PickedAt(Apply(st, Retain(days, now, oldest), group).events, st.events, at)
  {
    if days <= 0 {
      at := seq(|st.events|, i requires 0 <= i < |st.events| => i);
    } else {
      at := KeptInOrder(st.events, now - days * MICROSECONDS_PER_DAY);
    }
  }

  /** No retention of these operations deletes the event. */
  ghost predicate Survives(e: Event, ops: seq<Op>) {
    forall i :: 0 <= i < |ops| && ops[i].Retain? && ops[i].days > 0 ==>
      e.retentionClass != Some("raw") || e.time >= ops[i].now - ops[i].days * 86_400_000_000
  }

  /** After any run the events are those that were there or were stored and that no later retention
      deleted. */
  lemma {:induction false} RunEventsIff(st: State, ops: seq<Op>, group: Grouping, e: Event)
    ensures e in Run(st, ops, group).events <==>
              || (e in st.events && Survives(e, ops))
              || exists i :: 0 <= i < |ops| && ops[i] == StoreEvent(e) && Survives(e, ops[i + 1..])
    decreases |ops|
  {
    if ops != [] {
      var rest := ops[1..];
      RunEventsIff(Apply(st, ops[0], group), rest, group, e);
      SurvivesTail(e, ops);
      StepEvents(st, ops[0], group, e);
      StoredTail(e, ops);
    }
  }

  lemma SurvivesOne(e: Event, op: Op)
    ensures Survives(e, [op]) <==>
            (op.Retain? && op.days > 0 ==> e.retentionClass != Some("raw") || e.time >= op.now - op.days * 86_400_000_000)
  {
    assert [op][0] == op;
  }

  lemma StepEvents(st: State, op: Op, group: Grouping, e: Event)
    ensures e in Apply(st, op, group).events <==> (e in st.events && Survives(e, [op])) || op == StoreEvent(e)
  {
    SurvivesOne(e, op);
    match op {
      case StoreEvent(f) => assert e in st.events + [f] <==> e in st.events || e == f;
      case Compact(_) =>
      case Retain(days, now, oldest) => RetentionDeletesIff(st, days, now, oldest, group, e);
    }
  }

  lemma SurvivesTail(e: Event, ops: seq<Op>)
    requires ops != []
    ensures Survives(e, ops) <==> Survives(e, [ops[0]]) && Survives(e, ops[1..])
  {
    assert forall i :: 0 < i < |ops| ==> ops[i] == ops[1..][i - 1];
    assert [ops[0]][0] == ops[0];
  }

  lemma StoredTail(e: Event, ops: seq<Op>)
    requires ops != []
    ensures (exists i :: 0 <= i < |ops| && ops[i] == StoreEvent(e) && Survives(e, ops[i + 1..])) <==>
              || (ops[0] == StoreEvent(e) && Survives(e, ops[1..]))
              || exists i :: 0 <= i < |ops[1..]| && ops[1..][i] == StoreEvent(e) && Survives(e, ops[1..][i + 1..])
  {
    forall i | 0 <= i < |ops[1..]| ensures ops[1..][i + 1..] == ops[i + 1 + 1..] && ops[1..][i] == ops[i + 1] {
    }
    if i :| 1 <= i < |ops| && ops[i] == StoreEvent(e) && Survives(e, ops[i + 1..]) {
      assert ops[1..][i - 1] == ops[i] && ops[1..][i - 1 + 1..] == ops[i + 1..];
    }
    if i :| 0 <= i < |ops[1..]| && ops[1..][i] == StoreEvent(e) && Survives(e, ops[1..][i + 1..]) {
      assert ops[i + 1] == StoreEvent(e) && Survives(e, ops[i + 1 + 1..]);
    }
  }

  /** And before deleting it compacts: no daily row of a month older than the oldest retained one is left,
      and every younger one stays as it was. */
  lemma {:induction false} RetentionCompacts(st: State, days: int, now: int, oldest: nat, group: Grouping)
    requires days > 0
    ensures var after := Apply(st, Retain(days, now, oldest), group).db.daily;
            && (forall row :: row in after <==> row in st.db.daily && row.0.month >= oldest)
            && (forall row :: row in after ==> after[row] == st.db.daily[row])
  {
    CompactionSplits(st.db, oldest);
  }

  lemma Unpicked<T>(all: set<T>, rest: set<T>, x: T)
    requires rest <= all && x in rest
    ensures all - (rest - {x}) == (all - rest) + {x}
  {
  }

  lemma {:induction false} WithSumsNext(monthly: Monthly, daily: Daily, all: set<(nat, Series)>, rest: set<(nat, Series)>,
        row: (nat, Series))
    requires rest <= all && row in rest
    ensures var before := WithSums(monthly, daily, all - rest);
            WithSums(monthly, daily, all - (rest - {row})) ==
            before[row := At(before, row) + DaySum(daily, row.0, row.1, LAST_DAY)]
  {
    WithSumsAdd(monthly, daily, all - rest, row);
    Unpicked(all, rest, row);
  }

  // ---- In place --------------------------------------------------------------------------------

  class Store {
    var daily: Daily
    var monthly: Monthly
    var events: seq<Event>
    const group: Grouping

    ghost function Value(): State
      reads this
    {
      State(Db(daily, monthly), events)
    }

    constructor (group: Grouping)
      ensures Value() == State(Db(map[], map[]), []) && this.group == group
    {
      daily, monthly, events := map[], map[], [];
      this.group := group;
    }

    method UpdateRollups(e: Event)
      modifies this`daily
      ensures daily == BumpAll(old(daily), e.day, Metrics(e, group))
    {
      var series := Metrics(e, group);
      for i := 0 to |series|
        invariant BumpAll(daily, e.day, series[i..]) == BumpAll(old(daily), e.day, series)
      {
        var row := (e.day, series[i]);
        assert series[i..][0] == series[i] && series[i..][1..] == series[i + 1..];
        if row !in daily {
          daily := daily[row := 1];
        } else {
          daily := daily[row := daily[row] + 1];
        }
      }
    }

    method StoreEvent(e: Event)
      modifies this
      ensures Value() == Apply(old(Value()), Op.StoreEvent(e), group)
    {
      events := events + [e];
      UpdateRollups(e);
    }

    /** Adds one month's daily sums to its monthly rows, creating those that are missing. */
    method AddSums(month: nat)
      modifies this`monthly
      ensures monthly == WithSums(old(monthly), daily, MonthRows(daily, {month}))
    {
      ghost var all := MonthRows(daily, {month});
      var rows := MonthRows(daily, {month});
      while rows != {}
        invariant rows <= all
        invariant monthly == WithSums(old(monthly), daily, all - rows)
        decreases rows
      {
        var row :| row in rows;
        WithSumsNext(old(monthly), daily, all, rows, row);
        monthly := monthly[row := At(monthly, row) + DaySum(daily, row.0, row.1, LAST_DAY)];
        rows := rows - {row};
      }
      assert all - {} == all;
    }

    /** One month of the compaction loop. */
    method CompactMonth(month: nat)
      modifies this`daily, this`monthly
      ensures Db(daily, monthly) == Compacted(old(Db(daily, monthly)), {month})
    {
      AddSums(month);
      daily := map row | row in daily && row.0.month !in {month} :: daily[row];
    }

    method CompactCompleted(oldest: nat) returns (compacted: nat)
      modifies this`daily, this`monthly
      ensures Value() == Apply(old(Value()), Compact(oldest), group)
      ensures compacted == |Months(old(daily), oldest)|
    {
      ghost var all := Months(daily, oldest);
      ghost var before := Db(daily, monthly);
      var months := Months(daily, oldest);
      compacted := 0;
      assert Compacted(before, {}) == before;
      while months != {}
        invariant months <= all && compacted == |all| - |months|
        invariant Db(daily, monthly) == Compacted(before, all - months)
        decreases months
      {
        var month :| month in months;
        CompactMonth(month);
        CompactedAdd(before, all - months, month);
        Unpicked(all, months, month);
        months := months - {month};
        compacted := compacted + 1;
      }
      assert all - {} == all;
    }

    method CleanupByRetention(days: int, now: int, oldest: nat) returns (deleted: nat)
      modifies this
      ensures Value() == Apply(old(Value()), Retain(days, now, oldest), group)
      ensures deleted == |old(events)| - |events|
    {
      if days <= 0 {
        return 0;
      }
      var _ := CompactCompleted(oldest);
      var before := |events|;
      KeptAtMost(events, now - days * MICROSECONDS_PER_DAY);
      events := KeptEvents(events, now - days * MICROSECONDS_PER_DAY);
      deleted := before - |events|;
    }

    method CleanupDuplicates() returns (deleted: nat)
      modifies this
      ensures DuplicateCleanup.Cleaned(Db(daily, monthly), events, deleted) ==
              DuplicateCleanup.Cleanup(old(Db(daily, monthly)), old(events), group)
    {
      var kept := DuplicateCleanup.Deduplicated(events);
      if |kept| >= |events| {
        events := kept;
        return 0;
      }
      deleted := |events| - |kept|;
      events := kept;
      daily, monthly := map[], map[];
      ghost var target := DuplicateCleanup.IngestAll(Db(map[], map[]), kept, group);
      for i := 0 to |kept|
        invariant events == kept && DuplicateCleanup.IngestAll(Db(daily, monthly), kept[i..], group) == target
      {
        assert kept[i..][0] == kept[i] && kept[i..][1..] == kept[i + 1..];
        UpdateRollups(kept[i]);
      }
    }
  }

  lemma {:induction false} KeptAtMost(events: seq<Event>, cutoff: int)
    ensures |KeptEvents(events, cutoff)| <= |events|
  {
    if events != [] {
      KeptAtMost(events[1..], cutoff);
    }
  }
}
