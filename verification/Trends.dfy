/** The resumable daily trend cycle (backend/app/services/insight_trends.py): a cursor over
    (metric, dimension) with one work budget for both metrics of a tick. */
module Trends {
  import opened Wrappers
  import opened Keyset

  const MAX_GROUPS: nat := 100
  /** Microseconds, the resolution of the stored times. */
  const DAY: int := 24 * 3600 * 1_000_000

  /** The metrics in their fixed order, which is also the order of their names; NONE is the empty
      metric cursor. */
  const NONE: nat := 0
  const ACCESS: nat := 1
  const GEOBLOCK: nat := 2

  /** A compared series: an asset id, or a country code as its position among the two-letter
      codes; 0 is the cursor before the first one. */
  type Group = (nat, nat)

  predicate Before(a: Group, b: Group) {
    a.0 < b.0 || (a.0 == b.0 && a.1 < b.1)
  }

  /** What the tick finds out about one metric's sources. */
  datatype Source = Source(failing: bool, ready: bool, covered: bool)

  /** `groups(end, metric)`: the dimensions that have events in the windows before `end`, ascending. */
  datatype Env = Env(today: int, access: Source, geoblock: Source, groups: (int, nat) -> seq<nat>) {
    function SourceOf(metric: nat): Source {
      if metric == ACCESS then access else geoblock
    }

    ghost predicate Ok() {
      && today % DAY == 0
      && (access.failing ==> !access.ready) && (geoblock.failing ==> !geoblock.ready)
      && forall end, m :: Ascending(groups(end, m))
    }
  }

  datatype Cycle = Cycle(end: int, lastMetric: nat, lastDimension: nat, completed: bool)

  /** A stored dimension cursor: a JSON number, a JSON string that is empty or a country code, or
      anything else. */
  datatype StoredDimension = Number(value: int) | Code(rank: nat) | Other

  datatype StoredCycle =
    | Unreadable
    | Stored(end: int, lastMetric: Option<nat>, lastDimension: StoredDimension, completed: Option<bool>)

  function Save(c: Cycle): StoredCycle {
    Stored(c.end, Some(c.lastMetric),
           if c.lastMetric == ACCESS then Number(c.lastDimension) else Code(c.lastDimension),
           Some(c.completed))
  }

  function Fresh(today: int): Cycle {
    Cycle(today, NONE, 0, false)
  }

  /** `_cycle`: the stored cycle when it is valid and still to be used, else a new one for today. */
  function Load(row: Option<StoredCycle>, today: int): Cycle {
    if row.None? || row.value.Unreadable? then Fresh(today)
    else
      var s := row.value;
      if s.end % DAY != 0 || s.end > today || s.completed.None? || s.lastMetric.None?
         || s.lastMetric.value > GEOBLOCK then Fresh(today)
      else if s.lastMetric.value == ACCESS && !(s.lastDimension.Number? && s.lastDimension.value >= 0) then Fresh(today)
      else if s.lastMetric.value != ACCESS && !s.lastDimension.Code? then Fresh(today)
      else if s.completed.value && s.end != today then Fresh(today)
      else
        Cycle(s.end, s.lastMetric.value,
              if s.lastDimension.Number? then s.lastDimension.value else s.lastDimension.rank, s.completed.value)
  }

  // ---- One tick ------------------------------------------------------------------------------------

  datatype Scan = Scan(cycle: Cycle, visited: seq<Group>, stopped: bool)

  function Tag(metric: nat, dimensions: seq<nat>): (r: seq<Group>)
    ensures |r| == |dimensions|
    ensures forall i :: 0 <= i < |r| ==> r[i] == (metric, dimensions[i])
  {
    if dimensions == [] then [] else [(metric, dimensions[0])] + Tag(metric, dimensions[1..])
  }

  function CursorFor(c: Cycle, metric: nat): nat {
    if c.lastMetric == metric then c.lastDimension else 0
  }

  function Page(c: Cycle, e: Env, metric: nat, budget: nat): seq<nat> {
    Take(Above(e.groups(c.end, metric), CursorFor(c, metric)), budget)
  }

  /** The loop body for one metric. */
  function ScanMetric(s: Scan, e: Env, metric: nat): Scan
    requires |s.visited| <= MAX_GROUPS
  {
    var source := e.SourceOf(metric);
    if s.stopped || metric < s.cycle.lastMetric then s
    else if source.failing then s.(stopped := true)
    else if !source.ready || !source.covered then s
    else
      var page := Page(s.cycle, e, metric, MAX_GROUPS - |s.visited|);
      var cycle :=
        if page == [] then s.cycle else s.cycle.(lastMetric := metric, lastDimension := page[|page| - 1]);
      Scan(cycle, s.visited + Tag(metric, page), |s.visited| + |page| == MAX_GROUPS)
  }

  function ScanBoth(c: Cycle, e: Env): Scan {
    ScanMetric(ScanMetric(Scan(c, [], false), e, ACCESS), e, GEOBLOCK)
  }

  datatype TickResult = TickResult(cycle: Cycle, visited: seq<Group>)

  function Advance(c: Cycle, e: Env): TickResult {
    if c.completed then TickResult(c, [])
    else
      var s := ScanBoth(c, e);
      TickResult(s.cycle.(completed := !s.stopped), s.visited)
  }

  // ---- In place --------------------------------------------------------------------------------------

  class Worker {
    var row: Option<StoredCycle>
    ghost var visited: seq<Group>

    constructor ()
      ensures row == None && visited == []
    {
      row, visited := None, [];
    }

    /** The inner loop: one comparison per group, and the cursor follows. */
    method VisitPage(c: Cycle, metric: nat, page: seq<nat>) returns (after: Cycle, ghost log: seq<Group>)
      ensures log == Tag(metric, page)
      ensures after == if page == [] then c else c.(lastMetric := metric, lastDimension := page[|page| - 1])
    {
      after, log := c, [];
      for i := 0 to |page|
        invariant |log| == i && forall k :: 0 <= k < i ==> log[k] == (metric, page[k])
        invariant after == if i == 0 then c else c.(lastMetric := metric, lastDimension := page[i - 1])
      {
        log := log + [(metric, page[i])];
        after := after.(lastMetric := metric, lastDimension := page[i]);
      }
      assert log == Tag(metric, page);
    }

    /** The loop body for one metric that the cycle has not passed. */
    method VisitMetric(c: Cycle, e: Env, metric: nat, ghost seen: seq<Group>, processed: nat)
      returns (after: Cycle, ghost log: seq<Group>, count: nat, stopped: bool)
      requires |seen| == processed < MAX_GROUPS
      ensures Scan(after, log, stopped) == ScanMetric(Scan(c, seen, false), e, metric)
      ensures count == |log| <= MAX_GROUPS && (stopped || count < MAX_GROUPS)
    {
      after, log, count, stopped := c, seen, processed, false;
      var source := e.SourceOf(metric);
      if metric < c.lastMetric {
        return;
      }
      if source.failing {
        return c, seen, processed, true;
      }
      if source.ready && source.covered {
        var page := Page(c, e, metric, MAX_GROUPS - processed);
        ghost var visits;
        after, visits := VisitPage(c, metric, page);
        log, count := seen + visits, processed + |page|;
        stopped := count == MAX_GROUPS;
      }
    }

    method Tick(e: Env) returns (processed: nat, completed: bool)
      requires e.Ok()
      modifies this
      ensures var r := Advance(Load(old(row), e.today), e);
              && row == Some(Save(r.cycle)) && visited == old(visited) + r.visited
              && processed == |r.visited| && completed == r.cycle.completed
    {
      var state := Load(row, e.today);
      ghost var log: seq<Group> := [];
      ghost var start := state;
      processed := 0;
      if !state.completed {
        var stopped := false;
        var metric := ACCESS;
        while metric <= GEOBLOCK && !stopped
          invariant ACCESS <= metric <= GEOBLOCK + 1 && processed == |log| <= MAX_GROUPS
          invariant stopped || processed < MAX_GROUPS
          invariant row == old(row) && visited == old(visited)
          invariant metric == ACCESS ==> Scan(state, log, stopped) == Scan(start, [], false)
          invariant metric == GEOBLOCK ==> Scan(state, log, stopped) == ScanMetric(Scan(start, [], false), e, ACCESS)
          invariant metric == GEOBLOCK + 1 ==> Scan(state, log, stopped) == ScanBoth(start, e)
          decreases GEOBLOCK + 1 - metric
        {
          state, log, processed, stopped := VisitMetric(state, e, metric, log, processed);
          metric := metric + 1;
        }
        assert Scan(state, log, stopped) == ScanBoth(start, e);
        state := state.(completed := !stopped);
      }
      assert TickResult(state, log) == Advance(start, e);
      row := Some(Save(state));
      visited := visited + log;
      completed := state.completed;
    }
  }
}
