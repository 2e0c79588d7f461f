/** Which groups a completed trend window missed, because a metric was not ready when the cycle went
    past it (backend/app/services/insight_trends.py, `run_trend_tick`). */
module TrendSkips {
  import opened Wrappers
  import opened Keyset
  import opened Trends
  import opened TrendRuns
  import opened TrendStored

  /** The tick may read the metric. */
  predicate CanRead(e: Env, metric: nat) {
    var source := e.SourceOf(metric);
    source.ready && source.covered && !source.failing
  }

  /** The tick leaves the metric behind for good: a later one was visited, or the cycle is completed. */
  predicate Passes(c: Cycle, e: Env, metric: nat) {
    var left := Advance(c, e).cycle;
    !c.completed && c.lastMetric <= metric && (left.completed || left.lastMetric > metric)
  }

  /** The tick passes a metric it cannot read, with groups ahead. */
  ghost predicate SkipsMetric(c: Cycle, e: Env, metric: nat) {
    Passes(c, e, metric) && !CanRead(e, metric) && Ahead(c, e, metric) != []
  }

  ghost predicate Skips(c: Cycle, e: Env) {
    SkipsMetric(c, e, ACCESS) || SkipsMetric(c, e, GEOBLOCK)
  }

  // ---- One tick ------------------------------------------------------------------------------------

  /** What one metric of a tick adds, and what it leaves ahead. */
  lemma ScanReads(s: Scan, e: Env, metric: nat)
    requires e.Ok() && (metric == ACCESS || metric == GEOBLOCK)
    requires !s.stopped && |s.visited| < MAX_GROUPS && s.cycle.lastMetric <= metric
    ensures var t := ScanMetric(s, e, metric);
            && (CanRead(e, metric) ==>
                  && s.visited + Ahead(s.cycle, e, metric) == t.visited + Ahead(t.cycle, e, metric)
                  && (!t.stopped ==> Ahead(t.cycle, e, metric) == [])
                  && (t.cycle == s.cycle || t.cycle.lastMetric == metric))
            && (!CanRead(e, metric) ==> t.cycle == s.cycle && t.visited == s.visited)
            && (!t.stopped ==> !e.SourceOf(metric).failing && |t.visited| < MAX_GROUPS)
            && t.cycle.end == s.cycle.end
  {
    if CanRead(e, metric) {
      PageStep(s, e, metric);
    }
  }

  lemma AheadSame(c: Cycle, d: Cycle, e: Env, metric: nat)
    requires c.end == d.end && (c.lastMetric == metric <==> d.lastMetric == metric)
    requires c.lastMetric == metric ==> c.lastDimension == d.lastDimension
    ensures Ahead(c, e, metric) == Ahead(d, e, metric)
  {
  }

  /** The two metrics of a tick, one after the other. */
  ghost predicate TickParts(c: Cycle, e: Env, t: Scan, u: Scan) {
    && t == ScanMetric(Scan(c, [], false), e, ACCESS) && |t.visited| <= MAX_GROUPS
    && u == ScanMetric(t, e, GEOBLOCK)
    && Advance(c, e) == TickResult(u.cycle.(completed := !u.stopped), u.visited)
  }

  lemma TickInParts(c: Cycle, e: Env) returns (t: Scan, u: Scan)
    requires e.Ok() && Good(c) && !c.completed
    ensures TickParts(c, e, t, u) && Scanning(Cursor(c), t)
  {
    t := ScanMetric(Scan(c, [], false), e, ACCESS);
    ScanKeeps(Scan(c, [], false), e, ACCESS, Cursor(c));
    u := ScanMetric(t, e, GEOBLOCK);
  }

  lemma AccessPart(c: Cycle, e: Env, t: Scan, u: Scan)
    requires e.Ok() && Good(c) && !c.completed && TickParts(c, e, t, u)
    ensures c.lastMetric == GEOBLOCK ==> t == Scan(c, [], false)
    ensures c.lastMetric <= ACCESS && CanRead(e, ACCESS) ==>
              && Ahead(c, e, ACCESS) == t.visited + Ahead(t.cycle, e, ACCESS)
              && (!t.stopped ==> Ahead(t.cycle, e, ACCESS) == [])
    ensures c.lastMetric <= ACCESS && !CanRead(e, ACCESS) ==> t.cycle == c && t.visited == []
    ensures t.cycle.end == c.end && (c.lastMetric <= ACCESS ==> t.cycle.lastMetric <= ACCESS)
    ensures Ahead(t.cycle, e, GEOBLOCK) == Ahead(c, e, GEOBLOCK)
    ensures c.lastMetric <= ACCESS && !t.stopped ==> |t.visited| < MAX_GROUPS && !e.access.failing
  {
    if c.lastMetric <= ACCESS {
      ScanReads(Scan(c, [], false), e, ACCESS);
      assert [] + Ahead(c, e, ACCESS) == Ahead(c, e, ACCESS);
      AheadSame(c, t.cycle, e, GEOBLOCK);
    }
  }

  lemma GeoblockPart(c: Cycle, e: Env, t: Scan, u: Scan)
    requires e.Ok() && Good(c) && !c.completed && TickParts(c, e, t, u)
    requires t.cycle.lastMetric <= GEOBLOCK && (!t.stopped ==> |t.visited| < MAX_GROUPS)
    ensures t.stopped ==> u == t
    ensures !t.stopped && CanRead(e, GEOBLOCK) ==>
              && t.visited + Ahead(t.cycle, e, GEOBLOCK) == u.visited + Ahead(u.cycle, e, GEOBLOCK)
              && (!u.stopped ==> Ahead(u.cycle, e, GEOBLOCK) == [])
              && (u.cycle == t.cycle || u.cycle.lastMetric == GEOBLOCK)
    ensures !t.stopped && !CanRead(e, GEOBLOCK) ==> u.cycle == t.cycle && u.visited == t.visited
    ensures u.cycle.end == t.cycle.end
  {
    if !t.stopped {
      ScanReads(t, e, GEOBLOCK);
    }
  }

  /** The tick visits what is next and leaves the rest; completing, it leaves nothing. */
  ghost predicate Drains(c: Cycle, e: Env) {
    var r := Advance(c, e);
    Pending(c, e) == r.visited + Pending(r.cycle, e) && (r.cycle.completed ==> Pending(r.cycle, e) == [])
  }

  lemma LeftAhead(c: Cycle, e: Env, t: Scan, u: Scan)
    requires TickParts(c, e, t, u)
    ensures var left := Advance(c, e).cycle;
            && Ahead(left, e, ACCESS) == Ahead(u.cycle, e, ACCESS) && Ahead(left, e, GEOBLOCK) == Ahead(u.cycle, e, GEOBLOCK)
            && left.lastMetric == u.cycle.lastMetric && (left.completed <==> !u.stopped)
  {
    AheadSame(u.cycle, Advance(c, e).cycle, e, GEOBLOCK);
    AheadSame(u.cycle, Advance(c, e).cycle, e, ACCESS);
  }

  /** The second metric, when the first is behind or not there. */
  lemma GeoblockOnly(c: Cycle, e: Env, t: Scan, u: Scan)
    requires e.Ok() && Good(c) && !c.completed && TickParts(c, e, t, u) && t == Scan(c, [], false)
    requires !SkipsMetric(c, e, GEOBLOCK)
    ensures Ahead(c, e, GEOBLOCK) == u.visited + Ahead(u.cycle, e, GEOBLOCK)
    ensures !u.stopped ==> Ahead(u.cycle, e, GEOBLOCK) == []
    ensures u.cycle == c ==> u.visited == [] || c.lastMetric == GEOBLOCK
    ensures u.cycle == c || u.cycle.lastMetric == GEOBLOCK
  {
    GeoblockPart(c, e, t, u);
    LeftAhead(c, e, t, u);
    assert [] + Ahead(c, e, GEOBLOCK) == Ahead(c, e, GEOBLOCK);
  }

  lemma DrainsGeoblock(c: Cycle, e: Env, t: Scan, u: Scan)
    requires e.Ok() && Good(c) && !c.completed && !Skips(c, e) && TickParts(c, e, t, u) && c.lastMetric == GEOBLOCK
    ensures Drains(c, e)
  {
    AccessPart(c, e, t, u);
    GeoblockOnly(c, e, t, u);
    LeftAhead(c, e, t, u);
    PendingGeoblock(c, e);
    PendingGeoblock(Advance(c, e).cycle, e);
  }

  lemma DrainsUnread(c: Cycle, e: Env, t: Scan, u: Scan)
    requires e.Ok() && Good(c) && !c.completed && !Skips(c, e) && TickParts(c, e, t, u)
    requires c.lastMetric <= ACCESS && !CanRead(e, ACCESS) && !t.stopped
    ensures Drains(c, e)
  {
    AccessPart(c, e, t, u);
    GeoblockOnly(c, e, t, u);
    LeftAhead(c, e, t, u);
    if u.cycle == c {
      assert !u.stopped ==> Ahead(c, e, ACCESS) == [];
      DrainsNothing(c, e, u);
    } else {
      assert Ahead(c, e, ACCESS) == [];
      DrainsSecond(c, e, u);
    }
  }

  lemma DrainsNothing(c: Cycle, e: Env, u: Scan)
    requires c.lastMetric <= ACCESS && Advance(c, e) == TickResult(c.(completed := !u.stopped), []) && !c.completed
    requires !u.stopped ==> Pending(c, e) == []
    ensures Drains(c, e)
  {
    AheadSame(c, Advance(c, e).cycle, e, GEOBLOCK);
    AheadSame(c, Advance(c, e).cycle, e, ACCESS);
    assert [] + Pending(c, e) == Pending(c, e);
  }

  lemma DrainsSecond(c: Cycle, e: Env, u: Scan)
    requires c.lastMetric <= ACCESS && Ahead(c, e, ACCESS) == []
    requires var r := Advance(c, e);
             && r.cycle.lastMetric == GEOBLOCK && Ahead(c, e, GEOBLOCK) == r.visited + Ahead(r.cycle, e, GEOBLOCK)
             && (r.cycle.completed ==> Ahead(r.cycle, e, GEOBLOCK) == [])
    ensures Drains(c, e)
  {
    PendingGeoblock(Advance(c, e).cycle, e);
    assert [] + Ahead(c, e, GEOBLOCK) == Ahead(c, e, GEOBLOCK);
  }

  lemma DrainsRead(c: Cycle, e: Env, t: Scan, u: Scan)
    requires e.Ok() && Good(c) && !c.completed && !Skips(c, e) && TickParts(c, e, t, u)
    requires c.lastMetric <= ACCESS && CanRead(e, ACCESS) && !t.stopped
    ensures Drains(c, e)
  {
    AccessPart(c, e, t, u);
    GeoblockPart(c, e, t, u);
    LeftAhead(c, e, t, u);
    var access, geo, rest := Ahead(c, e, ACCESS), Ahead(c, e, GEOBLOCK), Ahead(u.cycle, e, GEOBLOCK);
    assert access == t.visited + [] == t.visited;
    assert t.visited + geo == u.visited + rest;
    assert [] + rest == rest;
    assert Pending(Advance(c, e).cycle, e) == rest;
  }

  lemma DrainsStopped(c: Cycle, e: Env, t: Scan, u: Scan)
    requires e.Ok() && Good(c) && !c.completed && TickParts(c, e, t, u) && c.lastMetric <= ACCESS && t.stopped
    ensures Drains(c, e)
  {
    AccessPart(c, e, t, u);
    LeftAhead(c, e, t, u);
    var geo := Ahead(c, e, GEOBLOCK);
    if CanRead(e, ACCESS) {
      assert (t.visited + Ahead(t.cycle, e, ACCESS)) + geo == t.visited + (Ahead(t.cycle, e, ACCESS) + geo);
    } else {
      assert [] + Pending(c, e) == Pending(c, e);
    }
  }

  lemma TickWithoutSkip(c: Cycle, e: Env)
    requires e.Ok() && Good(c) && !c.completed && !Skips(c, e)
    ensures Drains(c, e)
  {
    var t, u := TickInParts(c, e);
    if c.lastMetric == GEOBLOCK {
      DrainsGeoblock(c, e, t, u);
    } else if t.stopped {
      DrainsStopped(c, e, t, u);
    } else if CanRead(e, ACCESS) {
      DrainsRead(c, e, t, u);
    } else {
      DrainsUnread(c, e, t, u);
    }
  }

  lemma {:induction false} VisitsOfMetric(c: Cycle, e: Env, metric: nat)
    requires e.Ok() && Good(c) && !c.completed && !CanRead(e, metric) && (metric == ACCESS || metric == GEOBLOCK)
    ensures forall i :: 0 <= i < |Advance(c, e).visited| ==> Advance(c, e).visited[i].0 != metric
  {
    var t := ScanMetric(Scan(c, [], false), e, ACCESS);
    ScanKeeps(Scan(c, [], false), e, ACCESS, Cursor(c));
    forall i | 0 <= i < |Advance(c, e).visited| ensures Advance(c, e).visited[i].0 != metric {
    }
  }

  /** Every group a tick visits has events in the cycle's window, and its metric's source is ready, covered and
      not failing: the access source for the first metric, the block source for the second. */
  lemma {:induction false} VisitsAreGroups(c: Cycle, e: Env, i: nat)
    requires e.Ok() && Good(c) && i < |Advance(c, e).visited|
    ensures var g := Advance(c, e).visited[i];
            && !c.completed && (g.0 == ACCESS || g.0 == GEOBLOCK) && g.1 in e.groups(c.end, g.0)
            && (g.0 == ACCESS ==> e.access.ready && e.access.covered && !e.access.failing)
            && (g.0 == GEOBLOCK ==> e.geoblock.ready && e.geoblock.covered && !e.geoblock.failing)
  {
    var s := Scan(c, [], false);
    var t := ScanMetric(s, e, ACCESS);
    ScanKeeps(s, e, ACCESS, Cursor(c));
    if i < |t.visited| {
      ScanVisits(s, e, ACCESS, i);
      assert Advance(c, e).visited[i] == t.visited[i];
    } else {
      ScanVisits(t, e, GEOBLOCK, i);
    }
  }

  lemma PageIsListed(c: Cycle, e: Env, metric: nat, budget: nat, k: nat)
    requires k < |Page(c, e, metric, budget)|
    ensures Page(c, e, metric, budget)[k] in e.groups(c.end, metric)
  {
    var above := Above(e.groups(c.end, metric), CursorFor(c, metric));
    AboveMembers(e.groups(c.end, metric), CursorFor(c, metric));
    assert Page(c, e, metric, budget)[k] == above[k];
  }

  lemma ScanVisits(s: Scan, e: Env, metric: nat, i: nat)
    requires |s.visited| <= MAX_GROUPS && |s.visited| <= i < |ScanMetric(s, e, metric).visited|
    ensures var g := ScanMetric(s, e, metric).visited[i];
            CanRead(e, metric) && g.0 == metric && g.1 in e.groups(s.cycle.end, metric)
  {
    var page := Page(s.cycle, e, metric, MAX_GROUPS - |s.visited|);
    var k := i - |s.visited|;
    assert ScanMetric(s, e, metric).visited == s.visited + Tag(metric, page);
    assert (s.visited + Tag(metric, page))[i] == Tag(metric, page)[k] == (metric, page[k]);
    PageIsListed(s.cycle, e, metric, MAX_GROUPS - |s.visited|, k);
  }

  /** Where a tick passes a metric, all its groups ahead are visited if and only if the tick can read it or
      there is none. */
  lemma {:induction false} PassedMetricIff(c: Cycle, e: Env, metric: nat)
    requires e.Ok() && Good(c) && Passes(c, e, metric) && (metric == ACCESS || metric == GEOBLOCK)
    ensures (forall i :: 0 <= i < |Ahead(c, e, metric)| ==> Ahead(c, e, metric)[i] in Advance(c, e).visited) <==>
            CanRead(e, metric) || Ahead(c, e, metric) == []
  {
  }

  /** A skipped group is in no later visit of the cycle. */
  lemma SkippedForGood(c: Cycle, e: Env, metric: nat, envs: seq<Env>) returns (g: Group)
    requires e.Ok() && AllOk(envs) && Good(c) && SkipsMetric(c, e, metric) && (metric == ACCESS || metric == GEOBLOCK)
    ensures g in Pending(c, e)
    ensures g !in Advance(c, e).visited + Visited(Advance(c, e).cycle, envs)
  {
    var ahead, r := Ahead(c, e, metric), Advance(c, e);
    g := ahead[0];
    VisitsOfMetric(c, e, metric);
    TickKeeps(c, e);
    if r.cycle.completed {
      CompletedStays(r.cycle, envs);
    } else {
      PassedForGood(r.cycle, envs);
    }
  }

  // ---- One cycle -----------------------------------------------------------------------------------

  ghost predicate NothingSkipped(c: Cycle, envs: seq<Env>)
    decreases |envs|
  {
    envs == [] || (!Skips(c, envs[0]) && NothingSkipped(Advance(c, envs[0]).cycle, envs[1..]))
  }

  lemma {:induction false} CompletedSkipsNothing(c: Cycle, envs: seq<Env>)
    requires c.completed
    ensures NothingSkipped(c, envs)
    decreases |envs|
  {
    if envs != [] {
      CompletedSkipsNothing(c, envs[1..]);
    }
  }

  lemma SamePrefix(a: seq<Group>, b: seq<Group>, c: seq<Group>)
    ensures a + b == a + c <==> b == c
  {
    assert b == (a + b)[|a|..] && c == (a + c)[|a|..];
  }

  /** A cycle that is completed on fixed data has visited all that was pending if and only if no tick
      skipped a group, whatever its sources did. */
  lemma {:induction false} CompletedVisitsAllIff(c: Cycle, envs: seq<Env>)
    requires AllOk(envs) && SameData(envs) && envs != [] && Good(c) && !c.completed && After(c, envs).completed
    ensures Visited(c, envs) == Pending(c, envs[0]) <==> NothingSkipped(c, envs)
    decreases |envs|
  {
    var e, rest := envs[0], envs[1..];
    var r := Advance(c, e);
    assert e.Ok() && AllOk(rest);
    TickKeeps(c, e);
    if Skips(c, e) {
      var g := SkippedForGood(c, e, if SkipsMetric(c, e, ACCESS) then ACCESS else GEOBLOCK, rest);
    } else {
      TickWithoutSkip(c, e);
      if r.cycle.completed {
        CompletedStays(r.cycle, rest);
        CompletedSkipsNothing(r.cycle, rest);
      } else {
        assert rest != [] && rest[0] == envs[1] && envs[1].groups == e.groups;
        assert Pending(r.cycle, rest[0]) == Pending(r.cycle, e);
        CompletedVisitsAllIff(r.cycle, rest);
        SamePrefix(r.visited, Visited(r.cycle, rest), Pending(r.cycle, e));
      }
    }
  }

  // ---- From stored row to stored row ---------------------------------------------------------------

  lemma {:induction false} SkippedSnoc(c: Cycle, envs: seq<Env>, e: Env)
    ensures NothingSkipped(c, envs + [e]) <==> NothingSkipped(c, envs) && !Skips(After(c, envs), e)
    decreases |envs|
  {
    var all := envs + [e];
    if envs == [] {
      assert all[1..] == [];
    } else {
      assert all[1..] == envs[1..] + [e];
      SkippedSnoc(Advance(c, envs[0]).cycle, envs[1..], e);
    }
  }

  /** No tick under the window skipped a group. */
  ghost predicate NoSkipUnder(ts: seq<Tick>, envs: seq<Env>, end: int)
    requires |ts| == |envs|
  {
    forall k :: 0 <= k < |ts| && ts[k].left.end == end ==> !Skips(ts[k].loaded, envs[k])
  }

  lemma {:induction false} SkipsLikeMemory(ts: seq<Tick>, envs: seq<Env>)
    requires Linked(ts) && NeverAhead(ts) && ts != [] && |ts| == |envs|
    requires forall i :: 0 <= i < |ts| ==> Ran(ts[i], envs[i])
    ensures NothingSkipped(ts[0].loaded, envs) <==> NoSkipUnder(ts, envs, ts[0].loaded.end)
  {
    var m := |ts| - 1;
    assert Ran(ts[m], envs[m]) && Sound(ts[m]);
    if m == 0 {
      FirstSkips(ts[0], envs[0]);
      assert ts == [ts[0]] && envs == [envs[0]];
    } else {
      BeforeKeeps(ts, envs);
      SkipsLikeMemory(ts[..m], envs[..m]);
      FirstWindowIsOneCycle(ts[..m], envs[..m]);
      assert ts[..m][m - 1] == ts[m - 1] && Sound(ts[m - 1]) && Follows(ts[m - 1], ts[m]) && !AheadOfClock(ts[m - 1], ts[m]);
      SkipsSnoc(ts, envs, ts[0].loaded);
    }
  }

  lemma FirstSkips(t: Tick, e: Env)
    requires Ran(t, e) && Sound(t)
    ensures NothingSkipped(t.loaded, [e]) <==> NoSkipUnder([t], [e], t.loaded.end)
  {
    assert [e][1..] == [] && [t][0] == t;
  }

  lemma SkipsSnoc(ts: seq<Tick>, envs: seq<Env>, c: Cycle)
    requires |ts| == |envs| >= 2
    requires var a, b := ts[|ts| - 2], ts[|ts| - 1];
             Sound(a) && Sound(b) && Follows(a, b) && !AheadOfClock(a, b)
             && AsInMemory(After(c, envs[..|ts| - 1]), a) && After(c, envs[..|ts| - 1]).end == c.end
    requires NothingSkipped(c, envs[..|ts| - 1]) <==> NoSkipUnder(ts[..|ts| - 1], envs[..|ts| - 1], c.end)
    ensures NothingSkipped(c, envs) <==> NoSkipUnder(ts, envs, c.end)
  {
    var m := |ts| - 1;
    assert envs == envs[..m] + [envs[m]];
    SkippedSnoc(c, envs[..m], envs[m]);
    SkipNow(ts[m - 1], ts[m], envs[m], After(c, envs[..m]));
    UnderSnoc(ts, envs, c.end);
  }

  lemma SkipNow(a: Tick, b: Tick, e: Env, c: Cycle)
    requires Sound(a) && Sound(b) && Follows(a, b) && !AheadOfClock(a, b) && AsInMemory(c, a)
    ensures Skips(c, e) <==> b.left.end == c.end && Skips(b.loaded, e)
  {
    if b.left.end == c.end {
      assert b.loaded == c;
    } else {
      assert c.completed;
    }
  }

  lemma UnderSnoc(ts: seq<Tick>, envs: seq<Env>, end: int)
    requires ts != [] && |ts| == |envs|
    ensures var m := |ts| - 1;
            NoSkipUnder(ts, envs, end) <==>
            NoSkipUnder(ts[..m], envs[..m], end) && (ts[m].left.end == end ==> !Skips(ts[m].loaded, envs[m]))
  {
    var m := |ts| - 1;
    assert forall k :: 0 <= k < m ==> ts[..m][k] == ts[k] && envs[..m][k] == envs[k];
  }

  /** While the day never steps back and the data is fixed, whatever the sources do: a window that a run
      begins and completes has had all its groups visited if and only if no tick under it skipped one. */
  lemma {:induction false} CompletedCoversIff(row: Option<StoredCycle>, envs: seq<Env>, i: nat)
    requires AllOk(envs) && DaysForward(envs) && i < |envs| && SameData(envs[i..])
    requires Begins(Ticks(row, envs), i) && Ticks(row, envs)[i].loaded == Fresh(envs[i].today)
    requires Completed(Ticks(row, envs), envs[i].today)
    ensures var ts, day := Ticks(row, envs), envs[i].today;
            VisitedUnder(ts, day) == AllGroups(envs[i], day) <==> NoSkipUnder(ts, envs, day)
  {
    RunIsLinked(row, envs);
    RunAdvances(row, envs);
    ForwardIsNeverAhead(row, envs);
    WindowCoversIff(Ticks(row, envs), envs, i);
  }

  lemma {:induction false} WindowCoversIff(ts: seq<Tick>, envs: seq<Env>, i: nat)
    requires Linked(ts) && NeverAhead(ts) && |ts| == |envs| && i < |ts| && Begins(ts, i)
    requires forall k :: 0 <= k < |ts| ==> Ran(ts[k], envs[k])
    requires AllOk(envs) && SameData(envs[i..]) && ts[i].loaded == Fresh(envs[i].today)
    requires Completed(ts, envs[i].today)
    ensures var day := envs[i].today;
            VisitedUnder(ts, day) == AllGroups(envs[i], day) <==> NoSkipUnder(ts, envs, day)
  {
    WindowIsOneCycle(ts, envs, i);
    WindowSkips(ts, envs, i);
    FreshCoversIff(envs[i..], envs[i].today);
  }

  lemma WindowSkips(ts: seq<Tick>, envs: seq<Env>, i: nat)
    requires Linked(ts) && NeverAhead(ts) && |ts| == |envs| && i < |ts| && Begins(ts, i)
    requires forall k :: 0 <= k < |ts| ==> Ran(ts[k], envs[k])
    ensures NothingSkipped(ts[i].loaded, envs[i..]) <==> NoSkipUnder(ts, envs, ts[i].loaded.end)
  {
    SuffixKeeps(ts, i);
    forall k | 0 <= k < |ts| - i ensures Ran(ts[i..][k], envs[i..][k]) {
      assert Ran(ts[i + k], envs[i + k]);
    }
    SkipsLikeMemory(ts[i..], envs[i..]);
    NotBefore(ts, i);
    assert Sound(ts[i]);
    UnderFrom(ts, envs, ts[i].loaded.end, i);
  }

  lemma UnderFrom(ts: seq<Tick>, envs: seq<Env>, end: int, i: nat)
    requires |ts| == |envs| && i <= |ts| && forall k :: 0 <= k < i ==> ts[k].left.end != end
    ensures NoSkipUnder(ts, envs, end) <==> NoSkipUnder(ts[i..], envs[i..], end)
  {
    assert forall k :: i <= k < |ts| ==> ts[k] == ts[i..][k - i] && envs[k] == envs[i..][k - i];
  }

  lemma {:induction false} FreshCoversIff(envs: seq<Env>, day: int)
    requires envs != [] && AllOk(envs) && SameData(envs) && envs[0].today == day && After(Fresh(day), envs).completed
    ensures Visited(Fresh(day), envs) == AllGroups(envs[0], day) <==> NothingSkipped(Fresh(day), envs)
  {
    assert envs[0].Ok();
    CompletedVisitsAllIff(Fresh(day), envs);
  }

  // ---- A concrete window ---------------------------------------------------------------------------

  /** The access metric is not ready, and one asset has access errors. */
  function NotReady(today: int): Env {
    Env(today, Source(false, false, true), READY, (end: int, metric: nat) => if metric == ACCESS then [5] else [])
  }

  /** The first tick of a window completes it and has visited nothing, though there is a group. */
  lemma SkippedGroup()
    ensures var ts, e := Ticks(None, [NotReady(DAY)]), NotReady(DAY);
            && e.Ok() && Completed(ts, DAY) && VisitedUnder(ts, DAY) == [] && AllGroups(e, DAY) == [(ACCESS, 5)]
  {
    var e := NotReady(DAY);
    var t := TickOf(None, e);
    AboveAll([5], 0);
    assert t == Tick(DAY, Fresh(DAY), Cycle(DAY, NONE, 0, true), []);
    var ts := Ticks(None, [e]);
    assert ts == [t] && ts[..0] == [];
    assert ts[0].left.end == DAY && ts[0].left.completed;
    assert Tag(ACCESS, [5]) + Tag(GEOBLOCK, []) == [(ACCESS, 5)];
  }
}
