/** What the trend cycle keeps: no group twice, all groups when nothing is missing, and no way
    past a failing metric. */
module TrendRuns {
  import opened Wrappers
  import opened Keyset
  import opened Trends

  ghost predicate AllOk(envs: seq<Env>) {
    forall i :: 0 <= i < |envs| ==> envs[i].Ok()
  }

  ghost predicate Good(c: Cycle) {
    c.end % DAY == 0 && c.lastMetric <= GEOBLOCK
  }

  // ---- The stored row ---------------------------------------------------------------------------

  /** A saved cycle is resumed unchanged exactly when it is unfinished or of today; after a clock
      step back before its day, or once finished and past its day, a new one starts. */
  lemma SavedRowResumesIff(c: Cycle, today: int)
    requires Good(c)
    ensures Load(Some(Save(c)), today) == c <==>
            (c.end <= today && (!c.completed || c.end == today)) || c == Fresh(today)
    ensures Load(Some(Save(c)), today) != c ==> Load(Some(Save(c)), today) == Fresh(today)
  {
  }

  /** Which stored rows are resumed, and as what: the window is a day's start that is not ahead of today, the
      metric cursor empty or one of the two metrics, the group cursor a number of its kind, and the row is
      unfinished or of today. Any other row is replaced by a new cycle for today. */
  lemma LoadIff(row: Option<StoredCycle>, today: int, c: Cycle)
    ensures var resumed :=
              && row.Some? && row.value.Stored? && row.value.completed.Some? && row.value.lastMetric.Some?
              && var s := row.value;
                 && s.end % 86_400_000_000 == 0 && s.end <= today && (!s.completed.value || s.end == today)
                 && if s.lastMetric.value == ACCESS then s.lastDimension.Number? && s.lastDimension.value >= 0
                    else (s.lastMetric.value == NONE || s.lastMetric.value == GEOBLOCK) && s.lastDimension.Code?;
            Load(row, today) == c <==>
              if resumed then
                && c.end == row.value.end && c.lastMetric == row.value.lastMetric.value
                && c.completed == row.value.completed.value
                && c.lastDimension == (if row.value.lastDimension.Number? then row.value.lastDimension.value
                                       else row.value.lastDimension.rank)
              else c == Cycle(today, NONE, 0, false)
  {
  }

  lemma LoadIsGood(row: Option<StoredCycle>, today: int)
    requires today % DAY == 0
    ensures Good(Load(row, today)) && Load(row, today).end <= today
  {
  }

  // ---- Order ------------------------------------------------------------------------------------

  ghost predicate Increasing(groups: seq<Group>) {
    forall i, j :: 0 <= i < j < |groups| ==> Before(groups[i], groups[j])
  }

  ghost function Cursor(c: Cycle): Group { (c.lastMetric, c.lastDimension) }

  ghost predicate AtOrBefore(a: Group, b: Group) { a == b || Before(a, b) }

  /** The groups lie after the cursor `from` and not after the cursor `to`, in increasing order. */
  ghost predicate Between(from: Group, groups: seq<Group>, to: Group) {
    && AtOrBefore(from, to) && Increasing(groups)
    && forall i :: 0 <= i < |groups| ==> Before(from, groups[i]) && AtOrBefore(groups[i], to)
  }

  lemma BetweenConcat(a: Group, xs: seq<Group>, b: Group, ys: seq<Group>, c: Group)
    requires Between(a, xs, b) && Between(b, ys, c)
    ensures Between(a, xs + ys, c)
  {
  }

  lemma {:induction false} PageRises(rows: seq<nat>, cut: nat, budget: nat, page: seq<nat>)
    requires Ascending(rows) && budget > 0 && page == Take(Above(rows, cut), budget)
    ensures Ascending(page)
    ensures forall i :: 0 <= i < |page| ==> page[i] > cut
  {
    AboveAscending(rows, cut);
    AboveMembers(rows, cut);
    TakePage(Above(rows, cut), budget);
    forall i | 0 <= i < |page| ensures page[i] > cut {
      assert page[i] in page;
    }
  }

  lemma {:induction false} TagBetween(from: Group, metric: nat, page: seq<nat>)
    requires Ascending(page) && page != [] && from.0 <= metric
    requires forall i :: 0 <= i < |page| ==> page[i] > if from.0 == metric then from.1 else 0
    ensures Between(from, Tag(metric, page), (metric, page[|page| - 1]))
  {
  }

  lemma {:induction false} PageBetween(c: Cycle, e: Env, metric: nat, budget: nat)
    requires e.Ok() && c.lastMetric <= metric && budget > 0
    ensures var page := Page(c, e, metric, budget);
            page != [] ==> Between(Cursor(c), Tag(metric, page), (metric, page[|page| - 1]))
  {
    var page, cut := Page(c, e, metric, budget), CursorFor(c, metric);
    PageRises(e.groups(c.end, metric), cut, budget, page);
    if page != [] {
      TagBetween(Cursor(c), metric, page);
    }
  }

  /** A scan in progress: what it visited since the cursor `from`, within its budget. */
  ghost predicate Scanning(from: Group, s: Scan) {
    && Between(from, s.visited, Cursor(s.cycle)) && s.cycle.end % DAY == 0 && s.cycle.lastMetric <= GEOBLOCK
    && |s.visited| <= MAX_GROUPS && (s.stopped || |s.visited| < MAX_GROUPS)
  }

  lemma ScanKeeps(s: Scan, e: Env, metric: nat, from: Group)
    requires e.Ok() && Scanning(from, s) && metric <= GEOBLOCK
    ensures Scanning(from, ScanMetric(s, e, metric))
    ensures ScanMetric(s, e, metric).cycle.end == s.cycle.end
    ensures ScanMetric(s, e, metric).cycle.lastMetric <= metric || ScanMetric(s, e, metric) == s
  {
    if !s.stopped && s.cycle.lastMetric <= metric {
      PageKeeps(s, e, metric, from);
    }
  }

  lemma PageKeeps(s: Scan, e: Env, metric: nat, from: Group)
    requires e.Ok() && Scanning(from, s) && metric <= GEOBLOCK && !s.stopped && s.cycle.lastMetric <= metric
    ensures var page := Page(s.cycle, e, metric, MAX_GROUPS - |s.visited|);
            var cycle :=
              if page == [] then s.cycle else s.cycle.(lastMetric := metric, lastDimension := page[|page| - 1]);
            Scanning(from, Scan(cycle, s.visited + Tag(metric, page), |s.visited| + |page| == MAX_GROUPS))
  {
    var page := Page(s.cycle, e, metric, MAX_GROUPS - |s.visited|);
    PageBetween(s.cycle, e, metric, MAX_GROUPS - |s.visited|);
    if page == [] {
      assert s.visited + Tag(metric, page) == s.visited;
    } else {
      BetweenConcat(from, s.visited, Cursor(s.cycle), Tag(metric, page), (metric, page[|page| - 1]));
    }
  }

  lemma TickKeeps(c: Cycle, e: Env)
    requires e.Ok() && Good(c)
    ensures var r := Advance(c, e);
            && Good(r.cycle) && r.cycle.end == c.end && |r.visited| <= MAX_GROUPS
            && Between(Cursor(c), r.visited, Cursor(r.cycle))
  {
    if !c.completed {
      var start := Scan(c, [], false);
      ScanKeeps(start, e, ACCESS, Cursor(c));
      ScanKeeps(ScanMetric(start, e, ACCESS), e, GEOBLOCK, Cursor(c));
    }
  }

  // ---- Runs on one cycle --------------------------------------------------------------------------

  ghost function After(c: Cycle, envs: seq<Env>): Cycle
    decreases |envs|
  {
    if envs == [] then c else After(Advance(c, envs[0]).cycle, envs[1..])
  }

  ghost function Visited(c: Cycle, envs: seq<Env>): seq<Group>
    decreases |envs|
  {
    if envs == [] then [] else Advance(c, envs[0]).visited + Visited(Advance(c, envs[0]).cycle, envs[1..])
  }

  /** Over all ticks on one cycle, whatever data and sources do meanwhile, the visited groups
      strictly increase in (metric, dimension) from the cycle's cursor on: none is visited twice. */
  lemma {:induction false} VisitsIncrease(c: Cycle, envs: seq<Env>)
    requires AllOk(envs) && Good(c)
    ensures Between(Cursor(c), Visited(c, envs), Cursor(After(c, envs)))
    ensures Good(After(c, envs)) && After(c, envs).end == c.end
    decreases |envs|
  {
    if envs != [] {
      TickKeeps(c, envs[0]);
      var r := Advance(c, envs[0]);
      VisitsIncrease(r.cycle, envs[1..]);
      BetweenConcat(Cursor(c), r.visited, Cursor(r.cycle), Visited(r.cycle, envs[1..]), Cursor(After(c, envs)));
    }
  }

  // ---- Blocking -----------------------------------------------------------------------------------

  /** A metric whose source is failing, and that the cycle has not passed, is not passed: the tick
      visits earlier metrics only and does not complete. */
  lemma {:induction false} FailingBlocks(c: Cycle, e: Env, metric: nat)
    requires e.Ok() && Good(c) && !c.completed && (metric == ACCESS || metric == GEOBLOCK)
    requires e.SourceOf(metric).failing && c.lastMetric <= metric
    ensures var r := Advance(c, e);
            && !r.cycle.completed && r.cycle.lastMetric <= metric
            && forall i :: 0 <= i < |r.visited| ==> r.visited[i].0 < metric
  {
    var start := Scan(c, [], false);
    ScanKeeps(start, e, ACCESS, Cursor(c));
  }

  /** A metric that is merely not ready is passed for good: once a later metric has been visited,
      the rest of the cycle never returns to it. */
  lemma {:induction false} PassedForGood(c: Cycle, envs: seq<Env>)
    requires AllOk(envs) && Good(c) && c.lastMetric == GEOBLOCK
    ensures forall i :: 0 <= i < |Visited(c, envs)| ==> Visited(c, envs)[i].0 == GEOBLOCK
  {
    VisitsIncrease(c, envs);
  }

  // ---- Coverage and length ------------------------------------------------------------------------

  ghost predicate Undisturbed(e: Env) {
    e.access.ready && e.access.covered && e.geoblock.ready && e.geoblock.covered
  }

  ghost function Ahead(c: Cycle, e: Env, metric: nat): seq<Group> {
    Tag(metric, Above(e.groups(c.end, metric), CursorFor(c, metric)))
  }

  /** What lies behind a page is what the cursor at its end still selects. */
  lemma {:induction false} AboveRest(rows: seq<nat>, cut: nat, k: nat)
    requires Ascending(rows) && 0 < k <= |Above(rows, cut)|
    ensures Above(rows, cut) == Above(rows, cut)[..k] + Above(rows, Above(rows, cut)[k - 1])
    ensures k == |Above(rows, cut)| ==> Above(rows, Above(rows, cut)[k - 1]) == []
  {
    AdvanceCursor(rows, cut, k);
  }

  /** A page and what the cursor after it still selects make up what was ahead. */
  lemma PageRest(rows: seq<nat>, cut: nat, budget: nat, metric: nat)
    requires Ascending(rows) && budget > 0
    ensures var ahead, page := Above(rows, cut), Take(Above(rows, cut), budget);
            && (page == [] <==> ahead == [])
            && (page != [] ==> Tag(metric, ahead) == Tag(metric, page) + Tag(metric, Above(rows, page[|page| - 1])))
            && (|page| < budget && page != [] ==> Above(rows, page[|page| - 1]) == [])
  {
    var ahead, page := Above(rows, cut), Take(Above(rows, cut), budget);
    if page != [] {
      assert page == ahead[..|page|] && page[|page| - 1] == ahead[|page| - 1];
      AboveRest(rows, cut, |page|);
      TagConcat(metric, page, Above(rows, page[|page| - 1]));
    }
  }

  /** A metric the tick may read. */
  ghost predicate Readable(e: Env, end: int, metric: nat) {
    var source := e.SourceOf(metric);
    source.ready && source.covered && !source.failing && Ascending(e.groups(end, metric))
  }

  /** One metric of an undisturbed tick: its page moves from what is ahead to what is visited. */
  lemma PageStep(s: Scan, e: Env, metric: nat)
    requires metric != NONE && Readable(e, s.cycle.end, metric)
    requires !s.stopped && |s.visited| < MAX_GROUPS && s.cycle.lastMetric <= metric
    ensures var t := ScanMetric(s, e, metric);
            && s.visited + Ahead(s.cycle, e, metric) == t.visited + Ahead(t.cycle, e, metric)
            && t.cycle.end == s.cycle.end && (t.cycle == s.cycle || t.cycle.lastMetric == metric)
            && |t.visited| <= MAX_GROUPS && (t.stopped <==> |t.visited| == MAX_GROUPS)
            && (!t.stopped ==> Ahead(t.cycle, e, metric) == [])
  {
    var rows, budget := e.groups(s.cycle.end, metric), MAX_GROUPS - |s.visited|;
    var page := Page(s.cycle, e, metric, budget);
    PageRest(rows, CursorFor(s.cycle, metric), budget, metric);
    if page != [] {
      Regroup(s.visited, Tag(metric, page), Tag(metric, Above(rows, page[|page| - 1])));
    } else {
      assert s.visited + Tag(metric, page) == s.visited;
    }
  }

  lemma {:induction false} TagConcat(metric: nat, a: seq<nat>, b: seq<nat>)
    ensures Tag(metric, a + b) == Tag(metric, a) + Tag(metric, b)
  {
  }

  lemma Regroup(a: seq<Group>, b: seq<Group>, c: seq<Group>)
    ensures a + (b + c) == a + b + c
  {
  }

  /** The groups a cycle still has ahead of its cursor. */
  ghost function Pending(c: Cycle, e: Env): seq<Group> {
    (if c.lastMetric <= ACCESS then Ahead(c, e, ACCESS) else []) + Ahead(c, e, GEOBLOCK)
  }

  lemma DrainAccess(c: Cycle, e: Env)
    requires Good(c) && Readable(e, c.end, ACCESS)
    ensures var s := ScanMetric(Scan(c, [], false), e, ACCESS);
            && Pending(c, e) == s.visited + Pending(s.cycle, e) && Good(s.cycle) && s.cycle.end == c.end
            && |s.visited| <= MAX_GROUPS && (s.stopped <==> |s.visited| == MAX_GROUPS)
            && (!s.stopped ==> Pending(s.cycle, e) == Ahead(s.cycle, e, GEOBLOCK))
  {
    if c.lastMetric <= ACCESS {
      PageStep(Scan(c, [], false), e, ACCESS);
      var s := ScanMetric(Scan(c, [], false), e, ACCESS);
      Regroup(s.visited, Ahead(s.cycle, e, ACCESS), Ahead(s.cycle, e, GEOBLOCK));
      assert Ahead(s.cycle, e, GEOBLOCK) == Ahead(c, e, GEOBLOCK);
      assert Ahead(c, e, ACCESS) == [] + Ahead(c, e, ACCESS);
    }
  }

  lemma DrainGeoblock(s: Scan, e: Env)
    requires Good(s.cycle) && Readable(e, s.cycle.end, GEOBLOCK)
    requires !s.stopped && |s.visited| < MAX_GROUPS && Pending(s.cycle, e) == Ahead(s.cycle, e, GEOBLOCK)
    ensures var t := ScanMetric(s, e, GEOBLOCK);
            && s.visited + Pending(s.cycle, e) == t.visited + Pending(t.cycle, e)
            && |t.visited| <= MAX_GROUPS && (t.stopped <==> |t.visited| == MAX_GROUPS)
            && (!t.stopped ==> Pending(t.cycle, e) == [])
  {
    PageStep(s, e, GEOBLOCK);
    var t := ScanMetric(s, e, GEOBLOCK).cycle;
    if t != s.cycle {
      PendingGeoblock(t, e);
    }
  }

  lemma PendingGeoblock(c: Cycle, e: Env)
    requires c.lastMetric == GEOBLOCK
    ensures Pending(c, e) == Ahead(c, e, GEOBLOCK)
  {
  }

  /** An undisturbed tick visits the next 100 groups, leaves the others, and completes the cycle
      exactly when fewer than 100 were left. */
  lemma {:induction false} TickDrains(c: Cycle, e: Env)
    requires e.Ok() && Good(c) && !c.completed && Undisturbed(e)
    ensures var r := Advance(c, e);
            && Pending(c, e) == r.visited + Pending(r.cycle, e)
            && |r.visited| <= 100
            && (r.cycle.completed <==> |r.visited| < 100)
            && (r.cycle.completed ==> Pending(r.cycle, e) == [])
  {
    DrainAccess(c, e);
    var first := ScanMetric(Scan(c, [], false), e, ACCESS);
    if !first.stopped {
      DrainGeoblock(first, e);
    }
  }

  lemma TakePages(page: seq<Group>, rest: seq<Group>, more: nat)
    requires |page| == MAX_GROUPS
    ensures page + Take(rest, MAX_GROUPS * more) == Take(page + rest, MAX_GROUPS * (more + 1))
    ensures |page + rest| / MAX_GROUPS == |rest| / MAX_GROUPS + 1
  {
  }

  ghost predicate SameData(envs: seq<Env>) {
    forall i :: 0 <= i < |envs| ==> envs[i].groups == envs[0].groups
  }

  /** With both metrics ready at every tick and the data held fixed, ticks visit what is pending in
      order, and complete the cycle in exactly floor(pending/100) + 1 ticks. */
  lemma {:induction false} CycleDrains(c: Cycle, envs: seq<Env>)
    requires AllOk(envs) && SameData(envs) && envs != [] && Good(c) && !c.completed
    requires forall i :: 0 <= i < |envs| ==> Undisturbed(envs[i])
    ensures Visited(c, envs) == Take(Pending(c, envs[0]), MAX_GROUPS * |envs|)
    ensures After(c, envs).completed <==> |envs| >= |Pending(c, envs[0])| / MAX_GROUPS + 1
    decreases |envs|
  {
    var e, pending := envs[0], Pending(c, envs[0]);
    TickKeeps(c, e);
    TickDrains(c, e);
    var r := Advance(c, e);
    if r.cycle.completed {
      CompletedStays(r.cycle, envs[1..]);
      assert pending == r.visited + [] == r.visited;
      assert Visited(c, envs) == r.visited + [];
    } else if |envs| > 1 {
      assert Pending(r.cycle, envs[1]) == Pending(r.cycle, e);
      CycleDrains(r.cycle, envs[1..]);
      TakePages(r.visited, Pending(r.cycle, e), |envs| - 1);
    } else {
      TakePages(r.visited, Pending(r.cycle, e), 0);
      assert Visited(c, envs) == r.visited + [];
      assert After(c, envs) == After(r.cycle, []);
    }
  }

  lemma {:induction false} CompletedStays(c: Cycle, envs: seq<Env>)
    requires c.completed
    ensures After(c, envs) == c && Visited(c, envs) == []
    decreases |envs|
  {
    if envs != [] {
      CompletedStays(c, envs[1..]);
    }
  }

  /** All groups of the windows before `end`, in order. */
  ghost function AllGroups(e: Env, end: int): seq<Group> {
    Tag(ACCESS, Above(e.groups(end, ACCESS), 0)) + Tag(GEOBLOCK, Above(e.groups(end, GEOBLOCK), 0))
  }

  /** So a new cycle that completes undisturbed has visited all G groups, each once and in order,
      and completes at its floor(G/100) + 1st tick. */
  lemma {:induction false} CompleteMeansAll(today: int, envs: seq<Env>)
    requires AllOk(envs) && SameData(envs) && envs != [] && today % DAY == 0
    requires forall i :: 0 <= i < |envs| ==> Undisturbed(envs[i])
    ensures var all := AllGroups(envs[0], today);
            && (After(Fresh(today), envs).completed <==> |envs| >= |all| / MAX_GROUPS + 1)
            && (After(Fresh(today), envs).completed ==> Visited(Fresh(today), envs) == all)
  {
    CycleDrains(Fresh(today), envs);
  }
}
