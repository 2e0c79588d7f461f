/** The trend cycle from stored row to stored row: every tick loads the row the last one saved
    (backend/app/services/insight_trends.py, `_cycle` and `run_trend_tick`). */
module TrendStored {
  import opened Wrappers
  import opened Keyset
  import opened Trends
  import opened TrendRuns

  // ---- Runs over the stored row ------------------------------------------------------------------

  /** One tick: its day, the cycle it loads, the cycle it saves, and the groups it visits. */
  datatype Tick = Tick(today: int, loaded: Cycle, left: Cycle, visited: seq<Group>)

  function TickOf(row: Option<StoredCycle>, e: Env): Tick {
    var c := Load(row, e.today);
    var r := Advance(c, e);
    Tick(e.today, c, r.cycle, r.visited)
  }

  /** The ticks of a run that finds `row`. */
  function Ticks(row: Option<StoredCycle>, envs: seq<Env>): (ts: seq<Tick>)
    ensures |ts| == |envs|
    decreases |envs|
  {
    if envs == [] then []
    else
      var t := TickOf(row, envs[0]);
      [t] + Ticks(Some(Save(t.left)), envs[1..])
  }

  /** Tick b discards the row that tick a saved, because it is ahead of b's clock. */
  predicate AheadOfClock(a: Tick, b: Tick) {
    a.left.end > b.today
  }

  /** Tick b does not take up the cycle that tick a saved. */
  predicate BeginsAfter(a: Tick, b: Tick) {
    AheadOfClock(a, b) || (a.left.completed && a.left.end != b.today)
  }

  /** Tick i begins a window: it is the first of the run, or does not take up the saved cycle. */
  predicate Begins(ts: seq<Tick>, i: nat)
    requires i < |ts|
  {
    i == 0 || BeginsAfter(ts[i - 1], ts[i])
  }

  /** What a single tick keeps. */
  ghost predicate Sound(t: Tick) {
    && Good(t.loaded) && Good(t.left) && t.loaded.end == t.left.end <= t.today
    && Between(Cursor(t.loaded), t.visited, Cursor(t.left))
  }

  /** What links a tick to the one before it. */
  ghost predicate Follows(a: Tick, b: Tick) {
    b.loaded == if BeginsAfter(a, b) then Fresh(b.today) else a.left
  }

  ghost predicate Linked(ts: seq<Tick>) {
    && (forall i :: 0 <= i < |ts| ==> Sound(ts[i]))
    && (forall i, j {:trigger ts[i], ts[j]} :: 0 <= i && j == i + 1 && j < |ts| ==> Follows(ts[i], ts[j]))
  }

  lemma TickIsSound(row: Option<StoredCycle>, e: Env)
    requires e.Ok()
    ensures Sound(TickOf(row, e))
  {
    LoadIsGood(row, e.today);
    TickKeeps(Load(row, e.today), e);
  }

  lemma TickFollows(row: Option<StoredCycle>, e: Env, next: Env)
    requires e.Ok()
    ensures Follows(TickOf(row, e), TickOf(Some(Save(TickOf(row, e).left)), next))
  {
    TickIsSound(row, e);
    SavedRowResumesIff(TickOf(row, e).left, next.today);
  }

  lemma LinkedCons(t: Tick, ts: seq<Tick>)
    requires Sound(t) && Linked(ts) && (ts != [] ==> Follows(t, ts[0]))
    ensures Linked([t] + ts)
  {
    var all := [t] + ts;
    forall i, j | 0 <= i && j == i + 1 && j < |all| ensures Follows(all[i], all[j]) {
      assert all[j] == ts[j - 1] && (i > 0 ==> all[i] == ts[i - 1]);
    }
  }

  /** A tick takes up the cycle the last one saved, unless it begins a window: that of its own day. */
  lemma {:induction false} RunIsLinked(row: Option<StoredCycle>, envs: seq<Env>)
    requires AllOk(envs)
    ensures Linked(Ticks(row, envs))
    decreases |envs|
  {
    if envs != [] {
      var t := TickOf(row, envs[0]);
      assert envs[0].Ok();
      TickIsSound(row, envs[0]);
      RunIsLinked(Some(Save(t.left)), envs[1..]);
      if |envs| > 1 {
        TickFollows(row, envs[0], envs[1]);
      }
      LinkedCons(t, Ticks(Some(Save(t.left)), envs[1..]));
    }
  }

  ghost predicate Ran(t: Tick, e: Env) {
    t.today == e.today && Advance(t.loaded, e) == TickResult(t.left, t.visited)
  }

  /** Each tick advances the cycle it loads. */
  lemma {:induction false} RunAdvances(row: Option<StoredCycle>, envs: seq<Env>)
    ensures forall i :: 0 <= i < |envs| ==> Ran(Ticks(row, envs)[i], envs[i])
    decreases |envs|
  {
    if envs != [] {
      var rest := Ticks(Some(Save(TickOf(row, envs[0]).left)), envs[1..]);
      RunAdvances(Some(Save(TickOf(row, envs[0]).left)), envs[1..]);
      forall i | 0 <= i < |envs| ensures Ran(Ticks(row, envs)[i], envs[i]) {
        if i > 0 {
          assert Ran(rest[i - 1], envs[1..][i - 1]);
        }
      }
    }
  }

  // ---- Windows -----------------------------------------------------------------------------------

  /** Windows only move forward while no row is ahead of its clock, and a begun one is newer. */
  lemma {:induction false} WindowsMoveForward(ts: seq<Tick>, i: nat, j: nat)
    requires Linked(ts) && i <= j < |ts|
    requires forall k, m {:trigger ts[k], ts[m]} :: i <= k && m == k + 1 && m <= j ==> !AheadOfClock(ts[k], ts[m])
    ensures ts[i].left.end <= ts[j].left.end
    ensures i < j && Begins(ts, j) ==> ts[i].left.end < ts[j].left.end
    decreases j
  {
    if i < j {
      WindowsMoveForward(ts, i, j - 1);
      assert Sound(ts[j - 1]) && Sound(ts[j]) && Follows(ts[j - 1], ts[j]) && !AheadOfClock(ts[j - 1], ts[j]);
    }
  }

  /** Every window in use was begun. */
  lemma {:induction false} BeginningOf(ts: seq<Tick>, i: nat) returns (b: nat)
    requires Linked(ts) && i < |ts|
    ensures b <= i && Begins(ts, b) && ts[b].left.end == ts[i].left.end
    decreases i
  {
    if Begins(ts, i) {
      b := i;
    } else {
      b := BeginningOf(ts, i - 1);
      assert Sound(ts[i - 1]) && Sound(ts[i]) && Follows(ts[i - 1], ts[i]);
    }
  }

  /** The day never steps back. */
  ghost predicate DaysForward(envs: seq<Env>) {
    forall i, j :: 0 <= i < j < |envs| ==> envs[i].today <= envs[j].today
  }

  /** No tick of the run finds its row ahead of its clock. */
  ghost predicate NeverAhead(ts: seq<Tick>) {
    forall i, j {:trigger ts[i], ts[j]} :: 0 <= i && j == i + 1 && j < |ts| ==> !AheadOfClock(ts[i], ts[j])
  }

  lemma {:induction false} ForwardIsNeverAhead(row: Option<StoredCycle>, envs: seq<Env>)
    requires AllOk(envs) && DaysForward(envs)
    ensures NeverAhead(Ticks(row, envs))
  {
    var ts := Ticks(row, envs);
    RunIsLinked(row, envs);
    RunAdvances(row, envs);
    forall i, j | 0 <= i && j == i + 1 && j < |ts| ensures !AheadOfClock(ts[i], ts[j]) {
      assert Sound(ts[i]) && Ran(ts[i], envs[i]) && Ran(ts[j], envs[j]) && envs[i].today <= envs[j].today;
    }
  }

  /** Each begun window is newer than every window before it. */
  ghost predicate AlwaysNewer(ts: seq<Tick>) {
    forall i, j :: 0 <= i < j < |ts| && Begins(ts, j) ==> ts[i].left.end < ts[j].left.end
  }

  /** Windows are begun in strictly increasing order if and only if no tick finds its row ahead of its
      clock. */
  lemma {:induction false} AlwaysNewerIff(row: Option<StoredCycle>, envs: seq<Env>)
    requires AllOk(envs)
    ensures AlwaysNewer(Ticks(row, envs)) <==> NeverAhead(Ticks(row, envs))
  {
    var ts := Ticks(row, envs);
    RunIsLinked(row, envs);
    if NeverAhead(ts) {
      forall i, j | 0 <= i < j < |ts| && Begins(ts, j) ensures ts[i].left.end < ts[j].left.end {
        WindowsMoveForward(ts, i, j);
      }
    }
    forall i, j | 0 <= i && j == i + 1 && j < |ts| && AheadOfClock(ts[i], ts[j]) ensures !AlwaysNewer(ts) {
      assert Sound(ts[j]) && Follows(ts[i], ts[j]) && Begins(ts, j);
    }
  }

  ghost predicate BegunTwice(ts: seq<Tick>, end: int, i: nat, j: nat) {
    i < j < |ts| && Begins(ts, i) && Begins(ts, j) && ts[i].left.end == ts[j].left.end == end
  }

  /** Tick k finds its row ahead of its clock and drops from a window at or behind `end` to one at or
      before it. */
  ghost predicate FallsBack(ts: seq<Tick>, end: int, k: nat) {
    0 < k < |ts| && AheadOfClock(ts[k - 1], ts[k]) && ts[k].today <= end <= ts[k - 1].left.end
  }

  /** From a later window to an earlier one there is a tick that falls back. */
  lemma {:induction false} FallBetween(ts: seq<Tick>, end: int, i: nat, j: nat) returns (k: nat)
    requires Linked(ts) && i < j < |ts| && ts[i].left.end >= end
    requires ts[j].left.end < end || (ts[j].left.end == end && Begins(ts, j))
    ensures i < k <= j && FallsBack(ts, end, k)
    decreases j
  {
    if ts[j - 1].left.end >= end {
      assert Sound(ts[j - 1]) && Sound(ts[j]) && Follows(ts[j - 1], ts[j]);
      k := j;
    } else {
      k := FallBetween(ts, end, i, j - 1);
    }
  }

  // ---- No group twice under one window -------------------------------------------------------------

  /** All groups the ticks visited under one window. */
  function VisitedUnder(ts: seq<Tick>, end: int): seq<Group> {
    if ts == [] then []
    else
      var last := ts[|ts| - 1];
      VisitedUnder(ts[..|ts| - 1], end) + (if last.left.end == end then last.visited else [])
  }

  const BOTTOM: Group := (NONE, 0)

  lemma BottomIsFirst(groups: seq<Group>, from: Group, to: Group)
    requires Between(from, groups, to)
    ensures Between(BOTTOM, groups, to)
  {
    assert Between(BOTTOM, [], from);
    BetweenConcat(BOTTOM, [], from, groups, to);
    assert [] + groups == groups;
  }

  lemma {:induction false} UnusedWindow(ts: seq<Tick>, end: int)
    requires forall m :: 0 <= m < |ts| ==> ts[m].left.end != end
    ensures VisitedUnder(ts, end) == []
  {
    if ts != [] {
      UnusedWindow(ts[..|ts| - 1], end);
    }
  }

  ghost predicate BegunOnce(ts: seq<Tick>, end: int) {
    forall i: nat, j: nat :: !BegunTwice(ts, end, i, j)
  }

  lemma PrefixKeeps(ts: seq<Tick>, n: nat, end: int)
    requires n <= |ts| && Linked(ts) && BegunOnce(ts, end)
    ensures Linked(ts[..n]) && BegunOnce(ts[..n], end)
  {
    forall i: nat, j: nat ensures !BegunTwice(ts[..n], end, i, j) {
      if BegunTwice(ts[..n], end, i, j) {
        assert BegunTwice(ts, end, i, j);
      }
    }
  }

  /** No tick before the one that begins a window has it. */
  lemma {:induction false} NewWindow(ts: seq<Tick>, end: int, n: nat)
    requires Linked(ts) && BegunOnce(ts, end) && n < |ts| && Begins(ts, n) && ts[n].left.end == end
    ensures VisitedUnder(ts[..n], end) == []
  {
    forall m | 0 <= m < n ensures ts[m].left.end != end {
      if ts[m].left.end == end {
        var b := BeginningOf(ts, m);
        assert BegunTwice(ts, end, b, n);
      }
    }
    UnusedWindow(ts[..n], end);
  }

  /** Under a window that is begun once, the groups visited over the whole run strictly increase in
      (metric, dimension): none is evaluated twice. */
  lemma {:induction false} VisitsIncreaseUnder(ts: seq<Tick>, end: int)
    requires Linked(ts) && BegunOnce(ts, end)
    ensures Increasing(VisitedUnder(ts, end))
    ensures ts != [] && ts[|ts| - 1].left.end == end ==> Between(BOTTOM, VisitedUnder(ts, end), Cursor(ts[|ts| - 1].left))
  {
    if ts != [] {
      var m: nat := |ts| - 1;
      var before, t := ts[..m], ts[m];
      assert Sound(t);
      PrefixKeeps(ts, m, end);
      VisitsIncreaseUnder(before, end);
      if t.left.end != end {
        assert VisitedUnder(ts, end) == VisitedUnder(before, end) + [];
      } else if Begins(ts, m) {
        NewWindow(ts, end, m);
        BottomIsFirst(t.visited, Cursor(t.loaded), Cursor(t.left));
        assert [] + t.visited == t.visited;
      } else {
        assert Sound(ts[m - 1]) && Follows(ts[m - 1], t) && before[m - 1] == ts[m - 1];
        BetweenConcat(BOTTOM, VisitedUnder(before, end), Cursor(t.loaded), t.visited, Cursor(t.left));
      }
    }
  }

  lemma NeverAheadBeginsOnce(ts: seq<Tick>, end: int)
    requires Linked(ts) && NeverAhead(ts)
    ensures BegunOnce(ts, end)
  {
    forall i: nat, j: nat ensures !BegunTwice(ts, end, i, j) {
      if BegunTwice(ts, end, i, j) {
        WindowsMoveForward(ts, i, j);
      }
    }
  }

  /** While the day never steps back, that holds of every window, whatever row the run finds and
      whatever data and sources do meanwhile. */
  lemma {:induction false} NoGroupTwice(row: Option<StoredCycle>, envs: seq<Env>, end: int)
    requires AllOk(envs) && DaysForward(envs)
    ensures BegunOnce(Ticks(row, envs), end)
    ensures Increasing(VisitedUnder(Ticks(row, envs), end))
  {
    RunIsLinked(row, envs);
    ForwardIsNeverAhead(row, envs);
    NeverAheadBeginsOnce(Ticks(row, envs), end);
    VisitsIncreaseUnder(Ticks(row, envs), end);
  }

  /** Whatever window it begins, the tick visits one group and completes. */
  ghost predicate VisitsFive(e: Env) {
    forall day: int {:trigger Fresh(day)} :: Advance(Fresh(day), e) == TickResult(Cycle(day, ACCESS, 5, true), [(ACCESS, 5)])
  }

  lemma OneGroup(e: Env)
    requires e.access == e.geoblock == Source(false, true, true)
    requires forall end :: e.groups(end, ACCESS) == [5] && e.groups(end, GEOBLOCK) == []
    ensures VisitsFive(e)
  {
    AboveAll([5], 0);
    assert Tag(ACCESS, [5]) == [(ACCESS, 5)] && Tag(GEOBLOCK, []) == [];
    forall day: int ensures Advance(Fresh(day), e) == TickResult(Cycle(day, ACCESS, 5, true), [(ACCESS, 5)]) {
      var s := ScanMetric(Scan(Fresh(day), [], false), e, ACCESS);
      assert s.visited == [] + [(ACCESS, 5)] == [(ACCESS, 5)];
      assert [(ACCESS, 5)] + [] == [(ACCESS, 5)];
    }
  }

  const HIGH: Tick := Tick(2 * DAY, Fresh(2 * DAY), Cycle(2 * DAY, ACCESS, 5, true), [(ACCESS, 5)])
  const LOW: Tick := Tick(DAY, Fresh(DAY), Cycle(DAY, ACCESS, 5, true), [(ACCESS, 5)])

  lemma UpDownUp(late: Env, early: Env)
    requires VisitsFive(late) && VisitsFive(early) && late.today == 2 * DAY && early.today == DAY
    ensures Ticks(None, [late, early, late]) == [HIGH, LOW, HIGH]
  {
    assert TickOf(None, late) == HIGH;
    assert TickOf(Some(Save(HIGH.left)), early) == LOW;
    assert TickOf(Some(Save(LOW.left)), late) == HIGH;
    TicksCons(None, late, [early, late], HIGH);
    TicksCons(Some(Save(HIGH.left)), early, [late], LOW);
    TicksCons(Some(Save(LOW.left)), late, [], HIGH);
    assert [late] + [] == [late] && [early] + [late] == [early, late] && [late] + [early, late] == [late, early, late];
  }

  lemma {:induction false} TicksCons(row: Option<StoredCycle>, e: Env, rest: seq<Env>, t: Tick)
    requires t == TickOf(row, e)
    ensures Ticks(row, [e] + rest) == [t] + Ticks(Some(Save(t.left)), rest)
  {
    assert ([e] + rest)[1..] == rest;
  }

  lemma HighTwice()
    ensures BegunTwice([HIGH, LOW, HIGH], 2 * DAY, 0, 2)
    ensures VisitedUnder([HIGH, LOW, HIGH], 2 * DAY) == [(ACCESS, 5), (ACCESS, 5)]
  {
    var ts, five := [HIGH, LOW, HIGH], [(ACCESS, 5)];
    assert ts[..2] == [HIGH, LOW] && [HIGH, LOW][..1] == [HIGH] && [HIGH][..0] == [];
    assert VisitedUnder([HIGH], 2 * DAY) == [] + five;
    assert VisitedUnder([HIGH, LOW], 2 * DAY) == five + [];
    assert five + five == [(ACCESS, 5), (ACCESS, 5)];
  }

  const READY: Source := Source(false, true, true)

  /** Both metrics ready, and one asset with access errors in whatever window. */
  function FiveOnly(today: int): Env {
    Env(today, READY, READY, (end: int, metric: nat) => if metric == ACCESS then [5] else [])
  }

  /** After a step back of the day a window is begun again and its groups are visited again. */
  lemma StepBackVisitsTwice()
    ensures var ts := Ticks(None, [FiveOnly(2 * DAY), FiveOnly(DAY), FiveOnly(2 * DAY)]);
            && AllOk([FiveOnly(2 * DAY), FiveOnly(DAY), FiveOnly(2 * DAY)]) && BegunTwice(ts, 2 * DAY, 0, 2)
            && VisitedUnder(ts, 2 * DAY) == [(ACCESS, 5), (ACCESS, 5)]
  {
    OneGroup(FiveOnly(2 * DAY));
    OneGroup(FiveOnly(DAY));
    UpDownUp(FiveOnly(2 * DAY), FiveOnly(DAY));
    HighTwice();
  }

  // ---- Coverage ------------------------------------------------------------------------------------

  lemma {:induction false} AfterSnoc(c: Cycle, envs: seq<Env>, e: Env)
    ensures After(c, envs + [e]) == Advance(After(c, envs), e).cycle
    ensures Visited(c, envs + [e]) == Visited(c, envs) + Advance(After(c, envs), e).visited
    decreases |envs|
  {
    var all := envs + [e];
    if envs == [] {
      var r := Advance(c, e);
      assert all[0] == e && all[1..] == [];
      assert After(c, all) == After(r.cycle, []) && Visited(c, all) == r.visited + [];
      assert [] + r.visited == r.visited == r.visited + [];
    } else {
      var r := Advance(c, envs[0]);
      assert all[0] == envs[0] && all[1..] == envs[1..] + [e];
      AfterSnoc(r.cycle, envs[1..], e);
      Regroup(r.visited, Visited(r.cycle, envs[1..]), Advance(After(r.cycle, envs[1..]), e).visited);
    }
  }

  /** Some tick completed the window. */
  ghost predicate Completed(ts: seq<Tick>, end: int) {
    exists k :: 0 <= k < |ts| && ts[k].left.end == end && ts[k].left.completed
  }

  /** Where the cycle a run loads at first stands after it: still in use and as if it had stayed in
      memory, or completed and left for a newer window. */
  ghost predicate AsInMemory(c: Cycle, last: Tick) {
    if last.left.end == c.end then last.left == c else last.left.end > c.end && c.completed
  }

  /** The ticks did under the window of c what the cycle c does in memory. */
  ghost predicate LikeMemory(ts: seq<Tick>, c: Cycle, envs: seq<Env>)
    requires ts != []
  {
    && VisitedUnder(ts, c.end) == Visited(c, envs)
    && (Completed(ts, c.end) <==> After(c, envs).completed)
    && AsInMemory(After(c, envs), ts[|ts| - 1]) && After(c, envs).end == c.end
  }

  lemma TickAsInMemory(a: Tick, b: Tick, e: Env, c: Cycle)
    requires Sound(a) && Sound(b) && Follows(a, b) && !AheadOfClock(a, b) && Ran(b, e)
    requires AsInMemory(c, a)
    ensures AsInMemory(Advance(c, e).cycle, b)
    ensures Advance(c, e).visited == if b.left.end == c.end then b.visited else []
    ensures Advance(c, e).cycle.completed <==> c.completed || (b.left.end == c.end && b.left.completed)
    ensures Advance(c, e).cycle.end == c.end
  {
  }

  lemma LikeMemorySnoc(ts: seq<Tick>, b: Tick, c: Cycle, envs: seq<Env>, e: Env)
    requires ts != [] && LikeMemory(ts, c, envs)
    requires var a := ts[|ts| - 1]; Sound(a) && Sound(b) && Follows(a, b) && !AheadOfClock(a, b) && Ran(b, e)
    ensures LikeMemory(ts + [b], c, envs + [e])
  {
    var all := ts + [b];
    TickAsInMemory(ts[|ts| - 1], b, e, After(c, envs));
    AfterSnoc(c, envs, e);
    CompletedSnoc(all, c.end);
    assert all[..|all| - 1] == ts;
  }

  lemma LikeMemoryFirst(t: Tick, e: Env)
    requires Sound(t) && Ran(t, e)
    ensures LikeMemory([t], t.loaded, [e])
  {
    AfterSnoc(t.loaded, [], e);
    assert [] + [e] == [e] && [t][..0] == [];
    assert Visited(t.loaded, []) == [] && [] + t.visited == t.visited;
    CompletedSnoc([t], t.loaded.end);
  }

  lemma BeforeKeeps(ts: seq<Tick>, envs: seq<Env>)
    requires Linked(ts) && NeverAhead(ts) && ts != [] && |ts| == |envs|
    requires forall i :: 0 <= i < |ts| ==> Ran(ts[i], envs[i])
    ensures var m := |ts| - 1;
            && Linked(ts[..m]) && NeverAhead(ts[..m])
            && forall i :: 0 <= i < m ==> Ran(ts[..m][i], envs[..m][i])
  {
    var m := |ts| - 1;
    forall i | 0 <= i < m ensures Ran(ts[..m][i], envs[..m][i]) {
      assert Ran(ts[i], envs[i]);
    }
  }

  /** While no row is ahead of its clock, all a run does under its first window is that one cycle,
      advanced tick by tick as if it had stayed in memory. */
  lemma {:induction false} FirstWindowIsOneCycle(ts: seq<Tick>, envs: seq<Env>)
    requires Linked(ts) && NeverAhead(ts) && ts != [] && |ts| == |envs|
    requires forall i :: 0 <= i < |ts| ==> Ran(ts[i], envs[i])
    ensures LikeMemory(ts, ts[0].loaded, envs)
  {
    var m := |ts| - 1;
    var before, sofar := ts[..m], envs[..m];
    assert ts == before + [ts[m]] && envs == sofar + [envs[m]];
    assert Ran(ts[m], envs[m]) && Sound(ts[m]);
    if m == 0 {
      LikeMemoryFirst(ts[0], envs[0]);
    } else {
      BeforeKeeps(ts, envs);
      FirstWindowIsOneCycle(before, sofar);
      assert before[m - 1] == ts[m - 1] && Follows(ts[m - 1], ts[m]) && !AheadOfClock(ts[m - 1], ts[m]) && Sound(ts[m - 1]);
      LikeMemorySnoc(before, ts[m], ts[0].loaded, sofar, envs[m]);
    }
  }

  lemma CompletedSnoc(ts: seq<Tick>, end: int)
    requires ts != []
    ensures var m := |ts| - 1;
            Completed(ts, end) <==> Completed(ts[..m], end) || (ts[m].left.end == end && ts[m].left.completed)
  {
    var m := |ts| - 1;
    if Completed(ts[..m], end) {
      var k :| 0 <= k < m && ts[..m][k].left.end == end && ts[..m][k].left.completed;
      assert ts[k] == ts[..m][k];
    }
    if Completed(ts, end) {
      var k :| 0 <= k < |ts| && ts[k].left.end == end && ts[k].left.completed;
      assert k < m ==> ts[..m][k] == ts[k];
    }
  }

  /** So is all it does under any window, from the tick i that begins it. */
  lemma {:induction false} WindowIsOneCycle(ts: seq<Tick>, envs: seq<Env>, i: nat)
    requires Linked(ts) && NeverAhead(ts) && |ts| == |envs| && i < |ts| && Begins(ts, i)
    requires forall k :: 0 <= k < |ts| ==> Ran(ts[k], envs[k])
    ensures var c := ts[i].loaded;
            && VisitedUnder(ts, c.end) == Visited(c, envs[i..])
            && (Completed(ts, c.end) <==> After(c, envs[i..]).completed)
  {
    SuffixKeeps(ts, i);
    forall k | 0 <= k < |ts| - i ensures Ran(ts[i..][k], envs[i..][k]) {
      assert Ran(ts[i + k], envs[i + k]);
    }
    FirstWindowIsOneCycle(ts[i..], envs[i..]);
    assert Sound(ts[i]) && LikeMemory(ts[i..], ts[i].loaded, envs[i..]);
    NotBefore(ts, i);
    VisitedFrom(ts, ts[i].loaded.end, i);
  }

  /** The ticks, from i on, visited the day's groups in order, 100 a tick, and completed its window
      with the floor(G/100) + 1st of them. */
  ghost predicate Covered(ts: seq<Tick>, day: int, all: seq<Group>, ticks: nat) {
    && VisitedUnder(ts, day) == Take(all, 100 * ticks)
    && (Completed(ts, day) <==> ticks >= |all| / 100 + 1)
    && (Completed(ts, day) ==> VisitedUnder(ts, day) == all)
  }

  lemma CoversWindow(ts: seq<Tick>, envs: seq<Env>, i: nat)
    requires Linked(ts) && NeverAhead(ts) && |ts| == |envs| && i < |ts| && Begins(ts, i)
    requires forall k :: 0 <= k < |ts| ==> Ran(ts[k], envs[k])
    requires AllOk(envs) && SameData(envs[i..]) && forall k :: i <= k < |envs| ==> Undisturbed(envs[k])
    requires ts[i].loaded == Fresh(envs[i].today)
    ensures Covered(ts, envs[i].today, AllGroups(envs[i], envs[i].today), |envs| - i)
  {
    WindowIsOneCycle(ts, envs, i);
    SuffixUndisturbed(envs, i);
    FreshDrains(envs[i..]);
  }

  /** From the tick i that begins a window, a run whose day never steps back, with both metrics ready
      and the data fixed, visits the window's groups in order, 100 a tick, all of them and each once,
      and completes the window at the floor(G/100) + 1st of those ticks. */
  lemma {:induction false} CoversEveryWindow(row: Option<StoredCycle>, envs: seq<Env>, i: nat)
    requires AllOk(envs) && DaysForward(envs) && i < |envs| && SameData(envs[i..])
    requires forall k :: i <= k < |envs| ==> Undisturbed(envs[k])
    requires Begins(Ticks(row, envs), i) && Ticks(row, envs)[i].loaded == Fresh(envs[i].today)
    ensures Covered(Ticks(row, envs), envs[i].today, AllGroups(envs[i], envs[i].today), |envs| - i)
  {
    RunIsLinked(row, envs);
    RunAdvances(row, envs);
    ForwardIsNeverAhead(row, envs);
    CoversWindow(Ticks(row, envs), envs, i);
  }

  lemma SuffixUndisturbed(envs: seq<Env>, i: nat)
    requires AllOk(envs) && i < |envs| && forall k :: i <= k < |envs| ==> Undisturbed(envs[k])
    ensures AllOk(envs[i..]) && envs[i..][0] == envs[i]
    ensures forall k :: 0 <= k < |envs[i..]| ==> Undisturbed(envs[i..][k])
  {
  }

  lemma {:induction false} FreshDrains(envs: seq<Env>)
    requires AllOk(envs) && SameData(envs) && envs != []
    requires forall k :: 0 <= k < |envs| ==> Undisturbed(envs[k])
    ensures var c, all := Fresh(envs[0].today), AllGroups(envs[0], envs[0].today);
            && Visited(c, envs) == Take(all, MAX_GROUPS * |envs|)
            && (After(c, envs).completed <==> |envs| >= |all| / MAX_GROUPS + 1)
            && (After(c, envs).completed ==> Visited(c, envs) == all)
  {
    assert envs[0].Ok();
    CycleDrains(Fresh(envs[0].today), envs);
    CompleteMeansAll(envs[0].today, envs);
  }

  lemma SuffixKeeps(ts: seq<Tick>, i: nat)
    requires Linked(ts) && NeverAhead(ts) && i <= |ts|
    ensures Linked(ts[i..]) && NeverAhead(ts[i..])
  {
    forall k, m | 0 <= k && m == k + 1 && m < |ts[i..]|
      ensures Follows(ts[i..][k], ts[i..][m]) && !AheadOfClock(ts[i..][k], ts[i..][m])
    {
      assert ts[i..][k] == ts[i + k] && ts[i..][m] == ts[i + m];
    }
  }

  /** A window is not in use before the tick that begins it. */
  lemma NotBefore(ts: seq<Tick>, i: nat)
    requires Linked(ts) && NeverAhead(ts) && i < |ts| && Begins(ts, i)
    ensures forall k :: 0 <= k < i ==> ts[k].left.end != ts[i].left.end
  {
    forall k | 0 <= k < i ensures ts[k].left.end != ts[i].left.end {
      WindowsMoveForward(ts, k, i);
    }
  }

  lemma {:induction false} VisitedFrom(ts: seq<Tick>, end: int, i: nat)
    requires i <= |ts| && forall k :: 0 <= k < i ==> ts[k].left.end != end
    ensures VisitedUnder(ts, end) == VisitedUnder(ts[i..], end)
    ensures Completed(ts, end) <==> Completed(ts[i..], end)
  {
    if i == |ts| {
      UnusedWindow(ts, end);
    } else {
      var m := |ts| - 1;
      VisitedFrom(ts[..m], end, i);
      assert ts[..m][i..] == ts[i..][..m - i];
      CompletedSnoc(ts, end);
      CompletedSnoc(ts[i..], end);
    }
  }

  // ---- Blocking ------------------------------------------------------------------------------------

  ghost predicate NotPassed(t: Tick, metric: nat) {
    && !t.left.completed && t.left.lastMetric <= metric
    && forall k :: 0 <= k < |t.visited| ==> t.visited[k].0 < metric
  }

  /** While a source keeps failing, no run - whatever the clock does - visits or passes its metric, or
      completes a window, from a row that has not passed it. */
  lemma {:induction false} FailingNeverPassed(row: Option<StoredCycle>, envs: seq<Env>, metric: nat)
    requires AllOk(envs) && envs != [] && (metric == ACCESS || metric == GEOBLOCK)
    requires forall k :: 0 <= k < |envs| ==> envs[k].SourceOf(metric).failing
    requires var c := Load(row, envs[0].today); c.lastMetric <= metric && !c.completed
    ensures forall i :: 0 <= i < |envs| ==> NotPassed(Ticks(row, envs)[i], metric)
    decreases |envs|
  {
    var t := TickOf(row, envs[0]);
    assert envs[0].Ok();
    LoadIsGood(row, envs[0].today);
    FailingBlocks(t.loaded, envs[0], metric);
    if |envs| > 1 {
      TickFollows(row, envs[0], envs[1]);
      FailingNeverPassed(Some(Save(t.left)), envs[1..], metric);
    }
  }
}
