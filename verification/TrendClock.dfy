/** Which clocks keep the trend cycle from evaluating a group twice under one window, told by the days
    of a run's ticks alone (backend/app/services/insight_trends.py, `_cycle`). */
module TrendClock {
  import opened Wrappers
  import opened Keyset
  import opened Trends
  import opened TrendRuns
  import opened TrendStored

  ghost predicate AreDays(days: seq<int>) {
    forall i :: 0 <= i < |days| ==> days[i] % DAY == 0
  }

  /** Whatever the sources and the data do, these are the days of the ticks. */
  ghost predicate On(days: seq<int>, envs: seq<Env>) {
    |envs| == |days| && forall i :: 0 <= i < |days| ==> envs[i].Ok() && envs[i].today == days[i]
  }

  /** A day returns after another one. */
  ghost predicate ComesBack(days: seq<int>) {
    exists i, m, j :: 0 <= i < m < j < |days| && days[i] == days[j] != days[m]
  }

  /** No group is visited twice under one window. */
  ghost predicate NoRepeat(ts: seq<Tick>) {
    forall end :: Increasing(VisitedUnder(ts, end))
  }

  /** Under the window of the cycle found, no group is visited that its cursor had passed. */
  ghost predicate PastCursor(ts: seq<Tick>)
    requires ts != []
  {
    var found := ts[0].loaded;
    forall i :: 0 <= i < |VisitedUnder(ts, found.end)| ==> Before(Cursor(found), VisitedUnder(ts, found.end)[i])
  }

  /** The cycle has passed no group there could be. */
  predicate Blank(c: Cycle) {
    Before((c.lastMetric, c.lastDimension), (ACCESS, 1))
  }

  function DropLeading(days: seq<int>, day: int): seq<int> {
    if days != [] && days[0] == day then DropLeading(days[1..], day) else days
  }

  /** The days that count for a run that finds the cycle c: the first tick works on c's window; and where
      c is completed without a group, the ticks on its own day do nothing. */
  function Windows(c: Cycle, days: seq<int>): seq<int>
    requires days != []
  {
    if c.completed && Blank(c) then DropLeading(days, c.end) else days[0 := c.end]
  }

  // ---- Visited groups ------------------------------------------------------------------------------

  ghost predicate RealGroups(groups: seq<Group>) {
    forall i :: 0 <= i < |groups| ==> groups[i].0 >= ACCESS && groups[i].1 >= 1
  }

  lemma {:induction false} TagIsReal(c: Cycle, e: Env, metric: nat, budget: nat)
    requires e.Ok() && budget > 0 && metric >= ACCESS
    ensures RealGroups(Tag(metric, Page(c, e, metric, budget)))
  {
    PageRises(e.groups(c.end, metric), CursorFor(c, metric), budget, Page(c, e, metric, budget));
  }

  lemma VisitsAreReal(c: Cycle, e: Env)
    requires e.Ok() && Good(c)
    ensures RealGroups(Advance(c, e).visited)
  {
    if !c.completed {
      var start := Scan(c, [], false);
      ScanIsReal(start, e, ACCESS, Cursor(c));
      ScanKeeps(start, e, ACCESS, Cursor(c));
      ScanIsReal(ScanMetric(start, e, ACCESS), e, GEOBLOCK, Cursor(c));
    }
  }

  lemma ScanIsReal(s: Scan, e: Env, metric: nat, from: Group)
    requires e.Ok() && ACCESS <= metric <= GEOBLOCK && RealGroups(s.visited) && Scanning(from, s)
    ensures RealGroups(ScanMetric(s, e, metric).visited)
  {
    if !s.stopped {
      TagIsReal(s.cycle, e, metric, MAX_GROUPS - |s.visited|);
    }
  }

  lemma {:induction false} AllVisitsAreReal(ts: seq<Tick>, end: int)
    requires forall k :: 0 <= k < |ts| ==> RealGroups(ts[k].visited)
    ensures RealGroups(VisitedUnder(ts, end))
  {
    if ts != [] {
      AllVisitsAreReal(ts[..|ts| - 1], end);
    }
  }

  lemma {:induction false} RunIsReal(row: Option<StoredCycle>, envs: seq<Env>)
    requires AllOk(envs)
    ensures forall k :: 0 <= k < |envs| ==> RealGroups(Ticks(row, envs)[k].visited)
  {
    var ts := Ticks(row, envs);
    RunIsLinked(row, envs);
    RunAdvances(row, envs);
    forall k | 0 <= k < |envs| ensures RealGroups(ts[k].visited) {
      assert Ran(ts[k], envs[k]) && Sound(ts[k]) && envs[k].Ok();
      VisitsAreReal(ts[k].loaded, envs[k]);
    }
  }

  // ---- A window begun twice needs a day that comes back --------------------------------------------

  /** The windows of a run: the first tick's, and of every later one its day where it begins one. */
  ghost predicate Timed(ts: seq<Tick>, w: seq<int>) {
    && |w| == |ts| && (ts != [] ==> w[0] == ts[0].left.end)
    && forall k :: 0 < k < |ts| ==> w[k] == ts[k].today
  }

  lemma BegunAt(ts: seq<Tick>, w: seq<int>, k: nat)
    requires Linked(ts) && Timed(ts, w) && k < |ts| && Begins(ts, k)
    ensures ts[k].left.end == w[k]
  {
    assert Sound(ts[k]);
    if k > 0 {
      assert Follows(ts[k - 1], ts[k]);
    }
  }

  lemma {:induction false} BegunSince(ts: seq<Tick>, i: nat, m: nat) returns (b: nat)
    requires Linked(ts) && i < m < |ts| && ts[i].left.end != ts[m].left.end
    ensures i < b <= m && Begins(ts, b) && ts[b].left.end == ts[m].left.end
    decreases m
  {
    if Begins(ts, m) {
      b := m;
    } else {
      assert Sound(ts[m - 1]) && Sound(ts[m]) && Follows(ts[m - 1], ts[m]);
      b := BegunSince(ts, i, m - 1);
    }
  }

  lemma BegunTwiceComesBack(ts: seq<Tick>, w: seq<int>, end: int, i: nat, j: nat)
    requires Linked(ts) && Timed(ts, w) && BegunTwice(ts, end, i, j)
    ensures ComesBack(w)
  {
    BegunAt(ts, w, i);
    BegunAt(ts, w, j);
    var k := FallBetween(ts, end, i, j);
    assert w[k] == ts[k].today;
    if ts[k].today < end {
      assert w[i] == w[j] != w[k];
    } else {
      var b := BegunSince(ts, i, k - 1);
      BegunAt(ts, w, b);
      assert w[i] == w[j] != w[b];
    }
  }

  /** Where no window is begun twice, what is visited under the first one lies behind its cursor. */
  lemma {:induction false} FirstVisitsPastCursor(ts: seq<Tick>)
    requires Linked(ts) && ts != [] && BegunOnce(ts, ts[0].left.end)
    ensures PastCursor(ts)
    ensures var end, last := ts[0].left.end, ts[|ts| - 1].left;
            last.end == end ==> Between(Cursor(ts[0].loaded), VisitedUnder(ts, end), Cursor(last))
  {
    var m: nat, end, from := |ts| - 1, ts[0].left.end, Cursor(ts[0].loaded);
    var before, t := ts[..m], ts[m];
    assert Sound(t) && Sound(ts[0]);
    if m == 0 {
      assert before == [] && VisitedUnder(ts, end) == [] + t.visited == t.visited;
    } else {
      PrefixKeeps(ts, m, end);
      FirstVisitsPastCursor(before);
      if t.left.end != end {
        assert VisitedUnder(ts, end) == VisitedUnder(before, end) + [];
      } else {
        if Begins(ts, m) {
          assert BegunTwice(ts, end, 0, m);
        }
        assert Sound(ts[m - 1]) && Follows(ts[m - 1], t) && before[m - 1] == ts[m - 1];
        BetweenConcat(from, VisitedUnder(before, end), Cursor(t.loaded), t.visited, Cursor(t.left));
      }
    }
  }

  lemma SafeWhenNotBack(ts: seq<Tick>, w: seq<int>)
    requires Linked(ts) && Timed(ts, w) && !ComesBack(w)
    ensures NoRepeat(ts) && (ts != [] ==> PastCursor(ts))
  {
    forall end ensures BegunOnce(ts, end) && Increasing(VisitedUnder(ts, end)) {
      forall i: nat, j: nat ensures !BegunTwice(ts, end, i, j) {
        if BegunTwice(ts, end, i, j) {
          BegunTwiceComesBack(ts, w, end, i, j);
        }
      }
      VisitsIncreaseUnder(ts, end);
    }
    if ts != [] {
      FirstVisitsPastCursor(ts);
    }
  }

  // ---- A completed cycle without a group ------------------------------------------------------------

  lemma {:induction false} DroppedLeading(days: seq<int>, day: int) returns (n: nat)
    ensures n <= |days| && DropLeading(days, day) == days[n..]
    ensures forall k :: 0 <= k < n ==> days[k] == day
    ensures n < |days| ==> days[n] != day
  {
    if days != [] && days[0] == day {
      var m := DroppedLeading(days[1..], day);
      n := m + 1;
    } else {
      n := 0;
    }
  }

  lemma {:induction false} IdleStart(ts: seq<Tick>, n: nat, end: int)
    requires n <= |ts| && forall k :: 0 <= k < n ==> ts[k].visited == []
    ensures VisitedUnder(ts, end) == VisitedUnder(ts[n..], end)
  {
    if ts != [] {
      var m := |ts| - 1;
      if n == |ts| {
        IdleStart(ts[..m], m, end);
      } else {
        IdleStart(ts[..m], n, end);
        assert ts[..m][n..] == ts[n..][..m - n];
      }
    }
  }

  /** On the day of a completed cycle its ticks keep it and visit nothing. */
  lemma {:induction false} IdleTicks(ts: seq<Tick>, envs: seq<Env>, n: nat)
    requires Linked(ts) && |ts| == |envs| && n < |ts| && ts[0].loaded.completed
    requires forall k :: 0 <= k < |ts| ==> Ran(ts[k], envs[k])
    requires forall k :: 0 <= k <= n ==> ts[k].today == ts[0].loaded.end
    ensures ts[n].left == ts[0].loaded && ts[n].visited == []
  {
    assert Ran(ts[n], envs[n]);
    if n > 0 {
      IdleTicks(ts, envs, n - 1);
      assert Follows(ts[n - 1], ts[n]);
    }
  }

  lemma SuffixLinked(ts: seq<Tick>, n: nat)
    requires Linked(ts) && n <= |ts|
    ensures Linked(ts[n..])
  {
    var rest := ts[n..];
    forall i, j | 0 <= i && j == i + 1 && j < |rest| ensures Follows(rest[i], rest[j]) {
      assert rest[i] == ts[n + i] && rest[j] == ts[n + j];
    }
  }

  // ---- One half: safe days --------------------------------------------------------------------------

  /** The facts about a run that the two halves use. */
  lemma {:induction false} RunFacts(row: Option<StoredCycle>, days: seq<int>, envs: seq<Env>)
    requires On(days, envs) && days != []
    ensures var ts := Ticks(row, envs);
            && Linked(ts) && ts[0].loaded == Load(row, days[0]) && ts[0].left.end == ts[0].loaded.end
            && Timed(ts, days[0 := ts[0].loaded.end])
            && (forall k :: 0 <= k < |ts| ==> Ran(ts[k], envs[k]) && ts[k].today == days[k] && RealGroups(ts[k].visited))
  {
    var ts := Ticks(row, envs);
    assert AllOk(envs);
    RunIsLinked(row, envs);
    RunAdvances(row, envs);
    RunIsReal(row, envs);
    assert Sound(ts[0]);
    forall k | 0 <= k < |ts| ensures ts[k].today == days[k] {
      assert Ran(ts[k], envs[k]);
    }
  }

  lemma {:induction false} SafeRun(row: Option<StoredCycle>, days: seq<int>, envs: seq<Env>)
    requires On(days, envs) && days != [] && !ComesBack(Windows(Load(row, days[0]), days))
    ensures NoRepeat(Ticks(row, envs)) && PastCursor(Ticks(row, envs))
  {
    var ts, c := Ticks(row, envs), Load(row, days[0]);
    RunFacts(row, days, envs);
    if c.completed && Blank(c) {
      var n := DroppedLeading(days, c.end);
      forall k | 0 <= k < n ensures ts[k].visited == [] && ts[k].left == c {
        IdleTicks(ts, envs, k);
      }
      var rest := ts[n..];
      SuffixLinked(ts, n);
      if n < |ts| {
        LoadedIsOfToday(row, days[0]);
        assert n > 0 && Follows(ts[n - 1], ts[n]) && Sound(ts[n]);
      }
      assert Timed(rest, days[n..]);
      SafeWhenNotBack(rest, days[n..]);
      forall end ensures Increasing(VisitedUnder(ts, end)) {
        IdleStart(ts, n, end);
      }
      AllVisitsAreReal(ts, c.end);
    } else {
      SafeWhenNotBack(ts, days[0 := c.end]);
    }
  }

  lemma LoadedIsOfToday(row: Option<StoredCycle>, today: int)
    ensures Load(row, today).completed ==> Load(row, today).end == today
  {
  }

  // ---- The other half: one group every day ----------------------------------------------------------

  /** Both metrics ready, and one asset, the first there can be, with access errors in whatever window. */
  function OneOnly(today: int): Env {
    Env(today, READY, READY, (end: int, metric: nat) => if metric == ACCESS then [1] else [])
  }

  function OneEachDay(days: seq<int>): seq<Env> {
    seq(|days|, (i: nat) requires i < |days| => OneOnly(days[i]))
  }

  const FIRST: Group := (ACCESS, 1)

  /** Such a tick completes the cycle it loads, and visits the group exactly when the cycle is unfinished
      and has not passed it. */
  lemma OneTick(c: Cycle, today: int)
    requires Good(c)
    ensures var r := Advance(c, OneOnly(today));
            && r.cycle.completed && r.cycle.end == c.end
            && r.visited == if !c.completed && Blank(c) then [FIRST] else []
  {
    var e := OneOnly(today);
    AboveAll([1], 0);
    if c.lastMetric == ACCESS && c.lastDimension > 0 {
      AboveNone([1], c.lastDimension);
    }
    assert Tag(ACCESS, [1]) == [FIRST] && Tag(GEOBLOCK, []) == [];
    if !c.completed {
      var s := ScanMetric(Scan(c, [], false), e, ACCESS);
      assert [] + [FIRST] == [FIRST] && [] + Tag(ACCESS, []) == [];
      assert s.visited == if Blank(c) then [FIRST] else [];
      assert s.visited + [] == s.visited;
    }
  }

  /** In a run of such ticks each one completes a window - the first that of the cycle found, each other
      one its own day's - and visits the group where that window changes. */
  lemma {:induction false} OneRun(row: Option<StoredCycle>, days: seq<int>, k: nat)
    requires AreDays(days) && k < |days|
    ensures var ts, c := Ticks(row, OneEachDay(days)), Load(row, days[0]);
            var w := days[0 := c.end];
            && ts[k].left.completed && ts[k].left.end == w[k]
            && (k == 0 ==> ts[k].visited == if !c.completed && Blank(c) then [FIRST] else [])
            && (k > 0 ==> ts[k].visited == if w[k - 1] != w[k] then [FIRST] else [])
    decreases k
  {
    var envs := OneEachDay(days);
    var ts := Ticks(row, envs);
    assert On(days, envs) by {
      OneIsOn(days);
    }
    RunFacts(row, days, envs);
    assert Sound(ts[k]) && Ran(ts[k], envs[k]);
    OneTick(ts[k].loaded, days[k]);
    if k > 0 {
      OneRun(row, days, k - 1);
      assert Sound(ts[k - 1]) && Follows(ts[k - 1], ts[k]);
    }
  }

  lemma OneIsOn(days: seq<int>)
    requires AreDays(days)
    ensures On(days, OneEachDay(days))
  {
    forall i | 0 <= i < |days| ensures OneOnly(days[i]).Ok() {
    }
  }

  lemma {:induction false} VisitedSplits(ts: seq<Tick>, end: int, k: nat) returns (rest: seq<Group>)
    requires k < |ts| && ts[k].left.end == end
    ensures VisitedUnder(ts, end) == VisitedUnder(ts[..k], end) + ts[k].visited + rest
    decreases |ts|
  {
    var m := |ts| - 1;
    if k == m {
      rest := [];
    } else {
      var more := VisitedSplits(ts[..m], end, k);
      assert ts[..m][..k] == ts[..k];
      rest := more + (if ts[m].left.end == end then ts[m].visited else []);
    }
  }

  lemma TwoVisits(ts: seq<Tick>, end: int, b: nat, j: nat)
    requires b < j < |ts| && ts[b].left.end == ts[j].left.end == end && ts[b].visited == ts[j].visited == [FIRST]
    ensures !NoRepeat(ts)
  {
    var later := VisitedSplits(ts, end, j);
    assert ts[..j][..b] == ts[..b];
    var between := VisitedSplits(ts[..j], end, b);
    var all, p, q := VisitedUnder(ts, end), |VisitedUnder(ts[..b], end)|, |VisitedUnder(ts[..j], end)|;
    assert all[p] == VisitedUnder(ts[..j], end)[p] == FIRST && all[q] == FIRST && p < q;
    assert !Before(all[p], all[q]);
  }

  lemma PassedVisit(ts: seq<Tick>, j: nat)
    requires j < |ts| && ts[j].left.end == ts[0].loaded.end && ts[j].visited == [FIRST] && !Blank(ts[0].loaded)
    ensures !PastCursor(ts)
  {
    var later := VisitedSplits(ts, ts[0].loaded.end, j);
    assert VisitedUnder(ts, ts[0].loaded.end)[|VisitedUnder(ts[..j], ts[0].loaded.end)|] == FIRST;
  }

  /** The block of equal days around i starts at b. */
  lemma {:induction false} BlockStart(w: seq<int>, i: nat) returns (b: nat)
    requires i < |w|
    ensures b <= i && (forall k :: b <= k <= i ==> w[k] == w[i]) && (b > 0 ==> w[b - 1] != w[b])
    decreases i
  {
    if i == 0 || w[i - 1] != w[i] {
      b := i;
    } else {
      b := BlockStart(w, i - 1);
    }
  }

  lemma {:induction false} UnsafeRun(row: Option<StoredCycle>, days: seq<int>)
    requires AreDays(days) && days != [] && ComesBack(Windows(Load(row, days[0]), days))
    ensures var ts := Ticks(row, OneEachDay(days)); !(NoRepeat(ts) && PastCursor(ts))
  {
    var c := Load(row, days[0]);
    var w := days[0 := c.end];
    if c.completed && Blank(c) {
      var n := DroppedLeading(days, c.end);
      LoadedIsOfToday(row, days[0]);
      var i, m, j :| 0 <= i < m < j < |days[n..]| && days[n..][i] == days[n..][j] != days[n..][m];
      assert w[n + i] == w[n + j] != w[n + m];
      UnsafeAt(row, days, n + i, n + m, n + j, n);
    } else {
      var i, m, j :| 0 <= i < m < j < |w| && w[i] == w[j] != w[m];
      UnsafeAt(row, days, i, m, j, 0);
    }
  }

  lemma {:induction false} UnsafeAt(row: Option<StoredCycle>, days: seq<int>, i: nat, m: nat, j: nat, n: nat)
    requires AreDays(days) && n <= i < m < j < |days|
    requires var c := Load(row, days[0]); var w := days[0 := c.end];
             && w[i] == w[j] != w[m]
             && if c.completed && Blank(c) then 0 < n && w[n - 1] != w[n] else n == 0
    ensures var ts := Ticks(row, OneEachDay(days)); !(NoRepeat(ts) && PastCursor(ts))
  {
    var ts, c := Ticks(row, OneEachDay(days)), Load(row, days[0]);
    var w := days[0 := c.end];
    OneIsOn(days);
    RunFacts(row, days, OneEachDay(days));
    var b := BlockStart(w, i);
    var s := BlockStart(w, j);
    assert s > m;
    OneRun(row, days, b);
    OneRun(row, days, s);
    if b > 0 || (!c.completed && Blank(c)) {
      TwoVisits(ts, w[i], b, s);
    } else {
      PassedVisit(ts, s);
    }
  }

  // ---- Both halves ----------------------------------------------------------------------------------

  ghost predicate SafeOn(row: Option<StoredCycle>, days: seq<int>)
    requires days != []
  {
    forall envs: seq<Env> :: On(days, envs) ==> NoRepeat(Ticks(row, envs)) && PastCursor(Ticks(row, envs))
  }

  /** For a run that finds any row, these are the safe clocks: whatever sources and data do, no group is
      evaluated twice under one window, and none that the found cycle had passed, if and only if none of
      the days that count comes back after another one. */
  lemma {:induction false} SafeDaysFromIff(row: Option<StoredCycle>, days: seq<int>)
    requires AreDays(days) && days != []
    ensures SafeOn(row, days) <==> !ComesBack(Windows(Load(row, days[0]), days))
  {
    if ComesBack(Windows(Load(row, days[0]), days)) {
      UnsafeRun(row, days);
      OneIsOn(days);
    } else {
      forall envs: seq<Env> | On(days, envs) ensures NoRepeat(Ticks(row, envs)) && PastCursor(Ticks(row, envs)) {
        SafeRun(row, days, envs);
      }
    }
  }

  /** From a fresh install no group is evaluated twice under one window, whatever sources and data do, if
      and only if no day comes back after another one. */
  lemma {:induction false} SafeDaysIff(days: seq<int>)
    requires AreDays(days)
    ensures (forall envs: seq<Env> :: On(days, envs) ==> NoRepeat(Ticks(None, envs))) <==> !ComesBack(days)
  {
    if days == [] {
      forall envs: seq<Env> | On(days, envs) ensures NoRepeat(Ticks(None, envs)) {
        assert envs == [];
      }
    } else {
      assert days[0 := days[0]] == days;
      SafeDaysFromIff(None, days);
      forall envs: seq<Env> | On(days, envs) ensures PastCursor(Ticks(None, envs)) {
        RunFacts(None, days, envs);
        AllVisitsAreReal(Ticks(None, envs), days[0]);
      }
    }
  }
}
