/** Level 2 correlation over whole cycles and whole runs of the worker. */
module Level2Runs {
  import opened Wrappers
  import opened Keyset
  import opened Level2
  import opened Level2Safety

  ghost predicate AllOk(envs: seq<Env>) {
    forall i :: 0 <= i < |envs| ==> envs[i].Ok()
  }

  /** The stored rows after the ticks `envs`, and all they evaluated. */
  ghost function After(s: State, envs: seq<Env>): State
    decreases |envs|
  {
    if envs == [] then s else After(TickOf(s, envs[0]).state, envs[1..])
  }

  ghost function Evals(s: State, envs: seq<Env>): seq<Pair>
    decreases |envs|
  {
    if envs == [] then [] else TickOf(s, envs[0]).evals + Evals(TickOf(s, envs[0]).state, envs[1..])
  }

  /** The ticks `envs` drain the cycle at hand: the last one completes it, no earlier one does. */
  ghost predicate Completes(s: State, envs: seq<Env>)
    decreases |envs|
  {
    && envs != []
    && if |envs| == 1 then TickOf(s, envs[0]).completed
       else !TickOf(s, envs[0]).completed && Completes(TickOf(s, envs[0]).state, envs[1..])
  }

  // ---- Saved states --------------------------------------------------------------------------

  /** Whatever row a tick found, the row it saves passes the next tick's validation unchanged:
      the next tick continues exactly the cycle this one left, in the same window. */
  lemma SavedRowResumes(s: State, e: Env, later: int)
    requires e.Ok()
    ensures TickOf(s, e).completed <==> Starts(TickOf(s, e).state)
    ensures !TickOf(s, e).completed ==>
              var next := Current(TickOf(s, e).state, later);
              && Some(next) == Advance(Current(s, e.now), e).next
              && next.createdFrom == Current(s, e.now).createdFrom
              && next.createdTo == Current(s, e.now).createdTo
  {
    var c := Current(s, e.now);
    CurrentIsGood(s, e.now);
    AssignKeeps(c, e, 0, 1);
    DrainKeeps(Assign(c, e), e);
    if !TickOf(s, e).completed {
      AcceptedIffGood(Advance(c, e).next.value);
    }
  }

  // ---- Coverage ------------------------------------------------------------------------------

  /** Over the rest of a cycle a pair is evaluated at most as often as the cycle owes it, and
      exactly as often when rule and ban are there at every tick. */
  lemma {:induction false} CycleSettles(s: State, envs: seq<Env>, r: RuleId, ban: nat)
    requires AllOk(envs) && Completes(s, envs) && ban > 0
    ensures var c := Current(s, envs[0].now);
            && multiset(Evals(s, envs))[(r, ban)] <= Due(c, r, ban)
            && ((forall i :: 0 <= i < |envs| ==> Offers(envs[i], r) && Shows(envs[i], ban, c.createdFrom, c.createdTo)) ==>
                multiset(Evals(s, envs))[(r, ban)] == Due(c, r, ban))
    decreases |envs|
  {
    var c := Current(s, envs[0].now);
    CurrentIsGood(s, envs[0].now);
    TickSettles(c, envs[0], r, ban);
    var t := TickOf(s, envs[0]);
    if |envs| > 1 {
      var rest := envs[1..];
      SavedRowResumes(s, envs[0], rest[0].now);
      CycleSettles(t.state, rest, r, ban);
    } else {
      assert Evals(s, envs) == t.evals + [];
    }
  }

  /** No pair is ever evaluated twice in one cycle, whatever rules come and go between ticks. */
  lemma {:induction false} EvaluatedAtMostOnce(s: State, envs: seq<Env>, r: RuleId, ban: nat)
    requires AllOk(envs) && Completes(s, envs) && ban > 0
    ensures multiset(Evals(s, envs))[(r, ban)] <= 1
  {
    CycleSettles(s, envs, r, ban);
  }

  /** A rule offered at every tick of a cycle is evaluated exactly once on every ban of the
      window that was there from the first tick on. */
  lemma {:induction false} CoveredExactlyOnce(s: State, envs: seq<Env>, r: RuleId, ban: nat)
    requires AllOk(envs) && Completes(s, envs) && Starts(s) && r > 0 && ban > 0
    requires forall i :: 0 <= i < |envs| ==> Offers(envs[i], r)
    requires var c := Current(s, envs[0].now);
             forall i :: 0 <= i < |envs| ==>
               exists k :: 0 <= k < |envs[i].events| &&
                 var event := envs[i].events[k];
                 && event.id == ban && event.eventType == "security.ban" && event.ip.Some? && event.ip.value != ""
                 && event.createdAt.Some? && c.createdFrom <= event.createdAt.value <= c.createdTo
    ensures multiset(Evals(s, envs))[(r, ban)] == 1
  {
    ShownIsCovered(s, envs, r, ban);
  }

  lemma {:induction false} ShownIsCovered(s: State, envs: seq<Env>, r: RuleId, ban: nat)
    requires AllOk(envs) && Completes(s, envs) && Starts(s) && r > 0 && ban > 0
    requires forall i :: 0 <= i < |envs| ==> Offers(envs[i], r)
    requires var c := Current(s, envs[0].now);
             forall i :: 0 <= i < |envs| ==> Shows(envs[i], ban, c.createdFrom, c.createdTo)
    ensures multiset(Evals(s, envs))[(r, ban)] == 1
  {
    CycleSettles(s, envs, r, ban);
  }

  // ---- Progress ------------------------------------------------------------------------------

  /** Batches of at most 20 rules that `n` rules make. */
  function Batches(n: nat): nat { (n + MAX_CHAIN_RULES - 1) / MAX_CHAIN_RULES }

  /** Ticks one batch takes over `bans` anchors: a full page never ends it. */
  function BatchTicks(bans: nat): nat { bans / MAX_BAN_ANCHORS + 1 }

  /** Ticks of all batches of `n` rules, each of `full` ticks. */
  function RuleTicks(n: nat, full: nat): nat { Batches(n) * full }

  ghost function Bans(c: Cycle, e: Env): nat {
    |Above(BanIds(e.events, c.createdFrom, c.createdTo), 0)|
  }

  ghost function Rules(e: Env): nat {
    |Above(ChainIds(e.rules, e.available), 0)|
  }

  /** Ticks a cycle still needs when nothing changes under it. */
  ghost function TicksLeft(c: Cycle, e: Env): nat {
    var full := BatchTicks(Bans(c, e));
    if c.batch == [] then
      var n := |Remaining(c, e)|;
      if n == 0 then 1 else RuleTicks(n, full)
    else
      BatchTicks(|Above(BanIds(e.events, c.createdFrom, c.createdTo), c.lastId)|)
      + RuleTicks(|Above(ChainIds(e.rules, e.available), BatchEnd(c))|, full)
  }

  lemma TimesSuccessor(m: nat, k: nat)
    ensures (m + 1) * k == m * k + k
  {
  }

  /** Assigning a batch does not change how long the cycle takes. */
  lemma AssignTicks(c: Cycle, e: Env)
    requires Good(c) && e.Ok()
    ensures TicksLeft(Assign(c, e), e) == TicksLeft(c, e)
  {
    var chain, remaining := ChainIds(e.rules, e.available), Remaining(c, e);
    if c.batch == [] && remaining != [] {
      var k := |Take(remaining, MAX_CHAIN_RULES)|;
      ChainIdsAscending(e.rules, e.available);
      AdvanceCursor(chain, c.lastRule, k);
      assert |Above(chain, BatchEnd(Assign(c, e)))| == |remaining| - k;
      assert Batches(|remaining|) == Batches(|remaining| - k) + 1;
      TimesSuccessor(Batches(|remaining| - k), BatchTicks(Bans(c, e)));
    }
  }

  lemma RuleTicksPositive(n: nat, full: nat)
    requires n > 0 && full > 0
    ensures RuleTicks(n, full) >= 1
  {
    assert Batches(n) >= 1;
    TimesSuccessor(Batches(n) - 1, full);
  }

  /** Each tick is one of them. */
  lemma DrainTicks(c: Cycle, e: Env)
    requires Good(c) && e.Ok()
    requires c.batch == [] ==> Remaining(c, e) == []
    ensures Drain(c, e).next.None? <==> TicksLeft(c, e) == 1
    ensures Drain(c, e).next.Some? ==> TicksLeft(Drain(c, e).next.value, e) == TicksLeft(c, e) - 1
  {
    if c.batch == [] {
      assert Above(Remaining(c, e), BatchEnd(c)) == [];
    } else if |Anchors(c, e)| < MAX_BAN_ANCHORS {
      LastPageTicks(c, e);
    } else {
      FullPageTicks(c, e);
    }
  }

  lemma LastPageTicks(c: Cycle, e: Env)
    requires Good(c) && e.Ok() && c.batch != [] && |Anchors(c, e)| < MAX_BAN_ANCHORS
    ensures Drain(c, e).next.None? <==> TicksLeft(c, e) == 1
    ensures Drain(c, e).next.Some? ==> TicksLeft(Drain(c, e).next.value, e) == TicksLeft(c, e) - 1
  {
    var chain := ChainIds(e.rules, e.available);
    var behind := Above(chain, BatchEnd(c));
    BatchEndIsLast(c);
    AboveTwice(chain, c.lastRule, BatchEnd(c));
    assert BatchTicks(|Above(BanIds(e.events, c.createdFrom, c.createdTo), c.lastId)|) == 1;
    if behind != [] {
      RuleTicksPositive(|behind|, BatchTicks(Bans(c, e)));
    }
  }

  lemma FullPageTicks(c: Cycle, e: Env)
    requires Good(c) && e.Ok() && c.batch != [] && |Anchors(c, e)| >= MAX_BAN_ANCHORS
    ensures Drain(c, e).next.Some? && TicksLeft(c, e) > 1
    ensures TicksLeft(Drain(c, e).next.value, e) == TicksLeft(c, e) - 1
  {
    var bans := BanIds(e.events, c.createdFrom, c.createdTo);
    BanIdsAscending(e.events, c.createdFrom, c.createdTo);
    AdvanceCursor(bans, c.lastId, MAX_BAN_ANCHORS);
    var next := Drain(c, e).next.value;
    assert BatchEnd(next) == BatchEnd(c) && Bans(next, e) == Bans(c, e);
    assert |Above(bans, next.lastId)| == |Above(bans, c.lastId)| - MAX_BAN_ANCHORS;
  }

  ghost predicate Unchanged(envs: seq<Env>) {
    forall i :: 0 <= i < |envs| ==>
      envs[i].rules == envs[0].rules && envs[i].available == envs[0].available && envs[i].events == envs[0].events
  }

  lemma {:induction false} CompletesInTicksLeft(s: State, envs: seq<Env>)
    requires envs != [] && AllOk(envs) && Unchanged(envs)
    ensures Completes(s, envs) <==> |envs| == TicksLeft(Current(s, envs[0].now), envs[0])
    decreases |envs|
  {
    var e, c := envs[0], Current(s, envs[0].now);
    CurrentIsGood(s, e.now);
    AssignKeeps(c, e, 0, 1);
    AssignTicks(c, e);
    DrainTicks(Assign(c, e), e);
    if |envs| > 1 && !TickOf(s, e).completed {
      var rest := envs[1..];
      SavedRowResumes(s, e, rest[0].now);
      CompletesInTicksLeft(TickOf(s, e).state, rest);
      var next := Current(TickOf(s, e).state, rest[0].now);
      assert TicksLeft(next, rest[0]) == TicksLeft(next, e);
    }
  }

  /** With the rules and bans held fixed, a cycle takes exactly ceil(n/20) * (floor(B/100) + 1)
      ticks, and one tick when there is no rule. */
  lemma {:induction false} CycleLength(s: State, envs: seq<Env>)
    requires envs != [] && AllOk(envs) && Unchanged(envs) && Starts(s)
    ensures var n, b := Rules(envs[0]), Bans(Current(s, envs[0].now), envs[0]);
            Completes(s, envs) <==>
            |envs| == if n == 0 then 1 else ((n + 19) / 20) * (b / 100 + 1)
  {
    CompletesInTicksLeft(s, envs);
    TicksInNumbers(Rules(envs[0]), Bans(Current(s, envs[0].now), envs[0]));
  }

  lemma TicksInNumbers(n: nat, b: nat)
    ensures RuleTicks(n, BatchTicks(b)) == ((n + 19) / 20) * (b / 100 + 1)
  {
    assert Batches(n) == (n + 19) / 20 && BatchTicks(b) == b / 100 + 1;
  }

  lemma SelectedFits(c: Cycle, e: Env)
    requires Good(c) && e.Ok()
    ensures |Selected(Remaining(c, e), c.batch)| <= MAX_CHAIN_RULES
  {
    RemainingFacts(c, e);
    SelectedAscending(Remaining(c, e), c.batch);
    SelectedMembers(Remaining(c, e), c.batch);
    AscendingSubset(Selected(Remaining(c, e), c.batch), c.batch);
  }

  lemma ProductBound(a: nat, b: nat)
    requires a <= MAX_BAN_ANCHORS && b <= MAX_CHAIN_RULES
    ensures a * b <= 2000
  {
    assert a * b <= MAX_BAN_ANCHORS * b;
  }

  /** No tick does more than 2000 evaluations. */
  lemma BoundedWork(s: State, e: Env)
    requires e.Ok()
    ensures |TickOf(s, e).evals| <= 2000
  {
    var c := Current(s, e.now);
    CurrentIsGood(s, e.now);
    AssignKeeps(c, e, 0, 1);
    var a := Assign(c, e);
    var anchors, rules := Anchors(a, e), Selected(Remaining(a, e), a.batch);
    SelectedFits(a, e);
    PairsLength(anchors, rules);
    ProductBound(|anchors|, |rules|);
  }

  // ---- Windows without gaps ------------------------------------------------------------------

  /** A resumable cycle ends at or after the completed cutoff. */
  ghost predicate NotBehind(s: State) {
    s.cutoff.CutoffAt? && s.row.Some? && Accept(s.row.value).Some? ==> Accept(s.row.value).value.createdTo >= s.cutoff.at
  }

  /** A tick moves the completed cutoff back if and only if it completes a stored cycle that ends before
      it; no tick leaves such a cycle behind, whatever row or cutoff it found and whatever the clock says. */
  lemma {:induction false} CutoffMovesBackIff(s: State, e: Env)
    requires e.Ok() && s.cutoff.CutoffAt?
    ensures TickOf(s, e).state.cutoff.CutoffAt?
    ensures TickOf(s, e).state.cutoff.at < s.cutoff.at <==> !NotBehind(s) && TickOf(s, e).completed
    ensures NotBehind(s) ==> NotBehind(TickOf(s, e).state)
  {
    SavedRowResumes(s, e, e.now);
  }

  /** Over every run a completed cutoff, once set, never decreases, even if the clock steps back: an
      unreadable row or cutoff does no harm, only a stored cycle ending before the cutoff could. */
  lemma {:induction false} CutoffNeverDecreases(s: State, envs: seq<Env>)
    requires AllOk(envs) && NotBehind(s)
    ensures NotBehind(After(s, envs))
    ensures s.cutoff.CutoffAt? ==> After(s, envs).cutoff.CutoffAt? && After(s, envs).cutoff.at >= s.cutoff.at
    decreases |envs|
  {
    if envs != [] {
      var next := TickOf(s, envs[0]).state;
      if s.cutoff.CutoffAt? {
        CutoffMovesBackIff(s, envs[0]);
      } else {
        SavedRowResumes(s, envs[0], envs[0].now);
      }
      CutoffNeverDecreases(next, envs[1..]);
    }
  }

  /** Every resumable cycle starts 15 minutes before the completed cutoff and ends at or after it. */
  ghost predicate Chained(s: State) {
    s.row.Some? && Accept(s.row.value).Some? ==>
      var c := Accept(s.row.value).value;
      if s.cutoff.CutoffAt? then c.createdFrom == s.cutoff.at - RECHECK && c.createdTo >= s.cutoff.at
      else c.createdFrom == c.createdTo - RECHECK
  }

  /** One tick keeps windows chained, never moves the completed cutoff back, whatever the clock
      says, and completes a cycle only at the end of its window. */
  lemma TickChains(s: State, e: Env)
    requires Chained(s) && e.Ok()
    ensures Chained(TickOf(s, e).state)
    ensures s.cutoff.CutoffAt? ==>
              TickOf(s, e).state.cutoff.CutoffAt? && TickOf(s, e).state.cutoff.at >= s.cutoff.at
    ensures TickOf(s, e).completed ==>
              TickOf(s, e).state == State(None, CutoffAt(Current(s, e.now).createdTo))
    ensures !TickOf(s, e).completed ==> TickOf(s, e).state.cutoff == s.cutoff
  {
    SavedRowResumes(s, e, e.now);
  }

  lemma {:induction false} RunChains(s: State, envs: seq<Env>)
    requires Chained(s) && AllOk(envs)
    ensures Chained(After(s, envs))
    ensures s.cutoff.CutoffAt? ==>
              After(s, envs).cutoff.CutoffAt? && After(s, envs).cutoff.at >= s.cutoff.at
    decreases |envs|
  {
    if envs != [] {
      TickChains(s, envs[0]);
      RunChains(TickOf(s, envs[0]).state, envs[1..]);
    }
  }

  /** A ban created more than 15 minutes before a completed cutoff is in no later window: after
      a clock step back of more than 15 minutes new bans are never correlated. */
  lemma {:induction false} BehindCutoffIsLost(s: State, envs: seq<Env>, createdAt: int, now: int)
    requires Chained(s) && AllOk(envs) && s.cutoff.CutoffAt?
    requires createdAt < s.cutoff.at - RECHECK
    ensures createdAt < Current(After(s, envs), now).createdFrom
  {
    RunChains(s, envs);
  }

  /** The window a cycle opens covers every ban that became visible by `visible` at most 15
      minutes after its creation exactly when the completed cutoff is not later than `visible`. */
  lemma NewWindowCoversIff(cutoff: StoredCutoff, now: int, visible: int)
    requires cutoff.CutoffAt? && visible <= now
    ensures (forall t :: visible - 15 * 60 * 1_000_000 <= t <= visible ==> Spans(NewCycle(cutoff, now), t))
            <==> cutoff.at <= visible
  {
    assert Spans(NewCycle(cutoff, now), visible - RECHECK) ==> cutoff.at <= visible;
  }

  ghost predicate Spans(c: Cycle, t: int) {
    c.createdFrom <= t <= c.createdTo
  }

  ghost predicate ClockForward(envs: seq<Env>) {
    forall i, j :: 0 <= i < j < |envs| ==> envs[i].now <= envs[j].now
  }

  /** While the clock only moves forward, no stored time is ahead of it. */
  ghost predicate Timely(s: State, now: int) {
    && (s.cutoff.CutoffAt? ==> s.cutoff.at <= now)
    && (s.row.Some? && Accept(s.row.value).Some? ==> Accept(s.row.value).value.createdTo <= now)
  }

  lemma {:induction false} RunTimely(s: State, envs: seq<Env>)
    requires Chained(s) && AllOk(envs) && ClockForward(envs) && envs != [] && Timely(s, envs[0].now)
    ensures Timely(After(s, envs), envs[|envs| - 1].now)
    decreases |envs|
  {
    TickChains(s, envs[0]);
    SavedRowResumes(s, envs[0], envs[0].now);
    if |envs| > 1 {
      assert envs[0].now <= envs[1].now;
      RunTimely(TickOf(s, envs[0]).state, envs[1..]);
      assert After(s, envs) == After(TickOf(s, envs[0]).state, envs[1..]);
    } else {
      assert After(s, envs) == After(TickOf(s, envs[0]).state, []);
    }
  }

  /** A completed cycle leaves no row and its own end as the cutoff. */
  lemma {:induction false} CompletedCutoff(s: State, envs: seq<Env>)
    requires AllOk(envs) && Completes(s, envs)
    ensures After(s, envs) == State(None, CutoffAt(Current(s, envs[0].now).createdTo))
    decreases |envs|
  {
    if |envs| > 1 {
      SavedRowResumes(s, envs[0], envs[1].now);
      CompletedCutoff(TickOf(s, envs[0]).state, envs[1..]);
    } else {
      assert After(s, envs) == After(TickOf(s, envs[0]).state, []);
    }
  }

  const FRESH: State := State(None, NoCutoff)

  /** The stored rows when, after any run `before` on a fresh install under a clock that only
      moved forward, the ticks `first` have run one whole cycle. */
  ghost predicate OneCycleAfter(before: seq<Env>, first: seq<Env>) {
    && AllOk(before) && AllOk(first) && first != [] && ClockForward(before)
    && (before != [] ==> before[|before| - 1].now <= first[0].now)
    && Starts(After(FRESH, before)) && Completes(After(FRESH, before), first)
  }

  lemma {:induction false} CutoffIsStart(before: seq<Env>, first: seq<Env>)
    requires OneCycleAfter(before, first)
    ensures After(After(FRESH, before), first) == State(None, CutoffAt(first[0].now))
  {
    RunChains(FRESH, before);
    if before != [] {
      RunTimely(FRESH, before);
    }
    CompletedCutoff(After(FRESH, before), first);
  }

  /** Windows leave no gap: the window of the next cycle contains every ban that became visible
      after `first` started, at most 15 minutes after its creation. */
  lemma {:induction false} NoGap(before: seq<Env>, first: seq<Env>, next: Env, createdAt: int, visible: int)
    requires OneCycleAfter(before, first)
    requires first[0].now <= visible <= next.now
    requires createdAt <= visible <= createdAt + 15 * 60 * 1_000_000
    ensures Starts(After(After(FRESH, before), first))
    ensures Spans(Current(After(After(FRESH, before), first), next.now), createdAt)
  {
    CutoffIsStart(before, first);
  }

  lemma ListedIsShown(e: Env, ban: Event, lower: int, upper: int)
    requires ban in e.events && ban.eventType == "security.ban" && ban.ip.Some? && ban.ip.value != ""
    requires ban.createdAt.Some? && lower <= ban.createdAt.value <= upper
    ensures Shows(e, ban.id, lower, upper)
  {
    var k :| 0 <= k < |e.events| && e.events[k] == ban;
  }

  /** So no ban is missed: a rule offered throughout that next cycle is evaluated exactly once
      on every such ban. */
  lemma {:induction false} NoBanMissed(before: seq<Env>, first: seq<Env>, second: seq<Env>, r: RuleId, ban: Event,
        visible: int)
    requires OneCycleAfter(before, first)
    requires AllOk(second) && Completes(After(After(FRESH, before), first), second)
    requires ban.eventType == "security.ban" && ban.ip.Some? && ban.ip.value != ""
    requires ban.createdAt.Some? && first[0].now <= visible <= second[0].now
    requires ban.createdAt.value <= visible <= ban.createdAt.value + 15 * 60 * 1_000_000
    requires r > 0 && ban.id > 0
    requires forall i :: 0 <= i < |second| ==> Offers(second[i], r) && ban in second[i].events
    ensures multiset(Evals(After(After(FRESH, before), first), second))[(r, ban.id)] == 1
  {
    var s := After(After(FRESH, before), first);
    NoGap(before, first, second[0], ban.createdAt.value, visible);
    var c := Current(s, second[0].now);
    forall i | 0 <= i < |second| ensures Shows(second[i], ban.id, c.createdFrom, c.createdTo) {
      ListedIsShown(second[i], ban, c.createdFrom, c.createdTo);
    }
    ShownIsCovered(s, second, r, ban.id);
  }

  /** A cutoff at two hours, and a clock stepped back to one: a ban created now is not in the window. */
  lemma ClockStepBackLosesBan()
    ensures var hour := 3_600_000_000; var s := State(None, CutoffAt(2 * hour));
            Chained(s) && Starts(s) && !Spans(Current(s, hour), hour)
  {
  }

  /** One rule and one ban that appears between two cycles: the second cycle evaluates the pair. */
  lemma BanBetweenCycles()
    ensures var rule, ban := Rule(1, "scan_ban_chain"), Event(7, "security.ban", Some("192.0.2.1"), Some(1));
            var first, second := [Env(0, [rule], {1}, [])], [Env(1, [rule], {1}, [ban])];
            && OneCycleAfter([], first)
            && Completes(After(After(FRESH, []), first), second)
            && Evals(After(After(FRESH, []), first), second) == [(1, 7)]
  {
    var rule, ban := Rule(1, "scan_ban_chain"), Event(7, "security.ban", Some("192.0.2.1"), Some(1));
    var first, second := [Env(0, [rule], {1}, [])], [Env(1, [rule], {1}, [ban])];
    assert [rule][1..] == [] && [ban][1..] == [];
    var s := After(FRESH, []);
    assert s == FRESH;
    var chain := ChainIds([rule], {1});
    var head: seq<RuleId> := [1];
    assert ChainIds([], {1}) == [] && chain == head + ChainIds([rule][1..], {1});
    assert head + [] == head;
    assert Above(chain, 0) == [1] by { AboveAll(chain, 0); }
    assert Above(chain, 1) == [] by { AboveNone(chain, 1); }
    assert Take([1], MAX_CHAIN_RULES) == [1] && BanIds([], 0 - RECHECK, 0) == [];
    assert TickOf(FRESH, first[0]).completed by {
      assert Assign(Current(FRESH, 0), first[0]).batch == [1];
      assert Anchors(Assign(Current(FRESH, 0), first[0]), first[0]) == [];
    }
    assert After(s, first) == After(State(None, CutoffAt(0)), []);
    var c := Current(State(None, CutoffAt(0)), 1);
    assert InWindow(ban, c.createdFrom, c.createdTo);
    assert BanIds([ban], c.createdFrom, c.createdTo) == [7];
    assert Above([7], 0) == [7] by { AboveAll([7], 0); }
    assert Selected([1], [1]) == [1] by { assert [1][1..] == []; }
    assert PairsFor(7, [1]) == [(1, 7)] by { assert [1][1..] == []; }
    assert Pairs([7], [1]) == [(1, 7)] by { assert [7][1..] == []; }
    assert TickOf(State(None, CutoffAt(0)), second[0]).evals == [(1, 7)];
  }
}
