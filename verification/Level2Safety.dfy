/** What every Level 2 cycle keeps: coverage, exact progress, and windows without gaps. */
module Level2Safety {
  import opened Wrappers
  import opened Keyset
  import opened Level2

  // ---- What the queries of one tick return -------------------------------------------------

  ghost predicate Offers(e: Env, r: RuleId) {
    exists rule :: rule in e.rules && rule.id == r && rule.kind == "scan_ban_chain" && r in e.available
  }

  /** The events table holds the ban, with an address, created between the two times. */
  ghost predicate Shows(e: Env, ban: nat, lower: int, upper: int) {
    exists k :: 0 <= k < |e.events| &&
      var event := e.events[k];
      && event.id == ban && event.eventType == "security.ban" && event.ip.Some? && event.ip.value != ""
      && event.createdAt.Some? && lower <= event.createdAt.value <= upper
  }

  lemma {:induction false} ShowsIffListed(e: Env, ban: nat, lower: int, upper: int)
    ensures Shows(e, ban, lower, upper) <==> ban in BanIds(e.events, lower, upper)
  {
    BanIdsListed(e.events, lower, upper);
    if ban in BanIds(e.events, lower, upper) {
      var event :| event in e.events && event.id == ban && InWindow(event, lower, upper);
      var k :| 0 <= k < |e.events| && e.events[k] == event;
    }
    if Shows(e, ban, lower, upper) {
      var k :| 0 <= k < |e.events| && e.events[k].id == ban && InWindow(e.events[k], lower, upper);
      assert e.events[k] in e.events;
    }
  }

  lemma {:induction false} ChainIdsListed(rules: seq<Rule>, available: set<RuleId>)
    ensures forall r :: r in ChainIds(rules, available) <==>
              exists rule :: rule in rules && rule.id == r && rule.kind == "scan_ban_chain" && r in available
  {
    if rules != [] {
      ChainIdsListed(rules[1..], available);
      assert rules == [rules[0]] + rules[1..];
    }
  }

  lemma {:induction false} ChainIdsAscending(rules: seq<Rule>, available: set<RuleId>)
    requires forall i, j :: 0 <= i < j < |rules| ==> rules[i].id < rules[j].id
    ensures Ascending(ChainIds(rules, available))
  {
    if rules != [] {
      ChainIdsAscending(rules[1..], available);
      ChainIdsListed(rules[1..], available);
      AscendingCons(rules[0].id, ChainIds(rules[1..], available));
    }
  }

  lemma {:induction false} BanIdsListed(events: seq<Event>, lower: int, upper: int)
    ensures forall b :: b in BanIds(events, lower, upper) <==>
              exists event :: event in events && event.id == b && InWindow(event, lower, upper)
  {
    if events != [] {
      BanIdsListed(events[1..], lower, upper);
      assert events == [events[0]] + events[1..];
    }
  }

  lemma {:induction false} BanIdsAscending(events: seq<Event>, lower: int, upper: int)
    requires forall i, j :: 0 <= i < j < |events| ==> events[i].id < events[j].id
    ensures Ascending(BanIds(events, lower, upper))
  {
    if events != [] {
      BanIdsAscending(events[1..], lower, upper);
      BanIdsListed(events[1..], lower, upper);
      AscendingCons(events[0].id, BanIds(events[1..], lower, upper));
    }
  }

  lemma {:induction false} SelectedMembers(rules: seq<RuleId>, batch: seq<RuleId>)
    ensures forall r :: r in Selected(rules, batch) <==> r in rules && r in batch
  {
    if rules != [] {
      SelectedMembers(rules[1..], batch);
      assert rules == [rules[0]] + rules[1..];
    }
  }

  lemma {:induction false} SelectedAscending(rules: seq<RuleId>, batch: seq<RuleId>)
    requires Ascending(rules)
    ensures Ascending(Selected(rules, batch))
  {
    if rules != [] {
      AscendingTail(rules);
      SelectedAscending(rules[1..], batch);
      SelectedMembers(rules[1..], batch);
      AscendingCons(rules[0], Selected(rules[1..], batch));
    }
  }

  // ---- The product of anchors and rules -----------------------------------------------------

  function One(b: bool): nat { if b then 1 else 0 }

  lemma {:induction false} PairsForCount(ban: nat, rules: seq<RuleId>, p: Pair)
    requires Ascending(rules)
    ensures multiset(PairsFor(ban, rules))[p] == One(p.1 == ban && p.0 in rules)
  {
    if rules != [] {
      AscendingTail(rules);
      PairsForCount(ban, rules[1..], p);
      assert rules == [rules[0]] + rules[1..];
    }
  }

  lemma {:induction false} PairsCount(bans: seq<nat>, rules: seq<RuleId>, p: Pair)
    requires Ascending(rules) && Ascending(bans)
    ensures multiset(Pairs(bans, rules))[p] == One(p.1 in bans && p.0 in rules)
  {
    if bans != [] {
      AscendingTail(bans);
      PairsCount(bans[1..], rules, p);
      PairsForCount(bans[0], rules, p);
      assert bans == [bans[0]] + bans[1..];
    }
  }

  lemma {:induction false} PairsLength(bans: seq<nat>, rules: seq<RuleId>)
    ensures |Pairs(bans, rules)| == |bans| * |rules|
  {
    if bans != [] {
      PairsLength(bans[1..], rules);
    }
  }

  // ---- The stored row -----------------------------------------------------------------------

  /** What the worker keeps of every cycle it saves. */
  ghost predicate Good(c: Cycle) {
    && |c.batch| <= MAX_CHAIN_RULES
    && Ascending(c.batch)
    && (forall id :: id in c.batch ==> id > c.lastRule)
    && (c.lastId > 0 ==> c.batch != [])
    && c.createdFrom <= c.createdTo - RECHECK
  }

  lemma {:induction false} NeighboursOrdered(xs: seq<RuleId>, i: nat, j: nat)
    requires SortedUnique(xs) && i < j < |xs|
    ensures xs[i] < xs[j]
  {
    if i < j - 1 {
      NeighboursOrdered(xs, i, j - 1);
    }
    assert xs[j - 1] < xs[j];
  }

  lemma SortedUniqueIsAscending(xs: seq<RuleId>)
    ensures SortedUnique(xs) <==> Ascending(xs)
  {
    if SortedUnique(xs) {
      forall i: nat, j: nat | i < j < |xs| ensures xs[i] < xs[j] {
        NeighboursOrdered(xs, i, j);
      }
    }
  }

  lemma SomeAtMost(batch: seq<RuleId>, rule: RuleId)
    ensures (exists id :: id in batch && id <= rule) <==> exists i :: 0 <= i < |batch| && batch[i] <= rule
  {
    if i :| 0 <= i < |batch| && batch[i] <= rule {
      assert batch[i] in batch;
    }
  }

  /** At most 20 strictly ascending rules behind the rule cursor. */
  ghost predicate FitsBehind(batch: seq<RuleId>, lastRule: RuleId) {
    && |batch| <= 20 && (forall i, j :: 0 <= i < j < |batch| ==> batch[i] < batch[j])
    && (forall i :: 0 <= i < |batch| ==> batch[i] > lastRule)
  }

  lemma BatchFits(batch: seq<RuleId>, lastRule: RuleId)
    ensures FitsBehind(batch, lastRule) <==>
            |batch| <= MAX_CHAIN_RULES && !(exists id :: id in batch && id <= lastRule) && SortedUnique(batch)
  {
    SortedUniqueIsAscending(batch);
    SomeAtMost(batch, lastRule);
  }

  /** Which stored rows are resumed, and as what. A row must have been written in one of three versions: without
      the last two fields it starts over at the first rule, without the last one at the first ban. Its window is
      at least 15 minutes long and ends where the cycle was started; its batch is at most 20 strictly
      ascending rules behind the rule cursor; and a used ban cursor has a batch. */
  lemma {:induction false} AcceptIff(row: StoredCycle)
    requires row.Stored?
    ensures Accept(Unreadable).None?
    ensures var lastRule := if row.lastRule.Some? then row.lastRule.value else 0;
            var batch := if row.batch.Some? then row.batch.value else [];
            var lastId := if row.batch.Some? then row.lastId else 0;
            && (Accept(row).Some? <==>
                  && (row.batch.Some? ==> row.lastRule.Some?) && row.lastId >= 0
                  && row.startedAt == row.createdTo && row.createdFrom <= row.startedAt - 15 * 60 * 1_000_000
                  && FitsBehind(batch, lastRule) && (lastId > 0 ==> batch != []))
            && (Accept(row).Some? ==> Accept(row).value == Cycle(row.createdFrom, row.createdTo, lastId, lastRule, batch))
  {
    BatchFits(row.batch.GetOr([]), row.lastRule.GetOr(0));
    if row.batch.Some? && row.lastRule.Some? {
      assert row.batch.GetOr([]) == row.batch.value && row.lastRule.GetOr(0) == row.lastRule.value;
    } else if row.lastRule.Some? {
      assert row.lastRule.GetOr(0) == row.lastRule.value;
    }
  }

  /** The stored row comes back unchanged exactly when it satisfies the worker's invariant. */
  lemma {:induction false} AcceptedIffGood(c: Cycle)
    ensures Accept(Save(c)) == Some(c) <==> Good(c)
  {
    SortedUniqueIsAscending(c.batch);
  }

  /** Whatever row was stored, an accepted one resumes a well-formed cycle. */
  lemma {:induction false} AcceptedIsGood(row: StoredCycle)
    ensures Accept(row).Some? ==> Good(Accept(row).value)
  {
    if Accept(row).Some? {
      SortedUniqueIsAscending(Accept(row).value.batch);
    }
  }

  lemma {:induction false} CurrentIsGood(s: State, now: int)
    ensures Good(Current(s, now))
  {
    if !Starts(s) {
      AcceptedIsGood(s.row.value);
    }
  }

  // ---- Coverage -----------------------------------------------------------------------------

  /** What a cycle still owes a pair: nothing for a rule whose batch is past, or that joined
      behind the running batch, or for a ban the running batch has passed. */
  ghost function Due(c: Cycle, r: RuleId, ban: nat): nat {
    One(r > BatchEnd(c) || (r in c.batch && ban > c.lastId))
  }

  lemma BatchEndIsLast(c: Cycle)
    requires Good(c)
    ensures forall r :: r in c.batch ==> c.lastRule < r <= BatchEnd(c)
    ensures c.lastRule <= BatchEnd(c)
  {
    if c.batch != [] {
      AscendingLast(c.batch);
      assert c.batch[0] in c.batch;
    }
  }

  /** Assigning a batch keeps the cycle well formed; an offered rule is in it or behind it. */
  lemma AssignKeeps(c: Cycle, e: Env, r: RuleId, ban: nat)
    requires Good(c) && e.Ok() && ban > 0
    ensures Good(Assign(c, e))
    ensures Due(Assign(c, e), r, ban) <= Due(c, r, ban)
    ensures Offers(e, r) ==> Due(Assign(c, e), r, ban) == Due(c, r, ban)
  {
    if c.batch == [] {
      RemainingFacts(c, e);
      TakePage(Remaining(c, e), MAX_CHAIN_RULES);
      BatchEndIsLast(Assign(c, e));
    }
  }

  lemma RemainingFacts(c: Cycle, e: Env)
    requires e.Ok()
    ensures Ascending(Remaining(c, e))
    ensures forall r: RuleId :: r in Remaining(c, e) <==> Offers(e, r) && r > c.lastRule
  {
    ChainIdsAscending(e.rules, e.available);
    ChainIdsListed(e.rules, e.available);
    AboveAscending(ChainIds(e.rules, e.available), c.lastRule);
    AboveMembers(ChainIds(e.rules, e.available), c.lastRule);
  }

  /** The anchors of a tick: the next bans past the cursor, all of them when fewer than 100. */
  lemma AnchorFacts(c: Cycle, e: Env)
    requires e.Ok()
    ensures Ascending(Anchors(c, e)) && c.lastId <= Drained(c, e)
    ensures forall b: nat :: b in Anchors(c, e) ==> c.lastId < b <= Drained(c, e)
    ensures forall b: nat :: b in Anchors(c, e) ==> Shows(e, b, c.createdFrom, c.createdTo)
    ensures forall b: nat :: Shows(e, b, c.createdFrom, c.createdTo) && b > c.lastId && b !in Anchors(c, e) ==>
                          |Anchors(c, e)| == MAX_BAN_ANCHORS && b > Drained(c, e)
  {
    var bans := BanIds(e.events, c.createdFrom, c.createdTo);
    BanIdsAscending(e.events, c.createdFrom, c.createdTo);
    forall b: nat ensures Shows(e, b, c.createdFrom, c.createdTo) <==> b in bans {
      ShowsIffListed(e, b, c.createdFrom, c.createdTo);
    }
    AboveAscending(bans, c.lastId);
    AboveMembers(bans, c.lastId);
    TakePage(Above(bans, c.lastId), MAX_BAN_ANCHORS);
    if Anchors(c, e) != [] {
      AscendingLast(Anchors(c, e));
      assert Drained(c, e) in Anchors(c, e);
    }
  }

  /** The ban cursor a tick leaves behind. */
  ghost function Drained(c: Cycle, e: Env): nat {
    if Anchors(c, e) == [] then c.lastId else Anchors(c, e)[|Anchors(c, e)| - 1]
  }

  ghost function Left(p: Progress, r: RuleId, ban: nat): nat {
    if p.next.Some? then Due(p.next.value, r, ban) else 0
  }

  /** A tick changes cursors only: the cycle stays well formed and keeps its window. */
  lemma DrainKeeps(c: Cycle, e: Env)
    requires Good(c) && e.Ok()
    ensures var next := Drain(c, e).next;
            next.Some? ==> Good(next.value) && next.value.createdFrom == c.createdFrom
                           && next.value.createdTo == c.createdTo
  {
    AnchorFacts(c, e);
  }

  lemma DrainCount(c: Cycle, e: Env, r: RuleId, ban: nat)
    requires Good(c) && e.Ok()
    ensures multiset(Drain(c, e).evals)[(r, ban)] == One(ban in Anchors(c, e) && r in Remaining(c, e) && r in c.batch)
  {
    var remaining := Remaining(c, e);
    RemainingFacts(c, e);
    SelectedAscending(remaining, c.batch);
    SelectedMembers(remaining, c.batch);
    AnchorFacts(c, e);
    PairsCount(Anchors(c, e), Selected(remaining, c.batch), (r, ban));
  }

  /** What a drained batch leaves due are the rules behind it, as long as there are any. */
  lemma LeftCount(c: Cycle, e: Env, r: RuleId, ban: nat)
    requires Good(c) && e.Ok() && ban > 0
    ensures var left, drained := Left(Drain(c, e), r, ban), c.batch == [] || |Anchors(c, e)| < MAX_BAN_ANCHORS;
            && (!drained ==> left == One(r > BatchEnd(c) || (r in c.batch && ban > Drained(c, e))))
            && (drained ==> left <= One(r > BatchEnd(c)) && (left < One(r > BatchEnd(c)) ==> r !in Remaining(c, e)))
  {
    var remaining := Remaining(c, e);
    AboveMembers(remaining, BatchEnd(c));
    var next := Drain(c, e).next;
    if next.None? {
      assert r > BatchEnd(c) ==> r !in remaining;
    } else if c.batch == [] || |Anchors(c, e)| < MAX_BAN_ANCHORS {
      assert next.value.batch == [] && BatchEnd(next.value) == BatchEnd(c);
    } else {
      assert next.value.batch == c.batch && next.value.lastId == Drained(c, e);
    }
  }

  lemma DrainSettles(c: Cycle, e: Env, r: RuleId, ban: nat)
    requires Good(c) && e.Ok() && ban > 0
    ensures multiset(Drain(c, e).evals)[(r, ban)] + Left(Drain(c, e), r, ban) <= Due(c, r, ban)
    ensures Offers(e, r) && Shows(e, ban, c.createdFrom, c.createdTo) ==>
              multiset(Drain(c, e).evals)[(r, ban)] + Left(Drain(c, e), r, ban) == Due(c, r, ban)
  {
    RemainingFacts(c, e);
    AnchorFacts(c, e);
    BatchEndIsLast(c);
    DrainCount(c, e, r, ban);
    LeftCount(c, e, r, ban);
  }

  /** One tick settles exactly what the cycle owed: what it evaluates plus what it still owes
      afterwards is at most what it owed, and equal for a rule and a ban that are both there. */
  lemma TickSettles(c: Cycle, e: Env, r: RuleId, ban: nat)
    requires Good(c) && e.Ok() && ban > 0
    ensures multiset(Advance(c, e).evals)[(r, ban)] + Left(Advance(c, e), r, ban) <= Due(c, r, ban)
    ensures Offers(e, r) && Shows(e, ban, c.createdFrom, c.createdTo) ==>
              multiset(Advance(c, e).evals)[(r, ban)] + Left(Advance(c, e), r, ban) == Due(c, r, ban)
  {
    AssignKeeps(c, e, r, ban);
    DrainSettles(Assign(c, e), e, r, ban);
  }
}
