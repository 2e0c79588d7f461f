/** What Level 2 correlation evaluates, told by the fields of rules and events alone. */
module Level2Evaluations {
  import opened Level2
  import opened Level2Safety
  import opened Level2Runs

  lemma TickShows(s: State, e: Env, r: RuleId, ban: nat)
    requires e.Ok() && (r, ban) in TickOf(s, e).evals
    ensures Shows(e, ban, Current(s, e.now).createdFrom, Current(s, e.now).createdTo) && Offers(e, r)
  {
    var c := Current(s, e.now);
    CurrentIsGood(s, e.now);
    AssignKeeps(c, e, 0, 1);
    var a := Assign(c, e);
    DrainCount(a, e, r, ban);
    AnchorFacts(a, e);
    RemainingFacts(a, e);
  }

  lemma OffersIff(e: Env, r: RuleId)
    ensures Offers(e, r) <==>
            (exists k :: 0 <= k < |e.rules| && e.rules[k].id == r && e.rules[k].kind == "scan_ban_chain") && r in e.available
  {
    if Offers(e, r) {
      var rule :| rule in e.rules && rule.id == r && rule.kind == "scan_ban_chain";
      var k :| 0 <= k < |e.rules| && e.rules[k] == rule;
    }
    if k :| 0 <= k < |e.rules| && e.rules[k].id == r && e.rules[k].kind == "scan_ban_chain" {
      assert e.rules[k] in e.rules;
    }
  }

  lemma {:induction false} CycleShows(s: State, envs: seq<Env>, r: RuleId, ban: nat) returns (i: nat)
    requires AllOk(envs) && Completes(s, envs) && (r, ban) in Evals(s, envs)
    ensures var c := Current(s, envs[0].now);
            i < |envs| && Shows(envs[i], ban, c.createdFrom, c.createdTo) && Offers(envs[i], r)
    decreases |envs|
  {
    var t := TickOf(s, envs[0]);
    if (r, ban) in t.evals {
      TickShows(s, envs[0], r, ban);
      i := 0;
    } else {
      assert (r, ban) in Evals(t.state, envs[1..]);
      SavedRowResumes(s, envs[0], envs[1].now);
      var k := CycleShows(t.state, envs[1..], r, ban);
      i := k + 1;
    }
  }

  /** Every pair a tick evaluates is an available chain rule on a ban event that has an address and was
      created in the cycle's window. */
  lemma TickEvaluatesBans(s: State, e: Env, r: RuleId, ban: nat)
    requires e.Ok() && (r, ban) in TickOf(s, e).evals
    ensures exists k :: 0 <= k < |e.events| &&
              var event, c := e.events[k], Current(s, e.now);
              && event.id == ban && event.eventType == "security.ban" && event.ip.Some? && event.ip.value != ""
              && event.createdAt.Some? && c.createdFrom <= event.createdAt.value <= c.createdTo
    ensures exists k :: 0 <= k < |e.rules| && e.rules[k].id == r && e.rules[k].kind == "scan_ban_chain" && r in e.available
  {
    TickShows(s, e, r, ban);
    OffersIff(e, r);
  }

  /** So does every tick of a cycle, over the window the cycle began with. */
  lemma {:induction false} CycleEvaluatesBans(s: State, envs: seq<Env>, r: RuleId, ban: nat)
    requires AllOk(envs) && Completes(s, envs) && (r, ban) in Evals(s, envs)
    ensures exists i, k :: 0 <= i < |envs| && 0 <= k < |envs[i].events| &&
              var event, c := envs[i].events[k], Current(s, envs[0].now);
              && event.id == ban && event.eventType == "security.ban" && event.ip.Some? && event.ip.value != ""
              && event.createdAt.Some? && c.createdFrom <= event.createdAt.value <= c.createdTo
    ensures exists i, k :: 0 <= i < |envs| && 0 <= k < |envs[i].rules| &&
              var rule := envs[i].rules[k];
              rule.id == r && rule.kind == "scan_ban_chain" && r in envs[i].available
  {
    var i := CycleShows(s, envs, r, ban);
    OffersIff(envs[i], r);
  }

  lemma EventIsPositive(e: Env, ban: nat, lower: int, upper: int)
    requires e.Ok() && Shows(e, ban, lower, upper)
    ensures ban > 0
  {
  }

  /** With rules and events held fixed, a whole cycle evaluates an available chain rule once on every ban
      with an address that was created in its window, and nothing else. */
  lemma {:induction false} CycleEvaluatesIff(s: State, envs: seq<Env>, r: RuleId, ban: nat)
    requires AllOk(envs) && Completes(s, envs) && Starts(s) && Unchanged(envs) && r > 0
    ensures var e, c := envs[0], Current(s, envs[0].now);
            multiset(Evals(s, envs))[(r, ban)] ==
            if Shows(e, ban, c.createdFrom, c.createdTo) && Offers(e, r) then 1 else 0
  {
    var e, c := envs[0], Current(s, envs[0].now);
    if (r, ban) in Evals(s, envs) {
      var i := CycleShows(s, envs, r, ban);
      assert Offers(e, r) && Shows(e, ban, c.createdFrom, c.createdTo);
    }
    if Shows(e, ban, c.createdFrom, c.createdTo) && Offers(e, r) {
      EventIsPositive(e, ban, c.createdFrom, c.createdTo);
      ShownIsCovered(s, envs, r, ban);
    }
  }
}
