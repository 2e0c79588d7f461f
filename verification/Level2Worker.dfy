/** `run_level2_tick` as it runs: the stored rows are rewritten in place, and the
    findings table grows by what each evaluation records. */
module Level2Worker {
  import opened Wrappers
  import opened Keyset
  import opened Level2

  /** What evaluating one (rule, ban) pair comes to; the event predicate of a rule is not modelled. */
  datatype Verdict = Raises | Quiet | Match

  /** `evaluate_chain` up to its dedupe key: a pair that already has a finding is left alone,
      and an evaluation that raises is rolled back to its savepoint. */
  function Evaluate(findings: seq<Pair>, pair: Pair, verdict: Verdict): seq<Pair> {
    if pair in findings || verdict != Match then findings else findings + [pair]
  }

  function EvaluateAll(findings: seq<Pair>, pairs: seq<Pair>, verdict: Pair -> Verdict): seq<Pair>
    decreases |pairs|
  {
    if pairs == [] then findings
    else EvaluateAll(Evaluate(findings, pairs[0], verdict(pairs[0])), pairs[1..], verdict)
  }

  function Failures(pairs: seq<Pair>, verdict: Pair -> Verdict): nat {
    if pairs == [] then 0
    else (if verdict(pairs[0]) == Raises then 1 else 0) + Failures(pairs[1..], verdict)
  }

  /** The count is none exactly when no evaluation raises, and one more with each that does. */
  lemma {:induction false} FailuresAre(pairs: seq<Pair>, p: Pair, verdict: Pair -> Verdict)
    ensures Failures(pairs, verdict) == 0 <==> forall i :: 0 <= i < |pairs| ==> verdict(pairs[i]).Quiet? || verdict(pairs[i]).Match?
    ensures Failures(pairs + [p], verdict) == Failures(pairs, verdict) + if verdict(p).Raises? then 1 else 0
  {
    if pairs == [] {
      assert pairs + [p] == [p] && [p][1..] == [];
    } else {
      FailuresAre(pairs[1..], p, verdict);
      assert (pairs + [p])[1..] == pairs[1..] + [p];
      assert forall i :: 0 < i < |pairs| ==> pairs[i] == pairs[1..][i - 1];
    }
  }

  ghost predicate Distinct(xs: seq<Pair>) {
    forall i, j :: 0 <= i < j < |xs| ==> xs[i] != xs[j]
  }

  /** However often cycles overlap, a pair gets at most one finding, none is lost, and a pair
      that matched has one. */
  lemma {:induction false} AtMostOneFinding(findings: seq<Pair>, pairs: seq<Pair>, verdict: Pair -> Verdict)
    requires Distinct(findings)
    ensures Distinct(EvaluateAll(findings, pairs, verdict))
    ensures findings <= EvaluateAll(findings, pairs, verdict)
    ensures forall p :: p in EvaluateAll(findings, pairs, verdict) <==>
              p in findings || (p in pairs && verdict(p) == Match)
    decreases |pairs|
  {
    if pairs != [] {
      assert pairs == [pairs[0]] + pairs[1..];
      AtMostOneFinding(Evaluate(findings, pairs[0], verdict(pairs[0])), pairs[1..], verdict);
    }
  }

  lemma {:induction false} EvaluateAllConcat(findings: seq<Pair>, a: seq<Pair>, b: seq<Pair>, verdict: Pair -> Verdict)
    ensures EvaluateAll(findings, a + b, verdict) == EvaluateAll(EvaluateAll(findings, a, verdict), b, verdict)
    ensures Failures(a + b, verdict) == Failures(a, verdict) + Failures(b, verdict)
    decreases |a|
  {
    if a == [] {
      assert a + b == b;
    } else {
      assert a + b == [a[0]] + (a[1..] + b);
      EvaluateAllConcat(Evaluate(findings, a[0], verdict(a[0])), a[1..], b, verdict);
    }
  }

  lemma {:induction false} PairsConcat(a: seq<nat>, b: seq<nat>, rules: seq<RuleId>)
    ensures Pairs(a + b, rules) == Pairs(a, rules) + Pairs(b, rules)
  {
    if a == [] {
      assert a + b == b;
    } else {
      assert a + b == [a[0]] + (a[1..] + b);
      PairsConcat(a[1..], b, rules);
    }
  }

  lemma {:induction false} PairsForConcat(ban: nat, a: seq<RuleId>, b: seq<RuleId>)
    ensures PairsFor(ban, a + b) == PairsFor(ban, a) + PairsFor(ban, b)
  {
    if a == [] {
      assert a + b == b;
    } else {
      assert a + b == [a[0]] + (a[1..] + b);
      PairsForConcat(ban, a[1..], b);
    }
  }

  class Worker {
    var row: Option<StoredCycle>
    var cutoff: StoredCutoff
    /** Rows of the insights table, by dedupe key. */
    var findings: seq<Pair>
    /** Every evaluation of every committed tick, in order. */
    ghost var evaluated: seq<Pair>

    ghost predicate Valid()
      reads this
    {
      Distinct(findings)
    }

    ghost function Stored(): State
      reads this
    {
      State(row, cutoff)
    }

    constructor ()
      ensures Valid() && Stored() == State(None, NoCutoff) && findings == [] && evaluated == []
    {
      row, cutoff, findings, evaluated := None, NoCutoff, [], [];
    }

    /** The inner loop: every selected rule on one ban, each in its own savepoint. */
    method EvaluateBan(ban: nat, rules: seq<RuleId>, verdict: Pair -> Verdict) returns (errors: nat)
      modifies this`findings
      ensures findings == EvaluateAll(old(findings), PairsFor(ban, rules), verdict)
      ensures errors == Failures(PairsFor(ban, rules), verdict)
    {
      errors := 0;
      var j := 0;
      while j < |rules|
        invariant 0 <= j <= |rules|
        invariant findings == EvaluateAll(old(findings), PairsFor(ban, rules[..j]), verdict)
        invariant errors == Failures(PairsFor(ban, rules[..j]), verdict)
      {
        var pair := (rules[j], ban);
        EvaluateAllConcat(old(findings), PairsFor(ban, rules[..j]), [pair], verdict);
        PairsForConcat(ban, rules[..j], [rules[j]]);
        assert PairsFor(ban, [rules[j]]) == [pair];
        assert rules[..j + 1] == rules[..j] + [rules[j]];
        if verdict(pair) == Raises {
          errors := errors + 1;
        } else {
          findings := Evaluate(findings, pair, verdict(pair));
        }
        j := j + 1;
      }
      assert rules[..|rules|] == rules;
    }

    /** The outer loop: the anchors in id order; `last` is the cursor left in the state. */
    method EvaluateAnchors(anchors: seq<nat>, rules: seq<RuleId>, verdict: Pair -> Verdict, start: nat)
      returns (errors: nat, last: nat)
      modifies this`findings
      ensures findings == EvaluateAll(old(findings), Pairs(anchors, rules), verdict)
      ensures errors == Failures(Pairs(anchors, rules), verdict)
      ensures last == if anchors == [] then start else anchors[|anchors| - 1]
    {
      errors, last := 0, start;
      var i := 0;
      while i < |anchors|
        invariant 0 <= i <= |anchors|
        invariant findings == EvaluateAll(old(findings), Pairs(anchors[..i], rules), verdict)
        invariant errors == Failures(Pairs(anchors[..i], rules), verdict)
        invariant last == if i == 0 then start else anchors[i - 1]
      {
        var failed := EvaluateBan(anchors[i], rules, verdict);
        EvaluateAllConcat(old(findings), Pairs(anchors[..i], rules), PairsFor(anchors[i], rules), verdict);
        PairsConcat(anchors[..i], [anchors[i]], rules);
        assert Pairs([anchors[i]], rules) == PairsFor(anchors[i], rules);
        assert anchors[..i + 1] == anchors[..i] + [anchors[i]];
        errors, last := errors + failed, anchors[i];
        i := i + 1;
      }
      assert anchors[..|anchors|] == anchors;
    }

    /** The body of a tick over the loaded cycle, up to rewriting the stored rows. */
    method DrainCycle(loaded: Cycle, e: Env, verdict: Pair -> Verdict)
      returns (next: Option<Cycle>, processed: nat, errors: nat, ghost evals: seq<Pair>)
      modifies this`findings
      ensures next == Advance(loaded, e).next && processed == Advance(loaded, e).processed
      ensures evals == Advance(loaded, e).evals
      ensures findings == EvaluateAll(old(findings), evals, verdict)
      ensures errors == Failures(evals, verdict)
    {
      var c := loaded;
      var remaining := Above(ChainIds(e.rules, e.available), c.lastRule);
      if c.batch == [] {
        c := c.(batch := Take(remaining, MAX_CHAIN_RULES));
      }
      assert c == Assign(loaded, e) && remaining == Remaining(c, e);
      var rules := Selected(remaining, c.batch);
      var batchEnd := BatchEnd(c);
      var anchors := Anchors(c, e);
      var lastId;
      errors, lastId := EvaluateAnchors(anchors, rules, verdict, c.lastId);
      c := c.(lastId := lastId);
      processed, evals := |anchors|, Pairs(anchors, rules);
      var drained := c.batch == [] || processed < MAX_BAN_ANCHORS;
      if drained && Above(remaining, batchEnd) == [] {
        next := None;
      } else if drained {
        next := Some(c.(lastRule := batchEnd, lastId := 0, batch := []));
      } else {
        next := Some(c);
      }
    }

    method Tick(e: Env, verdict: Pair -> Verdict) returns (processed: nat, errors: nat, completed: bool)
      requires Valid() && e.Ok()
      modifies this
      ensures Valid()
      ensures Stored() == TickOf(old(Stored()), e).state
      ensures evaluated == old(evaluated) + TickOf(old(Stored()), e).evals
      ensures findings == EvaluateAll(old(findings), TickOf(old(Stored()), e).evals, verdict)
      ensures processed == TickOf(old(Stored()), e).processed
      ensures completed == TickOf(old(Stored()), e).completed
      ensures errors == Failures(TickOf(old(Stored()), e).evals, verdict)
    {
      var c := Current(State(row, cutoff), e.now);
      AtMostOneFinding(findings, Advance(c, e).evals, verdict);
      var next;
      ghost var evals;
      next, processed, errors, evals := DrainCycle(c, e, verdict);
      completed := next.None?;
      if completed {
        cutoff := CutoffAt(c.createdTo);
        row := None;
      } else {
        row := Some(Save(next.value));
      }
      evaluated := evaluated + evals;
    }
  }
}
