/** The resumable Level 2 correlation cycle (backend/app/services/insight_correlation.py).

    A cycle fixes one creation-time window of ban events and walks
    (rule batches) x (ban anchors) over it, at most 20 rules and 100 anchors per
    tick, keeping its cursors in one stored settings row between ticks. */
module Level2 {
  import opened Wrappers
  import opened Keyset

  /** Rule ids are only compared: a rule is its rank in code-point order, 0 is the empty cursor "". */
  type RuleId = nat

  const MAX_BAN_ANCHORS: nat := 100
  const MAX_CHAIN_RULES: nat := 20
  /** RECHECK_MINUTES in microseconds, the resolution of the stored times. */
  const RECHECK: int := 15 * 60 * 1_000_000

  datatype Rule = Rule(id: RuleId, kind: string)
  datatype Event = Event(id: nat, eventType: string, ip: Option<string>, createdAt: Option<int>)

  /** What one tick reads: the clock, `active_rules` in id order, the available
      insight types and the events table in id order. */
  datatype Env = Env(now: int, rules: seq<Rule>, available: set<RuleId>, events: seq<Event>) {
    ghost predicate Ok() {
      && (forall i, j :: 0 <= i < j < |rules| ==> rules[i].id < rules[j].id)
      && (forall i, j :: 0 <= i < j < |events| ==> events[i].id < events[j].id)
      && (forall i :: 0 <= i < |events| ==> events[i].id > 0)
    }
  }

  /** The stored cycle row. `Unreadable` is any text without an accepted field
      set or with times that are not UTC; rows of older versions lack the last
      one or two fields. */
  datatype StoredCycle =
    | Unreadable
    | Stored(startedAt: int, createdFrom: int, createdTo: int, lastId: int,
             lastRule: Option<RuleId>, batch: Option<seq<RuleId>>)

  datatype StoredCutoff = NoCutoff | BadCutoff | CutoffAt(at: int)

  datatype State = State(row: Option<StoredCycle>, cutoff: StoredCutoff)

  /** A cycle in memory; `started_at` always equals `created_to`. */
  datatype Cycle = Cycle(createdFrom: int, createdTo: int, lastId: nat, lastRule: RuleId, batch: seq<RuleId>)

  function Save(c: Cycle): StoredCycle {
    Stored(c.createdTo, c.createdFrom, c.createdTo, c.lastId, Some(c.lastRule), Some(c.batch))
  }

  predicate SortedUnique(xs: seq<RuleId>) {
    forall i {:trigger xs[i]} :: 0 < i < |xs| ==> xs[i - 1] < xs[i]
  }

  /** `_cycle`'s validation of the stored row: the cycle to resume, or None. */
  function Accept(row: StoredCycle): Option<Cycle> {
    if row.Unreadable? || (row.lastRule.None? && row.batch.Some?) || row.lastId < 0 then None
    else
      var lastRule := row.lastRule.GetOr(0);
      var lastId := if row.batch.None? then 0 else row.lastId;
      var batch := row.batch.GetOr([]);
      if |batch| > MAX_CHAIN_RULES || (exists id :: id in batch && id <= lastRule)
         || !SortedUnique(batch) || (lastId > 0 && batch == []) then None
      else if row.startedAt != row.createdTo || row.createdFrom > row.startedAt - RECHECK then None
      else Some(Cycle(row.createdFrom, row.createdTo, lastId, lastRule, batch))
  }

  function Max(a: int, b: int): int { if a >= b then a else b }

  /** `previous`: the completed cutoff, or the clock when none is readable. */
  function Previous(cutoff: StoredCutoff, now: int): int {
    if cutoff.CutoffAt? then cutoff.at else now
  }

  function NewCycle(cutoff: StoredCutoff, now: int): Cycle {
    Cycle(Previous(cutoff, now) - RECHECK, Max(now, Previous(cutoff, now)), 0, 0, [])
  }

  predicate Starts(s: State) {
    s.row.None? || Accept(s.row.value).None?
  }

  function Current(s: State, now: int): Cycle {
    if Starts(s) then NewCycle(s.cutoff, now) else Accept(s.row.value).value
  }

  /** The ids of the chain rules an environment offers, ascending. */
  function ChainIds(rules: seq<Rule>, available: set<RuleId>): seq<RuleId> {
    if rules == [] then []
    else (if rules[0].kind == "scan_ban_chain" && rules[0].id in available then [rules[0].id] else [])
         + ChainIds(rules[1..], available)
  }

  predicate InWindow(e: Event, lower: int, upper: int) {
    && e.eventType == "security.ban" && e.ip.Some? && e.ip.value != ""
    && e.createdAt.Some? && lower <= e.createdAt.value <= upper
  }

  /** The ids of the ban events created inside the window, ascending. */
  function BanIds(events: seq<Event>, lower: int, upper: int): seq<nat> {
    if events == [] then []
    else (if InWindow(events[0], lower, upper) then [events[0].id] else []) + BanIds(events[1..], lower, upper)
  }

  function Remaining(c: Cycle, e: Env): seq<RuleId> {
    Above(ChainIds(e.rules, e.available), c.lastRule)
  }

  /** An empty batch is assigned the next 20 remaining rules; a running batch is never extended. */
  function Assign(c: Cycle, e: Env): Cycle {
    if c.batch == [] then c.(batch := Take(Remaining(c, e), MAX_CHAIN_RULES)) else c
  }

  function BatchEnd(c: Cycle): RuleId {
    if c.batch != [] then c.batch[|c.batch| - 1] else c.lastRule
  }

  function Anchors(c: Cycle, e: Env): seq<nat> {
    Take(Above(BanIds(e.events, c.createdFrom, c.createdTo), c.lastId), MAX_BAN_ANCHORS)
  }

  function Selected(rules: seq<RuleId>, batch: seq<RuleId>): seq<RuleId> {
    if rules == [] then []
    else (if rules[0] in batch then [rules[0]] else []) + Selected(rules[1..], batch)
  }

  type Pair = (RuleId, nat)

  function PairsFor(ban: nat, rules: seq<RuleId>): (r: seq<Pair>)
    ensures |r| == |rules|
  {
    if rules == [] then [] else [(rules[0], ban)] + PairsFor(ban, rules[1..])
  }

  /** The evaluation order: anchors outside, rules inside. */
  function Pairs(bans: seq<nat>, rules: seq<RuleId>): seq<Pair> {
    if bans == [] then [] else PairsFor(bans[0], rules) + Pairs(bans[1..], rules)
  }

  /** What one tick does to a cycle; `next` is None when the cycle completed. */
  datatype Progress = Progress(next: Option<Cycle>, evals: seq<Pair>, processed: nat)

  /** One tick over an assigned cycle. */
  function Drain(c: Cycle, e: Env): Progress {
    var remaining := Remaining(c, e);
    var anchors := Anchors(c, e);
    var moved := if anchors == [] then c else c.(lastId := anchors[|anchors| - 1]);
    var drained := c.batch == [] || |anchors| < MAX_BAN_ANCHORS;
    var next :=
      if drained && Above(remaining, BatchEnd(c)) == [] then None
      else if drained then Some(moved.(lastRule := BatchEnd(c), lastId := 0, batch := []))
      else Some(moved);
    Progress(next, Pairs(anchors, Selected(remaining, c.batch)), |anchors|)
  }

  function Advance(c: Cycle, e: Env): Progress {
    Drain(Assign(c, e), e)
  }

  datatype TickResult = TickResult(state: State, evals: seq<Pair>, processed: nat, completed: bool)

  /** One committed tick: the stored rows before and after, and what was evaluated. */
  function TickOf(s: State, e: Env): TickResult {
    var c := Current(s, e.now);
    var p := Advance(c, e);
    var state := if p.next.None? then State(None, CutoffAt(c.createdTo)) else State(Some(Save(p.next.value)), s.cutoff);
    TickResult(state, p.evals, p.processed, p.next.None?)
  }
}
