/** Insight export over MQTT (plugins/mqtt/plugin.py): an activation point, an id cursor, and a
    commit only after a whole broker batch. */
module MqttExport {
  import opened Keyset

  const INSIGHT_BATCH_SIZE: nat := 100

  /** The insights table (ids in order; rows are never deleted), the stored settings, and what the
      broker has received since the last activation. */
  datatype Export = Export(insights: seq<nat>, wasActive: bool, cursor: nat, since: nat, period: seq<nat>)

  /** How a tick ends: everything succeeds and it commits; the broker takes the batch, but a later asset
      export raises; the broker takes some messages of the batch and fails; or the whole batch is sent
      and the process dies before the commit. */
  datatype Outcome = Succeeds | AssetExportFails | BrokerFails(delivered: nat) | CrashesBeforeCommit

  datatype Step =
    | Insert(id: nat)
    | SettingsChanged(active: bool)
    | Tick(active: bool, prefix: string, outcome: Outcome)

  // ---- The topic prefix --------------------------------------------------------------------------

  const MAX_PREFIX: nat := 200

  predicate TopicChar(c: char) {
    'A' <= c <= 'Z' || 'a' <= c <= 'z' || '0' <= c <= '9' || c == '_' || c == '.' || c == '-'
  }

  function StripLeft(s: string): string {
    if s != "" && s[0] == '/' then StripLeft(s[1..]) else s
  }

  function StripRight(s: string): string {
    if s != "" && s[|s| - 1] == '/' then StripRight(s[..|s| - 1]) else s
  }

  /** The pattern of the code, one character after the other: levels of topic characters, with one
      slash between two levels. */
  predicate Levels(s: string) {
    s != "" && TopicChar(s[0]) && MoreLevels(s[1..])
  }

  predicate MoreLevels(s: string) {
    s == "" || (TopicChar(s[0]) && MoreLevels(s[1..])) || (s[0] == '/' && Levels(s[1..]))
  }

  predicate ValidPrefix(prefix: string) {
    var stripped := StripRight(StripLeft(prefix));
    |stripped| <= MAX_PREFIX && Levels(stripped)
  }

  /** Only topic characters and slashes, and no two slashes in a row. */
  ghost predicate Plain(s: string) {
    && (forall i :: 0 <= i < |s| ==> TopicChar(s[i]) || s[i] == '/')
    && (forall i, j {:trigger s[i], s[j]} :: 0 <= i && j == i + 1 && j < |s| ==> s[i] != '/' || s[j] != '/')
  }

  lemma PlainCons(s: string)
    requires s != ""
    ensures Plain(s) <==>
            && (TopicChar(s[0]) || s[0] == '/') && Plain(s[1..])
            && (|s| > 1 ==> s[0] != '/' || s[1] != '/')
  {
    assert forall i :: 0 < i < |s| ==> s[i] == s[1..][i - 1];
    if Plain(s[1..]) && (TopicChar(s[0]) || s[0] == '/') && (|s| > 1 ==> s[0] != '/' || s[1] != '/') {
      forall i, j | 0 <= i && j == i + 1 && j < |s| ensures s[i] != '/' || s[j] != '/' {
        assert s[j] == s[1..][j - 1] && (i > 0 ==> s[i] == s[1..][i - 1]);
      }
    }
  }

  lemma {:induction false} LevelsIff(s: string)
    ensures Levels(s) <==> s != "" && Plain(s) && s[0] != '/' && s[|s| - 1] != '/'
    ensures MoreLevels(s) <==> Plain(s) && (s != "" ==> s[|s| - 1] != '/')
    decreases |s|
  {
    if s != "" {
      LevelsIff(s[1..]);
      PlainCons(s);
    }
  }

  /** Behind its outer slashes a valid prefix has 1 to 200 characters, all topic characters or single
      slashes. */
  lemma {:induction false} ValidPrefixIff(prefix: string)
    ensures var stripped := StripRight(StripLeft(prefix));
            ValidPrefix(prefix) <==> 0 < |stripped| <= MAX_PREFIX && Plain(stripped)
  {
    var left := StripLeft(prefix);
    LevelsIff(StripRight(left));
    StripLeftEnds(prefix);
    StripRightEnds(left);
  }

  lemma {:induction false} StripLeftEnds(s: string)
    ensures StripLeft(s) != "" ==> StripLeft(s)[0] != '/'
  {
    if s != "" && s[0] == '/' {
      StripLeftEnds(s[1..]);
    }
  }

  lemma {:induction false} StripRightEnds(s: string)
    ensures StripRight(s) <= s
    ensures StripRight(s) != "" ==> StripRight(s)[|StripRight(s)| - 1] != '/'
  {
    if s != "" && s[|s| - 1] == '/' {
      StripRightEnds(s[..|s| - 1]);
    }
  }

  /** So a text between outer slashes is a valid prefix exactly when it has 1 to 200 characters, all letters,
      digits, underscores, dots, hyphens or slashes, and no two slashes in a row. */
  lemma {:induction false} PrefixIff(left: string, core: string, right: string)
    requires (forall k :: 0 <= k < |left| ==> left[k] == '/') && (forall k :: 0 <= k < |right| ==> right[k] == '/')
    requires core == "" ==> right == ""
    requires core != "" ==> core[0] != '/' && core[|core| - 1] != '/'
    ensures ValidPrefix(left + core + right) <==>
              && 0 < |core| <= 200
              && (forall k :: 0 <= k < |core| ==>
                    || 'A' <= core[k] <= 'Z' || 'a' <= core[k] <= 'z' || '0' <= core[k] <= '9'
                    || core[k] == '_' || core[k] == '.' || core[k] == '-' || core[k] == '/')
              && (forall k, m {:trigger core[k], core[m]} :: 0 <= k && m == k + 1 && m < |core| ==> core[k] != '/' || core[m] != '/')
  {
    assert left + core + right == left + (core + right);
    StripsLeft(left, core + right);
    StripsRight(core, right);
    ValidPrefixIff(left + core + right);
  }

  lemma {:induction false} StripsLeft(left: string, rest: string)
    requires (forall k :: 0 <= k < |left| ==> left[k] == '/') && (rest == "" || rest[0] != '/')
    ensures StripLeft(left + rest) == rest
  {
    if left == "" {
      assert left + rest == rest;
    } else {
      assert (left + rest)[1..] == left[1..] + rest;
      StripsLeft(left[1..], rest);
    }
  }

  lemma {:induction false} StripsRight(rest: string, right: string)
    requires (forall k :: 0 <= k < |right| ==> right[k] == '/') && (rest == "" || rest[|rest| - 1] != '/')
    ensures StripRight(rest + right) == rest
  {
    if right == "" {
      assert rest + right == rest;
    } else {
      var n := |right| - 1;
      assert (rest + right)[..|rest| + n] == rest + right[..n] && (rest + right)[|rest| + n] == right[n];
      StripsRight(rest, right[..n]);
    }
  }

  // ---- The steps ---------------------------------------------------------------------------------

  function Highest(insights: seq<nat>): nat {
    if insights == [] then 0 else insights[|insights| - 1]
  }

  /** `_sync_insight_activation`: turning the export on puts the cursor at the newest insight. */
  function Sync(x: Export, active: bool): Export {
    if active && !x.wasActive then
      x.(wasActive := true, cursor := Highest(x.insights), since := Highest(x.insights), period := [])
    else x.(wasActive := active)
  }

  function Batch(x: Export): seq<nat> {
    Take(Above(x.insights, x.cursor), INSIGHT_BATCH_SIZE)
  }

  /** A periodic tick of an active export. Pending insights under an invalid topic prefix raise before
      anything is sent; and with nothing pending the activation itself is stored only by the commit at
      the end of the tick. */
  function Publish(x: Export, prefix: string, outcome: Outcome): Export {
    var y := Sync(x, true);
    var batch := Batch(y);
    if batch == [] then (if outcome.Succeeds? then y else x)
    else if !ValidPrefix(prefix) then x
    else
      match outcome
      case Succeeds => y.(cursor := batch[|batch| - 1], period := y.period + batch)
      case AssetExportFails => y.(cursor := batch[|batch| - 1], period := y.period + batch)
      case BrokerFails(delivered) => x.(period := x.period + Take(batch, delivered))
      case CrashesBeforeCommit => x.(period := x.period + batch)
  }

  function Apply(x: Export, step: Step): Export {
    match step
    case Insert(id) => if id > Highest(x.insights) then x.(insights := x.insights + [id]) else x
    case SettingsChanged(active) => Sync(x, active)
    case Tick(active, prefix, outcome) => if active then Publish(x, prefix, outcome) else x
  }

  function Run(x: Export, steps: seq<Step>): Export
    decreases |steps|
  {
    if steps == [] then x else Run(Apply(x, steps[0]), steps[1..])
  }

  // ---- In place ----------------------------------------------------------------------------------

  /** The stored settings, and what the session of the running call sees of them. */
  class Plugin {
    var insights: seq<nat>
    var wasActive: bool
    var cursor: nat
    var sessionActive: bool
    var sessionCursor: nat
    ghost var since: nat
    ghost var period: seq<nat>

    ghost function Value(): Export
      reads this
    {
      Export(insights, wasActive, cursor, since, period)
    }

    /** No call is running. */
    ghost predicate Idle()
      reads this
    {
      sessionActive == wasActive && sessionCursor == cursor
    }

    method Commit()
      modifies this
      ensures Idle() && insights == old(insights)
      ensures wasActive == old(sessionActive) && cursor == old(sessionCursor)
      ensures since == if old(sessionActive && !wasActive) then Highest(insights) else old(since)
      ensures period == if old(sessionActive && !wasActive) then [] else old(period)
    {
      if sessionActive && !wasActive {
        since, period := Highest(insights), [];
      }
      wasActive, cursor := sessionActive, sessionCursor;
    }

    method Rollback()
      modifies this`sessionActive, this`sessionCursor
      ensures Idle()
    {
      sessionActive, sessionCursor := wasActive, cursor;
    }

    method SyncInsightActivation(active: bool)
      requires Idle()
      modifies this`sessionActive, this`sessionCursor
      ensures sessionActive == active
      ensures sessionCursor == if active && !old(sessionActive) then Highest(insights) else old(sessionCursor)
    {
      if active && !sessionActive {
        sessionCursor := Highest(insights);
      }
      if active != sessionActive {
        sessionActive := active;
      }
    }

    method OnSettingsChanged(active: bool)
      requires Idle()
      modifies this
      ensures Idle() && Value() == Apply(old(Value()), SettingsChanged(active))
    {
      SyncInsightActivation(active);
      Commit();
    }

    /** Raises instead of returning when the prefix is invalid, the broker fails or the process dies. */
    method PublishInsights(prefix: string, outcome: Outcome) returns (raised: bool)
      requires Idle()
      modifies this
      ensures raised ==> Value() == Publish(old(Value()), prefix, outcome)
      ensures !raised && Batch(Sync(old(Value()), true)) == [] ==>
                && Value() == old(Value())
                && sessionActive && sessionCursor == Sync(Value(), true).cursor
      ensures !raised && Batch(Sync(old(Value()), true)) != [] ==>
                Idle() && Value() == Publish(old(Value()), prefix, outcome)
      ensures raised <==> Batch(Sync(old(Value()), true)) != [] && !(ValidPrefix(prefix) && (outcome.Succeeds? || outcome.AssetExportFails?))
    {
      SyncInsightActivation(true);
      var rows := Take(Above(insights, sessionCursor), INSIGHT_BATCH_SIZE);
      if rows == [] {
        return false;
      }
      if !ValidPrefix(prefix) {
        return true;
      }
      var messages: seq<nat> := [];
      for i := 0 to |rows|
        invariant messages == rows[..i]
        invariant Value() == old(Value())
        invariant sessionActive && sessionCursor == Sync(Value(), true).cursor
      {
        messages := messages + [rows[i]];
      }
      if outcome.BrokerFails? {
        period := period + Take(messages, outcome.delivered);
        return true;
      }
      if outcome.CrashesBeforeCommit? {
        period := period + messages;
        return true;
      }
      sessionCursor := rows[|rows| - 1];
      Commit();
      period := period + messages;
      return false;
    }

    /** One periodic tick with the session around it: what is not committed is rolled back. */
    method RunTick(active: bool, prefix: string, outcome: Outcome)
      requires Idle()
      modifies this
      ensures Idle() && Value() == Apply(old(Value()), Tick(active, prefix, outcome))
    {
      var raised := false;
      if active {
        raised := PublishInsights(prefix, outcome);
      }
      if raised || !outcome.Succeeds? {
        Rollback();
      } else {
        Commit();
      }
    }
  }

  // ---- What every run keeps ----------------------------------------------------------------------

  ghost predicate Inv(x: Export) {
    && Ascending(x.insights)
    && (x.cursor == 0 || x.cursor in x.insights)
    && x.since <= x.cursor
    && (forall id :: id in x.insights && x.since < id <= x.cursor ==> id in x.period)
    && (forall id :: id in x.period ==> id in x.insights && id > x.since)
  }

  lemma HighestBounds(insights: seq<nat>)
    requires Ascending(insights)
    ensures forall id :: id in insights ==> id <= Highest(insights)
    ensures Highest(insights) == 0 || Highest(insights) in insights
  {
    if insights != [] {
      AscendingLast(insights);
    }
  }

  lemma SyncKeeps(x: Export, active: bool)
    requires Inv(x)
    ensures Inv(Sync(x, active)) && Sync(x, active).cursor >= x.cursor
  {
    HighestBounds(x.insights);
  }

  /** A batch is what comes right after the cursor: nothing is jumped over. */
  lemma BatchFacts(x: Export)
    requires Ascending(x.insights)
    ensures Ascending(Batch(x))
    ensures forall id :: id in Batch(x) ==> id in x.insights && id > x.cursor
    ensures Batch(x) != [] ==>
              forall id :: id in x.insights && x.cursor < id <= Batch(x)[|Batch(x)| - 1] ==> id in Batch(x)
  {
    AboveAscending(x.insights, x.cursor);
    AboveMembers(x.insights, x.cursor);
    TakePage(Above(x.insights, x.cursor), INSIGHT_BATCH_SIZE);
  }

  lemma PublishKeeps(x: Export, prefix: string, outcome: Outcome)
    requires Inv(x) && Inv(Sync(x, true)) && Sync(x, true).cursor >= x.cursor
    ensures Inv(Publish(x, prefix, outcome)) && Publish(x, prefix, outcome).cursor >= x.cursor
  {
    var y := Sync(x, true);
    var batch := Batch(y);
    BatchFacts(y);
    if batch != [] {
      ActivationIsIdle(x);
      assert batch[|batch| - 1] in batch;
      if outcome.BrokerFails? {
        forall id | id in Take(batch, outcome.delivered) ensures id in batch {
        }
      }
    }
  }

  lemma StepKeeps(x: Export, step: Step)
    requires Inv(x)
    ensures Inv(Apply(x, step)) && Apply(x, step).cursor >= x.cursor
  {
    match step {
      case Insert(id) =>
        HighestBounds(x.insights);
      case SettingsChanged(active) =>
        SyncKeeps(x, active);
      case Tick(active, prefix, outcome) =>
        if active {
          SyncKeeps(x, true);
          PublishKeeps(x, prefix, outcome);
        }
    }
  }

  /** The tick that activates the export has nothing to publish. */
  lemma {:induction false} ActivationIsIdle(x: Export)
    requires Inv(x)
    ensures !x.wasActive ==> Batch(Sync(x, true)) == []
  {
    if !x.wasActive {
      HighestBounds(x.insights);
      forall i | 0 <= i < |x.insights| ensures x.insights[i] <= Highest(x.insights) {
        assert x.insights[i] in x.insights;
      }
      AboveNone(x.insights, Highest(x.insights));
    }
  }

  /** At-least-once without replay, over any run of inserts, toggles, successes, invalid prefixes, broker
      failures, failing asset exports and crashes: every insight between the activation point and the
      cursor has been published, nothing that existed at activation is, and the cursor never moves back. */
  lemma {:induction false} RunKeeps(x: Export, steps: seq<Step>)
    requires Inv(x)
    ensures Inv(Run(x, steps)) && Run(x, steps).cursor >= x.cursor
    decreases |steps|
  {
    if steps != [] {
      StepKeeps(x, steps[0]);
      RunKeeps(Apply(x, steps[0]), steps[1..]);
    }
  }

  /** A tick that activates the export keeps the activation if and only if the whole tick succeeds: until
      its end nothing is committed. */
  lemma {:induction false} ActivationStoredIff(x: Export, prefix: string, outcome: Outcome)
    requires Inv(x) && !x.wasActive
    ensures Publish(x, prefix, outcome).wasActive <==> outcome.Succeeds?
    ensures Publish(x, prefix, outcome) == if outcome.Succeeds? then Sync(x, true) else x
  {
    ActivationIsIdle(x);
  }

  // ---- Off and on again ----------------------------------------------------------------------------

  /** Both directions of the toggle are stored; only turning it on moves the cursor, to the newest insight. */
  lemma {:induction false} ToggleIsStored(x: Export, active: bool)
    requires Inv(x)
    ensures var y := Apply(x, SettingsChanged(active));
            && y.wasActive == active && y.insights == x.insights
            && (x.wasActive || !active ==> y.cursor == x.cursor)
            && (!x.wasActive && active ==> forall id :: id in x.insights ==> id <= y.cursor)
  {
    HighestBounds(x.insights);
  }

  /** What the broker receives during a step. */
  function Sent(x: Export, step: Step): seq<nat> {
    if !(step.Tick? && step.active && ValidPrefix(step.prefix)) then []
    else if step.outcome.BrokerFails? then Take(Batch(Sync(x, true)), step.outcome.delivered)
    else Batch(Sync(x, true))
  }

  function SentBy(x: Export, steps: seq<Step>): seq<nat>
    decreases |steps|
  {
    if steps == [] then [] else Sent(x, steps[0]) + SentBy(Apply(x, steps[0]), steps[1..])
  }

  /** The log of a period grows by what a step sends; an activating tick sends nothing. */
  lemma {:induction false} SentIsLogged(x: Export, step: Step)
    requires Inv(x)
    ensures x.wasActive && step.Tick? ==> Apply(x, step).period == x.period + Sent(x, step)
    ensures !x.wasActive || !step.Tick? ==> Sent(x, step) == []
  {
    ActivationIsIdle(x);
    assert x.period + [] == x.period;
  }

  lemma StepIsBehindCursor(x: Export, step: Step)
    requires Inv(x)
    ensures forall id :: id in Sent(x, step) ==> id > x.cursor
  {
    SyncKeeps(x, true);
    BatchFacts(Sync(x, true));
    forall id | id in Sent(x, step) ensures id in Batch(Sync(x, true)) {
    }
  }

  lemma {:induction false} SentIsBehindCursor(x: Export, steps: seq<Step>)
    requires Inv(x)
    ensures forall id :: id in SentBy(x, steps) ==> id > x.cursor
    decreases |steps|
  {
    if steps != [] {
      StepIsBehindCursor(x, steps[0]);
      StepKeeps(x, steps[0]);
      SentIsBehindCursor(Apply(x, steps[0]), steps[1..]);
    }
  }

  lemma {:induction false} RunConcat(x: Export, a: seq<Step>, b: seq<Step>)
    ensures Run(x, a + b) == Run(Run(x, a), b)
    decreases |a|
  {
    if a == [] {
      assert a + b == b;
    } else {
      assert (a + b)[1..] == a[1..] + b;
      RunConcat(Apply(x, a[0]), a[1..], b);
    }
  }

  ghost predicate Inserted(x: Export, steps: seq<Step>, id: nat) {
    id in x.insights || exists i :: 0 <= i < |steps| && steps[i] == Insert(id)
  }

  lemma {:induction false} InsertedIsBelow(x: Export, steps: seq<Step>, id: nat)
    requires Inv(x) && Inserted(x, steps, id)
    ensures id <= Highest(Run(x, steps).insights)
    decreases |steps|
  {
    HighestBounds(x.insights);
    if steps != [] {
      var y := Apply(x, steps[0]);
      StepKeeps(x, steps[0]);
      if steps[0] == Insert(id) || id in x.insights {
        StaysBelow(y, steps[1..], id);
      } else {
        var i :| 0 <= i < |steps| && steps[i] == Insert(id);
        assert steps[1..][i - 1] == Insert(id);
        InsertedIsBelow(y, steps[1..], id);
      }
    }
  }

  lemma {:induction false} StaysBelow(x: Export, steps: seq<Step>, id: nat)
    requires id <= Highest(x.insights)
    ensures id <= Highest(Run(x, steps).insights)
    decreases |steps|
  {
    if steps != [] {
      StaysBelow(Apply(x, steps[0]), steps[1..], id);
    }
  }

  /** Nothing in these steps turns the export on. */
  predicate KeepOff(steps: seq<Step>) {
    forall i :: 0 <= i < |steps| ==> steps[i].Insert? || !steps[i].active
  }

  lemma {:induction false} StaysOff(x: Export, steps: seq<Step>)
    requires !x.wasActive && KeepOff(steps)
    ensures !Run(x, steps).wasActive
    decreases |steps|
  {
    if steps != [] {
      assert KeepOff(steps[1..]);
      StaysOff(Apply(x, steps[0]), steps[1..]);
    }
  }

  /** Turning the export off and on again forgets what came before: over any run, no insight that was there
      or was inserted before it is turned on again is ever sent afterwards, whatever follows. */
  lemma {:induction false} OffAndOnForgets(x: Export, before: seq<Step>, off: seq<Step>, after: seq<Step>, id: nat)
    requires Inv(x) && KeepOff(off)
    requires Inserted(x, before + [SettingsChanged(false)] + off, id)
    ensures id !in SentBy(Run(x, before + [SettingsChanged(false)] + off + [SettingsChanged(true)]), after)
  {
    var first := before + [SettingsChanged(false)];
    RunConcat(x, before, [SettingsChanged(false)]);
    RunKeeps(x, before);
    assert !Run(x, first).wasActive;
    RunConcat(x, first, off);
    StaysOff(Run(x, first), off);
    var y := Run(x, first + off);
    RunKeeps(x, first + off);
    InsertedIsBelow(x, first + off, id);
    RunConcat(x, first + off, [SettingsChanged(true)]);
    StepKeeps(y, SettingsChanged(true));
    SentIsBehindCursor(Apply(y, SettingsChanged(true)), after);
    assert Run(y, [SettingsChanged(true)]) == Apply(y, SettingsChanged(true));
  }

  // ---- Draining ----------------------------------------------------------------------------------

  function Successes(n: nat, prefix: string): seq<Step> {
    seq(n, _ => Tick(true, prefix, Succeeds))
  }

  /** One successful tick moves exactly one batch from the pending insights to the published ones. */
  lemma TickPublishes(x: Export, prefix: string)
    requires Inv(x) && x.wasActive && ValidPrefix(prefix)
    ensures var y := Publish(x, prefix, Succeeds);
            && y.period == x.period + Batch(x) && y.insights == x.insights && y.wasActive
            && Above(y.insights, y.cursor) == Above(x.insights, x.cursor)[|Batch(x)|..]
  {
    if Batch(x) != [] {
      AdvanceCursor(x.insights, x.cursor, |Batch(x)|);
    }
  }

  /** n successful ticks publish exactly the next 100 * n pending insights, each once and in order. */
  lemma {:induction false} TicksDrain(x: Export, n: nat, prefix: string)
    requires Inv(x) && x.wasActive && ValidPrefix(prefix)
    ensures var pending, y := Above(x.insights, x.cursor), Run(x, Successes(n, prefix));
            && y.period == x.period + Take(pending, 100 * n)
            && |Above(y.insights, y.cursor)| == |pending| - |Take(pending, 100 * n)|
    decreases n
  {
    var pending := Above(x.insights, x.cursor);
    if n > 0 {
      assert Successes(n, prefix)[0] == Tick(true, prefix, Succeeds) && Successes(n, prefix)[1..] == Successes(n - 1, prefix);
      var y := Publish(x, prefix, Succeeds);
      StepKeeps(x, Tick(true, prefix, Succeeds));
      TickPublishes(x, prefix);
      TicksDrain(y, n - 1, prefix);
      NextPages(x.period, pending, n);
    } else {
      assert x.period + [] == x.period;
    }
  }

  lemma NextPages(period: seq<nat>, pending: seq<nat>, n: nat)
    requires n > 0
    ensures var batch := Take(pending, INSIGHT_BATCH_SIZE);
            var rest := Take(pending[|batch|..], INSIGHT_BATCH_SIZE * (n - 1));
            && period + batch + rest == period + Take(pending, INSIGHT_BATCH_SIZE * n)
            && |pending[|batch|..]| - |rest| == |pending| - |Take(pending, INSIGHT_BATCH_SIZE * n)|
  {
    TakeTwice(pending, INSIGHT_BATCH_SIZE, INSIGHT_BATCH_SIZE * (n - 1));
  }

  /** N pending insights are drained by ceil(N/100) successful ticks and by no fewer. */
  lemma {:induction false} DrainsInCeil(x: Export, n: nat, prefix: string)
    requires Inv(x) && x.wasActive && ValidPrefix(prefix)
    ensures var y := Run(x, Successes(n, prefix));
            Above(y.insights, y.cursor) == [] <==>
            n >= (|Above(x.insights, x.cursor)| + 99) / 100
  {
    TicksDrain(x, n, prefix);
  }

  // ---- When pending insights move ------------------------------------------------------------------

  ghost predicate Pending(x: Export) {
    Above(x.insights, x.cursor) != []
  }

  /** The step publishes a batch: a tick under a valid prefix whose batch the broker takes. */
  predicate Moves(step: Step) {
    step.Tick? && step.active && ValidPrefix(step.prefix) && (step.outcome.Succeeds? || step.outcome.AssetExportFails?)
  }

  /** Pending insights move with a tick if and only if the configured prefix is valid and the broker takes
      the batch; under an invalid prefix nothing is even sent. */
  lemma {:induction false} PendingMovesIff(x: Export, step: Step)
    requires Inv(x) && x.wasActive && Pending(x)
    requires step.Insert? || step.active
    ensures Apply(x, step).wasActive && Pending(x)
    ensures Apply(x, step).cursor > x.cursor <==> Moves(step)
    ensures Apply(x, step).cursor == x.cursor ==> Pending(Apply(x, step))
    ensures step.Tick? && !ValidPrefix(step.prefix) ==> Apply(x, step) == x
  {
    match step {
      case Insert(id) => AboveAppend(x.insights, id, x.cursor);
      case SettingsChanged(_) =>
      case Tick(_, prefix, outcome) =>
        BatchFacts(x);
        assert Batch(x)[|Batch(x)| - 1] in Batch(x);
    }
  }

  /** While the export stays on, a run leaves pending insights where they are if and only if none of its
      ticks runs under a valid prefix with a broker that takes the batch. */
  lemma {:induction false} StuckIff(x: Export, steps: seq<Step>)
    requires Inv(x) && x.wasActive && Pending(x)
    requires forall i :: 0 <= i < |steps| ==> steps[i].Insert? || steps[i].active
    ensures Run(x, steps).cursor == x.cursor <==> forall i :: 0 <= i < |steps| ==> !Moves(steps[i])
    decreases |steps|
  {
    if steps != [] {
      var y := Apply(x, steps[0]);
      StepKeeps(x, steps[0]);
      PendingMovesIff(x, steps[0]);
      if Moves(steps[0]) {
        RunKeeps(y, steps[1..]);
      } else {
        StuckIff(y, steps[1..]);
        assert forall i :: 0 < i < |steps| ==> steps[i] == steps[1..][i - 1];
      }
    }
  }

  lemma {:induction false} AboveAppend(xs: seq<nat>, id: nat, cut: nat)
    ensures Above(xs, cut) <= Above(xs + [id], cut)
  {
    if xs != [] {
      AboveAppend(xs[1..], id, cut);
      assert (xs + [id])[1..] == xs[1..] + [id];
    }
  }
}
