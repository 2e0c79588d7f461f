/** The failure counters over whole runs of logins: what is stored for a key is the number of its
    failures since its last success, expiry or eviction (backend/app/api/auth.py). */
module LoginBackoffRuns {
  import opened LoginBackoff

  datatype Login = Failed(buckets: seq<Bucket>, now: real) | Succeeded(account: Key)

  function Step(entries: seq<Entry>, login: Login): seq<Entry> {
    match login
    case Failed(buckets, now) => Recorded(entries, buckets, now)
    case Succeeded(account) => Without(entries, account)
  }

  function Dictionary(run: seq<Login>): seq<Entry> {
    if run == [] then [] else Step(Dictionary(run[..|run| - 1]), run[|run| - 1])
  }

  /** Every attempt names a few distinct buckets. */
  ghost predicate Attempts(run: seq<Login>) {
    forall i :: 0 <= i < |run| && run[i].Failed? ==> DistinctKeys(run[i].buckets) && |run[i].buckets| <= MAX_ENTRIES
  }

  // ---- The history of one key --------------------------------------------------------------------

  /** This failure pushes the key's unexpired entry out over the size bound. */
  predicate Evicts(entries: seq<Entry>, login: Login, key: Key)
    requires login.Failed?
  {
    LiveEntry(entries, key, login.now).Some? && Find(Step(entries, login), key).None?
  }

  /** Five minutes after its last failure a count is forgotten. */
  function Counted(count: nat, last: real, now: real): nat {
    if last > now - TTL then count else 0
  }

  /** One login in the history of a key: a success, an expiry or an eviction starts over. */
  ghost function NextHistory(entries: seq<Entry>, login: Login, key: Key, history: (nat, real)): (nat, real) {
    match login
    case Succeeded(account) => (if account == key then 0 else history.0, history.1)
    case Failed(buckets, now) =>
      var count := Counted(history.0, history.1, now);
      if Names(buckets, key) then (count + 1, now)
      else if Evicts(entries, login, key) then (0, history.1)
      else (count, history.1)
  }

  /** The failures of a key since its last success, expiry or eviction, and the time of the last one. */
  ghost function History(run: seq<Login>, key: Key): (nat, real) {
    if run == [] then (0, 0.0)
    else
      var before := run[..|run| - 1];
      NextHistory(Dictionary(before), run[|run| - 1], key, History(before, key))
  }

  /** The dictionary says of the key what its history says. */
  ghost predicate Agrees(entries: seq<Entry>, key: Key, history: (nat, real)) {
    var found := Find(entries, key);
    && Failures(found) == history.0
    && (found.Some? ==> found.value.failures > 0 && found.value.lastSeen == history.1)
  }

  /** This failure leaves the key's expired entry in the dictionary, behind a live one. */
  ghost predicate LeavesStale(entries: seq<Entry>, login: Login, key: Key) {
    && login.Failed? && BehindLive(entries, key, login.now - TTL)
    && Find(Step(entries, login), key).Some?
  }

  /** The dictionary goes on agreeing with the history if and only if no expired entry of the key is
      left behind a live one. */
  lemma {:induction false} StepAgreesIff(entries: seq<Entry>, login: Login, key: Key, history: (nat, real))
    requires OneEach(entries) && Agrees(entries, key, history)
    requires login.Failed? ==> DistinctKeys(login.buckets) && |login.buckets| <= MAX_ENTRIES
    ensures Agrees(Step(entries, login), key, NextHistory(entries, login, key, history)) <==> !LeavesStale(entries, login, key)
  {
    match login {
      case Succeeded(account) =>
        FindWithout(entries, account, key);
      case Failed(buckets, now) =>
        if Names(buckets, key) {
          FailureAgreesIff(entries, buckets, now, key, history);
        } else {
          OtherFailureAgreesIff(entries, buckets, now, key, history);
        }
    }
  }

  lemma FailureAgreesIff(entries: seq<Entry>, buckets: seq<Bucket>, now: real, key: Key, history: (nat, real))
    requires OneEach(entries) && Agrees(entries, key, history)
    requires DistinctKeys(buckets) && |buckets| <= MAX_ENTRIES && Names(buckets, key)
    ensures var login := Failed(buckets, now);
            Agrees(Step(entries, login), key, NextHistory(entries, login, key, history)) <==> !LeavesStale(entries, login, key)
  {
    PurgedKeyIff(entries, now - TTL, key);
    FindLive(entries, now - TTL, key);
    var i :| 0 <= i < |buckets| && buckets[i].0 == key;
    RecordNamed(entries, buckets, now, i);
  }

  lemma OtherFailureAgreesIff(entries: seq<Entry>, buckets: seq<Bucket>, now: real, key: Key, history: (nat, real))
    requires OneEach(entries) && Agrees(entries, key, history)
    requires DistinctKeys(buckets) && !Names(buckets, key)
    ensures var login := Failed(buckets, now);
            Agrees(Step(entries, login), key, NextHistory(entries, login, key, history)) <==> !LeavesStale(entries, login, key)
  {
    PurgedKeyIff(entries, now - TTL, key);
    FindLive(entries, now - TTL, key);
    RecordOther(entries, buckets, now, key);
  }

  // ---- Runs --------------------------------------------------------------------------------------

  lemma {:induction false} RunShape(run: seq<Login>)
    requires Attempts(run)
    ensures OneEach(Dictionary(run)) && |Dictionary(run)| <= MAX_ENTRIES
  {
    if run != [] {
      var before, login := run[..|run| - 1], run[|run| - 1];
      RunShape(before);
      match login {
        case Succeeded(account) => WithoutOneEach(Dictionary(before), account);
        case Failed(buckets, now) => RecordShape(Dictionary(before), buckets, now);
      }
    }
  }

  lemma {:induction false} NextAgreesIff(run: seq<Login>, key: Key, n: nat)
    requires Attempts(run) && n < |run| && Agrees(Dictionary(run[..n]), key, History(run[..n], key))
    ensures Agrees(Dictionary(run[..n + 1]), key, History(run[..n + 1], key)) <==>
            !LeavesStale(Dictionary(run[..n]), run[n], key)
  {
    assert run[..n + 1][..n] == run[..n] && run[..n + 1][n] == run[n];
    RunShape(run[..n]);
    StepAgreesIff(Dictionary(run[..n]), run[n], key, History(run[..n], key));
  }

  lemma {:induction false} AgreesUpTo(run: seq<Login>, key: Key, n: nat)
    requires Attempts(run) && n <= |run|
    requires forall m :: 0 <= m < n ==> !LeavesStale(Dictionary(run[..m]), run[m], key)
    ensures Agrees(Dictionary(run[..n]), key, History(run[..n], key))
  {
    if n > 0 {
      AgreesUpTo(run, key, n - 1);
      NextAgreesIff(run, key, n - 1);
    } else {
      assert run[..0] == [];
    }
  }

  /** Over every run from an empty dictionary, whatever the order of the recorded times: a key's count is
      at every moment the number of its failures since its last success, expiry or eviction, if and only
      if no recording leaves an expired entry of the key behind a live one. */
  lemma {:induction false} CountsAreHistoryIff(run: seq<Login>, key: Key)
    requires Attempts(run)
    ensures OneEach(Dictionary(run)) && |Dictionary(run)| <= MAX_ENTRIES
    ensures (forall n :: 0 <= n <= |run| ==> Agrees(Dictionary(run[..n]), key, History(run[..n], key))) <==>
            forall n :: 0 <= n < |run| ==> !LeavesStale(Dictionary(run[..n]), run[n], key)
  {
    RunShape(run);
    if forall n :: 0 <= n < |run| ==> !LeavesStale(Dictionary(run[..n]), run[n], key) {
      forall n | 0 <= n <= |run| ensures Agrees(Dictionary(run[..n]), key, History(run[..n], key)) {
        AgreesUpTo(run, key, n);
      }
    }
    if forall n :: 0 <= n <= |run| ==> Agrees(Dictionary(run[..n]), key, History(run[..n], key)) {
      forall n | 0 <= n < |run| ensures !LeavesStale(Dictionary(run[..n]), run[n], key) {
        NextAgreesIff(run, key, n);
      }
    }
  }

  // ---- Times in order ----------------------------------------------------------------------------

  /** The time of the last recorded failure. */
  function Clock(run: seq<Login>): real {
    if run == [] then 0.0
    else if run[|run| - 1].Failed? then run[|run| - 1].now
    else Clock(run[..|run| - 1])
  }

  /** Recorded times never decrease. */
  ghost predicate Timely(run: seq<Login>) {
    run != [] ==>
      var before, login := run[..|run| - 1], run[|run| - 1];
      Timely(before) && (login.Failed? ==> Clock(before) <= login.now)
  }

  lemma {:induction false} RunInOrder(run: seq<Login>)
    requires Attempts(run) && Timely(run)
    ensures InOrder(Dictionary(run), Clock(run))
  {
    if run != [] {
      var before, login := run[..|run| - 1], run[|run| - 1];
      RunShape(before);
      RunInOrder(before);
      match login {
        case Succeeded(account) => WithoutInOrder(Dictionary(before), account, Clock(before));
        case Failed(buckets, now) => RecordShape(Dictionary(before), buckets, now);
      }
    }
  }

  lemma {:induction false} TimelyPrefix(run: seq<Login>, n: nat)
    requires Timely(run) && n <= |run|
    ensures Timely(run[..n])
  {
    if n < |run| {
      TimelyPrefix(run[..|run| - 1], n);
      assert run[..|run| - 1][..n] == run[..n];
    } else {
      assert run[..n] == run;
    }
  }

  /** While recorded times do not decrease, the dictionary stays in order and within its bound, and every
      key's count is its history. */
  lemma {:induction false} CountsAreHistory(run: seq<Login>, key: Key)
    requires Attempts(run) && Timely(run)
    ensures |Dictionary(run)| <= MAX_ENTRIES && OneEach(Dictionary(run)) && InOrder(Dictionary(run), Clock(run))
    ensures Agrees(Dictionary(run), key, History(run, key))
  {
    RunShape(run);
    RunInOrder(run);
    forall m | 0 <= m < |run| ensures !LeavesStale(Dictionary(run[..m]), run[m], key) {
      TimelyPrefix(run, m);
      RunInOrder(run[..m]);
    }
    AgreesUpTo(run, key, |run|);
    assert run[..|run|] == run;
  }

  lemma {:induction false} Snoc(run: seq<Login>, login: Login, key: Key)
    ensures Dictionary(run + [login]) == Step(Dictionary(run), login)
    ensures History(run + [login], key) == NextHistory(Dictionary(run), login, key, History(run, key))
  {
    var all := run + [login];
    assert all[..|all| - 1] == run && all[|all| - 1] == login;
  }

  /** Recording an attempt of one bucket. */
  lemma {:induction false} OneBucket(entries: seq<Entry>, b: Bucket, now: real, left: seq<Entry>, others: seq<Entry>)
    requires left == PurgeFront(entries, now - TTL) && others == Without(left, b.0) && |others| < MAX_ENTRIES
    ensures Recorded(entries, [b], now) == others + [Bumped(left, b, now)]
  {
    assert [b][1..] == [];
    assert TouchAll(left, [b], now) == TouchAll(Touch(left, b, now), [], now) == Touch(left, b, now);
  }

  const LATE: Login := Failed([(2, 5)], 1.0)
  const EARLY: Login := Failed([(1, 5)], 0.0)
  const AGAIN: Login := Failed([(1, 5)], 300.5)

  lemma OutOfOrderDictionary()
    ensures Dictionary([LATE]) == [Entry(2, 1, 0.0, 1.0)]
    ensures Dictionary([LATE, EARLY]) == [Entry(2, 1, 0.0, 1.0), Entry(1, 1, 0.0, 0.0)]
    ensures Dictionary([LATE, EARLY, AGAIN]) == [Entry(2, 1, 0.0, 1.0), Entry(1, 2, 0.0, 300.5)]
  {
    var e, f := Entry(2, 1, 0.0, 1.0), Entry(1, 1, 0.0, 0.0);
    Snoc([], LATE, 1);
    Snoc([LATE], EARLY, 1);
    Snoc([LATE, EARLY], AGAIN, 1);
    assert [] + [LATE] == [LATE] && [LATE] + [EARLY] == [LATE, EARLY] && [LATE, EARLY] + [AGAIN] == [LATE, EARLY, AGAIN];
    OneBucket([], (2, 5), 1.0, [], []);
    OneBucket([e], (1, 5), 0.0, [e], [e]);
    assert [e, f][1..] == [f];
    OneBucket([e, f], (1, 5), 300.5, [e, f], [e]);
  }

  /** Two threads that read the clock at 0 and at 1 and then take the lock in the other order leave the
      later time in front. At 300.5 the entry of time 0 has expired but stays, and a new failure of its
      key counts 2. */
  lemma OutOfOrder()
    ensures Attempts([LATE, EARLY, AGAIN])
    ensures PurgeFront(Dictionary([LATE, EARLY]), 0.5) != Live(Dictionary([LATE, EARLY]), 0.5)
    ensures Failures(Find(Dictionary([LATE, EARLY, AGAIN]), 1)) == 2 && History([LATE, EARLY, AGAIN], 1).0 == 1
  {
    var e, f, g := Entry(2, 1, 0.0, 1.0), Entry(1, 1, 0.0, 0.0), Entry(1, 2, 0.0, 300.5);
    OutOfOrderDictionary();
    assert [e, f][1..] == [f] && [e, g][1..] == [g];
    Snoc([LATE, EARLY], AGAIN, 1);
    assert [LATE, EARLY] + [AGAIN] == [LATE, EARLY, AGAIN];
    assert Names([(1, 5)], 1) by {
      assert [(1, 5)][0].0 == 1;
    }
    EarlyHistory();
  }

  lemma EarlyHistory()
    ensures History([LATE, EARLY], 1) == (1, 0.0)
  {
    Snoc([], LATE, 1);
    Snoc([LATE], EARLY, 1);
    assert [] + [LATE] == [LATE] && [LATE] + [EARLY] == [LATE, EARLY];
    assert Names([(1, 5)], 1) by {
      assert [(1, 5)][0].0 == 1;
    }
    assert History([LATE], 1).0 == 0;
  }
}
