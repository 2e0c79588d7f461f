/** Admission of password checks (backend/app/api/auth.py): a bounded semaphore and a set of
    accounts in flight, under any interleaving of any number of threads. */
module LoginAdmission {
  import opened Wrappers
  import opened FiniteSets

  /** SCRYPT_MAX_CONCURRENCY. */
  const SLOTS: nat := 5

  type Thread = nat
  /** The account's backoff key, a digest. */
  type Account = nat

  /** Where a thread is between two atomic steps of `_begin_password_check`, the password check
      and `_end_password_check`. */
  datatype Phase =
    | Idle
    | SlotHeld(account: Account)
    | Rejecting(account: Account)
    | Checking(account: Account)
    | Releasing(account: Account)

  datatype State = State(free: nat, active: set<Account>, threads: map<Thread, Phase>) {
    function PhaseOf(t: Thread): Phase {
      if t in threads then threads[t] else Idle
    }
  }

  datatype Step =
    | Acquire(thread: Thread, account: Account)  // semaphore, without blocking
    | Enter(thread: Thread)                      // under the lock: join the active set, or not
    | Reject(thread: Thread)                     // give the slot back, still under the lock
    | Discard(thread: Thread)                    // under the lock: leave the active set
    | Release(thread: Thread)                    // give the slot back

  const START: State := State(SLOTS, {}, map[])

  /** A bounded semaphore raises when it is released beyond its bound: None. */
  function GiveBack(s: State, t: Thread): Option<State> {
    if s.free >= SLOTS then None else Some(s.(free := s.free + 1, threads := s.threads[t := Idle]))
  }

  /** One atomic step; a step its thread is not at changes nothing. */
  function Next(s: State, step: Step): Option<State> {
    var t := step.thread;
    match step
    case Acquire(_, account) =>
      if s.PhaseOf(t) != Idle || s.free == 0 then Some(s)
      else Some(s.(free := s.free - 1, threads := s.threads[t := SlotHeld(account)]))
    case Enter(_) =>
      if !s.PhaseOf(t).SlotHeld? then Some(s)
      else
        var account := s.PhaseOf(t).account;
        if account in s.active then Some(s.(threads := s.threads[t := Rejecting(account)]))
        else Some(s.(active := s.active + {account}, threads := s.threads[t := Checking(account)]))
    case Reject(_) => if s.PhaseOf(t).Rejecting? then GiveBack(s, t) else Some(s)
    case Discard(_) =>
      if !s.PhaseOf(t).Checking? then Some(s)
      else Some(s.(active := s.active - {s.PhaseOf(t).account}, threads := s.threads[t := Releasing(s.PhaseOf(t).account)]))
    case Release(_) => if s.PhaseOf(t).Releasing? then GiveBack(s, t) else Some(s)
  }

  function Run(s: State, steps: seq<Step>): Option<State>
    decreases |steps|
  {
    if steps == [] then Some(s)
    else
      var next := Next(s, steps[0]);
      if next.None? then None else Run(next.value, steps[1..])
  }

  // ---- The invariant -----------------------------------------------------------------------------

  /** Threads between taking a slot and giving it back. */
  function Holders(s: State): set<Thread> {
    set t | t in s.threads && s.threads[t] != Idle
  }

  ghost predicate Inv(s: State) {
    && s.free + |Holders(s)| == SLOTS
    && (forall a :: a in s.active <==> exists t :: t in s.threads && s.threads[t] == Checking(a))
    && (forall t, u :: t in s.threads && u in s.threads && t != u && s.threads[t].Checking? && s.threads[u].Checking? ==>
          s.threads[t].account != s.threads[u].account)
  }

  lemma HoldersMove(s: State, t: Thread, phase: Phase)
    ensures var moved := s.(threads := s.threads[t := phase]);
            Holders(moved) == if phase == Idle then Holders(s) - {t} else Holders(s) + {t}
  {
  }

  /** Moving a thread that is not checking, to a phase that is not checking, changes no check. */
  lemma CheckingSame(s: State, n: State, t: Thread, p: Phase)
    requires Inv(s) && n.active == s.active
    requires !s.PhaseOf(t).Checking? && !p.Checking? && n.threads == s.threads[t := p]
    ensures forall a :: a in n.active <==> exists u :: u in n.threads && n.threads[u] == Checking(a)
    ensures forall u, v :: u in n.threads && v in n.threads && u != v && n.threads[u].Checking? && n.threads[v].Checking? ==>
              n.threads[u].account != n.threads[v].account
  {
    forall a | a in n.active ensures exists u :: u in n.threads && n.threads[u] == Checking(a) {
      var u :| u in s.threads && s.threads[u] == Checking(a);
      assert n.threads[u] == Checking(a);
    }
  }

  lemma AcquireKeeps(s: State, t: Thread, account: Account)
    requires Inv(s)
    ensures Inv(Next(s, Acquire(t, account)).value)
  {
    if s.PhaseOf(t) == Idle && s.free > 0 {
      HoldersMove(s, t, SlotHeld(account));
      assert t !in Holders(s);
      CheckingSame(s, Next(s, Acquire(t, account)).value, t, SlotHeld(account));
    }
  }

  lemma GiveBackKeeps(s: State, t: Thread)
    requires Inv(s) && s.PhaseOf(t) != Idle && !s.PhaseOf(t).Checking?
    ensures GiveBack(s, t).Some? && Inv(GiveBack(s, t).value)
  {
    assert t in Holders(s);
    HoldersMove(s, t, Idle);
    CheckingSame(s, GiveBack(s, t).value, t, Idle);
  }

  lemma EnterKeeps(s: State, t: Thread)
    requires Inv(s) && s.PhaseOf(t).SlotHeld?
    ensures Inv(Next(s, Enter(t)).value)
  {
    var account, n := s.PhaseOf(t).account, Next(s, Enter(t)).value;
    HoldersMove(s, t, n.threads[t]);
    assert Holders(n) == Holders(s) + {t} == Holders(s);
    if account in s.active {
      CheckingSame(s, n, t, Rejecting(account));
    } else {
      forall a | a in n.active ensures exists u :: u in n.threads && n.threads[u] == Checking(a) {
        if a == account {
          assert n.threads[t] == Checking(a);
        } else {
          var u :| u in s.threads && s.threads[u] == Checking(a);
          assert n.threads[u] == Checking(a);
        }
      }
    }
  }

  lemma DiscardKeeps(s: State, t: Thread)
    requires Inv(s) && s.PhaseOf(t).Checking?
    ensures Inv(Next(s, Discard(t)).value)
  {
    var account, n := s.PhaseOf(t).account, Next(s, Discard(t)).value;
    HoldersMove(s, t, n.threads[t]);
    assert Holders(n) == Holders(s) + {t} == Holders(s);
    forall a | a in n.active ensures exists u :: u in n.threads && n.threads[u] == Checking(a) {
      var u :| u in s.threads && s.threads[u] == Checking(a);
      assert n.threads[u] == Checking(a);
    }
  }

  /** No step breaks the invariant, and no release ever exceeds the semaphore's bound. */
  lemma {:induction false} StepKeeps(s: State, step: Step)
    requires Inv(s)
    ensures Next(s, step).Some? && Inv(Next(s, step).value)
  {
    var t := step.thread;
    match step {
      case Acquire(_, account) => AcquireKeeps(s, t, account);
      case Enter(_) => if s.PhaseOf(t).SlotHeld? { EnterKeeps(s, t); }
      case Reject(_) => if s.PhaseOf(t).Rejecting? { GiveBackKeeps(s, t); }
      case Discard(_) => if s.PhaseOf(t).Checking? { DiscardKeeps(s, t); }
      case Release(_) => if s.PhaseOf(t).Releasing? { GiveBackKeeps(s, t); }
    }
  }

  /** Under any interleaving: free slots and threads holding one always add up to five, no release
      raises, the active set is exactly the accounts being checked, and no two checks share one. */
  lemma {:induction false} AnyInterleaving(steps: seq<Step>, s: State)
    requires Inv(s)
    ensures Run(s, steps).Some? && Inv(Run(s, steps).value)
    decreases |steps|
  {
    if steps != [] {
      StepKeeps(s, steps[0]);
      AnyInterleaving(steps[1..], Next(s, steps[0]).value);
    }
  }

  lemma StartIsFine()
    ensures Inv(START)
  {
    assert Holders(START) == {};
  }

  /** So every run of any threads from the start is safe: it raises nothing, slots balance, and active
      accounts are exactly those being checked. */
  lemma {:induction false} EveryRunIsSafe(steps: seq<Step>)
    ensures Run(START, steps).Some? && Inv(Run(START, steps).value)
  {
    StartIsFine();
    AnyInterleaving(steps, START);
  }

  /** Giving back a slot raises exactly when all five are free already. */
  lemma ReleaseRaisesIff(s: State, t: Thread)
    requires s.PhaseOf(t).Releasing?
    ensures Next(s, Release(t)).None? <==> s.free >= 5
  {
  }

  /** So at most five password checks run at once, each for another account. */
  lemma {:induction false} AtMostFiveChecks(s: State, checks: set<Thread>)
    requires Inv(s) && forall t :: t in checks ==> s.PhaseOf(t).Checking?
    ensures |checks| <= 5
    ensures forall t, u :: t in checks && u in checks && t != u ==> s.PhaseOf(t).account != s.PhaseOf(u).account
  {
    forall t | t in checks ensures t in Holders(s) {
    }
    SubsetSize(checks, Holders(s));
  }

  /** When every thread has finished, all slots and accounts are free again. */
  lemma {:induction false} QuiescentIsFree(s: State)
    requires Inv(s) && forall t :: t in s.threads ==> s.threads[t] == Idle
    ensures s.free == SLOTS && s.active == {}
  {
    assert Holders(s) == {};
  }

  // ---- In place ----------------------------------------------------------------------------------

  class Gate {
    var free: nat
    var active: set<Account>

    constructor ()
      ensures free == SLOTS && active == {}
    {
      free, active := SLOTS, {};
    }

    method BeginPasswordCheck(account: Account) returns (admitted: bool)
      modifies this
      ensures admitted <==> old(free) > 0 && account !in old(active)
      ensures free == old(free) - (if admitted then 1 else 0)
      ensures active == if admitted then old(active) + {account} else old(active)
    {
      if free == 0 {
        return false;
      }
      free := free - 1;
      if account in active {
        free := free + 1;
        return false;
      }
      active := active + {account};
      return true;
    }

    method EndPasswordCheck(account: Account)
      modifies this
      ensures free == old(free) + 1 && active == old(active) - {account}
    {
      active := active - {account};
      free := free + 1;
    }
  }

  /** Without interruption the steps of a thread do what the two functions do in one go. */
  lemma {:induction false} UninterruptedBegin(s: State, t: Thread, account: Account)
    requires Inv(s) && s.PhaseOf(t) == Idle
    ensures Run(s, [Acquire(t, account), Enter(t), Reject(t)]).Some?
    ensures var n := Run(s, [Acquire(t, account), Enter(t), Reject(t)]).value;
            var admitted := s.free > 0 && account !in s.active;
            && (n.PhaseOf(t) == Checking(account) <==> admitted) && (n.PhaseOf(t) == Idle <==> !admitted)
            && n.free == s.free - (if admitted then 1 else 0)
            && n.active == if admitted then s.active + {account} else s.active
  {
    var steps := [Acquire(t, account), Enter(t), Reject(t)];
    var one := Next(s, steps[0]).value;
    AcquireKeeps(s, t, account);
    StepKeeps(one, steps[1]);
    var two := Next(one, steps[1]).value;
    StepKeeps(two, steps[2]);
    assert steps[1..][0] == steps[1] && steps[1..][1..][0] == steps[2] && steps[1..][1..][1..] == [];
    assert Run(two, [steps[2]]) == Next(two, steps[2]);
    assert steps[1..][1..] == [steps[2]];
  }
}
