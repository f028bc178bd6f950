/**
 How far the counter may run ahead: a bound on the distance to the calls in flight keeps every run free of the
 missing-log error exactly when it is at most 1000. In the run built here process 1 takes id 1000 and is slow to store
 it, process 0 logs on, and its dump of 2000 misses that record.
 */
module LogPacing {
  import LogWindow
  import opened LogProtocol
  import opened LogRuns
  import opened Results

  lemma {:induction false} PacedRunMonotone(actions: seq<Action>, k: nat, k': nat)
    requires PacedRunBy(actions, k) && k <= k'
    ensures PacedRunBy(actions, k')
  {
    if actions != [] {
      PacedRunMonotone(actions[..|actions| - 1], k, k');
    }
  }

  /** Process 1 may hold the id 1000, and no third process does anything. */
  ghost predicate Others(s: State, held: bool)
  {
    && (forall p :: p in s.phases && p != 0 && p != 1 ==> s.phases[p].Idle?)
    && PhaseOf(s, 1) == (if held then Storing(1000, "x") else Idle)
  }

  /** While the counter is at most 1000 past every call in flight, process 0 may log up to 2000. */
  lemma MayLogPaced(s: State, held: bool)
    requires Others(s, held)
    ensures MayLog(PaceOf(PACE + 1), s, 0, 2000)
  {
    forall t | SameFor(s, t, 0) && t.counter <= 2000 && JustLogging(t, 0) ensures PacedBy(t, PACE + 1) {
      forall p | p in t.phases && !t.phases[p].Idle? ensures t.counter < t.phases[p].id + PACE + 1 {
        if p != 0 {
          assert PhaseOf(t, p) == PhaseOf(s, p);
        }
      }
    }
  }

  /** Process 1 holds id 1000, and process 0 has logged up to 2000, where its dump begins. */
  ghost predicate ReadingPast(s: State, k: nat)
  {
    && Reached(PaceOf(PACE + 1), s) && s.counter == 2000 && Others(s, true) && Filled(s.hash, 2000, {1000})
    && PhaseOf(s, 0).Reading? && PhaseOf(s, 0).id == 2000 && |PhaseOf(s, 0).records| == k
  }

  lemma OthersStay(s: State, s': State, held: bool)
    requires Others(s, held) && SameFor(s, s', 0)
    ensures Others(s', held)
  {
    forall p | p in s'.phases && p != 0 && p != 1 ensures s'.phases[p].Idle? {
      assert PhaseOf(s', p) == PhaseOf(s, p);
    }
  }

  /** Process 0 logs on, past nothing that is missing. */
  lemma LogOn(s: State, held: bool, n: nat, missing: set<nat>) returns (s': State)
    requires Reached(PaceOf(PACE + 1), s) && Others(s, held) && PhaseOf(s, 0).Idle?
    requires Filled(s.hash, s.counter, missing) && s.counter <= n < 2000
    requires forall id :: s.counter < id <= n ==> id !in missing
    ensures Reached(PaceOf(PACE + 1), s') && Others(s', held) && PhaseOf(s', 0).Idle?
    ensures s'.counter == n && Filled(s'.hash, n, missing)
  {
    var allow := PaceOf(PACE + 1);
    MayLogPaced(s, held);
    MayLogOn(allow, s, s, 0, 2000, n);
    s' := LogUpTo(allow, s, 0, n, missing);
    OthersStay(s, s', held);
  }

  /** Process 1 takes id 1000. */
  lemma TakesHeld(s: State, missing: set<nat>) returns (s': State)
    requires Reached(PaceOf(PACE + 1), s) && Others(s, false) && PhaseOf(s, 0).Idle?
    requires s.counter == 999 && Filled(s.hash, 999, missing) && 1000 in missing
    ensures Reached(PaceOf(PACE + 1), s') && Others(s', true) && PhaseOf(s', 0).Idle?
    ensures s'.counter == 1000 && Filled(s'.hash, 1000, missing)
  {
    s' := Step(s, Incr(1, "x"));
    ReachedStep(PaceOf(PACE + 1), s, Incr(1, "x"));
  }

  lemma LastRecord(s: State, missing: set<nat>) returns (s': State)
    requires Reached(PaceOf(PACE + 1), s) && Others(s, true) && PhaseOf(s, 0).Idle?
    requires s.counter == 1999 && Filled(s.hash, 1999, missing) && missing == {1000}
    ensures ReadingPast(s', 0)
  {
    MayLogPaced(s, true);
    s' := LogOne(PaceOf(PACE + 1), s, 0, missing);
    OthersStay(s, s', true);
  }

  lemma DumpBegins() returns (s: State)
    ensures ReadingPast(s, 0)
  {
    var missing: set<nat> := {1000};
    ReachedStart(PaceOf(PACE + 1));
    s := LogOn(START, false, 999, missing);
    s := TakesHeld(s, missing);
    s := LogOn(s, true, 1999, missing);
    s := LastRecord(s, missing);
  }

  lemma ReadOne(s: State, k: nat) returns (s': State)
    requires ReadingPast(s, k) && k < 999
    ensures ReadingPast(s', k + 1)
  {
    assert k + 1 in s.hash;
    s' := Step(s, HGet(0));
    ReachedStep(PaceOf(PACE + 1), s, HGet(0));
  }

  /** The dump raises. */
  lemma HeldIdRaises()
    ensures exists actions :: PacedRunBy(actions, PACE + 1) && 2000 in Run(actions).value.raised
  {
    var s := DumpBegins();
    var k := 0;
    while k < 999
      invariant k <= 999 && ReadingPast(s, k)
    {
      s := ReadOne(s, k);
      k := k + 1;
    }
    ReachedStep(PaceOf(PACE + 1), s, HGet(0));
    s := Step(s, HGet(0));
    var actions :| RunWithin(PaceOf(PACE + 1), actions) && Run(actions) == Some(s);
    assert PacedRunBy(actions, PACE + 1);
  }

  /** Every run in which the counter stays less than `k` past the calls in flight is free of the error. */
  ghost predicate SafePace(k: nat)
  {
    forall actions :: PacedRunBy(actions, k) ==> Run(actions).value.raised == {}
  }

  /** 1000 is the exact bound. */
  lemma SafePaceIff(k: nat)
    ensures SafePace(k) <==> k <= 1000
  {
    if k <= 1000 {
      forall actions | PacedRunBy(actions, k) ensures Run(actions).value.raised == {} {
        PacedRunMonotone(actions, k, PACE);
        PacedNeverRaises(actions);
      }
    } else {
      HeldIdRaises();
      var actions :| PacedRunBy(actions, PACE + 1) && 2000 in Run(actions).value.raised;
      PacedRunMonotone(actions, PACE + 1, k);
    }
  }
}
