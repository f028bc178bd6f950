/**
 Why pacing must count a call as in flight until its dump has ended. In the run built here every record is stored at
 once, so the counter never runs ahead of an unstored id; but the dump of 2000 pauses, the dump of 3000 overtakes it
 and trims the block it has not read, and the paused dump then raises the missing-log error.
 */
module LogOvertaken {
  import LogWindow
  import opened LogProtocol
  import opened LogRuns
  import opened Results

  /** The counter is not past any id that is not stored yet. */
  ghost predicate NoneWaiting(s: State)
  {
    forall p :: p in s.phases && s.phases[p].Storing? ==> s.counter <= s.phases[p].id
  }

  /** That holds at every moment of the run. */
  ghost predicate StoredAtOnce(actions: seq<Action>)
  {
    RunWithin(NoneWaiting, actions)
  }

  ghost predicate NoneStoring(s: State)
  {
    forall p :: p in s.phases ==> !s.phases[p].Storing?
  }

  /** Storing at once, any process may log. */
  lemma MayLogAtOnce(s: State, p: nat, n: nat)
    requires NoneStoring(s)
    ensures MayLog(NoneWaiting, s, p, n)
  {
    forall t | SameFor(s, t, p) && t.counter <= n && JustLogging(t, p) ensures NoneWaiting(t) {
      forall q | q in t.phases && t.phases[q].Storing? ensures t.counter <= t.phases[q].id {
        assert q != p ==> PhaseOf(t, q) == PhaseOf(s, q);
      }
    }
  }

  lemma StillNoneStoring(s: State, s': State, p: nat)
    requires NoneStoring(s) && SameFor(s, s', p) && !PhaseOf(s', p).Storing?
    ensures NoneStoring(s')
  {
    forall q | q in s'.phases ensures !s'.phases[q].Storing? {
      assert q != p ==> PhaseOf(s', q) == PhaseOf(s, q);
    }
  }

  /** `p` logs up to `n`, where it begins to dump. */
  lemma LogToDump(s: State, p: nat, q: nat, n: nat) returns (s': State)
    requires Reached(NoneWaiting, s) && NoneStoring(s) && PhaseOf(s, p).Idle? && PhaseOf(s, q).Idle?
    requires Filled(s.hash, s.counter, {}) && s.counter < n && LogWindow.DumpsAt(n)
    requires forall id :: s.counter < id < n ==> !LogWindow.DumpsAt(id)
    ensures Reached(NoneWaiting, s') && NoneStoring(s') && s'.counter == n && Filled(s'.hash, n, {})
    ensures PhaseOf(s', q) == Reading(n, [])
    ensures forall r :: r != p && r != q ==> PhaseOf(s', r) == PhaseOf(s, r)
    ensures p != q ==> PhaseOf(s', p).Idle?
  {
    MayLogAtOnce(s, p, n - 1);
    var mid := LogUpTo(NoneWaiting, s, p, n - 1, {});
    StillNoneStoring(s, mid, p);
    MayLogAtOnce(mid, q, n);
    s' := LogOne(NoneWaiting, mid, q, {});
    StillNoneStoring(mid, s', q);
  }

  /** `p` reads the thousand records of its block. */
  lemma ReadAll(s: State, p: nat) returns (s': State)
    requires Reached(NoneWaiting, s) && NoneStoring(s) && Filled(s.hash, s.counter, {})
    requires PhaseOf(s, p) == Reading(s.counter, []) && s.counter >= 2000
    ensures Reached(NoneWaiting, s') && NoneStoring(s') && s'.hash == s.hash && SameFor(s, s', p)
    ensures PhaseOf(s', p).Writing? && PhaseOf(s', p).id == s.counter
  {
    s' := s;
    var k := 0;
    while k < 1000
      invariant 0 <= k <= 1000
      invariant Reached(NoneWaiting, s') && NoneStoring(s') && s'.hash == s.hash && SameFor(s, s', p)
      invariant if k < 1000 then PhaseOf(s', p).Reading? && |PhaseOf(s', p).records| == k else PhaseOf(s', p).Writing?
      invariant PhaseOf(s', p).id == s.counter
    {
      assert s.counter - 2000 + 1 + k in s'.hash;
      ReachedStep(NoneWaiting, s', HGet(p));
      s' := Step(s', HGet(p));
      k := k + 1;
    }
  }

  /** `p` writes its block, lists the keys and deletes id 1. */
  lemma TrimOne(s: State, p: nat) returns (s': State)
    requires Reached(NoneWaiting, s) && NoneStoring(s) && 1 in s.hash
    requires PhaseOf(s, p).Writing? && PhaseOf(s, p).id >= 2000
    ensures Reached(NoneWaiting, s') && NoneStoring(s') && 1 !in s'.hash && SameFor(s, s', p)
  {
    s' := List(s, p);
    s' := DeleteOne(s', p);
  }

  lemma List(s: State, p: nat) returns (s': State)
    requires Reached(NoneWaiting, s) && NoneStoring(s) && 1 in s.hash
    requires PhaseOf(s, p).Writing? && PhaseOf(s, p).id >= 2000
    ensures Reached(NoneWaiting, s') && NoneStoring(s') && SameFor(s, s', p)
    ensures PhaseOf(s', p).Deleting? && PhaseOf(s', p).id >= 2000 && 1 in PhaseOf(s', p).left
  {
    var s1 := Step(s, WriteBlock(p));
    ReachedStep(NoneWaiting, s, WriteBlock(p));
    assert 1 in OldKeys(s1.hash, PhaseOf(s1, p).id - 1000);
    s' := Step(s1, HKeys(p));
    ReachedStep(NoneWaiting, s1, HKeys(p));
  }

  lemma DeleteOne(s: State, p: nat) returns (s': State)
    requires Reached(NoneWaiting, s) && NoneStoring(s)
    requires PhaseOf(s, p).Deleting? && PhaseOf(s, p).id >= 2000 && 1 in PhaseOf(s, p).left
    ensures Reached(NoneWaiting, s') && NoneStoring(s') && 1 !in s'.hash && SameFor(s, s', p)
  {
    ReachedStep(NoneWaiting, s, HDel(p, {1}));
    s' := Step(s, HDel(p, {1}));
  }

  /** Process 1 has begun to dump 2000; process 0 has got to 3000 and begun to dump it. */
  lemma TwoDumps() returns (s: State)
    ensures Reached(NoneWaiting, s) && NoneStoring(s) && s.counter == 3000 && Filled(s.hash, 3000, {})
    ensures PhaseOf(s, 1) == Reading(2000, []) && PhaseOf(s, 0) == Reading(3000, [])
  {
    ReachedStart(NoneWaiting);
    s := LogToDump(START, 0, 1, 2000);
    s := LogToDump(s, 0, 0, 3000);
  }

  lemma MissRaises(s: State)
    requires Reached(NoneWaiting, s) && NoneStoring(s) && PhaseOf(s, 1) == Reading(2000, []) && 1 !in s.hash
    ensures exists actions :: StoredAtOnce(actions) && Run(actions).Some? && 2000 in Run(actions).value.raised
  {
    var s' := Step(s, HGet(1));
    assert 2000 in s'.raised;
    ReachedStep(NoneWaiting, s, HGet(1));
    var actions :| RunWithin(NoneWaiting, actions) && Run(actions) == Some(s');
    assert StoredAtOnce(actions);
  }

  lemma OvertakenDumpRaises()
    ensures exists actions :: StoredAtOnce(actions) && Run(actions).Some? && 2000 in Run(actions).value.raised
  {
    var s := TwoDumps();
    s := ReadAll(s, 0);
    s := TrimOne(s, 0);
    MissRaises(s);
  }
}
