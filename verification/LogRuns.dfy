/**
 Building runs of the log protocol: states that can be reached while every state on the way is allowed, and a process
 that logs one record after the other while the rest stand still.
 */
module LogRuns {
  import LogWindow
  import opened LogProtocol
  import opened Results

  ghost predicate Reached(allow: State -> bool, s: State)
  {
    exists actions :: RunWithin(allow, actions) && Run(actions) == Some(s)
  }

  lemma ReachedStart(allow: State -> bool)
    requires allow(START)
    ensures Reached(allow, START)
  {
    assert RunWithin(allow, []) && Run([]) == Some(START);
  }

  lemma ReachedStep(allow: State -> bool, s: State, a: Action)
    requires Reached(allow, s) && Enabled(s, a) && allow(Step(s, a))
    ensures Reached(allow, Step(s, a))
  {
    var actions :| RunWithin(allow, actions) && Run(actions) == Some(s);
    var longer := actions + [a];
    assert longer[..|longer| - 1] == actions;
    assert Run(longer) == Some(Step(s, a));
    assert RunWithin(allow, longer);
  }

  ghost predicate SameFor(s: State, s': State, p: nat)
  {
    forall q :: q != p ==> PhaseOf(s', q) == PhaseOf(s, q)
  }

  /** Process `p` is between two calls, or has just taken or stored the newest id. */
  predicate JustLogging(s: State, p: nat)
  {
    var phase := PhaseOf(s, p);
    phase.Idle? || phase == Storing(s.counter, "x") || phase == Reading(s.counter, [])
  }

  /** As long as the others stand still, `p` may log until the counter is `n`. */
  ghost predicate MayLog(allow: State -> bool, s: State, p: nat, n: nat)
  {
    forall t :: SameFor(s, t, p) && t.counter <= n && JustLogging(t, p) ==> allow(t)
  }

  /** The hash holds the ids from 1 to `n`, but for the missing ones. */
  ghost predicate Filled(hash: map<nat, string>, n: nat, missing: set<nat>)
  {
    && (forall i :: i in hash <==> 1 <= i <= n && i !in missing)
    && (forall i :: i in hash ==> hash[i] == "x")
  }

  lemma TakeId(allow: State -> bool, s: State, p: nat) returns (s': State)
    requires Reached(allow, s) && PhaseOf(s, p).Idle? && MayLog(allow, s, p, s.counter + 1)
    ensures Reached(allow, s') && SameFor(s, s', p) && s'.hash == s.hash
    ensures s'.counter == s.counter + 1 && PhaseOf(s', p) == Storing(s'.counter, "x")
  {
    s' := Step(s, Incr(p, "x"));
    assert SameFor(s, s', p) && JustLogging(s', p);
    ReachedStep(allow, s, Incr(p, "x"));
  }

  lemma Store(allow: State -> bool, s: State, p: nat) returns (s': State)
    requires Reached(allow, s) && PhaseOf(s, p) == Storing(s.counter, "x") && MayLog(allow, s, p, s.counter)
    ensures Reached(allow, s') && SameFor(s, s', p)
    ensures s'.counter == s.counter && s'.hash == s.hash[s.counter := "x"]
    ensures PhaseOf(s', p) == if LogWindow.DumpsAt(s'.counter) then Reading(s'.counter, []) else Idle
  {
    s' := Step(s, HSet(p));
    assert SameFor(s, s', p) && JustLogging(s', p);
    ReachedStep(allow, s, HSet(p));
  }

  lemma MayLogOn(allow: State -> bool, s: State, s': State, p: nat, n: nat, n': nat)
    requires MayLog(allow, s, p, n) && SameFor(s, s', p) && n' <= n
    ensures MayLog(allow, s', p, n')
  {
    forall t | SameFor(s', t, p) && t.counter <= n' && JustLogging(t, p) ensures allow(t) {
      assert SameFor(s, t, p);
    }
  }

  lemma FilledNext(hash: map<nat, string>, n: nat, missing: set<nat>)
    requires Filled(hash, n, missing) && n + 1 !in missing
    ensures Filled(hash[n + 1 := "x"], n + 1, missing)
  {
  }

  lemma SameForBoth(s: State, mid: State, s': State, p: nat)
    requires SameFor(s, mid, p) && SameFor(mid, s', p)
    ensures SameFor(s, s', p)
  {
  }

  lemma TakeAndStore(allow: State -> bool, s: State, p: nat) returns (s': State)
    requires Reached(allow, s) && PhaseOf(s, p).Idle? && MayLog(allow, s, p, s.counter + 1)
    ensures Reached(allow, s') && SameFor(s, s', p)
    ensures s'.counter == s.counter + 1 && s'.hash == s.hash[s.counter + 1 := "x"]
    ensures PhaseOf(s', p) == if LogWindow.DumpsAt(s'.counter) then Reading(s'.counter, []) else Idle
  {
    var mid := TakeId(allow, s, p);
    MayLogOn(allow, s, mid, p, s.counter + 1, mid.counter);
    s' := Store(allow, mid, p);
    SameForBoth(s, mid, s', p);
  }

  /** `p` logs one record. */
  lemma LogOne(allow: State -> bool, s: State, p: nat, missing: set<nat>) returns (s': State)
    requires Reached(allow, s) && PhaseOf(s, p).Idle? && MayLog(allow, s, p, s.counter + 1)
    requires Filled(s.hash, s.counter, missing) && s.counter + 1 !in missing
    ensures Reached(allow, s') && SameFor(s, s', p) && s'.counter == s.counter + 1
    ensures Filled(s'.hash, s'.counter, missing)
    ensures PhaseOf(s', p) == if LogWindow.DumpsAt(s'.counter) then Reading(s'.counter, []) else Idle
  {
    FilledNext(s.hash, s.counter, missing);
    s' := TakeAndStore(allow, s, p);
  }

  /** `p` logs until the counter is `n`, when none of those ids dumps. */
  lemma LogUpTo(allow: State -> bool, s: State, p: nat, n: nat, missing: set<nat>) returns (s': State)
    requires Reached(allow, s) && PhaseOf(s, p).Idle? && s.counter <= n && MayLog(allow, s, p, n)
    requires Filled(s.hash, s.counter, missing)
    requires forall id :: s.counter < id <= n ==> !LogWindow.DumpsAt(id) && id !in missing
    ensures Reached(allow, s') && SameFor(s, s', p) && PhaseOf(s', p).Idle?
    ensures s'.counter == n && Filled(s'.hash, n, missing)
  {
    s' := s;
    while s'.counter < n
      invariant Reached(allow, s') && SameFor(s, s', p) && PhaseOf(s', p).Idle?
      invariant s.counter <= s'.counter <= n && Filled(s'.hash, s'.counter, missing)
      decreases n - s'.counter
    {
      MayLogOn(allow, s, s', p, n, s'.counter + 1);
      s' := LogOne(allow, s', p, missing);
    }
  }
}
