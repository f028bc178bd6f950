/**
 Conflict resolution: the verdict function `HAM` on string values, and the step "take the incoming update iff the
 verdict says so". Against a clock that is not behind, the step is the maximum of state and then string, so replicas
 that receive the same updates in any order and any number of times agree.
 */
module Ham {
  import opened Strings

  /** A state as it arrives: absent (None), or a number. */
  datatype Stamp = Missing | At(n: int)

  datatype Verdict = Defer | Historical | Same | KeepCurrent | TakeIncoming

  function StampValue(s: Stamp): int
  {
    match s
    case Missing => 0
    case At(n) => n
  }

  function Judge(machine: int, incomingState: Stamp, currentState: Stamp, incoming: string, current: string): Verdict
  {
    var i, c := StampValue(incomingState), StampValue(currentState);
    if machine < i then Defer
    else if i < c then Historical
    else if c < i then TakeIncoming
    else if incoming == current then Same
    else if Less(incoming, current) then KeepCurrent
    else TakeIncoming
  }

  /** A state and the value it goes with. */
  datatype Update = Update(state: int, value: string)

  /** What a key that was never written counts as. */
  const ABSENT := Update(0, "0")

  function Step(machine: int, current: Update, incoming: Update): Update
  {
    if Judge(machine, At(incoming.state), At(current.state), incoming.value, current.value).TakeIncoming?
    then incoming else current
  }

  /** Lexicographic: state, then string. */
  predicate Later(a: Update, b: Update)
  {
    a.state < b.state || (a.state == b.state && Less(a.value, b.value))
  }

  function Max(a: Update, b: Update): Update
  {
    if Later(a, b) then b else a
  }

  lemma LaterTotal(a: Update, b: Update)
    ensures Later(a, b) || a == b || Later(b, a)
    ensures !(Later(a, b) && Later(b, a)) && !Later(a, a)
  {
    LessTrichotomy(a.value, b.value);
    LessTrichotomy(a.value, a.value);
  }

  lemma LaterTransitive(a: Update, b: Update, c: Update)
    requires Later(a, b) && Later(b, c)
    ensures Later(a, c)
  {
    if a.state == b.state == c.state {
      LessTransitive(a.value, b.value, c.value);
    }
  }

  /** What each verdict says: beyond the clock, of an older state, the same, earlier at the same state, or later. */
  lemma VerdictIff(machine: int, current: Update, incoming: Update)
    ensures var v := Judge(machine, At(incoming.state), At(current.state), incoming.value, current.value);
            && (v.Defer? <==> incoming.state > machine)
            && (v.TakeIncoming? <==> incoming.state <= machine && Later(current, incoming))
            && (v.Same? <==> incoming.state <= machine && incoming == current)
            && (v.Historical? <==> incoming.state <= machine && incoming.state < current.state)
            && (v.KeepCurrent? <==>
                  && incoming.state <= machine && incoming.state == current.state
                  && Later(incoming, current))
  {
    LessTrichotomy(incoming.value, current.value);
  }

  /** An absent state, on either side, is state 0. */
  lemma MissingIsZero(machine: int, s: Stamp, incoming: string, current: string)
    ensures Judge(machine, Missing, s, incoming, current) == Judge(machine, At(0), s, incoming, current)
    ensures Judge(machine, s, Missing, incoming, current) == Judge(machine, s, At(0), incoming, current)
  {
  }

  /** The two updates of a verdict are exchanged: exactly one direction is taken, unless they are equal. */
  lemma VerdictSymmetric(machine: int, a: Update, b: Update)
    requires a.state <= machine && b.state <= machine
    ensures var there := Judge(machine, At(a.state), At(b.state), a.value, b.value);
            var back := Judge(machine, At(b.state), At(a.state), b.value, a.value);
            && (there.TakeIncoming? <==> back.Historical? || back.KeepCurrent?)
            && (there.Same? <==> a == b) && !there.Defer?
  {
    LessTrichotomy(a.value, b.value);
  }

  /** The step computes the maximum exactly when a later update is not ahead of the clock. */
  lemma StepIsMaxIff(machine: int, current: Update, incoming: Update)
    ensures Step(machine, current, incoming) == Max(current, incoming)
       <==> incoming.state <= machine || !Later(current, incoming)
  {
    LaterTotal(current, incoming);
    LessTrichotomy(incoming.value, current.value);
  }

  /**
   A key never written counts as state 0 and value "0": a first write is taken exactly when it is later than that and
   not beyond the clock. One with a negative state, or with state 0 and a value not above "0", never gets in.
   */
  lemma FirstWriteIff(machine: int, u: Update)
    ensures Judge(machine, At(u.state), Missing, u.value, ABSENT.value).TakeIncoming?
       <==> u.state <= machine && Later(ABSENT, u)
  {
    LessTrichotomy(u.value, ABSENT.value);
  }

  lemma MaxJoin(a: Update, b: Update, c: Update)
    ensures Max(a, a) == a
    ensures Max(a, b) == Max(b, a)
    ensures Max(Max(a, b), c) == Max(a, Max(b, c))
  {
    LaterTotal(a, b);
    LaterTotal(b, c);
    LaterTotal(a, c);
    if Later(a, b) && Later(b, c) {
      LaterTransitive(a, b, c);
    }
    if Later(c, b) && Later(b, a) {
      LaterTransitive(c, b, a);
    }
  }

  // ----- delivery of many updates -----

  /** An update arriving when the machine clock reads `clock`. */
  datatype Arrival = Arrival(clock: int, update: Update)

  function Deliver(start: Update, arrivals: seq<Arrival>): Update
  {
    if arrivals == [] then start
    else
      var last := arrivals[|arrivals| - 1];
      Step(last.clock, Deliver(start, arrivals[..|arrivals| - 1]), last.update)
  }

  function Updates(arrivals: seq<Arrival>): set<Update>
  {
    set i | 0 <= i < |arrivals| :: arrivals[i].update
  }

  /** The updates that were not deferred. */
  function Accepted(arrivals: seq<Arrival>): set<Update>
  {
    set i | 0 <= i < |arrivals| && arrivals[i].update.state <= arrivals[i].clock :: arrivals[i].update
  }

  ghost predicate IsLatest(u: Update, all: set<Update>)
  {
    u in all && forall v :: v in all ==> !Later(u, v)
  }

  lemma LatestUnique(u: Update, v: Update, all: set<Update>)
    requires IsLatest(u, all) && IsLatest(v, all)
    ensures u == v
  {
    LaterTotal(u, v);
  }

  /** Whatever the order and the clocks, what is left is the latest of the start and the accepted updates. */
  lemma {:induction false} DeliverLatest(start: Update, arrivals: seq<Arrival>)
    ensures IsLatest(Deliver(start, arrivals), {start} + Accepted(arrivals))
  {
    if arrivals == [] {
      LaterTotal(start, start);
    } else {
      var k := |arrivals| - 1;
      var front, last := arrivals[..k], arrivals[k];
      DeliverLatest(start, front);
      var before, u := Deliver(start, front), last.update;
      AcceptedNext(arrivals);
      if u.state <= last.clock {
        StepIsMaxIff(last.clock, before, u);
        LaterTotal(u, u);
        forall v | v in {start} + Accepted(arrivals) ensures !Later(Max(before, u), v) {
          if Later(before, u) && Later(u, v) {
            LaterTransitive(before, u, v);
          }
        }
      }
    }
  }

  lemma AcceptedNext(arrivals: seq<Arrival>)
    requires arrivals != []
    ensures var k := |arrivals| - 1;
            Accepted(arrivals) == Accepted(arrivals[..k])
              + (if arrivals[k].update.state <= arrivals[k].clock then {arrivals[k].update} else {})
  {
    var k := |arrivals| - 1;
    var front := arrivals[..k];
    forall u | u in Accepted(front) ensures u in Accepted(arrivals) {
      var i :| 0 <= i < k && front[i].update.state <= front[i].clock && front[i].update == u;
      assert arrivals[i] == front[i];
    }
    forall u | u in Accepted(arrivals)
      ensures u in Accepted(front) || (u == arrivals[k].update && arrivals[k].update.state <= arrivals[k].clock)
    {
      var i :| 0 <= i < |arrivals| && arrivals[i].update.state <= arrivals[i].clock && arrivals[i].update == u;
      if i < k {
        assert front[i] == arrivals[i];
      }
    }
  }

  /** Replicas that accepted the same updates agree: order and repetition do not matter. */
  lemma Converge(start: Update, a: seq<Arrival>, b: seq<Arrival>)
    requires Accepted(a) == Accepted(b)
    ensures Deliver(start, a) == Deliver(start, b)
  {
    DeliverLatest(start, a);
    DeliverLatest(start, b);
    LatestUnique(Deliver(start, a), Deliver(start, b), {start} + Accepted(a));
  }

  /** In particular the same updates in any order and with repeats, when no state is beyond the clock it meets. */
  lemma ConvergeUndeferred(start: Update, a: seq<Arrival>, b: seq<Arrival>)
    requires forall i :: 0 <= i < |a| ==> a[i].update.state <= a[i].clock
    requires forall i :: 0 <= i < |b| ==> b[i].update.state <= b[i].clock
    requires Updates(a) == Updates(b)
    ensures Deliver(start, a) == Deliver(start, b)
  {
    assert Accepted(a) == Updates(a) && Accepted(b) == Updates(b);
    Converge(start, a, b);
  }

  /** A deferred update is dropped, not kept for later: the same update at two clocks leaves two replicas apart. */
  lemma DeferredIsLost(start: Update, u: Update, clock: int)
    requires u.state > clock
    ensures Deliver(start, [Arrival(clock, u)]) == start
    ensures Later(start, u) ==> Deliver(start, [Arrival(u.state, u)]) == u != start
  {
    assert [Arrival(clock, u)][..0] == [] && [Arrival(u.state, u)][..0] == [];
    StepIsMaxIff(u.state, start, u);
    LaterTotal(start, start);
  }

  /** Every received update was accepted, or is not later than one that was. */
  ghost predicate Covered(arrivals: seq<Arrival>)
  {
    forall v :: v in Updates(arrivals) ==> exists w :: w in Accepted(arrivals) && !Later(w, v)
  }

  /**
   Deferring does no harm, whatever a replica starts from, exactly when every update it received was accepted or is not
   later than one that was.
   */
  lemma NothingLostIff(arrivals: seq<Arrival>)
    ensures (forall start :: IsLatest(Deliver(start, arrivals), {start} + Updates(arrivals))) <==> Covered(arrivals)
  {
    if Covered(arrivals) {
      forall start ensures IsLatest(Deliver(start, arrivals), {start} + Updates(arrivals)) {
        CoveredLatest(start, arrivals);
      }
    }
    if forall start :: IsLatest(Deliver(start, arrivals), {start} + Updates(arrivals)) {
      forall v | v in Updates(arrivals) ensures exists w :: w in Accepted(arrivals) && !Later(w, v) {
        var start := Update(v.state - 1, "");
        DeliverLatest(start, arrivals);
        assert IsLatest(Deliver(start, arrivals), {start} + Updates(arrivals));
        assert !Later(Deliver(start, arrivals), v);
      }
    }
  }

  lemma AcceptedReceived(arrivals: seq<Arrival>, u: Update)
    requires u in Accepted(arrivals)
    ensures u in Updates(arrivals)
  {
  }

  lemma CoveredLatest(start: Update, arrivals: seq<Arrival>)
    requires Covered(arrivals)
    ensures IsLatest(Deliver(start, arrivals), {start} + Updates(arrivals))
  {
    var end, accepted, received := Deliver(start, arrivals), Accepted(arrivals), Updates(arrivals);
    DeliverLatest(start, arrivals);
    if end != start {
      AcceptedReceived(arrivals, end);
    }
    LatestOfMore(end, start, accepted, received);
  }

  /** The latest of some updates is the latest of more that are covered by them. */
  lemma LatestOfMore(end: Update, start: Update, few: set<Update>, many: set<Update>)
    requires IsLatest(end, {start} + few) && end in {start} + many
    requires forall v :: v in many ==> exists w :: w in few && !Later(w, v)
    ensures IsLatest(end, {start} + many)
  {
    forall v | v in {start} + many ensures !Later(end, v) {
      if v != start {
        var w :| w in few && !Later(w, v);
        assert w in {start} + few;
        NotLaterTransitive(end, w, v);
      }
    }
  }

  lemma NotLaterTransitive(a: Update, b: Update, c: Update)
    requires !Later(a, b) && !Later(b, c)
    ensures !Later(a, c)
  {
    LaterTotal(a, b);
    LaterTotal(b, c);
    if Later(a, c) && b != c {
      LaterTransitive(a, c, b);
    }
  }
}
