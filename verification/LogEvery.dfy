/**
 What holds of the log protocol over every interleaving, however far the processes drift apart: a record leaves the hash
 only when some block at or above it is archived, an archived block holds the records of its ids, and a dump that
 raised is over, with nothing archived.
 */
module LogEvery {
  import LogWindow
  import opened LogProtocol
  import opened Results

  /** The hash holds what was stored and not deleted, as it was handed out. */
  ghost predicate HashTrue(s: State)
  {
    && (forall i :: i in s.hash <==> Stored(s, i) && i !in s.deleted)
    && (forall i :: i in s.hash ==> i in s.payload && s.hash[i] == s.payload[i])
  }

  /** An archived block at or above the id. */
  ghost predicate Covered(files: map<nat, seq<string>>, i: nat)
  {
    exists b :: b in files && i <= b
  }

  ghost predicate DeletedTrue(s: State)
  {
    forall i :: i in s.deleted ==> Stored(s, i) && Covered(s.files, i)
  }

  /** Each file is a whole block. */
  ghost predicate FilesTrue(s: State)
  {
    forall b :: b in s.files ==> b >= 1000 && |s.files[b]| == 1000 && Matches(s.payload, b - 1000, s.files[b])
  }

  /** The dump of `d` has archived its block. */
  predicate Archived(s: State, d: nat)
  {
    d >= 1000 && d - 1000 in s.files
  }

  /** A dump that archived, or raised, was of an id that is stored; none did both. */
  ghost predicate DumpsTrue(s: State)
  {
    forall d :: Archived(s, d) || d in s.raised ==> Stored(s, d) && !(Archived(s, d) && d in s.raised)
  }

  /** How far a dump has got, and that it did not raise. */
  ghost predicate PhaseTrue(s: State, phase: Phase)
  {
    match phase
    case Idle => true
    case Storing(_, _) => true
    case Reading(id, records) =>
      && id >= 2000 && id !in s.raised && !Archived(s, id)
      && |records| < 1000 && Matches(s.payload, id - 2000, records)
    case Writing(id, records) =>
      && id >= 2000 && id !in s.raised && !Archived(s, id)
      && |records| == 1000 && Matches(s.payload, id - 2000, records)
    case Listing(id) => id >= 2000 && id !in s.raised && Archived(s, id)
    case Deleting(id, left) =>
      && id >= 2000 && id !in s.raised && Archived(s, id)
      && forall i :: i in left ==> i <= id - 1000 && Stored(s, i)
  }

  ghost predicate PhasesTrue(s: State)
  {
    forall p :: p in s.phases ==> PhaseTrue(s, s.phases[p])
  }

  ghost predicate Truthful(s: State)
  {
    Ownership(s) && HashTrue(s) && DeletedTrue(s) && FilesTrue(s) && DumpsTrue(s) && PhasesTrue(s)
  }

  // ----- calls that log -----

  /** What a logging step leaves of the history and of the archive. */
  ghost predicate Grows(s: State, s': State)
  {
    && (forall i :: i in s.payload ==> i in s'.payload && s'.payload[i] == s.payload[i])
    && (forall i :: Stored(s, i) ==> Stored(s', i))
    && s'.files == s.files && s'.raised == s.raised && s'.deleted == s.deleted
  }

  lemma PhaseGrows(s: State, s': State, phase: Phase)
    requires Grows(s, s') && PhaseTrue(s, phase)
    ensures PhaseTrue(s', phase)
  {
  }

  lemma ArchiveGrows(s: State, s': State)
    requires Grows(s, s') && FilesTrue(s) && DumpsTrue(s) && DeletedTrue(s)
    ensures FilesTrue(s') && DumpsTrue(s') && DeletedTrue(s')
  {
  }

  lemma PhasesGrow(s: State, s': State, p: nat, now: Phase)
    requires Grows(s, s') && PhasesTrue(s) && s'.phases == s.phases[p := now] && PhaseTrue(s', now)
    ensures PhasesTrue(s')
  {
    forall q | q in s'.phases ensures PhaseTrue(s', s'.phases[q]) {
      if q != p {
        PhaseGrows(s, s', s.phases[q]);
      }
    }
  }

  lemma TrueIncr(s: State, a: Action)
    requires Truthful(s) && Enabled(s, a) && a.Incr?
    ensures Truthful(Step(s, a))
  {
    var s' := Step(s, a);
    OwnershipIncr(s, a);
    assert forall i :: Stored(s', i) <==> Stored(s, i);
    assert Grows(s, s');
    ArchiveGrows(s, s');
    PhasesGrow(s, s', a.p, s'.phases[a.p]);
  }

  lemma HSetHistory(s: State, a: Action)
    requires Ownership(s) && Enabled(s, a) && a.HSet?
    ensures var s', id := Step(s, a), PhaseOf(s, a.p).id;
            && Grows(s, s') && !Stored(s, id) && id in s.payload && s.payload[id] == PhaseOf(s, a.p).data
            && forall i :: Stored(s', i) <==> Stored(s, i) || i == id
  {
    assert PhaseFits(s, a.p, s.phases[a.p]);
  }

  lemma HSetHash(s: State, a: Action)
    requires Ownership(s) && HashTrue(s) && DeletedTrue(s) && Enabled(s, a) && a.HSet?
    ensures HashTrue(Step(s, a))
  {
    HSetHistory(s, a);
  }

  lemma HSetPhase(s: State, a: Action)
    requires Ownership(s) && FilesTrue(s) && DumpsTrue(s) && Enabled(s, a) && a.HSet?
    ensures var s' := Step(s, a); PhaseTrue(s', s'.phases[a.p]) && s'.phases == s.phases[a.p := s'.phases[a.p]]
  {
    HSetHistory(s, a);
  }

  lemma TrueHSet(s: State, a: Action)
    requires Truthful(s) && Enabled(s, a) && a.HSet?
    ensures Truthful(Step(s, a))
  {
    var s' := Step(s, a);
    OwnershipHSet(s, a);
    HSetHistory(s, a);
    HSetHash(s, a);
    HSetPhase(s, a);
    ArchiveGrows(s, s');
    PhasesGrow(s, s', a.p, s'.phases[a.p]);
  }

  // ----- dumps -----

  lemma MovesOwnership(s: State, s': State, p: nat, now: Phase)
    requires Ownership(s) && Moves(s, s', p, now) && p in s.phases
    ensures Ownership(s') && Stored(s, s.phases[p].id)
    ensures forall i :: Stored(s', i) <==> Stored(s, i)
  {
    OwnershipQuiet(s, s', p, now);
    assert PhaseFits(s, p, s.phases[p]);
  }

  /** No two processes are in a call for one id. */
  lemma OthersDiffer(s: State, p: nat, q: nat)
    requires PhasesFit(s) && p in s.phases && q in s.phases && p != q
    requires !s.phases[p].Idle? && !s.phases[q].Idle?
    ensures s.phases[p].id != s.phases[q].id
  {
    assert PhaseFits(s, p, s.phases[p]) && PhaseFits(s, q, s.phases[q]);
  }

  /** What a dump of `id` changes in the archive concerns no other call. */
  ghost predicate Apart(s: State, s': State, id: nat)
  {
    && (forall d :: Archived(s', d) ==> Archived(s, d) || d == id)
    && (forall d :: Archived(s, d) ==> Archived(s', d))
    && (forall i :: i in s'.raised ==> i in s.raised || i == id)
  }

  lemma PhaseApart(s: State, s': State, id: nat, phase: Phase)
    requires PhaseTrue(s, phase) && Apart(s, s', id) && (phase.Idle? || phase.id != id)
    requires s'.payload == s.payload && s'.owner == s.owner && s'.writers == s.writers
    ensures PhaseTrue(s', phase)
  {
  }

  lemma PhasesApart(s: State, s': State, p: nat, now: Phase)
    requires Ownership(s) && PhasesTrue(s) && p in s.phases && !s.phases[p].Idle?
    requires Moves(s, s', p, now) && Apart(s, s', s.phases[p].id) && PhaseTrue(s', now)
    ensures PhasesTrue(s')
  {
    forall q | q in s'.phases ensures PhaseTrue(s', s'.phases[q]) {
      if q != p {
        if !s.phases[q].Idle? {
          OthersDiffer(s, p, q);
        }
        PhaseApart(s, s', s.phases[p].id, s.phases[q]);
      }
    }
  }

  lemma ReadStep(s: State, a: Action)
    requires Ownership(s) && PhasesTrue(s) && Enabled(s, a) && a.HGet?
    ensures a.p in s.phases && PhaseTrue(s, s.phases[a.p])
    ensures var s', phase := Step(s, a), s.phases[a.p];
            && Moves(s, s', a.p, s'.phases[a.p]) && Apart(s, s', phase.id)
            && s'.files == s.files && s'.hash == s.hash && s'.deleted == s.deleted
  {
    ReadMoves(s, a);
  }

  /** Reading finds the record that was handed out for the next id, or ends the call. */
  lemma ReadOn(s: State, a: Action)
    requires HashTrue(s) && PhasesTrue(s) && Enabled(s, a) && a.HGet?
    ensures PhaseTrue(Step(s, a), Step(s, a).phases[a.p])
  {
    var phase := s.phases[a.p];
    assert PhaseTrue(s, phase);
    var i := phase.id - 2000 + 1 + |phase.records|;
    if i in s.hash && s.hash[i] != "" {
      MatchesOn(s.payload, phase.id - 2000, phase.records, s.hash[i]);
    }
  }

  lemma MatchesOn(payload: map<nat, string>, start: nat, records: seq<string>, next: string)
    requires Matches(payload, start, records)
    requires start + |records| + 1 in payload && payload[start + |records| + 1] == next
    ensures Matches(payload, start, records + [next])
  {
  }

  lemma TrueHGet(s: State, a: Action)
    requires Truthful(s) && Enabled(s, a) && a.HGet?
    ensures Truthful(Step(s, a))
  {
    var s', phase := Step(s, a), s.phases[a.p];
    ReadStep(s, a);
    MovesOwnership(s, s', a.p, s'.phases[a.p]);
    ReadOn(s, a);
    PhasesApart(s, s', a.p, s'.phases[a.p]);
    ReadArchive(s, s', phase.id);
  }

  lemma ReadArchive(s: State, s': State, id: nat)
    requires HashTrue(s) && DeletedTrue(s) && FilesTrue(s) && DumpsTrue(s) && Apart(s, s', id) && Stored(s, id)
    requires !Archived(s, id) && s'.files == s.files && s'.payload == s.payload
    requires s'.hash == s.hash && s'.deleted == s.deleted && s'.owner == s.owner && s'.writers == s.writers
    ensures HashTrue(s') && DeletedTrue(s') && FilesTrue(s') && DumpsTrue(s')
  {
    forall i ensures Stored(s', i) <==> Stored(s, i) {
    }
  }

  lemma WriteStep(s: State, a: Action)
    requires Ownership(s) && PhasesTrue(s) && Enabled(s, a) && a.WriteBlock?
    ensures a.p in s.phases && s.phases[a.p].Writing? && PhaseTrue(s, s.phases[a.p])
    ensures var s', phase := Step(s, a), s.phases[a.p];
            && Moves(s, s', a.p, Listing(phase.id)) && Apart(s, s', phase.id)
            && s'.files == s.files[phase.id - 1000 := phase.records] && s'.raised == s.raised
            && s'.hash == s.hash && s'.deleted == s.deleted
  {
    WriteMoves(s, a);
    assert PhaseTrue(s, s.phases[a.p]);
  }

  lemma WritePhases(s: State, a: Action)
    requires Ownership(s) && PhasesTrue(s) && Enabled(s, a) && a.WriteBlock?
    ensures PhasesTrue(Step(s, a))
  {
    var s', phase := Step(s, a), s.phases[a.p];
    WriteStep(s, a);
    WritePhase(s, s', phase.id, phase.records);
    PhasesApart(s, s', a.p, Listing(phase.id));
  }

  lemma WriteKeeps(s: State, a: Action)
    requires Enabled(s, a) && a.WriteBlock? && Stored(s, PhaseOf(s, a.p).id) && PhaseTrue(s, PhaseOf(s, a.p))
    requires HashTrue(s) && DeletedTrue(s) && FilesTrue(s) && DumpsTrue(s)
    ensures var s' := Step(s, a); HashTrue(s') && DeletedTrue(s') && FilesTrue(s') && DumpsTrue(s')
  {
    var phase := s.phases[a.p];
    WriteArchive(s, Step(s, a), phase.id, phase.records);
  }

  lemma WriterStored(s: State, a: Action)
    requires Ownership(s) && PhasesTrue(s) && Enabled(s, a) && a.WriteBlock?
    ensures Stored(s, PhaseOf(s, a.p).id) && PhaseTrue(s, PhaseOf(s, a.p))
  {
    assert PhaseFits(s, a.p, s.phases[a.p]) && PhaseTrue(s, s.phases[a.p]);
  }

  lemma TrueWrite(s: State, a: Action)
    requires Truthful(s) && Enabled(s, a) && a.WriteBlock?
    ensures Truthful(Step(s, a))
  {
    WriterStored(s, a);
    WriteKeeps(s, a);
    WritePhases(s, a);
    OwnershipDump(s, a);
  }

  lemma WritePhase(s: State, s': State, id: nat, records: seq<string>)
    requires id >= 2000 && id !in s.raised && s'.raised == s.raised && s'.files == s.files[id - 1000 := records]
    ensures PhaseTrue(s', Listing(id))
  {
  }

  lemma WriteArchive(s: State, s': State, id: nat, records: seq<string>)
    requires HashTrue(s) && DeletedTrue(s) && FilesTrue(s) && DumpsTrue(s) && Stored(s, id)
    requires id >= 2000 && id !in s.raised && |records| == 1000 && Matches(s.payload, id - 2000, records)
    requires s'.files == s.files[id - 1000 := records] && s'.raised == s.raised && s'.payload == s.payload
    requires s'.hash == s.hash && s'.deleted == s.deleted && s'.owner == s.owner && s'.writers == s.writers
    ensures HashTrue(s') && DeletedTrue(s') && FilesTrue(s') && DumpsTrue(s')
  {
    forall i ensures Stored(s', i) <==> Stored(s, i) {
    }
    forall i | i in s'.deleted ensures Covered(s'.files, i) {
      var b :| b in s.files && i <= b;
      assert b in s'.files;
    }
  }

  /** Both deletion steps: the keys that go lie at or below the block that was archived. */
  lemma DeleteStep(s: State, a: Action, gone: set<nat>)
    requires Ownership(s) && HashTrue(s) && PhasesTrue(s) && Enabled(s, a) && (a.HKeys? || a.HDel?)
    requires gone == if a.HDel? then a.chunk else {}
    ensures a.p in s.phases && PhaseTrue(s, s.phases[a.p])
    ensures var s', phase := Step(s, a), s.phases[a.p];
            && Moves(s, s', a.p, s'.phases[a.p]) && PhaseTrue(s', s'.phases[a.p])
            && s'.files == s.files && s'.raised == s.raised && Archived(s, phase.id)
            && s'.hash == s.hash - gone && s'.deleted == s.deleted + gone
            && forall i :: i in gone ==> i <= phase.id - 1000 && Stored(s, i)
  {
    DeleteMoves(s, a);
    assert PhaseTrue(s, s.phases[a.p]);
  }

  lemma TrueDelete(s: State, a: Action)
    requires Truthful(s) && Enabled(s, a) && (a.HKeys? || a.HDel?)
    ensures Truthful(Step(s, a))
  {
    var s', phase, gone := Step(s, a), s.phases[a.p], if a.HDel? then a.chunk else {};
    DeleteStep(s, a, gone);
    MovesOwnership(s, s', a.p, s'.phases[a.p]);
    PhasesApart(s, s', a.p, s'.phases[a.p]);
    DeleteArchive(s, s', phase.id, gone);
  }

  lemma DeleteArchive(s: State, s': State, id: nat, gone: set<nat>)
    requires HashTrue(s) && DeletedTrue(s) && FilesTrue(s) && DumpsTrue(s)
    requires Archived(s, id) && forall i :: i in gone ==> i <= id - 1000 && Stored(s, i)
    requires s'.files == s.files && s'.raised == s.raised && s'.payload == s.payload
    requires s'.hash == s.hash - gone && s'.deleted == s.deleted + gone
    requires s'.owner == s.owner && s'.writers == s.writers
    ensures HashTrue(s') && DeletedTrue(s') && FilesTrue(s') && DumpsTrue(s')
  {
    forall i ensures Stored(s', i) <==> Stored(s, i) {
    }
    forall i | i in s'.deleted ensures Covered(s'.files, i) {
      if i in gone {
        assert id - 1000 in s'.files;
      }
    }
  }

  // ----- runs -----

  lemma {:induction false} TrueAlways(actions: seq<Action>)
    requires Run(actions).Some?
    ensures Truthful(Run(actions).value)
  {
    if actions != [] {
      var before, a := Run(actions[..|actions| - 1]).value, actions[|actions| - 1];
      TrueAlways(actions[..|actions| - 1]);
      match a
      case Incr(_, _) => TrueIncr(before, a);
      case HSet(_) => TrueHSet(before, a);
      case HGet(_) => TrueHGet(before, a);
      case WriteBlock(_) => TrueWrite(before, a);
      case HKeys(_) => TrueDelete(before, a);
      case HDel(_, _) => TrueDelete(before, a);
    }
  }

  // ----- what it means -----

  /** Over every interleaving, what is deleted lies at or below a block that was archived before. */
  lemma DeletedIsCovered(actions: seq<Action>, i: nat)
    requires Run(actions).Some? && i in Run(actions).value.deleted
    ensures exists b :: b in Run(actions).value.files && i <= b
  {
    TrueAlways(actions);
    assert Covered(Run(actions).value.files, i);
  }

  /** Over every interleaving, a stored record is in the hash as it was handed out, or lies below an archived block. */
  lemma StoredIsKept(actions: seq<Action>, i: nat)
    requires Run(actions).Some? && Stored(Run(actions).value, i)
    ensures var s := Run(actions).value;
            (i in s.hash && i in s.payload && s.hash[i] == s.payload[i]) || exists b :: b in s.files && i <= b
  {
    TrueAlways(actions);
    if i in Run(actions).value.deleted {
      DeletedIsCovered(actions, i);
    }
  }

  /** Over every interleaving, an archived block holds the records of its thousand ids, in order. */
  lemma FilesHoldBlocks(actions: seq<Action>, b: nat, id: nat)
    requires Run(actions).Some? && b in Run(actions).value.files && b < id + 1000 && id <= b
    ensures var s := Run(actions).value;
            b >= 1000 && |s.files[b]| == 1000 && id in s.payload && s.files[b][id - (b - 1000) - 1] == s.payload[id]
  {
    TrueAlways(actions);
    var s := Run(actions).value;
    assert Matches(s.payload, b - 1000, s.files[b]);
  }

  /** Over every interleaving, a dump that raised has archived nothing, and nobody goes on with it. */
  lemma RaisedIsOver(actions: seq<Action>, id: nat, p: nat)
    requires Run(actions).Some? && id in Run(actions).value.raised
    ensures var s := Run(actions).value;
            (id >= 1000 ==> id - 1000 !in s.files) && (PhaseOf(s, p).Idle? || PhaseOf(s, p).id != id)
  {
    TrueAlways(actions);
    var s := Run(actions).value;
    assert !Archived(s, id);
    if p in s.phases {
      assert PhaseTrue(s, s.phases[p]) && PhaseFits(s, p, s.phases[p]);
    }
  }

  // ----- what a dump that ends has trimmed -----

  /** The id is deleted, or process `p` is about to. */
  predicate Going(s: State, p: nat, i: nat)
  {
    i in s.deleted || (PhaseOf(s, p).Deleting? && i in PhaseOf(s, p).left)
  }

  lemma Listed(s: State, p: nat, i: nat)
    requires Enabled(s, HKeys(p)) && i in s.hash && i <= PhaseOf(s, p).id - 1000
    ensures Going(Step(s, HKeys(p)), p, i)
  {
    assert i in OldKeys(s.hash, PhaseOf(s, p).id - 1000);
  }

  lemma GoingStays(s: State, a: Action, p: nat, i: nat)
    requires Enabled(s, a) && Going(s, p, i)
    ensures Going(Step(s, a), p, i)
  {
    if a.HDel? && a.p == p && i !in a.chunk && i !in s.deleted {
      assert i in PhaseOf(s, p).left - a.chunk;
    }
  }

  lemma {:induction false} ListedGoes(actions: seq<Action>, k: nat, p: nat, i: nat)
    requires k < |actions| && actions[k] == HKeys(p) && Run(actions).Some? && Run(actions[..k]).Some?
    requires var s := Run(actions[..k]).value; i in s.hash && PhaseOf(s, p).Listing? && i <= PhaseOf(s, p).id - 1000
    ensures Going(Run(actions).value, p, i)
  {
    var n := |actions| - 1;
    if k == n {
      Listed(Run(actions[..k]).value, p, i);
    } else {
      assert actions[..n][..k] == actions[..k];
      ListedGoes(actions[..n], k, p, i);
      GoingStays(Run(actions[..n]).value, actions[n], p, i);
    }
  }

  /** Over every interleaving, a dump that listed the keys and has ended leaves none of those at or below its block. */
  lemma EndedDumpTrims(actions: seq<Action>, k: nat, p: nat, i: nat)
    requires k < |actions| && actions[k] == HKeys(p) && Run(actions).Some? && Run(actions[..k]).Some?
    requires var s := Run(actions[..k]).value; i in s.hash && PhaseOf(s, p).Listing? && i <= PhaseOf(s, p).id - 1000
    requires !PhaseOf(Run(actions).value, p).Deleting?
    ensures i !in Run(actions).value.hash
  {
    ListedGoes(actions, k, p, i);
    TrueAlways(actions);
  }
}
