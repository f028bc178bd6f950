/**
 The log handler with many processes on one Redis. A process runs `handle_log` as a sequence of atomic server steps:
 incr, hset, one hget per record of the block, the file write, hkeys, and one hdel per chunk; steps of different
 processes interleave in any way. Rotation of the archive is left to `LogWindow`.
 */
module LogProtocol {
  import LogWindow
  import opened Results

  /** Where a process stands in its current call. */
  datatype Phase =
    | Idle
    | Storing(id: nat, data: string)
    | Reading(id: nat, records: seq<string>)
    | Writing(id: nat, records: seq<string>)
    | Listing(id: nat)
    | Deleting(id: nat, left: set<nat>)

  /**
   The server, the files by block, the processes; and the history of the run: who got an id and for which record, who
   stored it, who dumped, which dumps raised, which ids were deleted, and the last block written and trimmed.
   */
  datatype State = State(
    counter: nat,
    hash: map<nat, string>,
    files: map<nat, seq<string>>,
    phases: map<nat, Phase>,
    owner: map<nat, nat>,
    payload: map<nat, string>,
    writers: set<(nat, nat)>,
    dumpers: set<(nat, nat)>,
    raised: set<nat>,
    deleted: set<nat>,
    archived: nat,
    trimmed: nat)

  datatype Action =
    | Incr(p: nat, data: string)
    | HSet(p: nat)
    | HGet(p: nat)
    | WriteBlock(p: nat)
    | HKeys(p: nat)
    | HDel(p: nat, chunk: set<nat>)

  const START := State(0, map[], map[], map[], map[], map[], {}, {}, {}, {}, 0, 0)

  function PhaseOf(s: State, p: nat): Phase
  {
    if p in s.phases then s.phases[p] else Idle
  }

  predicate Enabled(s: State, a: Action)
  {
    var phase := PhaseOf(s, a.p);
    match a
    case Incr(_, data) => phase.Idle? && data != ""
    case HSet(_) => phase.Storing?
    case HGet(_) => phase.Reading? && phase.id >= 2000
    case WriteBlock(_) => phase.Writing? && phase.id >= 1000
    case HKeys(_) => phase.Listing? && phase.id >= 1000
    case HDel(_, chunk) => phase.Deleting? && phase.id >= 1000 && chunk != {} && chunk <= phase.left && |chunk| <= 100
  }

  function To(s: State, p: nat, phase: Phase): State
  {
    s.(phases := s.phases[p := phase])
  }

  /** The last deletion of a dump ends the call. */
  function Delete(s: State, p: nat, id: nat, left: set<nat>): State
    requires id >= 1000
  {
    if left == {} then To(s, p, Idle).(trimmed := id - 1000) else To(s, p, Deleting(id, left))
  }

  function OldKeys(hash: map<nat, string>, stopId: nat): set<nat>
  {
    set k | k in hash && k < stopId + 1
  }

  function Step(s: State, a: Action): State
    requires Enabled(s, a)
  {
    var p, phase := a.p, PhaseOf(s, a.p);
    match a
    case Incr(_, data) =>
      var id := s.counter + 1;
      To(s, p, Storing(id, data)).(counter := id, owner := s.owner[id := p], payload := s.payload[id := data])
    case HSet(_) =>
      var s' := s.(hash := s.hash[phase.id := phase.data], writers := s.writers + {(phase.id, p)});
      if LogWindow.DumpsAt(phase.id) then To(s', p, Reading(phase.id, [])).(dumpers := s.dumpers + {(phase.id, p)})
      else To(s', p, Idle)
    case HGet(_) =>
      var i := phase.id - 2000 + 1 + |phase.records|;
      if i !in s.hash || s.hash[i] == "" then To(s, p, Idle).(raised := s.raised + {phase.id})
      else
        var records := phase.records + [s.hash[i]];
        To(s, p, if |records| == 1000 then Writing(phase.id, records) else Reading(phase.id, records))
    case WriteBlock(_) =>
      To(s, p, Listing(phase.id)).(files := s.files[phase.id - 1000 := phase.records], archived := phase.id - 1000)
    case HKeys(_) =>
      Delete(s, p, phase.id, OldKeys(s.hash, phase.id - 1000))
    case HDel(_, chunk) =>
      Delete(s.(hash := s.hash - chunk, deleted := s.deleted + chunk), p, phase.id, phase.left - chunk)
  }

  /** The state a sequence of actions leads to from the start, if each is enabled in its turn. */
  function Run(actions: seq<Action>): Option<State>
  {
    if actions == [] then Some(START) else
      match Run(actions[..|actions| - 1])
      case Some(s) =>
        var a := actions[|actions| - 1];
        if Enabled(s, a) then Some(Step(s, a)) else None
      case None => None
  }

  // ----- every interleaving -----

  ghost predicate IdsIssued(s: State)
  {
    && (forall id :: id in s.owner <==> 1 <= id <= s.counter)
    && (forall id :: id in s.payload <==> 1 <= id <= s.counter)
    && (forall id :: id in s.payload ==> s.payload[id] != "")
  }

  /** The phase of `p` fits the history. */
  ghost predicate PhaseFits(s: State, p: nat, phase: Phase)
  {
    phase.Idle? ||
    (&& phase.id in s.owner && s.owner[phase.id] == p && phase.id in s.payload
     && (if phase.Storing? then (phase.id, p) !in s.writers && s.payload[phase.id] == phase.data
         else LogWindow.DumpsAt(phase.id) && (phase.id, p) in s.writers))
  }

  ghost predicate PhasesFit(s: State)
  {
    forall p :: p in s.phases ==> PhaseFits(s, p, s.phases[p])
  }

  /** Storing and dumping an id is done by the process that got it, and each id is stored or about to be. */
  ghost predicate WritersOwn(s: State)
  {
    && (forall id, p :: (id, p) in s.writers ==> id in s.owner && s.owner[id] == p)
    && (forall id, p :: (id, p) in s.dumpers <==> (id, p) in s.writers && LogWindow.DumpsAt(id))
    && (forall id :: id in s.owner ==> Stored(s, id) || IsStoring(s, id))
  }

  ghost predicate Stored(s: State, id: nat)
  {
    id in s.owner && (id, s.owner[id]) in s.writers
  }

  ghost predicate IsStoring(s: State, id: nat)
  {
    id in s.owner && PhaseOf(s, s.owner[id]).Storing? && PhaseOf(s, s.owner[id]).id == id
  }

  ghost predicate Ownership(s: State)
  {
    IdsIssued(s) && PhasesFit(s) && WritersOwn(s)
  }

  lemma OwnershipIncr(s: State, a: Action)
    requires Ownership(s) && Enabled(s, a) && a.Incr?
    ensures Ownership(Step(s, a))
  {
    var s' := Step(s, a);
    forall q | q in s'.phases ensures PhaseFits(s', q, s'.phases[q]) {
      if q != a.p {
        assert PhaseFits(s, q, s.phases[q]);
      }
    }
    forall id, p | (id, p) in s'.writers ensures id in s'.owner && s'.owner[id] == p {
    }
    forall id | id in s'.owner ensures Stored(s', id) || IsStoring(s', id) {
      assert id in s.owner ==> Stored(s, id) || IsStoring(s, id);
    }
  }

  lemma OwnershipHSet(s: State, a: Action)
    requires Ownership(s) && Enabled(s, a) && a.HSet?
    ensures Ownership(Step(s, a))
  {
    var s', id := Step(s, a), PhaseOf(s, a.p).id;
    forall q | q in s'.phases ensures PhaseFits(s', q, s'.phases[q]) {
      if q != a.p {
        assert PhaseFits(s, q, s.phases[q]);
      }
    }
    forall i | i in s'.owner ensures Stored(s', i) || IsStoring(s', i) {
      assert Stored(s, i) || IsStoring(s, i);
    }
  }

  /** The other steps only move the phase of a dump on. */
  lemma OwnershipQuiet(s: State, s': State, p: nat, phase: Phase)
    requires Ownership(s)
    requires s'.counter == s.counter && s'.owner == s.owner && s'.payload == s.payload
    requires s'.writers == s.writers && s'.dumpers == s.dumpers && s'.phases == s.phases[p := phase]
    requires var was := PhaseOf(s, p);
             !was.Idle? && !was.Storing? && (phase.Idle? || (!phase.Storing? && phase.id == was.id))
    ensures Ownership(s')
  {
    forall i | i in s'.owner ensures Stored(s', i) || IsStoring(s', i) {
      assert Stored(s, i) || IsStoring(s, i);
    }
  }

  /** A step of a dump moves one phase on and leaves ids and records alone. */
  ghost predicate Moves(s: State, s': State, p: nat, now: Phase)
  {
    && s'.counter == s.counter && s'.owner == s.owner && s'.payload == s.payload
    && s'.writers == s.writers && s'.dumpers == s.dumpers && s'.phases == s.phases[p := now]
    && var was := PhaseOf(s, p);
    && !was.Idle? && !was.Storing? && (now.Idle? || (!now.Storing? && now.id == was.id))
  }

  lemma ReadMoves(s: State, a: Action)
    requires Enabled(s, a) && a.HGet?
    ensures a.p in Step(s, a).phases && Moves(s, Step(s, a), a.p, Step(s, a).phases[a.p])
  {
  }

  lemma WriteMoves(s: State, a: Action)
    requires Enabled(s, a) && a.WriteBlock?
    ensures a.p in Step(s, a).phases && Moves(s, Step(s, a), a.p, Step(s, a).phases[a.p])
  {
  }

  lemma DeleteMoves(s: State, a: Action)
    requires Enabled(s, a) && (a.HKeys? || a.HDel?)
    ensures a.p in Step(s, a).phases && Moves(s, Step(s, a), a.p, Step(s, a).phases[a.p])
  {
  }

  lemma OwnershipDump(s: State, a: Action)
    requires Ownership(s) && Enabled(s, a) && !a.Incr? && !a.HSet?
    ensures Ownership(Step(s, a))
  {
    match a {
      case HGet(_) => ReadMoves(s, a);
      case WriteBlock(_) => WriteMoves(s, a);
      case _ => DeleteMoves(s, a);
    }
    OwnershipQuiet(s, Step(s, a), a.p, Step(s, a).phases[a.p]);
  }

  lemma OwnershipStep(s: State, a: Action)
    requires Ownership(s) && Enabled(s, a)
    ensures Ownership(Step(s, a))
  {
    if a.Incr? {
      OwnershipIncr(s, a);
    } else if a.HSet? {
      OwnershipHSet(s, a);
    } else {
      OwnershipDump(s, a);
    }
  }

  /** Over every interleaving: ids are never reused, and one process stores, and dumps, each. */
  lemma {:induction false} OwnershipAlways(actions: seq<Action>)
    requires Run(actions).Some?
    ensures Ownership(Run(actions).value)
  {
    if actions != [] {
      OwnershipAlways(actions[..|actions| - 1]);
      OwnershipStep(Run(actions[..|actions| - 1]).value, actions[|actions| - 1]);
    }
  }

  // ----- paced runs -----

  /** A run in which every state is allowed. */
  ghost predicate RunWithin(allow: State -> bool, actions: seq<Action>)
  {
    && Run(actions).Some?
    && allow(Run(actions).value)
    && (actions == [] || RunWithin(allow, actions[..|actions| - 1]))
  }

  /** The counter is less than `k` past every id whose call is still in flight. */
  ghost predicate PacedBy(s: State, k: nat)
  {
    forall p :: p in s.phases && !s.phases[p].Idle? ==> s.counter < s.phases[p].id + k
  }

  ghost function PaceOf(k: nat): State -> bool
  {
    s => PacedBy(s, k)
  }

  ghost predicate PacedRunBy(actions: seq<Action>, k: nat)
  {
    RunWithin(PaceOf(k), actions)
  }

  /** The pace that keeps every dump ahead of the deletions. */
  const PACE: nat := 1000

  ghost predicate Paced(s: State)
  {
    PacedBy(s, PACE)
  }

  ghost predicate PacedRun(actions: seq<Action>)
  {
    PacedRunBy(actions, PACE)
  }

  ghost predicate InFlight(s: State, id: nat)
  {
    id in s.owner && !PhaseOf(s, s.owner[id]).Idle? && PhaseOf(s, s.owner[id]).id == id
  }

  predicate PastWrite(phase: Phase)
  {
    phase.Listing? || phase.Deleting?
  }

  /** Only the dump right behind the trimmed blocks is in flight, if any. */
  ghost predicate FrontierAt(s: State, phase: Phase)
  {
    !phase.Idle? && LogWindow.DumpsAt(phase.id) ==>
      phase.id == s.trimmed + 2000 && s.archived == (if PastWrite(phase) then s.trimmed + 1000 else s.trimmed)
  }

  ghost predicate Frontier(s: State)
  {
    && s.trimmed % 1000 == 0
    && (s.trimmed > 0 ==> s.trimmed + 1000 <= s.counter)
    && (s.counter >= s.trimmed + 2000 ==> InFlight(s, s.trimmed + 2000))
    && (s.archived == s.trimmed || (s.archived == s.trimmed + 1000 && InFlight(s, s.trimmed + 2000)))
    && (forall p :: p in s.phases ==> FrontierAt(s, s.phases[p]))
    && s.raised == {}
  }

  /** The hash holds what was stored and not deleted; deletion stays behind the archive. */
  ghost predicate HashFits(s: State)
  {
    && (forall i :: i in s.hash <==> Stored(s, i) && i !in s.deleted)
    && (forall i :: i in s.hash ==> i in s.payload && s.hash[i] == s.payload[i])
    && (forall i :: i in s.deleted ==> 1 <= i <= s.archived)
    && (forall i :: 1 <= i <= s.trimmed ==> i in s.deleted)
  }

  /** The records are those of the ids after `start`. */
  ghost predicate Matches(payload: map<nat, string>, start: nat, records: seq<string>)
  {
    forall id :: start < id <= start + |records| ==> id in payload && payload[id] == records[id - start - 1]
  }

  ghost predicate FilesFit(s: State)
  {
    && (forall b :: b in s.files <==> b % 1000 == 0 && 1000 <= b <= s.archived)
    && (forall b :: b in s.files && b >= 1000 ==> |s.files[b]| == 1000 && Matches(s.payload, b - 1000, s.files[b]))
  }

  ghost predicate DumpFits(s: State, phase: Phase)
  {
    match phase
    case Reading(id, records) => |records| < 1000 && Matches(s.payload, s.trimmed, records)
    case Writing(id, records) => |records| == 1000 && Matches(s.payload, s.trimmed, records)
    case Deleting(id, left) =>
      && (forall i :: i in left ==> 1 <= i <= s.trimmed + 1000)
      && (forall i :: s.trimmed < i <= s.trimmed + 1000 ==> i in s.deleted || i in left)
    case _ => true
  }

  ghost predicate DumpsFit(s: State)
  {
    forall p :: p in s.phases ==> DumpFits(s, s.phases[p])
  }

  ghost predicate Safe(s: State)
  {
    Ownership(s) && Frontier(s) && HashFits(s) && FilesFit(s) && DumpsFit(s)
  }

  // Frames: what a step leaves alone.

  ghost predicate PayloadGrows(s: State, s': State)
  {
    forall i :: i in s.payload ==> i in s'.payload && s'.payload[i] == s.payload[i]
  }

  lemma FilesFrame(s: State, s': State)
    requires FilesFit(s) && PayloadGrows(s, s') && s'.files == s.files && s'.archived == s.archived
    ensures FilesFit(s')
  {
    forall b | b in s'.files && b >= 1000 ensures |s'.files[b]| == 1000 && Matches(s'.payload, b - 1000, s'.files[b]) {
      assert Matches(s.payload, b - 1000, s.files[b]);
    }
  }

  lemma DumpsFrame(s: State, s': State, p: nat)
    requires DumpsFit(s) && PayloadGrows(s, s') && s'.trimmed == s.trimmed && s'.deleted == s.deleted
    requires p in s'.phases && s'.phases == s.phases[p := s'.phases[p]] && DumpFits(s', s'.phases[p])
    ensures DumpsFit(s')
  {
    forall q | q in s'.phases ensures DumpFits(s', s'.phases[q]) {
      if q != p {
        assert DumpFits(s, s.phases[q]);
      }
    }
  }

  lemma FrontierFrame(s: State, s': State, p: nat)
    requires Ownership(s) && Ownership(s') && Frontier(s)
    requires s'.trimmed == s.trimmed && s'.raised == s.raised
    requires s'.counter == s.counter && s'.owner == s.owner
    requires p in s'.phases && s'.phases == s.phases[p := s'.phases[p]]
    requires var was, now := PhaseOf(s, p), s'.phases[p];
             !was.Idle? && (if now.Idle? then !LogWindow.DumpsAt(was.id) else now.id == was.id)
    requires FrontierAt(s', s'.phases[p])
    requires s'.archived == s.archived
             || (s'.archived == s.trimmed + 1000 && LogWindow.DumpsAt(PhaseOf(s, p).id))
    ensures Frontier(s')
  {
    var d := s.trimmed + 2000;
    assert InFlight(s, d) ==> InFlight(s', d);
    forall q | q in s'.phases ensures FrontierAt(s', s'.phases[q]) {
      if q != p {
        assert FrontierAt(s, s.phases[q]);
        assert PhaseFits(s, q, s.phases[q]) && PhaseFits(s', p, s'.phases[p]) && PhaseFits(s, p, s.phases[p]);
      }
    }
  }

  /** The next id that dumps is the one the frontier waits for. */
  lemma NextDump(n: nat, trimmed: nat)
    requires trimmed % 1000 == 0 && (trimmed > 0 ==> trimmed + 1000 <= n) && n < trimmed + 2000
    ensures LogWindow.DumpsAt(n + 1) <==> n + 1 == trimmed + 2000
  {
  }

  lemma BetweenDumps(n: nat, trimmed: nat)
    requires trimmed % 1000 == 0 && trimmed + 2000 < n < trimmed + 3000
    ensures !LogWindow.DumpsAt(n)
  {
  }

  lemma InFlightStays(s: State, a: Action, d: nat)
    requires Ownership(s) && Enabled(s, a) && a.Incr? && InFlight(s, d) && Paced(Step(s, a))
    ensures InFlight(Step(s, a), d) && d < Step(s, a).counter < d + 1000
  {
    var q := s.owner[d];
    assert q != a.p && q in s.phases;
    assert Step(s, a).phases[q] == s.phases[q];
  }

  lemma FrontierIncr(s: State, a: Action)
    requires Ownership(s) && Frontier(s) && Enabled(s, a) && a.Incr? && Paced(s) && Paced(Step(s, a))
    ensures Frontier(Step(s, a))
  {
    var s', d := Step(s, a), s.trimmed + 2000;
    if InFlight(s, d) {
      InFlightStays(s, a, d);
      BetweenDumps(s'.counter, s.trimmed);
    } else {
      NextDump(s.counter, s.trimmed);
    }
    forall q | q in s'.phases ensures FrontierAt(s', s'.phases[q]) {
      if q != a.p {
        assert FrontierAt(s, s.phases[q]);
      }
    }
  }

  lemma SafeIncr(s: State, a: Action)
    requires Safe(s) && Paced(s) && Enabled(s, a) && a.Incr? && Paced(Step(s, a))
    ensures Safe(Step(s, a))
  {
    var s' := Step(s, a);
    OwnershipIncr(s, a);
    FrontierIncr(s, a);
    FilesFrame(s, s');
    DumpsFrame(s, s', a.p);
    forall i ensures i in s'.hash <==> Stored(s', i) && i !in s'.deleted {
      assert i in s.hash <==> Stored(s, i) && i !in s.deleted;
    }
  }

  /** What is in flight is ahead of everything archived. */
  lemma AheadOfArchive(s: State, p: nat)
    requires Ownership(s) && Frontier(s) && Paced(s) && p in s.phases && !s.phases[p].Idle?
    ensures s.phases[p].id > s.archived && s.phases[p].id > s.trimmed
    ensures s.counter >= s.trimmed + 2000 ==> s.phases[p].id > s.trimmed + 1000
  {
    assert PhaseFits(s, p, s.phases[p]);
  }

  lemma HashHSet(s: State, a: Action)
    requires Ownership(s) && HashFits(s) && Enabled(s, a) && a.HSet? && PhaseOf(s, a.p).id > s.archived
    ensures HashFits(Step(s, a))
  {
    var s', id := Step(s, a), PhaseOf(s, a.p).id;
    assert PhaseFits(s, a.p, s.phases[a.p]);
    forall i ensures i in s'.hash <==> Stored(s', i) && i !in s'.deleted {
      if i != id {
        assert Stored(s', i) <==> Stored(s, i);
      }
    }
  }

  lemma SafeHSet(s: State, a: Action)
    requires Safe(s) && Paced(s) && Enabled(s, a) && a.HSet?
    ensures Safe(Step(s, a))
  {
    OwnershipHSet(s, a);
    AheadOfArchive(s, a.p);
    HashHSet(s, a);
    DumpsHSet(s, a);
    FrontierHSet(s, a);
  }

  lemma DumpsHSet(s: State, a: Action)
    requires Safe(s) && Enabled(s, a) && a.HSet?
    ensures FilesFit(Step(s, a)) && DumpsFit(Step(s, a))
  {
    FilesFrame(s, Step(s, a));
    DumpsFrame(s, Step(s, a), a.p);
  }

  lemma FrontierHSet(s: State, a: Action)
    requires Safe(s) && Paced(s) && Enabled(s, a) && a.HSet?
    ensures Frontier(Step(s, a))
  {
    OwnershipHSet(s, a);
    AheadOfArchive(s, a.p);
    assert FrontierAt(s, s.phases[a.p]);
    FrontierFrame(s, Step(s, a), a.p);
  }

  lemma HashFrame(s: State, s': State)
    requires HashFits(s) && s'.hash == s.hash && s'.deleted == s.deleted && s'.payload == s.payload
    requires s'.owner == s.owner && s'.writers == s.writers
    requires s'.archived >= s.archived && s'.trimmed == s.trimmed
    ensures HashFits(s')
  {
    forall i ensures i in s'.hash <==> Stored(s', i) && i !in s'.deleted {
      assert Stored(s', i) <==> Stored(s, i);
    }
  }

  /** A call that is a thousand ids behind has stored its record. */
  lemma StoredBehind(s: State, i: nat)
    requires Ownership(s) && Paced(s) && 1 <= i && i + 1000 <= s.counter
    ensures Stored(s, i)
  {
    assert i in s.owner;
    if !Stored(s, i) {
      StoringIsRecent(s, i);
    }
  }

  lemma StoringIsRecent(s: State, i: nat)
    requires Paced(s) && IsStoring(s, i)
    ensures s.counter < i + 1000
  {
    var p := s.owner[i];
    assert p in s.phases && s.phases[p].id == i;
  }

  /** A dump in flight that has not written yet finds each record of its block. */
  lemma RecordPresent(s: State, p: nat, i: nat)
    requires Ownership(s) && Frontier(s) && HashFits(s) && Paced(s)
    requires p in s.phases && s.phases[p].Reading? && s.trimmed < i <= s.trimmed + 1000
    ensures i in s.hash && i in s.payload && s.hash[i] == s.payload[i] && s.hash[i] != ""
  {
    assert PhaseFits(s, p, s.phases[p]) && FrontierAt(s, s.phases[p]);
    StoredBehind(s, i);
  }

  lemma MatchesNext(payload: map<nat, string>, start: nat, records: seq<string>, record: string)
    requires Matches(payload, start, records)
    requires start + 1 + |records| in payload && payload[start + 1 + |records|] == record
    ensures Matches(payload, start, records + [record])
  {
  }

  /** Reading a record that is there: the dump goes on and still agrees with the payloads. */
  lemma ReadStep(s: State, a: Action, phase: Phase)
    requires Enabled(s, a) && a.HGet? && phase == PhaseOf(s, a.p)
    requires phase.id == s.trimmed + 2000 && s.archived == s.trimmed && DumpFits(s, phase)
    requires var i := s.trimmed + 1 + |phase.records|;
             i in s.hash && i in s.payload && s.hash[i] == s.payload[i] && s.hash[i] != ""
    ensures var now := Step(s, a).phases[a.p];
            && (now.Reading? || now.Writing?) && now.id == phase.id
            && Step(s, a) == To(s, a.p, now) && DumpFits(s, now) && FrontierAt(s, now)
  {
    var i := s.trimmed + 1 + |phase.records|;
    assert i == phase.id - 2000 + 1 + |phase.records|;
    MatchesNext(s.payload, s.trimmed, phase.records, s.hash[i]);
  }

  lemma ReadingPhase(s: State, p: nat)
    requires Ownership(s) && Frontier(s) && HashFits(s) && DumpsFit(s) && Paced(s)
    requires p in s.phases && s.phases[p].Reading?
    ensures s.phases[p].id == s.trimmed + 2000 && s.archived == s.trimmed && DumpFits(s, s.phases[p])
    ensures var i := s.trimmed + 1 + |s.phases[p].records|;
            i in s.hash && i in s.payload && s.hash[i] == s.payload[i] && s.hash[i] != ""
  {
    var phase := s.phases[p];
    assert PhaseFits(s, p, phase) && FrontierAt(s, phase) && DumpFits(s, phase);
    RecordPresent(s, p, s.trimmed + 1 + |phase.records|);
  }

  lemma SafeHGet(s: State, a: Action)
    requires Safe(s) && Paced(s) && Enabled(s, a) && a.HGet?
    ensures Safe(Step(s, a))
  {
    var s' := Step(s, a);
    ReadingPhase(s, a.p);
    ReadStep(s, a, s.phases[a.p]);
    OwnershipQuiet(s, s', a.p, s'.phases[a.p]);
    FrontierFrame(s, s', a.p);
    FilesFrame(s, s');
    DumpsFrame(s, s', a.p);
    HashFrame(s, s');
  }

  lemma NextMultiple(t: nat, b: nat)
    requires t % 1000 == 0
    ensures b % 1000 == 0 && 1000 <= b <= t + 1000 <==> b == t + 1000 || (b % 1000 == 0 && 1000 <= b <= t)
  {
  }

  lemma FilesWrite(s: State, s': State, records: seq<string>)
    requires FilesFit(s) && s.archived == s.trimmed && s.trimmed % 1000 == 0
    requires |records| == 1000 && Matches(s.payload, s.trimmed, records)
    requires s'.payload == s.payload && s'.archived == s.trimmed + 1000
    requires s'.files == s.files[s.trimmed + 1000 := records]
    ensures FilesFit(s')
  {
    forall b: nat ensures b in s'.files <==> b % 1000 == 0 && 1000 <= b <= s'.archived {
      NextMultiple(s.trimmed, b);
    }
    forall b | b in s'.files && b >= 1000
      ensures |s'.files[b]| == 1000 && Matches(s'.payload, b - 1000, s'.files[b])
    {
      if b != s.trimmed + 1000 {
        assert Matches(s.payload, b - 1000, s.files[b]);
      }
    }
  }

  lemma SafeWrite(s: State, a: Action)
    requires Safe(s) && Paced(s) && Enabled(s, a) && a.WriteBlock?
    ensures Safe(Step(s, a))
  {
    var s', phase := Step(s, a), s.phases[a.p];
    assert PhaseFits(s, a.p, phase) && FrontierAt(s, phase) && DumpFits(s, phase);
    OwnershipQuiet(s, s', a.p, s'.phases[a.p]);
    FrontierFrame(s, s', a.p);
    DumpsFrame(s, s', a.p);
    FilesWrite(s, s', phase.records);
    HashFrame(s, s');
  }

  /** The end of a dump moves the frontier on by one block. */
  lemma FrontierFinish(s: State, s': State, p: nat)
    requires Ownership(s) && Frontier(s) && Paced(s) && p in s.phases && PastWrite(s.phases[p])
    requires s'.counter == s.counter && s'.owner == s.owner && s'.raised == s.raised && s'.archived == s.archived
    requires s'.phases == s.phases[p := Idle] && s'.trimmed == s.trimmed + 1000
    ensures Frontier(s')
  {
    assert PhaseFits(s, p, s.phases[p]) && FrontierAt(s, s.phases[p]);
    forall q | q in s'.phases ensures FrontierAt(s', s'.phases[q]) {
      if q != p {
        assert PhaseFits(s, q, s.phases[q]) && FrontierAt(s, s.phases[q]);
      }
    }
  }

  /** No second dump is in flight, so no other phase depends on the frontier. */
  lemma DumpsFinish(s: State, s': State, p: nat)
    requires Ownership(s) && Frontier(s) && p in s.phases && PastWrite(s.phases[p])
    requires s'.phases == s.phases[p := Idle]
    ensures DumpsFit(s')
  {
    assert PhaseFits(s, p, s.phases[p]) && FrontierAt(s, s.phases[p]);
    forall q | q in s'.phases ensures DumpFits(s', s'.phases[q]) {
      if q != p {
        assert PhaseFits(s, q, s.phases[q]) && FrontierAt(s, s.phases[q]);
      }
    }
  }

  lemma DumpsDelete(s: State, s': State, p: nat)
    requires Ownership(s) && Frontier(s) && DumpsFit(s) && p in s.phases && PastWrite(s.phases[p])
    requires p in s'.phases && s'.phases == s.phases[p := s'.phases[p]] && DumpFits(s', s'.phases[p])
    requires s'.trimmed == s.trimmed && s'.payload == s.payload && s'.deleted >= s.deleted
    ensures DumpsFit(s')
  {
    forall q | q in s'.phases ensures DumpFits(s', s'.phases[q]) {
      if q != p {
        assert DumpFits(s, s.phases[q]);
      }
    }
  }

  lemma HashDelete(s: State, s': State, chunk: set<nat>)
    requires HashFits(s) && s'.owner == s.owner && s'.writers == s.writers && s'.payload == s.payload
    requires s'.archived == s.archived && s'.hash == s.hash - chunk && s'.deleted == s.deleted + chunk
    requires forall i :: i in chunk ==> 1 <= i <= s.archived
    requires s'.trimmed == s.trimmed || (forall i :: s.trimmed < i <= s'.trimmed ==> i in s'.deleted)
    ensures HashFits(s')
  {
    forall i ensures i in s'.hash <==> Stored(s', i) && i !in s'.deleted {
      assert Stored(s', i) <==> Stored(s, i);
    }
  }

  /** The two deletion steps: some keys of the block go, and the call ends when none are left. */
  lemma SafeDelete(s: State, s': State, p: nat, chunk: set<nat>, left: set<nat>)
    requires Safe(s) && Paced(s) && p in s.phases && PastWrite(s.phases[p])
    requires forall i :: i in chunk ==> 1 <= i <= s.trimmed + 1000
    requires forall i :: i in left ==> 1 <= i <= s.trimmed + 1000
    requires forall i :: s.trimmed < i <= s.trimmed + 1000 ==> i in s.deleted || i in chunk || i in left
    requires s.phases[p].id >= 1000
    requires s' == Delete(s.(hash := s.hash - chunk, deleted := s.deleted + chunk), p, s.phases[p].id, left)
    ensures Safe(s')
  {
    assert PhaseFits(s, p, s.phases[p]) && FrontierAt(s, s.phases[p]);
    OwnershipQuiet(s, s', p, s'.phases[p]);
    FilesFrame(s, s');
    HashDelete(s, s', chunk);
    if left == {} {
      FrontierFinish(s, s', p);
      DumpsFinish(s, s', p);
    } else {
      FrontierFrame(s, s', p);
      DumpsDelete(s, s', p);
    }
  }

  /** `hkeys` lists the whole block: all of it was stored. */
  lemma ListedBlock(s: State, p: nat)
    requires Ownership(s) && Frontier(s) && HashFits(s) && Paced(s) && p in s.phases && s.phases[p].Listing?
    ensures s.phases[p].id == s.trimmed + 2000
    ensures forall i :: i in s.hash ==> i >= 1
    ensures forall i :: s.trimmed < i <= s.trimmed + 1000 ==> i in s.deleted || i in s.hash
  {
    assert PhaseFits(s, p, s.phases[p]) && FrontierAt(s, s.phases[p]);
    forall i | s.trimmed < i <= s.trimmed + 1000 ensures i in s.deleted || i in s.hash {
      StoredBehind(s, i);
    }
    forall i | i in s.hash ensures i >= 1 {
      assert Stored(s, i);
    }
  }

  lemma SafeHKeys(s: State, a: Action)
    requires Safe(s) && Paced(s) && Enabled(s, a) && a.HKeys?
    ensures Safe(Step(s, a))
  {
    ListedBlock(s, a.p);
    var id := s.phases[a.p].id;
    var left := OldKeys(s.hash, id - 1000);
    var s0 := s.(hash := s.hash - {}, deleted := s.deleted + {});
    assert s0 == s;
    assert Step(s, a) == Delete(s0, a.p, id, left);
    SafeDelete(s, Step(s, a), a.p, {}, left);
  }

  lemma SafeHDel(s: State, a: Action)
    requires Safe(s) && Paced(s) && Enabled(s, a) && a.HDel?
    ensures Safe(Step(s, a))
  {
    var phase := PhaseOf(s, a.p);
    assert PhaseFits(s, a.p, phase) && FrontierAt(s, phase) && DumpFits(s, phase);
    SafeDelete(s, Step(s, a), a.p, a.chunk, phase.left - a.chunk);
  }

  lemma SafeStep(s: State, a: Action)
    requires Safe(s) && Paced(s) && Enabled(s, a) && Paced(Step(s, a))
    ensures Safe(Step(s, a))
  {
    match a
    case Incr(_, _) => SafeIncr(s, a);
    case HSet(_) => SafeHSet(s, a);
    case HGet(_) => SafeHGet(s, a);
    case WriteBlock(_) => SafeWrite(s, a);
    case HKeys(_) => SafeHKeys(s, a);
    case HDel(_, _) => SafeHDel(s, a);
  }

  lemma {:induction false} SafeAlways(actions: seq<Action>)
    requires PacedRun(actions)
    ensures Safe(Run(actions).value)
  {
    if actions != [] {
      var before := actions[..|actions| - 1];
      SafeAlways(before);
      SafeStep(Run(before).value, actions[|actions| - 1]);
    }
  }

  /** In a paced run no dump ever misses a record. */
  lemma PacedNeverRaises(actions: seq<Action>)
    requires PacedRun(actions)
    ensures Run(actions).value.raised == {}
  {
    SafeAlways(actions);
  }

  // ----- what paced runs mean -----

  function BlockOf(id: nat): nat
    requires id >= 1
  {
    ((id - 1) / 1000 + 1) * 1000
  }

  /** The record of an id is still to be stored, or can be read from the hash or from its block. */
  ghost predicate Kept(s: State, id: nat)
    requires id >= 1
  {
    id in s.payload &&
    (|| IsStoring(s, id)
     || (id in s.hash && s.hash[id] == s.payload[id])
     || InBlock(s, id))
  }

  ghost predicate InBlock(s: State, id: nat)
    requires id >= 1 && id in s.payload
  {
    var b := BlockOf(id);
    b in s.files && |s.files[b]| == 1000 && s.files[b][(id - 1) % 1000] == s.payload[id]
  }

  lemma BlockBounds(id: nat, top: nat)
    requires 1 <= id <= top && top % 1000 == 0
    ensures var b := BlockOf(id);
            b % 1000 == 0 && 1000 <= b <= top && b - 1000 < id <= b && id - (b - 1000) - 1 == (id - 1) % 1000
  {
  }

  lemma ArchivedInBlock(s: State, id: nat)
    requires Frontier(s) && FilesFit(s) && 1 <= id <= s.archived && id in s.payload
    ensures InBlock(s, id)
  {
    var b := BlockOf(id);
    BlockBounds(id, s.archived);
    assert b in s.files;
    assert Matches(s.payload, b - 1000, s.files[b]);
  }

  lemma SafeKeeps(s: State, id: nat)
    requires Safe(s) && 1 <= id <= s.counter
    ensures Kept(s, id)
  {
    assert Stored(s, id) || IsStoring(s, id);
    if id in s.deleted {
      ArchivedInBlock(s, id);
    }
  }

  /** No record is lost at any moment of a paced run. */
  lemma RecordsConserved(actions: seq<Action>, id: nat)
    requires PacedRun(actions) && 1 <= id <= Run(actions).value.counter
    ensures Kept(Run(actions).value, id)
  {
    SafeAlways(actions);
    SafeKeeps(Run(actions).value, id);
  }

  /** The records of a run, in the order of their ids. */
  function Records(s: State): seq<string>
    requires forall id :: 1 <= id <= s.counter ==> id in s.payload
  {
    seq(s.counter, k requires 0 <= k < s.counter => s.payload[k + 1])
  }

  /** The hash and the archive of one process that logged the same records. */
  ghost predicate SequentialImage(s: State)
  {
    && (forall id :: 1 <= id <= s.counter ==> id in s.payload && s.payload[id] != "")
    && var records, m := Records(s), LogWindow.Dumps(s.counter);
    && s.hash == LogWindow.Held(records, m * 1000)
    && (forall b :: b in s.files <==> b % 1000 == 0 && 1000 <= b <= m * 1000)
    && (forall k: nat :: k < m ==> LogWindow.Block(records, k).stopId in s.files)
    && (forall k: nat :: k < m ==>
          s.files[LogWindow.Block(records, k).stopId] == LogWindow.Block(records, k).records)
  }

  lemma QuietHash(s: State, m: nat)
    requires Safe(s) && s.trimmed == s.archived == m * 1000
    requires forall p :: p in s.phases ==> s.phases[p].Idle?
    ensures s.hash == LogWindow.Held(Records(s), m * 1000)
  {
    forall id ensures id in s.hash <==> m * 1000 < id <= s.counter {
      if 1 <= id <= s.counter {
        assert Stored(s, id) || IsStoring(s, id);
      }
    }
  }

  lemma QuietBlock(s: State, k: nat)
    requires Ownership(s) && FilesFit(s) && (k + 1) * 1000 <= s.archived <= s.counter
    ensures (k + 1) * 1000 in s.files
    ensures s.files[(k + 1) * 1000] == LogWindow.Block(Records(s), k).records
  {
    var b := (k + 1) * 1000;
    assert b % 1000 == 0;
    assert Matches(s.payload, b - 1000, s.files[b]);
  }

  lemma QuietFrontier(s: State)
    requires Frontier(s) && forall p :: p in s.phases ==> s.phases[p].Idle?
    ensures s.trimmed == s.archived == LogWindow.Dumps(s.counter) * 1000 <= s.counter
  {
    assert !InFlight(s, s.trimmed + 2000);
  }

  lemma QuietIsSequential(s: State)
    requires Safe(s) && forall p :: p in s.phases ==> s.phases[p].Idle?
    ensures SequentialImage(s)
  {
    var m := LogWindow.Dumps(s.counter);
    QuietFrontier(s);
    QuietHash(s, m);
    forall k: nat | k < m
      ensures LogWindow.Block(Records(s), k).stopId in s.files
      ensures s.files[LogWindow.Block(Records(s), k).stopId] == LogWindow.Block(Records(s), k).records
    {
      QuietBlock(s, k);
    }
  }

  /**
   When no call is in flight, a paced run of many processes has left exactly what one process logging the same
   records would have: the hash of `LogWindow`, and every block it has to archive.
   */
  lemma QuiescentIsSequential(actions: seq<Action>)
    requires PacedRun(actions)
    requires forall p :: p in Run(actions).value.phases ==> Run(actions).value.phases[p].Idle?
    ensures SequentialImage(Run(actions).value)
  {
    SafeAlways(actions);
    QuietIsSequential(Run(actions).value);
  }

  // ----- ids over a run -----

  /** The counter at the end of a run. */
  function Counter(actions: seq<Action>): nat
    requires Run(actions).Some?
  {
    Run(actions).value.counter
  }

  lemma CounterStep(s: State, a: Action)
    requires Enabled(s, a)
    ensures Step(s, a).counter == s.counter + (if a.Incr? then 1 else 0)
  {
  }

  lemma CounterNext(actions: seq<Action>, a: Action)
    requires Run(actions + [a]).Some?
    ensures Run(actions).Some? && Counter(actions + [a]) == Counter(actions) + (if a.Incr? then 1 else 0)
  {
    assert (actions + [a])[..|actions|] == actions;
    CounterStep(Run(actions).value, a);
  }

  lemma {:induction false} CounterGrows(actions: seq<Action>, more: seq<Action>)
    requires Run(actions + more).Some?
    ensures Run(actions).Some? && Counter(actions) <= Counter(actions + more)
    decreases |more|
  {
    if more == [] {
      assert actions + more == actions;
    } else {
      var k := |more| - 1;
      assert actions + more == (actions + more[..k]) + [more[k]];
      CounterNext(actions + more[..k], more[k]);
      CounterGrows(actions, more[..k]);
    }
  }

  /** Two calls never get the same id: the id handed out is the counter right after the incr. */
  lemma IdsDistinct(first: seq<Action>, a: Action, between: seq<Action>, b: Action)
    requires a.Incr? && b.Incr? && Run(first + [a] + between + [b]).Some?
    ensures Run(first + [a]).Some?
    ensures Counter(first + [a]) < Counter(first + [a] + between + [b])
  {
    CounterNext(first + [a] + between, b);
    CounterGrows(first + [a], between);
  }

  /** Whoever stores a multiple of 1000 from 2000 up dumps it, and nobody else does. */
  lemma OneDumper(actions: seq<Action>, id: nat)
    requires Run(actions).Some? && Stored(Run(actions).value, id)
    ensures var s := Run(actions).value;
            forall p :: (id, p) in s.dumpers <==> LogWindow.DumpsAt(id) && p == s.owner[id]
    ensures var s := Run(actions).value;
            forall p :: (id, p) in s.writers <==> p == s.owner[id]
  {
    OwnershipAlways(actions);
  }
}
