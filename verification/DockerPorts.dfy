/**
 Port ranges of containers: the registry of the factory, the config files on disk, and what `container_get` and
 `container_delete` do to them, error paths included. `busy(port)` stands for the connection test of a host port.

 A registered container has no config yet (its constructor raised before), or a config whose port range is an index or
 None. A config file holds an index, or the text "None" that saving a container without a port range leaves behind.
 */
module DockerPorts {
  import opened Results

  datatype Container = NoConfig | Configured(portrange: Option<int>)

  datatype Factory = Factory(dockers: map<string, Container>, disk: map<string, Option<int>>)

  datatype Error =
    | BadName         // assert len(name) > 3
    | SharedName      // "should never be the shared obj"
    | NoPortRange     // "cannot find tcp port range for docker"
    | NotAnInt        // assert isinstance(self.portrange, int)
    | NoAttribute     // a registered container without a config

  // ----- allocation -----

  /** The indices of all registered containers but one. */
  function Taken(dockers: map<string, Container>, name: string): set<int>
  {
    set n | n in dockers && n != name && dockers[n].Configured? && dockers[n].portrange.Some?
      :: dockers[n].portrange.value
  }

  /** A container's own entry is not counted. */
  lemma TakenByOthers(dockers: map<string, Container>, name: string, c: Container)
    ensures Taken(dockers[name := c], name) == Taken(dockers, name)
  {
    var after := dockers[name := c];
    forall i | i in Taken(dockers, name) ensures i in Taken(after, name) {
      var n :| n in dockers && n != name && dockers[n].Configured? && dockers[n].portrange == Some(i);
      assert n in after && after[n] == dockers[n];
    }
    forall i | i in Taken(after, name) ensures i in Taken(dockers, name) {
      var n :| n in after && n != name && after[n].Configured? && after[n].portrange == Some(i);
      assert n in dockers && dockers[n] == after[n];
    }
  }

  predicate Free(i: int, taken: set<int>, busy: int -> bool)
  {
    i !in taken && !busy(9000 + i * 10)
  }

  /** The first free index from `i` up to 49. */
  function LeastFree(taken: set<int>, busy: int -> bool, i: nat): Option<int>
    decreases 50 - i
  {
    if i >= 50 then None else if Free(i, taken, busy) then Some(i) else LeastFree(taken, busy, i + 1)
  }

  lemma {:induction false} LeastFreeIsLeast(taken: set<int>, busy: int -> bool, i: nat)
    ensures match LeastFree(taken, busy, i)
            case Some(r) => i <= r < 50 && Free(r, taken, busy) && forall j :: i <= j < r ==> !Free(j, taken, busy)
            case None => forall j :: i <= j < 50 ==> !Free(j, taken, busy)
    decreases 50 - i
  {
    if i < 50 && !Free(i, taken, busy) {
      LeastFreeIsLeast(taken, busy, i + 1);
    }
  }

  predicate AllHaveConfig(dockers: map<string, Container>)
  {
    forall n :: n in dockers ==> dockers[n].Configured?
  }

  // ----- the operations -----

  function Register(f: Factory, name: string, c: Container): Factory
  {
    f.(dockers := f.dockers[name := c])
  }

  /** `DockerContainer(name)`: registered before anything can fail. */
  function Construct(f: Factory, name: string, busy: int -> bool): (Factory, Result<Option<int>, Error>)
  {
    if name == "shared" then (f, Err(SharedName))
    else if name in f.disk then
      if f.disk[name].Some? then (Register(f, name, Configured(f.disk[name])), Ok(f.disk[name]))
      else (Register(f, name, NoConfig), Err(NotAnInt))
    else
      var f' := Register(f, name, Configured(None));
      if !AllHaveConfig(f'.dockers) then (f', Err(NoAttribute))
      else
        match LeastFree(Taken(f'.dockers, name), busy, 0)
        case Some(i) => (Register(f', name, Configured(Some(i))).(disk := f'.disk[name := Some(i)]), Ok(Some(i)))
        case None => (f', Err(NoPortRange))
  }

  /** `docker.delete()`: off the disk and out of the registry. */
  function Drop(f: Factory, name: string): Factory
  {
    Factory(f.dockers - {name}, f.disk - {name})
  }

  function Get(f: Factory, name: string, delete: bool, busy: int -> bool): (Factory, Result<Option<int>, Error>)
  {
    if |name| <= 3 then (f, Err(BadName))
    else if name in f.dockers && f.dockers[name].NoConfig? then (f, Err(NoAttribute))
    else if name in f.dockers && delete then
      // the retained config is saved again, which brings the deleted file back
      var portrange := f.dockers[name].portrange;
      var f' := Drop(f, name).(disk := f.disk[name := portrange]);
      if portrange == None then (f', Err(NotAnInt)) else Construct(f', name, busy)
    else if name in f.dockers then (f, Ok(f.dockers[name].portrange))
    else Construct(f, name, busy)
  }

  function Delete(f: Factory, name: string): (Factory, Option<Error>)
  {
    if |name| <= 3 then (f, Some(BadName))
    else if name !in f.dockers then (f, None)
    else if f.dockers[name].NoConfig? then (f, Some(NoAttribute))
    else (Drop(f, name), None)
  }

  // ----- whole runs -----

  datatype Op = GetOp(name: string, delete: bool, busy: int -> bool) | DeleteOp(name: string)

  function Apply(f: Factory, op: Op): Factory
  {
    match op
    case GetOp(name, delete, busy) => Get(f, name, delete, busy).0
    case DeleteOp(name) => Delete(f, name).0
  }

  function ApplyAll(f: Factory, ops: seq<Op>): Factory
  {
    if ops == [] then f else Apply(ApplyAll(f, ops[..|ops| - 1]), ops[|ops| - 1])
  }

  predicate Indexed(c: Container)
  {
    c.Configured? && c.portrange.Some?
  }

  ghost predicate Distinct(f: Factory)
  {
    forall m, n :: m in f.dockers && n in f.dockers && m != n && Indexed(f.dockers[m]) && Indexed(f.dockers[n]) ==>
      f.dockers[m].portrange != f.dockers[n].portrange
  }

  /** Registry and files name the same indices for the same containers. */
  ghost predicate Mirrored(f: Factory)
  {
    && (forall n :: n in f.dockers && Indexed(f.dockers[n]) ==> n in f.disk && f.disk[n] == f.dockers[n].portrange)
    && (forall n :: n in f.disk && f.disk[n].Some? ==> n in f.dockers && f.dockers[n] == Configured(f.disk[n]))
  }

  ghost predicate InRange(f: Factory)
  {
    forall n :: n in f.dockers && Indexed(f.dockers[n]) ==> 0 <= f.dockers[n].portrange.value < 50
  }

  /** All configured containers are loaded, with distinct indices below fifty. */
  ghost predicate Loaded(f: Factory)
  {
    Distinct(f) && Mirrored(f) && InRange(f)
  }

  lemma DropLoaded(f: Factory, name: string)
    requires Loaded(f)
    ensures Loaded(Drop(f, name))
  {
  }

  /** A new index is none of those in use. */
  lemma AllocateLoaded(f: Factory, name: string, i: int)
    requires Loaded(f) && 0 <= i < 50 && i !in Taken(f.dockers, name)
    ensures Loaded(Factory(f.dockers[name := Configured(Some(i))], f.disk[name := Some(i)]))
  {
    forall n | n in f.dockers && n != name && Indexed(f.dockers[n]) ensures f.dockers[n].portrange.value != i {
      assert f.dockers[n].portrange.value in Taken(f.dockers, name);
    }
  }

  lemma ConstructLoaded(f: Factory, name: string, busy: int -> bool)
    requires Loaded(f) && name !in f.dockers
    ensures Loaded(Construct(f, name, busy).0)
  {
    UnindexedLoaded(f, name, NoConfig);
    UnindexedLoaded(f, name, Configured(None));
    if name != "shared" && name !in f.disk {
      var f' := Register(f, name, Configured(None));
      TakenByOthers(f.dockers, name, Configured(None));
      LeastFreeIsLeast(Taken(f.dockers, name), busy, 0);
      var index := LeastFree(Taken(f.dockers, name), busy, 0);
      if index.Some? {
        AllocateLoaded(f, name, index.value);
        assert f'.dockers[name := Configured(index)] == f.dockers[name := Configured(index)];
      }
    }
  }

  /** Registering a container without an index changes nothing that counts. */
  lemma UnindexedLoaded(f: Factory, name: string, c: Container)
    requires Loaded(f) && name !in f.dockers && !Indexed(c)
    ensures Loaded(Register(f, name, c))
  {
  }

  /** Deleting with recreation is no change at all: the container keeps its index. */
  lemma RecreateKeepsIndex(f: Factory, name: string, busy: int -> bool)
    requires Mirrored(f) && |name| > 3 && name != "shared" && name in f.dockers && Indexed(f.dockers[name])
    ensures Get(f, name, true, busy) == (f, Ok(f.dockers[name].portrange))
  {
    var f' := Drop(f, name).(disk := f.disk[name := f.dockers[name].portrange]);
    assert f'.disk == f.disk;
    assert f'.dockers[name := f.dockers[name]] == f.dockers;
  }

  lemma GetLoaded(f: Factory, name: string, delete: bool, busy: int -> bool)
    requires Loaded(f) && "shared" !in f.dockers
    ensures Loaded(Get(f, name, delete, busy).0) && "shared" !in Get(f, name, delete, busy).0.dockers
  {
    if |name| > 3 {
      if name !in f.dockers {
        ConstructLoaded(f, name, busy);
      } else if f.dockers[name].Configured? && delete {
        if f.dockers[name].portrange == None {
          DropLoaded(f, name);
        } else {
          RecreateKeepsIndex(f, name, busy);
        }
      }
    }
  }

  /** Over every run of creates, deletes and recreations the indices stay distinct and below fifty. */
  lemma {:induction false} RunLoaded(f: Factory, ops: seq<Op>)
    requires Loaded(f) && "shared" !in f.dockers
    ensures Loaded(ApplyAll(f, ops)) && "shared" !in ApplyAll(f, ops).dockers
  {
    if ops != [] {
      var before, op := ApplyAll(f, ops[..|ops| - 1]), ops[|ops| - 1];
      RunLoaded(f, ops[..|ops| - 1]);
      match op
      case GetOp(name, delete, busy) => GetLoaded(before, name, delete, busy);
      case DeleteOp(name) => DropLoaded(before, name);
    }
  }

  // ----- what a new container gets -----

  predicate IsNew(f: Factory, name: string)
  {
    |name| > 3 && name != "shared" && name !in f.dockers && name !in f.disk
  }

  /** The index is the least one that no other container has and no server answers on. */
  lemma NewIndexIsLeast(f: Factory, name: string, delete: bool, busy: int -> bool)
    requires IsNew(f, name) && Get(f, name, delete, busy).1.Ok?
    ensures var (f', r) := Get(f, name, delete, busy);
            && r.value.Some? && 0 <= r.value.value < 50
            && Free(r.value.value, Taken(f.dockers, name), busy)
            && (forall j :: 0 <= j < r.value.value ==> !Free(j, Taken(f.dockers, name), busy))
            && f' == Factory(f.dockers[name := Configured(r.value)], f.disk[name := r.value])
  {
    var f' := Register(f, name, Configured(None));
    TakenByOthers(f.dockers, name, Configured(None));
    LeastFreeIsLeast(Taken(f.dockers, name), busy, 0);
    var c := Configured(LeastFree(Taken(f.dockers, name), busy, 0));
    assert f.dockers[name := Configured(None)][name := c] == f.dockers[name := c];
  }

  /** Creation fails exactly when all fifty indices are taken or answering, or a registered container has no config. */
  lemma NewFailsIff(f: Factory, name: string, delete: bool, busy: int -> bool)
    requires IsNew(f, name)
    ensures Get(f, name, delete, busy).1.Err?
       <==> !AllHaveConfig(f.dockers) || forall i :: 0 <= i < 50 ==> !Free(i, Taken(f.dockers, name), busy)
  {
    var f' := Register(f, name, Configured(None));
    TakenByOthers(f.dockers, name, Configured(None));
    LeastFreeIsLeast(Taken(f.dockers, name), busy, 0);
    assert AllHaveConfig(f'.dockers) <==> AllHaveConfig(f.dockers) by {
      forall n | n in f.dockers ensures f'.dockers[n] == f.dockers[n] {
      }
    }
  }

  /**
   A deleted container is gone from registry and disk, no other one changes, and its index is free again: as long as no
   server answers on it, a new container gets that index or a lower one.
   */
  lemma DeletedIndexIsReused(f: Factory, name: string, other: string, busy: int -> bool)
    requires Loaded(f) && AllHaveConfig(f.dockers)
    requires |name| > 3 && name in f.dockers && Indexed(f.dockers[name])
    ensures var (f', error) := Delete(f, name);
            && error == None && name !in f'.dockers && name !in f'.disk
            && (forall n :: n != name ==> (n in f'.dockers <==> n in f.dockers) && (n in f'.disk <==> n in f.disk))
            && (forall n :: n in f'.dockers ==> f'.dockers[n] == f.dockers[n])
            && (forall n :: n in f'.disk ==> f'.disk[n] == f.disk[n])
    ensures var i, f' := f.dockers[name].portrange.value, Delete(f, name).0;
            IsNew(f', other) && !busy(9000 + i * 10) ==>
              (var r := Get(f', other, false, busy).1; r.Ok? && r.value.Some? && r.value.value <= i)
  {
    var i, f' := f.dockers[name].portrange.value, Delete(f, name).0;
    if IsNew(f', other) && !busy(9000 + i * 10) {
      assert i !in Taken(f'.dockers, other);
      assert Free(i, Taken(f'.dockers, other), busy);
      NewFailsIff(f', other, false, busy);
      NewIndexIsLeast(f', other, false, busy);
    }
  }

  // ----- what every call answers -----

  /**
   Whatever is answered is the port range the container has in the registry from then on: its own when it was
   registered, the one on disk when it was only there. With everything loaded it is on disk too.
   */
  lemma GetAnswers(f: Factory, name: string, delete: bool, busy: int -> bool)
    requires Get(f, name, delete, busy).1.Ok?
    ensures var (f', r) := Get(f, name, delete, busy);
            && name in f'.dockers && f'.dockers[name] == Configured(r.value)
            && (name in f.dockers ==> f.dockers[name] == Configured(r.value))
            && (name !in f.dockers && name in f.disk ==> f.disk[name] == r.value)
            && (Loaded(f) && r.value.Some? ==> name in f'.disk && f'.disk[name] == r.value)
  {
  }

  /** No call touches another container. */
  lemma GetFrame(f: Factory, name: string, delete: bool, busy: int -> bool, other: string)
    requires other != name
    ensures var f' := Get(f, name, delete, busy).0;
            && (other in f'.dockers <==> other in f.dockers) && (other in f'.disk <==> other in f.disk)
            && (other in f.dockers ==> f'.dockers[other] == f.dockers[other])
            && (other in f.disk ==> f'.disk[other] == f.disk[other])
  {
  }

  /** Which error comes when. */
  lemma GetErrors(f: Factory, name: string, delete: bool, busy: int -> bool)
    ensures var r, long := Get(f, name, delete, busy).1, |name| > 3;
            var known, stored := name in f.dockers, name in f.disk;
            && (r == Err(BadName) <==> !long)
            && (r == Err(SharedName) <==>
                  long && name == "shared" && (!known || (delete && Indexed(f.dockers[name]))))
            && (r == Err(NotAnInt) <==>
                  && long
                  && (if known then delete && f.dockers[name] == Configured(None)
                      else name != "shared" && stored && f.disk[name] == None))
            && (r == Err(NoAttribute) <==>
                  long && (if known then f.dockers[name] == NoConfig else IsNew(f, name) && !AllHaveConfig(f.dockers)))
            && (r == Err(NoPortRange) <==>
                  && IsNew(f, name) && AllHaveConfig(f.dockers)
                  && forall i :: 0 <= i < 50 ==> !Free(i, Taken(f.dockers, name), busy))
  {
    if IsNew(f, name) {
      NewFailsIff(f, name, delete, busy);
      assert AllHaveConfig(Register(f, name, Configured(None)).dockers) <==> AllHaveConfig(f.dockers) by {
        forall n | n in f.dockers ensures Register(f, name, Configured(None)).dockers[n] == f.dockers[n] || n == name {
        }
      }
    }
  }

  /** What a failed call leaves of its container: a name too short leaves everything, the others leave it half made. */
  lemma GetErrorEffects(f: Factory, name: string, delete: bool, busy: int -> bool)
    requires Get(f, name, delete, busy).1.Err?
    ensures var (f', r) := Get(f, name, delete, busy);
            && (r == Err(BadName) || (name in f.dockers && f.dockers[name].NoConfig?) ==> f' == f)
            && (IsNew(f, name) ==> f' == Factory(f.dockers[name := Configured(None)], f.disk))
            && (r == Err(NotAnInt) && name !in f.dockers ==> f' == Factory(f.dockers[name := NoConfig], f.disk))
            && (r == Err(NotAnInt) && name in f.dockers ==> f' == Factory(f.dockers - {name}, f.disk[name := None]))
  {
  }

  /** Deleting takes the container off registry and disk, and nothing else; refused or absent, it changes nothing. */
  lemma DeleteAnswers(f: Factory, name: string)
    ensures var (f', error) := Delete(f, name);
            && (error == Some(BadName) <==> |name| <= 3)
            && (error == Some(NoAttribute) <==> |name| > 3 && name in f.dockers && f.dockers[name] == NoConfig)
            && (error == None || error == Some(BadName) || error == Some(NoAttribute))
            && (error.Some? || name !in f.dockers ==> f' == f)
            && (error == None && name in f.dockers ==>
                  && f'.dockers.Keys == f.dockers.Keys - {name} && f'.disk.Keys == f.disk.Keys - {name}
                  && (forall n :: n in f'.dockers ==> f'.dockers[n] == f.dockers[n])
                  && (forall n :: n in f'.disk ==> f'.disk[n] == f.disk[n]))
  {
  }

  /** Every registered container has its index, and every file holds one. */
  ghost predicate Healthy(f: Factory)
  {
    && Loaded(f) && "shared" !in f.dockers
    && (forall n :: n in f.dockers ==> Indexed(f.dockers[n]))
    && (forall n :: n in f.disk ==> f.disk[n].Some?)
  }

  /** A get keeps the factory healthy exactly when it does not run out of indices. */
  lemma GetHealthyIff(f: Factory, name: string, delete: bool, busy: int -> bool)
    requires Healthy(f)
    ensures Healthy(Get(f, name, delete, busy).0) <==> Get(f, name, delete, busy).1 != Err(NoPortRange)
  {
    GetLoaded(f, name, delete, busy);
    if |name| > 3 && name in f.dockers && delete {
      RecreateKeepsIndex(f, name, busy);
    }
  }

  /** No get of the run runs out of indices. */
  ghost predicate NeverExhausted(f: Factory, ops: seq<Op>)
  {
    ops == [] ||
    (var before, op := ops[..|ops| - 1], ops[|ops| - 1];
     && NeverExhausted(f, before)
     && (op.GetOp? ==> Get(ApplyAll(f, before), op.name, op.delete, op.busy).1 != Err(NoPortRange)))
  }

  /** A run that never runs out of indices leaves no container without one. */
  lemma {:induction false} RunHealthy(f: Factory, ops: seq<Op>)
    requires Healthy(f) && NeverExhausted(f, ops)
    ensures Healthy(ApplyAll(f, ops))
  {
    if ops != [] {
      var before, op := ApplyAll(f, ops[..|ops| - 1]), ops[|ops| - 1];
      RunHealthy(f, ops[..|ops| - 1]);
      match op
      case GetOp(name, delete, busy) => GetHealthyIff(before, name, delete, busy);
      case DeleteOp(name) => DropLoaded(before, name);
    }
  }

  /**
   A failed creation can spread. When the fifty indices run out for `name`, recreating it writes "None" to its file;
   getting it again then leaves a container without config in the registry, and from there no new container can be
   created at all, free indices or not.
   */
  lemma FailureSpreads(f: Factory, name: string, other: string, full: int -> bool, busy: int -> bool)
    requires AllHaveConfig(f.dockers) && IsNew(f, name) && IsNew(f, other) && other != name
    requires Get(f, name, false, full).1 == Err(NoPortRange)
    ensures var f1 := Get(f, name, false, full).0;
            var (f2, r2) := Get(f1, name, true, busy);
            var (f3, r3) := Get(f2, name, false, busy);
            && r2 == Err(NotAnInt) && r3 == Err(NotAnInt)
            && IsNew(f3, other) && Get(f3, other, false, busy).1 == Err(NoAttribute)
  {
    var f1 := Get(f, name, false, full).0;
    var f2 := Get(f1, name, true, busy).0;
    var f3 := Get(f2, name, false, busy).0;
    assert f3.dockers[name] == NoConfig;
    assert Register(f3, other, Configured(None)).dockers[name] == NoConfig;
  }

  // ----- the ports of an index -----

  datatype HostPort = Tcp(n: int) | Udp(n: int)

  /** The host ports that `load` maps for an index: 8005-8009, http, notebook, https, udp and ssh. */
  function HostPorts(i: int): seq<HostPort>
  {
    [Tcp(9005 + i * 10), Tcp(9006 + i * 10), Tcp(9007 + i * 10), Tcp(9008 + i * 10), Tcp(9009 + i * 10),
     Tcp(7000 + i * 10), Tcp(5000 + i * 10), Tcp(4000 + i * 10), Udp(9001 + i * 10), Tcp(9000 + i * 10)]
  }

  /** The ports of a container: ssh comes in on the one that was probed. */
  lemma PortsOfIndex(i: int, p: int)
    ensures Tcp(9000 + i * 10) in HostPorts(i)
    ensures Tcp(p) in HostPorts(i) <==> p - i * 10 in {4000, 5000, 7000, 9000} || 9005 <= p - i * 10 <= 9009
    ensures Udp(p) in HostPorts(i) <==> p == 9001 + i * 10
  {
    assert HostPorts(i)[9] == Tcp(9000 + i * 10);
  }

  lemma PortsWithinContainer(i: int, a: nat, b: nat)
    requires a < b < 10
    ensures HostPorts(i)[a] != HostPorts(i)[b]
  {
  }

  lemma PortsOfTwo(i: int, j: int, a: nat, b: nat)
    requires 0 <= i < j < 100 && a < 10 && b < 10
    ensures HostPorts(i)[a] != HostPorts(j)[b]
  {
  }

  /** Two containers never share a host port exactly when there are at most a hundred indices; the code has fifty. */
  lemma PortsDisjointIff(bound: nat)
    ensures (forall i, j, a, b :: 0 <= i < j < bound && 0 <= a < 10 && 0 <= b < 10 ==>
               HostPorts(i)[a] != HostPorts(j)[b])
       <==> bound <= 100
  {
    if bound <= 100 {
      forall i, j, a: int, b: int | 0 <= i < j < bound && 0 <= a < 10 && 0 <= b < 10
        ensures HostPorts(i)[a] != HostPorts(j)[b]
      {
        PortsOfTwo(i, j, a, b);
      }
    } else {
      assert HostPorts(0)[6] == HostPorts(100)[7];
    }
  }
}
