/** The container factory as an object: its registry and the config files, changed by `container_get` and the rest. */
module DockerFactoryCode {
  import opened DockerPorts
  import opened Results

  class DockerFactory {
    var dockers: map<string, Container>
    var disk: map<string, Option<int>>

    constructor (dockers: map<string, Container>, disk: map<string, Option<int>>)
      ensures Value() == Factory(dockers, disk)
    {
      this.dockers, this.disk := dockers, disk;
    }

    function Value(): Factory
      reads this
    {
      Factory(dockers, disk)
    }

    /** The loop that collects the port ranges of the other containers; one without a config stops it. */
    method ExistingPorts(name: string) returns (r: Result<seq<Option<int>>, Error>)
      requires name in dockers && dockers[name].Configured?
      ensures r.Ok? <==> AllHaveConfig(dockers)
      ensures r.Ok? ==> forall i :: Some(i) in r.value <==> i in Taken(dockers, name)
      ensures r.Err? ==> r == Err(NoAttribute)
    {
      var existing: seq<Option<int>> := [];
      var todo := dockers.Keys;
      while todo != {}
        invariant todo <= dockers.Keys
        invariant forall n :: n in dockers && n !in todo ==> dockers[n].Configured?
        invariant forall n :: n in dockers && n !in todo && n != name ==> dockers[n].portrange in existing
        invariant forall p :: p in existing ==> HeldByOther(dockers, name, p)
        decreases todo
      {
        var n :| n in todo;
        if dockers[n].NoConfig? {
          return Err(NoAttribute);
        }
        todo := todo - {n};
        if n != name && dockers[n].portrange !in existing {
          assert HeldByOther(dockers, name, dockers[n].portrange);
          existing := existing + [dockers[n].portrange];
        }
      }
      forall i ensures Some(i) in existing <==> i in Taken(dockers, name) {
        if Some(i) in existing {
          assert HeldByOther(dockers, name, Some(i));
        }
      }
      r := Ok(existing);
    }

    /** `_find_port_range` of the container that was just registered. */
    method FindPortRange(name: string, busy: int -> bool) returns (r: Result<int, Error>)
      requires name in dockers && dockers[name].Configured?
      ensures AllHaveConfig(dockers) ==>
                r == match LeastFree(Taken(dockers, name), busy, 0)
                     case Some(i) => Ok(i)
                     case None => Err(NoPortRange)
      ensures !AllHaveConfig(dockers) ==> r == Err(NoAttribute)
    {
      var existing := ExistingPorts(name);
      if existing.Err? {
        return Err(existing.error);
      }
      var i := 0;
      while i < 50
        invariant 0 <= i <= 50
        invariant LeastFree(Taken(dockers, name), busy, 0) == LeastFree(Taken(dockers, name), busy, i)
      {
        if Some(i) !in existing.value {
          var port := 9000 + i * 10;
          if !busy(port) {
            return Ok(i);
          }
        }
        i := i + 1;
      }
      r := Err(NoPortRange);
    }

    /** `DockerContainer.__init__`, with the config it makes or loads. */
    method NewContainer(name: string, busy: int -> bool) returns (r: Result<Option<int>, Error>)
      modifies this
      ensures (Value(), r) == Construct(old(Value()), name, busy)
    {
      if name == "shared" {
        return Err(SharedName);
      }
      dockers := dockers[name := NoConfig];
      if name in disk {
        if disk[name] == None {
          return Err(NotAnInt);
        }
        dockers := dockers[name := Configured(disk[name])];
        assert dockers == old(dockers)[name := Configured(disk[name])];
        return Ok(disk[name]);
      }
      dockers := dockers[name := Configured(None)];
      assert dockers == old(dockers)[name := Configured(None)];
      var found := FindPortRange(name, busy);
      if found.Err? {
        return Err(found.error);
      }
      dockers := dockers[name := Configured(Some(found.value))];
      disk := disk[name := Some(found.value)];
      r := Ok(Some(found.value));
    }

    method ContainerGet(name: string, delete: bool, busy: int -> bool) returns (r: Result<Option<int>, Error>)
      modifies this
      ensures (Value(), r) == Get(old(Value()), name, delete, busy)
    {
      if |name| <= 3 {
        return Err(BadName);
      }
      if delete && name in dockers {
        if dockers[name].NoConfig? {
          return Err(NoAttribute);
        }
        var portrange := dockers[name].portrange;
        disk := disk - {name};
        dockers := dockers - {name};
        disk := disk[name := portrange];
        assert disk == old(disk)[name := portrange];
        if portrange == None {
          return Err(NotAnInt);
        }
      }
      if name in dockers {
        if dockers[name].NoConfig? {
          return Err(NoAttribute);
        }
        return Ok(dockers[name].portrange);
      }
      r := NewContainer(name, busy);
    }

    method ContainerDelete(name: string) returns (error: Option<Error>)
      modifies this
      ensures (Value(), error) == Delete(old(Value()), name)
    {
      if |name| <= 3 {
        return Some(BadName);
      }
      if name in dockers {
        if dockers[name].NoConfig? {
          return Some(NoAttribute);
        }
        disk := disk - {name};
        dockers := dockers - {name};
      }
      error := None;
    }
  }

  /** Some container other than `name` has this port range. */
  ghost predicate HeldByOther(dockers: map<string, Container>, name: string, p: Option<int>)
  {
    exists n :: n in dockers && n != name && dockers[n].Configured? && dockers[n].portrange == p
  }
}
