/** The environment object that owns the install state, its methods writing memory and file in place. */
module MyEnvironment {
  import opened CharTables
  import opened Config
  import opened ConfigCode
  import opened InstallState
  import opened Results
  import opened Stripping

  class MyEnv {
    /** The character data that upper-casing keys goes by. */
    const u: Unicode
    const readonly: bool
    var state: seq<Entry>
    /** The state file: absent, or its text. */
    var file: Option<string>

    constructor (u: Unicode, readonly: bool, file: Option<string>)
      ensures Value() == Env([], file, readonly)
    {
      this.u, this.readonly := u, readonly;
      this.state, this.file := [], file;
    }

    function Value(): Env
      reads this
    {
      Env(state, file, readonly)
    }

    method StateLoad() returns (r: Result<(), Error>)
      modifies this
      ensures match InstallState.StateLoad(u, old(Value()))
              case Ok(env) => r == Ok(()) && Value() == env
              case Err(e) => r == Err(e) && Value() == old(Value())
    {
      if file.Some? {
        var d := ConfigLoad(u, UniversalNewlines(file.value));
        if d.Err? {
          return Err(d.error);
        }
        state := d.value;
      } else if !readonly {
        var text := ConfigSave(u, []);
        file := Some(text);
        state := [];
      } else {
        state := [];
      }
      r := Ok(());
    }

    method StateSave()
      modifies this`file
      ensures Value() == Saved(u, old(Value()))
    {
      if readonly {
        return;
      }
      var text := ConfigSave(u, state);
      file := Some(text);
    }

    method StateGet(key: string) returns (done: bool)
      ensures done == InstallState.StateGet(u, Value(), key)
    {
      var k := KeyGet(u, key);
      done := HasKey(state, k);
    }

    method StateSet(key: string)
      modifies this
      ensures Value() == Apply(u, old(Value()), Set(key))
    {
      if readonly {
        return;
      }
      var k := KeyGet(u, key);
      state := Put(state, k, Bool(true));
      StateSave();
    }

    method StateDelete(key: string)
      modifies this
      ensures Value() == Apply(u, old(Value()), Delete(key))
    {
      if readonly {
        return;
      }
      var k := KeyGet(u, key);
      if HasKey(state, k) {
        state := Pop(state, k);
        StateSave();
      }
    }

    /** Pops the matching keys one by one, saving after each. */
    method StatesDelete(prefix: string)
      requires DistinctKeys(state)
      modifies this
      ensures Value() == Apply(u, old(Value()), DeletePrefix(prefix))
    {
      if readonly {
        return;
      }
      DropDict(u, state, u.Upper(prefix));
      PopMatching(u.Upper(prefix));
    }

    /** Between two turns of the loop: some of the old entries were looked at and some of those kept. */
    ghost predicate Turning(was: seq<Entry>, written: Option<string>, p: string, kept: seq<Entry>, rest: seq<Entry>)
      reads this
    {
      && DropPrefix(was, p) == kept + DropPrefix(rest, p)
      && Apart(kept, rest) && state == kept + rest
      && |kept| + |rest| <= |was|
      && (if |kept| + |rest| == |was| then file == written else file == Some(Save(u, state)))
    }

    /** One turn: a matching key is popped and the file written. */
    method Visit(key: string, p: string, ghost was: seq<Entry>, ghost written: Option<string>,
                 ghost kept: seq<Entry>, ghost rest: seq<Entry>)
      requires !readonly && rest != [] && key == rest[0].key && Turning(was, written, p, kept, rest)
      modifies this
      ensures Turning(was, written, p, Next(kept, rest[0], p), rest[1..])
    {
      DropStep(kept, rest, p);
      PopStep(kept, rest);
      if p <= key {
        state := Pop(state, key);
        StateSave();
      }
    }

    /** The loop over a copy of the keys. */
    method PopMatching(p: string)
      requires DistinctKeys(state) && !readonly
      modifies this
      ensures Turning(old(state), old(file), p, DropPrefix(old(state), p), [])
    {
      var keys := KeyList(state);
      ghost var was, kept: seq<Entry>, rest := state, [], state;
      while keys != []
        invariant keys == KeyList(rest)
        invariant Turning(was, old(file), p, kept, rest)
        decreases |keys|
      {
        Visit(keys[0], p, was, old(file), kept, rest);
        kept, rest, keys := Next(kept, rest[0], p), rest[1..], keys[1..];
      }
      assert kept + DropPrefix([], p) == kept;
    }

    method StateReset()
      modifies this
      ensures Value() == Apply(u, old(Value()), Reset)
    {
      file := None;
      var r := StateLoad();
    }
  }

  function KeyList(d: seq<Entry>): (keys: seq<string>)
    ensures |keys| == |d| && forall i :: 0 <= i < |d| ==> keys[i] == d[i].key
  {
    if d == [] then [] else [d[0].key] + KeyList(d[1..])
  }

  /** Entries kept share no key with the entries still to come, and those are distinct. */
  ghost predicate Apart(kept: seq<Entry>, rest: seq<Entry>)
  {
    DistinctKeys(rest)
    && forall i, j :: 0 <= i < |kept| && 0 <= j < |rest| ==> kept[i].key != rest[j].key
  }

  /** The entries kept once `e` has been looked at. */
  function Next(kept: seq<Entry>, e: Entry, p: string): seq<Entry>
  {
    if p <= e.key then kept else kept + [e]
  }

  /** One key of the loop leaves the entries apart and the outcome the same. */
  lemma DropStep(kept: seq<Entry>, rest: seq<Entry>, p: string)
    requires rest != [] && Apart(kept, rest)
    ensures Apart(Next(kept, rest[0], p), rest[1..])
    ensures kept + DropPrefix(rest, p) == Next(kept, rest[0], p) + DropPrefix(rest[1..], p)
  {
    var head, drop := rest[0], DropPrefix(rest[1..], p);
    assert kept + ([head] + drop) == kept + [head] + drop;
    ApartStep(kept, rest);
  }

  lemma ApartStep(kept: seq<Entry>, rest: seq<Entry>)
    requires rest != [] && Apart(kept, rest)
    ensures Apart(kept, rest[1..]) && Apart(kept + [rest[0]], rest[1..])
  {
  }

  /** A matching entry is popped from behind the kept ones. */
  lemma PopStep(kept: seq<Entry>, rest: seq<Entry>)
    requires rest != [] && Apart(kept, rest)
    ensures kept + rest == kept + [rest[0]] + rest[1..]
    ensures Pop(kept + rest, rest[0].key) == kept + rest[1..]
  {
    assert kept + rest == kept + [rest[0]] + rest[1..];
    PopConcat(kept, rest[0], rest[1..]);
  }

  lemma {:induction false} PopConcat(front: seq<Entry>, e: Entry, rest: seq<Entry>)
    requires forall i :: 0 <= i < |front| ==> front[i].key != e.key
    ensures Pop(front + [e] + rest, e.key) == front + rest
  {
    var all := front + [e] + rest;
    if front == [] {
      assert all[1..] == rest;
    } else {
      assert all[1..] == front[1..] + [e] + rest;
      PopConcat(front[1..], e, rest);
      assert front == [front[0]] + front[1..];
    }
  }
}
