/**
 The install state: a dict of keys marked done, written through to its config file on every change. `_key_get`
 normalises a key to the part before any of "=", ">", "<" and " ", in upper case.
 */
module InstallState {
  import opened CharTables
  import opened Config
  import opened ConfigFile
  import opened ConfigRoundTrip
  import opened Results
  import opened Stripping

  datatype Env = Env(state: seq<Entry>, file: Option<string>, readonly: bool)

  /** `_key_get` */
  function KeyGet(u: Unicode, key: string): string
  {
    u.Upper(Before(Before(Before(Before(key, '='), '>'), '<'), ' '))
  }

  // ----- the operations on values -----

  function Pop(d: seq<Entry>, key: string): seq<Entry>
  {
    if d == [] then [] else if d[0].key == key then d[1..] else [d[0]] + Pop(d[1..], key)
  }

  /** The entries whose key does not start with the prefix. */
  function DropPrefix(d: seq<Entry>, prefix: string): seq<Entry>
  {
    if d == [] then []
    else if prefix <= d[0].key then DropPrefix(d[1..], prefix)
    else [d[0]] + DropPrefix(d[1..], prefix)
  }

  function Saved(u: Unicode, env: Env): Env
  {
    if env.readonly then env else env.(file := Some(Save(u, env.state)))
  }

  /** `_state_load`; a missing file is created, unless readonly. */
  function StateLoad(u: Unicode, env: Env): Result<Env, Error>
  {
    match env.file
    case Some(text) =>
      (match LoadFile(u, text)
       case Ok(d) => Ok(env.(state := d))
       case Err(e) => Err(e))
    case None =>
      if env.readonly then Ok(env.(state := [])) else Ok(env.(state := [], file := Some(Save(u, []))))
  }

  datatype Op = Set(key: string) | Delete(key: string) | DeletePrefix(prefix: string) | Reset

  function Apply(u: Unicode, env: Env, op: Op): Env
  {
    match op
    case Set(key) =>
      if env.readonly then env else Saved(u, env.(state := Put(env.state, KeyGet(u, key), Bool(true))))
    case Delete(key) =>
      if env.readonly || !HasKey(env.state, KeyGet(u, key)) then env
      else Saved(u, env.(state := Pop(env.state, KeyGet(u, key))))
    case DeletePrefix(prefix) =>
      var left := DropPrefix(env.state, u.Upper(prefix));
      if env.readonly || |left| == |env.state| then env else Saved(u, env.(state := left))
    case Reset =>
      StateLoad(u, env.(file := None)).value
  }

  function ApplyAll(u: Unicode, env: Env, ops: seq<Op>): Env
  {
    if ops == [] then env else Apply(u, ApplyAll(u, env, ops[..|ops| - 1]), ops[|ops| - 1])
  }

  predicate StateGet(u: Unicode, env: Env, key: string)
  {
    HasKey(env.state, KeyGet(u, key))
  }

  // ----- key normalisation -----

  lemma KeyChars(u: Unicode, key: string)
    ensures var k := KeyGet(u, key); u.Upper(k) == k && '=' !in k && '>' !in k && '<' !in k && ' ' !in k
  {
    var a := Before(key, '=');
    var b := Before(a, '>');
    var c := Before(b, '<');
    var d := Before(c, ' ');
    BeforeChars(a, '>');
    BeforeChars(b, '<');
    BeforeChars(c, ' ');
    UpperMarks(u, d, '=');
    UpperMarks(u, d, '>');
    UpperMarks(u, d, '<');
    UpperMarks(u, d, ' ');
    UpperTwice(u, d);
  }

  /** Normalising twice is normalising once. */
  lemma KeyGetIdempotent(u: Unicode, key: string)
    ensures KeyGet(u, KeyGet(u, key)) == KeyGet(u, key)
  {
    KeyChars(u, key);
    KeyGetPlain(u, KeyGet(u, key));
  }

  const SEPARATORS: set<char> := {'=', '>', '<', ' '}

  lemma {:induction false} BeforeConcat(front: string, rest: string, sep: char)
    requires sep !in front
    ensures Before(front + rest, sep) == front + Before(rest, sep)
  {
    if front == "" {
      assert front + rest == rest;
    } else {
      assert (front + rest)[1..] == front[1..] + rest;
      BeforeConcat(front[1..], rest, sep);
    }
  }

  /** One cut ends the text at its separator, and leaves name and separator alone when it is for another one. */
  lemma CutOnce(name: string, sep: char, rest: string, cut: char)
    requires cut !in name
    ensures Before(name + [sep] + rest, cut) == if cut == sep then name else name + [sep] + Before(rest, cut)
  {
    var text := [sep] + rest;
    assert name + [sep] + rest == name + text && text[1..] == rest;
    BeforeConcat(name, text, cut);
    assert name + [] == name && name + ([sep] + Before(rest, cut)) == name + [sep] + Before(rest, cut);
  }

  /** Whatever comes first of the four separators, the key is the part before it, in upper case. */
  lemma KeyGetCuts(u: Unicode, name: string, sep: char, rest: string)
    requires (forall c :: c in SEPARATORS ==> c !in name) && sep in SEPARATORS
    ensures KeyGet(u, name + [sep] + rest) == u.Upper(name)
  {
    CutOnce(name, sep, rest, '=');
    BeforePlain(name, "", '=');
    BeforePlain(name, "", '>');
    BeforePlain(name, "", '<');
    BeforePlain(name, "", ' ');
    if sep != '=' {
      var rest1 := Before(rest, '=');
      CutOnce(name, sep, rest1, '>');
      if sep != '>' {
        var rest2 := Before(rest1, '>');
        CutOnce(name, sep, rest2, '<');
        if sep != '<' {
          CutOnce(name, sep, Before(rest2, '<'), ' ');
        }
      }
    }
  }

  // ----- dict facts -----

  function Keys(d: seq<Entry>): set<string>
  {
    set i | 0 <= i < |d| :: d[i].key
  }

  lemma KeysCons(e: Entry, d: seq<Entry>)
    ensures Keys([e] + d) == {e.key} + Keys(d)
  {
    var all := [e] + d;
    assert all[0] == e;
    forall k | k in Keys(d) ensures k in Keys(all) {
      var i :| 0 <= i < |d| && d[i].key == k;
      assert all[i + 1].key == k;
    }
  }

  /** A dict is distinct when its head is and the rest is. */
  lemma DistinctCons(e: Entry, d: seq<Entry>)
    ensures DistinctKeys([e] + d) <==> e.key !in Keys(d) && DistinctKeys(d)
  {
    var all := [e] + d;
    assert all[0] == e && forall i :: 0 <= i < |d| ==> all[i + 1] == d[i];
  }

  lemma HasKeyIff(d: seq<Entry>, key: string)
    ensures HasKey(d, key) <==> key in Keys(d)
  {
  }

  lemma {:induction false} PutDict(u: Unicode, d: seq<Entry>, key: string, value: Value)
    requires DistinctKeys(d)
    ensures DistinctKeys(Put(d, key, value)) && Keys(Put(d, key, value)) == Keys(d) + {key}
    ensures AllFilePlain(u, d) ==> (AllFilePlain(u, Put(d, key, value)) <==> FilePlain(u, Entry(key, value)))
  {
    var e := Entry(key, value);
    if d == [] {
      KeysCons(e, []);
      DistinctCons(e, []);
      assert [e] + [] == [e];
      assert AllFilePlain(u, [e]) <==> FilePlain(u, [e][0]);
    } else {
      var head, rest := d[0], d[1..];
      assert d == [head] + rest;
      KeysCons(head, rest);
      DistinctCons(head, rest);
      PlainCons(u, head, rest);
      if head.key == key {
        KeysCons(e, rest);
        DistinctCons(e, rest);
        PlainCons(u, e, rest);
      } else {
        PutDict(u, rest, key, value);
        KeysCons(head, Put(rest, key, value));
        DistinctCons(head, Put(rest, key, value));
        PlainCons(u, head, Put(rest, key, value));
      }
    }
  }

  lemma PlainCons(u: Unicode, e: Entry, d: seq<Entry>)
    ensures AllFilePlain(u, [e] + d) <==> FilePlain(u, e) && AllFilePlain(u, d)
  {
    var all := [e] + d;
    assert all[0] == e && forall i :: 0 <= i < |d| ==> all[i + 1] == d[i];
    if AllFilePlain(u, all) {
      forall i | 0 <= i < |d| ensures FilePlain(u, d[i]) {
        assert FilePlain(u, all[i + 1]);
      }
    }
  }

  lemma {:induction false} PopDict(u: Unicode, d: seq<Entry>, key: string)
    requires DistinctKeys(d)
    ensures DistinctKeys(Pop(d, key)) && Keys(Pop(d, key)) == Keys(d) - {key}
    ensures AllFilePlain(u, d) ==> AllFilePlain(u, Pop(d, key))
  {
    if d != [] {
      var head, rest := d[0], d[1..];
      assert d == [head] + rest;
      KeysCons(head, rest);
      DistinctCons(head, rest);
      PlainCons(u, head, rest);
      if head.key != key {
        PopDict(u, rest, key);
        KeysCons(head, Pop(rest, key));
        DistinctCons(head, Pop(rest, key));
        PlainCons(u, head, Pop(rest, key));
      }
    }
  }

  lemma {:induction false} DropDict(u: Unicode, d: seq<Entry>, prefix: string)
    requires DistinctKeys(d)
    ensures DistinctKeys(DropPrefix(d, prefix))
    ensures Keys(DropPrefix(d, prefix)) == set k | k in Keys(d) && !(prefix <= k)
    ensures AllFilePlain(u, d) ==> AllFilePlain(u, DropPrefix(d, prefix))
    ensures |DropPrefix(d, prefix)| <= |d|
    ensures |DropPrefix(d, prefix)| == |d| ==> DropPrefix(d, prefix) == d
  {
    if d != [] {
      var head, rest := d[0], d[1..];
      assert d == [head] + rest;
      KeysCons(head, rest);
      DistinctCons(head, rest);
      PlainCons(u, head, rest);
      DropDict(u, rest, prefix);
      if !(prefix <= head.key) {
        KeysCons(head, DropPrefix(rest, prefix));
        DistinctCons(head, DropPrefix(rest, prefix));
        PlainCons(u, head, DropPrefix(rest, prefix));
      }
    }
  }

  // ----- whole runs -----

  /** Memory is what loading the file would give, and every entry can be written. */
  ghost predicate Consistent(u: Unicode, env: Env)
  {
    && DistinctKeys(env.state) && AllFilePlain(u, env.state)
    && env.file.Some? && LoadFile(u, env.file.value) == Ok(env.state)
  }

  /**
   A key the file can hold: in what `_key_get` leaves, no newline and no carriage return, no comment sign in front, no
   white space around.
   */
  predicate FileSafe(u: Unicode, key: string)
  {
    var k := KeyGet(u, key);
    '\n' !in k && '\r' !in k && Trimmed(k, IsSpace) && (k != "" ==> k[0] != '#')
  }

  lemma FileSafeIsPlain(u: Unicode, key: string)
    ensures FileSafe(u, key) <==> FilePlain(u, Entry(KeyGet(u, key), Bool(true)))
  {
    KeyChars(u, key);
  }

  /** Setting a key keeps memory and file together exactly when the file can hold the key. */
  lemma SetConsistentIff(u: Unicode, env: Env, key: string)
    requires Consistent(u, env) && !env.readonly
    ensures var env' := Apply(u, env, Set(key));
            LoadFile(u, env'.file.value) == Ok(env'.state) <==> FileSafe(u, key)
    ensures FileSafe(u, key) ==> Consistent(u, Apply(u, env, Set(key)))
  {
    PutDict(u, env.state, KeyGet(u, key), Bool(true));
    FileSafeIsPlain(u, key);
    FileRoundTripIff(u, Put(env.state, KeyGet(u, key), Bool(true)));
  }

  /** A key without separators is upper-cased and nothing else. */
  lemma KeyGetPlain(u: Unicode, key: string)
    requires '=' !in key && '>' !in key && '<' !in key && ' ' !in key
    ensures KeyGet(u, key) == u.Upper(key)
  {
    BeforePlain(key, "", '=');
    BeforePlain(key, "", '>');
    BeforePlain(key, "", '<');
    BeforePlain(key, "", ' ');
  }

  lemma ReturnUpper(u: Unicode)
    ensures u.Upper("a\rb") == "A\rB" && u.Upper("A\rB") == "A\rB"
  {
    CaseOfAscii(u, "a\rb");
    assert AsciiUpperText("a\rb") == "A\rB";
    UpperTwice(u, "a\rb");
  }

  lemma SavedOne(u: Unicode, key: string)
    ensures Save(u, [Entry(key, Bool(true))]) == u.Upper(key) + " = " + "True" + "\n"
  {
    var d := [Entry(key, Bool(true))];
    assert d[..0] == [] && Save(u, []) == "";
    assert Save(u, d) == "" + PrintEntry(u, d[0]) + "\n";
  }

  /** The first key set writes a file of one line. */
  lemma SetOnEmpty(u: Unicode, env: Env, key: string)
    requires !env.readonly && env.state == []
    ensures Apply(u, env, Set(key)).file == Some(u.Upper(KeyGet(u, key)) + " = " + "True" + "\n")
  {
    assert Put([], KeyGet(u, key), Bool(true)) == [Entry(KeyGet(u, key), Bool(true))];
    SavedOne(u, KeyGet(u, key));
  }

  lemma ReturnKey(u: Unicode)
    ensures u.Upper(KeyGet(u, "a\rb")) == "A\rB"
  {
    KeyGetPlain(u, "a\rb");
    ReturnUpper(u);
  }

  lemma ReturnLine(u: Unicode)
    ensures LoadFile(u, "A\rB" + " = " + "True" + "\n") == Err(NoEquals("A"))
  {
    assert "A\rB" + " = " + "True" + "\n" == "A" + "\r" + "B = True\n";
    BrokenLine(u, "A", "B = True\n");
  }

  /** Setting a key with a carriage return inside writes a file that the next load raises on. */
  lemma ReturnInKeyRaises(u: Unicode, env: Env, key: string)
    requires !env.readonly && env.state == [] && key == "a\rb"
    ensures StateLoad(u, Apply(u, env, Set(key))) == Err(NoEquals("A"))
  {
    ReturnKey(u);
    ReturnLine(u);
    SetOnEmpty(u, env, key);
  }

  /** Every other operation keeps them together. */
  lemma RemovalConsistent(u: Unicode, env: Env, op: Op)
    requires Consistent(u, env) && !env.readonly && !op.Set?
    ensures Consistent(u, Apply(u, env, op))
  {
    match op
    case Delete(key) =>
      PopDict(u, env.state, KeyGet(u, key));
      FileRoundTripIff(u, Pop(env.state, KeyGet(u, key)));
    case DeletePrefix(prefix) =>
      DropDict(u, env.state, u.Upper(prefix));
      FileRoundTripIff(u, DropPrefix(env.state, u.Upper(prefix)));
    case Reset =>
      FileRoundTripIff(u, []);
  }

  /** The plain set of normalised keys that the operations are about. */
  function Marked(u: Unicode, done: set<string>, ops: seq<Op>): set<string>
  {
    if ops == [] then done else
      var before := Marked(u, done, ops[..|ops| - 1]);
      match ops[|ops| - 1]
      case Set(key) => before + {KeyGet(u, key)}
      case Delete(key) => before - {KeyGet(u, key)}
      case DeletePrefix(prefix) => set k | k in before && !(u.Upper(prefix) <= k)
      case Reset => {}
  }

  lemma StepKeys(u: Unicode, env: Env, op: Op)
    requires DistinctKeys(env.state) && !env.readonly
    ensures Keys(Apply(u, env, op).state) == Marked(u, Keys(env.state), [op])
    ensures DistinctKeys(Apply(u, env, op).state) && !Apply(u, env, op).readonly
  {
    assert [op][..0] == [];
    assert Marked(u, Keys(env.state), []) == Keys(env.state);
    match op
    case Set(key) => PutDict(u, env.state, KeyGet(u, key), Bool(true));
    case Delete(key) =>
      PopDict(u, env.state, KeyGet(u, key));
      HasKeyIff(env.state, KeyGet(u, key));
    case DeletePrefix(prefix) => DropDict(u, env.state, u.Upper(prefix));
    case Reset =>
  }

  lemma MarkedNext(u: Unicode, done: set<string>, ops: seq<Op>)
    requires ops != []
    ensures Marked(u, done, ops) == Marked(u, Marked(u, done, ops[..|ops| - 1]), [ops[|ops| - 1]])
  {
    var op, before := ops[|ops| - 1], Marked(u, done, ops[..|ops| - 1]);
    assert [op][..0] == [];
    assert Marked(u, before, []) == before;
  }

  /**
   Over every run of file-safe sets, deletes, prefix deletes and resets: memory is what `_state_load` would read back,
   and `state_get` answers from the plain set of normalised keys.
   */
  lemma {:induction false} RunConsistent(u: Unicode, env: Env, ops: seq<Op>)
    requires Consistent(u, env) && !env.readonly
    requires forall i :: 0 <= i < |ops| && ops[i].Set? ==> FileSafe(u, ops[i].key)
    ensures var env' := ApplyAll(u, env, ops);
            && Consistent(u, env') && !env'.readonly
            && StateLoad(u, env') == Ok(env')
            && Keys(env'.state) == Marked(u, Keys(env.state), ops)
            && forall key :: StateGet(u, env', key) <==> KeyGet(u, key) in Marked(u, Keys(env.state), ops)
  {
    if ops != [] {
      var before, op := ops[..|ops| - 1], ops[|ops| - 1];
      RunConsistent(u, env, before);
      var mid := ApplyAll(u, env, before);
      if op.Set? {
        SetConsistentIff(u, mid, op.key);
      } else {
        RemovalConsistent(u, mid, op);
      }
      StepKeys(u, mid, op);
      MarkedNext(u, Keys(env.state), ops);
    }
    var env' := ApplyAll(u, env, ops);
    assert env'.(state := env'.state) == env';
    forall key ensures StateGet(u, env', key) <==> KeyGet(u, key) in Marked(u, Keys(env.state), ops) {
      HasKeyIff(env'.state, KeyGet(u, key));
    }
  }

  // ----- what each operation leaves -----

  lemma {:induction false} PutEntries(d: seq<Entry>, key: string, value: Value, e: Entry)
    requires DistinctKeys(d)
    ensures e in Put(d, key, value) <==> e == Entry(key, value) || (e in d && e.key != key)
  {
    if d != [] {
      assert d == [d[0]] + d[1..];
      DistinctCons(d[0], d[1..]);
      PutEntries(d[1..], key, value, e);
      if e in d[1..] {
        var i :| 0 <= i < |d[1..]| && d[1..][i] == e;
        assert e.key in Keys(d[1..]);
      }
    }
  }

  lemma {:induction false} PopEntries(d: seq<Entry>, key: string, e: Entry)
    requires DistinctKeys(d)
    ensures e in Pop(d, key) <==> e in d && e.key != key
  {
    if d != [] {
      assert d == [d[0]] + d[1..];
      DistinctCons(d[0], d[1..]);
      PopEntries(d[1..], key, e);
      if e in d[1..] {
        var i :| 0 <= i < |d[1..]| && d[1..][i] == e;
        assert e.key in Keys(d[1..]);
      }
    }
  }

  lemma {:induction false} DropEntries(d: seq<Entry>, prefix: string, e: Entry)
    ensures e in DropPrefix(d, prefix) <==> e in d && !(prefix <= e.key)
  {
    if d != [] {
      assert d == [d[0]] + d[1..];
      DropEntries(d[1..], prefix, e);
    }
  }

  /** A set marks its key as true and touches no entry of another key. */
  lemma SetEntries(u: Unicode, env: Env, key: string, e: Entry)
    requires DistinctKeys(env.state) && !env.readonly
    ensures e in Apply(u, env, Set(key)).state
       <==> e == Entry(KeyGet(u, key), Bool(true)) || (e in env.state && e.key != KeyGet(u, key))
  {
    PutEntries(env.state, KeyGet(u, key), Bool(true), e);
  }

  /** A delete takes out its key and nothing else. */
  lemma DeleteEntries(u: Unicode, env: Env, key: string, e: Entry)
    requires DistinctKeys(env.state) && !env.readonly
    ensures e in Apply(u, env, Delete(key)).state <==> e in env.state && e.key != KeyGet(u, key)
  {
    PopEntries(env.state, KeyGet(u, key), e);
    if e in env.state && !HasKey(env.state, KeyGet(u, key)) {
      var i :| 0 <= i < |env.state| && env.state[i] == e;
      assert e.key != KeyGet(u, key);
    }
  }

  /** A prefix delete takes out the keys with the prefix and nothing else. */
  lemma DeletePrefixEntries(u: Unicode, env: Env, key: string, e: Entry)
    requires DistinctKeys(env.state) && !env.readonly
    ensures e in Apply(u, env, DeletePrefix(key)).state <==> e in env.state && !(u.Upper(key) <= e.key)
  {
    DropEntries(env.state, u.Upper(key), e);
    DropDict(u, env.state, u.Upper(key));
  }

  lemma ResetEntries(u: Unicode, env: Env)
    ensures Apply(u, env, Reset).state == []
  {
  }

  /** Deleting what is not there does not write the file. */
  lemma NothingToDelete(u: Unicode, env: Env, key: string)
    ensures KeyGet(u, key) !in Keys(env.state) ==> Apply(u, env, Delete(key)) == env
    ensures DistinctKeys(env.state) && (forall k :: k in Keys(env.state) ==> !(u.Upper(key) <= k)) ==>
              Apply(u, env, DeletePrefix(key)) == env
  {
    HasKeyIff(env.state, KeyGet(u, key));
    if DistinctKeys(env.state) && forall k :: k in Keys(env.state) ==> !(u.Upper(key) <= k) {
      NothingDropped(env.state, u.Upper(key));
    }
  }

  lemma {:induction false} NothingDropped(d: seq<Entry>, prefix: string)
    requires forall k :: k in Keys(d) ==> !(prefix <= k)
    ensures DropPrefix(d, prefix) == d
  {
    if d != [] {
      assert d == [d[0]] + d[1..];
      KeysCons(d[0], d[1..]);
      assert d[0].key in Keys(d);
      NothingDropped(d[1..], prefix);
    }
  }

  /** Another environment on the same file, readonly or not and whatever it held, loads the same state. */
  lemma SharedFile(u: Unicode, env: Env, other: Env, key: string)
    requires Consistent(u, env) && other.file == env.file
    ensures var loaded := StateLoad(u, other);
            && loaded.Ok? && loaded.value.state == env.state && loaded.value.file == env.file
            && (StateGet(u, loaded.value, key) <==> StateGet(u, env, key))
  {
  }

  // ----- runs with any keys -----

  /** Only the key can keep an entry from the file. */
  ghost predicate ValuesPlain(u: Unicode, d: seq<Entry>)
  {
    forall e :: e in d ==> PlainValue(u, e.value) && NoReturnValue(e.value)
  }

  /** The file is what saving the state gives, or at least loads as the state. */
  ghost predicate Written(u: Unicode, env: Env)
  {
    && DistinctKeys(env.state) && ValuesPlain(u, env.state) && env.file.Some?
    && (env.file.value == Save(u, env.state)
        || (AllFilePlain(u, env.state) && LoadFile(u, env.file.value) == Ok(env.state)))
  }

  lemma {:induction false} PutMembers(d: seq<Entry>, key: string, value: Value)
    ensures forall e :: e in Put(d, key, value) ==> e in d || e == Entry(key, value)
  {
    if d != [] {
      PutMembers(d[1..], key, value);
      assert d == [d[0]] + d[1..];
    }
  }

  lemma {:induction false} RemovalMembers(d: seq<Entry>, text: string)
    ensures forall e :: e in Pop(d, text) ==> e in d
    ensures forall e :: e in DropPrefix(d, text) ==> e in d
  {
    if d != [] {
      RemovalMembers(d[1..], text);
      assert d == [d[0]] + d[1..];
    }
  }

  lemma WrittenStep(u: Unicode, env: Env, op: Op)
    requires Written(u, env) && !env.readonly
    ensures Written(u, Apply(u, env, op))
  {
    StepKeys(u, env, op);
    match op
    case Set(key) => PutMembers(env.state, KeyGet(u, key), Bool(true));
    case Delete(key) => RemovalMembers(env.state, KeyGet(u, key));
    case DeletePrefix(prefix) => RemovalMembers(env.state, u.Upper(prefix));
    case Reset =>
  }

  /** The state is what loading gives exactly when each of its keys fits the file. */
  lemma WrittenLoadsIff(u: Unicode, env: Env)
    requires Written(u, env)
    ensures StateLoad(u, env) == Ok(env) <==> forall k :: k in Keys(env.state) ==> FilePlain(u, Entry(k, Bool(true)))
  {
    FileRoundTripIff(u, env.state);
    assert env.(state := env.state) == env;
    if forall k :: k in Keys(env.state) ==> FilePlain(u, Entry(k, Bool(true))) {
      forall i | 0 <= i < |env.state| ensures FilePlain(u, env.state[i]) {
        assert env.state[i].key in Keys(env.state) && env.state[i] in env.state;
      }
    }
    if AllFilePlain(u, env.state) {
      forall k | k in Keys(env.state) ensures FilePlain(u, Entry(k, Bool(true))) {
        var i :| 0 <= i < |env.state| && env.state[i].key == k;
        assert FilePlain(u, env.state[i]);
      }
    }
  }

  lemma {:induction false} RunWritten(u: Unicode, env: Env, ops: seq<Op>)
    requires Written(u, env) && !env.readonly
    ensures Written(u, ApplyAll(u, env, ops)) && !ApplyAll(u, env, ops).readonly
    ensures Keys(ApplyAll(u, env, ops).state) == Marked(u, Keys(env.state), ops)
  {
    if ops != [] {
      var before, op := ops[..|ops| - 1], ops[|ops| - 1];
      RunWritten(u, env, before);
      WrittenStep(u, ApplyAll(u, env, before), op);
      StepKeys(u, ApplyAll(u, env, before), op);
      MarkedNext(u, Keys(env.state), ops);
    }
  }

  /**
   After a run of any operations on any keys, memory is what `_state_load` would read back exactly when every key that
   is marked in the end fits the file; unsafe keys that were deleted again do no harm.
   */
  lemma RunLoadsIff(u: Unicode, env: Env, ops: seq<Op>)
    requires Consistent(u, env) && !env.readonly
    ensures var env' := ApplyAll(u, env, ops);
            StateLoad(u, env') == Ok(env') <==>
              forall k :: k in Marked(u, Keys(env.state), ops) ==> FilePlain(u, Entry(k, Bool(true)))
  {
    forall e | e in env.state ensures PlainValue(u, e.value) && NoReturnValue(e.value) {
      var i :| 0 <= i < |env.state| && env.state[i] == e;
      assert FilePlain(u, env.state[i]);
    }
    RunWritten(u, env, ops);
    WrittenLoadsIff(u, ApplyAll(u, env, ops));
  }

  /** Readonly stops every operation but a reset, which deletes the file and forgets the state all the same. */
  lemma ReadonlyUnchanged(u: Unicode, env: Env, op: Op)
    requires env.readonly
    ensures Apply(u, env, op) == if op.Reset? then env.(state := [], file := None) else env
  {
  }

  /** Where a lookup meets a deletion: a key just set is found, one just deleted is not. */
  lemma SetThenGet(u: Unicode, env: Env, key: string, other: string)
    requires DistinctKeys(env.state) && !env.readonly
    ensures StateGet(u, Apply(u, env, Set(key)), other)
       <==> StateGet(u, env, other) || KeyGet(u, other) == KeyGet(u, key)
    ensures StateGet(u, Apply(u, env, Delete(key)), other)
       <==> StateGet(u, env, other) && KeyGet(u, other) != KeyGet(u, key)
  {
    StepKeys(u, env, Set(key));
    StepKeys(u, env, Delete(key));
    HasKeyIff(env.state, KeyGet(u, other));
    HasKeyIff(Apply(u, env, Set(key)).state, KeyGet(u, other));
    HasKeyIff(Apply(u, env, Delete(key)).state, KeyGet(u, other));
    assert [Set(key)][..0] == [] && [Delete(key)][..0] == [];
    assert Marked(u, Keys(env.state), []) == Keys(env.state);
  }
}
