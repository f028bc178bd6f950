/**
 The log handler with one process: ids come from a counter, records go into a hash, and at every multiple of 1000
 from 2000 up the block before last is archived, the archive rotated and the hash trimmed.

 The directory of archives is a sequence in order of modification time, oldest first; a record is the text
 `_dumps` produced. Configuration: whether msgpack is importable, and MAX_MSGPACKS_LOGS_COUNT.
 */
module LogWindow {
  import opened Results

  datatype File = File(stopId: nat, records: seq<string>)

  datatype Config = Config(msgpack: bool, maxFiles: int)

  datatype State = State(counter: nat, hash: map<nat, string>, files: seq<File>)

  datatype Error = MissingLog(id: nat)

  // ----- chunked deletion -----

  /** `chunks(lst, n)` */
  function Chunks<T>(list: seq<T>, n: nat): seq<seq<T>>
    requires n >= 1
    decreases |list|
  {
    if |list| <= n then (if list == [] then [] else [list]) else [list[..n]] + Chunks(list[n..], n)
  }

  function Elements(keys: seq<nat>): set<nat>
  {
    set k | k in keys
  }

  /** `hdel` of one chunk after another. */
  function DeleteChunks(hash: map<nat, string>, chunks: seq<seq<nat>>): map<nat, string>
  {
    if chunks == [] then hash else DeleteChunks(hash - Elements(chunks[0]), chunks[1..])
  }

  /** Deleting chunk by chunk deletes the whole list. */
  lemma {:induction false} ChunkedDeletion(hash: map<nat, string>, keys: seq<nat>, n: nat)
    requires n >= 1
    ensures DeleteChunks(hash, Chunks(keys, n)) == hash - Elements(keys)
    decreases |keys|
  {
    if |keys| <= n {
      if keys != [] {
        assert Chunks(keys, n)[1..] == [];
      }
    } else {
      var rest := Chunks(keys[n..], n);
      assert ([keys[..n]] + rest)[1..] == rest;
      ChunkedDeletion(hash - Elements(keys[..n]), keys[n..], n);
      assert keys == keys[..n] + keys[n..];
      assert Elements(keys) == Elements(keys[..n]) + Elements(keys[n..]);
    }
  }

  /** The chunks are the list, cut into pieces of `n` and a last one that may be shorter. */
  lemma {:induction false} ChunksShape<T>(list: seq<T>, n: nat, i: nat)
    requires n >= 1 && i < |Chunks(list, n)|
    ensures i * n < |list| && i * n + |Chunks(list, n)[i]| <= |list|
    ensures Chunks(list, n)[i] == list[i * n..i * n + |Chunks(list, n)[i]|]
    ensures if i < |Chunks(list, n)| - 1 then |Chunks(list, n)[i]| == n
            else 0 < |Chunks(list, n)[i]| <= n && i * n + |Chunks(list, n)[i]| == |list|
    decreases |list|
  {
    if |list| <= n {
      assert Chunks(list, n) == [list] && i == 0 && 0 * n == 0;
    } else if i == 0 {
      assert 0 * n == 0;
      ChunksNonEmpty(list[n..], n);
    } else {
      ChunksShape(list[n..], n, i - 1);
      assert (i - 1) * n + n == i * n;
    }
  }

  lemma ChunksNonEmpty<T>(list: seq<T>, n: nat)
    requires n >= 1 && list != []
    ensures Chunks(list, n) != []
  {
  }

  // ----- what one call does -----

  /** The records of a block, or the first id that `_redis_get` does not find. */
  function ReadBlock(hash: map<nat, string>, first: nat, last: nat): Result<seq<string>, Error>
    decreases last - first
  {
    if first > last then Ok([])
    else if first !in hash || hash[first] == "" then Err(MissingLog(first))
    else
      match ReadBlock(hash, first + 1, last)
      case Ok(rest) => Ok([hash[first]] + rest)
      case Err(e) => Err(e)
  }

  /** Writing a path that exists replaces the file and makes it the newest. */
  function WriteFile(files: seq<File>, f: File): seq<File>
  {
    Without(files, f.stopId) + [f]
  }

  function Without(files: seq<File>, stopId: nat): seq<File>
  {
    if files == [] then []
    else if files[0].stopId == stopId then Without(files[1..], stopId)
    else [files[0]] + Without(files[1..], stopId)
  }

  /** `all_files[:len(all_files) - msgpacks_count + 10]` is deleted once there are more than count + 1 files. */
  function Rotate(files: seq<File>, maxFiles: int): seq<File>
  {
    if |files| > maxFiles + 1 then
      var cut := |files| - maxFiles + 10;
      if cut >= |files| then [] else files[cut..]
    else files
  }

  function Trim(hash: map<nat, string>, stopId: nat): map<nat, string>
  {
    map i | i in hash && i >= stopId + 1 :: hash[i]
  }

  /** The file a dump writes: the block before the last thousand. */
  function DumpFile(hash: map<nat, string>, latest: nat): Result<File, Error>
    requires latest >= 2000
  {
    match ReadBlock(hash, latest - 2000 + 1, latest - 1000)
    case Ok(records) => Ok(File(latest - 1000, records))
    case Err(e) => Err(e)
  }

  /** `_data_container_dump(latest)` */
  function Dump(s: State, latest: nat, config: Config): (State, Option<Error>)
    requires latest >= 2000
  {
    var hash := Trim(s.hash, latest - 1000);
    if config.msgpack then
      match DumpFile(s.hash, latest)
      case Err(e) => (s, Some(e))
      case Ok(f) => (s.(files := Rotate(WriteFile(s.files, f), config.maxFiles), hash := hash), None)
    else (s.(hash := hash), None)
  }

  predicate DumpsAt(id: nat)
  {
    id >= 2000 && id % 1000 == 0
  }

  /** `handle_log` of a record with a database present. */
  function Handle(s: State, data: string, config: Config): (State, Option<Error>)
  {
    var id := s.counter + 1;
    var s' := s.(counter := id, hash := s.hash[id := data]);
    if DumpsAt(id) then Dump(s', id, config) else (s', None)
  }

  // ----- dumps that fail -----

  /** The record is not there, or empty. */
  predicate Misses(hash: map<nat, string>, id: nat)
  {
    id !in hash || hash[id] == ""
  }

  /** Reading a block stops at the first record that is missing. */
  lemma {:induction false} ReadFails(hash: map<nat, string>, first: nat, last: nat, id: nat)
    requires first <= id <= last && Misses(hash, id) && forall j :: first <= j < id ==> !Misses(hash, j)
    ensures ReadBlock(hash, first, last) == Err(MissingLog(id))
    decreases id - first
  {
    if first < id {
      assert !Misses(hash, first);
      ReadFails(hash, first + 1, last, id);
    }
  }

  lemma {:induction false} ReadSucceeds(hash: map<nat, string>, first: nat, last: nat)
    requires forall j :: first <= j <= last ==> !Misses(hash, j)
    ensures ReadBlock(hash, first, last).Ok?
    decreases last - first
  {
    if first <= last {
      assert !Misses(hash, first);
      ReadSucceeds(hash, first + 1, last);
    }
  }

  /**
   A dump raises exactly when msgpack is there and a record of its block is missing. It names the first such record, and
   leaves hash and archive as they were; otherwise it deletes the block's keys and all below.
   */
  lemma DumpFailsIff(s: State, latest: nat, config: Config, id: nat)
    requires latest >= 2000
    ensures var (s', error) := Dump(s, latest, config);
            && (config.msgpack && latest - 2000 < id <= latest - 1000 && Misses(s.hash, id)
                && (forall j :: latest - 2000 < j < id ==> !Misses(s.hash, j)) ==>
                  error == Some(MissingLog(id)))
            && (!config.msgpack || (forall j :: latest - 2000 < j <= latest - 1000 ==> !Misses(s.hash, j)) ==>
                  error == None)
            && (error.Some? ==> s' == s)
            && s'.counter == s.counter
            && (error == None ==> forall i :: i in s'.hash <==> i in s.hash && i > latest - 1000)
  {
    if latest - 2000 < id <= latest - 1000 && Misses(s.hash, id)
      && forall j :: latest - 2000 < j < id ==> !Misses(s.hash, j) {
      ReadFails(s.hash, latest - 2000 + 1, latest - 1000, id);
    }
    if forall j :: latest - 2000 < j <= latest - 1000 ==> !Misses(s.hash, j) {
      ReadSucceeds(s.hash, latest - 2000 + 1, latest - 1000);
    }
  }

  /** Writing a block again replaces it, makes it the newest, and leaves the other files in their order. */
  lemma {:induction false} WriteReplaces(files: seq<File>, f: File, g: File)
    ensures WriteFile(files, f)[|WriteFile(files, f)| - 1] == f
    ensures g in WriteFile(files, f) <==> g == f || (g in files && g.stopId != f.stopId)
  {
    WithoutMembers(files, f.stopId, g);
  }

  lemma {:induction false} WithoutMembers(files: seq<File>, stopId: nat, g: File)
    ensures g in Without(files, stopId) <==> g in files && g.stopId != stopId
  {
    if files != [] {
      assert files == [files[0]] + files[1..];
      WithoutMembers(files[1..], stopId, g);
    }
  }

  // ----- whole runs -----

  const EMPTY := State(0, map[], [])

  /** The state after the calls for these records, errors ignored by the caller. */
  function After(records: seq<string>, config: Config): State
  {
    if records == [] then EMPTY
    else Handle(After(records[..|records| - 1], config), records[|records| - 1], config).0
  }

  /** The files the dumps of these calls wrote, in order, whether rotation deleted them since or not. */
  function Written(records: seq<string>, config: Config): seq<File>
  {
    if records == [] then [] else
      var front, data := records[..|records| - 1], records[|records| - 1];
      var s := After(front, config);
      var id := s.counter + 1;
      if config.msgpack && DumpsAt(id) then
        match DumpFile(s.hash[id := data], id)
        case Ok(f) => Written(front, config) + [f]
        case Err(_) => Written(front, config)
      else Written(front, config)
  }

  /** The number of blocks dumped in `n` calls; the ids up to 1000 times that have left the hash. */
  function Dumps(n: nat): nat
  {
    if n < 1000 then 0 else n / 1000 - 1
  }

  function RecordOf(records: seq<string>, id: nat): string
    requires 1 <= id <= |records|
  {
    records[id - 1]
  }

  /** The records of the ids in (low, n]. */
  function Held(records: seq<string>, low: nat): map<nat, string>
  {
    map id: nat | low < id <= |records| :: RecordOf(records, id)
  }

  /** The first `m` blocks of a run; block k holds the ids k * 1000 + 1 to (k + 1) * 1000. */
  function Blocks(records: seq<string>, m: nat): (blocks: seq<File>)
    requires m * 1000 <= |records|
    ensures |blocks| == m
  {
    if m == 0 then [] else Blocks(records, m - 1) + [Block(records, m - 1)]
  }

  function Block(records: seq<string>, k: nat): File
    requires (k + 1) * 1000 <= |records|
  {
    File((k + 1) * 1000, records[k * 1000..(k + 1) * 1000])
  }

  predicate IsSuffix(files: seq<File>, all: seq<File>)
  {
    |files| <= |all| && files == all[|all| - |files|..]
  }

  /** The window: the counter, the hash, and the archive that survives rotation. */
  ghost predicate Window(s: State, records: seq<string>, config: Config)
  {
    WindowAfter(s, records, Dumps(|records|), config)
  }

  /** The window when `m` blocks have been dumped. */
  ghost predicate WindowAfter(s: State, records: seq<string>, m: nat, config: Config)
  {
    && m * 1000 <= |records| == s.counter
    && s.hash == Held(records, m * 1000)
    && ArchiveOk(s.files, records, m, config)
  }

  ghost predicate ArchiveOk(files: seq<File>, records: seq<string>, m: nat, config: Config)
    requires m * 1000 <= |records|
  {
    if config.msgpack then IsSuffix(files, Blocks(records, m)) && |files| == FilesAfter(m, config.maxFiles)
    else files == []
  }

  /** How many files `m` dumps leave: one more each time, until a rotation. */
  function FilesAfter(m: nat, maxFiles: int): nat
  {
    if m == 0 then 0 else
      var count := FilesAfter(m - 1, maxFiles) + 1;
      if count > maxFiles + 1 then (if maxFiles > 10 then maxFiles - 10 else 0) else count
  }

  predicate NoneEmpty(records: seq<string>)
  {
    forall k :: 0 <= k < |records| ==> records[k] != ""
  }

  /** A block whose records are all there is read in order. */
  lemma {:induction false} ReadPresent(hash: map<nat, string>, first: nat, last: nat, records: seq<string>)
    requires 1 <= first <= last + 1 <= |records| + 1
    requires forall id :: first <= id <= last ==>
               id in hash && hash[id] == RecordOf(records, id) && RecordOf(records, id) != ""
    ensures ReadBlock(hash, first, last) == Ok(records[first - 1..last])
    decreases last - first
  {
    if first <= last {
      assert first in hash && hash[first] == RecordOf(records, first);
      ReadPresent(hash, first + 1, last, records);
      assert records[first - 1..last] == [records[first - 1]] + records[first..last];
    }
  }

  lemma {:induction false} WithoutAbsent(files: seq<File>, stopId: nat)
    requires forall f :: f in files ==> f.stopId != stopId
    ensures Without(files, stopId) == files
  {
    if files != [] {
      WithoutAbsent(files[1..], stopId);
    }
  }

  lemma DumpsStep(n: nat)
    requires n >= 1
    ensures DumpsAt(n) ==> Dumps(n) == Dumps(n - 1) + 1 && n == Dumps(n - 1) * 1000 + 2000
    ensures !DumpsAt(n) ==> Dumps(n) == Dumps(n - 1)
    ensures Dumps(n) * 1000 <= n < Dumps(n) * 1000 + 2000
  {
  }

  lemma {:induction false} BlocksExtend(records: seq<string>, data: string, m: nat)
    requires m * 1000 <= |records|
    ensures Blocks(records + [data], m) == Blocks(records, m)
  {
    if m > 0 {
      BlocksExtend(records, data, m - 1);
      assert (records + [data])[(m - 1) * 1000..m * 1000] == records[(m - 1) * 1000..m * 1000];
    }
  }

  lemma {:induction false} BlockIds(records: seq<string>, m: nat)
    requires m * 1000 <= |records|
    ensures forall f :: f in Blocks(records, m) ==> f.stopId <= m * 1000
  {
    if m > 0 {
      BlockIds(records, m - 1);
    }
  }

  /** Writing the next block extends the archive at its new end. */
  lemma ArchiveStep(files: seq<File>, records: seq<string>, m: nat)
    requires (m + 1) * 1000 <= |records| && IsSuffix(files, Blocks(records, m))
    ensures WriteFile(files, Block(records, m)) == files + [Block(records, m)]
    ensures IsSuffix(files + [Block(records, m)], Blocks(records, m + 1))
  {
    var all := Blocks(records, m);
    BlockIds(records, m);
    forall f | f in files ensures f.stopId != (m + 1) * 1000 {
      assert f in all;
    }
    WithoutAbsent(files, (m + 1) * 1000);
    SuffixExtends(files, all, Block(records, m));
  }

  lemma SuffixExtends(files: seq<File>, all: seq<File>, f: File)
    requires IsSuffix(files, all)
    ensures IsSuffix(files + [f], all + [f])
  {
  }

  /** Rotation keeps a suffix; what it keeps depends on the limit alone. */
  lemma RotateKeeps(files: seq<File>, all: seq<File>, maxFiles: int)
    requires IsSuffix(files, all)
    ensures IsSuffix(Rotate(files, maxFiles), all)
    ensures |Rotate(files, maxFiles)|
         == if |files| <= maxFiles + 1 then |files| else if maxFiles > 10 then maxFiles - 10 else 0
  {
  }

  /** The trimmed hash after a dump. */
  lemma TrimHeld(records: seq<string>, low: nat)
    requires low + 2000 == |records|
    ensures Trim(Held(records, low), low + 1000) == Held(records, low + 1000)
  {
  }

  lemma HeldExtend(records: seq<string>, data: string, low: nat)
    requires low <= |records|
    ensures Held(records, low)[|records| + 1 := data] == Held(records + [data], low)
  {
    var all := records + [data];
    forall id: nat | low < id <= |records| ensures RecordOf(all, id) == RecordOf(records, id) {
    }
    assert RecordOf(all, |records| + 1) == data;
  }

  lemma ReadHeld(records: seq<string>, low: nat)
    requires low + 2000 == |records| && NoneEmpty(records)
    ensures ReadBlock(Held(records, low), low + 1, low + 1000) == Ok(records[low..low + 1000])
  {
    var hash := Held(records, low);
    forall id | low + 1 <= id <= low + 1000
      ensures id in hash && hash[id] == RecordOf(records, id) && RecordOf(records, id) != ""
    {
      assert RecordOf(records, id) == records[id - 1];
    }
    ReadPresent(hash, low + 1, low + 1000, records);
  }

  /** The archive after a dump. */
  function Kept(files: seq<File>, records: seq<string>, m: nat, config: Config): seq<File>
    requires (m + 1) * 1000 <= |records|
  {
    if config.msgpack then Rotate(files + [Block(records, m)], config.maxFiles) else files
  }

  /** A dump at the end of a window of 2000 ids archives its first half. */
  lemma DumpStep(records: seq<string>, files: seq<File>, m: nat, config: Config)
    requires |records| == m * 1000 + 2000 && NoneEmpty(records)
    requires config.msgpack ==> IsSuffix(files, Blocks(records, m))
    ensures Dump(State(|records|, Held(records, m * 1000), files), |records|, config)
         == (State(|records|, Held(records, (m + 1) * 1000), Kept(files, records, m, config)), None)
  {
    TrimHeld(records, m * 1000);
    ReadHeld(records, m * 1000);
    if config.msgpack {
      ArchiveStep(files, records, m);
    }
  }

  lemma KeptOk(files: seq<File>, records: seq<string>, m: nat, config: Config)
    requires (m + 1) * 1000 <= |records| && ArchiveOk(files, records, m, config)
    ensures ArchiveOk(Kept(files, records, m, config), records, m + 1, config)
  {
    if config.msgpack {
      ArchiveStep(files, records, m);
      RotateKeeps(files + [Block(records, m)], Blocks(records, m + 1), config.maxFiles);
    }
  }

  lemma QuietCall(s: State, records: seq<string>, data: string, m: nat, config: Config)
    requires WindowAfter(s, records, m, config) && !DumpsAt(|records| + 1)
    ensures Handle(s, data, config).1 == None
    ensures WindowAfter(Handle(s, data, config).0, records + [data], m, config)
  {
    HeldExtend(records, data, m * 1000);
    BlocksExtend(records, data, m);
  }

  lemma DumpingCall(s: State, records: seq<string>, data: string, m: nat, config: Config)
    requires WindowAfter(s, records, m, config) && NoneEmpty(records + [data])
    requires DumpsAt(|records| + 1) && |records| + 1 == m * 1000 + 2000
    ensures Handle(s, data, config).1 == None
    ensures WindowAfter(Handle(s, data, config).0, records + [data], m + 1, config)
  {
    var all := records + [data];
    HeldExtend(records, data, m * 1000);
    BlocksExtend(records, data, m);
    DumpStep(all, s.files, m, config);
    KeptOk(s.files, all, m, config);
    assert Handle(s, data, config)
      == (State(|all|, Held(all, (m + 1) * 1000), Kept(s.files, all, m, config)), None);
  }

  /** One call moves the window on by one record and raises nothing. */
  lemma WindowStep(s: State, records: seq<string>, data: string, config: Config)
    requires Window(s, records, config) && NoneEmpty(records + [data])
    ensures Handle(s, data, config).1 == None
    ensures Window(Handle(s, data, config).0, records + [data], config)
  {
    var n, m := |records| + 1, Dumps(|records|);
    DumpsStep(n);
    assert |records + [data]| == n;
    if DumpsAt(n) {
      DumpingCall(s, records, data, m, config);
      assert Dumps(n) == m + 1;
    } else {
      QuietCall(s, records, data, m, config);
      assert Dumps(n) == m;
    }
  }

  /**
   After any number of calls the hash holds exactly the ids in (Dumps(n) * 1000, n], under their records; the archive is
   the newest part of the blocks that tile the ids before.
   */
  lemma {:induction false} WindowAlways(records: seq<string>, config: Config)
    requires NoneEmpty(records)
    ensures Window(After(records, config), records, config)
  {
    if records != [] {
      var before, data := records[..|records| - 1], records[|records| - 1];
      assert records == before + [data];
      WindowAlways(before, config);
      WindowStep(After(before, config), before, data, config);
    }
  }

  // ----- what the window means -----

  lemma {:induction false} HeldSize(records: seq<string>, low: nat)
    requires low <= |records|
    ensures |Held(records, low)| == |records| - low
    decreases |records| - low
  {
    if low == |records| {
      assert Held(records, low) == map[];
    } else {
      HeldSize(records, low + 1);
      assert Held(records, low) == Held(records, low + 1)[low + 1 := RecordOf(records, low + 1)];
    }
  }

  /** The hash never holds 2000 records. */
  lemma HashBounded(records: seq<string>, config: Config)
    requires NoneEmpty(records)
    ensures |After(records, config).hash| == |records| - Dumps(|records|) * 1000 < 2000
  {
    WindowAlways(records, config);
    if records != [] {
      DumpsStep(|records|);
    }
    HeldSize(records, Dumps(|records|) * 1000);
  }

  predicate Covers(f: File, id: nat)
  {
    id <= f.stopId < id + 1000
  }

  lemma {:induction false} BlockAt(records: seq<string>, m: nat, k: nat)
    requires m * 1000 <= |records| && k < m
    ensures Blocks(records, m)[k] == Block(records, k)
  {
    if k < m - 1 {
      BlockAt(records, m - 1, k);
    }
  }

  /** The block a dumping call reads from the hash it finds. */
  lemma DumpedBlock(front: seq<string>, data: string, m: nat, config: Config)
    requires NoneEmpty(front + [data]) && |front| + 1 == m * 1000 + 2000 && Dumps(|front|) == m
    ensures DumpFile(After(front, config).hash[|front| + 1 := data], |front| + 1) == Ok(Block(front + [data], m))
  {
    assert NoneEmpty(front) by {
      assert forall k :: 0 <= k < |front| ==> front[k] == (front + [data])[k];
    }
    WindowAlways(front, config);
    HeldExtend(front, data, m * 1000);
    ReadHeld(front + [data], m * 1000);
  }

  lemma WrittenNext(front: seq<string>, data: string, config: Config, id: nat)
    requires config.msgpack && After(front, config).counter + 1 == id
    ensures !DumpsAt(id) ==> Written(front + [data], config) == Written(front, config)
    ensures DumpsAt(id) ==>
              var r := DumpFile(After(front, config).hash[id := data], id);
              r.Ok? ==> Written(front + [data], config) == Written(front, config) + [r.value]
  {
    assert (front + [data])[..|front|] == front;
  }

  lemma WrittenTurn(front: seq<string>, data: string, m: nat, config: Config)
    requires NoneEmpty(front + [data]) && config.msgpack && After(front, config).counter == |front|
    requires m == Dumps(|front|) && m * 1000 <= |front| && Written(front, config) == Blocks(front, m)
    ensures Dumps(|front| + 1) * 1000 <= |front| + 1
    ensures Written(front + [data], config) == Blocks(front + [data], Dumps(|front| + 1))
  {
    var records, id := front + [data], |front| + 1;
    WrittenNext(front, data, config, id);
    DumpsStep(id);
    BlocksExtend(front, data, m);
    if DumpsAt(id) {
      DumpedBlock(front, data, m, config);
      assert Dumps(id) == m + 1;
    }
  }

  /** Every dump of a run writes its block: the files written are the blocks that tile the ids before the hash. */
  lemma {:induction false} WrittenAlways(records: seq<string>, config: Config)
    requires NoneEmpty(records) && config.msgpack
    ensures Dumps(|records|) * 1000 <= |records| && Written(records, config) == Blocks(records, Dumps(|records|))
  {
    if records != [] {
      var front, data := records[..|records| - 1], records[|records| - 1];
      assert records == front + [data];
      WindowAlways(front, config);
      WrittenAlways(front, config);
      WrittenTurn(front, data, Dumps(|front|), config);
    }
  }

  /** Exactly one of the blocks of a run covers an id before the hash, and holds its record at its place. */
  lemma BlockCovers(records: seq<string>, m: nat, id: nat)
    requires m * 1000 <= |records| && 1 <= id <= |records|
    ensures var k := (id - 1) / 1000;
            && (forall j :: 0 <= j < m ==> (Covers(Blocks(records, m)[j], id) <==> j == k))
            && (k < m ==> Blocks(records, m)[k] == Block(records, k)
                          && Block(records, k).records[(id - 1) % 1000] == RecordOf(records, id))
  {
    var k := (id - 1) / 1000;
    forall j | 0 <= j < m ensures Covers(Blocks(records, m)[j], id) <==> j == k {
      BlockAt(records, m, j);
    }
    if k < m {
      BlockAt(records, m, k);
    }
  }

  /**
   Conservation: each id is in the hash under its record; or, with msgpack, a dump wrote its record, at its place, into
   one file and no other covers it.
   */
  lemma EveryIdOnce(records: seq<string>, id: nat, config: Config)
    requires NoneEmpty(records) && 1 <= id <= |records|
    ensures var hash := After(records, config).hash;
            && (id in hash <==> id > Dumps(|records|) * 1000)
            && (id in hash ==> hash[id] == RecordOf(records, id))
    ensures config.msgpack ==>
              var files, k := Written(records, config), (id - 1) / 1000;
              && (id in After(records, config).hash <==> k >= |files|)
              && (forall j :: 0 <= j < |files| ==> (Covers(files[j], id) <==> j == k))
              && (k < |files| ==> |files[k].records| == 1000
                                  && files[k].records[(id - 1) % 1000] == RecordOf(records, id))
  {
    WindowAlways(records, config);
    DumpsStep(|records|);
    if config.msgpack {
      WrittenAlways(records, config);
      BlockCovers(records, Dumps(|records|), id);
    }
  }

  /** The number of most recent ids that can still be read back. */
  function Retained(records: seq<string>, config: Config): nat
  {
    var s := After(records, config);
    |s.files| * 1000 + |s.hash|
  }

  lemma {:induction false} FilesBounds(m: nat, maxFiles: int)
    ensures FilesAfter(m, maxFiles) <= if maxFiles >= -1 then maxFiles + 1 else 0
    ensures FilesAfter(m, maxFiles) <= m
    ensures maxFiles > 10 ==> FilesAfter(m, maxFiles) >= if m <= maxFiles - 10 then m else maxFiles - 10
  {
    if m > 0 {
      FilesBounds(m - 1, maxFiles);
    }
  }

  /**
   With msgpack, the archive and the hash together hold one contiguous interval of ids that ends at the newest; it has
   min(n, (count - 9) * 1000) ids at least when the configured count is above ten.
   */
  lemma RetainedInterval(records: seq<string>, id: nat, config: Config)
    requires NoneEmpty(records) && config.msgpack
    ensures Retained(records, config) <= |records|
    ensures |After(records, config).files| <= if config.maxFiles >= -1 then config.maxFiles + 1 else 0
    ensures config.maxFiles > 10 ==>
              Retained(records, config) >=
                if |records| <= (config.maxFiles - 9) * 1000 then |records| else (config.maxFiles - 9) * 1000
    ensures 1 <= id <= |records| ==>
              (id > |records| - Retained(records, config) <==>
                id in After(records, config).hash || exists f :: f in After(records, config).files && Covers(f, id))
  {
    var s, m := After(records, config), Dumps(|records|);
    WindowAlways(records, config);
    HashBounded(records, config);
    FilesBounds(m, config.maxFiles);
    DumpsStep(|records| + 1);
    if 1 <= id <= |records| {
      BlockCovers(records, m, id);
      var all, k := Blocks(records, m), (id - 1) / 1000;
      assert s.files == all[m - |s.files|..];
      if m - |s.files| <= k < m {
        assert all[k] == s.files[k - (m - |s.files|)];
        assert all[k] in s.files && Covers(all[k], id);
      }
    }
  }

  /**
   Rotation starts at count + 2 files and then deletes twelve of them, not ten; with ten or fewer configured it deletes
   all, the block just written included.
   */
  lemma NewestSurvives(files: seq<File>, maxFiles: int)
    requires files != []
    ensures var kept := Rotate(files, maxFiles);
            (kept != [] && kept[|kept| - 1] == files[|files| - 1]) <==> |files| <= maxFiles + 1 || maxFiles > 10
    ensures |files| == maxFiles + 2 && maxFiles > 10 ==> Rotate(files, maxFiles) == files[12..]
  {
  }

  /** The newest file of the archive is the one the last dump wrote. */
  ghost predicate LastBlockKept(records: seq<string>, config: Config)
  {
    var written, files := Written(records, config), After(records, config).files;
    written != [] ==> files != [] && files[|files| - 1] == written[|written| - 1]
  }

  lemma LastBlockKeptIff(records: seq<string>, config: Config)
    requires NoneEmpty(records) && config.msgpack
    ensures LastBlockKept(records, config)
       <==> Dumps(|records|) == 0 || FilesAfter(Dumps(|records|), config.maxFiles) >= 1
  {
    WindowAlways(records, config);
    WrittenAlways(records, config);
  }

  /** Exactly when the configured count is above ten does every run have its last dumped block in the archive. */
  lemma ArchiveNeverEmptied(maxFiles: int)
    ensures (forall records :: NoneEmpty(records) ==> LastBlockKept(records, Config(true, maxFiles))) <==> maxFiles > 10
  {
    var config := Config(true, maxFiles);
    if maxFiles > 10 {
      forall records | NoneEmpty(records) ensures LastBlockKept(records, config) {
        LastBlockKeptIff(records, config);
        FilesBounds(Dumps(|records|), maxFiles);
      }
    } else {
      var m: nat := if maxFiles < -1 then 1 else maxFiles + 2;
      FilesGrow(m - 1, maxFiles);
      assert FilesAfter(m, maxFiles) == 0;
      var records := seq((m + 1) * 1000, _ => "x");
      assert NoneEmpty(records) && Dumps(|records|) == m;
      LastBlockKeptIff(records, config);
    }
  }

  lemma {:induction false} FilesGrow(m: nat, maxFiles: int)
    requires m <= (if maxFiles >= -1 then maxFiles + 1 else 0)
    ensures FilesAfter(m, maxFiles) == m
  {
    if m > 0 {
      FilesGrow(m - 1, maxFiles);
    }
  }
}
