/**
 The log handler object, method by method. The Redis counter and hash and the archive directory are fields of the
 object here; `LogWindow` says what each call does to them.
 */
module LogHandling {
  import opened LogWindow
  import opened Results

  class LogHandler {
    const connected: bool
    const config: Config
    var counter: nat
    var hash: map<nat, string>
    var files: seq<File>
    var lastLogId: nat

    constructor (connected: bool, config: Config)
      ensures this.connected == connected && this.config == config
      ensures Contents() == EMPTY && lastLogId == 0
    {
      this.connected, this.config := connected, config;
      counter, hash, files, lastLogId := 0, map[], [], 0;
    }

    function Contents(): State
      reads this
    {
      State(counter, hash, files)
    }

    /** `_redis_get`: an absent record and an empty one raise alike. */
    method RedisGet(identifier: nat) returns (r: Result<string, Error>)
      ensures r.Ok? ==> identifier in hash && r == Ok(hash[identifier]) && hash[identifier] != ""
      ensures r.Err? ==> r == Err(MissingLog(identifier)) && (identifier !in hash || hash[identifier] == "")
    {
      if identifier !in hash || hash[identifier] == "" {
        return Err(MissingLog(identifier));
      }
      r := Ok(hash[identifier]);
    }

    /** The reading loop of a dump. */
    method ReadAll(startId: nat, stopId: nat) returns (r: Result<seq<string>, Error>)
      requires startId <= stopId
      ensures r == ReadBlock(hash, startId + 1, stopId)
    {
      PrependNothing(ReadBlock(hash, startId + 1, stopId));
      var records: seq<string> := [];
      var i := startId + 1;
      while i < stopId + 1
        invariant startId + 1 <= i <= stopId + 1
        invariant ReadBlock(hash, startId + 1, stopId) == Prepend(records, ReadBlock(hash, i, stopId))
        decreases stopId + 1 - i
      {
        var d := RedisGet(i);
        if d.Err? {
          return Err(d.error);
        }
        ghost var rest := ReadBlock(hash, i + 1, stopId);
        assert rest.Ok? ==> records + ([d.value] + rest.value) == (records + [d.value]) + rest.value;
        records := records + [d.value];
        i := i + 1;
      }
      assert records + [] == records;
      r := Ok(records);
    }

    /** `hkeys`: the keys, in whatever order the server lists them. */
    method HKeys() returns (keys: seq<nat>)
      ensures Elements(keys) == hash.Keys
    {
      keys := [];
      var left := hash.Keys;
      while left != {}
        invariant Elements(keys) + left == hash.Keys
        decreases left
      {
        var key :| key in left;
        keys := keys + [key];
        left := left - {key};
      }
    }

    /** `hdel` of some keys. */
    method HDel(keys: seq<nat>)
      modifies this`hash
      ensures hash == old(hash) - Elements(keys)
    {
      hash := hash - Elements(keys);
    }

    /** The trimming half of a dump: collects the old keys and deletes them a hundred at a time. */
    method TrimHash(stopId: nat)
      modifies this`hash
      ensures hash == Trim(old(hash), stopId)
    {
      var keys := HKeys();
      var keysToDelete: seq<nat> := [];
      var i := 0;
      while i < |keys|
        invariant 0 <= i <= |keys|
        invariant forall k :: k in keysToDelete <==> k in keys[..i] && k < stopId + 1
      {
        assert keys[..i + 1] == keys[..i] + [keys[i]];
        if keys[i] < stopId + 1 {
          keysToDelete := keysToDelete + [keys[i]];
        }
        i := i + 1;
      }
      assert keys[..|keys|] == keys;
      assert forall k :: k in keys <==> k in Elements(keys);
      var chunks := Chunks(keysToDelete, 100);
      ChunkedDeletion(hash, keysToDelete, 100);
      var c := 0;
      while c < |chunks|
        invariant 0 <= c <= |chunks|
        invariant DeleteChunks(hash, chunks[c..]) == DeleteChunks(old(hash), chunks)
      {
        assert chunks[c..][1..] == chunks[c + 1..];
        HDel(chunks[c]);
        c := c + 1;
      }
      assert hash == old(hash) - Elements(keysToDelete);
    }

    /** Writes a block and rotates. */
    method Archive(stopId: nat, records: seq<string>)
      modifies this`files
      ensures files == Rotate(WriteFile(old(files), File(stopId, records)), config.maxFiles)
    {
      files := WriteFile(files, File(stopId, records));
      if |files| > config.maxFiles + 1 {
        var cut := |files| - config.maxFiles + 10;
        files := if cut >= |files| then [] else files[cut..];
      }
    }

    method DataContainerDump(latestId: nat) returns (error: Option<Error>)
      requires latestId >= 2000
      modifies this`hash, this`files
      ensures (Contents(), error) == Dump(old(Contents()), latestId, config)
    {
      var startId, stopId := latestId - 2000, latestId - 1000;
      if config.msgpack {
        var r := ReadAll(startId, stopId);
        if r.Err? {
          return Some(r.error);
        }
        Archive(stopId, r.value);
      }
      TrimHash(stopId);
      error := None;
    }

    /** Without a database nothing happens; the caller sees the exception of a dump. */
    method HandleLog(data: string) returns (error: Option<Error>)
      modifies this`counter, this`lastLogId, this`hash, this`files
      ensures !connected ==> unchanged(this) && error == None
      ensures connected ==> (Contents(), error) == Handle(old(Contents()), data, config)
      ensures connected ==> lastLogId == counter == old(counter) + 1
    {
      error := None;
      if !connected {
        return;
      }
      counter := counter + 1;
      var latestId := counter;
      lastLogId := latestId;
      hash := hash[latestId := data];
      if latestId >= 2000 && latestId % 1000 == 0 {
        error := DataContainerDump(latestId);
      }
    }
  }

  /** A block read in two parts. */
  function Prepend(records: seq<string>, rest: Result<seq<string>, Error>): Result<seq<string>, Error>
  {
    match rest
    case Ok(more) => Ok(records + more)
    case Err(e) => Err(e)
  }

  lemma PrependNothing(rest: Result<seq<string>, Error>)
    ensures Prepend([], rest) == rest
  {
    if rest.Ok? {
      assert [] + rest.value == rest.value;
    }
  }

  lemma WindowTurn(s: State, records: seq<string>, i: nat, config: Config)
    requires i < |records| && NoneEmpty(records) && Window(s, records[..i], config)
    ensures Handle(s, records[i], config).1 == None
    ensures Window(Handle(s, records[i], config).0, records[..i + 1], config)
  {
    assert records[..i + 1] == records[..i] + [records[i]];
    WindowStep(s, records[..i], records[i], config);
  }

  /** A process that logs these records leaves exactly the window behind and never sees an error. */
  method LogAll(records: seq<string>, config: Config) returns (handler: LogHandler)
    requires NoneEmpty(records)
    ensures fresh(handler) && Window(handler.Contents(), records, config)
  {
    handler := new LogHandler(true, config);
    var i := 0;
    while i < |records|
      invariant 0 <= i <= |records|
      invariant handler.connected && handler.config == config && fresh(handler)
      invariant Window(handler.Contents(), records[..i], config)
    {
      WindowTurn(handler.Contents(), records, i, config);
      var error := handler.HandleLog(records[i]);
      assert error == None;
      i := i + 1;
    }
    assert records[..i] == records;
  }
}
