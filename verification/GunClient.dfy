/** The client object: `ham_mix` on its backend and the loop that puts the diff, as methods that change the backend. */
module GunClientCode {
  import opened GunGraph
  import opened Ham
  import opened Results

  // ----- the put loop on values -----

  function PutNode(node: Node, d: Change): Node
  {
    node.(marks := node.marks + Stamps(d), fields := node.fields + d.fields)
  }

  function PutAll(db: map<string, Node>, diff: map<string, Change>): map<string, Node>
  {
    map soul | soul in db :: if soul in diff then PutNode(db[soul], diff[soul]) else db[soul]
  }

  /** The backend after one `get` that received these changes. */
  function Received(db: map<string, Node>, changes: map<string, Change>): map<string, Node>
  {
    PutAll(Mixed(db, changes), Diff(changes))
  }

  /** Every node has its table, and the states next to it are the same. */
  ghost predicate TablesAgree(db: map<string, Node>)
  {
    forall soul :: soul in db ==> !TableLost(db[soul]) && db[soul].table == db[soul].marks
  }

  /** Some field of the change is called ">". */
  ghost predicate CarriesTable(changes: map<string, Change>)
  {
    exists soul :: soul in changes && ">" in changes[soul].fields
  }

  lemma StampsOfDiff(n: Change)
    ensures Stamps(Change(Stamps(n), n.fields)) == Stamps(n)
  {
    assert forall k :: k in n.fields ==> k in Stamps(n);
  }

  lemma ReceivedAt(db: map<string, Node>, changes: map<string, Change>, soul: string)
    ensures soul in Received(db, changes) <==> soul in db || Touches(changes, soul)
    ensures Touches(changes, soul) ==>
              var base := Fetched(NodeAt(db, soul), soul);
              Received(db, changes)[soul]
                == Node(base.table + Stamps(changes[soul]), base.marks + Stamps(changes[soul]),
                        base.fields + changes[soul].fields)
    ensures !Touches(changes, soul) && soul in db ==> Received(db, changes)[soul] == db[soul]
  {
    MixedPointwise(db, changes, soul);
    if Touches(changes, soul) {
      PutOverwritten(Fetched(NodeAt(db, soul), soul), changes[soul]);
    }
  }

  lemma PutOverwritten(base: Node, n: Change)
    ensures PutNode(Overwritten(base, n), Change(Stamps(n), n.fields))
         == Node(base.table + Stamps(n), base.marks + Stamps(n), base.fields + n.fields)
  {
    StampsOfDiff(n);
    assert (base.fields + n.fields) + n.fields == base.fields + n.fields;
  }

  /**
   After a `get` every received key has its value, and its state among the marks; the table has the state too, unless a
   field called ">" has taken its place.
   */
  lemma ReceivedKeys(db: map<string, Node>, changes: map<string, Change>, soul: string, key: string)
    requires !Raises(db, changes) && soul in changes && key in changes[soul].fields
    ensures soul in Received(db, changes)
    ensures var node := Received(db, changes)[soul];
            && key in node.fields && node.fields[key] == changes[soul].fields[key]
            && key in node.marks && node.marks[key] == StampOf(changes[soul], key)
            && (TableLost(node) <==> ">" in changes[soul].fields)
            && (!TableLost(node) ==> key in node.table && node.table[key] == StampOf(changes[soul], key))
  {
    assert key in changes[soul].fields.Keys && Touches(changes, soul);
    assert key in Stamps(changes[soul]);
    ReceivedAt(db, changes, soul);
  }

  /** A `get` touches nothing but the keys it received. */
  lemma ReceivedFrame(db: map<string, Node>, changes: map<string, Change>, soul: string, key: string)
    requires !Raises(db, changes) && (soul in changes ==> key !in changes[soul].fields)
    ensures soul in Received(db, changes) <==> soul in db || Touches(changes, soul)
    ensures !Touches(changes, soul) && soul in db ==> Received(db, changes)[soul] == db[soul]
    ensures Touches(changes, soul) ==>
              var now, was := Received(db, changes)[soul], Before(db, soul);
              && (key != "#" ==> SameAt(now, was, key))
              && (key in now.marks <==> key in was.marks) && (key in now.marks ==> now.marks[key] == was.marks[key])
  {
    ReceivedAt(db, changes, soul);
    MixFrame(db, changes, soul, key);
  }

  /** A node that received a field called ">" makes the next `get` on its soul raise. */
  lemma LostTableRaises(db: map<string, Node>, changes: map<string, Change>, soul: string, next: map<string, Change>)
    requires !Raises(db, changes) && soul in changes && ">" in changes[soul].fields && Touches(next, soul)
    ensures Raises(Received(db, changes), next)
  {
    ReceivedKeys(db, changes, soul, ">");
  }

  /** The backend after these responses; None when one of them raised. */
  function ReceivedAll(history: seq<map<string, Change>>): Option<map<string, Node>>
  {
    if history == [] then Some(map[]) else
      match ReceivedAll(history[..|history| - 1])
      case None => None
      case Some(db) =>
        if Raises(db, history[|history| - 1]) then None else Some(Received(db, history[|history| - 1]))
  }

  /** Table and marks always hold the same entries, and a node keeps naming its soul. */
  ghost predicate Tracked(db: map<string, Node>)
  {
    NamesSouls(db) && forall soul :: soul in db ==> db[soul].table == db[soul].marks
  }

  lemma ReceivedTracked(db: map<string, Node>, changes: map<string, Change>)
    requires Tracked(db)
    ensures Tracked(Received(db, changes))
  {
    forall soul | soul in Received(db, changes)
      ensures var node := Received(db, changes)[soul]; "#" in node.fields && node.table == node.marks
    {
      ReceivedAt(db, changes, soul);
    }
  }

  lemma ReceivedAgreesIff(db: map<string, Node>, changes: map<string, Change>)
    requires Tracked(db)
    ensures TablesAgree(Received(db, changes)) <==> TablesAgree(db) && !CarriesTable(changes)
  {
    ReceivedTracked(db, changes);
    var db' := Received(db, changes);
    forall soul ensures (soul in db' && TableLost(db'[soul]))
      <==> (soul in db && TableLost(db[soul])) || (soul in changes && ">" in changes[soul].fields)
    {
      ReceivedAt(db, changes, soul);
      if soul in changes && ">" in changes[soul].fields {
        assert ">" in changes[soul].fields.Keys && ">" in Stamps(changes[soul]);
      }
    }
  }

  /**
   Over any number of responses from an empty backend: none raises and the two tables of states say the same, exactly
   when no field in any response is called ">".
   */
  lemma {:induction false} TablesAgreeIff(history: seq<map<string, Change>>)
    ensures ReceivedAll(history).Some? && TablesAgree(ReceivedAll(history).value)
       <==> forall i :: 0 <= i < |history| ==> !CarriesTable(history[i])
    ensures ReceivedAll(history).Some? ==> Tracked(ReceivedAll(history).value)
  {
    if history != [] {
      var k := |history| - 1;
      var before := ReceivedAll(history[..k]);
      TablesAgreeIff(history[..k]);
      assert (forall i :: 0 <= i < |history| ==> !CarriesTable(history[i]))
        <==> (forall i :: 0 <= i < k ==> !CarriesTable(history[..k][i])) && !CarriesTable(history[k]);
      if before.Some? {
        ReceivedAgreesIff(before.value, history[k]);
        ReceivedTracked(before.value, history[k]);
      }
    }
  }

  // ----- the loops -----

  lemma MapPlus<V>(base: map<string, V>, m: map<string, V>, key: string, v: V)
    ensures (base + m)[key := v] == base + m[key := v]
    ensures base + map[] == base
  {
  }

  /** The part of a change that was handled so far: some of its fields, with their states. */
  ghost predicate IsPart(d: Change, n: Change, todo: set<string>)
  {
    && todo <= n.fields.Keys && d.fields.Keys == n.fields.Keys - todo && d.stamps.Keys == d.fields.Keys
    && (forall k :: k in d.fields ==> d.fields[k] == n.fields[k])
    && (forall k :: k in d.stamps ==> d.stamps[k] == StampOf(n, k))
  }

  lemma PartDone(d: Change, n: Change)
    requires IsPart(d, n, {})
    ensures d == Change(Stamps(n), n.fields)
  {
    assert d.fields == n.fields && d.stamps == Stamps(n);
  }

  lemma PartNext(d: Change, n: Change, todo: set<string>, key: string)
    requires IsPart(d, n, todo) && key in todo
    ensures IsPart(Change(d.stamps[key := StampOf(n, key)], d.fields[key := n.fields[key]]), n, todo - {key})
  {
  }

  /** A node with the table and the fields of a part written over it. */
  function With(base: Node, d: Change): Node
  {
    Node(base.table + d.stamps, base.marks, base.fields + d.fields)
  }

  function Marked(base: Node, d: Change): Node
  {
    Node(base.table, base.marks + d.stamps, base.fields + d.fields)
  }

  lemma WithNext(base: Node, d: Change, key: string, state: Stamp, val: string)
    requires key != "_"
    ensures var node, next := With(base, d), Change(d.stamps[key := state], d.fields[key := val]);
            Node(node.table[key := state], node.marks, node.fields[key := val]) == With(base, next)
    ensures var node, next := Marked(base, d), Change(d.stamps[key := state], d.fields[key := val]);
            Node(node.table, node.marks[key := state], node.fields[key := val]) == Marked(base, next)
    ensures With(base, Change(map[], map[])) == base == Marked(base, Change(map[], map[]))
  {
    MapPlus(base.table, d.stamps, key, state);
    MapPlus(base.marks, d.stamps, key, state);
    MapPlus(base.fields, d.fields, key, val);
  }

  /** One put moves the marked part of a node on by one field. */
  lemma PutTurn(was: map<string, Node>, now: map<string, Node>, soul: string, base: Node, d: Change, n: Change,
                todo: set<string>, key: string)
    requires soul in was && was[soul] == base && now == was[soul := Marked(base, d)]
    requires IsPart(d, n, todo) && key in todo
    ensures var node, next := Marked(base, d), Change(d.stamps[key := StampOf(n, key)], d.fields[key := n.fields[key]]);
            && now[soul := Node(node.table, node.marks[key := StampOf(n, key)], node.fields[key := n.fields[key]])]
               == was[soul := Marked(base, next)]
            && IsPart(next, n, todo - {key})
  {
    PartNext(d, n, todo, key);
    WithNext(base, d, key, StampOf(n, key), n.fields[key]);
  }

  lemma FetchedWith(stored: Option<Node>, soul: string, d: Change)
    ensures Fetched(Some(With(Fetched(stored, soul), d)), soul) == With(Fetched(stored, soul), d)
  {
    var node := With(Fetched(stored, soul), d);
    assert "#" in node.fields;
    assert map["#" := soul] + node.fields == node.fields;
  }

  // One soul of a change, some of its keys still to come.

  ghost predicate HalfSoul(was: map<string, Node>, now: map<string, Node>, soul: string, n: Change,
                           todo: set<string>, d: Change)
  {
    && IsPart(d, n, todo)
    && (if todo == n.fields.Keys then d == Change(map[], map[]) && now == was
        else now == was[soul := With(Fetched(NodeAt(was, soul), soul), d)])
  }

  ghost predicate SoulMixed(was: map<string, Node>, now: map<string, Node>, soul: string, n: Change)
  {
    if n.fields == map[] then now == was
    else now == was[soul := Overwritten(Fetched(NodeAt(was, soul), soul), n)]
  }

  function Assigned(node: Node, key: string, state: Stamp, val: string): Node
    requires key != "_"
  {
    Node(node.table[key := state], node.marks, node.fields[key := val])
  }

  lemma SoulTurn(was: map<string, Node>, now: map<string, Node>, soul: string, n: Change,
                 todo: set<string>, d: Change, key: string)
    requires HalfSoul(was, now, soul, n, todo, d) && key in todo
    ensures HalfSoul(was, now[soul := Assigned(Fetched(NodeAt(now, soul), soul), key, StampOf(n, key), n.fields[key])],
                     soul, n, todo - {key}, Change(d.stamps[key := StampOf(n, key)], d.fields[key := n.fields[key]]))
  {
    PartNext(d, n, todo, key);
    AssignedNext(was, now, soul, n, todo, d, key, StampOf(n, key), n.fields[key]);
  }

  lemma AssignedNext(was: map<string, Node>, now: map<string, Node>, soul: string, n: Change,
                     todo: set<string>, d: Change, key: string, state: Stamp, val: string)
    requires HalfSoul(was, now, soul, n, todo, d) && key != "_"
    ensures now[soul := Assigned(Fetched(NodeAt(now, soul), soul), key, state, val)]
         == was[soul := With(Fetched(NodeAt(was, soul), soul), Change(d.stamps[key := state], d.fields[key := val]))]
  {
    var base := Fetched(NodeAt(was, soul), soul);
    FetchedHalf(was, now, soul, n, todo, d);
    WithNext(base, d, key, state, val);
    var node := Assigned(With(base, d), key, state, val);
    assert now[soul := node] == was[soul := node];
  }

  /** Fetching a node that is half mixed gives the old one with the part written over it. */
  lemma FetchedHalf(was: map<string, Node>, now: map<string, Node>, soul: string, n: Change,
                    todo: set<string>, d: Change)
    requires HalfSoul(was, now, soul, n, todo, d)
    ensures Fetched(NodeAt(now, soul), soul) == With(Fetched(NodeAt(was, soul), soul), d)
  {
    var base := Fetched(NodeAt(was, soul), soul);
    FetchedWith(NodeAt(was, soul), soul, d);
    WithNext(base, d, "", Missing, "");
    if now != was {
      assert NodeAt(now, soul) == Some(With(base, d));
    }
  }

  lemma SoulDone(was: map<string, Node>, now: map<string, Node>, soul: string, n: Change, d: Change)
    requires HalfSoul(was, now, soul, n, {}, d)
    ensures SoulMixed(was, now, soul, n) && d == Change(Stamps(n), n.fields)
  {
    PartDone(d, n);
    assert n.fields == map[] <==> n.fields.Keys == {};
  }

  /** The node keeps what `put` left in its meta data. */
  lemma KeepsTable(was: map<string, Node>, now: map<string, Node>, soul: string, n: Change,
                   todo: set<string>, d: Change)
    requires HalfSoul(was, now, soul, n, todo, d)
    ensures soul in now && TableLost(now[soul]) <==> soul in was && TableLost(was[soul])
  {
  }

  // The whole change, some of its souls still to come.

  /** No soul that was mixed already has lost its table. */
  ghost predicate NoneLost(was: map<string, Node>, changes: map<string, Change>, todo: set<string>)
  {
    forall s :: s in changes && s !in todo && Touches(changes, s) ==> !(s in was && TableLost(was[s]))
  }

  ghost predicate HalfGraph(was: map<string, Node>, now: map<string, Node>, changes: map<string, Change>,
                            todo: set<string>)
  {
    forall s :: NodeAt(now, s) == if s in todo then NodeAt(was, s) else MixedAt(NodeAt(was, s), changes, s)
  }

  ghost predicate HalfDiff(changes: map<string, Change>, todo: set<string>, diff: map<string, Change>)
  {
    && (forall s :: s in diff <==> s !in todo && Touches(changes, s))
    && (forall s :: s in diff ==> diff[s] == Change(Stamps(changes[s]), changes[s].fields))
  }

  lemma SoulMixedAt(before: map<string, Node>, now: map<string, Node>, changes: map<string, Change>,
                    soul: string, s: string)
    requires soul in changes && SoulMixed(before, now, soul, changes[soul])
    ensures NodeAt(now, s) == if s == soul then MixedAt(NodeAt(before, s), changes, s) else NodeAt(before, s)
  {
  }

  lemma GraphTurn(was: map<string, Node>, before: map<string, Node>, now: map<string, Node>,
                  changes: map<string, Change>, todo: set<string>, soul: string)
    requires HalfGraph(was, before, changes, todo) && soul in todo && soul in changes
    requires SoulMixed(before, now, soul, changes[soul])
    ensures HalfGraph(was, now, changes, todo - {soul})
  {
    forall s ensures NodeAt(now, s)
        == if s in todo - {soul} then NodeAt(was, s) else MixedAt(NodeAt(was, s), changes, s)
    {
      SoulMixedAt(before, now, changes, soul, s);
      assert NodeAt(before, s) == if s in todo then NodeAt(was, s) else MixedAt(NodeAt(was, s), changes, s);
    }
  }

  lemma DiffTurn(changes: map<string, Change>, todo: set<string>, diff: map<string, Change>, soul: string)
    requires HalfDiff(changes, todo, diff) && soul in todo && soul in changes
    ensures var n := changes[soul];
            HalfDiff(changes, todo - {soul},
                     if n.fields == map[] then diff else diff[soul := Change(Stamps(n), n.fields)])
  {
  }

  lemma GraphDone(was: map<string, Node>, now: map<string, Node>, changes: map<string, Change>)
    requires HalfGraph(was, now, changes, {})
    ensures now == Mixed(was, changes)
  {
    forall s ensures NodeAt(now, s) == NodeAt(Mixed(was, changes), s) {
      MixedPointwise(was, changes, s);
    }
    SameGraph(now, Mixed(was, changes));
  }

  lemma DiffDone(changes: map<string, Change>, diff: map<string, Change>)
    requires HalfDiff(changes, {}, diff)
    ensures diff == Diff(changes)
  {
    assert diff.Keys == Diff(changes).Keys;
  }

  lemma GraphStart(was: map<string, Node>, changes: map<string, Change>)
    ensures HalfGraph(was, was, changes, changes.Keys)
  {
  }

  class GunClient {
    var db: map<string, Node>

    constructor ()
      ensures db == map[]
    {
      db := map[];
    }

    /** One turn of `ham_mix`: fetches the node, judges, and overwrites whatever the verdict; a lost table raises. */
    method MixKey(machine: int, soul: string, key: string, state: Stamp, val: string) returns (raised: bool)
      requires key != "_"
      modifies this
      ensures raised <==> soul in old(db) && TableLost(old(db)[soul])
      ensures db == if raised then old(db)
                    else old(db)[soul := Assigned(Fetched(NodeAt(old(db), soul), soul), key, state, val)]
    {
      var node := Fetched(NodeAt(db, soul), soul);
      if TableLost(node) {
        return true;
      }
      var was := if key in node.table then node.table[key] else Missing;
      var known := if key in node.fields then node.fields[key] else ABSENT.value;
      var ham := Judge(machine, state, was, val, known);
      db := db[soul := Node(node.table[key := state], node.marks, node.fields[key := val])];
      raised := false;
    }

    /** The inner loop of `ham_mix`, for one soul of the change. */
    method MixSoul(machine: int, soul: string, n: Change) returns (d: Change, raised: bool)
      modifies this
      ensures raised <==> n.fields != map[] && soul in old(db) && TableLost(old(db)[soul])
      ensures raised ==> db == old(db)
      ensures !raised ==> SoulMixed(old(db), db, soul, n) && d == Change(Stamps(n), n.fields)
    {
      d, raised := Change(map[], map[]), false;
      var todo := n.fields.Keys;
      while todo != {}
        invariant HalfSoul(old(db), db, soul, n, todo, d)
        invariant todo != n.fields.Keys ==> !(soul in old(db) && TableLost(old(db)[soul]))
        decreases todo
      {
        var key :| key in todo;
        SoulTurn(old(db), db, soul, n, todo, d, key);
        KeepsTable(old(db), db, soul, n, todo, d);
        raised := MixKey(machine, soul, key, StampOf(n, key), n.fields[key]);
        if raised {
          assert n.fields != map[];
          return;
        }
        d := Change(d.stamps[key := StampOf(n, key)], d.fields[key := n.fields[key]]);
        todo := todo - {key};
      }
      SoulDone(old(db), db, soul, n, d);
    }

    /** `ham_mix(change, graph)`, for the souls in any order; when it raises, some of them are mixed already. */
    method HamMix(machine: int, changes: map<string, Change>) returns (diff: map<string, Change>, raised: bool)
      modifies this
      ensures raised <==> Raises(old(db), changes)
      ensures !raised ==> db == Mixed(old(db), changes) && diff == Diff(changes)
      ensures raised ==> exists todo :: todo <= changes.Keys && HalfGraph(old(db), db, changes, todo)
    {
      diff, raised := map[], false;
      var todo := changes.Keys;
      GraphStart(db, changes);
      while todo != {}
        invariant todo <= changes.Keys
        invariant HalfGraph(old(db), db, changes, todo) && HalfDiff(changes, todo, diff)
        invariant NoneLost(old(db), changes, todo)
        decreases todo
      {
        var soul :| soul in todo;
        ghost var before := db;
        assert NodeAt(db, soul) == NodeAt(old(db), soul);
        var d;
        d, raised := MixSoul(machine, soul, changes[soul]);
        if raised {
          return;
        }
        GraphTurn(old(db), before, db, changes, todo, soul);
        DiffTurn(changes, todo, diff, soul);
        if d.fields != map[] {
          diff := diff[soul := d];
        }
        todo := todo - {soul};
      }
      GraphDone(old(db), db, changes);
      DiffDone(changes, diff);
    }

    /** `Memory.put` on a soul that the backend has. A field called ">" leaves its state where the table was. */
    method Put(soul: string, key: string, value: string, state: Stamp)
      requires soul in db && key != "_"
      modifies this
      ensures var node := old(db)[soul];
              db == old(db)[soul := Node(node.table, node.marks[key := state], node.fields[key := value])]
    {
      var node := db[soul];
      db := db[soul := Node(node.table, node.marks[key := state], node.fields[key := value])];
    }

    /** The inner put loop, for one soul of the diff. */
    method PutSoul(soul: string, n: Change)
      requires soul in db
      modifies this
      ensures db == old(db)[soul := PutNode(old(db)[soul], n)]
    {
      ghost var base, d := db[soul], Change(map[], map[]);
      var todo := n.fields.Keys;
      WithNext(base, d, "", Missing, "");
      while todo != {}
        invariant IsPart(d, n, todo)
        invariant db == old(db)[soul := Marked(base, d)]
        decreases todo
      {
        var key :| key in todo;
        PutTurn(old(db), db, soul, base, d, n, todo, key);
        Put(soul, key, n.fields[key], StampOf(n, key));
        d := Change(d.stamps[key := StampOf(n, key)], d.fields[key := n.fields[key]]);
        todo := todo - {key};
      }
      PartDone(d, n);
    }

    /** The backend when the souls in `todo` are still to be put. */
    ghost predicate Putting(mixed: map<string, Node>, diff: map<string, Change>, todo: set<string>)
      reads this
    {
      && todo <= diff.Keys <= mixed.Keys == db.Keys
      && (forall s :: s in db && s in diff && s !in todo ==> db[s] == PutNode(mixed[s], diff[s]))
      && (forall s :: s in db && (s !in diff || s in todo) ==> db[s] == mixed[s])
    }

    /** The put loops over the diff. */
    method PutDiff(diff: map<string, Change>)
      requires diff.Keys <= db.Keys
      modifies this
      ensures db == PutAll(old(db), diff)
    {
      var todo := diff.Keys;
      while todo != {}
        invariant Putting(old(db), diff, todo)
        decreases todo
      {
        var soul :| soul in todo;
        PutSoul(soul, diff[soul]);
        todo := todo - {soul};
      }
    }

    /** What `get` does with the changes in a response. */
    method Receive(machine: int, changes: map<string, Change>) returns (raised: bool)
      modifies this
      ensures raised <==> Raises(old(db), changes)
      ensures !raised ==> db == Received(old(db), changes)
    {
      var diff;
      diff, raised := HamMix(machine, changes);
      if !raised {
        forall s | s in diff ensures s in db {
          MixedPointwise(old(db), changes, s);
        }
        PutDiff(diff);
      }
    }
  }
}
