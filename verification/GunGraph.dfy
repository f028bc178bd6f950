/**
 The graph a Gun client keeps, and `ham_mix` as it is coded: it computes the verdict of `Ham` and overwrites all the
 same. Every change wins, so two changes commute exactly when they agree where they overlap.

 The graph is the client's own backend (`Memory`). A node has its fields, the state table under "_" and ">", and the
 states that `put` keeps directly under "_". A field may itself be called ">": putting it stores its state where the
 table was, and from then on reading a state from the node raises.
 */
module GunGraph {
  import opened Ham
  import opened Results
  import Strings

  /** The entry "_" of a node holds its meta data and is not a field. */
  type Fields = m: map<string, string> | "_" !in m

  datatype Node = Node(table: map<string, Stamp>, marks: map<string, Stamp>, fields: Fields)

  /** A node of a change: its fields, and its states if it has any meta data. */
  datatype Change = Change(stamps: map<string, Stamp>, fields: Fields)

  /** The table was overwritten by the state of a field called ">". */
  predicate TableLost(node: Node)
  {
    ">" in node.marks
  }

  /** `get_state_of(node, key)` */
  function StampOf(n: Change, key: string): Stamp
  {
    if key in n.stamps then n.stamps[key] else Missing
  }

  function Stamps(n: Change): map<string, Stamp>
  {
    map k | k in n.fields :: StampOf(n, k)
  }

  function NodeAt(db: map<string, Node>, soul: string): Option<Node>
  {
    if soul in db then Some(db[soul]) else None
  }

  /** `Memory.get(soul)`: the stored node with its soul filled in, or a new one. */
  function Fetched(stored: Option<Node>, soul: string): Node
  {
    match stored
    case Some(node) => node.(fields := map["#" := soul] + node.fields)
    case None => Node(map[], map[], map["#" := soul])
  }

  /** The verdict for one incoming field, as `ham_mix` computes it before ignoring it. */
  function VerdictFor(machine: int, db: map<string, Node>, soul: string, n: Change, key: string): Verdict
    requires key in n.fields
  {
    var node := Fetched(NodeAt(db, soul), soul);
    Judge(machine, StampOf(n, key), if key in node.table then node.table[key] else Missing,
          n.fields[key], if key in node.fields then node.fields[key] else ABSENT.value)
  }

  // ----- what mixing does -----

  /** The assignments of one change, on one node. */
  function Overwritten(node: Node, n: Change): Node
  {
    node.(table := node.table + Stamps(n), fields := node.fields + n.fields)
  }

  predicate Touches(changes: map<string, Change>, soul: string)
  {
    soul in changes && changes[soul].fields != map[]
  }

  /** `ham_mix` raises when it looks for a state in a table that is lost. */
  predicate Raises(db: map<string, Node>, changes: map<string, Change>)
  {
    exists soul :: soul in changes && Touches(changes, soul) && soul in db && TableLost(db[soul])
  }

  /** Some field is received for a stored node whose table is lost. */
  lemma RaisesIff(db: map<string, Node>, changes: map<string, Change>)
    ensures Raises(db, changes)
       <==> exists soul, key :: soul in changes && key in changes[soul].fields && soul in db && ">" in db[soul].marks
  {
    if soul :| soul in changes && Touches(changes, soul) && soul in db && TableLost(db[soul]) {
      assert changes[soul].fields.Keys != {};
      var key :| key in changes[soul].fields.Keys;
    }
    if soul, key :| soul in changes && key in changes[soul].fields && soul in db && ">" in db[soul].marks {
      assert Touches(changes, soul);
    }
  }

  /** What mixing leaves at one soul. */
  function MixedAt(stored: Option<Node>, changes: map<string, Change>, soul: string): Option<Node>
  {
    if Touches(changes, soul) then Some(Overwritten(Fetched(stored, soul), changes[soul])) else stored
  }

  /** The graph after `ham_mix`, when it does not raise. */
  function Mixed(db: map<string, Node>, changes: map<string, Change>): map<string, Node>
  {
    map soul | soul in db.Keys + changes.Keys && MixedAt(NodeAt(db, soul), changes, soul).Some? ::
      MixedAt(NodeAt(db, soul), changes, soul).value
  }

  lemma MixedPointwise(db: map<string, Node>, changes: map<string, Change>, soul: string)
    ensures NodeAt(Mixed(db, changes), soul) == MixedAt(NodeAt(db, soul), changes, soul)
  {
  }

  /** Graphs are equal when they hold the same at every soul. */
  lemma SameGraph(a: map<string, Node>, b: map<string, Node>)
    requires forall soul :: NodeAt(a, soul) == NodeAt(b, soul)
    ensures a == b
  {
    forall soul ensures soul in a <==> soul in b {
      assert NodeAt(a, soul) == NodeAt(b, soul);
    }
    forall soul | soul in a ensures a[soul] == b[soul] {
      assert NodeAt(a, soul) == NodeAt(b, soul);
    }
  }

  /** The diff `ham_mix` returns. */
  function Diff(changes: map<string, Change>): map<string, Change>
  {
    map soul | soul in changes && changes[soul].fields != map[] ::
      Change(Stamps(changes[soul]), changes[soul].fields)
  }

  /** Mixing neither loses a table nor brings one back. */
  lemma MixedLost(db: map<string, Node>, changes: map<string, Change>, soul: string)
    ensures soul in Mixed(db, changes) && TableLost(Mixed(db, changes)[soul]) <==> soul in db && TableLost(db[soul])
  {
    MixedPointwise(db, changes, soul);
  }

  /** Each changed key ends in the graph and in the diff with the change's value and state. */
  lemma MixOverwrites(db: map<string, Node>, changes: map<string, Change>, soul: string, key: string)
    requires !Raises(db, changes) && soul in changes && key in changes[soul].fields
    ensures var n := changes[soul];
            && soul in Mixed(db, changes) && soul in Diff(changes)
            && var g, d := Mixed(db, changes)[soul], Diff(changes)[soul];
            && !TableLost(g)
            && key in g.fields && g.fields[key] == n.fields[key] && key in g.table
            && key in d.fields && d.fields[key] == n.fields[key] && key in d.stamps
            && d.stamps[key] == g.table[key] == if key in n.stamps then n.stamps[key] else Missing
  {
    assert key in changes[soul].fields.Keys;
    assert Touches(changes, soul);
    assert key in Stamps(changes[soul]);
    MixedPointwise(db, changes, soul);
    MixedLost(db, changes, soul);
  }

  /** Two nodes hold the same under a key. */
  predicate SameAt(a: Node, b: Node, key: string)
  {
    && (key in a.fields <==> key in b.fields) && (key in a.fields ==> a.fields[key] == b.fields[key])
    && (key in a.table <==> key in b.table) && (key in a.table ==> a.table[key] == b.table[key])
  }

  /** What a soul holds before it is first mixed. */
  const BLANK := Node(map[], map[], map[])

  function Before(db: map<string, Node>, soul: string): Node
  {
    if soul in db then db[soul] else BLANK
  }

  /**
   Nothing else is in the diff or changes in the graph: every other key is as it was, or absent on a new soul. Only the
   field "#" appears on a touched node that lacks it, and names the soul.
   */
  lemma MixFrame(db: map<string, Node>, changes: map<string, Change>, soul: string, key: string)
    requires !Raises(db, changes) && (soul in changes ==> key !in changes[soul].fields)
    ensures soul in Diff(changes) <==> Touches(changes, soul)
    ensures soul in Diff(changes) ==> key !in Diff(changes)[soul].fields && key !in Diff(changes)[soul].stamps
    ensures !Touches(changes, soul) ==> NodeAt(Mixed(db, changes), soul) == NodeAt(db, soul)
    ensures Touches(changes, soul) ==> soul in Mixed(db, changes)
    ensures Touches(changes, soul) && key != "#" ==> SameAt(Mixed(db, changes)[soul], Before(db, soul), key)
    ensures Touches(changes, soul) && key == "#" ==>
              var now, was := Mixed(db, changes)[soul], Before(db, soul);
              "#" in now.fields && now.fields["#"] == if "#" in was.fields then was.fields["#"] else soul
    ensures Touches(changes, soul) ==> Mixed(db, changes)[soul].marks == Before(db, soul).marks
  {
    MixedPointwise(db, changes, soul);
  }

  /** What a key counts as: what is stored, and state 0 and value "0" for what is not; a new soul knows its own name. */
  function Current(db: map<string, Node>, soul: string, key: string): Update
  {
    var node := Before(db, soul);
    Update(if key in node.table then StampValue(node.table[key]) else 0,
           if key in node.fields then node.fields[key] else if key == "#" then soul else "0")
  }

  /** The verdict for a field compares it with that. */
  lemma VerdictForIff(machine: int, db: map<string, Node>, soul: string, n: Change, key: string)
    requires key in n.fields
    ensures var incoming := Update(StampValue(StampOf(n, key)), n.fields[key]);
            var v := VerdictFor(machine, db, soul, n, key);
            && (v.TakeIncoming? <==> incoming.state <= machine && Later(Current(db, soul, key), incoming))
            && (v.Defer? <==> incoming.state > machine)
  {
    VerdictIff(machine, Current(db, soul, key), Update(StampValue(StampOf(n, key)), n.fields[key]));
  }

  lemma FetchedTwice(stored: Option<Node>, soul: string, n: Change)
    ensures Fetched(Some(Overwritten(Fetched(stored, soul), n)), soul) == Overwritten(Fetched(stored, soul), n)
  {
    var node := Overwritten(Fetched(stored, soul), n);
    assert "#" in node.fields;
    assert map["#" := soul] + node.fields == node.fields;
  }

  lemma OverwrittenTwice(node: Node, n: Change)
    ensures Overwritten(Overwritten(node, n), Change(Stamps(n), n.fields)) == Overwritten(node, n)
  {
    assert Stamps(Change(Stamps(n), n.fields)) == Stamps(n) by {
      assert forall k :: k in n.fields ==> k in Stamps(n);
    }
    assert node.table + Stamps(n) + Stamps(n) == node.table + Stamps(n);
    assert node.fields + n.fields + n.fields == node.fields + n.fields;
  }

  /** Mixing the returned diff in again leaves the graph as it is. */
  lemma MixDiffAgain(db: map<string, Node>, changes: map<string, Change>)
    requires !Raises(db, changes)
    ensures !Raises(Mixed(db, changes), Diff(changes))
    ensures Mixed(Mixed(db, changes), Diff(changes)) == Mixed(db, changes)
  {
    var once, diff := Mixed(db, changes), Diff(changes);
    forall soul ensures NodeAt(Mixed(once, diff), soul) == NodeAt(once, soul) {
      MixedPointwise(db, changes, soul);
      MixedPointwise(once, diff, soul);
      if Touches(changes, soul) {
        FetchedTwice(NodeAt(db, soul), soul, changes[soul]);
        OverwrittenTwice(Fetched(NodeAt(db, soul), soul), changes[soul]);
      }
    }
    SameGraph(Mixed(once, diff), once);
    forall soul | Touches(diff, soul) && soul in once ensures !TableLost(once[soul]) {
      MixedLost(db, changes, soul);
      assert Touches(changes, soul);
    }
  }

  // ----- what overwriting costs -----

  ghost predicate AgreeNodes(a: Change, b: Change)
  {
    forall k :: k in a.fields && k in b.fields ==> a.fields[k] == b.fields[k] && StampOf(a, k) == StampOf(b, k)
  }

  /** Where both changes carry a key, value and state are the same. */
  ghost predicate Agree(a: map<string, Change>, b: map<string, Change>)
  {
    forall s :: s in a && s in b ==> AgreeNodes(a[s], b[s])
  }

  lemma OverwriteCommutes(node: Node, a: Change, b: Change)
    requires AgreeNodes(a, b)
    ensures Overwritten(Overwritten(node, a), b) == Overwritten(Overwritten(node, b), a)
  {
    assert node.fields + a.fields + b.fields == node.fields + b.fields + a.fields;
    assert node.table + Stamps(a) + Stamps(b) == node.table + Stamps(b) + Stamps(a);
  }

  lemma MixCommutesAt(db: map<string, Node>, a: map<string, Change>, b: map<string, Change>, soul: string)
    requires Agree(a, b)
    ensures NodeAt(Mixed(Mixed(db, a), b), soul) == NodeAt(Mixed(Mixed(db, b), a), soul)
  {
    MixedPointwise(db, a, soul);
    MixedPointwise(db, b, soul);
    MixedPointwise(Mixed(db, a), b, soul);
    MixedPointwise(Mixed(db, b), a, soul);
    if Touches(a, soul) && Touches(b, soul) {
      FetchedTwice(NodeAt(db, soul), soul, a[soul]);
      FetchedTwice(NodeAt(db, soul), soul, b[soul]);
      OverwriteCommutes(Fetched(NodeAt(db, soul), soul), a[soul], b[soul]);
    }
  }

  lemma StillNoRaise(db: map<string, Node>, a: map<string, Change>, b: map<string, Change>)
    requires !Raises(db, b)
    ensures !Raises(Mixed(db, a), b)
  {
    forall soul | Touches(b, soul) && soul in Mixed(db, a) ensures !TableLost(Mixed(db, a)[soul]) {
      MixedLost(db, a, soul);
    }
  }

  /** Two changes may be mixed in either order exactly when they agree: `ham_mix` does not converge otherwise. */
  lemma MixCommutesIff(db: map<string, Node>, a: map<string, Change>, b: map<string, Change>)
    requires !Raises(db, a) && !Raises(db, b)
    ensures !Raises(Mixed(db, a), b) && !Raises(Mixed(db, b), a)
    ensures Mixed(Mixed(db, a), b) == Mixed(Mixed(db, b), a) <==> Agree(a, b)
  {
    StillNoRaise(db, a, b);
    StillNoRaise(db, b, a);
    var ab, ba := Mixed(Mixed(db, a), b), Mixed(Mixed(db, b), a);
    if Agree(a, b) {
      forall soul ensures NodeAt(ab, soul) == NodeAt(ba, soul) {
        MixCommutesAt(db, a, b, soul);
      }
      SameGraph(ab, ba);
    }
    if ab == ba {
      forall s, k | s in a && s in b && k in a[s].fields && k in b[s].fields
        ensures a[s].fields[k] == b[s].fields[k] && StampOf(a[s], k) == StampOf(b[s], k)
      {
        MixOverwrites(Mixed(db, a), b, s, k);
        MixOverwrites(Mixed(db, b), a, s, k);
      }
    }
  }

  // ----- what obeying the verdict would do -----

  /** The fields of a change whose verdict is to take them. */
  function Accepted(machine: int, db: map<string, Node>, soul: string, n: Change): Change
  {
    Change(n.stamps, map k | k in n.fields && VerdictFor(machine, db, soul, n, k).TakeIncoming? :: n.fields[k])
  }

  /** The change that is left when every verdict is obeyed. */
  function Obeyed(machine: int, db: map<string, Node>, changes: map<string, Change>): map<string, Change>
  {
    map soul | soul in changes :: Accepted(machine, db, soul, changes[soul])
  }

  /** The field is stored already, with this value and this state. */
  predicate Known(stored: Option<Node>, n: Change, key: string)
    requires key in n.fields
  {
    && stored.Some?
    && key in stored.value.fields && stored.value.fields[key] == n.fields[key]
    && key in stored.value.table && stored.value.table[key] == StampOf(n, key)
  }

  /** Overwriting the field is what the verdict asks for, or no change. */
  ghost predicate Harmless(machine: int, db: map<string, Node>, changes: map<string, Change>, soul: string)
  {
    soul in changes ==>
      forall key :: key in changes[soul].fields ==>
        || VerdictFor(machine, db, soul, changes[soul], key).TakeIncoming?
        || Known(NodeAt(db, soul), changes[soul], key)
  }

  /** Every node names its soul, as those that came from a `get` do. */
  ghost predicate NamesSouls(db: map<string, Node>)
  {
    forall soul :: soul in db ==> "#" in db[soul].fields
  }

  /** A part of a change: the same states, some of the fields. */
  ghost predicate IsPartOf(kept: Change, n: Change)
  {
    kept.stamps == n.stamps && forall k :: k in kept.fields ==> k in n.fields && kept.fields[k] == n.fields[k]
  }

  lemma OverlaySameIff<V>(base: map<string, V>, n: map<string, V>, kept: map<string, V>)
    requires forall k :: k in kept ==> k in n && kept[k] == n[k]
    ensures base + n == base + kept <==> forall k :: k in n && k !in kept ==> k in base && base[k] == n[k]
  {
    var full, part := base + n, base + kept;
    if full == part {
      forall k | k in n && k !in kept ensures k in base && base[k] == n[k] {
        assert k in full && full[k] == n[k];
        assert k in part;
      }
    }
  }

  /** A part does what the whole does exactly when the node knows the rest. */
  lemma PartSameIff(base: Node, n: Change, kept: Change)
    requires IsPartOf(kept, n)
    ensures Overwritten(base, n) == Overwritten(base, kept)
       <==> forall k :: k in n.fields && k !in kept.fields ==> Known(Some(base), n, k)
  {
    var ns, ks := Stamps(n), Stamps(kept);
    assert ns.Keys == n.fields.Keys && ks.Keys == kept.fields.Keys;
    OverlaySameIff(base.fields, n.fields, kept.fields);
    OverlaySameIff(base.table, ns, ks);
    if Overwritten(base, n) == Overwritten(base, kept) {
      assert base.fields + n.fields == base.fields + kept.fields && base.table + ns == base.table + ks;
      forall k | k in n.fields && k !in kept.fields ensures Known(Some(base), n, k) {
        assert k in ns && k !in ks;
      }
    }
  }

  /** A fetched node that names its soul is the stored one. */
  lemma FetchedNamed(node: Node, soul: string)
    requires "#" in node.fields
    ensures Fetched(Some(node), soul) == node
  {
    assert map["#" := soul] + node.fields == node.fields;
  }

  /** The same at one soul, where an untouched node stays away. */
  lemma PartSameAt(stored: Option<Node>, soul: string, n: Change, kept: Change)
    requires IsPartOf(kept, n) && (stored.Some? ==> "#" in stored.value.fields)
    ensures MixedAt(stored, map[soul := n], soul) == MixedAt(stored, map[soul := kept], soul)
       <==> forall k :: k in n.fields && k !in kept.fields ==> Known(stored, n, k)
  {
    if kept.fields == map[] {
      NothingKept(Fetched(stored, soul), kept);
      assert n.fields != map[] ==> exists k :: k in n.fields && k !in kept.fields;
    }
    if stored.Some? {
      FetchedNamed(stored.value, soul);
    }
    PartSameIff(Fetched(stored, soul), n, kept);
  }

  lemma NothingKept(base: Node, kept: Change)
    requires kept.fields == map[]
    ensures Overwritten(base, kept) == base
  {
    assert Stamps(kept) == map[];
    assert base.table + Stamps(kept) == base.table && base.fields + kept.fields == base.fields;
  }

  lemma ObeyedAt(machine: int, db: map<string, Node>, changes: map<string, Change>, soul: string)
    requires NamesSouls(db)
    ensures MixedAt(NodeAt(db, soul), changes, soul) == MixedAt(NodeAt(db, soul), Obeyed(machine, db, changes), soul)
       <==> Harmless(machine, db, changes, soul)
  {
    if soul in changes {
      PartSameAt(NodeAt(db, soul), soul, changes[soul], Accepted(machine, db, soul, changes[soul]));
    }
  }

  /**
   `ham_mix` does what obeying its verdicts would do exactly when each field it is given either has the verdict to take
   it or is stored already with the same value and state.
   */
  lemma ObeysVerdictsIff(machine: int, db: map<string, Node>, changes: map<string, Change>)
    requires NamesSouls(db) && !Raises(db, changes)
    ensures Mixed(db, changes) == Mixed(db, Obeyed(machine, db, changes))
       <==> forall soul :: soul in changes ==> Harmless(machine, db, changes, soul)
  {
    var full, part := Mixed(db, changes), Mixed(db, Obeyed(machine, db, changes));
    forall soul ensures NodeAt(full, soul) == NodeAt(part, soul) <==> Harmless(machine, db, changes, soul) {
      MixedPointwise(db, changes, soul);
      MixedPointwise(db, Obeyed(machine, db, changes), soul);
      ObeyedAt(machine, db, changes, soul);
    }
    if forall soul :: soul in changes ==> Harmless(machine, db, changes, soul) {
      SameGraph(full, part);
    }
  }

  /** A field whose verdict is to keep the current one is overwritten nevertheless. */
  lemma VerdictIgnored(machine: int, db: map<string, Node>, soul: string, n: Change, key: string)
    requires key in n.fields && soul in db && key in db[soul].fields && !TableLost(db[soul])
    requires VerdictFor(machine, db, soul, n, key).KeepCurrent?
    ensures Mixed(db, map[soul := n])[soul].fields[key] != db[soul].fields[key]
  {
    MixOverwrites(db, map[soul := n], soul, key);
    Strings.LessTrichotomy(n.fields[key], db[soul].fields[key]);
  }
}
