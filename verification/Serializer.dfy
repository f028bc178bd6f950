/**
 The tagged list serializer: `_serialize` marks the two kinds of objects a plain serializer cannot carry with a
 leading 998 or 999, and `_unserialize` looks for these marks again. The main results say for every list exactly
 which items come back as they were.

 The plain serializer (json or msgpack) is a pair of partial functions of which only `Inverts` is assumed.
 */
module Serializer {
  import opened Results

  /** What the plain serializer carries. */
  datatype Wire =
    | Number(n: int)
    | Text(s: string)
    | Blob(bytes: seq<nat>)
    | Sequence(items: seq<Wire>)
    | Mapping(entries: map<string, Wire>)
    | Null

  /** An item of the list: a plain value, or one of the two special objects, or something unsupported. */
  datatype Item =
    | Plain(w: Wire)
    | JsxDict(data: Wire)
    | JsxObject(md5: string, fields: Wire)
    | Unsupported

  datatype Error = NoSupportedFormat | CannotDump | CannotLoad | BadObject(tagged: Wire)

  /** Everything outside: the plain serializer, the json text of an object, and the registered schemas. */
  datatype World = World(
    dumps: Wire -> Option<seq<nat>>,
    loads: seq<nat> -> Option<Wire>,
    json: Wire -> string,
    fromJson: string -> Option<Wire>,
    schemas: set<string>)

  /** Loading what was dumped gives it back, for values and for the json text of objects. */
  ghost predicate Inverts(world: World)
  {
    && (forall w :: world.dumps(w).Some? ==> world.loads(world.dumps(w).value) == Some(w))
    && (forall w :: world.fromJson(world.json(w)) == Some(w))
  }

  // ----- one item -----

  /** `_serialize_item` */
  function SerializeItem(world: World, item: Item): Result<Wire, Error>
  {
    match item
    case Plain(Null) => Err(NoSupportedFormat)
    case Plain(w) => Ok(w)
    case JsxObject(md5, fields) => Ok(Sequence([Number(999), Text(md5), Text(world.json(fields))]))
    case JsxDict(data) => Ok(Sequence([Number(998), data]))
    case Unsupported => Err(NoSupportedFormat)
  }

  /** A list shaped like a marked dict. */
  predicate LooksLikeDict(w: Wire)
  {
    w.Sequence? && |w.items| == 2 && w.items[0] == Number(998)
  }

  /** A list shaped like a marked object. */
  predicate LooksLikeObject(w: Wire)
  {
    w.Sequence? && |w.items| == 3 && w.items[0] == Number(999)
  }

  /** The schema is the one passed in, or the one registered under the md5. */
  function SchemaFor(world: World, schema: Option<string>, md5: Wire): Option<string>
  {
    match schema
    case Some(given) => Some(given)
    case None => if md5.Text? && md5.s in world.schemas then Some(md5.s) else None
  }

  function UnserializeObject(world: World, schema: Option<string>, w: Wire): Result<Item, Error>
    requires LooksLikeObject(w)
  {
    if !w.items[2].Text? then Err(BadObject(w)) else
      match (SchemaFor(world, schema, w.items[1]), world.fromJson(w.items[2].s))
      case (Some(found), Some(fields)) => Ok(JsxObject(found, fields))
      case _ => Err(BadObject(w))
  }

  /** `_unserialize_item` */
  function UnserializeItem(world: World, schema: Option<string>, w: Wire): Result<Item, Error>
  {
    match w
    case Number(_) => Ok(Plain(w))
    case Text(_) => Ok(Plain(w))
    case Sequence(items) =>
      if LooksLikeDict(w) then Ok(JsxDict(items[1]))
      else if LooksLikeObject(w) then UnserializeObject(world, schema, w)
      else Ok(Plain(w))
    case Mapping(_) => Ok(Plain(w))
    case Null => Ok(Plain(w))
    case Blob(bytes) =>
      match world.loads(bytes)
      case Some(loaded) => Ok(Plain(loaded))
      case None => Ok(Plain(w))
  }

  // ----- the list -----

  function SerializeItems(world: World, items: seq<Item>): (r: Result<seq<Wire>, Error>)
    ensures r.Ok? ==> |r.value| == |items|
  {
    if items == [] then Ok([]) else
      match SerializeItems(world, items[..|items| - 1])
      case Err(e) => Err(e)
      case Ok(front) =>
        match SerializeItem(world, items[|items| - 1])
        case Err(e) => Err(e)
        case Ok(w) => Ok(front + [w])
  }

  function UnserializeItems(world: World, schema: Option<string>, ws: seq<Wire>): (r: Result<seq<Item>, Error>)
    ensures r.Ok? ==> |r.value| == |ws|
  {
    if ws == [] then Ok([]) else
      match UnserializeItems(world, schema, ws[..|ws| - 1])
      case Err(e) => Err(e)
      case Ok(front) =>
        match UnserializeItem(world, schema, ws[|ws| - 1])
        case Err(e) => Err(e)
        case Ok(item) => Ok(front + [item])
  }

  function Serialize(world: World, items: seq<Item>): Result<seq<nat>, Error>
  {
    match SerializeItems(world, items)
    case Err(e) => Err(e)
    case Ok(ws) =>
      match world.dumps(Sequence(ws))
      case None => Err(CannotDump)
      case Some(bytes) => Ok(bytes)
  }

  /** What `_unserialize` returns: a list of items, or one item. */
  datatype Loaded = Many(items: seq<Item>) | One(item: Item)

  function Unserialize(world: World, schema: Option<string>, bytes: seq<nat>): Result<Loaded, Error>
  {
    match world.loads(bytes)
    case None => Err(CannotLoad)
    case Some(Sequence(ws)) =>
      (match UnserializeItems(world, schema, ws)
       case Err(e) => Err(e)
       case Ok(items) => Ok(Many(items)))
    case Some(w) =>
      match UnserializeItem(world, schema, w)
      case Err(e) => Err(e)
      case Ok(item) => Ok(One(item))
  }

  lemma SerializeTurn(world: World, items: seq<Item>, at: nat)
    requires at < |items|
    ensures SerializeItems(world, items[..at + 1]) ==
      (match SerializeItems(world, items[..at])
       case Err(e) => Err(e)
       case Ok(front) =>
         match SerializeItem(world, items[at])
         case Err(e) => Err(e)
         case Ok(w) => Ok(front + [w]))
  {
    assert items[..at + 1][..at] == items[..at];
  }

  lemma UnserializeTurn(world: World, schema: Option<string>, ws: seq<Wire>, at: nat)
    requires at < |ws|
    ensures UnserializeItems(world, schema, ws[..at + 1]) ==
      (match UnserializeItems(world, schema, ws[..at])
       case Err(e) => Err(e)
       case Ok(front) =>
         match UnserializeItem(world, schema, ws[at])
         case Err(e) => Err(e)
         case Ok(item) => Ok(front + [item]))
  {
    assert ws[..at + 1][..at] == ws[..at];
  }

  lemma {:induction false} SerializeErrorSpreads(world: World, items: seq<Item>, at: nat)
    requires at <= |items| && SerializeItems(world, items[..at]).Err?
    ensures SerializeItems(world, items) == SerializeItems(world, items[..at])
    decreases |items| - at
  {
    if at == |items| {
      assert items[..at] == items;
    } else {
      SerializeTurn(world, items, at);
      SerializeErrorSpreads(world, items, at + 1);
    }
  }

  lemma {:induction false} UnserializeErrorSpreads(world: World, schema: Option<string>, ws: seq<Wire>, at: nat)
    requires at <= |ws| && UnserializeItems(world, schema, ws[..at]).Err?
    ensures UnserializeItems(world, schema, ws) == UnserializeItems(world, schema, ws[..at])
    decreases |ws| - at
  {
    if at == |ws| {
      assert ws[..at] == ws;
    } else {
      UnserializeTurn(world, schema, ws, at);
      UnserializeErrorSpreads(world, schema, ws, at + 1);
    }
  }

  method SerializeList(world: World, items: seq<Item>) returns (r: Result<seq<nat>, Error>)
    ensures r == Serialize(world, items)
  {
    var res: seq<Wire>, i := [], 0;
    while i < |items|
      invariant i <= |items| && SerializeItems(world, items[..i]) == Ok(res)
    {
      SerializeTurn(world, items, i);
      var one := SerializeItem(world, items[i]);
      if one.Err? {
        SerializeErrorSpreads(world, items, i + 1);
        return Err(one.error);
      }
      res := res + [one.value];
      i := i + 1;
    }
    assert items[..i] == items;
    var dumped := world.dumps(Sequence(res));
    return if dumped.Some? then Ok(dumped.value) else Err(CannotDump);
  }

  method UnserializeData(world: World, schema: Option<string>, bytes: seq<nat>) returns (r: Result<Loaded, Error>)
    ensures r == Unserialize(world, schema, bytes)
  {
    var data := world.loads(bytes);
    if data.None? {
      return Err(CannotLoad);
    }
    if !data.value.Sequence? {
      var one := UnserializeItem(world, schema, data.value);
      return if one.Ok? then Ok(One(one.value)) else Err(one.error);
    }
    var ws := data.value.items;
    var res: seq<Item>, i := [], 0;
    while i < |ws|
      invariant i <= |ws| && UnserializeItems(world, schema, ws[..i]) == Ok(res)
    {
      UnserializeTurn(world, schema, ws, i);
      var one := UnserializeItem(world, schema, ws[i]);
      if one.Err? {
        UnserializeErrorSpreads(world, schema, ws, i + 1);
        return Err(one.error);
      }
      res := res + [one.value];
      i := i + 1;
    }
    assert ws[..i] == ws;
    return Ok(Many(res));
  }

  // ----- what comes back -----

  /** The items that come back as they were, told from the item and the world alone. */
  predicate Faithful(world: World, schema: Option<string>, item: Item)
  {
    match item
    case Plain(Null) => false
    case Plain(Blob(bytes)) => world.loads(bytes) == None || world.loads(bytes) == Some(Blob(bytes))
    case Plain(Sequence(ws)) =>
      !(|ws| == 2 && ws[0] == Number(998)) && !(|ws| == 3 && ws[0] == Number(999))
    case Plain(_) => true
    case JsxDict(_) => true
    case JsxObject(md5, _) => schema == Some(md5) || (schema == None && md5 in world.schemas)
    case Unsupported => false
  }

  /** One item comes back exactly when it is faithful. */
  lemma ItemRoundTripIff(world: World, schema: Option<string>, item: Item)
    requires Inverts(world)
    ensures var sent := SerializeItem(world, item);
      Faithful(world, schema, item) <==> sent.Ok? && UnserializeItem(world, schema, sent.value) == Ok(item)
  {
    match item {
      case JsxObject(md5, fields) =>
        var w := SerializeItem(world, item).value;
        assert LooksLikeObject(w) && w.items[1] == Text(md5) && w.items[2] == Text(world.json(fields));
        assert world.fromJson(world.json(fields)) == Some(fields);
      case Plain(w) =>
        if LooksLikeObject(w) {
          assert UnserializeItem(world, schema, w) == UnserializeObject(world, schema, w);
        }
      case _ =>
    }
  }

  /** A dict goes out behind 998 and comes back from there, whatever it holds. */
  lemma DictOnWire(world: World, schema: Option<string>, data: Wire)
    ensures SerializeItem(world, JsxDict(data)) == Ok(Sequence([Number(998), data]))
    ensures UnserializeItem(world, schema, Sequence([Number(998), data])) == Ok(JsxDict(data))
  {
    assert LooksLikeDict(Sequence([Number(998), data]));
  }

  /**
   An object goes out behind 999, with its schema's md5 and its json text. It is read with the schema that is passed in,
   whatever the md5, and without one only when the md5 is registered.
   */
  lemma ObjectOnWire(world: World, schema: Option<string>, md5: Wire, json: Wire, name: string, fields: Wire)
    ensures SerializeItem(world, JsxObject(name, fields))
         == Ok(Sequence([Number(999), Text(name), Text(world.json(fields))]))
    ensures var w := Sequence([Number(999), md5, json]);
            var r := UnserializeItem(world, schema, w);
            && (r == Ok(JsxObject(name, fields)) <==>
                  && json.Text? && world.fromJson(json.s) == Some(fields)
                  && (schema == Some(name) || (schema == None && md5 == Text(name) && name in world.schemas)))
            && (r.Ok? ==> r.value.JsxObject?) && (r.Err? ==> r == Err(BadObject(w)))
  {
    var w := Sequence([Number(999), md5, json]);
    assert LooksLikeObject(w) && w.items[1] == md5 && w.items[2] == json;
    assert UnserializeItem(world, schema, w) == UnserializeObject(world, schema, w);
  }

  /** Bytes come back as what they load to, and as themselves when they do not load. */
  lemma BytesOnWire(world: World, schema: Option<string>, bytes: seq<nat>)
    ensures SerializeItem(world, Plain(Blob(bytes))) == Ok(Blob(bytes))
    ensures var r := UnserializeItem(world, schema, Blob(bytes));
            && (world.loads(bytes) == None ==> r == Ok(Plain(Blob(bytes))))
            && (forall w :: world.loads(bytes) == Some(w) ==> r == Ok(Plain(w)))
  {
  }

  /** Each item is sent on its own. */
  predicate Sent(world: World, items: seq<Item>, ws: seq<Wire>)
  {
    |ws| == |items| && forall i :: 0 <= i < |items| ==> SerializeItem(world, items[i]) == Ok(ws[i])
  }

  predicate Received(world: World, schema: Option<string>, ws: seq<Wire>, items: seq<Item>)
  {
    |ws| == |items| && forall i :: 0 <= i < |ws| ==> UnserializeItem(world, schema, ws[i]) == Ok(items[i])
  }

  lemma {:induction false} SentIff(world: World, items: seq<Item>, ws: seq<Wire>)
    ensures SerializeItems(world, items) == Ok(ws) <==> Sent(world, items, ws)
  {
    if items != [] && ws != [] {
      var k, j := |items| - 1, |ws| - 1;
      SentIff(world, items[..k], ws[..j]);
      assert ws == ws[..j] + [ws[j]];
    }
  }

  lemma {:induction false} ReceivedIff(world: World, schema: Option<string>, ws: seq<Wire>, items: seq<Item>)
    ensures UnserializeItems(world, schema, ws) == Ok(items) <==> Received(world, schema, ws, items)
  {
    if items != [] && ws != [] {
      var k, j := |items| - 1, |ws| - 1;
      ReceivedIff(world, schema, ws[..j], items[..k]);
      assert items == items[..k] + [items[k]];
    }
  }

  ghost predicate RoundTrips(world: World, schema: Option<string>, items: seq<Item>)
  {
    var sent := Serialize(world, items);
    sent.Ok? && Unserialize(world, schema, sent.value) == Ok(Many(items))
  }

  /** A list the serializer accepts comes back as it was exactly when every item is faithful. */
  lemma RoundTripIff(world: World, schema: Option<string>, items: seq<Item>)
    requires Inverts(world) && Serialize(world, items).Ok?
    ensures RoundTrips(world, schema, items) <==>
            (forall i :: 0 <= i < |items| ==> Faithful(world, schema, items[i]))
  {
    var ws := SerializeItems(world, items).value;
    SentIff(world, items, ws);
    ReceivedIff(world, schema, ws, items);
    assert world.loads(Serialize(world, items).value) == Some(Sequence(ws));
    assert RoundTrips(world, schema, items) <==> Received(world, schema, ws, items);
    forall i | 0 <= i < |items|
      ensures Faithful(world, schema, items[i]) <==> UnserializeItem(world, schema, ws[i]) == Ok(items[i])
    {
      ItemRoundTripIff(world, schema, items[i]);
    }
  }

  /** A single value that is no list is dumped as it is, and read back the way an item is. */
  lemma SingleRoundTripIff(world: World, schema: Option<string>, w: Wire, bytes: seq<nat>)
    requires Inverts(world) && !w.Sequence? && world.dumps(w) == Some(bytes)
    ensures Unserialize(world, schema, bytes) == Ok(One(Plain(w))) <==> w.Null? || Faithful(world, schema, Plain(w))
  {
    assert world.loads(bytes) == Some(w);
  }

  /** Serializing fails on an item exactly when that is `None` or of an unsupported kind. */
  lemma RefusedIff(world: World, items: seq<Item>)
    ensures SerializeItems(world, items).Err? <==>
              exists i :: 0 <= i < |items| && items[i] in {Unsupported, Plain(Null)}
  {
    if SerializeItems(world, items).Ok? {
      var ws := SerializeItems(world, items).value;
      SentIff(world, items, ws);
      forall i | 0 <= i < |items| ensures items[i] !in {Unsupported, Plain(Null)} {
        assert SerializeItem(world, items[i]) == Ok(ws[i]);
      }
    } else if forall i :: 0 <= i < |items| ==> items[i] !in {Unsupported, Plain(Null)} {
      var ws := seq(|items|, i requires 0 <= i < |items| && SerializeItem(world, items[i]).Ok? =>
        SerializeItem(world, items[i]).value);
      SentIff(world, items, ws);
    }
  }

  /** Among plain values other than byte strings, only the two tag shapes are taken for something else. */
  lemma PlainReinterpretedIff(world: World, schema: Option<string>, w: Wire)
    requires !w.Blob?
    ensures UnserializeItem(world, schema, w) == Ok(Plain(w))
       <==> (forall x :: w != Sequence([Number(998), x])) && (forall x, y :: w != Sequence([Number(999), x, y]))
  {
    if LooksLikeDict(w) {
      assert w == Sequence([Number(998), w.items[1]]);
    } else if LooksLikeObject(w) {
      assert w == Sequence([Number(999), w.items[1], w.items[2]]);
      assert UnserializeItem(world, schema, w) == UnserializeObject(world, schema, w);
    } else {
      forall x ensures w != Sequence([Number(998), x]) {
        assert LooksLikeDict(Sequence([Number(998), x]));
      }
      forall x, y ensures w != Sequence([Number(999), x, y]) {
        assert LooksLikeObject(Sequence([Number(999), x, y]));
      }
    }
  }

  /** Where serializing and unserializing a whole list fails, and with what. */
  lemma ListErrors(world: World, schema: Option<string>, items: seq<Item>, bytes: seq<nat>)
    ensures (exists i :: 0 <= i < |items| && items[i] in {Unsupported, Plain(Null)}) ==>
              Serialize(world, items) == Err(NoSupportedFormat)
    ensures forall ws :: SerializeItems(world, items) == Ok(ws) ==>
              (Serialize(world, items) == Err(CannotDump) <==> world.dumps(Sequence(ws)) == None)
    ensures Unserialize(world, schema, bytes) == Err(CannotLoad) <==> world.loads(bytes) == None
  {
    RefusedIff(world, items);
    SerializeErrorKind(world, items);
    UnserializeErrorKind(world, schema, if world.loads(bytes).Some? && world.loads(bytes).value.Sequence?
                                        then world.loads(bytes).value.items else []);
  }

  lemma {:induction false} SerializeErrorKind(world: World, items: seq<Item>)
    ensures SerializeItems(world, items).Err? ==> SerializeItems(world, items) == Err(NoSupportedFormat)
  {
    if items != [] {
      SerializeErrorKind(world, items[..|items| - 1]);
    }
  }

  lemma {:induction false} UnserializeErrorKind(world: World, schema: Option<string>, ws: seq<Wire>)
    ensures UnserializeItems(world, schema, ws).Err? ==> UnserializeItems(world, schema, ws).error.BadObject?
  {
    if ws != [] {
      UnserializeErrorKind(world, schema, ws[..|ws| - 1]);
    }
  }
}
