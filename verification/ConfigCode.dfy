/** `config_save` and `config_load` as the loops they are, against the text functions of `Config`. */
module ConfigCode {
  import opened CharTables
  import opened Config
  import opened ConfigRoundTrip
  import opened Results
  import opened Strings
  import opened Stripping

  /** The printing loop of a list value. */
  method PrintList(items: seq<string>) returns (text: string)
    ensures text == PrintValue(List(items))
  {
    var val2 := "[";
    var i := 0;
    while i < |items|
      invariant 0 <= i <= |items|
      invariant val2 == "[" + PrintItems(items[..i])
    {
      assert items[..i + 1][..i] == items[..i];
      val2 := val2 + Quoted(items[i]) + ",";
      i := i + 1;
    }
    assert items[..i] == items;
    text := RStrip(val2, IsComma) + "]";
  }

  method ConfigSave(u: Unicode, data: seq<Entry>) returns (out: string)
    ensures out == Save(u, data)
  {
    out := "";
    var i := 0;
    while i < |data|
      invariant 0 <= i <= |data|
      invariant out == Save(u, data[..i])
    {
      assert data[..i + 1][..i] == data[..i];
      var val: string;
      match data[i].value {
        case List(items) => val := PrintList(items);
        case Str(s) => val := "'" + s + "'";
        case Int(n) => val := IntText(n);
        case Bool(b) => val := if b then "True" else "False";
      }
      out := out + (u.Upper(data[i].key) + " = " + val) + "\n";
      i := i + 1;
    }
    assert data[..i] == data;
  }

  /** The comprehension over the items of a list value. */
  method ParseList(val: string) returns (items: seq<string>)
    ensures items == ParseItems(val)
  {
    var parts := Split(Strip(Strip(val, IsOpening), IsClosing), ',');
    items := [];
    var i := 0;
    while i < |parts|
      invariant 0 <= i <= |parts|
      invariant CleanItems(parts) == items + CleanItems(parts[i..])
    {
      assert parts[i..][1..] == parts[i + 1..];
      if Strip(parts[i], IsSpace) != "" {
        items := items + [Clean(parts[i])];
      }
      i := i + 1;
    }
  }

  /** The value part of a line. */
  method ParseText(u: Unicode, text: string) returns (value: Value)
    ensures value == ParseValue(u, text)
  {
    if IsFalseWord(u, text) {
      value := Bool(false);
    } else if IsTrueWord(u, text) {
      value := Bool(true);
    } else if '[' in text {
      var items := ParseList(text);
      value := List(items);
    } else {
      var n := ParseInt(u, text);
      value := if n.Some? then Int(n.value) else Str(text);
    }
  }

  /** One turn of the line loop. */
  method ReadLine(u: Unicode, line: string) returns (r: Line)
    ensures r == ParseLine(u, line)
  {
    if Strip(line, IsSpace) == "" || line[0] == '#' {
      return Skipped;
    }
    if '=' !in line {
      return Bad(line);
    }
    var key, val := Before(line, '='), Behind(line, '=');
    if '#' in val {
      val := Before(val, '#');
    } else {
      BeforePlain(val, "", '#');
    }
    var value := ParseText(u, Clean(val));
    r := Pair(Entry(u.Upper(Strip(key, IsSpace)), value));
  }

  method ConfigLoad(u: Unicode, t: string) returns (r: Result<seq<Entry>, Error>)
    ensures r == Load(u, t)
  {
    var lines := Split(t, '\n');
    var res: seq<Entry> := [];
    var i := 0;
    while i < |lines|
      invariant 0 <= i <= |lines|
      invariant LoadLines(u, lines[..i]) == Ok(res)
    {
      var line := ReadLine(u, lines[i]);
      assert lines[..i + 1][..i] == lines[..i];
      i := i + 1;
      match line
      case Skipped => continue;
      case Bad(text) =>
        LoadStops(u, lines, i);
        return Err(NoEquals(text));
      case Pair(e) => res := Put(res, e.key, e.value);
    }
    assert lines[..i] == lines;
    r := Ok(res);
  }
}
