/**
 Config files. `config_save` writes a carriage return as it is, but reading the file turns it into a newline, so what
 survives a file is what survives the text and has no carriage return anywhere.
 */
module ConfigFile {
  import opened CharTables
  import opened Config
  import opened ConfigRoundTrip
  import opened Results
  import opened Strings
  import opened Stripping

  predicate NoReturnValue(v: Value)
  {
    match v
    case Str(s) => '\r' !in s
    case List(items) => forall i :: 0 <= i < |items| ==> '\r' !in items[i]
    case _ => true
  }

  predicate NoReturn(e: Entry)
  {
    '\r' !in e.key && NoReturnValue(e.value)
  }

  /** What a file can hold. */
  predicate FilePlain(u: Unicode, e: Entry)
  {
    Plain(u, e) && NoReturn(e)
  }

  predicate AllFilePlain(u: Unicode, d: seq<Entry>)
  {
    forall i :: 0 <= i < |d| ==> FilePlain(u, d[i])
  }

  ghost predicate NoneReturn(d: seq<Entry>)
  {
    forall i :: 0 <= i < |d| ==> NoReturn(d[i])
  }

  // ----- reading -----

  /** Reading leaves no carriage return, and changes nothing exactly when there was none. */
  lemma {:induction false} NewlinesRead(text: string)
    ensures '\r' !in UniversalNewlines(text)
    ensures UniversalNewlines(text) == text <==> '\r' !in text
    decreases |text|
  {
    if text != [] {
      var rest := if text[0] == '\r' && |text| > 1 && text[1] == '\n' then text[2..] else text[1..];
      NewlinesRead(rest);
      assert text == [text[0]] + text[1..];
    }
  }

  // ----- writing -----

  lemma PrintedReturn(u: Unicode, e: Entry)
    requires NoReturn(e)
    ensures '\r' !in PrintEntry(u, e)
  {
    UpperMarks(u, e.key, '\r');
    match e.value
    case Bool(_) =>
    case Int(n) => IntTextShape(n);
    case Str(_) =>
    case List(items) =>
      PrintListForm(items);
      JoinChars(QuotedAll(items), ',', '\r');
  }

  lemma {:induction false} SavedReturn(u: Unicode, d: seq<Entry>)
    requires NoneReturn(d)
    ensures '\r' !in Save(u, d)
  {
    if d != [] {
      SavedReturn(u, d[..|d| - 1]);
      PrintedReturn(u, d[|d| - 1]);
    }
  }

  // ----- loading -----

  lemma ParsedReturn(u: Unicode, text: string)
    requires '\r' !in text
    ensures NoReturnValue(ParseValue(u, text))
  {
    var inner := Strip(Strip(text, IsOpening), IsClosing);
    StripParts(text, IsOpening);
    StripParts(Strip(text, IsOpening), IsClosing);
    assert '\r' !in inner;
    SplitChars(inner, ',', '\r');
    CleanItemsChars(Split(inner, ','), '\r');
  }

  lemma LineReturn(u: Unicode, line: string)
    requires '\r' !in line && ParseLine(u, line).Pair?
    ensures NoReturn(ParseLine(u, line).entry)
  {
    var front, behind := Before(line, '='), Behind(line, '=');
    BeforeChars(line, '=');
    BehindChars(line, '=');
    StripParts(front, IsSpace);
    UpperMarks(u, Strip(front, IsSpace), '\r');
    BeforeChars(behind, '#');
    CleanChars(Before(behind, '#'));
    ParsedReturn(u, Clean(Before(behind, '#')));
  }

  lemma {:induction false} PutReturn(d: seq<Entry>, e: Entry)
    requires NoneReturn(d) && NoReturn(e)
    ensures NoneReturn(Put(d, e.key, e.value))
  {
    if d != [] && d[0].key != e.key {
      PutReturn(d[1..], e);
    }
  }

  lemma {:induction false} LinesReturn(u: Unicode, lines: seq<string>)
    requires forall i :: 0 <= i < |lines| ==> '\r' !in lines[i]
    requires LoadLines(u, lines).Ok?
    ensures NoneReturn(LoadLines(u, lines).value)
  {
    if lines != [] {
      var k := |lines| - 1;
      LinesReturn(u, lines[..k]);
      if ParseLine(u, lines[k]).Pair? {
        LineReturn(u, lines[k]);
        PutReturn(LoadLines(u, lines[..k]).value, ParseLine(u, lines[k]).entry);
      }
    }
  }

  /** Nothing loaded from a file has a carriage return. */
  lemma LoadedReturn(u: Unicode, text: string)
    requires LoadFile(u, text).Ok?
    ensures NoneReturn(LoadFile(u, text).value)
  {
    NewlinesRead(text);
    SplitChars(UniversalNewlines(text), '\n', '\r');
    LinesReturn(u, Split(UniversalNewlines(text), '\n'));
  }

  // ----- the round trip -----

  lemma SavedRead(u: Unicode, d: seq<Entry>)
    requires NoneReturn(d)
    ensures LoadFile(u, Save(u, d)) == Load(u, Save(u, d))
  {
    SavedReturn(u, d);
    NewlinesRead(Save(u, d));
  }

  lemma FilePlainSplits(u: Unicode, d: seq<Entry>)
    ensures AllFilePlain(u, d) <==> AllPlain(u, d) && NoneReturn(d)
  {
    if AllPlain(u, d) && NoneReturn(d) {
      forall i | 0 <= i < |d| ensures FilePlain(u, d[i]) {
        assert Plain(u, d[i]) && NoReturn(d[i]);
      }
    }
    if AllFilePlain(u, d) {
      forall i | 0 <= i < |d| ensures Plain(u, d[i]) && NoReturn(d[i]) {
        assert FilePlain(u, d[i]);
      }
    }
  }

  /** Reading a saved file gives the dict back, in its order, exactly when every entry is plain and has no return. */
  lemma FileRoundTripIff(u: Unicode, d: seq<Entry>)
    requires DistinctKeys(d)
    ensures LoadFile(u, Save(u, d)) == Ok(d) <==> AllFilePlain(u, d)
  {
    FilePlainSplits(u, d);
    if LoadFile(u, Save(u, d)) == Ok(d) {
      LoadedReturn(u, Save(u, d));
    }
    if NoneReturn(d) {
      SavedRead(u, d);
      RoundTripIff(u, d);
    }
  }

  /** Without carriage returns, a file gives back what its text does: entries reread, comment-like keys gone. */
  lemma FileSavedRead(u: Unicode, d: seq<Entry>)
    requires AllLoadable(u, d) && DistinctKeys(d) && NoneReturn(d)
    ensures LoadFile(u, Save(u, d)) == Ok(Reread(u, d))
  {
    SavedRead(u, d);
    LoadSaved(u, d);
  }

  // ----- what a carriage return does -----

  lemma {:induction false} NewlinesBreak(front: string, back: string)
    requires '\r' !in front
    ensures var rest := if back != "" && back[0] == '\n' then back[1..] else back;
            UniversalNewlines(front + "\r" + back) == front + "\n" + UniversalNewlines(rest)
  {
    var text := front + "\r" + back;
    if front == [] {
      assert text[1..] == back;
      assert |text| > 1 ==> text[1] == back[0] && text[2..] == back[1..];
    } else {
      NewlinesBreak(front[1..], back);
      assert text[1..] == front[1..] + "\r" + back;
      assert front == [front[0]] + front[1..];
    }
  }

  /** A carriage return in front of the equals sign leaves a line without one, and loading raises on it. */
  lemma BrokenLine(u: Unicode, front: string, back: string)
    requires '\r' !in front && '\n' !in front && '=' !in front
    requires front != "" && !IsSpace(front[0]) && front[0] != '#'
    ensures LoadFile(u, front + "\r" + back) == Err(NoEquals(front))
  {
    var rest := UniversalNewlines(if back != "" && back[0] == '\n' then back[1..] else back);
    NewlinesBreak(front, back);
    SplitHead(front, rest, '\n');
    var lines := [front] + Split(rest, '\n');
    StripNonEmpty(front, 0, IsSpace);
    assert lines[..1] == [front] && [front][..0] == [];
    assert LoadLines(u, [front]) == Err(NoEquals(front));
    LoadStops(u, lines, 1);
  }
}
