/**
 Which dicts survive saving and loading. `Plain` is a condition on keys and values that a caller can check; loading the
 saved text gives the dict back exactly when all its entries are plain.
 */
module ConfigRoundTrip {
  import opened CharTables
  import opened Config
  import opened Results
  import opened Strings
  import opened Stripping

  // ----- the condition -----

  predicate IsEdge(c: char)
  {
    IsSpace(c) || IsSingleQuote(c) || IsDoubleQuote(c)
  }

  /** No newline, no comment sign, no white space or quote at either end. */
  predicate PlainText(s: string)
  {
    '\n' !in s && '#' !in s && Trimmed(s, IsEdge)
  }

  predicate PlainKey(u: Unicode, key: string)
  {
    && u.Upper(key) == key && '=' !in key && '\n' !in key && Trimmed(key, IsSpace)
    && (key != "" ==> key[0] != '#')
  }

  predicate PlainValue(u: Unicode, v: Value)
  {
    match v
    case Bool(_) => true
    case Int(_) => true
    case Str(s) => PlainText(s) && !IsFalseWord(u, s) && !IsTrueWord(u, s) && '[' !in s && ParseInt(u, s) == None
    case List(items) =>
      (forall i :: 0 <= i < |items| ==> PlainText(items[i])) && forall i :: 0 <= i < |items| ==> ',' !in items[i]
  }

  predicate Plain(u: Unicode, e: Entry)
  {
    PlainKey(u, e.key) && PlainValue(u, e.value)
  }

  predicate AllPlain(u: Unicode, d: seq<Entry>)
  {
    forall i :: 0 <= i < |d| ==> Plain(u, d[i])
  }

  // ----- text helpers -----

  lemma {:induction false} BeforePlain(text: string, rest: string, sep: char)
    requires sep !in text
    ensures Before(text, sep) == text
    ensures Before(text + [sep] + rest, sep) == text && Behind(text + [sep] + rest, sep) == rest
  {
    if text != [] {
      BeforePlain(text[1..], rest, sep);
      assert (text + [sep] + rest)[1..] == text[1..] + [sep] + rest;
      assert text == [text[0]] + text[1..];
    } else {
      assert (text + [sep] + rest)[1..] == rest;
    }
  }

  lemma {:induction false} BeforeChars(text: string, sep: char)
    ensures forall c :: c in Before(text, sep) ==> c in text
  {
    if text != [] && text[0] != sep {
      BeforeChars(text[1..], sep);
    }
  }

  lemma {:induction false} BehindChars(text: string, sep: char)
    requires sep in text
    ensures forall c :: c in Behind(text, sep) ==> c in text
  {
    if text[0] != sep {
      BehindChars(text[1..], sep);
    }
  }

  lemma CleanChars(x: string)
    ensures forall c :: c in Clean(x) ==> c in x
  {
    var a := Strip(x, IsSpace);
    var b := Strip(a, IsSingleQuote);
    var c := Strip(b, IsSpace);
    var d := Strip(c, IsDoubleQuote);
    StripParts(x, IsSpace);
    StripParts(a, IsSingleQuote);
    StripParts(b, IsSpace);
    StripParts(c, IsDoubleQuote);
    StripParts(d, IsSpace);
  }

  /** The cleaning of a printed string gives it back exactly when nothing at its ends can be stripped. */
  lemma CleanQuoted(s: string)
    ensures Clean(" " + Quoted(s)) == s <==> Trimmed(s, IsEdge)
    ensures Clean(Quoted(s)) == Clean(" " + Quoted(s))
    ensures Strip(Quoted(s), IsSpace) != ""
  {
    var q := Quoted(s);
    assert Trimmed(q, IsSpace);
    StripFixed(q, IsSpace);
    StripPadded(q, ' ', IsSpace);
    StripPadded(s, '\'', IsSingleQuote);
    StripPadded("'" + s, '\'', IsSingleQuote);
    assert q == ("'" + s) + "'";
    var b := Strip(s, IsSingleQuote);
    assert Strip(q, IsSingleQuote) == b;
    var c := Strip(b, IsSpace);
    var d := Strip(c, IsDoubleQuote);
    var e := Strip(d, IsSpace);
    assert Clean(q) == e;
    StripParts(s, IsSingleQuote);
    StripParts(b, IsSpace);
    StripParts(c, IsDoubleQuote);
    StripParts(d, IsSpace);
    StripFixed(s, IsSingleQuote);
    StripFixed(b, IsSpace);
    StripFixed(c, IsDoubleQuote);
    StripFixed(d, IsSpace);
  }

  /** Text with nothing to strip passes through the cleaning behind one space. */
  lemma CleanTrimmed(x: string)
    requires Trimmed(x, IsEdge)
    ensures Clean(" " + x) == x
  {
    StripPadded(x, ' ', IsSpace);
    StripFixed(x, IsSpace);
    StripFixed(x, IsSingleQuote);
    StripFixed(x, IsDoubleQuote);
  }

  // ----- integers and booleans -----

  lemma {:induction false} ParseDecimal(u: Unicode, n: nat)
    ensures ParseDigits(u, Decimal(n)) == Some(n)
  {
    if n >= 10 {
      ParseDecimal(u, n / 10);
      var front := Decimal(n / 10);
      var text := front + [DigitChar(n % 10)];
      assert text[..|text| - 1] == front;
      assert IsDigit(front[|front| - 1]);
    }
  }

  predicate NumberChar(c: char)
  {
    IsDigit(c) || c == '-'
  }

  lemma IntTextShape(n: int)
    ensures var text := IntText(n); text != [] && forall i :: 0 <= i < |text| ==> NumberChar(text[i])
  {
  }

  lemma NumberCharPlain(c: char)
    requires NumberChar(c)
    ensures !IsEdge(c) && c != '[' && c != '#' && c != '\n'
  {
  }

  /** A text of digits and signs is left alone by everything but `int`. */
  lemma NumberText(text: string)
    requires text != [] && forall i :: 0 <= i < |text| ==> NumberChar(text[i])
    ensures Trimmed(text, IsEdge) && '[' !in text && '#' !in text && '\n' !in text
  {
    forall i | 0 <= i < |text| ensures !IsEdge(text[i]) && text[i] != '[' && text[i] != '#' && text[i] != '\n' {
      NumberCharPlain(text[i]);
    }
  }

  lemma ParseIntText(u: Unicode, n: int)
    ensures ParseInt(u, IntText(n)) == Some(n)
  {
    var digits := Decimal(if n < 0 then -n else n);
    ParseDecimal(u, if n < 0 then -n else n);
    assert n < 0 ==> IntText(n)[1..] == digits;
    assert IsDigit(digits[0]);
  }

  lemma ParseIntValue(u: Unicode, n: int)
    ensures ParseValue(u, PrintValue(Int(n))) == Int(n)
    ensures Trimmed(IntText(n), IsEdge) && '#' !in IntText(n) && '\n' !in IntText(n)
  {
    var text := IntText(n);
    IntTextShape(n);
    NumberText(text);
    assert NumberChar(text[0]);
    NoWord(u, text);
    ParseIntText(u, n);
  }

  /** Text that starts like a number or a list is no boolean word. */
  lemma NoWord(u: Unicode, text: string)
    requires text != [] && (text[0] == '-' || text[0] == '[' || IsDigit(text[0]))
    ensures !IsFalseWord(u, text) && !IsTrueWord(u, text)
  {
    LowerHead(u, text);
  }

  lemma TrueWord(u: Unicode)
    ensures u.Lower("True") == "true"
  {
    CaseOfAscii(u, "True");
    assert AsciiLowerText("True") == "true";
  }

  lemma FalseWord(u: Unicode)
    ensures u.Lower("False") == "false"
  {
    CaseOfAscii(u, "False");
    assert AsciiLowerText("False") == "false";
  }

  lemma BoolText(b: bool)
    ensures var text := PrintValue(Bool(b)); Trimmed(text, IsEdge) && '#' !in text && '\n' !in text
  {
    assert PrintValue(Bool(b)) == if b then "True" else "False";
  }

  lemma ParseBoolText(u: Unicode, b: bool)
    ensures ParseValue(u, PrintValue(Bool(b))) == Bool(b)
  {
    TrueWord(u);
    FalseWord(u);
    assert "true" != "false";
  }

  // ----- lists -----

  function QuotedAll(items: seq<string>): (parts: seq<string>)
    ensures |parts| == |items|
  {
    seq(|items|, i requires 0 <= i < |items| => Quoted(items[i]))
  }

  lemma {:induction false} JoinAppend(parts: seq<string>, last: string, sep: char)
    ensures Join(parts + [last], sep) == if parts == [] then last else Join(parts, sep) + [sep] + last
  {
    if parts == [] {
      assert parts + [last] == [last];
    } else {
      assert (parts + [last])[1..] == parts[1..] + [last];
      JoinAppend(parts[1..], last, sep);
      if |parts| > 1 {
        assert parts[0] + [sep] + (Join(parts[1..], sep) + [sep] + last)
          == (parts[0] + [sep] + Join(parts[1..], sep)) + [sep] + last;
      }
    }
  }

  /** The printed items are the quoted items, each followed by a comma. */
  lemma {:induction false} PrintItemsJoin(items: seq<string>)
    requires items != []
    ensures PrintItems(items) == Join(QuotedAll(items), ',') + ","
  {
    var k := |items| - 1;
    var front, last := items[..k], Quoted(items[k]);
    assert QuotedAll(items) == QuotedAll(front) + [last];
    JoinAppend(QuotedAll(front), last, ',');
    if front != [] {
      PrintItemsJoin(front);
    } else {
      assert PrintItems(items) == PrintItems([]) + last + ",";
    }
  }

  /** Between its brackets a printed list is the quoted items joined by commas. */
  lemma PrintListForm(items: seq<string>)
    ensures PrintValue(List(items)) == "[" + Join(QuotedAll(items), ',') + "]"
    ensures items != [] ==> var inner := Join(QuotedAll(items), ',');
                            inner != [] && inner[0] == '\'' && inner[|inner| - 1] == '\''
  {
    if items == [] {
      assert QuotedAll(items) == [];
      assert "[" + "" == "[";
      assert RStrip("[", IsComma) == "[";
    } else {
      PrintItemsJoin(items);
      var inner := Join(QuotedAll(items), ',');
      QuotedEnds(items);
      var text := "[" + inner;
      assert "[" + (inner + ",") == text + ",";
      assert (text + ",")[..|text|] == text;
      assert RStrip(text + ",", IsComma) == RStrip(text, IsComma) == text;
    }
  }

  lemma QuotedEnds(items: seq<string>)
    requires items != []
    ensures var inner := Join(QuotedAll(items), ',');
            inner != [] && inner[0] == '\'' && inner[|inner| - 1] == '\''
  {
    var parts, k := QuotedAll(items), |items| - 1;
    assert parts == parts[..k] + [Quoted(items[k])];
    JoinAppend(parts[..k], Quoted(items[k]), ',');
    if |parts| > 1 {
      assert Join(parts, ',') == parts[0] + [','] + Join(parts[1..], ',');
    }
  }

  function RereadItems(items: seq<string>): (reread: seq<string>)
    ensures |reread| == |items|
  {
    seq(|items|, i requires 0 <= i < |items| => Clean(Quoted(items[i])))
  }

  lemma {:induction false} CleanQuotedAll(items: seq<string>)
    ensures CleanItems(QuotedAll(items)) == RereadItems(items)
  {
    if items != [] {
      var first, rest := items[0], items[1..];
      QuotedNonEmpty(first);
      RereadCons(first, rest);
      CleanItemsCons(Quoted(first), QuotedAll(rest));
      CleanQuotedAll(rest);
      assert items == [first] + rest;
    }
  }

  lemma QuotedNonEmpty(item: string)
    ensures Strip(Quoted(item), IsSpace) != ""
  {
    CleanQuoted(item);
  }

  lemma RereadCons(first: string, rest: seq<string>)
    ensures QuotedAll([first] + rest) == [Quoted(first)] + QuotedAll(rest)
    ensures RereadItems([first] + rest) == [Clean(Quoted(first))] + RereadItems(rest)
  {
  }

  lemma CleanItemsCons(part: string, rest: seq<string>)
    requires Strip(part, IsSpace) != ""
    ensures CleanItems([part] + rest) == [Clean(part)] + CleanItems(rest)
  {
    assert ([part] + rest)[1..] == rest;
  }

  /** The brackets come off, and only they. */
  lemma Unbracketed(inner: string)
    requires inner != [] ==> inner[0] != '[' && inner[0] != ']' && inner[|inner| - 1] != ']'
    ensures Strip(Strip("[" + inner + "]", IsOpening), IsClosing) == inner
  {
    var open := inner + "]";
    assert "[" + inner + "]" == "[" + open;
    StripPadded(open, '[', IsOpening);
    StripFixed(open, IsOpening);
    StripPadded(inner, ']', IsClosing);
    StripFixed(inner, IsClosing);
  }

  /** A printed list without commas in its items splits into them. */
  lemma ListItems(items: seq<string>)
    requires forall i :: 0 <= i < |items| ==> ',' !in items[i]
    ensures ParseItems(PrintValue(List(items))) == RereadItems(items)
  {
    var inner := Join(QuotedAll(items), ',');
    PrintListForm(items);
    if items == [] {
      assert QuotedAll(items) == [] && inner == [];
    }
    Unbracketed(inner);
    if items != [] {
      forall i | 0 <= i < |items| ensures ',' !in QuotedAll(items)[i] {
      }
      SplitJoin(QuotedAll(items), ',');
      CleanQuotedAll(items);
    } else {
      assert CleanItems([""]) == [] by {
        assert Strip("", IsSpace) == "" && [""][1..] == [];
      }
    }
  }

  lemma ListEnds(items: seq<string>)
    ensures var text := PrintValue(List(items)); text != [] && text[0] == '[' && Trimmed(text, IsEdge)
  {
    PrintListForm(items);
    var text := PrintValue(List(items));
    assert text[0] == '[' && text[|text| - 1] == ']';
  }

  /** A printed list without commas in its items is read back item by item. */
  lemma ParseListValue(u: Unicode, items: seq<string>)
    requires forall i :: 0 <= i < |items| ==> ',' !in items[i]
    ensures ParseValue(u, PrintValue(List(items))) == List(RereadItems(items))
    ensures Trimmed(PrintValue(List(items)), IsEdge)
  {
    var text := PrintValue(List(items));
    ListEnds(items);
    ListItems(items);
    ReadsAsList(u, text);
  }

  lemma ReadsAsList(u: Unicode, text: string)
    requires text != [] && text[0] == '['
    ensures ParseValue(u, text) == List(ParseItems(text))
  {
    NoWord(u, text);
  }

  // ----- one entry -----

  /** A value printed after the equals sign, and read back. */
  function RereadValue(u: Unicode, v: Value): Value
  {
    ParseValue(u, Clean(" " + PrintValue(v)))
  }

  lemma StripNonEmpty(s: string, i: nat, drop: char -> bool)
    requires i < |s| && !drop(s[i])
    ensures Strip(s, drop) != ""
  {
    LStripParts(s, drop);
    var left := LStrip(s, drop);
    RStripParts(left, drop);
    assert left[i - (|s| - |left|)] == s[i];
  }

  /** What no loaded entry has, whatever the file. */
  predicate LoadableKey(u: Unicode, key: string)
  {
    u.Upper(key) == key && '=' !in key && '\n' !in key && Trimmed(key, IsSpace)
  }

  predicate LoadableValue(u: Unicode, v: Value)
  {
    match v
    case Bool(_) => true
    case Int(_) => true
    case Str(s) =>
      '\n' !in s && '#' !in s && !IsFalseWord(u, s) && !IsTrueWord(u, s) && '[' !in s && ParseInt(u, s) == None
    case List(items) => LoadableItems(items)
  }

  predicate LoadableItems(items: seq<string>)
  {
    forall i :: 0 <= i < |items| ==> '\n' !in items[i] && '#' !in items[i] && ',' !in items[i]
  }

  predicate Loadable(u: Unicode, e: Entry)
  {
    LoadableKey(u, e.key) && LoadableValue(u, e.value)
  }

  /** The line of an entry splits where it was printed. */
  lemma EntryLine(u: Unicode, e: Entry)
    requires LoadableKey(u, e.key) && '#' !in PrintValue(e.value)
    ensures ParseLine(u, PrintEntry(u, e))
         == if e.key != "" && e.key[0] == '#' then Skipped
            else Pair(Entry(e.key, RereadValue(u, e.value)))
  {
    var key, text := e.key, " " + PrintValue(e.value);
    var line := PrintEntry(u, e);
    assert line == (key + " ") + "=" + text;
    assert line[|key| + 1] == '=';
    StripNonEmpty(line, |key| + 1, IsSpace);
    BeforePlain(key + " ", text, '=');
    BeforePlain(text, "", '#');
    StripPadded(key, ' ', IsSpace);
    StripFixed(key, IsSpace);
  }

  /** A printed value without comment signs is read back as itself exactly when it is plain. */
  lemma ValueReread(u: Unicode, v: Value)
    requires LoadableValue(u, v)
    ensures '#' !in PrintValue(v) && '\n' !in PrintValue(v)
    ensures RereadValue(u, v) == v <==> PlainValue(u, v)
  {
    match v
    case Bool(b) => BoolReread(u, b);
    case Int(n) => IntReread(u, n);
    case Str(s) =>
      QuotedChars(s, '#');
      QuotedChars(s, '\n');
      StringReread(u, s);
    case List(items) =>
      ListChars(items);
      ListReread(u, items);
  }

  lemma BoolReread(u: Unicode, b: bool)
    ensures var v := Bool(b); '#' !in PrintValue(v) && '\n' !in PrintValue(v) && RereadValue(u, v) == v
  {
    BoolText(b);
    ParseBoolText(u, b);
    CleanTrimmed(PrintValue(Bool(b)));
  }

  lemma IntReread(u: Unicode, n: int)
    ensures var v := Int(n); '#' !in PrintValue(v) && '\n' !in PrintValue(v) && RereadValue(u, v) == v
  {
    ParseIntValue(u, n);
    CleanTrimmed(PrintValue(Int(n)));
  }

  lemma QuotedChars(s: string, c: char)
    requires c !in s && c != '\''
    ensures c !in PrintValue(Str(s))
  {
  }

  lemma StringReread(u: Unicode, s: string)
    requires LoadableValue(u, Str(s))
    ensures RereadValue(u, Str(s)) == Str(s) <==> PlainText(s)
  {
    var x := Clean(" " + Quoted(s));
    CleanQuoted(s);
    ParsesAsString(u, x, s);
    assert PrintValue(Str(s)) == Quoted(s);
  }

  lemma ParsesAsString(u: Unicode, x: string, s: string)
    requires LoadableValue(u, Str(s))
    ensures ParseValue(u, x) == Str(s) <==> x == s
  {
  }

  lemma RereadFixed(items: seq<string>)
    requires LoadableItems(items)
    ensures RereadItems(items) == items <==> forall i :: 0 <= i < |items| ==> PlainText(items[i])
  {
    forall i | 0 <= i < |items| ensures RereadItems(items)[i] == items[i] <==> PlainText(items[i]) {
      CleanQuoted(items[i]);
    }
  }

  lemma ListReread(u: Unicode, items: seq<string>)
    requires LoadableItems(items)
    ensures RereadValue(u, List(items)) == List(items)
       <==> forall i :: 0 <= i < |items| ==> PlainText(items[i])
  {
    ParseListValue(u, items);
    CleanTrimmed(PrintValue(List(items)));
    RereadFixed(items);
  }

  lemma ListChars(items: seq<string>)
    requires forall i :: 0 <= i < |items| ==> '\n' !in items[i] && '#' !in items[i]
    ensures '#' !in PrintValue(List(items)) && '\n' !in PrintValue(List(items))
  {
    PrintListForm(items);
    JoinChars(QuotedAll(items), ',', '#');
    JoinChars(QuotedAll(items), ',', '\n');
  }

  lemma {:induction false} JoinChars(parts: seq<string>, sep: char, c: char)
    requires c != sep && forall i :: 0 <= i < |parts| ==> c !in parts[i]
    ensures c !in Join(parts, sep)
  {
    if |parts| > 1 {
      JoinChars(parts[1..], sep, c);
    }
  }

  // ----- what loading can return -----

  lemma {:induction false} SplitChars(text: string, sep: char, c: char)
    requires c !in text
    ensures forall i :: 0 <= i < |Split(text, sep)| ==> c !in Split(text, sep)[i]
  {
    if text != [] {
      SplitChars(text[1..], sep, c);
      var rest := Split(text[1..], sep);
      assert c !in rest[0];
    }
  }

  lemma {:induction false} CleanItemsChars(parts: seq<string>, c: char)
    requires forall i :: 0 <= i < |parts| ==> c !in parts[i]
    ensures forall i :: 0 <= i < |CleanItems(parts)| ==> c !in CleanItems(parts)[i]
  {
    if parts != [] {
      CleanItemsChars(parts[1..], c);
      CleanChars(parts[0]);
      assert c !in Clean(parts[0]);
    }
  }

  lemma ParsedItems(text: string)
    requires '\n' !in text && '#' !in text
    ensures LoadableItems(ParseItems(text))
  {
    var inner := Strip(Strip(text, IsOpening), IsClosing);
    StripParts(text, IsOpening);
    StripParts(Strip(text, IsOpening), IsClosing);
    assert '\n' !in inner && '#' !in inner;
    var parts := Split(inner, ',');
    SplitChars(inner, ',', '\n');
    SplitChars(inner, ',', '#');
    SplitParts(inner, ',');
    CleanItemsChars(parts, '\n');
    CleanItemsChars(parts, '#');
    CleanItemsChars(parts, ',');
  }

  lemma ParsedValueLoadable(u: Unicode, text: string)
    requires '\n' !in text && '#' !in text
    ensures LoadableValue(u, ParseValue(u, text))
  {
    ParsedItems(text);
  }

  lemma UpperLoadable(u: Unicode, x: string)
    requires '=' !in x && '\n' !in x && Trimmed(x, IsSpace)
    ensures LoadableKey(u, u.Upper(x))
  {
    UpperTwice(u, x);
    UpperMarks(u, x, '=');
    UpperMarks(u, x, '\n');
    UpperTrimmed(u, x);
  }

  lemma ParsedLineLoadable(u: Unicode, line: string)
    requires '\n' !in line && ParseLine(u, line).Pair?
    ensures Loadable(u, ParseLine(u, line).entry)
  {
    var front, behind := Before(line, '='), Behind(line, '=');
    BeforeChars(line, '=');
    BehindChars(line, '=');
    StripParts(front, IsSpace);
    UpperLoadable(u, Strip(front, IsSpace));
    var text := Before(behind, '#');
    BeforeChars(behind, '#');
    CleanChars(text);
    ParsedValueLoadable(u, Clean(text));
  }

  ghost predicate AllLoadable(u: Unicode, d: seq<Entry>)
  {
    forall i :: 0 <= i < |d| ==> Loadable(u, d[i])
  }

  lemma {:induction false} PutLoadable(u: Unicode, d: seq<Entry>, e: Entry)
    requires AllLoadable(u, d) && Loadable(u, e)
    ensures AllLoadable(u, Put(d, e.key, e.value))
  {
    if d != [] && d[0].key != e.key {
      PutLoadable(u, d[1..], e);
    }
  }

  lemma {:induction false} LinesLoadable(u: Unicode, lines: seq<string>)
    requires forall i :: 0 <= i < |lines| ==> '\n' !in lines[i]
    requires LoadLines(u, lines).Ok?
    ensures AllLoadable(u, LoadLines(u, lines).value)
  {
    if lines != [] {
      var k := |lines| - 1;
      LinesLoadable(u, lines[..k]);
      if ParseLine(u, lines[k]).Pair? {
        ParsedLineLoadable(u, lines[k]);
        PutLoadable(u, LoadLines(u, lines[..k]).value, ParseLine(u, lines[k]).entry);
      }
    }
  }

  // ----- whole dicts -----

  function Printed(u: Unicode, d: seq<Entry>): (lines: seq<string>)
    ensures |lines| == |d|
  {
    if d == [] then [] else Printed(u, d[..|d| - 1]) + [PrintEntry(u, d[|d| - 1])]
  }

  lemma JoinLine(front: seq<string>, line: string)
    ensures Join(front + [line] + [""], '\n') == Join(front + [""], '\n') + line + "\n"
  {
    JoinAppend(front, "", '\n');
    JoinAppend(front, line, '\n');
    JoinAppend(front + [line], "", '\n');
    var j := Join(front, '\n');
    assert (j + ['\n'] + "") + line == j + ['\n'] + line;
    assert Join(front + [line], '\n') + ['\n'] + "" == Join(front + [line], '\n') + "\n";
  }

  lemma {:induction false} SaveJoin(u: Unicode, d: seq<Entry>)
    ensures Save(u, d) == Join(Printed(u, d) + [""], '\n')
  {
    if d != [] {
      SaveJoin(u, d[..|d| - 1]);
      JoinLine(Printed(u, d[..|d| - 1]), PrintEntry(u, d[|d| - 1]));
    }
  }

  lemma PrintedLine(u: Unicode, e: Entry)
    requires Loadable(u, e)
    ensures '\n' !in PrintEntry(u, e)
  {
    ValueReread(u, e.value);
    assert PrintEntry(u, e) == e.key + " = " + PrintValue(e.value);
  }

  lemma {:induction false} PrintedLines(u: Unicode, d: seq<Entry>)
    requires AllLoadable(u, d)
    ensures forall i :: 0 <= i < |d| ==> '\n' !in Printed(u, d)[i]
  {
    if d != [] {
      var k := |d| - 1;
      PrintedLines(u, d[..k]);
      assert Loadable(u, d[k]);
      PrintedLine(u, d[k]);
    }
  }

  /** What is read back: an entry whose key starts like a comment is gone, the others carry the reread value. */
  function Reread(u: Unicode, d: seq<Entry>): (d': seq<Entry>)
    ensures |d'| <= |d|
  {
    if d == [] then [] else
      var front, e := Reread(u, d[..|d| - 1]), d[|d| - 1];
      if e.key != "" && e.key[0] == '#' then front
      else front + [Entry(e.key, RereadValue(u, e.value))]
  }

  lemma {:induction false} RereadKeys(u: Unicode, d: seq<Entry>, key: string)
    requires !HasKey(d, key)
    ensures !HasKey(Reread(u, d), key)
  {
    if d != [] {
      var k := |d| - 1;
      forall i | 0 <= i < k ensures d[..k][i].key != key {
        assert d[i].key != key;
      }
      RereadKeys(u, d[..k], key);
      assert d[k].key != key;
    }
  }

  lemma {:induction false} PutAbsent(d: seq<Entry>, key: string, value: Value)
    requires !HasKey(d, key)
    ensures Put(d, key, value) == d + [Entry(key, value)]
  {
    if d != [] {
      assert d[0].key != key;
      forall i | 0 <= i < |d| - 1 ensures d[1..][i].key != key {
        assert d[i + 1].key != key;
      }
      PutAbsent(d[1..], key, value);
    }
  }

  lemma {:induction false} LoadPrinted(u: Unicode, d: seq<Entry>)
    requires AllLoadable(u, d) && DistinctKeys(d)
    ensures LoadLines(u, Printed(u, d)) == Ok(Reread(u, d))
  {
    if d != [] {
      var k := |d| - 1;
      var front, e := d[..k], d[k];
      LoadPrinted(u, front);
      assert Loadable(u, e);
      ValueReread(u, e.value);
      EntryLine(u, e);
      assert !HasKey(front, e.key);
      RereadKeys(u, front, e.key);
      PutAbsent(Reread(u, front), e.key, RereadValue(u, e.value));
      LoadNext(u, Printed(u, front), PrintEntry(u, e));
    }
  }

  lemma LoadNext(u: Unicode, lines: seq<string>, line: string)
    requires LoadLines(u, lines).Ok? && !ParseLine(u, line).Bad?
    ensures LoadLines(u, lines + [line])
         == Ok(match ParseLine(u, line)
               case Pair(e) => Put(LoadLines(u, lines).value, e.key, e.value)
               case _ => LoadLines(u, lines).value)
  {
    assert (lines + [line])[..|lines|] == lines;
  }

  lemma PlainSnoc(u: Unicode, front: seq<Entry>, e: Entry)
    ensures AllPlain(u, front + [e]) <==> AllPlain(u, front) && Plain(u, e)
  {
    var d := front + [e];
    assert d[|front|] == e;
    forall i | 0 <= i < |front| ensures d[i] == front[i] {
    }
  }

  lemma SnocSame(a: seq<Entry>, x: Entry, b: seq<Entry>, y: Entry)
    ensures a + [x] == b + [y] <==> a == b && x == y
  {
    if a + [x] == b + [y] {
      assert a == (a + [x])[..|a|] && b == (b + [y])[..|b|];
      assert x == (a + [x])[|a|] && y == (b + [y])[|b|];
    }
  }

  lemma {:induction false} RereadSame(u: Unicode, d: seq<Entry>)
    requires AllLoadable(u, d)
    ensures Reread(u, d) == d <==> AllPlain(u, d)
  {
    if d != [] {
      var k := |d| - 1;
      var front, e := d[..k], d[k];
      assert d == front + [e];
      RereadSame(u, front);
      PlainSnoc(u, front, e);
      if e.key != "" && e.key[0] == '#' {
        assert |Reread(u, d)| < |d|;
      } else {
        assert Loadable(u, e);
        ValueReread(u, e.value);
        SnocSame(Reread(u, front), Entry(e.key, RereadValue(u, e.value)), front, e);
      }
    }
  }

  /** The first bad line decides the error. */
  lemma {:induction false} LoadStops(u: Unicode, lines: seq<string>, i: nat)
    requires i <= |lines| && LoadLines(u, lines[..i]).Err?
    ensures LoadLines(u, lines) == LoadLines(u, lines[..i])
    decreases |lines|
  {
    if i == |lines| {
      assert lines[..i] == lines;
    } else {
      var front := lines[..|lines| - 1];
      assert front[..i] == lines[..i];
      LoadStops(u, front, i);
    }
  }

  /** Loading the text of a loadable dict gives `Reread`. */
  lemma LoadSaved(u: Unicode, d: seq<Entry>)
    requires AllLoadable(u, d) && DistinctKeys(d)
    ensures Load(u, Save(u, d)) == Ok(Reread(u, d))
  {
    var lines := Printed(u, d);
    SaveJoin(u, d);
    PrintedLines(u, d);
    SplitJoin(lines + [""], '\n');
    LoadPrinted(u, d);
    assert (lines + [""])[..|lines|] == lines;
    assert Strip("", IsSpace) == "";
  }

  lemma LoadIsLoadable(u: Unicode, text: string)
    requires Load(u, text).Ok?
    ensures AllLoadable(u, Load(u, text).value)
  {
    SplitParts(text, '\n');
    LinesLoadable(u, Split(text, '\n'));
  }

  lemma PlainIsLoadable(u: Unicode, d: seq<Entry>)
    requires AllPlain(u, d)
    ensures AllLoadable(u, d)
  {
    forall i | 0 <= i < |d| ensures Loadable(u, d[i]) {
      assert Plain(u, d[i]);
    }
  }

  /** Loading what was saved gives the dict back, in its order, exactly when every entry is plain. */
  lemma RoundTripIff(u: Unicode, d: seq<Entry>)
    requires DistinctKeys(d)
    ensures Load(u, Save(u, d)) == Ok(d) <==> AllPlain(u, d)
  {
    if Load(u, Save(u, d)) == Ok(d) {
      LoadIsLoadable(u, Save(u, d));
      LoadSaved(u, d);
      RereadSame(u, d);
    }
    if AllPlain(u, d) {
      PlainIsLoadable(u, d);
      LoadSaved(u, d);
      RereadSame(u, d);
    }
  }
}
