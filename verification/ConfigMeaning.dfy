/**
 What the lines of a config text mean, told from their characters: which words are booleans, which texts are integers
 and of what value, what is peeled off a value, where a comment starts, how a list is cut, which line is refused and
 which of several lines with one key counts; and what exactly is printed.
 */
module ConfigMeaning {
  import opened CharTables
  import opened Config
  import opened ConfigRoundTrip
  import opened Results
  import opened Strings
  import opened Stripping
  import Numerals

  // ----- words -----

  /** The six boolean words, in any case, and no others. */
  lemma BoolWordsIff(u: Unicode, text: string)
    ensures ParseValue(u, text) == Bool(false) <==> u.Lower(text) in {"false", "n", "no"}
    ensures ParseValue(u, text) == Bool(true) <==> u.Lower(text) in {"true", "y", "yes"}
  {
  }

  // ----- integers -----

  /** Digits with single underscores between them. */
  predicate IsNumeral(u: Unicode, text: string)
  {
    && text != "" && u.digit(text[0]).Some? && u.digit(text[|text| - 1]).Some?
    && (forall i :: 0 <= i < |text| ==> text[i] == '_' || u.digit(text[i]).Some?)
    && (forall i :: 0 <= i < |text| - 1 ==> !(text[i] == '_' && text[i + 1] == '_'))
  }

  /** The digits of a numeral, underscores left out. */
  function DigitsOf(u: Unicode, text: string): seq<nat>
  {
    if text == "" then [] else DigitsOf(u, text[..|text| - 1]) + DigitOf(u, text[|text| - 1])
  }

  function DigitOf(u: Unicode, c: char): seq<nat>
  {
    match u.digit(c)
    case Some(d) => [d]
    case None => []
  }

  /** The value in base ten. */
  function NumeralValue(u: Unicode, text: string): nat
  {
    Numerals.Value(DigitsOf(u, text), 10)
  }

  lemma NumeralNext(u: Unicode, front: string, c: char)
    requires u.digit(c).Some?
    ensures IsNumeral(u, front + [c]) <==>
              front == "" || IsNumeral(u, front)
              || (front[|front| - 1] == '_' && IsNumeral(u, front[..|front| - 1]))
    ensures NumeralValue(u, front + [c]) == NumeralValue(u, front) * 10 + u.digit(c).value
  {
    var text := front + [c];
    assert text[..|text| - 1] == front;
    var ds := DigitsOf(u, front);
    assert (ds + [u.digit(c).value])[..|ds|] == ds;
    if front != "" {
      var k := |front| - 1;
      assert u.digit('_') == None;
      if IsNumeral(u, text) {
        assert forall i :: 0 <= i < |front| ==> front[i] == text[i];
        if front[k] == '_' {
          assert text[k] == '_';
          assert k > 0 by { assert text[0] == front[0]; }
          assert text[k - 1] != '_' && text[k - 1] == front[k - 1];
        }
      }
    }
  }

  lemma UnderscoreValue(u: Unicode, front: string)
    ensures NumeralValue(u, front + "_") == NumeralValue(u, front)
  {
    var text := front + "_";
    assert text[..|text| - 1] == front && u.digit('_') == None;
    assert DigitsOf(u, front) + [] == DigitsOf(u, front);
  }

  lemma {:induction false} ParseDigitsIff(u: Unicode, text: string)
    ensures ParseDigits(u, text) == if IsNumeral(u, text) then Some(NumeralValue(u, text)) else None
    decreases |text|
  {
    if text != "" && u.digit(text[|text| - 1]).Some? {
      var front, c := text[..|text| - 1], text[|text| - 1];
      assert text == front + [c];
      NumeralNext(u, front, c);
      if front == "" {
        assert DigitsOf(u, front) == [];
        assert Numerals.Value([], 10) == 0;
      } else if front[|front| - 1] == '_' {
        var body := front[..|front| - 1];
        assert front == body + "_";
        UnderscoreValue(u, body);
        ParseDigitsIff(u, body);
        assert !IsNumeral(u, front) by { assert u.digit('_') == None; }
      } else {
        ParseDigitsIff(u, front);
      }
    }
  }

  /** A text is an integer exactly when it is a numeral with at most one sign in front; its value is what it says. */
  lemma ParseIntIff(u: Unicode, text: string)
    ensures IsNumeral(u, text) ==> ParseInt(u, text) == Some(NumeralValue(u, text))
    ensures text != "" && text[0] == '+' && IsNumeral(u, text[1..]) ==>
              ParseInt(u, text) == Some(NumeralValue(u, text[1..]))
    ensures text != "" && text[0] == '-' && IsNumeral(u, text[1..]) ==>
              var v: int := NumeralValue(u, text[1..]); ParseInt(u, text) == Some(-v)
    ensures ParseInt(u, text).Some? ==>
              IsNumeral(u, text) || (text != "" && text[0] in "+-" && IsNumeral(u, text[1..]))
  {
    ParseDigitsIff(u, text);
    if text != "" {
      ParseDigitsIff(u, text[1..]);
      assert u.digit('+') == None && u.digit('-') == None;
    }
  }

  /** What is neither a boolean word nor bracketed is an integer when it reads as one, and else the string it is. */
  lemma ValueKinds(u: Unicode, text: string)
    ensures ParseValue(u, text).List? <==> u.Lower(text) !in {"false", "n", "no", "true", "y", "yes"} && '[' in text
    ensures u.Lower(text) !in {"false", "n", "no", "true", "y", "yes"} && '[' !in text ==>
              if IsNumeral(u, text) || (text != "" && text[0] in "+-" && IsNumeral(u, text[1..]))
              then ParseValue(u, text).Int? && Some(ParseValue(u, text).n) == ParseInt(u, text)
              else ParseValue(u, text) == Str(text)
  {
    ParseIntIff(u, text);
  }

  // ----- what is peeled off a value -----

  predicate AllOf(s: string, kind: char -> bool)
  {
    forall i :: 0 <= i < |s| ==> kind(s[i])
  }

  lemma {:induction false} StripFront(front: string, s: string, drop: char -> bool)
    requires AllOf(front, drop)
    ensures LStrip(front + s, drop) == LStrip(s, drop)
  {
    if front == "" {
      assert front + s == s;
    } else {
      assert (front + s)[1..] == front[1..] + s;
      StripFront(front[1..], s, drop);
    }
  }

  lemma {:induction false} StripBack(s: string, back: string, drop: char -> bool)
    requires AllOf(back, drop)
    ensures RStrip(s + back, drop) == RStrip(s, drop)
    decreases |back|
  {
    if back == "" {
      assert s + back == s;
    } else {
      var k := |back| - 1;
      assert (s + back)[..|s + back| - 1] == s + back[..k];
      StripBack(s, back[..k], drop);
    }
  }

  /** Stripping removes what is wrapped around a trimmed core. */
  lemma StripWrapped(front: string, core: string, back: string, drop: char -> bool)
    requires AllOf(front, drop) && AllOf(back, drop) && core != "" && Trimmed(core, drop)
    ensures Strip(front + core + back, drop) == core
  {
    assert front + core + back == front + (core + back);
    StripFront(front, core + back, drop);
    assert LStrip(core + back, drop) == core + back by { assert (core + back)[0] == core[0]; }
    StripBack(core, back, drop);
  }

  /** White space around a bare value goes. */
  lemma CleanSpaces(front: string, core: string, back: string)
    requires AllOf(front, IsSpace) && AllOf(back, IsSpace) && core != "" && Trimmed(core, IsEdge)
    ensures Clean(front + core + back) == core
  {
    StripWrapped(front, core, back, IsSpace);
    StripFixed(core, IsSpace);
    StripFixed(core, IsSingleQuote);
    StripFixed(core, IsDoubleQuote);
  }

  /** A layer of single quotes goes, with white space outside and inside. */
  lemma CleanSingle(q: string, s: string, core: string, t: string, r: string)
    requires AllOf(q, IsSingleQuote) && AllOf(r, IsSingleQuote) && q != "" && r != ""
    requires AllOf(s, IsSpace) && AllOf(t, IsSpace) && core != "" && Trimmed(core, IsEdge)
    ensures Clean(q + (s + core + t) + r) == core
  {
    var inner := s + core + t;
    var text := q + inner + r;
    assert text[0] == q[0] && text[|text| - 1] == r[|r| - 1];
    StripFixed(text, IsSpace);
    assert Trimmed(inner, IsSingleQuote) by { assert inner[0] == if s == "" then core[0] else s[0]; }
    StripWrapped(q, inner, r, IsSingleQuote);
    StripWrapped(s, core, t, IsSpace);
    StripFixed(core, IsDoubleQuote);
    StripFixed(core, IsSpace);
  }

  /** A layer of double quotes goes, with white space outside and inside; single quotes inside it stay. */
  lemma CleanDouble(q: string, s: string, core: string, t: string, r: string)
    requires AllOf(q, IsDoubleQuote) && AllOf(r, IsDoubleQuote) && q != "" && r != ""
    requires AllOf(s, IsSpace) && AllOf(t, IsSpace)
    requires core != "" && Trimmed(core, IsSpace) && Trimmed(core, IsDoubleQuote)
    ensures Clean(q + (s + core + t) + r) == core
  {
    var inner := s + core + t;
    var text := q + inner + r;
    assert text[0] == q[0] && text[|text| - 1] == r[|r| - 1];
    StripFixed(text, IsSpace);
    StripFixed(text, IsSingleQuote);
    assert Trimmed(inner, IsDoubleQuote) by { assert inner[0] == if s == "" then core[0] else s[0]; }
    StripWrapped(q, inner, r, IsDoubleQuote);
    StripWrapped(s, core, t, IsSpace);
  }

  /** Double quotes go inside single ones. */
  lemma CleanBoth(core: string)
    requires core != "" && Trimmed(core, IsEdge)
    ensures Clean("'\"" + core + "\"'") == core
  {
    var inner := "\"" + core + "\"";
    var text := "'" + inner + "'";
    assert "'\"" + core + "\"'" == text;
    StripFixed(text, IsSpace);
    StripWrapped("'", inner, "'", IsSingleQuote);
    StripFixed(inner, IsSpace);
    StripWrapped("\"", core, "\"", IsDoubleQuote);
    StripFixed(core, IsSpace);
  }

  // ----- lines -----

  /** Nothing is left of a text exactly when it is all white space. */
  lemma BlankIff(s: string)
    ensures Strip(s, IsSpace) == "" <==> forall c :: c in s ==> IsSpace(c)
  {
    StripParts(s, IsSpace);
    if Strip(s, IsSpace) != "" {
      assert Strip(s, IsSpace)[0] in s;
    } else {
      forall c | c in s ensures IsSpace(c) {
        var i :| 0 <= i < |s| && s[i] == c;
        if !IsSpace(s[i]) {
          StripNonEmpty(s, i, IsSpace);
        }
      }
    }
  }

  /** Blank lines and comment lines are skipped; of the others exactly those without an equals sign are refused. */
  lemma LineKinds(u: Unicode, line: string)
    ensures ParseLine(u, line).Skipped? <==> (forall c :: c in line ==> IsSpace(c)) || line[0] == '#'
    ensures ParseLine(u, line).Bad? <==> !ParseLine(u, line).Skipped? && '=' !in line
    ensures ParseLine(u, line).Bad? ==> ParseLine(u, line).line == line
  {
    BlankIff(line);
  }

  /** The first equals sign ends the key, and the first comment sign behind it ends the value. */
  lemma LineMeans(u: Unicode, key: string, val: string, comment: string)
    requires '=' !in key && (key != "" ==> key[0] != '#') && '#' !in val
    requires comment == "" || comment[0] == '#'
    ensures ParseLine(u, key + "=" + val + comment)
         == Pair(Entry(u.Upper(Strip(key, IsSpace)), ParseValue(u, Clean(val))))
  {
    var behind := val + comment;
    var line := key + "=" + val + comment;
    assert line == key + "=" + behind;
    assert line[|key|] == '=';
    StripNonEmpty(line, |key|, IsSpace);
    BeforePlain(key, behind, '=');
    if comment == "" {
      assert behind == val;
      BeforePlain(val, "", '#');
    } else {
      assert behind == val + ['#'] + comment[1..];
      BeforePlain(val, comment[1..], '#');
    }
  }

  // ----- lists -----

  /** The parts between commas become items one by one, blank ones are left out. */
  lemma {:induction false} ItemsConcat(a: seq<string>, b: seq<string>)
    ensures CleanItems(a + b) == CleanItems(a) + CleanItems(b)
  {
    if a == [] {
      assert a + b == b;
    } else {
      assert (a + b)[1..] == a[1..] + b;
      ItemsConcat(a[1..], b);
    }
  }

  lemma OneItem(part: string)
    ensures CleanItems([part]) == if forall c :: c in part ==> IsSpace(c) then [] else [Clean(part)]
  {
    assert [part][1..] == [] && CleanItems([]) == [];
    BlankIff(part);
  }

  /** Parts in brackets, with commas between them, are a list of the items they become. */
  lemma ListMeans(u: Unicode, parts: seq<string>)
    requires |parts| >= 1 && forall i :: 0 <= i < |parts| ==> ',' !in parts[i]
    requires var inner := Join(parts, ',');
             inner == "" || (inner[0] != '[' && inner[0] != ']' && inner[|inner| - 1] != ']')
    ensures ParseValue(u, "[" + Join(parts, ',') + "]") == List(CleanItems(parts))
  {
    var text := "[" + Join(parts, ',') + "]";
    assert text[0] == '[';
    Unbracketed(Join(parts, ','));
    SplitJoin(parts, ',');
    ReadsAsList(u, text);
  }

  // ----- whole texts -----

  /** Line `i` is refused, and none before it. */
  predicate IsFirstBad(u: Unicode, lines: seq<string>, i: nat)
  {
    i < |lines| && ParseLine(u, lines[i]).Bad? && forall j :: 0 <= j < i ==> !ParseLine(u, lines[j]).Bad?
  }

  lemma {:induction false} NoneBadLoads(u: Unicode, lines: seq<string>)
    requires forall j :: 0 <= j < |lines| ==> !ParseLine(u, lines[j]).Bad?
    ensures LoadLines(u, lines).Ok?
  {
    if lines != [] {
      var k := |lines| - 1;
      forall j | 0 <= j < k ensures !ParseLine(u, lines[..k][j]).Bad? {
        assert lines[..k][j] == lines[j];
      }
      NoneBadLoads(u, lines[..k]);
    }
  }

  /** A text is refused on its first bad line, and loads when it has none. */
  lemma LoadRefused(u: Unicode, text: string, i: nat)
    ensures var lines := Split(text, '\n');
            && (IsFirstBad(u, lines, i) ==> Load(u, text) == Err(NoEquals(lines[i])))
            && ((forall j :: 0 <= j < |lines| ==> !ParseLine(u, lines[j]).Bad?) ==> Load(u, text).Ok?)
  {
    var lines := Split(text, '\n');
    if IsFirstBad(u, lines, i) {
      forall j | 0 <= j < i ensures !ParseLine(u, lines[..i][j]).Bad? {
        assert lines[..i][j] == lines[j];
      }
      NoneBadLoads(u, lines[..i]);
      assert lines[..i + 1][..i] == lines[..i];
      LineKinds(u, lines[i]);
      LoadStops(u, lines, i + 1);
    }
    if forall j :: 0 <= j < |lines| ==> !ParseLine(u, lines[j]).Bad? {
      NoneBadLoads(u, lines);
    }
  }

  function Lookup(d: seq<Entry>, key: string): Option<Value>
  {
    if d == [] then None else if d[0].key == key then Some(d[0].value) else Lookup(d[1..], key)
  }

  lemma {:induction false} PutLookup(d: seq<Entry>, key: string, value: Value, other: string)
    ensures Lookup(Put(d, key, value), other) == if other == key then Some(value) else Lookup(d, other)
  {
    if d != [] && d[0].key != key {
      PutLookup(d[1..], key, value, other);
      assert Put(d, key, value)[1..] == Put(d[1..], key, value);
    } else if d == [] {
      assert [Entry(key, value)][1..] == [];
    } else {
      assert ([Entry(key, value)] + d[1..])[1..] == d[1..];
    }
  }

  /** The value of the last line with this key. */
  function LastValue(u: Unicode, lines: seq<string>, key: string): Option<Value>
  {
    if lines == [] then None else
      match ParseLine(u, lines[|lines| - 1])
      case Pair(e) => if e.key == key then Some(e.value) else LastValue(u, lines[..|lines| - 1], key)
      case _ => LastValue(u, lines[..|lines| - 1], key)
  }

  lemma {:induction false} LinesLookup(u: Unicode, lines: seq<string>, key: string)
    requires LoadLines(u, lines).Ok?
    ensures Lookup(LoadLines(u, lines).value, key) == LastValue(u, lines, key)
  {
    if lines != [] {
      var front, line := lines[..|lines| - 1], ParseLine(u, lines[|lines| - 1]);
      LinesLookup(u, front, key);
      if line.Pair? {
        PutLookup(LoadLines(u, front).value, line.entry.key, line.entry.value, key);
      }
    }
  }

  /** Of several lines with one key, the last one counts. */
  lemma LoadLookup(u: Unicode, text: string, key: string)
    requires Load(u, text).Ok?
    ensures Lookup(Load(u, text).value, key) == LastValue(u, Split(text, '\n'), key)
  {
    LinesLookup(u, Split(text, '\n'), key);
  }

  // ----- what is printed -----

  lemma SaveNext(u: Unicode, front: seq<Entry>, e: Entry)
    ensures Save(u, front + [e]) == Save(u, front) + (PrintEntry(u, e) + "\n")
  {
    assert (front + [e])[..|front|] == front;
  }

  /** What the texts of two dicts give, one after the other. */
  ghost predicate Appended(u: Unicode, a: seq<Entry>, b: seq<Entry>)
  {
    Save(u, a + b) == Save(u, a) + Save(u, b)
  }

  lemma Associate<T>(a: seq<T>, b: seq<T>, c: seq<T>)
    ensures a + b + c == a + (b + c)
  {
  }

  lemma AppendedNext(u: Unicode, a: seq<Entry>, front: seq<Entry>, e: Entry, whole: seq<Entry>)
    requires Appended(u, a, front) && whole == front + [e]
    ensures Appended(u, a, whole)
  {
    var line := PrintEntry(u, e) + "\n";
    SaveNext(u, a + front, e);
    SaveNext(u, front, e);
    Associate(a, front, [e]);
    Associate(Save(u, a), Save(u, front), line);
  }

  lemma AppendedNothing(u: Unicode, a: seq<Entry>)
    ensures Appended(u, a, [])
  {
    assert a + [] == a && Save(u, []) == "";
  }

  lemma {:induction false} AppendedAll(u: Unicode, a: seq<Entry>, b: seq<Entry>, n: nat)
    requires n <= |b|
    ensures Appended(u, a, b[..n])
  {
    if n == 0 {
      AppendedNothing(u, a);
      assert b[..0] == [];
    } else {
      AppendedAll(u, a, b, n - 1);
      TakeNext(b, n - 1);
      AppendedNext(u, a, b[..n - 1], b[n - 1], b[..n]);
    }
  }

  lemma TakeNext<T>(b: seq<T>, n: nat)
    requires n < |b|
    ensures b[..n + 1] == b[..n] + [b[n]]
  {
  }

  /** Entries are printed one after the other. */
  lemma SaveConcat(u: Unicode, a: seq<Entry>, b: seq<Entry>)
    ensures Save(u, a + b) == Save(u, a) + Save(u, b)
  {
    AppendedAll(u, a, b, |b|);
    assert b[..|b|] == b;
  }

  /** One entry is one line, with the key in upper case, booleans as in Python and strings in single quotes. */
  lemma SavedEntry(u: Unicode, key: string, v: Value)
    ensures v == Bool(true) ==> Save(u, [Entry(key, v)]) == u.Upper(key) + " = " + "True" + "\n"
    ensures v == Bool(false) ==> Save(u, [Entry(key, v)]) == u.Upper(key) + " = " + "False" + "\n"
    ensures v.Str? ==> Save(u, [Entry(key, v)]) == u.Upper(key) + " = " + ("'" + v.s + "'") + "\n"
    ensures v.List? ==>
              Save(u, [Entry(key, v)]) == u.Upper(key) + " = " + ("[" + Join(QuotedAll(v.items), ',') + "]") + "\n"
    ensures v.Int? ==>
              exists text :: ParseInt(u, text) == Some(v.n)
                && Save(u, [Entry(key, v)]) == u.Upper(key) + " = " + text + "\n"
  {
    assert [] + [Entry(key, v)] == [Entry(key, v)];
    SaveNext(u, [], Entry(key, v));
    if v.List? {
      PrintListForm(v.items);
    } else if v.Int? {
      ParseIntText(u, v.n);
    }
  }
}
