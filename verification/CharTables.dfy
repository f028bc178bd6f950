/**
 The character data that `str.upper`, `str.lower` and `int` go by. The tables are a parameter of everything that uses
 them; `Lawful` says what is assumed of them: what they say of ASCII, and a few facts about upper case.
 */
module CharTables {
  import opened Results
  import opened Stripping

  /** The full case mappings of each character, and the value of each decimal digit. */
  datatype Tables = Tables(upper: char -> string, lower: char -> string, digit: char -> Option<nat>) {

    function Upper(s: string): string
    {
      if s == [] then [] else upper(s[0]) + Upper(s[1..])
    }

    function Lower(s: string): string
    {
      if s == [] then [] else lower(s[0]) + Lower(s[1..])
    }
  }

  // ----- ASCII -----

  predicate IsAscii(c: char)
  {
    c as int < 128
  }

  function AsciiUpper(c: char): char
  {
    if 'a' <= c <= 'z' then (c as int - 32) as char else c
  }

  function AsciiLower(c: char): char
  {
    if 'A' <= c <= 'Z' then (c as int + 32) as char else c
  }

  function AsciiDigit(c: char): Option<nat>
  {
    if '0' <= c <= '9' then Some(c as int - '0' as int) else None
  }

  function AsciiUpperText(s: string): (r: string)
    ensures |r| == |s|
  {
    seq(|s|, i requires 0 <= i < |s| => AsciiUpper(s[i]))
  }

  function AsciiLowerText(s: string): (r: string)
    ensures |r| == |s|
  {
    seq(|s|, i requires 0 <= i < |s| => AsciiLower(s[i]))
  }

  predicate AllAscii(s: string)
  {
    forall i :: 0 <= i < |s| ==> IsAscii(s[i])
  }

  /** White space, and every ASCII character that is not a letter. */
  predicate IsMark(c: char)
  {
    IsSpace(c) || (IsAscii(c) && !('a' <= c <= 'z') && !('A' <= c <= 'Z'))
  }

  // ----- what is assumed -----

  ghost predicate AsciiRight(t: Tables)
  {
    forall c :: IsAscii(c) ==>
      t.upper(c) == [AsciiUpper(c)] && t.lower(c) == [AsciiLower(c)] && t.digit(c) == AsciiDigit(c)
  }

  /** Marks are the upper case of themselves and of nothing else, upper case is its own upper case, nothing vanishes. */
  ghost predicate UpperRight(t: Tables)
  {
    && (forall c :: t.upper(c) != "")
    && (forall c :: IsMark(c) ==> t.upper(c) == [c])
    && (forall c, d :: d in t.upper(c) && IsMark(d) ==> c == d)
    && (forall c, d :: d in t.upper(c) ==> t.upper(d) == [d])
  }

  ghost predicate Lawful(t: Tables)
  {
    && AsciiRight(t) && UpperRight(t)
    && (forall c :: t.lower(c) != "")
    && (forall c :: t.digit(c).Some? ==> t.digit(c).value < 10)
  }

  /** The tables that know ASCII alone, one of those meant. */
  const ASCII := Tables(c => [AsciiUpper(c)], c => [AsciiLower(c)], c => AsciiDigit(c))

  lemma AsciiLawful()
    ensures Lawful(ASCII)
  {
    var t := ASCII;
    forall c ensures t.upper(c) == [AsciiUpper(c)] && t.lower(c) == [AsciiLower(c)] && t.digit(c) == AsciiDigit(c) {
    }
    forall c ensures IsMark(c) ==> AsciiUpper(c) == c {
    }
    forall c ensures IsMark(AsciiUpper(c)) ==> c == AsciiUpper(c) {
    }
    forall c ensures AsciiUpper(AsciiUpper(c)) == AsciiUpper(c) {
    }
    assert AsciiRight(t);
    assert UpperRight(t) by {
      forall c, d | d in t.upper(c) ensures t.upper(d) == [d] && (IsMark(d) ==> c == d) {
        assert d == AsciiUpper(c);
      }
    }
  }

  type Unicode = t: Tables | Lawful(t) witness (AsciiLawful(); ASCII)

  // ----- upper case -----

  lemma {:induction false} UpperConcat(u: Unicode, a: string, b: string)
    ensures u.Upper(a + b) == u.Upper(a) + u.Upper(b)
  {
    if a == [] {
      assert a + b == b;
    } else {
      assert (a + b)[1..] == a[1..] + b;
      UpperConcat(u, a[1..], b);
    }
  }

  /** What is upper case stays. */
  lemma {:induction false} UpperFixed(u: Unicode, s: string)
    requires forall d :: d in s ==> u.upper(d) == [d]
    ensures u.Upper(s) == s
  {
    if s != [] {
      assert s == [s[0]] + s[1..];
      UpperFixed(u, s[1..]);
    }
  }

  lemma {:induction false} UpperFrom(u: Unicode, s: string, d: char)
    requires d in u.Upper(s)
    ensures exists c :: c in s && d in u.upper(c)
  {
    if d !in u.upper(s[0]) {
      UpperFrom(u, s[1..], d);
    }
  }

  /** Upper case of upper case is nothing new. */
  lemma UpperTwice(u: Unicode, s: string)
    ensures u.Upper(u.Upper(s)) == u.Upper(s)
  {
    forall d | d in u.Upper(s) ensures u.upper(d) == [d] {
      UpperFrom(u, s, d);
    }
    UpperFixed(u, u.Upper(s));
  }

  /** The marks of a text are those of its upper case. */
  lemma {:induction false} UpperMarks(u: Unicode, s: string, m: char)
    requires IsMark(m)
    ensures m in u.Upper(s) <==> m in s
  {
    if s != [] {
      UpperMarks(u, s[1..], m);
      var first, rest := u.upper(s[0]), u.Upper(s[1..]);
      assert u.Upper(s) == first + rest && s == [s[0]] + s[1..];
      if m in first {
        assert m == s[0];
      }
      if m == s[0] {
        assert first == [m] && m in first;
      }
      assert m in first + rest <==> m in first || m in rest;
      assert m in s <==> m == s[0] || m in s[1..];
    }
  }

  lemma UpperNoSpace(u: Unicode, c: char, i: nat)
    requires !IsSpace(c) && i < |u.upper(c)|
    ensures !IsSpace(u.upper(c)[i])
  {
    var d := u.upper(c)[i];
    assert d in u.upper(c);
    assert IsMark(d) ==> c == d;
  }

  /** A text with nothing to strip has an upper case with nothing to strip. */
  lemma UpperTrimmed(u: Unicode, s: string)
    requires Trimmed(s, IsSpace)
    ensures Trimmed(u.Upper(s), IsSpace)
  {
    if s != [] {
      var k := |s| - 1;
      var first, last, all := u.upper(s[0]), u.upper(s[k]), u.Upper(s);
      UpperNoSpace(u, s[0], 0);
      assert all == first + u.Upper(s[1..]);
      UpperNoSpace(u, s[k], |last| - 1);
      UpperConcat(u, s[..k], [s[k]]);
      assert s == s[..k] + [s[k]] && [s[k]][1..] == [];
      assert u.Upper([s[k]]) == last + u.Upper([]) == last;
      assert all == u.Upper(s[..k]) + last;
    }
  }

  // ----- ASCII texts -----

  lemma {:induction false} CaseOfAscii(u: Unicode, s: string)
    requires AllAscii(s)
    ensures u.Upper(s) == AsciiUpperText(s) && u.Lower(s) == AsciiLowerText(s)
  {
    if s != [] {
      CaseOfAscii(u, s[1..]);
      assert IsAscii(s[0]);
      AsciiCons(s);
    }
  }

  lemma AsciiCons(s: string)
    requires s != []
    ensures AsciiUpperText(s) == [AsciiUpper(s[0])] + AsciiUpperText(s[1..])
    ensures AsciiLowerText(s) == [AsciiLower(s[0])] + AsciiLowerText(s[1..])
  {
  }

  /** Lowering keeps the place of an ASCII character in front. */
  lemma LowerHead(u: Unicode, s: string)
    requires s != [] && IsAscii(s[0])
    ensures u.Lower(s) != [] && u.Lower(s)[0] == AsciiLower(s[0])
  {
  }
}
