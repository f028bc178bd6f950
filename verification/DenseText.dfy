/**
 The key normaliser `text_strip_to_ascii_dense`: lower case, white space out, punctuation to `_`, everything else
 out, runs of `_` shortened by repeated replacement, trailing `_` out. What it means is said in terms of the words
 between underscores, with no loop and no replacement.
 */
module DenseText {
  import opened CharTables
  import opened Stripping
  import opened Strings

  // ----- the characters -----

  function Filter(s: string, keep: char -> bool): (r: string)
    ensures |r| <= |s|
  {
    if s == [] then [] else (if keep(s[0]) then [s[0]] else []) + Filter(s[1..], keep)
  }

  function ReplaceChar(c: char): char
  {
    if c in "-/\\= ;!+()" then '_' else c
  }

  /** What passes the final check: the dot, the underscore, digits and lower-case letters. */
  predicate Allowed(c: char)
  {
    c in "._" || '0' <= c <= '9' || 'a' <= c <= 'z'
  }

  predicate IsUnderscore(c: char)
  {
    c == '_'
  }

  predicate NotNewline(c: char)
  {
    c != '\n'
  }

  predicate NotTab(c: char)
  {
    c != '\t'
  }

  predicate NotBlank(c: char)
  {
    c != ' '
  }

  function ReplaceChars(s: string): (r: string)
  {
    seq(|s|, i requires 0 <= i < |s| => ReplaceChar(s[i]))
  }

  function WithoutSpace(s: string): string
  {
    Filter(Filter(Filter(s, NotNewline), NotTab), NotBlank)
  }

  /** The text just before runs of underscores are shortened. */
  function Kept(u: Unicode, text: string): string
  {
    Passes(u.Lower(text))
  }

  /** The passes after lowering. */
  function Passes(s: string): string
  {
    Filter(ReplaceChars(WithoutSpace(s)), Allowed)
  }

  lemma {:induction false} FilterParts(s: string, keep: char -> bool)
    ensures forall c :: c in Filter(s, keep) ==> keep(c) && c in s
    ensures (forall c :: c in s ==> keep(c)) ==> Filter(s, keep) == s
  {
    if s != [] {
      FilterParts(s[1..], keep);
      assert s == [s[0]] + s[1..];
    }
  }

  /** What becomes of one character of the lowered text. */
  function KeptChar(d: char): string
  {
    if 'a' <= d <= 'z' || '0' <= d <= '9' || d == '.' || d == '_' then [d]
    else if d in {'-', '/', '\\', '=', ';', '!', '+', '(', ')'} then "_"
    else ""
  }

  function KeptChars(s: string): string
  {
    if s == [] then [] else KeptChar(s[0]) + KeptChars(s[1..])
  }

  /** What becomes of one character. */
  function KeptOf(u: Unicode, c: char): string
  {
    KeptChars(u.lower(c))
  }

  lemma FilterCons(c: char, s: string, keep: char -> bool)
    ensures Filter([c] + s, keep) == if keep(c) then [c] + Filter(s, keep) else Filter(s, keep)
  {
    assert ([c] + s)[1..] == s;
  }

  lemma WithoutSpaceCons(c: char, s: string)
    ensures WithoutSpace([c] + s) ==
            if NotNewline(c) && NotTab(c) && NotBlank(c) then [c] + WithoutSpace(s) else WithoutSpace(s)
  {
    var lines := Filter(s, NotNewline);
    FilterCons(c, s, NotNewline);
    FilterCons(c, lines, NotTab);
    FilterCons(c, Filter(lines, NotTab), NotBlank);
  }

  lemma KeptCharIs(d: char)
    ensures KeptChar(d) ==
            if NotNewline(d) && NotTab(d) && NotBlank(d) && Allowed(ReplaceChar(d)) then [ReplaceChar(d)] else ""
  {
  }

  lemma ReplaceCons(c: char, s: string)
    ensures ReplaceChars([c] + s) == [ReplaceChar(c)] + ReplaceChars(s)
  {
    var all := [c] + s;
    forall i | 0 <= i < |all| ensures ReplaceChars(all)[i] == ([ReplaceChar(c)] + ReplaceChars(s))[i] {
      assert i > 0 ==> all[i] == s[i - 1];
    }
  }

  lemma AllowedCons(c: char, s: string)
    ensures Filter(ReplaceChars([c] + s), Allowed) ==
            if Allowed(ReplaceChar(c)) then [ReplaceChar(c)] + Filter(ReplaceChars(s), Allowed)
            else Filter(ReplaceChars(s), Allowed)
  {
    ReplaceCons(c, s);
    FilterCons(ReplaceChar(c), ReplaceChars(s), Allowed);
  }

  lemma PassesCons(d: char, s: string)
    ensures Passes([d] + s) == KeptChar(d) + Passes(s)
  {
    WithoutSpaceCons(d, s);
    AllowedCons(d, WithoutSpace(s));
    KeptCharIs(d);
    assert Passes([d] + s) == if KeptChar(d) == "" then Passes(s) else KeptChar(d) + Passes(s);
  }

  /** The passes after lowering treat each character on its own. */
  lemma {:induction false} PassesConcat(a: string, b: string)
    ensures Passes(a + b) == KeptChars(a) + Passes(b)
  {
    if a == [] {
      assert a + b == b;
    } else {
      assert a + b == [a[0]] + (a[1..] + b);
      PassesConcat(a[1..], b);
      PassesCons(a[0], a[1..] + b);
    }
  }

  /** So do all of them, lowering included: what becomes of a character does not depend on its neighbours. */
  lemma KeptCons(u: Unicode, c: char, text: string)
    ensures Kept(u, [c] + text) == KeptOf(u, c) + Kept(u, text)
  {
    assert ([c] + text)[1..] == text;
    PassesConcat(u.lower(c), u.Lower(text));
  }

  lemma KeptOne(d: char)
    ensures KeptChars([d]) == KeptChar(d)
  {
    assert [d][1..] == [] && KeptChars([]) == [];
    assert KeptChar(d) + [] == KeptChar(d);
  }

  /** What becomes of an ASCII character. */
  lemma KeptAscii(u: Unicode, c: char)
    requires IsAscii(c)
    ensures KeptOf(u, c) ==
            if 'A' <= c <= 'Z' then [(c as int + 32) as char]
            else if 'a' <= c <= 'z' || '0' <= c <= '9' || c == '.' || c == '_' then [c]
            else if c in {'-', '/', '\\', '=', ';', '!', '+', '(', ')'} then "_"
            else ""
  {
    KeptOne(AsciiLower(c));
    assert u.lower(c) == [AsciiLower(c)];
  }

  lemma KeptAllowed(u: Unicode, text: string)
    ensures forall c :: c in Kept(u, text) ==> Allowed(c)
  {
    FilterParts(ReplaceChars(WithoutSpace(u.Lower(text))), Allowed);
  }

  lemma AllowedUnchanged(u: Unicode, text: string)
    requires forall c :: c in text ==> Allowed(c)
    ensures u.Lower(text) == text
    ensures ReplaceChars(text) == text
  {
    forall i | 0 <= i < |text|
      ensures IsAscii(text[i]) && AsciiLower(text[i]) == text[i] && ReplaceChar(text[i]) == text[i]
    {
      assert text[i] in text;
    }
    CaseOfAscii(u, text);
  }

  lemma KeptFixed(u: Unicode, text: string)
    requires forall c :: c in text ==> Allowed(c)
    ensures Kept(u, text) == text
  {
    AllowedUnchanged(u, text);
    WithoutSpaceFixed(text);
    FilterParts(text, Allowed);
  }

  lemma WithoutSpaceFixed(text: string)
    requires forall c :: c in text ==> Allowed(c)
    ensures WithoutSpace(text) == text
  {
    FilterFixed(text, NotNewline);
    FilterFixed(text, NotTab);
    FilterFixed(text, NotBlank);
  }

  lemma FilterFixed(s: string, keep: char -> bool)
    requires forall c :: c in s ==> keep(c)
    ensures Filter(s, keep) == s
  {
    FilterParts(s, keep);
  }

  // ----- runs of underscores -----

  predicate HasPair(s: string)
  {
    exists i :: 0 <= i < |s| - 1 && s[i] == '_' && s[i + 1] == '_'
  }

  /** `s.replace("__", "_")`: non-overlapping occurrences, from the left. */
  function ReplacePairs(s: string): string
  {
    if |s| < 2 then s
    else if s[0] == '_' && s[1] == '_' then "_" + ReplacePairs(s[2..])
    else [s[0]] + ReplacePairs(s[1..])
  }

  /** Every run of underscores shortened to one, in a single pass. */
  function Collapse(s: string): string
  {
    if |s| < 2 then s
    else if s[0] == '_' && s[1] == '_' then Collapse(s[1..])
    else [s[0]] + Collapse(s[1..])
  }

  lemma {:induction false} CollapseCons(c: char, s: string)
    ensures Collapse([c] + s) == if c == '_' && s != [] && s[0] == '_' then Collapse(s) else [c] + Collapse(s)
  {
    assert ([c] + s)[1..] == s;
    if s == [] {
      assert Collapse(s) == [];
      assert [c] + s == [c];
    }
  }

  lemma {:induction false} CollapseHead(s: string)
    ensures Collapse(s) == [] <==> s == []
    ensures s != [] ==> Collapse(s)[0] == s[0]
  {
    if |s| >= 2 {
      CollapseHead(s[1..]);
    }
  }

  lemma {:induction false} ReplacePairsHead(s: string)
    ensures ReplacePairs(s) == [] <==> s == []
    ensures s != [] ==> ReplacePairs(s)[0] == s[0]
  {
  }

  /** One replacement pass does not change what the runs collapse to. */
  lemma {:induction false} CollapseReplaced(s: string)
    ensures Collapse(ReplacePairs(s)) == Collapse(s)
    decreases |s|
  {
    if |s| >= 2 {
      var rest := if s[0] == '_' && s[1] == '_' then s[2..] else s[1..];
      CollapseReplaced(rest);
      ReplacePairsHead(rest);
      CollapseCons(s[0], ReplacePairs(rest));
      CollapseCons(s[0], rest);
      if s[0] == '_' && s[1] == '_' {
        assert s[1..] == [s[0]] + rest;
      } else {
        assert s == [s[0]] + rest;
      }
    }
  }

  /** A pass shortens the text exactly when the loop guard holds. */
  lemma {:induction false} ReplacePairsShrinks(s: string)
    ensures |ReplacePairs(s)| <= |s|
    ensures HasPair(s) ==> |ReplacePairs(s)| < |s|
    decreases |s|
  {
    if |s| >= 2 {
      if s[0] == '_' && s[1] == '_' {
        ReplacePairsShrinks(s[2..]);
      } else {
        ReplacePairsShrinks(s[1..]);
        if HasPair(s) {
          var i :| 0 <= i < |s| - 1 && s[i] == '_' && s[i + 1] == '_';
          assert s[1..][i - 1] == '_' && s[1..][i] == '_';
        }
      }
    }
  }

  lemma {:induction false} CollapseFixed(s: string)
    requires !HasPair(s)
    ensures Collapse(s) == s
  {
    if |s| >= 2 {
      assert !HasPair(s[1..]) by {
        assert forall i :: 0 <= i < |s[1..]| ==> s[1..][i] == s[i + 1];
      }
      CollapseFixed(s[1..]);
      assert s == [s[0]] + s[1..];
    }
  }

  lemma {:induction false} CollapsePairFree(s: string)
    ensures !HasPair(Collapse(s))
    ensures forall c :: c in Collapse(s) ==> c in s
  {
    if |s| >= 2 {
      CollapsePairFree(s[1..]);
      CollapseHead(s[1..]);
      var rest := Collapse(s[1..]);
      if !(s[0] == '_' && s[1] == '_') {
        var all := [s[0]] + rest;
        forall i | 0 <= i < |all| - 1 ensures !(all[i] == '_' && all[i + 1] == '_') {
          if i > 0 {
            assert all[i] == rest[i - 1] && all[i + 1] == rest[i];
          }
        }
      }
    }
  }

  // ----- the normaliser -----

  /** The normal form: every run collapsed, no underscore at the end. */
  function Dense(u: Unicode, text: string): string
  {
    RStrip(Collapse(Kept(u, text)), IsUnderscore)
  }

  method StripToAsciiDense(u: Unicode, text: string) returns (r: string)
    ensures r == Dense(u, text)
  {
    r := Kept(u, text);
    while HasPair(r)
      invariant Collapse(r) == Collapse(Kept(u, text))
      decreases |r|
    {
      CollapseReplaced(r);
      ReplacePairsShrinks(r);
      r := ReplacePairs(r);
    }
    CollapseFixed(r);
    r := RStrip(r, IsUnderscore);
  }

  /** What a key looks like. */
  predicate IsDense(s: string)
  {
    && (forall c :: c in s ==> Allowed(c))
    && !HasPair(s)
    && (s == [] || s[|s| - 1] != '_')
  }

  lemma DenseIsDense(u: Unicode, text: string)
    ensures IsDense(Dense(u, text))
  {
    var full := Collapse(Kept(u, text));
    KeptAllowed(u, text);
    CollapsePairFree(Kept(u, text));
    RStripParts(full, IsUnderscore);
    var r := Dense(u, text);
    assert r == full[..|r|];
    forall i | 0 <= i < |r| - 1 ensures !(r[i] == '_' && r[i + 1] == '_') {
      assert r[i] == full[i] && r[i + 1] == full[i + 1];
    }
    forall c | c in r ensures Allowed(c) {
      assert c in full;
    }
  }

  /** The normal forms are exactly the texts the normaliser leaves alone. */
  lemma DenseFixedIff(u: Unicode, text: string)
    ensures Dense(u, text) == text <==> IsDense(text)
  {
    DenseIsDense(u, text);
    if IsDense(text) {
      KeptFixed(u, text);
      CollapseFixed(text);
      RStripParts(text, IsUnderscore);
    }
  }

  lemma DenseTwice(u: Unicode, text: string)
    ensures Dense(u, Dense(u, text)) == Dense(u, text)
  {
    DenseIsDense(u, text);
    DenseFixedIff(u, Dense(u, text));
  }

  // ----- the words -----

  function NonEmpty(parts: seq<string>): seq<string>
  {
    if parts == [] then [] else (if parts[0] == "" then [] else [parts[0]]) + NonEmpty(parts[1..])
  }

  /** What stands before the first underscore, then every non-empty word after it. */
  function Words(s: string): (words: seq<string>)
    ensures |words| >= 1
  {
    var parts := Split(s, '_');
    [parts[0]] + NonEmpty(parts[1..])
  }

  lemma {:induction false} RStripCons(c: char, s: string, drop: char -> bool)
    ensures RStrip([c] + s, drop) == if RStrip(s, drop) == [] && drop(c) then [] else [c] + RStrip(s, drop)
    decreases |s|
  {
    var all := [c] + s;
    if s == [] {
      assert all[..|all| - 1] == [];
      assert RStrip([], drop) == [];
    } else if drop(s[|s| - 1]) {
      assert all[..|all| - 1] == [c] + s[..|s| - 1];
      RStripCons(c, s[..|s| - 1], drop);
    }
  }

  lemma {:induction false} SplitHeadEmpty(s: string)
    ensures Split(s, '_')[0] == "" <==> (s == [] || s[0] == '_')
  {
  }

  lemma JoinPushed(c: char, words: seq<string>, sep: char)
    requires |words| >= 1
    ensures Join([[c] + words[0]] + words[1..], sep) == [c] + Join(words, sep)
  {
    assert ([[c] + words[0]] + words[1..])[1..] == words[1..];
  }

  lemma {:induction false} WordsCons(c: char, s: string)
    ensures c != '_' ==> Words([c] + s) == [[c] + Words(s)[0]] + Words(s)[1..]
    ensures c == '_' ==> Words([c] + s) == if s == [] || s[0] == '_' then [""] + Words(s)[1..] else [""] + Words(s)
  {
    var parts := Split(s, '_');
    assert ([c] + s)[1..] == s;
    SplitHeadEmpty(s);
    assert ([""] + parts)[1..] == parts;
    assert ([[c] + parts[0]] + parts[1..])[1..] == parts[1..];
    assert Words(s)[1..] == NonEmpty(parts[1..]);
  }

  /** What one more character in front does to the trimmed and collapsed text: a leading `_` counts once. */
  lemma TrimmedCons(c: char, s: string)
    ensures RStrip(Collapse([c] + s), IsUnderscore) ==
            if c == '_' && (s == [] || s[0] == '_') then RStrip(Collapse(s), IsUnderscore)
            else [c] + RStrip(Collapse(s), IsUnderscore)
  {
    var tail := Collapse(s);
    CollapseCons(c, s);
    CollapseHead(s);
    RStripCons(c, tail, IsUnderscore);
    if c == '_' && s != [] && s[0] != '_' {
      assert tail == [tail[0]] + tail[1..];
      RStripCons(tail[0], tail[1..], IsUnderscore);
    }
  }

  /** The same for the joined words. */
  lemma JoinedCons(c: char, s: string)
    ensures Join(Words([c] + s), '_') ==
            if c == '_' && (s == [] || s[0] == '_') then Join(Words(s), '_') else [c] + Join(Words(s), '_')
  {
    var words := Words(s);
    WordsCons(c, s);
    SplitHeadEmpty(s);
    assert words == [words[0]] + words[1..];
    if c != '_' {
      JoinPushed(c, words, '_');
    } else if s != [] && s[0] != '_' {
      assert ([""] + words)[1..] == words;
    }
  }

  /** Shortening runs and trimming the end is joining the words with single underscores. */
  lemma {:induction false} CollapseIsWords(s: string)
    ensures RStrip(Collapse(s), IsUnderscore) == Join(Words(s), '_')
  {
    if s == [] {
      assert Words(s) == [""];
    } else {
      assert s == [s[0]] + s[1..];
      CollapseIsWords(s[1..]);
      TrimmedCons(s[0], s[1..]);
      JoinedCons(s[0], s[1..]);
    }
  }

  /**
   The key of a text, without the loop: the words of the kept characters, joined by single underscores. Only an
   underscore in front of the first word survives as an empty word.
   */
  lemma DenseIsWords(u: Unicode, text: string)
    ensures Dense(u, text) == Join(Words(Kept(u, text)), '_')
  {
    CollapseIsWords(Kept(u, text));
  }

  lemma {:induction false} NonEmptyMembers(parts: seq<string>)
    ensures forall word :: word in NonEmpty(parts) <==> word in parts && word != ""
  {
    if parts != [] {
      NonEmptyMembers(parts[1..]);
      assert parts == [parts[0]] + parts[1..];
    }
  }

  /** Two texts get the same key exactly when their words agree. */
  lemma SameKeyIff(u: Unicode, a: string, b: string)
    ensures Dense(u, a) == Dense(u, b) <==> Words(Kept(u, a)) == Words(Kept(u, b))
  {
    DenseIsWords(u, a);
    DenseIsWords(u, b);
    WordsReread(Kept(u, a));
    WordsReread(Kept(u, b));
  }

  /** The words can be read back from the key. */
  lemma WordsReread(s: string)
    ensures Split(Join(Words(s), '_'), '_') == Words(s)
  {
    var parts := Split(s, '_');
    SplitParts(s, '_');
    NonEmptyMembers(parts[1..]);
    forall i | 0 <= i < |Words(s)| ensures '_' !in Words(s)[i] {
      if i > 0 {
        assert Words(s)[i] == NonEmpty(parts[1..])[i - 1];
        assert Words(s)[i] in parts[1..];
      }
    }
    SplitJoin(Words(s), '_');
  }
}
