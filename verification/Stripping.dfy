/** Python's `strip` and `rstrip`. */
module Stripping {

  /** `str.strip()` removes these. */
  predicate IsSpace(c: char)
  {
    var n := c as int;
    || 9 <= n <= 13 || 28 <= n <= 32 || n == 0x85 || n == 0xA0 || n == 0x1680 || 0x2000 <= n <= 0x200A
    || n == 0x2028 || n == 0x2029 || n == 0x202F || n == 0x205F || n == 0x3000
  }

  function LStrip(s: string, drop: char -> bool): (r: string)
    ensures |r| <= |s|
  {
    if s != [] && drop(s[0]) then LStrip(s[1..], drop) else s
  }

  function RStrip(s: string, drop: char -> bool): (r: string)
    ensures |r| <= |s|
  {
    if s != [] && drop(s[|s| - 1]) then RStrip(s[..|s| - 1], drop) else s
  }

  function Strip(s: string, drop: char -> bool): string
  {
    RStrip(LStrip(s, drop), drop)
  }

  /** Neither end would be stripped. */
  predicate Trimmed(s: string, drop: char -> bool)
  {
    s == [] || (!drop(s[0]) && !drop(s[|s| - 1]))
  }

  lemma {:induction false} LStripParts(s: string, drop: char -> bool)
    ensures LStrip(s, drop) == s[|s| - |LStrip(s, drop)|..]
    ensures LStrip(s, drop) != [] ==> !drop(LStrip(s, drop)[0])
    ensures forall i :: 0 <= i < |s| - |LStrip(s, drop)| ==> drop(s[i])
  {
    if s != [] && drop(s[0]) {
      LStripParts(s[1..], drop);
    }
  }

  lemma {:induction false} RStripParts(s: string, drop: char -> bool)
    ensures RStrip(s, drop) == s[..|RStrip(s, drop)|]
    ensures RStrip(s, drop) != [] ==> !drop(RStrip(s, drop)[|RStrip(s, drop)| - 1])
    ensures forall i :: |RStrip(s, drop)| <= i < |s| ==> drop(s[i])
  {
    if s != [] && drop(s[|s| - 1]) {
      RStripParts(s[..|s| - 1], drop);
    }
  }

  /** `strip` returns the part between the first and the last character that stays. */
  lemma StripParts(s: string, drop: char -> bool)
    ensures |Strip(s, drop)| <= |s| && Trimmed(Strip(s, drop), drop)
    ensures forall c :: c in Strip(s, drop) ==> c in s
  {
    var left := LStrip(s, drop);
    LStripParts(s, drop);
    RStripParts(left, drop);
  }

  /** `strip` changes nothing exactly when both ends stay. */
  lemma StripFixed(s: string, drop: char -> bool)
    ensures Strip(s, drop) == s <==> Trimmed(s, drop)
    ensures |Strip(s, drop)| == |s| ==> Strip(s, drop) == s
  {
    LStripParts(s, drop);
    RStripParts(LStrip(s, drop), drop);
  }

  /** Characters of the stripped kind around a text make no difference. */
  lemma StripPadded(s: string, c: char, drop: char -> bool)
    requires drop(c)
    ensures Strip([c] + s, drop) == Strip(s, drop)
    ensures Strip(s + [c], drop) == Strip(s, drop)
  {
    assert ([c] + s)[1..] == s;
    LStripAppend(s, c, drop);
    var left := LStrip(s, drop);
    if left == [] {
      assert Strip(s + [c], drop) == [];
    } else {
      assert (left + [c])[..|left|] == left;
    }
  }

  lemma {:induction false} LStripAppend(s: string, c: char, drop: char -> bool)
    requires drop(c)
    ensures LStrip(s + [c], drop) == if LStrip(s, drop) == [] then [] else LStrip(s, drop) + [c]
  {
    if s == [] {
      assert s + [c] == [c];
      assert [c][1..] == [];
    } else if drop(s[0]) {
      assert (s + [c])[1..] == s[1..] + [c];
      LStripAppend(s[1..], c, drop);
    }
  }
}
