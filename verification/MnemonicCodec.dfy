/**
 The code of the mnemonic codec, step by step: bisection, the big-integer encoder, the shift-mask decoder
 and the hexadecimal phrase check, each proved against `Mnemonic`.
 */
module MnemonicCodec {
  import opened Mnemonic
  import opened Numerals
  import opened Results
  import opened Strings

  // ----- binary search -----

  /** `bisect.bisect_left(a, x, lo, hi)` */
  method BisectLeft(a: seq<string>, x: string, lo: nat, hi: nat) returns (pos: nat)
    requires lo <= hi <= |a| && StrictlySorted(a)
    ensures lo <= pos <= hi
    ensures forall i :: lo <= i < pos ==> Less(a[i], x)
    ensures forall i :: pos <= i < hi ==> !Less(a[i], x)
  {
    var low, high := lo, hi;
    while low < high
      invariant lo <= low <= high <= hi
      invariant forall i :: lo <= i < low ==> Less(a[i], x)
      invariant forall i :: high <= i < hi ==> !Less(a[i], x)
    {
      var mid := (low + high) / 2;
      if Less(a[mid], x) {
        forall i | lo <= i < mid ensures Less(a[i], x) {
          LessTransitive(a[i], a[mid], x);
        }
        low := mid + 1;
      } else {
        forall i | mid < i < hi ensures !Less(a[i], x) {
          if Less(a[i], x) {
            LessTransitive(a[mid], a[i], x);
          }
        }
        high := mid;
      }
    }
    pos := low;
  }

  /** `binary_search(a, x)` finds what a linear search finds. */
  method BinarySearch(a: seq<string>, x: string) returns (r: int)
    requires StrictlySorted(a)
    ensures r == Position(a, x)
  {
    var hi := |a|;
    var pos := BisectLeft(a, x, 0, hi);
    if pos != hi && a[pos] == x {
      r := pos;
      PositionUnique(a, pos);
    } else {
      r := -1;
      LessTrichotomy(x, x);
      assert forall i :: pos < i < hi && pos < hi ==> Less(a[pos], a[i]);
    }
  }

  // ----- to_mnemonic -----

  /** `int(hexlify(data), 16)` is the number whose bits are the bits of the bytes. */
  lemma HexValue(data: seq<Byte>)
    ensures Value(Spread(data, 16, 2), 16) == Value(Bits(data), 2)
  {
    assert Pow(2, 8) == 256 && Pow(16, 2) == 256;
    ValueOfSpread(data, 16, 2);
    ValueOfSpread(data, 2, 8);
  }

  /** `bin(int(hexlify(data), 16))[2:].zfill(len(data) * 8)`: no leading zero is lost. */
  method BinaryText(data: seq<Byte>) returns (text: seq<nat>)
    requires data != []
    ensures text == Bits(data)
  {
    text := ZFill(Numeral(Value(Spread(data, 16, 2), 16), 2), |data| * 8);
    var bits := Bits(data);
    HexValue(data);
    ValueBound(bits, 2);
    ZFillNumeral(Value(bits, 2), 2, |bits|);
    DigitsOfValue(bits, 2);
  }

  /** The loop of `to_mnemonic`: a word for every eleven characters of the text. */
  method WordsOfText(b: seq<nat>, english: seq<string>) returns (result: seq<string>)
    requires |english| == 2048 && AreDigits(b, 2)
    ensures |result| == |Gather(b, 2, 11)|
    ensures forall k :: 0 <= k < |result| ==>
              Gather(b, 2, 11)[k] < 2048 && result[k] == english[Gather(b, 2, 11)[k]]
  {
    assert Pow(2, 11) == 2048;
    GatherBound(b, 2, 11);
    ghost var indices := Gather(b, 2, 11);
    GatherAt(b, 2, 11, 0);
    result := [];
    var i := 0;
    while i < |b| / 11
      invariant 0 <= i == |result| <= |b| / 11
      invariant forall k :: 0 <= k < i ==> result[k] == english[indices[k]]
    {
      GatherAt(b, 2, 11, i);
      var idx := Value(b[i * 11..(i + 1) * 11], 2);
      result := result + [english[idx]];
      i := i + 1;
    }
  }

  lemma WordsAreMnemonic(data: seq<Byte>, ws: seq<string>, english: seq<string>, sha: Hash)
    requires |english| == 2048 && LegalLength(|data|)
    requires var indices := Gather(DataBits(data, sha), 2, 11);
             |ws| == |indices| && forall k :: 0 <= k < |ws| ==> indices[k] < 2048 && ws[k] == english[indices[k]]
    ensures PhraseOf(data, english, sha) == Ok(Join(ws, ' '))
  {
    assert ws == MnemonicOf(data, english, sha).value;
  }

  method ToMnemonic(data: seq<Byte>, english: seq<string>, sha: Hash) returns (r: Result<string, Error>)
    requires |english| == 2048
    ensures r == PhraseOf(data, english, sha)
  {
    if !LegalLength(|data|) {
      return Err(BadDataLength(|data|));
    }
    var h := sha(data);
    var left := BinaryText(data);
    var right := BinaryText(h);
    var b := left + right[..|data| * 8 / 32];
    DataSizes(|data|);
    assert b == DataBits(data, sha);
    var result := WordsOfText(b, english);
    WordsAreMnemonic(data, result, english, sha);
    r := Ok(Join(result, ' '));
  }

  // ----- to_entropy -----

  /** The list of booleans that stands for a list of bits. */
  function Flags(bits: seq<nat>): (flags: seq<bool>)
    ensures |flags| == |bits|
  {
    seq(|bits|, i requires 0 <= i < |bits| => bits[i] == 1)
  }

  lemma FlagsInjective(a: seq<nat>, b: seq<nat>)
    requires AreDigits(a, 2) && AreDigits(b, 2) && |a| == |b|
    ensures Flags(a) == Flags(b) <==> a == b
  {
    if Flags(a) == Flags(b) {
      forall i | 0 <= i < |a| ensures a[i] == b[i] {
        assert Flags(a)[i] == Flags(b)[i];
      }
    }
  }

  /** Masking with 1 << (width - 1 - i) reads digit `i`. */
  lemma MaskReadsDigit(n: nat, width: nat, i: nat)
    requires i < width
    ensures (BitAnd(n, Pow(2, width - 1 - i)) != 0) == (Digits(n, 2, width)[i] == 1)
  {
    MaskTest(n, width - 1 - i);
    DigitAt(n, 2, width, i);
  }

  lemma FlagsConcat(a: seq<nat>, b: seq<nat>)
    ensures Flags(a + b) == Flags(a) + Flags(b)
  {
  }

  /** Sets the eleven bits of one word. */
  method SetWordBits(concatBits: array<bool>, wordIndex: nat, ndx: nat)
    requires 11 * wordIndex + 11 <= concatBits.Length
    modifies concatBits
    ensures concatBits[..11 * wordIndex + 11] == old(concatBits[..11 * wordIndex]) + Flags(Digits(ndx, 2, 11))
  {
    ghost var start, flags := 11 * wordIndex, Flags(Digits(ndx, 2, 11));
    var ii := 0;
    while ii < 11
      invariant 0 <= ii <= 11
      invariant concatBits[..start + ii] == old(concatBits[..start]) + flags[..ii]
    {
      MaskReadsDigit(ndx, 11, ii);
      concatBits[(wordIndex * 11) + ii] := BitAnd(ndx, Pow(2, 10 - ii)) != 0;
      assert concatBits[start + ii] == flags[ii];
      ii := ii + 1;
    }
  }

  lemma WordBitsNext(ws: seq<string>, i: nat, english: seq<string>)
    requires i < |ws| && Listed(ws[..i + 1], english)
    ensures Listed(ws[..i], english) && ws[i] in english
    ensures WordBits(ws[..i + 1], english) == WordBits(ws[..i], english) + Digits(Position(english, ws[i]), 2, 11)
    ensures Flags(WordBits(ws[..i + 1], english))
         == Flags(WordBits(ws[..i], english)) + Flags(Digits(Position(english, ws[i]), 2, 11))
  {
    assert forall k :: 0 <= k < i ==> ws[..i][k] == ws[..i + 1][k];
    assert ws[..i + 1][i] == ws[i];
    assert Indices(ws[..i + 1], english)[..i] == Indices(ws[..i], english);
    FlagsConcat(WordBits(ws[..i], english), Digits(Position(english, ws[i]), 2, 11));
  }

  lemma ListedNext(ws: seq<string>, i: nat, english: seq<string>)
    requires i < |ws| && Listed(ws[..i], english) && ws[i] in english
    ensures Listed(ws[..i + 1], english)
  {
    var next := ws[..i + 1];
    forall k | 0 <= k < |next| ensures next[k] in english {
      if k < i {
        assert ws[..i][k] == next[k];
      }
    }
  }

  lemma {:induction false} FirstUnlistedAt(ws: seq<string>, i: nat, english: seq<string>)
    requires i < |ws| && Listed(ws[..i], english) && ws[i] !in english
    ensures FirstUnlisted(ws, english) == Some(ws[i])
  {
    if i > 0 {
      assert ws[0] == ws[..i][0];
      assert ws[1..][..i - 1] == ws[..i][1..];
      FirstUnlistedAt(ws[1..], i - 1, english);
    }
  }

  /** The lookup loop: fills the bit array, or stops at the first word that is not in the list. */
  method FillBits(words: seq<string>, english: seq<string>, concatBits: array<bool>)
    returns (missing: Option<string>)
    requires StrictlySorted(english) && concatBits.Length == 11 * |words|
    modifies concatBits
    ensures missing == FirstUnlisted(words, english)
    ensures missing == None ==> concatBits[..] == Flags(WordBits(words, english))
  {
    var wordIndex := 0;
    ghost var flags: seq<bool> := [];
    while wordIndex < |words|
      invariant 0 <= wordIndex <= |words|
      invariant Listed(words[..wordIndex], english)
      invariant flags == Flags(WordBits(words[..wordIndex], english))
      invariant concatBits[..11 * wordIndex] == flags
    {
      var ndx := BinarySearch(english, words[wordIndex]);
      if ndx < 0 {
        FirstUnlistedAt(words, wordIndex, english);
        return Some(words[wordIndex]);
      }
      SetWordBits(concatBits, wordIndex, ndx);
      ListedNext(words, wordIndex, english);
      WordBitsNext(words, wordIndex, english);
      flags := flags + Flags(Digits(ndx, 2, 11));
      wordIndex := wordIndex + 1;
    }
    assert words[..wordIndex] == words;
    assert concatBits[..11 * wordIndex] == concatBits[..];
    missing := None;
  }

  lemma Doubled(v: nat, p: nat)
    ensures v * (2 * p) == (2 * v) * p && (2 * v + 1) * p == v * (2 * p) + p
  {
  }

  /** One step of packing: shifting in one more bit from the left. */
  lemma PackStep(v: nat, k: nat)
    ensures v * Pow(2, k + 1) == (2 * v) * Pow(2, k)
    ensures BitOr(v * Pow(2, k + 1), Pow(2, k)) == (2 * v + 1) * Pow(2, k)
  {
    var p := Pow(2, k);
    Doubled(v, p);
    PowPositive(2, k + 1);
    DivUnique(v * (2 * p), 2 * p, v, 0);
    MaskSet(v * (2 * p), k);
  }

  lemma ValueNext(bits: seq<nat>, from: nat, j: nat)
    requires from + j < |bits|
    ensures Value(bits[from..from + j + 1], 2) == 2 * Value(bits[from..from + j], 2) + bits[from + j]
  {
    assert bits[from..from + j + 1][..j] == bits[from..from + j];
  }

  /** The byte after its `j` highest bits are in: those bits, with zeros behind. */
  ghost function HalfPacked(bits: seq<nat>, from: nat, j: nat): nat
    requires j <= 8 && from + 8 <= |bits|
  {
    Value(bits[from..from + j], 2) * Pow(2, 8 - j)
  }

  lemma HalfPackedNext(bits: seq<nat>, from: nat, j: nat)
    requires j < 8 && from + 8 <= |bits| && bits[from + j] < 2
    ensures HalfPacked(bits, from, j + 1) ==
            if bits[from + j] == 1 then BitOr(HalfPacked(bits, from, j), Pow(2, 7 - j)) else HalfPacked(bits, from, j)
  {
    PackStep(Value(bits[from..from + j], 2), 7 - j);
    ValueNext(bits, from, j);
  }

  lemma HalfPackedEnds(bits: seq<nat>, from: nat)
    requires from + 8 <= |bits|
    ensures HalfPacked(bits, from, 0) == 0
    ensures HalfPacked(bits, from, 8) == Value(bits[from..from + 8], 2)
  {
    assert bits[from..from] == [] && Pow(2, 0) == 1;
  }

  /** The inner packing loop, for the byte at `ii`. */
  method PackByte(concatBits: array<bool>, entropy: array<nat>, ii: nat, ghost bits: seq<nat>)
    requires ii < entropy.Length && 8 * entropy.Length == |bits| <= concatBits.Length
    requires AreDigits(bits, 2) && concatBits[..|bits|] == Flags(bits)
    requires entropy[ii] == 0
    modifies entropy
    ensures entropy[ii] == Value(bits[8 * ii..8 * ii + 8], 2)
    ensures forall k :: 0 <= k < entropy.Length && k != ii ==> entropy[k] == old(entropy[k])
  {
    ghost var from := 8 * ii;
    HalfPackedEnds(bits, from);
    var jj := 0;
    while jj < 8
      invariant 0 <= jj <= 8
      invariant entropy[ii] == HalfPacked(bits, from, jj)
      invariant forall k :: 0 <= k < entropy.Length && k != ii ==> entropy[k] == old(entropy[k])
    {
      HalfPackedNext(bits, from, jj);
      assert concatBits[(ii * 8) + jj] == (bits[from + jj] == 1) by {
        assert concatBits[..|bits|][from + jj] == Flags(bits)[from + jj];
      }
      if concatBits[(ii * 8) + jj] {
        entropy[ii] := BitOr(entropy[ii], Pow(2, 7 - jj));
      }
      jj := jj + 1;
    }
  }

  /** The packing loops: eight booleans to a byte. */
  method PackBytes(concatBits: array<bool>, n: nat, ghost bits: seq<nat>) returns (entropy: array<nat>)
    requires 8 * n == |bits| <= concatBits.Length
    requires AreDigits(bits, 2) && concatBits[..|bits|] == Flags(bits)
    ensures fresh(entropy) && entropy[..] == Gather(bits, 2, 8)
  {
    entropy := new nat[n](_ => 0);
    var ii := 0;
    while ii < entropy.Length
      invariant 0 <= ii <= entropy.Length == n
      invariant forall k :: 0 <= k < ii ==> entropy[k] == Value(bits[8 * k..8 * k + 8], 2)
      invariant forall k :: ii <= k < n ==> entropy[k] == 0
    {
      PackByte(concatBits, entropy, ii, bits);
      ii := ii + 1;
    }
    GatherAt(bits, 2, 8, 0);
    forall k | 0 <= k < n ensures entropy[k] == Gather(bits, 2, 8)[k] {
      GatherAt(bits, 2, 8, k);
      assert 8 * k == k * 8 && 8 * k + 8 == (k + 1) * 8;
    }
  }

  /** `[c & (1 << (width - 1 - i)) != 0 for i in range(width)]` */
  function MaskedBits(c: nat, width: nat): seq<bool>
  {
    seq(width, i requires 0 <= i < width => BitAnd(c, Pow(2, width - 1 - i)) != 0)
  }

  lemma MaskedBitsAreDigits(c: nat, width: nat)
    ensures MaskedBits(c, width) == Flags(Digits(c, 2, width))
  {
    forall i | 0 <= i < width ensures MaskedBits(c, width)[i] == Flags(Digits(c, 2, width))[i] {
      MaskReadsDigit(c, width, i);
    }
  }

  lemma SpreadNext(ns: seq<nat>, k: nat)
    requires k < |ns|
    ensures Flags(Spread(ns[..k + 1], 2, 8)) == Flags(Spread(ns[..k], 2, 8)) + Flags(Digits(ns[k], 2, 8))
  {
    assert ns[..k + 1][..k] == ns[..k];
    FlagsConcat(Spread(ns[..k], 2, 8), Digits(ns[k], 2, 8));
  }

  /** The flattened masks over the digest: all its bits, as booleans. */
  method HashBits(hashBytes: Digest) returns (hashBits: seq<bool>)
    ensures hashBits == Flags(Bits(hashBytes))
  {
    hashBits := [];
    var k := 0;
    while k < |hashBytes|
      invariant 0 <= k <= 32
      invariant hashBits == Flags(Spread(hashBytes[..k], 2, 8))
    {
      SpreadNext(hashBytes, k);
      MaskedBitsAreDigits(hashBytes[k], 8);
      hashBits := hashBits + MaskedBits(hashBytes[k], 8);
      k := k + 1;
    }
    assert hashBytes[..32] == hashBytes;
  }

  /** The comparison loop over the checksum bits. */
  method ChecksumMatches(concatBits: array<bool>, from: nat, length: nat, hashBits: seq<bool>) returns (ok: bool)
    requires from + length <= concatBits.Length && length <= |hashBits|
    ensures ok <==> concatBits[from..from + length] == hashBits[..length]
  {
    var i := 0;
    while i < length
      invariant 0 <= i <= length
      invariant concatBits[from..from + i] == hashBits[..i]
    {
      if concatBits[from + i] != hashBits[i] {
        assert concatBits[from..from + length][i] != hashBits[..length][i];
        return false;
      }
      i := i + 1;
    }
    ok := true;
  }

  lemma FlagsSlice(bits: seq<nat>, from: nat, to: nat)
    requires from <= to <= |bits|
    ensures Flags(bits)[from..to] == Flags(bits[from..to])
  {
  }

  /** Equal booleans are equal bits, so the comparison decides what `CheckedBytes` decides. */
  lemma ComparisonDecides(bits: seq<nat>, m: nat, sha: Hash, ok: bool)
    requires AreDigits(bits, 2) && m <= |bits| <= m + 8
    requires ok <==> Flags(bits[m..]) == Flags(Bits(sha(Bytes(bits[..m]))))[..|bits| - m]
    ensures CheckedBytes(bits, m, sha) == if ok then Ok(Bytes(bits[..m])) else Err(ChecksumFailed)
  {
    var sum, all := bits[m..], Bits(sha(Bytes(bits[..m])));
    FlagsSlice(all, 0, |bits| - m);
    FlagsInjective(sum, all[..|bits| - m]);
  }

  method ToEntropy(words: seq<string>, english: seq<string>, sha: Hash) returns (r: Result<seq<Byte>, Error>)
    requires StrictlySorted(english)
    ensures r == EntropyOf(words, english, sha)
  {
    if !LegalCount(|words|) {
      return Err(BadWordCount(|words|));
    }
    var concatLenBits := |words| * 11;
    var concatBits := new bool[concatLenBits](_ => false);
    var missing := FillBits(words, english, concatBits);
    if missing.Some? {
      return Err(WordNotFound(missing.value));
    }
    var checksumLengthBits := concatLenBits / 33;
    ghost var n := WordSizes(|words|);
    EntropyOfListed(words, n, english, sha);
    ghost var bits := WordBits(words, english);
    r := CheckAndPack(concatBits, checksumLengthBits, bits, n, sha);
  }

  /** The second half of `to_entropy`: packs the entropy bits and checks the rest against the digest. */
  method CheckAndPack(concatBits: array<bool>, checksumLengthBits: nat, ghost bits: seq<nat>, ghost n: nat, sha: Hash)
    returns (r: Result<seq<Byte>, Error>)
    requires AreDigits(bits, 2) && concatBits[..] == Flags(bits)
    requires checksumLengthBits <= 8 && |bits| == 8 * n + checksumLengthBits
    ensures r == CheckedBytes(bits, 8 * n, sha)
  {
    var entropyLengthBits := concatBits.Length - checksumLengthBits;
    FlagsSlice(bits, 0, entropyLengthBits);
    FlagsSlice(bits, entropyLengthBits, |bits|);
    var entropy := PackBytes(concatBits, entropyLengthBits / 8, bits[..entropyLengthBits]);
    ghost var data := Bytes(bits[..entropyLengthBits]);
    assert entropy[..] == data;
    var hashBits := HashBits(sha(entropy[..]));
    var ok := ChecksumMatches(concatBits, entropyLengthBits, checksumLengthBits, hashBits);
    ComparisonDecides(bits, entropyLengthBits, sha, ok);
    r := if ok then Ok(entropy[..]) else Err(ChecksumFailed);
  }
}
