/**
 The mnemonic codec: `to_mnemonic`, `to_entropy`, `binary_search` and the phrase check.

 The reference is BIP-39, section "Generating the mnemonic": the entropy bits followed by the first
 ENT / 32 bits of the SHA-256 of the entropy, cut into 11-bit word indices. `Encodes` states it; `MnemonicOf`
 and `EntropyOf` say what each direction returns; the methods compute it the way the code does.
 SHA-256 is any function from byte strings to 32 bytes.
 */
module Mnemonic {
  import opened Numerals
  import opened Results
  import opened Strings

  type Byte = b: nat | b < 256
  type Digest = d: seq<Byte> | |d| == 32 witness seq(32, _ => 0)
  type Hash = seq<Byte> -> Digest

  datatype Error =
    | BadDataLength(length: nat)
    | BadWordCount(count: nat)
    | WordNotFound(word: string)
    | ChecksumFailed

  // ----- the word list -----

  ghost predicate StrictlySorted(list: seq<string>)
  {
    forall i, j :: 0 <= i < j < |list| ==> Less(list[i], list[j])
  }

  /** BIP-39, section "Wordlist": 2048 sorted words; none contains the separator. */
  ghost predicate WordList(english: seq<string>)
  {
    |english| == 2048 && StrictlySorted(english) && forall i :: 0 <= i < |english| ==> ' ' !in english[i]
  }

  /** Where a word stands in a list, or -1. */
  function Position(list: seq<string>, word: string): (p: int)
    ensures -1 <= p < |list|
    ensures p >= 0 ==> list[p] == word
    ensures p == -1 <==> word !in list
  {
    if list == [] then -1
    else if list[0] == word then 0
    else
      var p := Position(list[1..], word);
      if p == -1 then -1 else p + 1
  }

  lemma PositionUnique(list: seq<string>, i: nat)
    requires StrictlySorted(list) && i < |list|
    ensures Position(list, list[i]) == i
  {
    var p := Position(list, list[i]);
    LessTrichotomy(list[p], list[i]);
  }

  // ----- what the two directions mean -----

  predicate LegalLength(n: nat) { n == 16 || n == 20 || n == 24 || n == 28 || n == 32 }

  /** The checksum makes the bits of legal data fill whole words. */
  lemma DataSizes(n: nat)
    requires LegalLength(n)
    ensures n * 8 / 32 == n / 4 <= 8 && 8 * n + n / 4 == 11 * (3 * n / 4)
    ensures LegalCount(3 * n / 4) && (3 * n / 4) / 3 == n / 4
  {
  }

  lemma WordSizes(count: nat) returns (n: nat)
    requires LegalCount(count)
    ensures LegalLength(n) && 3 * n / 4 == count && n / 4 == count / 3 <= 8
    ensures count * 11 / 33 == count / 3 && 11 * count - count / 3 == 8 * n
  {
    n := 4 * (count / 3);
  }

  predicate LegalCount(n: nat) { n == 12 || n == 15 || n == 18 || n == 21 || n == 24 }

  /** The bits of a byte string, eight to a byte. */
  function Bits(data: seq<Byte>): (bits: seq<nat>)
    ensures |bits| == 8 * |data| && AreDigits(bits, 2)
  {
    SpreadLength(data, 2, 8);
    Spread(data, 2, 8)
  }

  function Bytes(bits: seq<nat>): (data: seq<Byte>)
    requires AreDigits(bits, 2)
    ensures |data| == |bits| / 8
  {
    GatherBound(bits, 2, 8);
    GatherAt(bits, 2, 8, 0);
    assert Pow(2, 8) == 256;
    Gather(bits, 2, 8)
  }

  function Checksum(data: seq<Byte>, length: nat, sha: Hash): (bits: seq<nat>)
    requires length <= 8
    ensures |bits| == length && AreDigits(bits, 2)
  {
    Bits(sha(data))[..length]
  }

  /** Entropy bits, then checksum bits. */
  function DataBits(data: seq<Byte>, sha: Hash): (bits: seq<nat>)
    requires LegalLength(|data|)
    ensures |bits| == 11 * (3 * |data| / 4) && AreDigits(bits, 2)
  {
    DataSizes(|data|);
    Bits(data) + Checksum(data, |data| / 4, sha)
  }

  predicate Listed(ws: seq<string>, english: seq<string>)
  {
    forall i :: 0 <= i < |ws| ==> ws[i] in english
  }

  function Indices(ws: seq<string>, english: seq<string>): (ns: seq<nat>)
    requires Listed(ws, english)
    ensures |ns| == |ws| && AreDigits(ns, |english|)
  {
    seq(|ws|, i requires 0 <= i < |ws| => Position(english, ws[i]))
  }

  /** The bits of a phrase, eleven to a word. */
  function WordBits(ws: seq<string>, english: seq<string>): (bits: seq<nat>)
    requires Listed(ws, english)
    ensures |bits| == 11 * |ws| && AreDigits(bits, 2)
  {
    SpreadLength(Indices(ws, english), 2, 11);
    Spread(Indices(ws, english), 2, 11)
  }

  /** The phrase and the entropy belong together under BIP-39. */
  predicate Encodes(ws: seq<string>, data: seq<Byte>, english: seq<string>, sha: Hash)
  {
    LegalLength(|data|) && Listed(ws, english) && WordBits(ws, english) == DataBits(data, sha)
  }

  /** The words for some data; the error is the one `to_mnemonic` raises. */
  function MnemonicOf(data: seq<Byte>, english: seq<string>, sha: Hash): Result<seq<string>, Error>
    requires |english| == 2048
  {
    if !LegalLength(|data|) then Err(BadDataLength(|data|)) else
      var indices := WordIndices(data, sha);
      Ok(seq(|indices|, i requires 0 <= i < |indices| => english[indices[i]]))
  }

  function WordIndices(data: seq<Byte>, sha: Hash): (indices: seq<nat>)
    requires LegalLength(|data|)
    ensures |indices| == 3 * |data| / 4 && AreDigits(indices, 2048)
  {
    var bits := DataBits(data, sha);
    GatherBound(bits, 2, 11);
    GatherAt(bits, 2, 11, 0);
    assert Pow(2, 11) == 2048;
    Gather(bits, 2, 11)
  }

  function FirstUnlisted(ws: seq<string>, english: seq<string>): (w: Option<string>)
    ensures w == None <==> Listed(ws, english)
    ensures w.Some? ==> w.value in ws && w.value !in english
  {
    if ws == [] then None
    else if ws[0] !in english then Some(ws[0])
    else
      var w := FirstUnlisted(ws[1..], english);
      assert forall i :: 1 <= i < |ws| ==> ws[i] == ws[1..][i - 1];
      w
  }

  /** The entropy of some words; the error is the first that `to_entropy` raises. */
  function EntropyOf(ws: seq<string>, english: seq<string>, sha: Hash): Result<seq<Byte>, Error>
  {
    if !LegalCount(|ws|) then Err(BadWordCount(|ws|)) else
      var unlisted := FirstUnlisted(ws, english);
      if unlisted.Some? then Err(WordNotFound(unlisted.value)) else
        CheckedBytes(WordBits(ws, english), 11 * |ws| - |ws| / 3, sha)
  }

  /** Splits the bits after `m`: data before, checksum behind. */
  function CheckedBytes(bits: seq<nat>, m: nat, sha: Hash): Result<seq<Byte>, Error>
    requires AreDigits(bits, 2) && m <= |bits| <= m + 8
  {
    var data := Bytes(bits[..m]);
    if bits[m..] == Checksum(data, |bits| - m, sha) then Ok(data) else Err(ChecksumFailed)
  }

  // ----- the two directions are inverse -----

  lemma IndicesOfMnemonic(data: seq<Byte>, english: seq<string>, sha: Hash)
    requires WordList(english) && LegalLength(|data|)
    ensures var ws := MnemonicOf(data, english, sha).value;
            Listed(ws, english) && Indices(ws, english) == WordIndices(data, sha)
  {
    var indices := WordIndices(data, sha);
    forall i | 0 <= i < |indices| ensures Position(english, english[indices[i]]) == indices[i] {
      PositionUnique(english, indices[i]);
    }
  }

  /** What `to_mnemonic` returns is the BIP-39 encoding of its argument. */
  lemma MnemonicEncodes(data: seq<Byte>, english: seq<string>, sha: Hash)
    requires WordList(english) && LegalLength(|data|)
    ensures Encodes(MnemonicOf(data, english, sha).value, data, english, sha)
  {
    IndicesOfMnemonic(data, english, sha);
    var bits := DataBits(data, sha);
    SpreadGather(bits, 2, 11);
    SpreadLength(WordIndices(data, sha), 2, 11);
  }

  lemma BytesOfBits(data: seq<Byte>)
    ensures Bytes(Bits(data)) == data
  {
    assert Pow(2, 8) == 256;
    GatherSpread(data, 2, 8);
  }

  lemma BitsOfBytes(bits: seq<nat>)
    requires AreDigits(bits, 2) && |bits| % 8 == 0
    ensures Bits(Bytes(bits)) == bits
  {
    SpreadGather(bits, 2, 8);
  }

  lemma CheckedBytesIff(bits: seq<nat>, data: seq<Byte>, sha: Hash)
    requires AreDigits(bits, 2) && 8 * |data| <= |bits| <= 8 * |data| + 8
    ensures CheckedBytes(bits, 8 * |data|, sha) == Ok(data)
      <==> bits == Bits(data) + Checksum(data, |bits| - 8 * |data|, sha)
  {
    var m := 8 * |data|;
    BitsOfBytes(bits[..m]);
    BytesOfBits(data);
    assert bits == bits[..m] + bits[m..];
  }

  lemma CheckedIffData(bits: seq<nat>, n: nat, data: seq<Byte>, sha: Hash)
    requires AreDigits(bits, 2) && LegalLength(n) && |bits| == 8 * n + n / 4
    ensures CheckedBytes(bits, 8 * n, sha) == Ok(data) <==> LegalLength(|data|) && bits == DataBits(data, sha)
  {
    if |data| == n {
      CheckedBytesIff(bits, data, sha);
    } else {
      assert |Bytes(bits[..8 * n])| == n;
    }
  }

  lemma EncodedCount(ws: seq<string>, data: seq<Byte>, english: seq<string>, sha: Hash)
    requires Encodes(ws, data, english, sha)
    ensures |ws| == 3 * |data| / 4 && LegalCount(|ws|)
  {
    DataSizes(|data|);
    assert |WordBits(ws, english)| == |DataBits(data, sha)|;
  }

  /** Past the two early errors, only the checksum decides. */
  lemma EntropyOfListed(ws: seq<string>, n: nat, english: seq<string>, sha: Hash)
    requires LegalLength(n) && |ws| == 3 * n / 4 && Listed(ws, english)
    ensures |WordBits(ws, english)| == 8 * n + n / 4
    ensures EntropyOf(ws, english, sha) == CheckedBytes(WordBits(ws, english), 8 * n, sha)
  {
    DataSizes(n);
  }

  /** `to_entropy` accepts a phrase with some data exactly when BIP-39 pairs them. */
  lemma AcceptedIffEncodes(ws: seq<string>, data: seq<Byte>, english: seq<string>, sha: Hash)
    ensures EntropyOf(ws, english, sha) == Ok(data) <==> Encodes(ws, data, english, sha)
  {
    if LegalCount(|ws|) && Listed(ws, english) {
      var n := WordSizes(|ws|);
      EntropyOfListed(ws, n, english, sha);
      CheckedIffData(WordBits(ws, english), n, data, sha);
    } else if Encodes(ws, data, english, sha) {
      EncodedCount(ws, data, english, sha);
    }
  }

  /** A phrase is determined by its data. */
  lemma EncodesFunctional(ws: seq<string>, ws': seq<string>, data: seq<Byte>, english: seq<string>, sha: Hash)
    requires |english| == 2048
    requires Encodes(ws, data, english, sha) && Encodes(ws', data, english, sha)
    ensures ws == ws'
  {
    assert Pow(2, 11) == 2048;
    GatherSpread(Indices(ws, english), 2, 11);
    GatherSpread(Indices(ws', english), 2, 11);
    assert Indices(ws, english) == Indices(ws', english);
    forall i | 0 <= i < |ws| ensures ws[i] == ws'[i] {
      assert ws[i] == english[Indices(ws, english)[i]] && ws'[i] == english[Indices(ws', english)[i]];
    }
  }

  /** to_entropy(to_mnemonic(data)) == data, leading zero bytes included. */
  lemma EntropyOfMnemonic(data: seq<Byte>, english: seq<string>, sha: Hash)
    requires WordList(english) && LegalLength(|data|)
    ensures EntropyOf(MnemonicOf(data, english, sha).value, english, sha) == Ok(data)
  {
    MnemonicEncodes(data, english, sha);
    AcceptedIffEncodes(MnemonicOf(data, english, sha).value, data, english, sha);
  }

  /** An accepted phrase is the one its entropy encodes to. */
  lemma MnemonicOfEntropy(ws: seq<string>, data: seq<Byte>, english: seq<string>, sha: Hash)
    requires WordList(english) && EntropyOf(ws, english, sha) == Ok(data)
    ensures MnemonicOf(data, english, sha) == Ok(ws)
  {
    AcceptedIffEncodes(ws, data, english, sha);
    MnemonicEncodes(data, english, sha);
    EncodesFunctional(ws, MnemonicOf(data, english, sha).value, data, english, sha);
  }

  // ----- the relation bit by bit -----

  /** Bit `j` of a number of this width, the highest first. */
  function BitOf(n: nat, width: nat, j: nat): nat
    requires j < width
  {
    PowPositive(2, width - 1 - j);
    (n / Pow(2, width - 1 - j)) % 2
  }

  /** Bit `k` of a byte string. */
  function ByteBit(data: seq<Byte>, k: nat): nat
    requires k < 8 * |data|
  {
    BitOf(data[k / 8], 8, k % 8)
  }

  lemma SpreadBit(ns: seq<nat>, width: nat, k: nat)
    requires width >= 1 && k < |ns| * width
    ensures k / width < |ns| && k < |Spread(ns, 2, width)|
    ensures Spread(ns, 2, width)[k] == BitOf(ns[k / width], width, k % width)
  {
    DivMod(k, width);
    if k / width >= |ns| {
      MulLe(|ns|, k / width, width);
    }
    SpreadAt(ns, 2, width, k / width, k % width);
  }

  lemma BitsAt(data: seq<Byte>, k: nat)
    requires k < 8 * |data|
    ensures Bits(data)[k] == ByteBit(data, k)
  {
    SpreadBit(data, 8, k);
  }

  /** Bit `k` of data and digest, one after the other. */
  lemma DataBitsAt(data: seq<Byte>, sha: Hash, k: nat)
    requires LegalLength(|data|) && k < 8 * |data| + |data| / 4
    ensures |DataBits(data, sha)| == 8 * |data| + |data| / 4
    ensures DataBits(data, sha)[k] == if k < 8 * |data| then ByteBit(data, k) else ByteBit(sha(data), k - 8 * |data|)
  {
    DataSizes(|data|);
    if k < 8 * |data| {
      BitsAt(data, k);
    } else {
      BitsAt(sha(data), k - 8 * |data|);
    }
  }

  lemma WordBitsAt(ws: seq<string>, places: seq<nat>, english: seq<string>, k: nat)
    requires WordList(english) && Placed(ws, places, english) && k < 11 * |ws|
    ensures Listed(ws, english) && WordBits(ws, english)[k] == BitOf(places[k / 11], 11, k % 11)
  {
    PositionUnique(english, places[k / 11]);
    SpreadBit(Indices(ws, english), 11, k);
  }

  /** Word `i` stands at place `i` of the places. */
  predicate Placed(ws: seq<string>, places: seq<nat>, english: seq<string>)
  {
    |places| == |ws| && forall i :: 0 <= i < |ws| ==> places[i] < |english| && english[places[i]] == ws[i]
  }

  /**
   BIP-39, section "Generating the mnemonic", bit by bit: bit `k` of the words' places, eleven bits to a word, is bit
   `k` of the data followed by the first bits of their digest, one for each four bytes of data.
   */
  lemma EncodesIff(ws: seq<string>, places: seq<nat>, data: seq<Byte>, english: seq<string>, sha: Hash)
    requires WordList(english) && Placed(ws, places, english)
    ensures Encodes(ws, data, english, sha) <==>
              && |data| in {16, 20, 24, 28, 32} && 11 * |ws| == 8 * |data| + |data| / 4
              && forall k: nat :: k < 11 * |ws| ==>
                   BitOf(places[k / 11], 11, k % 11)
                     == if k < 8 * |data| then ByteBit(data, k) else ByteBit(sha(data), k - 8 * |data|)
  {
    if LegalLength(|data|) && 11 * |ws| == 8 * |data| + |data| / 4 {
      DataBitsAt(data, sha, 0);
      forall k: nat | k < 11 * |ws|
        ensures WordBits(ws, english)[k] == BitOf(places[k / 11], 11, k % 11)
        ensures DataBits(data, sha)[k]
             == if k < 8 * |data| then ByteBit(data, k) else ByteBit(sha(data), k - 8 * |data|)
      {
        WordBitsAt(ws, places, english, k);
        DataBitsAt(data, sha, k);
      }
    } else if Encodes(ws, data, english, sha) {
      EncodedCount(ws, data, english, sha);
    }
  }

  // ----- phrases as text -----

  function PhraseOf(data: seq<Byte>, english: seq<string>, sha: Hash): Result<string, Error>
    requires |english| == 2048
  {
    match MnemonicOf(data, english, sha)
    case Ok(ws) => Ok(Join(ws, ' '))
    case Err(e) => Err(e)
  }

  function EntropyOfPhrase(text: string, english: seq<string>, sha: Hash): Result<seq<Byte>, Error>
  {
    EntropyOf(Split(text, ' '), english, sha)
  }

  /** The text `to_mnemonic` returns is accepted by `to_entropy` and gives the data back. */
  lemma PhraseRoundTrip(data: seq<Byte>, english: seq<string>, sha: Hash)
    requires WordList(english) && LegalLength(|data|)
    ensures PhraseOf(data, english, sha).Ok?
    ensures EntropyOfPhrase(PhraseOf(data, english, sha).value, english, sha) == Ok(data)
  {
    var ws := MnemonicOf(data, english, sha).value;
    SplitJoin(ws, ' ');
    EntropyOfMnemonic(data, english, sha);
  }

  /** Any text `to_entropy` accepts is, character by character, the one `to_mnemonic` returns. */
  lemma PhraseRecovered(text: string, data: seq<Byte>, english: seq<string>, sha: Hash)
    requires WordList(english) && EntropyOfPhrase(text, english, sha) == Ok(data)
    ensures PhraseOf(data, english, sha) == Ok(text)
  {
    MnemonicOfEntropy(Split(text, ' '), data, english, sha);
    JoinSplit(text, ' ');
  }

  // ----- what is refused, and why -----

  /** `to_mnemonic` refuses exactly the data of a wrong length, and names the length. */
  lemma EncodingRefused(data: seq<Byte>, english: seq<string>, sha: Hash)
    requires |english| == 2048
    ensures PhraseOf(data, english, sha).Ok? <==> |data| in {16, 20, 24, 28, 32}
    ensures PhraseOf(data, english, sha).Err? ==> PhraseOf(data, english, sha) == Err(BadDataLength(|data|))
  {
  }

  /** Word `i` is not in the list, and all before it are. */
  predicate IsFirstUnlisted(ws: seq<string>, english: seq<string>, i: nat)
  {
    i < |ws| && ws[i] !in english && forall j :: 0 <= j < i ==> ws[j] in english
  }

  lemma {:induction false} FirstUnlistedIs(ws: seq<string>, english: seq<string>, i: nat)
    requires IsFirstUnlisted(ws, english, i)
    ensures FirstUnlisted(ws, english) == Some(ws[i])
  {
    if i > 0 {
      assert ws[0] in english;
      assert forall j :: 0 <= j < i - 1 ==> ws[1..][j] == ws[j + 1];
      FirstUnlistedIs(ws[1..], english, i - 1);
    }
  }

  lemma {:induction false} SomeUnlisted(ws: seq<string>, english: seq<string>) returns (i: nat)
    requires !Listed(ws, english)
    ensures IsFirstUnlisted(ws, english, i)
  {
    i := 0;
    while ws[i] in english
      invariant i < |ws| && forall j :: 0 <= j < i ==> ws[j] in english
      decreases |ws| - i
    {
      assert i + 1 < |ws|;
      i := i + 1;
    }
  }

  /** `to_entropy` refuses a wrong number of words first, then the first unlisted word, then a wrong checksum. */
  lemma DecodingRefused(ws: seq<string>, english: seq<string>, sha: Hash)
    ensures var r := EntropyOf(ws, english, sha);
            && (|ws| !in {12, 15, 18, 21, 24} <==> r == Err(BadWordCount(|ws|)))
            && (forall i :: 0 <= i < |ws| && |ws| in {12, 15, 18, 21, 24} && IsFirstUnlisted(ws, english, i) ==>
                  r == Err(WordNotFound(ws[i])))
            && (r == Err(ChecksumFailed) <==>
                  && |ws| in {12, 15, 18, 21, 24} && Listed(ws, english)
                  && forall data :: !Encodes(ws, data, english, sha))
  {
    var r := EntropyOf(ws, english, sha);
    forall i | 0 <= i < |ws| && IsFirstUnlisted(ws, english, i) ensures FirstUnlisted(ws, english) == Some(ws[i]) {
      FirstUnlistedIs(ws, english, i);
    }
    forall data ensures r == Ok(data) <==> Encodes(ws, data, english, sha) {
      AcceptedIffEncodes(ws, data, english, sha);
    }
    if |ws| in {12, 15, 18, 21, 24} && Listed(ws, english) {
      assert r.Ok? ==> Encodes(ws, r.value, english, sha);
    }
  }

  /** An error of the decoder is one of the three. */
  lemma DecodingErrors(ws: seq<string>, english: seq<string>, sha: Hash)
    requires |ws| in {12, 15, 18, 21, 24} && !Listed(ws, english)
    ensures exists i: nat :: IsFirstUnlisted(ws, english, i) && EntropyOf(ws, english, sha) == Err(WordNotFound(ws[i]))
  {
    var i := SomeUnlisted(ws, english);
    FirstUnlistedIs(ws, english, i);
  }
}
