/**
 The phrase check: a third route to the same verdict, through binary and hexadecimal texts and linear lookup.
 It accepts exactly the phrases the shift-mask decoder accepts.
 */
module PhraseCheck {
  import opened Mnemonic
  import opened MnemonicCodec
  import opened Numerals
  import opened Results
  import opened Strings

  /** `"".join(bin(wordlist.index(x))[2:].zfill(11) for x in words)` */
  method JoinedIndices(words: seq<string>, wordlist: seq<string>) returns (b: Option<seq<nat>>)
    requires |wordlist| == 2048
    ensures b.Some? <==> Listed(words, wordlist)
    ensures b.Some? ==> b.value == WordBits(words, wordlist)
  {
    var text: seq<nat> := [];
    var i := 0;
    while i < |words|
      invariant 0 <= i <= |words|
      invariant Listed(words[..i], wordlist) && text == WordBits(words[..i], wordlist)
    {
      var index := Position(wordlist, words[i]);
      if index < 0 {
        return None;
      }
      ListedNext(words, i, wordlist);
      WordBitsNext(words, i, wordlist);
      assert Pow(2, 11) == 2048;
      ZFillNumeral(index, 2, 11);
      text := text + ZFill(Numeral(index, 2), 11);
      i := i + 1;
    }
    assert words[..i] == words;
    b := Some(text);
  }

  lemma HexText(data: seq<Byte>)
    requires data != []
    ensures ZFill(Numeral(Value(Bits(data), 2), 16), 2 * |data|) == Spread(data, 16, 2)
  {
    var hex := Spread(data, 16, 2);
    HexValue(data);
    SpreadLength(data, 16, 2);
    ValueBound(hex, 16);
    ZFillNumeral(Value(hex, 16), 16, |hex|);
    DigitsOfValue(hex, 16);
  }

  /** `unhexlify(hex(int(d, 2))[2:].zfill(width))` packs the bits of `d` into bytes. */
  method BytesThroughHex(d: seq<nat>, width: nat) returns (nd: seq<Byte>)
    requires AreDigits(d, 2) && |d| == 4 * width && width % 2 == 0 && d != []
    ensures nd == Bytes(d)
  {
    var text := ZFill(Numeral(Value(d, 2), 16), width);
    ghost var data := Bytes(d);
    BitsOfBytes(d);
    HexText(data);
    assert text == Spread(data, 16, 2);
    assert Pow(16, 2) == 256;
    GatherSpread(data, 16, 2);
    nd := Gather(text, 16, 2);
  }

  /** Compares the last characters of the text with the digest of the rest. */
  method ChecksumTextMatches(b: seq<nat>, sha: Hash) returns (ok: bool)
    requires AreDigits(b, 2) && |b| % 33 == 0 && 0 < |b| <= 264
    ensures ok <==> CheckedBytes(b, |b| / 33 * 32, sha).Ok?
  {
    var l := |b|;
    var d := b[..l / 33 * 32];
    var h := b[l - l / 33..];
    var nd := BytesThroughHex(d, l / 33 * 8);
    var digest := sha(nd);
    var text := BinaryText(digest);
    var nh := text[..l / 33];
    ok := h == nh;
  }

  method Check(mnemonic: string, wordlist: seq<string>, sha: Hash) returns (valid: bool)
    requires |wordlist| == 2048
    ensures valid <==> EntropyOfPhrase(mnemonic, wordlist, sha).Ok?
  {
    var words := Split(mnemonic, ' ');
    if !LegalCount(|words|) {
      return false;
    }
    var b := JoinedIndices(words, wordlist);
    if b == None {
      return false;
    }
    ghost var n := WordSizes(|words|);
    EntropyOfListed(words, n, wordlist, sha);
    assert |b.value| / 33 * 32 == 8 * n;
    valid := ChecksumTextMatches(b.value, sha);
  }
}
