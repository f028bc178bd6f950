/**
 Version texts as one integer: `strToVersionInt` weighs the components by powers of a thousand. The lemmas say when
 comparing the integers is comparing the versions, and when it is not.
 */
module Versions {
  import opened CharTables
  import opened Results
  import opened Strings
  import opened Stripping
  import Numerals
  import Config
  import ConfigMeaning
  import ConfigRoundTrip

  const BASE: nat := 1000

  /** `int(text)`: surrounding white space is ignored. */
  function ParseComponent(u: Unicode, text: string): Option<int>
  {
    Config.ParseInt(u, Strip(text, IsSpace))
  }

  /** The components as they are summed, most significant first; the error names the component `int` raises on. */
  function Components(u: Unicode, parts: seq<string>): (r: Result<seq<int>, string>)
    ensures r.Ok? ==> |r.value| == |parts|
  {
    if parts == [] then Ok([]) else
      match Components(u, parts[1..])
      case Err(text) => Err(text)
      case Ok(ns) =>
        match ParseComponent(u, parts[0])
        case None => Err(parts[0])
        case Some(n) => Ok([n] + ns)
  }

  function Padded(parts: seq<string>, minDigits: nat): (r: seq<string>)
    ensures |r| >= minDigits && parts <= r
    decreases minDigits - |parts|
  {
    if |parts| < minDigits then Padded(parts + ["0"], minDigits) else parts
  }

  function Parts(text: string, minDigits: nat): seq<string>
  {
    Padded(if '.' in text then Split(text, '.') else Split(text, ','), minDigits)
  }

  /** The sum of the components, each weighed by 1000 to the number of components after it. */
  function Weighed(ns: seq<int>): int
  {
    if ns == [] then 0 else Numerals.Pow(BASE, |ns| - 1) * ns[0] + Weighed(ns[1..])
  }

  function VersionInt(u: Unicode, text: string, minDigits: nat): Result<int, string>
  {
    match Components(u, Parts(text, minDigits))
    case Err(bad) => Err(bad)
    case Ok(ns) => Ok(Weighed(ns))
  }

  /** One turn of the loop sums one more component, from the least significant on. */
  lemma ComponentsTurn(u: Unicode, parts: seq<string>, at: nat)
    requires at < |parts|
    ensures Components(u, parts[at..]) ==
      (match Components(u, parts[at + 1..])
       case Err(text) => Err(text)
       case Ok(ns) =>
         match ParseComponent(u, parts[at])
         case None => Err(parts[at])
         case Some(n) => Ok([n] + ns))
  {
    assert parts[at..][1..] == parts[at + 1..];
  }

  lemma {:induction false} ErrorSpreads(u: Unicode, parts: seq<string>, at: nat)
    requires at <= |parts| && Components(u, parts[at..]).Err?
    ensures Components(u, parts) == Components(u, parts[at..])
    decreases at
  {
    if at == 0 {
      assert parts[0..] == parts;
    } else {
      ComponentsTurn(u, parts, at - 1);
      ErrorSpreads(u, parts, at - 1);
    }
  }

  /** The summing loop over the reversed components: after `x` turns, `y` is the sum of the last `x`. */
  ghost predicate Summed(u: Unicode, parts: seq<string>, x: nat, y: int)
    requires x <= |parts|
  {
    var ns := Components(u, parts[|parts| - x..]);
    ns.Ok? && y == Weighed(ns.value)
  }

  lemma SummedTurn(u: Unicode, parts: seq<string>, x: nat, y: int)
    requires x < |parts| && Summed(u, parts, x, y)
    ensures var item := ParseComponent(u, parts[|parts| - 1 - x]);
      if item.None? then Components(u, parts) == Err(parts[|parts| - 1 - x])
      else Summed(u, parts, x + 1, y + Numerals.Pow(BASE, x) * item.value)
  {
    var at := |parts| - 1 - x;
    var ns := Components(u, parts[at + 1..]).value;
    ComponentsTurn(u, parts, at);
    match ParseComponent(u, parts[at]) {
      case None => ErrorSpreads(u, parts, at);
      case Some(n) => assert ([n] + ns)[1..] == ns;
    }
  }

  method Sum(u: Unicode, parts: seq<string>) returns (r: Result<int, string>)
    ensures r == match Components(u, parts) case Err(bad) => Err(bad) case Ok(ns) => Ok(Weighed(ns))
  {
    var n := |parts|;
    var reversed := seq(n, i requires 0 <= i < n => parts[n - 1 - i]);
    var y, x := 0, 0;
    while x < n
      invariant x <= n && Summed(u, parts, x, y)
    {
      SummedTurn(u, parts, x, y);
      var item := ParseComponent(u, reversed[x]);
      if item == None {
        return Err(reversed[x]);
      }
      y := y + Numerals.Pow(BASE, x) * item.value;
      x := x + 1;
    }
    assert parts[0..] == parts;
    return Ok(y);
  }

  method StrToVersionInt(u: Unicode, text: string, minDigits: nat) returns (r: Result<int, string>)
    ensures r == VersionInt(u, text, minDigits)
  {
    var splitted := if '.' in text then Split(text, '.') else Split(text, ',');
    while |splitted| < minDigits
      invariant Padded(splitted, minDigits) == Parts(text, minDigits)
    {
      splitted := splitted + ["0"];
    }
    r := Sum(u, splitted);
  }

  // ----- what the integer says -----

  /** Components that fit their slot of three decimal digits. */
  predicate Fit(ns: seq<int>)
  {
    forall i :: 0 <= i < |ns| ==> 0 <= ns[i] < 1000
  }

  /** The order of versions: component by component. */
  predicate Older(a: seq<int>, b: seq<int>)
    requires |a| == |b|
  {
    a != [] && (a[0] < b[0] || (a[0] == b[0] && Older(a[1..], b[1..])))
  }

  lemma MulStep(p: int, a: int, b: int)
    requires 0 <= p && a < b
    ensures p * a + p <= p * b
  {
    var d := b - a - 1;
    assert 0 <= p * d;
    assert p * b == p * (a + 1 + d) == p * a + p + p * d;
  }

  lemma {:induction false} WeighedBound(ns: seq<int>)
    requires Fit(ns)
    ensures 0 <= Weighed(ns) < Numerals.Pow(BASE, |ns|)
  {
    if ns != [] {
      var p := Numerals.Pow(BASE, |ns| - 1);
      WeighedBound(ns[1..]);
      assert 0 <= ns[0] * p by { Numerals.MulLe(0, ns[0], p); }
      MulStep(p, ns[0], BASE);
    }
  }

  /** For versions of the same length the integers compare like the versions. */
  lemma {:induction false} OrderEmbedded(a: seq<int>, b: seq<int>)
    requires |a| == |b| && Fit(a) && Fit(b)
    ensures Weighed(a) < Weighed(b) <==> Older(a, b)
    ensures Weighed(a) == Weighed(b) <==> a == b
  {
    if a != [] {
      var p := Numerals.Pow(BASE, |a| - 1);
      WeighedBound(a[1..]);
      WeighedBound(b[1..]);
      OrderEmbedded(a[1..], b[1..]);
      assert a == [a[0]] + a[1..] && b == [b[0]] + b[1..];
      if a[0] < b[0] {
        MulStep(p, a[0], b[0]);
      } else if b[0] < a[0] {
        MulStep(p, b[0], a[0]);
      }
    }
  }

  /** A longer version with a non-zero first component is above every shorter one, whatever they say. */
  lemma LongerAbove(short: seq<int>, long: seq<int>)
    requires |short| < |long| && Fit(short) && Fit(long) && long[0] > 0
    ensures Weighed(short) < Weighed(long)
  {
    var p := Numerals.Pow(BASE, |long| - 1);
    WeighedBound(short);
    WeighedBound(long[1..]);
    PowMonotone(|short|, |long| - 1);
    MulStep(p, 0, long[0]);
  }

  lemma {:induction false} PowMonotone(a: nat, b: nat)
    requires a <= b
    ensures Numerals.Pow(BASE, a) <= Numerals.Pow(BASE, b)
    decreases b
  {
    if a < b {
      PowMonotone(a, b - 1);
    }
  }

  /** The integer is the positional value of the components. */
  lemma {:induction false} WeighedIsValue(ns: seq<nat>)
    ensures Weighed(ns) == Numerals.Value(ns, BASE)
  {
    if ns != [] {
      var head := [ns[0]];
      assert ns == head + ns[1..];
      WeighedIsValue(ns[1..]);
      Numerals.ValueOfConcat(head, ns[1..], BASE);
      assert head[..0] == [];
      assert Numerals.Value(head, BASE) == ns[0];
    }
  }

  /** Dividing by 1000 again and again gives the components back exactly when each fits its slot. */
  lemma ComponentsReadBackIff(ns: seq<nat>)
    ensures Numerals.Digits(Numerals.Value(ns, 1000), 1000, |ns|) == ns <==> Fit(ns)
    ensures Weighed(ns) == Numerals.Value(ns, 1000)
  {
    WeighedIsValue(ns);
    if Fit(ns) {
      Numerals.DigitsOfValue(ns, BASE);
    }
  }

  /** A component of a thousand carries into its neighbour: different versions, one integer. */
  lemma CarryConfuses(front: seq<int>, n: int, rest: seq<int>)
    ensures Weighed(front + [n, 1000] + rest) == Weighed(front + [n + 1, 0] + rest)
    ensures front + [n, 1000] + rest != front + [n + 1, 0] + rest
    decreases |front|
  {
    var a, b := front + [n, BASE] + rest, front + [n + 1, 0] + rest;
    assert a[|front|] == n && b[|front|] == n + 1;
    if front == [] {
      var p := Numerals.Pow(BASE, |rest|);
      assert a[1..] == [BASE] + rest && b[1..] == [0] + rest;
      assert a[1..][1..] == rest && b[1..][1..] == rest;
      assert Numerals.Pow(BASE, |rest| + 1) == BASE * p;
      assert (BASE * p) * n + p * BASE == (BASE * p) * (n + 1);
    } else {
      CarryConfuses(front[1..], n, rest);
      assert a[1..] == front[1..] + [n, BASE] + rest && b[1..] == front[1..] + [n + 1, 0] + rest;
    }
  }

  /** Components below `bound`. */
  ghost predicate Within(ns: seq<int>, n: nat, bound: int)
  {
    |ns| == n && forall i :: 0 <= i < n ==> 0 <= ns[i] < bound
  }

  /** For the versions of one length, two or more, integer order is version order exactly up to a bound of 1000. */
  lemma OrderEmbeddedIff(n: nat, bound: int)
    requires n >= 2
    ensures (forall a, b :: Within(a, n, bound) && Within(b, n, bound) ==> (Weighed(a) < Weighed(b) <==> Older(a, b)))
       <==> bound <= 1000
  {
    if bound <= BASE {
      forall a, b | Within(a, n, bound) && Within(b, n, bound) ensures Weighed(a) < Weighed(b) <==> Older(a, b) {
        OrderEmbedded(a, b);
      }
    } else {
      var zeros := seq(n - 2, _ => 0);
      var a, b := [] + [0, BASE] + zeros, [] + [1, 0] + zeros;
      CarryConfuses([], 0, zeros);
      assert Within(a, n, bound) && Within(b, n, bound);
      assert a[0] == 0 && b[0] == 1;
    }
  }

  // ----- texts -----

  function Texts(ns: seq<int>): (parts: seq<string>)
    ensures |parts| == |ns|
  {
    seq(|ns|, i requires 0 <= i < |ns| => Config.IntText(ns[i]))
  }

  lemma IntTextParses(u: Unicode, n: int)
    ensures ParseComponent(u, Config.IntText(n)) == Some(n)
    ensures '.' !in Config.IntText(n) && ',' !in Config.IntText(n)
  {
    var text := Config.IntText(n);
    ConfigRoundTrip.ParseIntText(u, n);
    ConfigRoundTrip.IntTextShape(n);
    assert ConfigRoundTrip.NumberChar(text[0]) && ConfigRoundTrip.NumberChar(text[|text| - 1]);
    StripFixed(text, IsSpace);
  }

  /** The components are what each part parses to. */
  predicate Parse(u: Unicode, parts: seq<string>, ns: seq<int>)
  {
    |ns| == |parts| && forall i :: 0 <= i < |parts| ==> ParseComponent(u, parts[i]) == Some(ns[i])
  }

  lemma {:induction false} ComponentsIff(u: Unicode, parts: seq<string>, ns: seq<int>)
    ensures Components(u, parts) == Ok(ns) <==> Parse(u, parts, ns)
  {
    if parts != [] && ns != [] {
      ComponentsIff(u, parts[1..], ns[1..]);
      assert ns == [ns[0]] + ns[1..];
      ParseSplit(u, parts, ns);
    }
  }

  lemma ParseSplit(u: Unicode, parts: seq<string>, ns: seq<int>)
    requires parts != [] && ns != []
    ensures Parse(u, parts, ns) <==> ParseComponent(u, parts[0]) == Some(ns[0]) && Parse(u, parts[1..], ns[1..])
  {
    if ParseComponent(u, parts[0]) == Some(ns[0]) && Parse(u, parts[1..], ns[1..]) {
      forall i | 0 <= i < |parts| ensures ParseComponent(u, parts[i]) == Some(ns[i]) {
        if i > 0 {
          assert parts[i] == parts[1..][i - 1] && ns[i] == ns[1..][i - 1];
        }
      }
    }
  }

  /** Zeros appended until there are `n` components. */
  function Extended(ns: seq<int>, n: nat): (r: seq<int>)
    ensures |r| >= n && ns <= r
  {
    ns + seq(if |ns| < n then n - |ns| else 0, _ => 0)
  }

  lemma {:induction false} PaddedComponents(u: Unicode, parts: seq<string>, ns: seq<int>, minDigits: nat)
    requires Components(u, parts) == Ok(ns)
    ensures Components(u, Padded(parts, minDigits)) == Ok(Extended(ns, minDigits))
    decreases minDigits - |parts|
  {
    if |parts| < minDigits {
      IntTextParses(u, 0);
      assert Config.IntText(0) == "0";
      ComponentsIff(u, parts, ns);
      assert Parse(u, parts + ["0"], ns + [0]);
      ComponentsIff(u, parts + ["0"], ns + [0]);
      PaddedComponents(u, parts + ["0"], ns + [0], minDigits);
      assert Extended(ns + [0], minDigits) == Extended(ns, minDigits);
    } else {
      assert Extended(ns, minDigits) == ns;
    }
  }

  /** Components joined by dots, or by commas when no dot is in them, are split where they were joined. */
  lemma PartsSplit(parts: seq<string>, sep: char)
    requires |parts| >= 1 && (sep == '.' || sep == ',')
    requires forall i :: 0 <= i < |parts| ==> '.' !in parts[i] && ',' !in parts[i]
    ensures var text := Join(parts, sep); (if '.' in text then Split(text, '.') else Split(text, ',')) == parts
  {
    var text := Join(parts, sep);
    SplitJoin(parts, sep);
    if |parts| == 1 {
      assert text == parts[0] && [parts[0]] == parts;
      SplitPlain(text, ',');
    } else if sep == '.' {
      assert text == parts[0] + ['.'] + Join(parts[1..], '.');
      assert text[|parts[0]|] == '.';
    } else {
      ConfigRoundTrip.JoinChars(parts, ',', '.');
    }
  }

  /** A version is the sum of what its components read as, with zeros appended. */
  lemma VersionMeans(u: Unicode, parts: seq<string>, sep: char, ns: seq<int>, minDigits: nat)
    requires |parts| >= 1 && (sep == '.' || sep == ',') && Parse(u, parts, ns)
    requires forall i :: 0 <= i < |parts| ==> '.' !in parts[i] && ',' !in parts[i]
    ensures VersionInt(u, Join(parts, sep), minDigits) == Ok(Weighed(Extended(ns, minDigits)))
  {
    PartsSplit(parts, sep);
    ComponentsIff(u, parts, ns);
    PaddedComponents(u, parts, ns, minDigits);
  }

  /** The last component that does not read as an integer is the one it is refused for. */
  lemma VersionRefused(u: Unicode, parts: seq<string>, sep: char, i: nat, minDigits: nat)
    requires sep == '.' || sep == ','
    requires forall j :: 0 <= j < |parts| ==> '.' !in parts[j] && ',' !in parts[j]
    requires i < |parts| && ParseComponent(u, parts[i]) == None
    requires forall j :: i < j < |parts| ==> ParseComponent(u, parts[j]).Some?
    ensures VersionInt(u, Join(parts, sep), minDigits) == Err(parts[i])
  {
    var padded := Padded(parts, minDigits);
    PartsSplit(parts, sep);
    PaddedZeros(parts, minDigits);
    IntTextParses(u, 0);
    assert Config.IntText(0) == "0";
    forall j | i < j < |padded| ensures ParseComponent(u, padded[j]).Some? {
      assert j < |parts| ==> padded[j] == parts[j];
    }
    assert padded[i] == parts[i];
    LastBad(u, padded, i);
  }

  lemma {:induction false} PaddedZeros(parts: seq<string>, minDigits: nat)
    ensures forall j :: |parts| <= j < |Padded(parts, minDigits)| ==> Padded(parts, minDigits)[j] == "0"
    decreases minDigits - |parts|
  {
    if |parts| < minDigits {
      PaddedZeros(parts + ["0"], minDigits);
      assert (parts + ["0"])[|parts|] == "0" && parts + ["0"] <= Padded(parts, minDigits);
    }
  }

  lemma {:induction false} LastBad(u: Unicode, parts: seq<string>, i: nat)
    requires i < |parts| && ParseComponent(u, parts[i]) == None
    requires forall j :: i < j < |parts| ==> ParseComponent(u, parts[j]).Some?
    ensures Components(u, parts) == Err(parts[i])
  {
    if i == 0 {
      AllGood(u, parts[1..]);
    } else {
      LastBad(u, parts[1..], i - 1);
    }
  }

  lemma {:induction false} AllGood(u: Unicode, parts: seq<string>)
    requires forall j :: 0 <= j < |parts| ==> ParseComponent(u, parts[j]).Some?
    ensures Components(u, parts).Ok?
  {
    if parts != [] {
      AllGood(u, parts[1..]);
    }
  }

  /** White space around a component does not matter. */
  lemma SpacedComponent(u: Unicode, front: string, n: int, back: string)
    requires ConfigMeaning.AllOf(front, IsSpace) && ConfigMeaning.AllOf(back, IsSpace)
    ensures ParseComponent(u, front + Config.IntText(n) + back) == Some(n)
  {
    var text := Config.IntText(n);
    ConfigRoundTrip.ParseIntText(u, n);
    ConfigRoundTrip.IntTextShape(n);
    assert ConfigRoundTrip.NumberChar(text[0]) && ConfigRoundTrip.NumberChar(text[|text| - 1]);
    ConfigMeaning.StripWrapped(front, text, back, IsSpace);
  }

  function VersionText(ns: seq<int>): string
  {
    Join(Texts(ns), '.')
  }

  /** A printed version is read as its components, with zeros appended. */
  lemma PrintedVersion(u: Unicode, ns: seq<int>, minDigits: nat)
    requires |ns| >= 1
    ensures VersionInt(u, VersionText(ns), minDigits) == Ok(Weighed(Extended(ns, minDigits)))
  {
    var parts := Texts(ns);
    forall i | 0 <= i < |parts|
      ensures '.' !in parts[i] && ',' !in parts[i] && ParseComponent(u, parts[i]) == Some(ns[i])
    {
      IntTextParses(u, ns[i]);
    }
    VersionMeans(u, parts, '.', ns, minDigits);
  }

  /** Three slots of a thousand each: 3.2.1 is 3002001, and 3 is 3000000. */
  lemma ThreeSlots(u: Unicode, ns: seq<int>, minDigits: nat)
    requires 1 <= |ns| <= 3 && minDigits == 3
    ensures VersionInt(u, VersionText(ns), minDigits)
         == Ok(1000000 * ns[0] + (if |ns| > 1 then 1000 * ns[1] else 0) + (if |ns| > 2 then ns[2] else 0))
  {
    PrintedVersion(u, ns, minDigits);
    WeighedThree(Extended(ns, minDigits));
  }

  lemma WeighedThree(ns: seq<int>)
    requires |ns| == 3
    ensures Weighed(ns) == 1000000 * ns[0] + 1000 * ns[1] + ns[2]
  {
    var two, one := ns[1..], ns[2..];
    assert two[1..] == one && one[1..] == [];
    assert Numerals.Pow(BASE, 0) == 1 && Numerals.Pow(BASE, 1) == 1000 && Numerals.Pow(BASE, 2) == 1000000;
    assert Weighed(one) == ns[2];
    assert Weighed(two) == 1000 * ns[1] + ns[2];
  }

  // ----- versions of different lengths -----

  /** The order of versions whatever their lengths: missing components count as zero. */
  predicate OlderVersion(a: seq<int>, b: seq<int>)
  {
    var n := if |a| < |b| then |b| else |a|;
    Older(Extended(a, n), Extended(b, n))
  }

  lemma {:induction false} NotOlderSelf(a: seq<int>)
    ensures !Older(a, a)
  {
    if a != [] {
      NotOlderSelf(a[1..]);
    }
  }

  /** Common components at the end make no difference. */
  lemma {:induction false} OlderTail(a: seq<int>, b: seq<int>, tail: seq<int>)
    requires |a| == |b|
    ensures Older(a + tail, b + tail) <==> Older(a, b)
  {
    if a == [] {
      assert a + tail == tail && b + tail == tail;
      NotOlderSelf(tail);
    } else {
      assert (a + tail)[1..] == a[1..] + tail && (b + tail)[1..] == b[1..] + tail;
      OlderTail(a[1..], b[1..], tail);
    }
  }

  lemma OlderExtended(a: seq<int>, b: seq<int>, n: nat)
    requires |a| <= n && |b| <= n
    ensures Older(Extended(a, n), Extended(b, n)) <==> OlderVersion(a, b)
  {
    var m := if |a| < |b| then |b| else |a|;
    var tail := seq(n - m, _ => 0);
    OlderTail(Extended(a, m), Extended(b, m), tail);
    assert Extended(a, n) == Extended(a, m) + tail && Extended(b, n) == Extended(b, m) + tail;
  }

  /** The texts of the two versions are compared rightly. */
  predicate ComparedRightly(u: Unicode, a: seq<int>, b: seq<int>, minDigits: nat)
  {
    var x, y := VersionInt(u, VersionText(a), minDigits), VersionInt(u, VersionText(b), minDigits);
    x.Ok? && y.Ok? && (x.value < y.value <==> OlderVersion(a, b))
  }

  predicate HasComponents(ns: seq<int>, most: nat)
  {
    1 <= |ns| <= most && Fit(ns)
  }

  lemma PaddedOrder(u: Unicode, a: seq<int>, b: seq<int>, minDigits: nat)
    requires HasComponents(a, minDigits) && HasComponents(b, minDigits)
    ensures ComparedRightly(u, a, b, minDigits)
  {
    PrintedVersion(u, a, minDigits);
    PrintedVersion(u, b, minDigits);
    OrderEmbedded(Extended(a, minDigits), Extended(b, minDigits));
    OlderExtended(a, b, minDigits);
  }

  lemma AtLeastPadded(u: Unicode, ns: seq<int>, minDigits: nat)
    requires |ns| >= 1 && |ns| >= minDigits
    ensures VersionInt(u, VersionText(ns), minDigits) == Ok(Weighed(ns))
  {
    PrintedVersion(u, ns, minDigits);
    assert Extended(ns, minDigits) == ns;
  }

  /** A version too long to be padded to the length of the other comes out above it, older or not. */
  lemma LongWrong(u: Unicode, short: seq<int>, long: seq<int>, minDigits: nat)
    requires 1 <= |short| < |long| && minDigits <= |short| && Fit(short) && Fit(long)
    requires 0 < long[0] < short[0]
    ensures !ComparedRightly(u, short, long, minDigits)
  {
    AtLeastPadded(u, short, minDigits);
    AtLeastPadded(u, long, minDigits);
    LongerAbove(short, long);
    assert Extended(short, |long|)[0] == short[0] && Extended(long, |long|)[0] == long[0];
  }

  /**
   Versions of up to `most` components, two or more, are compared rightly whatever their lengths exactly when none has
   more components than `minDigits`.
   */
  lemma OrderAcrossLengthsIff(u: Unicode, most: nat, minDigits: nat)
    requires most >= 2
    ensures (forall a, b :: HasComponents(a, most) && HasComponents(b, most) ==> ComparedRightly(u, a, b, minDigits))
       <==> most <= minDigits
  {
    if most <= minDigits {
      forall a, b | HasComponents(a, most) && HasComponents(b, most) ensures ComparedRightly(u, a, b, minDigits) {
        PaddedOrder(u, a, b, minDigits);
      }
    } else {
      var n := if minDigits == 0 then 1 else minDigits;
      var short, long := [2] + seq(n - 1, _ => 0), [1] + seq(most - 1, _ => 0);
      LongWrong(u, short, long, minDigits);
      assert HasComponents(short, most) && HasComponents(long, most);
    }
  }
}
