/**
 Positional numerals, most significant digit first: the arithmetic under Python's `int(text, base)`,
 `bin`, `hex`, `hexlify`, `zfill`, and the one-bit masks `n & (1 << k)` and `n | (1 << k)`.
 A digit character is modelled by the number it stands for.
 */
module Numerals {

  function Pow(base: nat, e: nat): nat
  {
    if e == 0 then 1 else base * Pow(base, e - 1)
  }

  /** Every element is a digit of the base. */
  predicate AreDigits(ds: seq<nat>, base: nat)
  {
    forall i :: 0 <= i < |ds| ==> ds[i] < base
  }

  /** `int(text, base)` */
  function Value(ds: seq<nat>, base: nat): nat
  {
    if ds == [] then 0 else Value(ds[..|ds| - 1], base) * base + ds[|ds| - 1]
  }

  /** The numeral of `n` in exactly `width` digits; higher digits are dropped. */
  function Digits(n: nat, base: nat, width: nat): (ds: seq<nat>)
    requires base >= 2
    ensures |ds| == width && AreDigits(ds, base)
    decreases width, n
  {
    if width == 0 then [] else Digits(n / base, base, width - 1) + [n % base]
  }

  /** `bin(n)[2:]` and `hex(n)[2:]`: no leading zeros, except that zero is "0". */
  function Numeral(n: nat, base: nat): (ds: seq<nat>)
    requires base >= 2
    ensures |ds| >= 1 && AreDigits(ds, base)
  {
    if n < base then [n] else
      DivShrinks(n, base);
      Numeral(n / base, base) + [n % base]
  }

  /** `text.zfill(width)` */
  function ZFill(ds: seq<nat>, width: nat): seq<nat>
  {
    if |ds| >= width then ds else seq(width - |ds|, _ => 0) + ds
  }

  /** Writes each number in `width` digits, one after the other. */
  function Spread(ns: seq<nat>, base: nat, width: nat): (ds: seq<nat>)
    requires base >= 2
    ensures AreDigits(ds, base)
  {
    if ns == [] then [] else
      Spread(ns[..|ns| - 1], base, width) + Digits(ns[|ns| - 1], base, width)
  }

  /** Reads consecutive slices of `width` digits as numbers; a shorter rest is ignored. */
  function Gather(ds: seq<nat>, base: nat, width: nat): seq<nat>
    requires width >= 1
    decreases |ds|
  {
    if |ds| < width then [] else [Value(ds[..width], base)] + Gather(ds[width..], base, width)
  }

  /** Python's `a & b` on non-negative integers. */
  function BitAnd(a: nat, b: nat): nat
  {
    if a == 0 || b == 0 then 0 else
      2 * BitAnd(a / 2, b / 2) + (if a % 2 == 1 && b % 2 == 1 then 1 else 0)
  }

  /** Python's `a | b` on non-negative integers. */
  function BitOr(a: nat, b: nat): nat
    decreases a + b
  {
    if a == 0 then b else if b == 0 then a else
      2 * BitOr(a / 2, b / 2) + (if a % 2 == 1 || b % 2 == 1 then 1 else 0)
  }

  // ----- arithmetic helpers -----

  lemma DivMod(n: nat, m: nat)
    requires m >= 1
    ensures n == (n / m) * m + n % m && 0 <= n / m && 0 <= n % m < m
  {
  }

  lemma MulLe(a: nat, b: nat, c: nat)
    requires a <= b
    ensures a * c <= b * c
  {
  }

  lemma MulNext(a: nat, c: nat)
    ensures (a + 1) * c == a * c + c
  {
  }

  lemma DivShrinks(n: nat, base: nat)
    requires base >= 2 && n >= base
    ensures n / base < n
  {
    DivMod(n, base);
    var q := n / base;
    if q >= n {
      MulLe(n, q, base);
      MulLe(2, base, n);
    }
  }

  /** Quotient and remainder are the only way to split `n`. */
  lemma DivUnique(n: nat, m: nat, q: nat, r: nat)
    requires m >= 1 && n == q * m + r && r < m
    ensures n / m == q && n % m == r
  {
    DivMod(n, m);
    var d := n / m;
    MulNext(d, m);
    MulNext(q, m);
    if d < q {
      MulLe(d + 1, q, m);
    } else if q < d {
      MulLe(q + 1, d, m);
    }
  }

  lemma DivStep(n: nat, m: nat)
    requires m >= 1 && n >= m
    ensures (n - m) / m == n / m - 1
    ensures (n - m) % m == n % m
  {
    DivMod(n, m);
    var q, r := n / m, n % m;
    assert q >= 1;
    assert (q - 1) * m == q * m - m;
    DivUnique(n - m, m, q - 1, r);
  }

  lemma DivBelow(n: nat, base: nat, m: nat)
    requires base >= 1 && n < base * m
    ensures n / base < m
  {
    DivMod(n, base);
    var q := n / base;
    assert m * base == base * m;
    if q >= m {
      MulLe(m, q, base);
    }
  }

  lemma {:induction false} PowPositive(base: nat, e: nat)
    requires base >= 1
    ensures Pow(base, e) >= 1
  {
    if e > 0 {
      PowPositive(base, e - 1);
      MulLe(1, base, Pow(base, e - 1));
    }
  }

  // ----- numerals -----

  /** A text is below base^length. */
  lemma {:induction false} ValueBound(ds: seq<nat>, base: nat)
    requires base >= 2 && AreDigits(ds, base)
    ensures Value(ds, base) < Pow(base, |ds|)
  {
    if ds != [] {
      var k := |ds| - 1;
      ValueBound(ds[..k], base);
      var v, p := Value(ds[..k], base), Pow(base, k);
      MulLe(v + 1, p, base);
      assert (v + 1) * base == v * base + base;
      assert p * base == base * p;
    }
  }

  /** Reading back a text of fixed width: `zfill` after `int` loses no leading zeros. */
  lemma {:induction false} DigitsOfValue(ds: seq<nat>, base: nat)
    requires base >= 2 && AreDigits(ds, base)
    ensures Digits(Value(ds, base), base, |ds|) == ds
  {
    if ds != [] {
      var k := |ds| - 1;
      DivUnique(Value(ds, base), base, Value(ds[..k], base), ds[k]);
      DigitsOfValue(ds[..k], base);
      assert ds == ds[..k] + [ds[k]];
    }
  }

  lemma {:induction false} ValueOfDigits(n: nat, base: nat, width: nat)
    requires base >= 2 && n < Pow(base, width)
    ensures Value(Digits(n, base, width), base) == n
    decreases width
  {
    if width > 0 {
      DivBelow(n, base, Pow(base, width - 1));
      ValueOfDigits(n / base, base, width - 1);
      var hi := Digits(n / base, base, width - 1);
      var ds := hi + [n % base];
      assert ds[..|ds| - 1] == hi;
      DivMod(n, base);
    }
  }

  lemma {:induction false} ZeroDigits(base: nat, width: nat)
    requires base >= 2
    ensures Digits(0, base, width) == seq(width, _ => 0)
  {
    if width > 0 {
      ZeroDigits(base, width - 1);
      DivUnique(0, base, 0, 0);
    }
  }

  /** Padding the shortest numeral gives the numeral of fixed width. */
  lemma {:induction false} ZFillNumeral(n: nat, base: nat, width: nat)
    requires base >= 2 && width >= 1 && n < Pow(base, width)
    ensures ZFill(Numeral(n, base), width) == Digits(n, base, width)
    decreases width
  {
    if n < base {
      ZeroDigits(base, width - 1);
      DivUnique(n, base, 0, n);
      assert Numeral(n, base) == [n];
    } else {
      assert Pow(base, 1) == base * Pow(base, 0) == base;
      assert width > 1;
      DivShrinks(n, base);
      DivBelow(n, base, Pow(base, width - 1));
      ZFillNumeral(n / base, base, width - 1);
    }
  }

  lemma Regroup(v: nat, p: nat, u: nat, base: nat)
    ensures (v * p + u) * base == v * (base * p) + u * base
  {
  }

  /** Writing numbers in base^width digits and then spreading each digit keeps the value. */
  lemma {:induction false} ValueOfConcat(a: seq<nat>, b: seq<nat>, base: nat)
    ensures Value(a + b, base) == Value(a, base) * Pow(base, |b|) + Value(b, base)
    decreases |b|
  {
    if b == [] {
      assert a + b == a;
    } else {
      var k := |b| - 1;
      assert (a + b)[..|a + b| - 1] == a + b[..k];
      ValueOfConcat(a, b[..k], base);
      Regroup(Value(a, base), Pow(base, k), Value(b[..k], base), base);
    }
  }

  lemma {:induction false} ValueOfSpread(ns: seq<nat>, base: nat, width: nat)
    requires base >= 2 && AreDigits(ns, Pow(base, width))
    ensures Value(Spread(ns, base, width), base) == Value(ns, Pow(base, width))
  {
    if ns != [] {
      var k := |ns| - 1;
      ValueOfSpread(ns[..k], base, width);
      ValueOfDigits(ns[k], base, width);
      ValueOfConcat(Spread(ns[..k], base, width), Digits(ns[k], base, width), base);
    }
  }

  // ----- Spread and Gather are inverse -----

  lemma {:induction false} SpreadLength(ns: seq<nat>, base: nat, width: nat)
    requires base >= 2
    ensures |Spread(ns, base, width)| == |ns| * width
  {
    if ns != [] {
      var k := |ns| - 1;
      SpreadLength(ns[..k], base, width);
      MulNext(k, width);
    }
  }

  lemma Associate(a: seq<nat>, b: seq<nat>, c: seq<nat>)
    ensures a + b + c == a + (b + c)
  {
  }

  lemma {:induction false} SpreadConcat(a: seq<nat>, b: seq<nat>, base: nat, width: nat)
    requires base >= 2
    ensures Spread(a + b, base, width) == Spread(a, base, width) + Spread(b, base, width)
    decreases |b|
  {
    if b == [] {
      assert a + b == a;
    } else {
      var k := |b| - 1;
      assert (a + b)[..|a + b| - 1] == a + b[..k];
      SpreadConcat(a, b[..k], base, width);
      Associate(Spread(a, base, width), Spread(b[..k], base, width), Digits(b[k], base, width));
    }
  }

  /** `Spread` also unfolds from the front. */
  lemma SpreadFirst(n: nat, ns: seq<nat>, base: nat, width: nat)
    requires base >= 2
    ensures Spread([n] + ns, base, width) == Digits(n, base, width) + Spread(ns, base, width)
  {
    SpreadConcat([n], ns, base, width);
    assert [n][..0] == [];
    assert Spread([n], base, width) == Spread([], base, width) + Digits(n, base, width);
  }

  lemma {:induction false} GatherSpread(ns: seq<nat>, base: nat, width: nat)
    requires base >= 2 && width >= 1 && AreDigits(ns, Pow(base, width))
    ensures Gather(Spread(ns, base, width), base, width) == ns
    decreases |ns|
  {
    if ns != [] {
      var ds := Spread(ns, base, width);
      assert ns == [ns[0]] + ns[1..];
      SpreadFirst(ns[0], ns[1..], base, width);
      assert ds[..width] == Digits(ns[0], base, width);
      assert ds[width..] == Spread(ns[1..], base, width);
      ValueOfDigits(ns[0], base, width);
      GatherSpread(ns[1..], base, width);
    }
  }

  /** `i` runs over `range(len(text) // width)`, and slice `i` is `text[i * width:(i + 1) * width]`. */
  lemma {:induction false} GatherAt(ds: seq<nat>, base: nat, width: nat, i: nat)
    requires width >= 1
    ensures |Gather(ds, base, width)| == |ds| / width
    ensures i < |ds| / width ==> 0 <= i * width <= (i + 1) * width <= |ds|
    ensures i < |ds| / width ==> Gather(ds, base, width)[i] == Value(ds[i * width..(i + 1) * width], base)
    decreases |ds|
  {
    if |ds| < width {
      DivUnique(|ds|, width, 0, |ds|);
    } else {
      DivStep(|ds|, width);
      var rest := ds[width..];
      if 0 < i < |ds| / width {
        GatherAt(rest, base, width, i - 1);
        MulNext(i - 1, width);
        MulNext(i, width);
        assert rest[(i - 1) * width..i * width] == ds[i * width..(i + 1) * width];
      } else {
        GatherAt(rest, base, width, 0);
        assert 0 * width == 0 && 1 * width == width;
        DivMod(|ds|, width);
      }
    }
  }

  lemma {:induction false} GatherBound(ds: seq<nat>, base: nat, width: nat)
    requires base >= 2 && width >= 1 && AreDigits(ds, base)
    ensures AreDigits(Gather(ds, base, width), Pow(base, width))
    decreases |ds|
  {
    if |ds| >= width {
      GatherBound(ds[width..], base, width);
      ValueBound(ds[..width], base);
    }
  }

  lemma SpreadPrefix(n: nat, ns: seq<nat>, rest: seq<nat>, base: nat, width: nat)
    requires base >= 2
    requires Spread(ns, base, width) <= rest && |rest| - |Spread(ns, base, width)| < width
    ensures Spread([n] + ns, base, width) <= Digits(n, base, width) + rest
    ensures |Digits(n, base, width) + rest| - |Spread([n] + ns, base, width)| < width
  {
    SpreadFirst(n, ns, base, width);
  }

  /** Spreading the gathered numbers gives the text back, up to a rest shorter than one slice. */
  lemma {:induction false} SpreadGather(ds: seq<nat>, base: nat, width: nat)
    requires base >= 2 && width >= 1 && AreDigits(ds, base)
    ensures Spread(Gather(ds, base, width), base, width) <= ds
    ensures |ds| - |Spread(Gather(ds, base, width), base, width)| < width
    decreases |ds|
  {
    if |ds| >= width {
      SpreadGather(ds[width..], base, width);
      DigitsOfValue(ds[..width], base);
      SpreadPrefix(Value(ds[..width], base), Gather(ds[width..], base, width), ds[width..], base, width);
      assert ds == ds[..width] + ds[width..];
    }
  }

  // ----- single digits -----

  /** Digit `i` of a fixed-width numeral. */
  lemma {:induction false} DigitAt(n: nat, base: nat, width: nat, i: nat)
    requires base >= 2 && i < width
    ensures Pow(base, width - 1 - i) >= 1
    ensures Digits(n, base, width)[i] == (n / Pow(base, width - 1 - i)) % base
    decreases width
  {
    PowPositive(base, width - 1 - i);
    if i < width - 1 {
      DigitAt(n / base, base, width - 1, i);
      DivDiv(n, base, Pow(base, width - 2 - i));
    } else {
      DivUnique(n, 1, n, 0);
    }
  }

  /** Digit `j` of number `i` in the spread. */
  lemma {:induction false} SpreadAt(ns: seq<nat>, base: nat, width: nat, i: nat, j: nat)
    requires base >= 2 && i < |ns| && j < width
    ensures Pow(base, width - 1 - j) >= 1 && i * width + j < |Spread(ns, base, width)|
    ensures Spread(ns, base, width)[i * width + j] == (ns[i] / Pow(base, width - 1 - j)) % base
  {
    var k := |ns| - 1;
    SpreadLength(ns, base, width);
    SpreadLength(ns[..k], base, width);
    DigitAt(ns[i], base, width, j);
    MulNext(i, width);
    if i < k {
      MulLe(i + 1, k, width);
      SpreadAt(ns[..k], base, width, i, j);
    } else {
      MulNext(k, width);
    }
  }

  lemma DivDiv(n: nat, a: nat, b: nat)
    requires a >= 1 && b >= 1
    ensures a * b >= 1 && (n / a) / b == n / (a * b)
  {
    DivMod(n, a);
    DivMod(n / a, b);
    var q, r, s := (n / a) / b, (n / a) % b, n % a;
    MulLe(1, a, b);
    assert r * a + s < a * b by { MulLe(r + 1, b, a); }
    Regroup(q, b, r, a);
    DivUnique(n, a * b, q, r * a + s);
  }

  /** `n & (1 << k)` is non-zero exactly when bit `k` is set. */
  lemma {:induction false} MaskTest(n: nat, k: nat)
    ensures Pow(2, k) >= 1
    ensures BitAnd(n, Pow(2, k)) != 0 <==> (n / Pow(2, k)) % 2 == 1
    decreases k
  {
    PowPositive(2, k);
    var p := Pow(2, k);
    if n == 0 {
      DivUnique(0, p, 0, 0);
    } else if k == 0 {
      DivUnique(n, 1, n, 0);
      assert BitAnd(n / 2, 0) == 0;
    } else {
      var h := Pow(2, k - 1);
      PowPositive(2, k - 1);
      assert p == 2 * h;
      DivUnique(p, 2, h, 0);
      MaskTest(n / 2, k - 1);
      DivDiv(n, 2, h);
    }
  }

  /** `n | (1 << k)` adds the bit when `n` is zero from bit `k` down. */
  lemma {:induction false} MaskSet(n: nat, k: nat)
    ensures Pow(2, k + 1) >= 1
    ensures n % Pow(2, k + 1) == 0 ==> BitOr(n, Pow(2, k)) == n + Pow(2, k)
    decreases k
  {
    PowPositive(2, k + 1);
    PowPositive(2, k);
    if n % Pow(2, k + 1) == 0 && n > 0 {
      var q := n / Pow(2, k + 1);
      DivMod(n, Pow(2, k + 1));
      assert n == q * (2 * Pow(2, k)) == 2 * (q * Pow(2, k));
      DivUnique(n, 2, q * Pow(2, k), 0);
      if k == 0 {
        assert BitOr(n / 2, 0) == n / 2;
      } else {
        DivUnique(Pow(2, k), 2, Pow(2, k - 1), 0);
        DivUnique(n / 2, Pow(2, k), q, 0);
        MaskSet(n / 2, k - 1);
      }
    }
  }
}
