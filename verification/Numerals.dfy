/** Numbers as digits: what the digit loops of libc/printf.c and libc/lib.c produce, and what
    their parse loops read. Digit sequences have the most significant digit first. */
module Numerals {
  import opened Machine

  function Pow(b: nat, n: nat): (r: nat)
    ensures b > 0 ==> r > 0
  {
    if n == 0 then 1 else b * Pow(b, n - 1)
  }

  predicate AllBelow(ds: seq<nat>, base: nat)
  {
    forall i :: 0 <= i < |ds| ==> ds[i] < base
  }

  /** The digits of a number, none for zero. */
  function Digits(v: nat, base: nat): seq<nat>
    requires base >= 2
    decreases v
  {
    if v == 0 then [] else Digits(v / base, base) + [v % base]
  }

  /** The number a digit sequence denotes; leading zeros do not count. */
  function Value(ds: seq<nat>, base: nat): nat
  {
    if ds == [] then 0 else Value(ds[..|ds| - 1], base) * base + ds[|ds| - 1]
  }

  lemma ValueSnoc(ds: seq<nat>, d: nat, base: nat)
    ensures Value(ds + [d], base) == Value(ds, base) * base + d
  {
    assert (ds + [d])[..|ds|] == ds;
  }

  /** The digits of a number denote it, are digits, and do not start with a zero. */
  lemma {:induction false} DigitsDenote(v: nat, base: nat)
    requires base >= 2
    ensures Value(Digits(v, base), base) == v
    ensures AllBelow(Digits(v, base), base)
    ensures v > 0 ==> Digits(v, base) != [] && Digits(v, base)[0] != 0
    decreases v
  {
    if v > 0 {
      DigitsDenote(v / base, base);
      ValueSnoc(Digits(v / base, base), v % base, base);
      DivMod(v, base);
    }
  }

  lemma DivMod(v: nat, b: nat)
    requires b > 0
    ensures v == (v / b) * b + v % b && v % b < b
  {
  }

  lemma DivBound(v: nat, b: nat, p: nat)
    requires b > 0
    ensures v < b * p <==> v / b < p
  {
    DivMod(v, b);
    if v / b < p {
      assert (v / b + 1) * b <= p * b by { MulMono(v / b + 1, p, b); }
    } else {
      assert p * b <= (v / b) * b by { MulMono(p, v / b, b); }
    }
  }

  lemma MulMono(x: nat, y: nat, b: nat)
    requires x <= y
    ensures x * b <= y * b
  {
  }

  /** A number has at most `n` digits exactly when it is below the `n`-th power of the base. */
  lemma {:induction false} DigitCount(v: nat, base: nat, n: nat)
    requires base >= 2
    ensures |Digits(v, base)| <= n <==> v < Pow(base, n)
    decreases n
  {
    if v > 0 && n > 0 {
      DigitCount(v / base, base, n - 1);
      DivBound(v, base, Pow(base, n - 1));
    }
  }

  /** More digits in a smaller base, so 32 places hold every 32-bit number in any base. */
  lemma WordFits32(v: nat, base: nat)
    requires base >= 2 && v < 0x1_0000_0000
    ensures |Digits(v, base)| <= 32
    ensures base >= 8 ==> |Digits(v, base)| <= 11
  {
    Pow2At32();
    PowMonotone(2, base, 32);
    DigitCount(v, base, 32);
    if base >= 8 {
      assert Pow(8, 11) == 8_589_934_592 by { Pow8At11(); }
      PowMonotone(8, base, 11);
      DigitCount(v, base, 11);
    }
  }

  lemma Pow8At11()
    ensures Pow(8, 11) == 8_589_934_592
  {
    assert Pow(8, 4) == 4096;
    assert Pow(8, 8) == 16_777_216;
  }

  lemma Pow8At22()
    ensures Pow(8, 22) > 0x1_0000_0000_0000_0000
  {
    assert Pow(8, 4) == 4096;
    assert Pow(8, 8) == 16_777_216;
    assert Pow(8, 12) == 68_719_476_736;
    assert Pow(8, 16) == 281_474_976_710_656;
    assert Pow(8, 20) == 1_152_921_504_606_846_976;
  }

  lemma Pow2At32()
    ensures Pow(2, 32) == 0x1_0000_0000
  {
    assert Pow(2, 8) == 256;
    assert Pow(2, 16) == 65_536;
    assert Pow(2, 24) == 16_777_216;
  }

  lemma {:induction false} PowMonotone(a: nat, b: nat, n: nat)
    requires a <= b
    ensures Pow(a, n) <= Pow(b, n)
  {
    if n > 0 {
      PowMonotone(a, b, n - 1);
      MulMono(a, b, Pow(a, n - 1));
      MulMono(Pow(a, n - 1), Pow(b, n - 1), b);
    }
  }

  /** Dropping the last `n` digits divides by the `n`-th power of the base. */
  lemma {:induction false} DropDigits(v: nat, base: nat, k: nat)
    requires base >= 2 && k <= |Digits(v, base)|
    ensures Value(Digits(v, base)[..k], base) == v / Pow(base, |Digits(v, base)| - k)
    decreases v
  {
    hide Pow, Value, Digits;
    var ds := Digits(v, base);
    DigitsDenote(v, base);
    PowZero(base);
    if k == |ds| {
      assert ds[..k] == ds;
    } else {
      DigitsStep(v, base);
      var q := v / base;
      var rest := Digits(q, base);
      assert ds[..k] == rest[..k];
      DropDigits(q, base, k);
      var p := Pow(base, |rest| - k);
      PowStep(base, |rest| - k);
      DivDiv(v, base, p);
    }
  }

  lemma DigitsStep(v: nat, base: nat)
    requires base >= 2
    ensures v > 0 ==> v / base < v && Digits(v, base) == Digits(v / base, base) + [v % base]
    ensures v == 0 ==> Digits(v, base) == []
  {
    DivMod(v, base);
    if v > 0 && v / base >= v {
      MulMono(2, base, v / base);
    }
  }

  /** One round of a digit loop takes the last digit away. */
  lemma NextDigit(ds: seq<nat>, v: nat, base: nat, i: nat)
    requires base >= 2 && v > 0 && i <= |ds| && Digits(v, base) == ds[..|ds| - i]
    ensures i < |ds| && ds[|ds| - 1 - i] == v % base && Digits(v / base, base) == ds[..|ds| - 1 - i]
    ensures v / base < v
  {
    hide Digits;
    DigitsStep(v, base);
    var front := Digits(v / base, base);
    assert ds[..|ds| - i] == front + [v % base];
    assert ds[..|ds| - 1 - i] == ds[..|ds| - i][..|front|];
    assert ds[|ds| - 1 - i] == ds[..|ds| - i][|front|];
  }

  lemma PowZero(b: nat)
    ensures Pow(b, 0) == 1
  {
  }

  lemma PowStep(b: nat, n: nat)
    ensures Pow(b, n + 1) == b * Pow(b, n)
  {
  }

  lemma DivDiv(v: nat, a: nat, b: nat)
    requires a > 0 && b > 0
    ensures a * b > 0 && v / a / b == v / (a * b)
  {
    var x := v / a;
    DivMod(v, a);
    DivMod(x, b);
    var q, s, t := x / b, x % b, v % a;
    Regroup(q, b, s, a, t);
    AtLeast(a, b);
    SmallRest(s, b, a, t);
    DivUnique(v, a * b, q, s * a + t);
  }

  lemma Regroup(q: nat, b: nat, s: nat, a: nat, t: nat)
    ensures (q * b + s) * a + t == (a * b) * q + (s * a + t)
  {
  }

  lemma SmallRest(s: nat, b: nat, a: nat, t: nat)
    requires s < b && t < a
    ensures s * a + t < a * b
  {
    MulMono(s + 1, b, a);
  }

  lemma DivUnique(x: int, d: int, q: int, r: int)
    requires d > 0 && 0 <= r < d && x == d * q + r
    ensures x / d == q && x % d == r
  {
    var q', r' := x / d, x % d;
    assert d * q' + r' == d * q + r;
    if q' > q {
      assert d * (q' - q) >= d by { AtLeast(d, q' - q); }
    } else if q' < q {
      assert d * (q - q') >= d by { AtLeast(d, q - q'); }
    }
  }

  /** Whole multiples of the word size do not change a word. */
  lemma WrapShift(y: int, m: int)
    ensures Wrap(y + m * 0x1_0000_0000) == Wrap(y)
  {
    DivUnique(y + m * 0x1_0000_0000, 0x1_0000_0000, y / 0x1_0000_0000 + m, Wrap(y));
  }

  lemma AtLeast(d: int, k: int)
    requires d > 0 && k >= 1
    ensures d * k >= d
  {
  }

  /** Zeros in front change nothing. */
  lemma {:induction false} LeadingZeros(n: nat, ds: seq<nat>, base: nat)
    ensures Value(seq(n, _ => 0) + ds, base) == Value(ds, base)
  {
    if ds == [] {
      if n > 0 {
        LeadingZeros(n - 1, [], base);
        assert seq(n, _ => 0) + [] == (seq(n - 1, _ => 0) + []) + [0];
        ValueSnoc(seq(n - 1, _ => 0) + [], 0, base);
      }
    } else {
      var init, last := ds[..|ds| - 1], ds[|ds| - 1];
      LeadingZeros(n, init, base);
      assert seq(n, _ => 0) + ds == (seq(n, _ => 0) + init) + [last];
      ValueSnoc(seq(n, _ => 0) + init, last, base);
    }
  }

  /** Digits below a base denote less than one more digit would. */
  lemma {:induction false} ValueBound(ds: seq<nat>, base: nat)
    requires base >= 2 && AllBelow(ds, base)
    ensures Value(ds, base) < Pow(base, |ds|)
  {
    hide Pow, Value;
    if ds == [] {
      NoDigits(base);
      PowZero(base);
    } else {
      var init, last := ds[..|ds| - 1], ds[|ds| - 1];
      ValueBound(init, base);
      assert ds == init + [last];
      ValueSnoc(init, last, base);
      PowStep(base, |init|);
      MulMono(Value(init, base) + 1, Pow(base, |init|), base);
    }
  }

  /** A leading digit that is not zero makes a difference: without it the value is less. */
  lemma {:induction false} LeadCounts(d: nat, ds: seq<nat>, base: nat)
    requires base >= 2
    ensures Value([d] + ds, base) == d * Pow(base, |ds|) + Value(ds, base)
  {
    hide Pow, Value;
    if ds == [] {
      ValueSnoc([], d, base);
      assert [] + [d] == [d] + ds;
      PowZero(base);
      NoDigits(base);
    } else {
      var init, last := ds[..|ds| - 1], ds[|ds| - 1];
      LeadCounts(d, init, base);
      assert [d] + ds == ([d] + init) + [last] && ds == init + [last];
      ValueSnoc([d] + init, last, base);
      ValueSnoc(init, last, base);
      PowStep(base, |init|);
      Spread(d, Pow(base, |init|), Value(init, base), base);
    }
  }

  /** What stands behind leading digits denotes no more, and less behind one that is not zero. */
  lemma {:induction false} LessWithoutLead(ds: seq<nat>, base: nat, j: nat)
    requires base >= 2 && j <= |ds|
    ensures Value(ds[j..], base) <= Value(ds, base)
    ensures j > 0 && ds[0] > 0 ==> Value(ds[j..], base) < Value(ds, base)
    decreases j
  {
    hide Value;
    if j == 0 {
      assert ds[0..] == ds;
    } else {
      var rest := ds[1..];
      assert ds == [ds[0]] + rest && ds[j..] == rest[j - 1..];
      LeadCounts(ds[0], rest, base);
      LessWithoutLead(rest, base, j - 1);
    }
  }

  lemma NoDigits(base: nat)
    ensures Value([], base) == 0
  {
  }

  lemma Spread(d: nat, p: nat, v: nat, base: nat)
    ensures (d * p + v) * base == d * (base * p) + v * base
  {
  }

  // ----- digits as characters

  function DigitChar(d: nat, upper: bool): char
    requires d < 36
  {
    if d < 10 then '0' + d as char
    else if upper then 'A' + (d - 10) as char else 'a' + (d - 10) as char
  }

  function Text(ds: seq<nat>, upper: bool): (t: string)
    requires AllBelow(ds, 36)
    ensures |t| == |ds| && forall i :: 0 <= i < |ds| ==> t[i] == DigitChar(ds[i], upper)
  {
    seq(|ds|, i requires 0 <= i < |ds| => DigitChar(ds[i], upper))
  }

  /** Digits up to 15 by the table. */
  function DigitText(ds: seq<nat>, upper: bool): (t: string)
    requires AllBelow(ds, 16)
    ensures |t| == |ds|
  {
    seq(|ds|, i requires 0 <= i < |ds| =>
      if upper then "0123456789ABCDEF"[ds[i]] else "0123456789abcdef"[ds[i]])
  }

  lemma TextIsTable(ds: seq<nat>, upper: bool)
    requires AllBelow(ds, 16)
    ensures AllBelow(ds, 36) && Text(ds, upper) == DigitText(ds, upper)
  {
    forall i | 0 <= i < |ds|
      ensures DigitChar(ds[i], upper) == DigitText(ds, upper)[i]
    {
      OneDigitIsTable(ds[i], upper);
    }
  }

  lemma OneDigitIsTable(d: nat, upper: bool)
    requires d < 16
    ensures DigitChar(d, upper) == (if upper then "0123456789ABCDEF" else "0123456789abcdef")[d]
  {
    assert d in {0, 1, 2, 3, 4, 5, 6, 7, 8, 9, 10, 11, 12, 13, 14, 15};
  }

  function Reverse<T>(s: seq<T>): (r: seq<T>)
    ensures |r| == |s| && forall i :: 0 <= i < |s| ==> r[i] == s[|s| - 1 - i]
  {
    seq(|s|, i requires 0 <= i < |s| => s[|s| - 1 - i])
  }
}
