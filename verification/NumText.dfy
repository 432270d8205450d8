/** `itoa` and `internal_atoi` of libc/lib.c, a printer and a parser of numbers. */
module NumText {
  import opened Machine
  import opened Numerals

  /** The text of a number, upper case, "0" for zero. */
  function NumberText(v: nat, base: nat): (t: string)
    requires 2 <= base <= 36
    ensures t != []
  {
    DigitsDenote(v, base);
    if v == 0 then "0" else Text(Digits(v, base), true)
  }

  // ----- itoa

  /** `itoa`: digits come out last first and are turned round through a 32-byte buffer. */
  method Itoa(str: array<char>, val: nat, base: nat)
    requires 2 <= base <= 36 && val < 0x1_0000_0000_0000_0000
    requires |Digits(val, base)| <= 32 && |NumberText(val, base)| < str.Length
    modifies str
    ensures var t := NumberText(val, base);
      str[..|t| + 1] == t + ['\0'] && str[|t| + 1..] == old(str[|t| + 1..])
  {
    hide Digits, Text, Reverse, NumberText;
    TextCases(val, base);
    var i := 0;
    if val == 0 {
      str[i] := '0';
      i := i + 1;
      str[i] := '\0';
      return;
    }
    i := EmitDigits(str, val, base);
    ReverseTwice(Text(Digits(val, base), true));
    TurnRound(str, i);
    str[i] := '\0';
    assert str[..i + 1] == str[..i] + ['\0'];
  }

  lemma TextCases(v: nat, base: nat)
    requires 2 <= base <= 36
    ensures v == 0 ==> NumberText(v, base) == "0"
    ensures AllBelow(Digits(v, base), 36)
    ensures v > 0 ==> NumberText(v, base) == Text(Digits(v, base), true)
  {
    DigitsDenote(v, base);
  }

  lemma ReverseTwice(t: string)
    ensures Reverse(Reverse(t)) == t
  {
  }

  /** The digit loop: the last digit first. */
  method EmitDigits(str: array<char>, val: nat, base: nat) returns (i: nat)
    requires 2 <= base <= 36 && val > 0 && |Digits(val, base)| < str.Length
    modifies str
    ensures AllBelow(Digits(val, base), 36)
    ensures i == |Digits(val, base)| && str[..i] == Reverse(Text(Digits(val, base), true))
    ensures str[i..] == old(str[i..])
  {
    hide Digits, Text, Reverse;
    ghost var ds := Digits(val, base);
    DigitsDenote(val, base);
    i := 0;
    var v: nat := val;
    while v != 0
      invariant i <= |ds| && Digits(v, base) == ds[..|ds| - i]
      invariant forall j :: 0 <= j < i ==> str[j] == DigitChar(ds[|ds| - 1 - j], true)
      invariant forall j :: i <= j < str.Length ==> str[j] == old(str[j])
      decreases v
    {
      var rem;
      v, rem := TakeDigit(v, base, ds, i);
      PutDigit(str, i, rem);
      i := i + 1;
    }
    DigitsStep(0, base);
  }

  /** `rem = val % base; val /= base`. */
  method TakeDigit(v: nat, base: nat, ghost ds: seq<nat>, ghost i: nat) returns (q: nat, rem: nat)
    requires base >= 2 && v > 0 && i <= |ds| && Digits(v, base) == ds[..|ds| - i]
    ensures i < |ds| && rem == ds[|ds| - 1 - i] && Digits(q, base) == ds[..|ds| - 1 - i] && q < v
  {
    hide Digits;
    NextDigit(ds, v, base, i);
    rem := v % base;
    q := v / base;
  }

  method PutDigit(str: array<char>, i: nat, rem: nat)
    requires i < str.Length && rem < 36
    modifies str
    ensures str[i] == DigitChar(rem, true)
    ensures forall j :: 0 <= j < str.Length && j != i ==> str[j] == old(str[j])
  {
    str[i] := if rem > 9 then 'A' + (rem - 10) as char else '0' + rem as char;
  }

  /** The two copies that turn the first `k` characters round. */
  method TurnRound(str: array<char>, k: nat)
    requires k <= 32 && k <= str.Length
    modifies str
    ensures str[..k] == Reverse(old(str[..k])) && str[k..] == old(str[k..])
  {
    var buffer := new char[32];
    var i, j := 0, k;
    while i < k
      invariant 0 <= i <= k && j == k - i && str[..] == old(str[..])
      invariant forall x :: 0 <= x < i ==> buffer[x] == str[k - 1 - x]
    {
      buffer[i] := str[j - 1];
      j := j - 1;
      i := i + 1;
    }
    i := 0;
    while i < k
      invariant 0 <= i <= k
      invariant forall x :: 0 <= x < i ==> str[x] == buffer[x]
      invariant forall x :: 0 <= x < k ==> buffer[x] == old(str[k - 1 - x])
      invariant forall x :: k <= x < str.Length ==> str[x] == old(str[x])
    {
      str[i] := buffer[i];
      i := i + 1;
    }
  }

  // ----- internal_atoi

  /** The characters the parse loop goes on at. Above base 10 it takes one letter too many. Characters
      are signed bytes: those from 128 up are negative, and no letters. */
  predicate Accepts(c: char, base: nat)
  {
    ('0' <= c <= '9') ||
    (base > 10 && 'A' <= c && c as int < 128 && c as int <= 'A' as int + (base - 10))
  }

  const ALL_DIGITS: string := "0123456789ABCDEFGHIJKLMNOPQRSTUVWXYZ"

  /** In any base, all ten decimal digits are taken; above base 10 every digit up to the base itself. */
  lemma AcceptsIff(c: char, base: nat)
    requires base < 36
    ensures Accepts(c, base) <==> c in ALL_DIGITS[..if base > 10 then base + 1 else 10]
    ensures Accepts(c, base) ==> DigitOf(c, base) < 36 && ALL_DIGITS[DigitOf(c, base)] == c
  {
    DigitsInOrder();
    var ds := ALL_DIGITS[..if base > 10 then base + 1 else 10];
    if Accepts(c, base) {
      assert ds[DigitOf(c, base)] == c;
    }
    if c in ds {
      var d :| 0 <= d < |ds| && ds[d] == c;
      assert ALL_DIGITS[d] == c;
    }
  }

  lemma DigitsInOrder()
    ensures |ALL_DIGITS| == 36
    ensures forall d :: 0 <= d < 36 ==> ALL_DIGITS[d] == if d < 10 then '0' + d as char else 'A' + (d - 10) as char
  {
  }

  /** The letter too many counts as the base: "G" is 16 in base 16. */
  lemma LetterTooMany(base: nat)
    requires 10 < base < 36
    ensures Parsed([ALL_DIGITS[base], '\0'], base, 0) == base
  {
    hide Parsed, Accepts;
    DigitsInOrder();
    LetterIs(base);
    OneRead(ALL_DIGITS[base], base);
  }

  lemma LetterIs(base: nat)
    requires 10 < base < 36
    ensures Accepts(ALL_DIGITS[base], base) && DigitOf(ALL_DIGITS[base], base) == base
  {
    DigitsInOrder();
  }

  lemma OneRead(c: char, base: nat)
    requires base < 36 && Accepts(c, base) && DigitOf(c, base) < 36
    ensures Parsed([c, '\0'], base, 0) == DigitOf(c, base)
  {
    hide DigitOf, ToInt;
    var str := [c, '\0'];
    RunIs(str, 0, base, 1);
    assert str[..1] == [c];
    assert DigitsOf(str[..1], base) == [DigitOf(c, base)];
    OneDigitValue(DigitOf(c, base), base);
    SmallFits(DigitOf(c, base));
  }

  lemma OneDigitValue(d: nat, base: nat)
    ensures Value([d], base) == d
  {
    hide Value;
    assert [] + [d] == [d];
    ValueSnoc([], d, base);
    NoDigits(base);
  }

  lemma SmallFits(d: nat)
    requires d < 36
    ensures ToInt(d) == d
  {
  }

  function DigitOf(c: char, base: nat): (d: nat)
    requires Accepts(c, base)
  {
    if base > 10 && c >= 'A' then c as int - 'A' as int + 10 else c as int - '0' as int
  }

  /** How many characters from position `i` on the loop takes. */
  function Run(str: string, i: nat, base: nat): (n: nat)
    requires i <= |str|
    ensures i + n <= |str| && forall j :: i <= j < i + n ==> Accepts(str[j], base)
    ensures i + n < |str| ==> !Accepts(str[i + n], base)
    decreases |str| - i
  {
    if i < |str| && Accepts(str[i], base) then 1 + Run(str, i + 1, base) else 0
  }

  /** The number of characters read: all that are accepted, or `limit` of them. */
  function ReadLength(str: string, base: nat, limit: nat): (n: nat)
    ensures n <= Run(str, 0, base)
  {
    var n := Run(str, 0, base);
    if limit > 0 && limit < n then limit else n
  }

  function DigitsOf(str: string, base: nat): (ds: seq<nat>)
    requires forall j :: 0 <= j < |str| ==> Accepts(str[j], base)
    ensures |ds| == |str| && forall j :: 0 <= j < |str| ==> ds[j] == DigitOf(str[j], base)
  {
    seq(|str|, j requires 0 <= j < |str| => DigitOf(str[j], base))
  }

  /** What `internal_atoi` returns: the value of what it read, as a 32-bit `int`. */
  function Parsed(str: string, base: nat, limit: nat): int
  {
    ToInt(Value(DigitsOf(str[..ReadLength(str, base, limit)], base), base))
  }

  function ToInt(x: int): int
  {
    Signed(Wrap(x))
  }

  lemma WrapMulAdd(x: int, b: int, d: int)
    ensures ToInt(ToInt(x) * b + d) == ToInt(x * b + d)
  {
    var k := x / 0x1_0000_0000 + (if Wrap(x) < 0x8000_0000 then 0 else 1);
    assert ToInt(x) == x - k * 0x1_0000_0000;
    assert ToInt(x) * b + d == x * b + d - (k * b) * 0x1_0000_0000;
    WrapShift(x * b + d, -(k * b));
  }

  lemma ZeroFits()
    ensures ToInt(0) == 0
  {
  }

  /** `num *= base; num += d`, which both wrap. */
  method TakeIn(num: int, base: nat, d: nat, ghost v: nat) returns (r: int)
    requires num == ToInt(v)
    ensures r == ToInt(v * base + d)
  {
    hide ToInt;
    WrapMulAdd(v, base, d);
    WrapMulAdd(num * base, 1, d);
    r := ToInt(num * base);
    r := ToInt(r + d);
  }

  /** `internal_atoi` on a terminated string. */
  method InternalAtoi(str: string, base: nat, limit: Word) returns (num: int)
    requires base < 256 && '\0' in str
    ensures num == Parsed(str, base, limit)
  {
    hide Value, ToInt, Accepts;
    var i := 0;
    num := 0;
    NoDigits(base);
    ZeroFits();
    assert DigitsOf(str[..0], base) == [];
    ghost var total := Run(str, 0, base);
    TerminatorStops(str, base);
    while i < |str| && Accepts(str[i], base)
      invariant 0 <= i <= total && total == i + Run(str, i, base)
      invariant limit > 0 && i > 0 ==> i < limit
      invariant num == ToInt(Value(DigitsOf(str[..i], base), base))
    {
      ghost var before := DigitsOf(str[..i], base);
      var d := if base > 10 && str[i] >= 'A' then str[i] as int - 'A' as int + 10
               else str[i] as int - '0' as int;
      assert d == DigitOf(str[i], base);
      ValueSnoc(before, d, base);
      assert DigitsOf(str[..i + 1], base) == before + [d];
      num := TakeIn(num, base, d, Value(before, base));
      i := i + 1;
      if limit > 0 && i >= limit {
        return num;
      }
    }
  }

  lemma TerminatorStops(str: string, base: nat)
    requires '\0' in str
    ensures Run(str, 0, base) < |str|
  {
  }

  // ----- the pair

  lemma TextIsAccepted(ds: seq<nat>, base: nat)
    requires 2 <= base <= 36 && AllBelow(ds, base)
    ensures forall i :: 0 <= i < |ds| ==> Accepts(Text(ds, true)[i], base)
    ensures DigitsOf(Text(ds, true), base) == ds
  {
  }

  /** Reading back what `itoa` wrote, whatever follows the terminator: the number itself exactly
      when it fits a positive `int`. */
  lemma AtoiOfItoaIff(v: nat, base: nat, rest: string)
    requires 2 <= base <= 36
    ensures Parsed(NumberText(v, base) + ['\0'] + rest, base, 0) == v <==> v < 0x8000_0000
  {
    hide Value, Digits;
    ReadBack(v, base, rest);
  }

  /** With a limit, the number of the first digits only, as a 32-bit `int`. */
  lemma AtoiOfItoaLimited(v: nat, base: nat, rest: string, limit: nat)
    requires 2 <= base <= 36
    ensures var n := |NumberText(v, base)|;
      Parsed(NumberText(v, base) + ['\0'] + rest, base, limit) ==
      ToInt(v / Pow(base, if 0 < limit < n then n - limit else 0))
  {
    hide Value, Digits, Pow;
    var t := NumberText(v, base);
    var str := t + ['\0'] + rest;
    ReadBack(v, base, rest);
    DigitsDenote(v, base);
    PowZero(base);
    var n := ReadLength(str, base, limit);
    if v > 0 {
      var ds := Digits(v, base);
      assert str[..n] == t[..n];
      assert DigitsOf(t[..n], base) == ds[..n];
      DropDigits(v, base, n);
    } else {
      assert n == 1 && n == ReadLength(str, base, 0);
    }
  }

  /** Which numbers the 32-byte buffer is large enough for: all 64-bit ones from base 4 on. */
  lemma ItoaFitsIff(v: nat, base: nat)
    requires base >= 2 && v < 0x1_0000_0000_0000_0000
    ensures |Digits(v, base)| <= 32 <==> v < Pow(base, 32)
    ensures base >= 4 ==> |Digits(v, base)| <= 32
  {
    hide Pow, Digits;
    DigitCount(v, base, 32);
    if base >= 4 {
      PowMonotone(4, base, 32);
      Pow4At32();
    }
  }

  lemma Pow4At32()
    ensures Pow(4, 32) == 0x1_0000_0000_0000_0000
  {
    assert Pow(4, 4) == 256;
    assert Pow(4, 8) == 65_536;
    assert Pow(4, 12) == 16_777_216;
    assert Pow(4, 16) == 0x1_0000_0000;
    assert Pow(4, 20) == 0x100_0000_0000;
    assert Pow(4, 24) == 0x1_0000_0000_0000;
    assert Pow(4, 28) == 0x100_0000_0000_0000;
  }

  lemma ReadBack(v: nat, base: nat, rest: string)
    requires 2 <= base <= 36
    ensures var t := NumberText(v, base);
      var str := t + ['\0'] + rest;
      Run(str, 0, base) == |t| && (forall j :: 0 <= j < |t| ==> Accepts(t[j], base)) &&
      (v > 0 ==> DigitsOf(t, base) == Digits(v, base)) &&
      Parsed(str, base, 0) == ToInt(v)
  {
    hide Digits;
    var t := NumberText(v, base);
    var str := t + ['\0'] + rest;
    DigitsDenote(v, base);
    if v > 0 {
      TextIsAccepted(Digits(v, base), base);
    } else {
      assert DigitsOf("0", base) == [0];
      assert [0][..0] == [];
      assert Value([0], base) == 0;
    }
    assert forall j :: 0 <= j < |t| ==> str[j] == t[j];
    RunIs(str, 0, base, |t|);
    assert str[..|t|] == t;
  }

  lemma {:induction false} RunIs(str: string, i: nat, base: nat, n: nat)
    requires i + n < |str| && !Accepts(str[i + n], base)
    requires forall j :: i <= j < i + n ==> Accepts(str[j], base)
    ensures Run(str, i, base) == n
    decreases n
  {
    if n > 0 {
      RunIs(str, i + 1, base, n - 1);
    }
  }

  /** The text has no superfluous zero in front. */
  lemma NoSuperfluousZero(v: nat, base: nat)
    requires 2 <= base <= 36
    ensures NumberText(v, base)[0] == '0' <==> v == 0
  {
    DigitsDenote(v, base);
  }
}
