/** Integer fields: how long they are, and what they say when they are read. */
module FieldLaws {
  import opened Machine
  import opened Numerals
  import opened Format
  import opened FormatLaws

  predicate HasSign(negative: bool, f: Flags)
  {
    negative || f.plus || f.space
  }

  /** How many digits are written: none for zero with a precision. */
  function DigitsWritten(value: nat, base: nat, f: Flags): (n: nat)
    requires base >= 2
  {
    if value == 0 then (if f.precision then 0 else 1) else |Digits(value, base)|
  }

  /** The length a number has without its field: digits, zeros up to the precision unless it is
      left aligned, and a sign. */
  function NaturalLength(digits: nat, negative: bool, prec: Word, f: Flags): nat
  {
    Max(digits, if f.left then 0 else prec) + (if HasSign(negative, f) then 1 else 0)
  }

  /** How far the 32-character digit buffer reaches: zero padding is done in it, spaces are not. */
  predicate LengthFits(n: nat, width: Word, f: Flags)
  {
    if f.zeropad && !f.left then Max(width, n) <= NTOA_BUFFER_SIZE
    else n <= NTOA_BUFFER_SIZE || width >= n
  }

  /** A field of `digits` digits, of which the buffer holds at most 32: its length is the larger of
      width and natural length exactly as far as the buffer reaches. */
  lemma FieldLengthIff(d: string, digits: nat, negative: bool, base: nat, prec: Word, width: Word, f: Flags)
    requires |d| == Min(digits, NTOA_BUFFER_SIZE) && !f.hash
    ensures var n := NaturalLength(digits, negative, prec, f);
      |FieldText(d, negative, base, prec, width, f)| == Max(width, n) <==> LengthFits(n, width, f)
  {
    var w := FieldWidth(negative, width, f);
    var z := ZeroFilled(d, prec, w, f);
    var b := Signed_(z, negative, f);
    assert FieldBody(d, negative, base, prec, width, f) == b;
    assert |b| == if HasSign(negative, f) && |z| < NTOA_BUFFER_SIZE then |z| + 1 else |z|;
  }

  lemma WrittenLength(value: nat, base: nat, f: Flags)
    requires 2 <= base <= 16
    ensures |IntDigits(value, base, f)| == Min(DigitsWritten(value, base, f), NTOA_BUFFER_SIZE)
  {
    hide Digits;
    if value > 0 {
      BufferText(value, base, f);
    }
  }

  /** The length of an integer without alternate form. */
  lemma IntLengthIff(value: nat, negative: bool, base: nat, prec: Word, width: Word, f: Flags)
    requires 2 <= base <= 16 && (f.hash ==> value == 0)
    ensures var n := NaturalLength(DigitsWritten(value, base, f), negative, prec, f);
      |IntText(value, negative, base, prec, width, f)| == Max(width, n) <==> LengthFits(n, width, f)
  {
    hide IntText, FieldText, IntDigits, Digits;
    IntTextIs(value, negative, base, prec, width, f);
    var g := if value == 0 then f.(hash := false) else f;
    WrittenLength(value, base, g);
    FieldLengthIff(IntDigits(value, base, g), DigitsWritten(value, base, g), negative, base, prec, width, g);
  }

  /** All integer conversions with every flag but `#`, width, precision and length. */
  lemma ConversionLengthIff(h: Head)
    requires h.Head? && h.rest != "" && h.args != [] && IsIntConversion(h.rest[0])
    requires Convert(h).Rendered? && !IntFlags(h.f, h.rest[0]).hash
    ensures var c := h.rest[0];
      var g := IntFlags(h.f, c);
      var v := NumberOf(h.args[0], c == 'd' || c == 'i', g);
      v.Number? &&
      var n := NaturalLength(DigitsWritten(v.magnitude, BaseOf(c), g), v.negative, h.prec, g);
      |Convert(h).text| == Max(h.width, n) <==> LengthFits(n, h.width, g)
  {
    hide IntText, NumberOf, Digits, NaturalLength, LengthFits, DigitsWritten, IntFlags;
    var c := h.rest[0];
    var g := IntFlags(h.f, c);
    var v := NumberOf(h.args[0], c == 'd' || c == 'i', g);
    IntLengthIff(v.magnitude, v.negative, BaseOf(c), h.prec, h.width, g);
  }

  /** The digits the buffer holds: the last 32. */
  function BufferDigits(value: nat, base: nat): (ds: seq<nat>)
    requires base >= 2
    ensures |ds| == Min(|Digits(value, base)|, NTOA_BUFFER_SIZE)
  {
    Digits(value, base)[Max(0, |Digits(value, base)| - NTOA_BUFFER_SIZE)..]
  }

  lemma BufferText(value: nat, base: nat, f: Flags)
    requires 2 <= base <= 16 && value > 0
    ensures AllBelow(BufferDigits(value, base), base) && AllBelow(BufferDigits(value, base), 36)
    ensures IntDigits(value, base, f) == Text(BufferDigits(value, base), f.upper)
    ensures IntDigits(value, base, f) != ""
  {
    hide Digits;
    DigitsDenote(value, base);
  }

  /** A number of at most 32 digits has them all in the buffer, and only such a number is what the
      buffer denotes. */
  lemma BufferDenotesIff(value: nat, base: nat)
    requires base >= 2
    ensures Value(BufferDigits(value, base), base) == value <==> |Digits(value, base)| <= NTOA_BUFFER_SIZE
    ensures Value(BufferDigits(value, base), base) <= value
    ensures |Digits(value, base)| <= NTOA_BUFFER_SIZE ==> BufferDigits(value, base) == Digits(value, base)
  {
    hide Digits, Value;
    var ds := Digits(value, base);
    DigitsDenote(value, base);
    DigitsStep(value, base);
    assert ds[0..] == ds;
    LessWithoutLead(ds, base, Max(0, |ds| - NTOA_BUFFER_SIZE));
  }

  /** Every 32-bit number has at most 32 digits in any base, every 64-bit number at most 22 in base 8
      and above. */
  lemma DigitBounds(value: nat, base: nat)
    requires base >= 2
    ensures value < 0x1_0000_0000 ==> |Digits(value, base)| <= NTOA_BUFFER_SIZE
    ensures value < 0x1_0000_0000_0000_0000 && base >= 8 ==> |Digits(value, base)| <= 22
  {
    hide Digits, Pow;
    if value < 0x1_0000_0000 {
      WordFits32(value, base);
    }
    if base >= 8 {
      DigitCount(value, base, 22);
      PowMonotone(8, base, 22);
      Pow8At22();
    }
  }

  /** 64-bit numbers have at most 20 decimal digits. */
  lemma DecimalDigits(value: nat)
    requires value < 0x1_0000_0000_0000_0000
    ensures |Digits(value, 10)| <= 20
  {
    hide Digits;
    assert Pow(10, 20) == 100_000_000_000_000_000_000 by {
      assert Pow(10, 5) == 100_000;
      assert Pow(10, 10) == 10_000_000_000;
      assert Pow(10, 15) == 1_000_000_000_000_000;
    }
    DigitCount(value, 10, 20);
  }

  /** `t` shows `shown` at the proper end of a field that is just wide enough, and spaces. */
  predicate ShowsIn(t: string, shown: string, width: Word, left: bool)
  {
    var gap := |t| - |shown|;
    |t| == Max(width, |shown|) &&
    if left then t[..|shown|] == shown && forall i :: |shown| <= i < |t| ==> t[i] == ' '
    else t[gap..] == shown && forall i :: 0 <= i < gap ==> t[i] == ' '
  }

  /** A character field shows the low byte of its argument, a string field the string up to the
      precision; neither is cut to the width. */
  lemma TextFields(w: Word, s: string, prec: Word, width: Word, f: Flags)
    ensures ShowsIn(CharText(w, width, f), [(w % 256) as char], width, f.left)
    ensures ShowsIn(StrText(s, prec, width, f), if f.precision then s[..Min(prec, |s|)] else s,
                    width, f.left)
  {
    assert s[..|s|] == s;
  }

  // ----- reading a decimal field

  function SkipSpaces(t: string): (r: string)
    ensures |r| <= |t|
  {
    if t != "" && t[0] == ' ' then SkipSpaces(t[1..]) else t
  }

  /** An optional sign and a number, as `_atoi` reads it, behind any spaces. */
  function ReadSigned(t: string): int
  {
    var s := SkipSpaces(t);
    if s != "" && s[0] == '-' then -(ParseNumber(s[1..], 0).0 as int)
    else if s != "" && s[0] == '+' then ParseNumber(s[1..], 0).0
    else ParseNumber(s, 0).0
  }

  lemma {:induction false} SkipsSpaces(n: int, t: string)
    requires t == "" || t[0] != ' '
    ensures SkipSpaces(Repeat(' ', n) + t) == t
    decreases n
  {
    if n <= 0 {
      assert Repeat(' ', n) + t == t;
    } else {
      assert (Repeat(' ', n) + t)[1..] == Repeat(' ', n - 1) + t;
      SkipsSpaces(n - 1, t);
    }
  }

  lemma {:induction false} SkipsAll(n: nat)
    ensures SkipSpaces(Repeat(' ', n)) == ""
    decreases n
  {
    if n > 0 {
      assert Repeat(' ', n)[1..] == Repeat(' ', n - 1);
      SkipsAll(n - 1);
    }
  }

  /** Decimal digits are read to their value, modulo the word size. */
  lemma {:induction false} NumberOfDigits(ds: seq<nat>, upper: bool, rest: string, acc: Word)
    requires AllBelow(ds, 10) && (rest == "" || !IsDigit(rest[0]))
    ensures AllBelow(ds, 36)
    ensures ParseNumber(Text(ds, upper) + rest, acc) == (Wrap(Value([acc] + ds, 10)), rest)
    decreases |ds|
  {
    hide Value, Wrap;
    if ds == [] {
      assert Text(ds, upper) + rest == rest;
      assert [acc] + ds == [] + [acc];
      ValueSnoc([], acc, 10);
      NoDigits(10);
      WrapWord(acc);
    } else {
      var t := Text(ds, upper) + rest;
      assert t[0] == DigitChar(ds[0], upper) && t[1..] == Text(ds[1..], upper) + rest;
      var next := Wrap(acc * 10 + ds[0]);
      NumberOfDigits(ds[1..], upper, rest, next);
      assert ParseNumber(t, acc) == ParseNumber(t[1..], next);
      Horner(acc, ds);
    }
  }

  /** One step of the parse loop, which may wrap around. */
  lemma Horner(acc: Word, ds: seq<nat>)
    requires ds != []
    ensures Wrap(Value([Wrap(acc * 10 + ds[0])] + ds[1..], 10)) == Wrap(Value([acc] + ds, 10))
  {
    hide Value, Wrap, Pow;
    var x, p := acc * 10 + ds[0], Pow(10, |ds| - 1);
    LeadCounts(Wrap(x), ds[1..], 10);
    assert [acc] + ds == [acc, ds[0]] + ds[1..];
    LeadCounts(acc, ds, 10);
    assert ds == [ds[0]] + ds[1..];
    LeadCounts(ds[0], ds[1..], 10);
    PowStep(10, |ds| - 1);
    assert acc * (10 * p) + (ds[0] * p + Value(ds[1..], 10)) == x * p + Value(ds[1..], 10) by {
      Spread2(acc, ds[0], p);
    }
    WrapTimes(x, p, Value(ds[1..], 10));
  }

  lemma Spread2(a: int, d: int, p: int)
    ensures a * (10 * p) + d * p == (a * 10 + d) * p
  {
  }

  lemma WrapTimes(x: int, p: int, v: int)
    ensures Wrap(Wrap(x) * p + v) == Wrap(x * p + v)
  {
    var q := x / 0x1_0000_0000;
    assert x == q * 0x1_0000_0000 + Wrap(x);
    assert x * p == (q * p) * 0x1_0000_0000 + Wrap(x) * p by { Spread3(q, Wrap(x), p); }
    WrapShift(Wrap(x) * p + v, q * p);
  }

  lemma Spread3(q: int, w: int, p: int)
    ensures (q * 0x1_0000_0000 + w) * p == (q * p) * 0x1_0000_0000 + w * p
  {
  }

  /** The sign, which needs a free place in the digit buffer. */
  function SignText(z: string, negative: bool, f: Flags): (r: string)
    ensures r == "" || r == "-" || r == "+" || r == " "
  {
    if |z| >= NTOA_BUFFER_SIZE then ""
    else if negative then "-" else if f.plus then "+" else if f.space then " " else ""
  }

  /** The spaces in front of a text and behind it. */
  function Margins(t: string, width: Word, f: Flags): (int, int)
  {
    (if !f.left && !f.zeropad then width - |t| else 0, if f.left then width - |t| else 0)
  }

  lemma AlignedIs(t: string, width: Word, f: Flags)
    ensures Aligned(t, width, f) ==
            Repeat(' ', Margins(t, width, f).0) + t + Repeat(' ', Margins(t, width, f).1)
  {
  }

  /** A decimal field is spaces, at most one sign immediately before the digits, zeros and digits,
      and spaces. */
  lemma DecimalShape(d: string, negative: bool, prec: Word, width: Word, f: Flags)
    requires !f.hash
    ensures var w := FieldWidth(negative, width, f);
      var z := ZeroFilled(d, prec, w, f);
      var t := SignText(z, negative, f) + z;
      FieldText(d, negative, 10, prec, width, f) ==
      Repeat(' ', Margins(t, w, f).0) + t + Repeat(' ', Margins(t, w, f).1)
  {
    hide ZeroFilled, FieldWidth, Repeat, Margins, Aligned;
    var w := FieldWidth(negative, width, f);
    var z := ZeroFilled(d, prec, w, f);
    var t := SignText(z, negative, f) + z;
    assert FieldBody(d, negative, 10, prec, width, f) == t;
    AlignedIs(t, w, f);
  }

  /** The digits behind the zeros. */
  function FilledDigits(value: nat, base: nat, n: nat): (ds: seq<nat>)
    requires base >= 2
  {
    seq(n, _ => 0) + BufferDigits(value, base)
  }

  lemma ZerosInFront(d: string, prec: Word, width: Word, f: Flags)
    ensures var z := ZeroFilled(d, prec, width, f);
      |z| >= |d| && z == Repeat('0', |z| - |d|) + d
  {
  }

  lemma ZerosText(n: nat, ds: seq<nat>, upper: bool)
    requires AllBelow(ds, 36)
    ensures AllBelow(seq(n, _ => 0) + ds, 36)
    ensures Text(seq(n, _ => 0) + ds, upper) == Repeat('0', n) + Text(ds, upper)
  {
  }

  lemma FilledText(value: nat, base: nat, prec: Word, width: Word, f: Flags)
    requires 2 <= base <= 16 && value > 0
    ensures var d := IntDigits(value, base, f);
      var z := ZeroFilled(d, prec, width, f);
      var ds := FilledDigits(value, base, |z| - |d|);
      AllBelow(ds, base) && AllBelow(ds, 36) && z == Text(ds, f.upper) &&
      (Value(ds, base) == value <==> |Digits(value, base)| <= NTOA_BUFFER_SIZE)
  {
    hide Digits, Value, Text, Repeat, ZeroFilled, IntDigits, BufferDigits;
    BufferText(value, base, f);
    BufferDenotesIff(value, base);
    var d := IntDigits(value, base, f);
    ZerosInFront(d, prec, width, f);
    var n := |ZeroFilled(d, prec, width, f)| - |d|;
    LeadingZeros(n, BufferDigits(value, base), base);
    ZerosText(n, BufferDigits(value, base), f.upper);
  }

  /** Reading back a decimal field gives the number exactly when it has 32 bits and there is room
      for its minus sign: the zeros of a long precision or a wide zero-padded field take the place
      the sign needs. */
  lemma DecimalRoundTripIff(value: nat, negative: bool, prec: Word, width: Word, f: Flags)
    requires !f.hash && (negative ==> value > 0) && value < 0x1_0000_0000_0000_0000
    ensures ReadSigned(IntText(value, negative, 10, prec, width, f)) ==
              (if negative then -(value as int) else value)
            <==> value < 0x1_0000_0000 && (negative ==> SignFits(prec, width, f))
  {
    hide FieldText, FieldWidth, ZeroFilled, IntDigits, IntText, Margins, Repeat, ReadSigned, Digits, SignFits;
    PlainIntText(value, negative, 10, prec, width, f);
    var d := IntDigits(value, 10, f);
    var w := FieldWidth(negative, width, f);
    var z := ZeroFilled(d, prec, w, f);
    DecimalShape(d, negative, prec, width, f);
    DecimalDigits(value);
    SignHasRoomIff(value, prec, width, f);
    var sign := SignText(z, negative, f);
    var (a, b) := Margins(sign + z, w, f);
    ReadsShape(value, sign, prec, w, f, a, b);
  }

  /** What a caller can see to: a precision below 32, and a zero-padded width of at most 32. */
  predicate SignFits(prec: Word, width: Word, f: Flags)
  {
    f.left || (prec < NTOA_BUFFER_SIZE && (f.zeropad ==> width <= NTOA_BUFFER_SIZE))
  }

  lemma SignHasRoomIff(value: nat, prec: Word, width: Word, f: Flags)
    requires value > 0 ==> |Digits(value, 10)| <= 20
    ensures var z := ZeroFilled(IntDigits(value, 10, f), prec, FieldWidth(true, width, f), f);
      |z| < NTOA_BUFFER_SIZE <==> SignFits(prec, width, f)
  {
    hide Digits;
    if value > 0 {
      BufferText(value, 10, f);
    }
  }

  /** Reading spaces, a sign, the digits and spaces. */
  lemma ReadsShape(value: nat, sign: string, prec: Word, width: Word, f: Flags, a: int, b: int)
    requires |Digits(value, 10)| <= NTOA_BUFFER_SIZE
    requires sign == "" || sign == "-" || sign == "+" || sign == " "
    ensures ReadSigned(Repeat(' ', a) + (sign + ZeroFilled(IntDigits(value, 10, f), prec, width, f)) +
                       Repeat(' ', b)) ==
            if sign == "-" then -(Wrap(value) as int) else Wrap(value)
  {
    hide ZeroFilled, IntDigits, SkipSpaces, ParseNumber, Repeat;
    var z := ZeroFilled(IntDigits(value, 10, f), prec, width, f);
    var tail := z + Repeat(' ', b);
    NumberBehind(value, prec, width, f, b);
    assert Repeat(' ', a) + (sign + z) + Repeat(' ', b) == Repeat(' ', a) + (sign + tail);
    if sign == "-" || sign == "+" {
      SkipsSpaces(a, sign + tail);
      assert (sign + tail)[1..] == tail;
    } else {
      var n := if sign == " " then Max(a, 0) + 1 else a;
      OneSpaceMore(a, sign, tail);
      if z == "" {
        MoreSpaces(n, b);
        assert tail == Repeat(' ', b);
        SkipsAll(Max(n, 0) + Max(b, 0));
        NoNumberAtAll();
      } else {
        SkipsSpaces(n, tail);
      }
    }
  }

  lemma OneSpaceMore(a: int, sign: string, tail: string)
    requires sign == "" || sign == " "
    ensures Repeat(' ', a) + (sign + tail) == Repeat(' ', if sign == " " then Max(a, 0) + 1 else a) + tail
  {
  }

  lemma MoreSpaces(n: int, b: int)
    ensures Repeat(' ', n) + Repeat(' ', b) == Repeat(' ', Max(n, 0) + Max(b, 0))
  {
  }

  lemma NoNumberAtAll()
    ensures ParseNumber("", 0).0 == 0
  {
  }

  /** The zero-filled digits, followed by spaces, are read to the number. */
  lemma NumberBehind(value: nat, prec: Word, width: Word, f: Flags, b: int)
    requires |Digits(value, 10)| <= NTOA_BUFFER_SIZE
    ensures var z := ZeroFilled(IntDigits(value, 10, f), prec, width, f);
      ParseNumber(z + Repeat(' ', b), 0).0 == Wrap(value) &&
      (z != "" ==> z[0] != ' ' && z[0] != '-' && z[0] != '+') &&
      (z == "" ==> value == 0)
  {
    hide Digits, Value, ParseNumber, Text, ZeroFilled, Wrap, Pow, AllBelow, IntDigits;
    var d := IntDigits(value, 10, f);
    var z := ZeroFilled(d, prec, width, f);
    if value > 0 {
      FilledText(value, 10, prec, width, f);
      BufferText(value, 10, f);
      var ds := FilledDigits(value, 10, |z| - |d|);
      NumberOfDigits(ds, f.upper, Repeat(' ', b), 0);
      LeadCounts(0, ds, 10);
      LooksLikeDigit(ds, f.upper);
    } else {
      ZeroDigits(prec, width, f);
      ZeroBehind(|z|, b);
      WrapWord(0);
    }
  }

  lemma LooksLikeDigit(ds: seq<nat>, upper: bool)
    requires AllBelow(ds, 10) && AllBelow(ds, 36)
    ensures ds != [] ==> IsDigit(Text(ds, upper)[0])
  {
  }

  lemma ZeroDigits(prec: Word, width: Word, f: Flags)
    ensures var z := ZeroFilled(IntDigits(0, 10, f), prec, width, f);
      z == Repeat('0', |z|)
  {
  }

  lemma ZeroBehind(n: nat, b: int)
    ensures ParseNumber(Repeat('0', n) + Repeat(' ', b), 0).0 == 0
  {
    hide Value, ParseNumber;
    var ds := seq(n, _ => 0);
    assert Repeat('0', n) == Text(ds, false);
    NumberOfDigits(ds, false, Repeat(' ', b), 0);
    assert [0] + ds == seq(n + 1, _ => 0) + [];
    LeadingZeros(n + 1, [], 10);
    NoDigits(10);
  }

  // ----- whole conversions

  /** The number a decimal conversion is given. */
  function Given(n: Number): int
  {
    if n.NoNumber? then 0 else if n.negative then -(n.magnitude as int) else n.magnitude
  }

  /** A signed conversion is given the two's complement reading of its argument in the width of the
      length modifier; an unsigned one is given the argument, with `hh` and `h` cut to their width. */
  lemma GivenIs(a: Arg, signed: bool, f: Flags)
    requires Passable(a) && NumberOf(a, signed, f).Number?
    ensures var bits := if f.longlong then 64 else if f.long then 32 else if f.chr then 8
                        else if f.short then 16 else 32;
      var x: nat := if a.Int32? then a.w else a.x;
      Given(NumberOf(a, signed, f)) ==
      if signed then SignedBits(x, bits) else if bits == 8 then x % 0x100
      else if bits == 16 then x % 0x1_0000 else x
  {
  }

  /** `%d`, `%i` and `%u` with any flags, width, precision and length: what is written reads back as
      the number given. */
  lemma ConversionReadsBackIff(h: Head)
    requires h.Head? && h.rest != "" && h.args != [] && Passable(h.args[0])
    requires h.rest[0] == 'd' || h.rest[0] == 'i' || h.rest[0] == 'u'
    requires Convert(h).Rendered?
    ensures var g := IntFlags(h.f, h.rest[0]);
      var v := Given(NumberOf(h.args[0], h.rest[0] != 'u', g));
      ReadSigned(Convert(h).text) == v <==>
      -0x1_0000_0000 < v < 0x1_0000_0000 && (v < 0 ==> SignFits(h.prec, h.width, g))
  {
    hide ReadSigned, IntText, SignFits;
    var g := IntFlags(h.f, h.rest[0]);
    var n := NumberOf(h.args[0], h.rest[0] != 'u', g);
    DecimalRoundTripIff(n.magnitude, n.negative, h.prec, h.width, g);
  }

  /** A plain `%d` writes every `int`, the smallest included, so that it reads back. */
  lemma PlainDecimal(w: Word)
    ensures var o := Render("%d", [Int32(w)]);
      o.Rendered? && o.args == [] && ReadSigned(o.text) == Signed(w)
  {
    hide ReadSigned, Convert, ParseHead;
    var h := Head(NO_FLAGS, 0, 0, [Int32(w)], "d");
    PlainHead([Int32(w)]);
    assert "%d"[1..] == "d" && "d"[1..] == "";
    PlainGiven(h, w);
    ConversionReadsBackIff(h);
    assert Render("", []) == Rendered("", []);
    assert Convert(h).text + "" == Convert(h).text;
  }

  lemma PlainHead(args: seq<Arg>)
    ensures ParseHead("d", args) == Head(NO_FLAGS, 0, 0, args, "d")
  {
  }

  lemma PlainGiven(h: Head, w: Word)
    requires h == Head(NO_FLAGS, 0, 0, [Int32(w)], "d")
    ensures Convert(h).Rendered? && Convert(h).args == []
    ensures Given(NumberOf(h.args[0], true, IntFlags(h.f, 'd'))) == Signed(w)
    ensures SignFits(0, 0, IntFlags(h.f, 'd'))
  {
    hide IntText;
  }

  /** `%.32d` of -1 is written without a sign and reads as 1. */
  lemma SignLostExample()
    ensures Render("%.32d", [Int32(0xFFFF_FFFF)]) == Rendered(Repeat('0', 31) + "1", [])
    ensures ReadSigned(Repeat('0', 31) + "1") == 1
  {
    hide Convert, ParseHead, Repeat, ReadSigned;
    LongHead([Int32(0xFFFF_FFFF)]);
    LongOne();
    assert "%.32d"[1..] == ".32d" && "d"[1..] == "";
    assert Render("", []) == Rendered("", []);
    assert (Repeat('0', 31) + "1") + "" == Repeat('0', 31) + "1";
    OneReads();
  }

  lemma LongHead(args: seq<Arg>)
    ensures ParseHead(".32d", args) == Head(NO_FLAGS.(precision := true), 0, 32, args, "d")
  {
    assert ".32d"[1..] == "32d" && "32d"[1..] == "2d" && "2d"[1..] == "d";
    assert ParseNumber("d", 32) == (32, "d");
    assert ParseNumber("2d", 3) == (32, "d");
    assert ParseNumber("32d", 0) == (32, "d");
  }

  lemma LongOne()
    ensures Convert(Head(NO_FLAGS.(precision := true), 0, 32, [Int32(0xFFFF_FFFF)], "d")) ==
            Rendered(Repeat('0', 31) + "1", [])
  {
    hide IntText;
    var f := NO_FLAGS.(precision := true);
    assert IntFlags(f, 'd') == f;
    assert NumberOf(Int32(0xFFFF_FFFF), true, f) == Number(1, true);
    LongText(f);
  }

  lemma LongText(f: Flags)
    requires f == NO_FLAGS.(precision := true)
    ensures IntText(1, true, 10, 32, 0, f) == Repeat('0', 31) + "1"
  {
    hide IntDigits;
    PlainIntText(1, true, 10, 32, 0, f);
    OneDigit(f);
  }

  lemma OneDigit(f: Flags)
    ensures IntDigits(1, 10, f) == "1"
  {
    hide Digits;
    DigitsStep(1, 10);
    DigitsStep(0, 10);
    assert Digits(1, 10) == [1];
    assert [1][0..] == [1];
    assert Text([1], f.upper) == ['1'];
  }

  lemma OneReads()
    ensures ReadSigned(Repeat('0', 31) + "1") == 1
  {
    hide ParseNumber, Value, Digits;
    var ds := seq(31, _ => 0) + [1];
    assert Repeat('0', 31) + "1" == Text(ds, false) + "";
    NumberOfDigits(ds, false, "", 0);
    assert [0] + ds == seq(32, _ => 0) + [1];
    LeadingZeros(32, [1], 10);
    ValueSnoc([], 1, 10);
    assert [] + [1] == [1];
    NoDigits(10);
    assert SkipSpaces(Repeat('0', 31) + "1") == Repeat('0', 31) + "1";
  }
}
