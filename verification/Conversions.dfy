/** What a whole conversion of libc/printf.c shows, from its spelling and its arguments alone: the text
    between the spaces, the side the spaces are on, and the argument it takes. */
module Conversions {
  import opened Machine
  import opened Numerals
  import opened Format
  import opened FormatLaws
  import opened FieldLaws
  import opened AlternateForm
  import opened Grammar

  /** A conversion as it stands in a format. */
  function Written(s: Spec, c: char): string
    requires WellFormed(s)
  {
    "%" + Spelled(s) + [c]
  }

  /** A format that starts with a conversion is converted by its head, or not at all when an argument for
      a star is missing. */
  lemma FormatStep(s: Spec, c: char, t: string, args: seq<Arg>) returns (h: Head)
    requires WellFormed(s) && Ends(s, c)
    ensures StarsGiven(s, args) ==>
              Says(h, s, args, [c] + t) &&
              Render(Written(s, c) + t, args) ==
              if Convert(h).Rendered? then Prepend(Convert(h).text, Render(t, Convert(h).args)) else Convert(h)
    ensures !StarsGiven(s, args) ==> Render(Written(s, c) + t, args) == BadArgument
  {
    hide ParseHead, Convert, Ends, Spelled, Says;
    h := ParseHead(Spelled(s) + ([c] + t), args);
    HeadOfSpelling(s, [c] + t, args);
    var u := Written(s, c) + t;
    assert u[0] == '%' && u[1..] == Spelled(s) + ([c] + t);
    assert ([c] + t)[1..] == t;
    SaysHead(s, args, [c] + t);
  }

  lemma SaysHead(s: Spec, args: seq<Arg>, rest: string)
    ensures StarsGiven(s, args) ==> forall h :: Says(h, s, args, rest) ==> h.Head? && h.rest == rest
  {
  }

  /** `%s` with any flags, width and precision shows the string up to the precision, at the proper end of
      a field that is just wide enough; it takes one argument, a string. */
  lemma StringShown(s: Spec, t: string, args: seq<Arg>) returns (text: string)
    requires WellFormed(s)
    ensures var n := Stars(s);
      var o := Render(Written(s, 's') + t, args);
      if StarsGiven(s, args) && n < |args| && args[n].Str? then
        var str := args[n].s;
        o == Prepend(text, Render(t, args[n + 1..])) &&
        ShowsIn(text, if s.precision.NoPrecision? then str else str[..Min(PrecisionOf(s, args), |str|)],
                WidthOf(s, args), LeftAligned(s, args))
      else o == BadArgument
  {
    hide StrText, ShowsIn, WidthOf, PrecisionOf, LeftAligned, Written;
    var h := FormatStep(s, 's', t, args);
    text := "";
    if StarsGiven(s, args) && h.args != [] && h.args[0].Str? {
      text := Convert(h).text;
      TextFields(0, h.args[0].s, h.prec, h.width, h.f);
    }
  }

  /** `%c` shows the low byte of its argument, whatever the precision. */
  lemma CharacterShown(s: Spec, t: string, args: seq<Arg>) returns (text: string)
    requires WellFormed(s)
    ensures var n := Stars(s);
      var o := Render(Written(s, 'c') + t, args);
      if StarsGiven(s, args) && n < |args| && args[n].Int32? then
        o == Prepend(text, Render(t, args[n + 1..])) &&
        ShowsIn(text, [(args[n].w % 256) as char], WidthOf(s, args), LeftAligned(s, args))
      else o == BadArgument
  {
    hide CharText, ShowsIn, WidthOf, PrecisionOf, LeftAligned, Written;
    var h := FormatStep(s, 'c', t, args);
    text := "";
    if StarsGiven(s, args) && h.args != [] && h.args[0].Int32? {
      text := Convert(h).text;
      TextFields(h.args[0].w, "", h.prec, h.width, h.f);
    }
  }

  /** A character that is no conversion, the percent sign among them, stands for itself and takes no
      argument, whatever is in front of it. */
  lemma OtherCharacterShown(s: Spec, c: char, t: string, args: seq<Arg>)
    requires WellFormed(s) && Ends(s, c) && c !in "diuxXobcspfFeEgG"
    ensures Render(Written(s, c) + t, args) ==
            if StarsGiven(s, args) then Prepend([c], Render(t, args[Stars(s)..])) else BadArgument
  {
    hide WidthOf, PrecisionOf, LeftAligned, Written;
    var h := FormatStep(s, c, t, args);
  }

  // ----- one integer

  /** Zeros until there are `least` digits, and the digits. */
  function Filled(digits: string, least: int): (y: string)
  {
    Repeat('0', least - |digits|) + digits
  }

  /** The alternate form puts a prefix in front. Without a precision, digits that just fill the `room` the
      width leaves give way to it: zeros of the padding or not. */
  function Headed(y: string, alternate: bool, base: nat, upper: bool, room: int, precision: bool): (r: string)
  {
    if !alternate then y
    else
      var k := if precision || y == "" || |y| != room then 0 else if base == 16 && |y| > 1 then 2 else 1;
      Prefix(base, upper) + y[k..]
  }

  function Sign(negative: bool, plus: bool, space: bool): (t: string)
    ensures |t| <= 1
  {
    if negative then "-" else if plus then "+" else if space then " " else ""
  }

  /** No spaces and no signs. */
  predicate Solid(t: string)
  {
    forall i | 0 <= i < |t| :: t[i] != ' ' && t[i] != '-' && t[i] != '+'
  }

  /** How many digits a field asks for. */
  function Least(sign: nat, prec: Word, width: Word, left: bool, zeropad: bool): int
  {
    if left then 0 else Max(prec, if zeropad then width - sign else 0)
  }

  /** The room zero padding leaves to the digits, or the width. */
  function Room(sign: nat, width: Word, left: bool, zeropad: bool): int
  {
    if zeropad && !left then width - sign else width
  }

  lemma DigitsHeld(d: string, full: string, sign: nat, negative: bool, prec: Word, width: Word, f: Flags)
    requires Solid(d) && |d| == Min(|full|, NTOA_BUFFER_SIZE) && (|full| <= NTOA_BUFFER_SIZE ==> d == full)
    requires sign == if negative || f.plus || f.space then 1 else 0
    ensures var z := ZeroFilled(d, prec, FieldWidth(negative, width, f), f);
      var y := Filled(full, Least(sign, prec, width, f.left, f.zeropad));
      Solid(z) && if |y| <= NTOA_BUFFER_SIZE then z == y else |z| == NTOA_BUFFER_SIZE
  {
    hide Repeat;
    var n := Least(sign, prec, width, f.left, f.zeropad);
    var z := ZeroFilled(d, prec, FieldWidth(negative, width, f), f);
    ZerosInFront(d, prec, FieldWidth(negative, width, f), f);
    SolidZeros(|z| - |d|, d);
    NoZeros(n - |full|);
  }

  lemma SolidZeros(n: int, d: string)
    requires Solid(d)
    ensures Solid(Repeat('0', n) + d)
  {
  }

  lemma NoZeros(n: int)
    ensures n <= 0 ==> Repeat('0', n) == Repeat('0', 0)
  {
  }

  /** The prefix is put in front of what the buffer holds; when it does not fit, the buffer is full. */
  lemma PrefixHeld(z: string, y: string, base: nat, prec: Word, width: Word, room: int, f: Flags)
    requires f.hash ==> base == 2 || base == 8 || base == 16
    requires f.hash ==> y != "" && (f.precision || prec == 0) && (|y| == room <==> |y| == width)
    requires Solid(z) && if |y| <= NTOA_BUFFER_SIZE then z == y else |z| == NTOA_BUFFER_SIZE
    ensures var r := Prefixed(z, base, prec, width, f);
      var Y := Headed(y, f.hash, base, f.upper, room, f.precision);
      Solid(r) && |Y| >= |y| && if |Y| <= NTOA_BUFFER_SIZE then r == Y else |r| == NTOA_BUFFER_SIZE
  {
    if f.hash {
      PrefixText(z, base, prec, width, f);
      SolidPrefix(base, f.upper);
    }
  }

  lemma SolidPrefix(base: nat, upper: bool)
    ensures Solid(Prefix(base, upper))
  {
  }

  /** What the digit buffer holds in the end: the number, if it fits; else 32 characters without the
      sign. */
  lemma BodyHeld(d: string, full: string, negative: bool, base: nat, prec: Word, width: Word, f: Flags)
    requires f.hash ==> (base == 2 || base == 8 || base == 16) && full != "" && (f.precision || prec == 0)
    requires Solid(d) && |d| == Min(|full|, NTOA_BUFFER_SIZE) && (|full| <= NTOA_BUFFER_SIZE ==> d == full)
    ensures var sign := Sign(negative, f.plus, f.space);
      var y := Filled(full, Least(|sign|, prec, width, f.left, f.zeropad));
      var Y := Headed(y, f.hash, base, f.upper, Room(|sign|, width, f.left, f.zeropad), f.precision);
      var b := FieldBody(d, negative, base, prec, width, f);
      |Y| >= |y| && if |sign + Y| <= NTOA_BUFFER_SIZE then b == sign + Y
      else |b| == NTOA_BUFFER_SIZE && Solid(b) && (|Y| == NTOA_BUFFER_SIZE ==> b == Y)
  {
    hide ZeroFilled, FieldWidth, Repeat, Solid, Least, Prefixed, Headed, Room;
    var sign := Sign(negative, f.plus, f.space);
    DigitsHeld(d, full, |sign|, negative, prec, width, f);
    var y := Filled(full, Least(|sign|, prec, width, f.left, f.zeropad));
    var w, room := FieldWidth(negative, width, f), Room(|sign|, width, f.left, f.zeropad);
    RoomIsWidth(|y|, |sign|, negative, width, f);
    PrefixHeld(ZeroFilled(d, prec, w, f), y, base, prec, w, room, f);
    var r := Prefixed(ZeroFilled(d, prec, w, f), base, prec, w, f);
    assert "" + r == r;
  }

  lemma RoomIsWidth(n: nat, sign: nat, negative: bool, width: Word, f: Flags)
    requires sign == if negative || f.plus || f.space then 1 else 0
    ensures n > 0 ==> (n == Room(sign, width, f.left, f.zeropad) <==> n == FieldWidth(negative, width, f))
  {
  }

  /** A field shows its number exactly when the number fits the digit buffer; a space for a sign that does
      not fit is made up for by the field's own spaces. */
  predicate BufferHolds(u: string, width: Word, left: bool, zeropad: bool)
  {
    |u| <= NTOA_BUFFER_SIZE ||
    (|u| == NTOA_BUFFER_SIZE + 1 && u[0] == ' ' && width > NTOA_BUFFER_SIZE && !left && !zeropad)
  }

  /** A text between the spaces of its field. */
  function Spaced(b: string, width: Word, left: bool, zeropad: bool): (t: string)
  {
    (if !left && !zeropad then Repeat(' ', width - |b|) else "") + b +
    (if left then Repeat(' ', width - |b|) else "")
  }

  lemma WholeFits(u: string, width: Word, left: bool, zeropad: bool)
    requires zeropad && !left ==> |u| >= width
    ensures ShowsIn(Spaced(u, width, left, zeropad), u, width, left)
  {
  }

  lemma CutShownIff(b: string, sign: string, y: string, width: Word, left: bool, zeropad: bool)
    requires |b| == NTOA_BUFFER_SIZE < |sign| + |y| && Solid(b) && Solid(y)
    requires sign == "" || sign == " " || sign == "-" || sign == "+"
    ensures ShowsIn(Spaced(b, width, left, zeropad), sign + y, width, left) <==>
            |y| == NTOA_BUFFER_SIZE && sign == " " && width > NTOA_BUFFER_SIZE && !left && !zeropad && b == y
  {
    var t, u := Spaced(b, width, left, zeropad), sign + y;
    if |t| == Max(width, |u|) && width >= |u| {
      if left {
        assert t[..|u|][0] == t[0] == b[0];
        assert |y| > NTOA_BUFFER_SIZE ==> t[..|u|][NTOA_BUFFER_SIZE] == ' ';
      } else if !zeropad {
        var gap := |t| - |u|;
        assert t[gap..][0] == t[gap] == ' ';
        assert t[gap..][|u| - NTOA_BUFFER_SIZE..] == b;
        assert |u| > NTOA_BUFFER_SIZE + 1 ==> t[gap..][1] == ' ';
      }
    }
  }

  lemma FieldSpaced(d: string, negative: bool, base: nat, prec: Word, width: Word, f: Flags)
    ensures FieldText(d, negative, base, prec, width, f) ==
            Spaced(FieldBody(d, negative, base, prec, width, f), width, f.left, f.zeropad)
  {
    hide FieldBody;
  }

  lemma ZerosReachWidth(sign: string, full: string, prec: Word, width: Word, left: bool, zeropad: bool)
    requires zeropad && !left
    ensures |sign| + |Filled(full, Least(|sign|, prec, width, left, zeropad))| >= width
  {
  }

  lemma SolidParts(y: string, alternate: bool, base: nat, upper: bool, room: int, precision: bool)
    requires Solid(y)
    ensures Solid(Headed(y, alternate, base, upper, room, precision))
  {
    SolidPrefix(base, upper);
  }

  lemma FieldShownIff(d: string, full: string, negative: bool, base: nat, prec: Word, width: Word, f: Flags)
    requires f.hash ==> (base == 2 || base == 8 || base == 16) && full != "" && (f.precision || prec == 0)
    requires Solid(d) && |d| == Min(|full|, NTOA_BUFFER_SIZE) && (|full| <= NTOA_BUFFER_SIZE ==> d == full)
    requires Solid(full)
    ensures var sign := Sign(negative, f.plus, f.space);
      var y := Filled(full, Least(|sign|, prec, width, f.left, f.zeropad));
      var u := sign + Headed(y, f.hash, base, f.upper, Room(|sign|, width, f.left, f.zeropad), f.precision);
      ShowsIn(FieldText(d, negative, base, prec, width, f), u, width, f.left) <==>
      BufferHolds(u, width, f.left, f.zeropad)
  {
    hide FieldBody, FieldText, Solid, ShowsIn, Spaced, Filled, Least, Headed, Room;
    var sign := Sign(negative, f.plus, f.space);
    var n, room := Least(|sign|, prec, width, f.left, f.zeropad), Room(|sign|, width, f.left, f.zeropad);
    var y := Filled(full, n);
    var Y := Headed(y, f.hash, base, f.upper, room, f.precision);
    var u := sign + Y;
    BodyHeld(d, full, negative, base, prec, width, f);
    FieldSpaced(d, negative, base, prec, width, f);
    SolidFilled(full, n);
    SolidParts(y, f.hash, base, f.upper, room, f.precision);
    if |u| <= NTOA_BUFFER_SIZE {
      if f.zeropad && !f.left {
        ZerosReachWidth(sign, full, prec, width, f.left, f.zeropad);
      }
      WholeFits(u, width, f.left, f.zeropad);
    } else {
      assert sign != "" ==> u[0] == sign[0];
      assert sign == "" ==> u == Y;
      CutShownIff(FieldBody(d, negative, base, prec, width, f), sign, Y, width, f.left, f.zeropad);
      SolidStart(Y);
    }
  }

  lemma SolidFilled(full: string, n: int)
    requires Solid(full)
    ensures Solid(Filled(full, n))
  {
    SolidZeros(n - |full|, full);
  }

  lemma SolidStart(y: string)
    requires Solid(y) && y != ""
    ensures y[0] != ' '
  {
  }

  /** The digits of a number, none for zero with a precision. */
  function NumberDigits(v: nat, base: nat, upper: bool, precision: bool): (t: string)
    requires 2 <= base <= 16
  {
    DigitsDenote(v, base);
    if v == 0 then (if precision then "" else "0") else DigitText(Digits(v, base), upper)
  }

  lemma BufferPart(v: nat, base: nat, f: Flags)
    requires 2 <= base <= 16
    ensures var d, full := IntDigits(v, base, f), NumberDigits(v, base, f.upper, f.precision);
      Solid(d) && Solid(full) && |d| == Min(|full|, NTOA_BUFFER_SIZE) &&
      (|full| <= NTOA_BUFFER_SIZE ==> d == full)
  {
    hide Digits;
    if v > 0 {
      BufferText(v, base, f);
      DigitsDenote(v, base);
      TextIsTable(Digits(v, base), f.upper);
      SolidText(Digits(v, base), f.upper);
      SolidText(BufferDigits(v, base), f.upper);
      BufferDenotesIff(v, base);
    }
  }

  lemma SolidText(ds: seq<nat>, upper: bool)
    requires AllBelow(ds, 36)
    ensures Solid(Text(ds, upper))
  {
  }

  /** The text between the spaces of the field. */
  function Whole(v: nat, sign: string, base: nat, prec: Word, width: Word, left: bool, zeropad: bool,
                 alternate: bool, upper: bool, precision: bool): (u: string)
    requires 2 <= base <= 16
  {
    var y := Filled(NumberDigits(v, base, upper, precision), Least(|sign|, prec, width, left, zeropad));
    sign + Headed(y, alternate && v != 0, base, upper, Room(|sign|, width, left, zeropad), precision)
  }

  /** The text of an integer. */
  lemma IntShownIff(v: nat, negative: bool, base: nat, prec: Word, width: Word, f: Flags)
    requires 2 <= base <= 16 && (f.precision || prec == 0)
    requires f.hash ==> base == 2 || base == 8 || base == 16
    ensures var u := Whole(v, Sign(negative, f.plus, f.space), base, prec, width, f.left, f.zeropad,
                           f.hash, f.upper, f.precision);
      ShowsIn(IntText(v, negative, base, prec, width, f), u, width, f.left) <==>
      BufferHolds(u, width, f.left, f.zeropad)
  {
    hide IntText, FieldText, IntDigits, ShowsIn, Whole, Sign, BufferHolds;
    IntTextIs(v, negative, base, prec, width, f);
    if v == 0 {
      HashOff(f);
      DigitsShownIff(v, negative, base, prec, width, f.(hash := false), f.hash);
    } else {
      DigitsShownIff(v, negative, base, prec, width, f, f.hash);
    }
  }

  lemma HashOff(f: Flags)
    ensures var g := f.(hash := false);
      !g.hash && g.left == f.left && g.zeropad == f.zeropad && g.plus == f.plus && g.space == f.space &&
      g.upper == f.upper && g.precision == f.precision
  {
  }

  lemma DigitsShownIff(v: nat, negative: bool, base: nat, prec: Word, width: Word, g: Flags, alternate: bool)
    requires 2 <= base <= 16 && (g.precision || prec == 0) && g.hash == (alternate && v != 0)
    requires g.hash ==> base == 2 || base == 8 || base == 16
    ensures var u := Whole(v, Sign(negative, g.plus, g.space), base, prec, width, g.left, g.zeropad,
                           alternate, g.upper, g.precision);
      ShowsIn(FieldText(IntDigits(v, base, g), negative, base, prec, width, g), u, width, g.left) <==>
      BufferHolds(u, width, g.left, g.zeropad)
  {
    hide FieldText, IntDigits, ShowsIn, Filled, Least, Sign, NumberDigits, BufferHolds, Headed, Room;
    BufferPart(v, base, g);
    if v != 0 {
      SomeDigits(v, base, g.upper, g.precision);
    }
    FieldShownIff(IntDigits(v, base, g), NumberDigits(v, base, g.upper, g.precision), negative, base, prec, width, g);
  }

  lemma SomeDigits(v: nat, base: nat, upper: bool, precision: bool)
    requires 2 <= base <= 16 && v > 0
    ensures NumberDigits(v, base, upper, precision) != ""
  {
    hide Digits;
    DigitsDenote(v, base);
  }

  // ----- integer conversions

  const RADIX: map<char, nat> :=
    map['d' := 10, 'i' := 10, 'u' := 10, 'x' := 16, 'X' := 16, 'o' := 8, 'b' := 2]

  function Span(bits: nat): int
    requires bits in {8, 16, 32, 64}
  {
    if bits == 8 then 0x100 else if bits == 16 then 0x1_0000
    else if bits == 32 then 0x1_0000_0000 else 0x1_0000_0000_0000_0000
  }

  /** An argument is as wide as the length modifier wants it; narrower ones are passed as an `int`. */
  predicate Fitting(a: Arg, bits: nat)
  {
    if bits == 64 then a.Int64? else a.Int32?
  }

  /** `x` is what the low `bits` bits of the argument mean. */
  predicate Means(a: Arg, bits: nat, signed: bool, x: int)
    requires bits in {8, 16, 32, 64} && Fitting(a, bits)
  {
    (x - (if a.Int32? then a.w else a.x)) % Span(bits) == 0 &&
    if signed then -(Span(bits) / 2) <= x < Span(bits) / 2 else 0 <= x < Span(bits)
  }

  predicate LengthSays(f: Flags, p: LengthPart)
  {
    f.chr == p.HH? && f.short == (p.H? || p.HH?) &&
    f.long == (p.L? || p.LL? || p.Z? || p.T?) && f.longlong == (p.LL? || p.J?)
  }

  lemma LowBits(y: nat, m: nat)
    requires m > 0 && m % 2 == 0
    ensures var v := if y % m < m / 2 then y % m else y % m - m;
      -(m / 2) <= v < m / 2 && (v - y) % m == 0 && (y % m - y) % m == 0
  {
    DivMod(y, m);
    DivUnique(y % m - y, m, -(y / m), 0);
    DivUnique(y % m - m - y, m, -(y / m) - 1, 0);
  }

  /** The number a cut argument comes to. */
  lemma CutMeans(y: nat, bits: nat, signed: bool)
    requires bits in {8, 16, 32, 64} && (bits <= 16 || y < Span(bits))
    ensures var n := Cut(y, bits, signed);
      n.Number? &&
      var x: int := if n.negative then -(n.magnitude as int) else n.magnitude;
      (x - y) % Span(bits) == 0 && (n.negative <==> x < 0) &&
      if signed then -(Span(bits) / 2) <= x < Span(bits) / 2 else 0 <= x < Span(bits)
  {
    hide Span, Cut;
    SpanIsEven(bits);
    LowBits(y, Span(bits));
    CutIsLow(y, bits, signed);
  }

  lemma SpanIsEven(bits: nat)
    requires bits in {8, 16, 32, 64}
    ensures Span(bits) > 0 && Span(bits) % 2 == 0
  {
  }

  lemma CutIsLow(y: nat, bits: nat, signed: bool)
    requires bits in {8, 16, 32, 64} && (bits <= 16 || y < Span(bits))
    ensures var m := Span(bits);
      var v := if y % m < m / 2 then y % m else y % m - m;
      Cut(y, bits, signed) ==
      if signed then Number(if v > 0 then v else -v, v < 0) else Number(y % m, false)
  {
  }

  lemma NumberIsCut(a: Arg, p: LengthPart, signed: bool, f: Flags)
    requires LengthSays(f, p)
    ensures NumberOf(a, signed, f) ==
            if Fitting(a, BitsOf(p)) then Cut(if a.Int32? then a.w else a.x, BitsOf(p), signed) else NoNumber
  {
    hide Cut;
    match p
    case HH =>
    case H =>
    case LL =>
    case J =>
    case _ =>
  }

  lemma ArgumentMeans(a: Arg, p: LengthPart, signed: bool, f: Flags)
    requires LengthSays(f, p) && Passable(a)
    ensures var n := NumberOf(a, signed, f);
      (n.Number? <==> Fitting(a, BitsOf(p))) &&
      (n.Number? ==>
         var x: int := if n.negative then -(n.magnitude as int) else n.magnitude;
         Means(a, BitsOf(p), signed, x) && (n.negative <==> x < 0))
  {
    hide NumberOf, Cut, LengthSays, Span, BitsOf;
    NumberIsCut(a, p, signed, f);
    if Fitting(a, BitsOf(p)) {
      FittingBound(a, BitsOf(p));
      CutMeans(if a.Int32? then a.w else a.x, BitsOf(p), signed);
    }
  }

  lemma FittingBound(a: Arg, bits: nat)
    requires bits in {8, 16, 32, 64} && Fitting(a, bits) && Passable(a)
    ensures bits <= 16 || (if a.Int32? then a.w else a.x) < Span(bits)
  {
  }

  /** The same alignment, precision and length. */
  predicate Untouched(f: Flags, g: Flags)
  {
    g.left == f.left && g.precision == f.precision && g.chr == f.chr && g.short == f.short &&
    g.long == f.long && g.longlong == f.longlong
  }

  lemma HashStep(f: Flags, c: char)
    ensures Untouched(f, HashFor(f, c)) && HashFor(f, c).zeropad == f.zeropad
    ensures HashFor(f, c).plus == f.plus && HashFor(f, c).space == f.space && HashFor(f, c).upper == f.upper
  {
    if BaseOf(c) == 10 {
    } else {
    }
  }

  lemma UpperStep(f: Flags, c: char)
    ensures Untouched(f, UpperFor(f, c)) && UpperFor(f, c).zeropad == f.zeropad
    ensures UpperFor(f, c).plus == f.plus && UpperFor(f, c).space == f.space
  {
    if c == 'X' {
    } else {
    }
  }

  lemma SignStep(f: Flags, c: char)
    ensures Untouched(f, SignFor(f, c)) && SignFor(f, c).zeropad == f.zeropad
  {
    if c != 'd' && c != 'i' {
    } else {
    }
  }

  lemma PadStep(f: Flags)
    ensures Untouched(f, PadFor(f))
  {
    if f.precision {
    } else {
    }
  }

  lemma IntFlagsAre(f: Flags, c: char)
    requires c in RADIX
    ensures BaseOf(c) == RADIX[c]
    ensures var g := IntFlags(f, c);
      Untouched(f, g) && g.zeropad == (f.zeropad && !f.precision) &&
      g.hash == (f.hash && RADIX[c] != 10) && g.upper == (f.upper || c == 'X') &&
      g.plus == (f.plus && (c == 'd' || c == 'i')) && g.space == (f.space && (c == 'd' || c == 'i'))
  {
    hide HashFor, UpperFor, SignFor, PadFor;
    var f1 := HashFor(f, c);
    var f2 := UpperFor(f1, c);
    var f3 := SignFor(f2, c);
    HashStep(f, c);
    UpperStep(f1, c);
    SignStep(f2, c);
    PadStep(f3);
  }

  /** The text between the spaces: a sign, which an unsigned conversion has none of, the prefix of the
      alternate form, which a decimal number and zero have none of, zeros and digits. Left aligned, a
      number gets no zeros, not even those of the precision. */
  function Shown(s: Spec, c: char, args: seq<Arg>, x: int): (u: string)
    requires StarsGiven(s, args) && c in RADIX
  {
    var signed := c == 'd' || c == 'i';
    var sign := Sign(x < 0, signed && '+' in s.flags, signed && ' ' in s.flags);
    Whole(if x < 0 then -x else x, sign, RADIX[c], PrecisionOf(s, args), WidthOf(s, args), LeftAligned(s, args),
          ZeroPadded(s), '#' in s.flags && RADIX[c] != 10, c == 'X', !s.precision.NoPrecision?)
  }

  /** A precision turns zero padding off. */
  predicate ZeroPadded(s: Spec)
  {
    '0' in s.flags && s.precision.NoPrecision?
  }

  /** The text of an integer conversion shows the number `x` exactly when it fits the digit buffer. */
  predicate ShowsNumberIff(text: string, s: Spec, c: char, args: seq<Arg>, x: int)
    requires StarsGiven(s, args) && c in RADIX
  {
    var (u, w, left) := (Shown(s, c, args, x), WidthOf(s, args), LeftAligned(s, args));
    ShowsIn(text, u, w, left) <==> BufferHolds(u, w, left, ZeroPadded(s))
  }

  /** What an integer conversion writes, with every flag, width, precision and length modifier: one
      argument is taken, of the width the modifier asks for; its low bits, signed for `d` and `i`, are the
      number `x`; and the field shows `x`, at the proper end and with no more spaces than the width asks
      for, exactly when it fits the digit buffer. */
  lemma IntegerShownIff(s: Spec, c: char, t: string, args: seq<Arg>) returns (text: string, x: int)
    requires WellFormed(s) && c in RADIX && forall a | a in args :: Passable(a)
    ensures var n, signed := Stars(s), c == 'd' || c == 'i';
      var o := Render(Written(s, c) + t, args);
      if StarsGiven(s, args) && n < |args| && Fitting(args[n], BitsOf(s.length)) then
        o == Prepend(text, Render(t, args[n + 1..])) && Means(args[n], BitsOf(s.length), signed, x) &&
        ShowsNumberIff(text, s, c, args, x)
      else o == BadArgument
  {
    hide WidthOf, PrecisionOf, LeftAligned, Written, Means, BitsOf, Fitting, Convert, ShowsNumberIff, FlagsSay;
    text, x := "", 0;
    var h := FormatStep(s, c, t, args);
    if StarsGiven(s, args) {
      ConvertsInteger(h);
      if h.args != [] {
        assert h.args[0] in args;
        x := NumberConverted(h, s, args);
        if Fitting(h.args[0], BitsOf(s.length)) {
          text := Convert(h).text;
        }
      }
    }
  }

  /** The flags an integer conversion is left with, from its spelling. */
  lemma FlagsLeft(h: Head, s: Spec, args: seq<Arg>, c: char)
    requires StarsGiven(s, args) && h.Head? && FlagsSay(h.f, s, args) && c in RADIX
    ensures var g, signed := IntFlags(h.f, c), c == 'd' || c == 'i';
      g.left == LeftAligned(s, args) && g.zeropad == ZeroPadded(s) && LengthSays(g, s.length) &&
      g.precision == !s.precision.NoPrecision? && g.upper == (c == 'X') &&
      g.plus == (signed && '+' in s.flags) && g.space == (signed && ' ' in s.flags) &&
      g.hash == ('#' in s.flags && RADIX[c] != 10)
  {
    hide IntFlags, LeftAligned, Untouched;
    IntFlagsAre(h.f, c);
    LengthKept(h.f, IntFlags(h.f, c), s.length);
  }

  lemma NoPrecisionIsZero(s: Spec, args: seq<Arg>)
    requires StarsGiven(s, args)
    ensures s.precision.NoPrecision? ==> PrecisionOf(s, args) == 0
  {
  }

  lemma NumberConverted(h: Head, s: Spec, args: seq<Arg>) returns (x: int)
    requires StarsGiven(s, args) && h.Head? && Says(h, s, args, h.rest)
    requires h.rest != "" && h.rest[0] in RADIX && h.args != [] && Passable(h.args[0])
    ensures var c, a := h.rest[0], h.args[0];
      if Fitting(a, BitsOf(s.length)) then
        Convert(h).Rendered? && Convert(h).args == h.args[1..] &&
        Means(a, BitsOf(s.length), c == 'd' || c == 'i', x) &&
        ShowsNumberIff(Convert(h).text, s, c, args, x)
      else Convert(h) == BadArgument
  {
    hide IntText, ShowsIn, WidthOf, PrecisionOf, LeftAligned, Means, NumberOf, BitsOf, IntFlags, BufferHolds,
         Whole, Fitting, Convert, ZeroPadded, LengthSays, FlagsSay;
    var c := h.rest[0];
    var signed, g := c == 'd' || c == 'i', IntFlags(h.f, c);
    ConvertsInteger(h);
    FlagsLeft(h, s, args, c);
    ArgumentMeans(h.args[0], s.length, signed, g);
    var v := NumberOf(h.args[0], signed, g);
    x := 0;
    if v.Number? {
      x := if v.negative then -(v.magnitude as int) else v.magnitude;
      NoPrecisionIsZero(s, args);
      IntShownIff(v.magnitude, v.negative, RADIX[c], h.prec, h.width, g);
    }
  }

  lemma ConvertsInteger(h: Head)
    requires h.Head? && h.rest != "" && h.rest[0] in RADIX
    ensures h.args == [] ==> Convert(h) == BadArgument
    ensures h.args != [] ==>
              var c, g := h.rest[0], IntFlags(h.f, h.rest[0]);
              var v := NumberOf(h.args[0], c == 'd' || c == 'i', g);
              Convert(h) ==
              if v.NoNumber? then BadArgument
              else Rendered(IntText(v.magnitude, v.negative, RADIX[c], h.prec, h.width, g), h.args[1..])
  {
    hide IntText, NumberOf, IntFlags;
  }

  lemma LengthKept(f: Flags, g: Flags, p: LengthPart)
    requires LengthSays(f, p) && Untouched(f, g)
    ensures LengthSays(g, p) && g.left == f.left && g.precision == f.precision
  {
  }

  /** `%p` shows the address with upper-case hexadecimal digits, filled with zeros to eight; unlike an
      unsigned number it keeps the plus and the space flag. */
  lemma AddressShownIff(s: Spec, t: string, args: seq<Arg>) returns (text: string)
    requires WellFormed(s)
    ensures var n := Stars(s);
      var o := Render(Written(s, 'p') + t, args);
      if StarsGiven(s, args) && n < |args| && args[n].Int32? then
        var w, left, sign := args[n].w, LeftAligned(s, args), Sign(false, '+' in s.flags, ' ' in s.flags);
        var u := Whole(w, sign, 16, PrecisionOf(s, args), 8, left, true, '#' in s.flags, true,
                       !s.precision.NoPrecision?);
        o == Prepend(text, Render(t, args[n + 1..])) &&
        (ShowsIn(text, u, 8, left) <==> BufferHolds(u, 8, left, true))
      else o == BadArgument
  {
    hide IntText, ShowsIn, WidthOf, PrecisionOf, LeftAligned, Written, BufferHolds, Whole, AddressFlags;
    text := "";
    var h := FormatStep(s, 'p', t, args);
    if StarsGiven(s, args) && h.args != [] && h.args[0].Int32? {
      text := Convert(h).text;
      var g, w := AddressFlags(h.f), h.args[0].w;
      AddressKeeps(h.f);
      NoPrecisionIsZero(s, args);
      IntShownIff(w, false, 16, h.prec, 8, g);
    }
  }

  lemma AddressKeeps(f: Flags)
    ensures Untouched(f, AddressFlags(f))
  {
  }

  // ----- examples

  const PLAIN: Spec := Spec("", NoWidth, NoPrecision, NoLength)

  /** A plain `%s` writes the string. */
  lemma PlainString(str: string)
    ensures Render("%s", [Str(str)]) == Rendered(str, [])
  {
    hide Render;
    var text := StringShown(PLAIN, "", [Str(str)]);
    assert Written(PLAIN, 's') + "" == "%s" && [Str(str)][1..] == [];
    EmptyRender([]);
    assert text[0..] == text && text + "" == text;
  }

  lemma EmptyRender(args: seq<Arg>)
    ensures Render("", args) == Rendered("", args)
  {
  }

  /** The free total of the boot heap, as `%zu` writes it: all 32 bits count. */
  lemma PlainSizeExample()
    ensures Render("%zu", [Int32(8290304)]) == Rendered("8290304", [])
  {
    hide Render, Digits, NumberDigits;
    var s := PLAIN.(length := Z);
    var text, x := IntegerShownIff(s, 'u', "", [Int32(8290304)]);
    assert Written(s, 'u') + "" == "%zu" && [Int32(8290304)][1..] == [];
    EmptyRender([]);
    assert x == 8290304;
    SevenDigits();
    assert Filled("8290304", 0) == "8290304";
    assert Shown(s, 'u', [Int32(8290304)], x) == "8290304";
    assert text[0..] == text && text + "" == text;
  }

  lemma FourDigits()
    ensures Digits(8290, 10) == [8, 2, 9, 0]
  {
    hide Digits;
    DigitsStep(8290, 10);
    DigitsStep(829, 10);
    DigitsStep(82, 10);
    DigitsStep(8, 10);
    DigitsStep(0, 10);
  }

  lemma SevenDigits()
    ensures NumberDigits(8290304, 10, false, false) == "8290304"
  {
    hide Digits, DigitText;
    FourDigits();
    DigitsStep(82903, 10);
    DigitsStep(829030, 10);
    DigitsStep(8290304, 10);
    assert Digits(82903, 10) == [8, 2, 9, 0, 3];
    assert Digits(829030, 10) == [8, 2, 9, 0, 3, 0];
    assert Digits(8290304, 10) == [8, 2, 9, 0, 3, 0, 4];
    SevenCharacters();
  }

  lemma SevenCharacters()
    ensures DigitText([8, 2, 9, 0, 3, 0, 4], false) == "8290304"
  {
  }
}
