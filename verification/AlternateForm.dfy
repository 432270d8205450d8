/** Integer fields of libc/printf.c in any base, read back without a word size: when they denote the
    number, with the prefix of the alternate form, `#`, and without. */
module AlternateForm {
  import opened Machine
  import opened Numerals
  import opened Format
  import opened FormatLaws
  import opened FieldLaws

  /** What stands in front of a binary, octal or hexadecimal number. */
  function Prefix(base: nat, upper: bool): string
  {
    if base == 16 then (if upper then "0X" else "0x") else if base == 2 then "0b" else "0"
  }

  /** The digit a character stands for, 16 when it is none. */
  function DigitValue(c: char): (d: nat)
  {
    if '0' <= c <= '9' then c as int - '0' as int
    else if 'a' <= c <= 'f' then c as int - 'a' as int + 10
    else if 'A' <= c <= 'F' then c as int - 'A' as int + 10
    else 16
  }

  function LeadingDigits(t: string, base: nat): (ds: seq<nat>)
  {
    if t != "" && DigitValue(t[0]) < base then [DigitValue(t[0])] + LeadingDigits(t[1..], base)
    else []
  }

  /** What stands behind any spaces and a sign. */
  function Behind(t: string): (r: string)
  {
    var s := SkipSpaces(t);
    if s != "" && (s[0] == '-' || s[0] == '+') then s[1..] else s
  }

  predicate Minus(t: string)
  {
    var s := SkipSpaces(t);
    s != "" && s[0] == '-'
  }

  /** Reading a number of any length. */
  function ReadNumber(t: string, base: nat): (v: int)
  {
    var n := Value(LeadingDigits(Behind(t), base), base);
    if Minus(t) then -(n as int) else n
  }

  /** Reading a prefixed number: the prefix, then the digits. */
  predicate Denotes(t: string, base: nat, upper: bool, value: nat)
  {
    var s, p := Behind(t), Prefix(base, upper);
    p <= s && Value(LeadingDigits(s[|p|..], base), base) == value
  }

  /** How long the digits get with their padding zeros. */
  function FilledLength(digits: nat, prec: Word, width: Word, f: Flags): int
  {
    if f.left then digits
    else Max(digits, Max(Min(prec, NTOA_BUFFER_SIZE),
                         if f.zeropad then Min(width, NTOA_BUFFER_SIZE) else 0))
  }

  /** How many characters are taken away for the prefix: only when the digits exactly fill the
      width, or a precision that is not in force. */
  function Stripped(filled: int, base: nat, prec: Word, width: Word, f: Flags): int
  {
    if !f.precision && filled > 0 && (filled == prec || filled == width) then
      if base == 16 && filled > 1 then 2 else 1
    else 0
  }

  /** Padding zeros make up for what is taken away, and the prefix fits the digit buffer. An octal
      number needs no room: at most 22 of 32 characters are its digits, so one that fills the buffer
      starts with a zero already. A number whose digits do not fit leaves no room. */
  predicate AlternateFits(digits: nat, base: nat, prec: Word, width: Word, f: Flags)
  {
    var filled := FilledLength(digits, prec, width, f);
    var stripped := Stripped(filled, base, prec, width, f);
    stripped <= filled - digits && (base == 8 || filled - stripped + 2 <= NTOA_BUFFER_SIZE)
  }

  /** The alternate form of any 64-bit number denotes it exactly when it fits in this sense, with
      whatever sign in front. */
  lemma AlternateFormIff(value: nat, base: nat, prec: Word, width: Word, f: Flags)
    requires base == 2 || base == 8 || base == 16
    requires 0 < value < 0x1_0000_0000_0000_0000 && f.hash
    ensures Denotes(IntText(value, false, base, prec, width, f), base, f.upper, value) <==>
            AlternateFits(|Digits(value, base)|, base, prec, FieldWidth(false, width, f), f)
  {
    hide Digits, Value, Behind, LeadingDigits, Text, IntDigits, ZeroFilled, Prefixed, StripCount, FieldWidth,
         Repeat, Margins, IntText, FilledLength, Stripped, Prefix, FilledDigits, AllBelow, BufferDigits,
         Minus, SignText;
    var w := FieldWidth(false, width, f);
    var d := IntDigits(value, base, f);
    BufferText(value, base, f);
    DigitBounds(value, base);
    var z := ZeroFilled(d, prec, w, f);
    Lengths(d, base, prec, w, f);
    var n := |z| - |d|;
    FilledText(value, base, prec, w, f);
    StartsWithZero(value, base, n);
    var k := StripCount(z, base, prec, w, f);
    var r := Prefixed(z, base, prec, w, f);
    var b := Margins(SignText(r, false, f) + r, w, f).1;
    PrefixedCases(FilledDigits(value, base, n), base, prec, w, f, b);
    PrefixedStart(FilledDigits(value, base, n), base, prec, w, f);
    IntTextIs(value, false, base, prec, width, f);
    FieldIsRead(d, false, base, prec, width, f);
    SuffixDenotes(value, base, n, k);
  }

  /** A field is spaces, at most one sign, the number with its prefix, and spaces. */
  lemma BodyShape(d: string, negative: bool, base: nat, prec: Word, width: Word, f: Flags)
    ensures var w := FieldWidth(negative, width, f);
      var r := Prefixed(ZeroFilled(d, prec, w, f), base, prec, w, f);
      var t := SignText(r, negative, f) + r;
      FieldText(d, negative, base, prec, width, f) ==
      Repeat(' ', Margins(t, w, f).0) + t + Repeat(' ', Margins(t, w, f).1)
  {
    hide ZeroFilled, Prefixed, FieldWidth, Repeat, Margins, Aligned;
    var w := FieldWidth(negative, width, f);
    var r := Prefixed(ZeroFilled(d, prec, w, f), base, prec, w, f);
    var t := SignText(r, negative, f) + r;
    assert FieldBody(d, negative, base, prec, width, f) == t;
    AlignedIs(t, w, f);
  }

  predicate StartsPlain(r: string)
  {
    r != "" && r[0] != ' ' && r[0] != '-' && r[0] != '+'
  }

  /** Behind spaces and sign stands the number. */
  lemma FieldIsRead(d: string, negative: bool, base: nat, prec: Word, width: Word, f: Flags)
    requires var w := FieldWidth(negative, width, f);
      StartsPlain(Prefixed(ZeroFilled(d, prec, w, f), base, prec, w, f))
    ensures var w := FieldWidth(negative, width, f);
      var r := Prefixed(ZeroFilled(d, prec, w, f), base, prec, w, f);
      var t := FieldText(d, negative, base, prec, width, f);
      Behind(t) == r + Repeat(' ', Margins(SignText(r, negative, f) + r, w, f).1) &&
      (Minus(t) <==> negative && |r| < NTOA_BUFFER_SIZE)
  {
    hide ZeroFilled, Prefixed, FieldWidth, Repeat, Margins, FieldText, Behind, Minus;
    var w := FieldWidth(negative, width, f);
    var r := Prefixed(ZeroFilled(d, prec, w, f), base, prec, w, f);
    BodyShape(d, negative, base, prec, width, f);
    var (a, b) := Margins(SignText(r, negative, f) + r, w, f);
    SignedIsRead(a, SignText(r, negative, f), r, b);
  }

  lemma SignedIsRead(a: int, sign: string, r: string, b: int)
    requires sign == "" || sign == "-" || sign == "+" || sign == " "
    requires StartsPlain(r)
    ensures var t := Repeat(' ', a) + (sign + r) + Repeat(' ', b);
      Behind(t) == r + Repeat(' ', b) && (Minus(t) <==> sign == "-")
  {
    hide Repeat, SkipSpaces;
    var tail := r + Repeat(' ', b);
    assert Repeat(' ', a) + (sign + r) + Repeat(' ', b) == Repeat(' ', a) + (sign + tail);
    if sign == "-" || sign == "+" {
      SkipsSpaces(a, sign + tail);
      assert (sign + tail)[1..] == tail;
    } else {
      var n := if sign == " " then Max(a, 0) + 1 else a;
      assert Repeat(' ', a) + (sign + tail) == Repeat(' ', n) + tail by { OneSpaceMore(a, sign, tail); }
      SkipsSpaces(n, tail);
    }
  }

  lemma StartsWithZero(value: nat, base: nat, n: nat)
    requires base >= 2
    ensures n > 0 ==> FilledDigits(value, base, n)[0] == 0
    ensures |FilledDigits(value, base, n)| == n + |BufferDigits(value, base)|
  {
    hide Digits;
  }

  lemma Lengths(d: string, base: nat, prec: Word, width: Word, f: Flags)
    ensures var z := ZeroFilled(d, prec, width, f);
      |z| == FilledLength(|d|, prec, width, f) &&
      (|d| <= NTOA_BUFFER_SIZE ==> |z| <= NTOA_BUFFER_SIZE) &&
      StripCount(z, base, prec, width, f) == Stripped(|z|, base, prec, width, f)
  {
  }

  /** Without its first `k` digits, of which `n` are zeros, the number in the buffer is the same or
      less. */
  lemma SuffixDenotes(value: nat, base: nat, n: nat, k: nat)
    requires base >= 2 && value > 0 && k <= n + |BufferDigits(value, base)|
    ensures Value(FilledDigits(value, base, n)[k..], base) == value <==>
            k <= n && |Digits(value, base)| <= NTOA_BUFFER_SIZE
    ensures n > 0 ==> (Value(FilledDigits(value, base, n)[1..], base) == value <==>
                       |Digits(value, base)| <= NTOA_BUFFER_SIZE)
  {
    hide Value, Digits, BufferDigits;
    var ds := BufferDigits(value, base);
    DigitsDenote(value, base);
    BufferDenotesIff(value, base);
    if k <= n {
      assert FilledDigits(value, base, n)[k..] == seq(n - k, _ => 0) + ds;
      LeadingZeros(n - k, ds, base);
    } else {
      assert FilledDigits(value, base, n)[k..] == ds[k - n..];
      LessWithoutLead(ds, base, k - n);
    }
    if n > 0 {
      assert FilledDigits(value, base, n)[1..] == seq(n - 1, _ => 0) + ds;
      LeadingZeros(n - 1, ds, base);
    }
  }

  /** The characters of digits are read as these digits. */
  lemma {:induction false} DigitsAreRead(ds: seq<nat>, base: nat, upper: bool, u: string)
    requires base <= 16 && AllBelow(ds, base)
    requires u == "" || DigitValue(u[0]) >= base
    ensures AllBelow(ds, 36) && LeadingDigits(Text(ds, upper) + u, base) == ds
    decreases |ds|
  {
    hide DigitValue, Text;
    assert AllBelow(ds, 36);
    if ds == [] {
      assert Text(ds, upper) + u == u;
    } else {
      FirstIsRead(ds, base, upper, u);
      DigitsAreRead(ds[1..], base, upper, u);
    }
  }

  lemma FirstIsRead(ds: seq<nat>, base: nat, upper: bool, u: string)
    requires base <= 16 && AllBelow(ds, base) && ds != []
    ensures AllBelow(ds, 36) && AllBelow(ds[1..], 36)
    ensures var t := Text(ds, upper) + u;
      DigitValue(t[0]) == ds[0] && t[1..] == Text(ds[1..], upper) + u
  {
  }

  /** The three ways the prefix can come out: whole, cut to its last character, or not at all. */
  lemma PrefixText(z: string, base: nat, prec: Word, width: Word, f: Flags)
    requires base == 2 || base == 8 || base == 16
    requires |z| <= NTOA_BUFFER_SIZE && f.hash
    ensures var k := StripCount(z, base, prec, width, f);
      var r, p := Prefixed(z, base, prec, width, f), Prefix(base, f.upper);
      if |z| - k + |p| <= NTOA_BUFFER_SIZE then r == p + z[k..]
      else if |z| - k < NTOA_BUFFER_SIZE then base != 8 && r == [p[1]] + z[k..]
      else r == z && k == 0
  {
    hide StripCount;
    var k := StripCount(z, base, prec, width, f);
    assert z[0..] == z;
  }

  /** What the prefixed digits are read as, when spaces follow. */
  lemma PrefixedCases(ds: seq<nat>, base: nat, prec: Word, width: Word, f: Flags, b: int)
    requires base == 2 || base == 8 || base == 16
    requires AllBelow(ds, base) && AllBelow(ds, 36) && 0 < |ds| <= NTOA_BUFFER_SIZE && f.hash
    requires base == 8 ==> |ds| <= 22 || ds[0] == 0
    ensures var z := Text(ds, f.upper);
      var k := StripCount(z, base, prec, width, f);
      var r := Prefixed(z, base, prec, width, f);
      var p := Prefix(base, f.upper);
      var t := r + Repeat(' ', b);
      r != "" && r[0] != ' ' &&
      (if base != 8 && |ds| - k + 2 > NTOA_BUFFER_SIZE then !(p <= t)
       else p <= t && LeadingDigits(t[|p|..], base) ==
                      ds[if base == 8 && |ds| - k == NTOA_BUFFER_SIZE then 1 else k..])
  {
    hide LeadingDigits, StripCount, Prefixed, Repeat;
    var z := Text(ds, f.upper);
    PrefixText(z, base, prec, width, f);
    var k := StripCount(z, base, prec, width, f);
    var r := Prefixed(z, base, prec, width, f);
    var p := Prefix(base, f.upper);
    var u := Repeat(' ', b);
    if |ds| - k + |p| <= NTOA_BUFFER_SIZE {
      ReadBehind(p, ds, k, base, f.upper, b);
    } else if |ds| - k < NTOA_BUFFER_SIZE {
      assert r[0] != '0' && (r + u)[0] == r[0];
    } else if base == 8 {
      assert z == [z[0]] + z[1..] && z[0] == '0';
      ReadBehind("0", ds, 1, base, f.upper, b);
    } else {
      assert (r + u)[1] == DigitChar(ds[1], f.upper);
      assert z[0] == DigitChar(ds[0], f.upper);
    }
  }

  lemma ReadBehind(p: string, ds: seq<nat>, k: nat, base: nat, upper: bool, b: int)
    requires base <= 16 && AllBelow(ds, base) && AllBelow(ds, 36) && k <= |ds|
    ensures var t := p + Text(ds, upper)[k..] + Repeat(' ', b);
      p <= t && LeadingDigits(t[|p|..], base) == ds[k..]
  {
    hide LeadingDigits;
    var t := p + Text(ds, upper)[k..] + Repeat(' ', b);
    assert t[|p|..] == Text(ds[k..], upper) + Repeat(' ', b);
    DigitsAreRead(ds[k..], base, upper, Repeat(' ', b));
  }

  lemma PrefixedStart(ds: seq<nat>, base: nat, prec: Word, width: Word, f: Flags)
    requires AllBelow(ds, 36) && 0 < |ds| <= NTOA_BUFFER_SIZE && f.hash
    requires base == 2 || base == 8 || base == 16
    ensures StartsPlain(Prefixed(Text(ds, f.upper), base, prec, width, f))
  {
    hide StripCount, Prefixed;
    PrefixText(Text(ds, f.upper), base, prec, width, f);
  }

  /** Without the alternate form, and for zero even with it, a field in any base denotes the number,
      sign and all, exactly when it has at most 32 digits and, if it is negative, the digits with
      their padding zeros leave room for the sign. */
  lemma PlainFormDenotesIff(value: nat, negative: bool, base: nat, prec: Word, width: Word, f: Flags)
    requires 2 <= base <= 16 && (f.hash ==> value == 0) && (negative ==> value > 0)
    ensures ReadNumber(IntText(value, negative, base, prec, width, f), base) ==
              (if negative then -(value as int) else value) <==>
            |Digits(value, base)| <= NTOA_BUFFER_SIZE &&
            (negative ==> FilledLength(|Digits(value, base)|, prec, FieldWidth(true, width, f), f) < NTOA_BUFFER_SIZE)
  {
    hide Digits, Value, Behind, Minus, LeadingDigits, Text, IntDigits, ZeroFilled, Repeat, Margins, IntText,
         FieldText, FieldWidth, FilledDigits, AllBelow, BufferDigits, FilledLength;
    if value == 0 {
      PlainZero(base, prec, width, f);
      DigitBounds(0, base);
    } else {
      var w := FieldWidth(negative, width, f);
      var d := IntDigits(value, base, f);
      BufferText(value, base, f);
      var z := ZeroFilled(d, prec, w, f);
      FilledText(value, base, prec, w, f);
      ZerosInFront(d, prec, w, f);
      Lengths(d, base, prec, w, f);
      var ds := FilledDigits(value, base, |z| - |d|);
      BufferBound(value, base, |z| - |d|);
      PlainStart(ds, f.upper);
      IntTextIs(value, negative, base, prec, width, f);
      FieldIsRead(d, negative, base, prec, width, f);
      DigitsAreRead(ds, base, f.upper, Repeat(' ', Margins(SignText(z, negative, f) + z, w, f).1));
    }
  }

  /** What the buffer holds never exceeds the number. */
  lemma BufferBound(value: nat, base: nat, n: nat)
    requires base >= 2
    ensures Value(FilledDigits(value, base, n), base) <= value
    ensures |Digits(value, base)| <= NTOA_BUFFER_SIZE ==>
              |BufferDigits(value, base)| == |Digits(value, base)|
  {
    hide Value, Digits, BufferDigits;
    BufferDenotesIff(value, base);
    LeadingZeros(n, BufferDigits(value, base), base);
  }

  lemma PlainStart(ds: seq<nat>, upper: bool)
    requires AllBelow(ds, 36)
    ensures ds != [] ==> StartsPlain(Text(ds, upper))
  {
  }

  /** A signed 64-bit decimal field denotes its number exactly when there is room for its sign. */
  lemma SignedDecimalIff(value: nat, negative: bool, prec: Word, width: Word, f: Flags)
    requires !f.hash && (negative ==> value > 0) && value < 0x1_0000_0000_0000_0000
    ensures ReadNumber(IntText(value, negative, 10, prec, width, f), 10) ==
              (if negative then -(value as int) else value)
            <==> (negative ==> SignFits(prec, width, f))
  {
    hide ReadNumber, IntText, Digits;
    DecimalDigits(value);
    PlainFormDenotesIff(value, negative, 10, prec, width, f);
  }

  /** `%d`, `%i` and `%u` with any flags, width, precision and length, 64 bits included. */
  lemma DecimalConversionIff(h: Head)
    requires h.Head? && h.rest != "" && h.args != [] && Passable(h.args[0])
    requires h.rest[0] == 'd' || h.rest[0] == 'i' || h.rest[0] == 'u'
    requires Convert(h).Rendered?
    ensures var g := IntFlags(h.f, h.rest[0]);
      var v := Given(NumberOf(h.args[0], h.rest[0] != 'u', g));
      ReadNumber(Convert(h).text, 10) == v <==> (v < 0 ==> SignFits(h.prec, h.width, g))
  {
    hide ReadNumber, IntText, SignFits;
    var g := IntFlags(h.f, h.rest[0]);
    var n := NumberOf(h.args[0], h.rest[0] != 'u', g);
    SignedDecimalIff(n.magnitude, n.negative, h.prec, h.width, g);
  }

  /** `%llb` of 2^32, which has 33 binary digits, does not read back. */
  lemma BinaryLostExample()
    ensures var o := Render("%llb", [Int64(0x1_0000_0000)]);
      o.Rendered? && o.args == [] && ReadNumber(o.text, 2) != 0x1_0000_0000
  {
    hide ParseHead, IntText, ReadNumber, Digits, Pow;
    var f := NO_FLAGS.(long := true).(longlong := true);
    BinaryHead([Int64(0x1_0000_0000)]);
    BinaryFlags(f);
    assert "%llb"[1..] == "llb" && "b"[1..] == "";
    assert Render("", []) == Rendered("", []);
    var t := IntText(0x1_0000_0000, false, 2, 0, 0, f);
    assert t + "" == t;
    Pow2At32();
    DigitCount(0x1_0000_0000, 2, 32);
    PlainFormDenotesIff(0x1_0000_0000, false, 2, 0, 0, f);
  }

  lemma BinaryHead(args: seq<Arg>)
    ensures ParseHead("llb", args) ==
            Head(NO_FLAGS.(long := true).(longlong := true), 0, 0, args, "b")
  {
    assert "llb"[1..] == "lb" && "llb"[2..] == "b";
  }

  lemma BinaryFlags(f: Flags)
    requires f == NO_FLAGS.(long := true).(longlong := true)
    ensures IntFlags(f, 'b') == f
  {
    assert f.(plus := false).(space := false) == f;
  }

  /** `%x`, `%X`, `%o` and `%b` with any flags, width, precision and length. */
  lemma UnsignedConversionIff(h: Head)
    requires h.Head? && h.rest != "" && h.args != [] && Passable(h.args[0])
    requires h.rest[0] == 'x' || h.rest[0] == 'X' || h.rest[0] == 'o' || h.rest[0] == 'b'
    requires Convert(h).Rendered?
    ensures var g, base := IntFlags(h.f, h.rest[0]), BaseOf(h.rest[0]);
      var v, text := NumberOf(h.args[0], false, g).magnitude, Convert(h).text;
      if g.hash && v != 0 then
        (Denotes(text, base, g.upper, v) <==>
         AlternateFits(|Digits(v, base)|, base, h.prec, h.width, g))
      else
        (ReadNumber(text, base) == v <==> |Digits(v, base)| <= NTOA_BUFFER_SIZE)
  {
    hide IntText, AlternateFits, Denotes, ReadNumber, Digits;
    var g, base := IntFlags(h.f, h.rest[0]), BaseOf(h.rest[0]);
    var v := NumberOf(h.args[0], false, g).magnitude;
    if g.hash && v != 0 {
      AlternateFormIff(v, base, h.prec, h.width, g);
    } else {
      PlainFormDenotesIff(v, false, base, h.prec, h.width, g);
    }
  }

  /** `%p` with any flags and precision: eight digits are padded to, so the alternate form takes two of
      a long address away. */
  lemma AddressConversionIff(h: Head)
    requires h.Head? && h.rest != "" && h.rest[0] == 'p'
    requires Convert(h).Rendered?
    ensures var g := AddressFlags(h.f);
      h.args != [] && h.args[0].Int32? &&
      var w, text := h.args[0].w, Convert(h).text;
      if g.hash && w != 0 then
        (Denotes(text, 16, true, w) <==>
         AlternateFits(|Digits(w, 16)|, 16, h.prec, FieldWidth(false, ADDRESS_WIDTH, g), g))
      else
        ReadNumber(text, 16) == w
  {
    hide IntText, AlternateFits, Denotes, ReadNumber, Digits;
    var g, w := AddressFlags(h.f), h.args[0].w;
    if g.hash && w != 0 {
      AlternateFormIff(w, 16, h.prec, ADDRESS_WIDTH, g);
    } else {
      DigitBounds(w, 16);
      PlainFormDenotesIff(w, false, 16, h.prec, ADDRESS_WIDTH, g);
    }
  }

  lemma PlainZero(base: nat, prec: Word, width: Word, f: Flags)
    requires 2 <= base <= 16
    ensures ReadNumber(IntText(0, false, base, prec, width, f), base) == 0
  {
    hide ReadNumber, IntText, IntDigits, FieldText;
    IntTextIs(0, false, base, prec, width, f);
    ZeroField(base, prec, width, f.(hash := false));
  }

  lemma ZeroField(base: nat, prec: Word, width: Word, g: Flags)
    requires 2 <= base <= 16 && !g.hash
    ensures ReadNumber(FieldText(IntDigits(0, base, g), false, base, prec, width, g), base) == 0
  {
    hide Value, Behind, Minus, LeadingDigits, Text, IntDigits, ZeroFilled, Repeat, Margins, FieldText,
         FieldWidth, Prefixed, SignText;
    var w := FieldWidth(false, width, g);
    var d := IntDigits(0, base, g);
    var z := ZeroFilled(d, prec, w, g);
    PlainPrefix(z, base, prec, w, g);
    ZerosOnly(base, prec, w, g);
    var ds := seq(|z|, _ => 0);
    ZerosText(|z|, [], false);
    assert ds + [] == ds && z + Text([], false) == z;
    NoDigits(base);
    LeadingZeros(|z|, [], base);
    if z == "" {
      BodyShape(d, false, base, prec, width, g);
      var (a, b) := Margins(SignText(z, false, g) + z, w, g);
      assert SignText(z, false, g) + z == SignText(z, false, g);
      NothingBehind(a, SignText(z, false, g), b, base);
    } else {
      PlainStart(ds, false);
      FieldIsRead(d, false, base, prec, width, g);
      DigitsAreRead(ds, base, false, Repeat(' ', Margins(SignText(z, false, g) + z, w, g).1));
    }
  }

  lemma PlainPrefix(t: string, base: nat, prec: Word, width: Word, f: Flags)
    requires !f.hash
    ensures Prefixed(t, base, prec, width, f) == t
  {
  }

  /** A field without digits: spaces, at most a sign that is no minus, spaces. */
  lemma NothingBehind(a: int, sign: string, b: int, base: nat)
    requires base <= 16 && (sign == "" || sign == "+" || sign == " " || sign == "-")
    ensures var t := Repeat(' ', a) + sign + Repeat(' ', b);
      LeadingDigits(Behind(t), base) == []
  {
    hide Repeat, SkipSpaces;
    var t := Repeat(' ', a) + sign + Repeat(' ', b);
    if sign == "+" || sign == "-" {
      assert t == Repeat(' ', a) + (sign + Repeat(' ', b));
      SkipsSpaces(a, sign + Repeat(' ', b));
      assert (sign + Repeat(' ', b))[1..] == Repeat(' ', b);
    } else {
      var n := if sign == " " then Max(a, 0) + 1 else a;
      OneSpaceMore(a, sign, Repeat(' ', b));
      assert t == Repeat(' ', a) + (sign + Repeat(' ', b));
      MoreSpaces(n, b);
      SkipsAll(Max(n, 0) + Max(b, 0));
    }
  }

  lemma ZerosOnly(base: nat, prec: Word, width: Word, f: Flags)
    requires 2 <= base <= 16
    ensures var z := ZeroFilled(IntDigits(0, base, f), prec, width, f); z == Repeat('0', |z|)
  {
  }

  /** A width that just holds the digits costs digits: `%#2x` of 0xab is written as 0x. */
  lemma DigitsLostExample()
    ensures Render("%#2x", [Int32(0xAB)]) == Rendered("0x", [])
  {
    hide ParseHead, IntText;
    var f := NO_FLAGS.(hash := true);
    HashHead([Int32(0xAB)]);
    HashFlags(f);
    TwoDigits(f);
    assert "%#2x"[1..] == "#2x" && "x"[1..] == "";
    assert Render("", []) == Rendered("", []);
    assert "0x" + "" == "0x";
  }

  lemma HashHead(args: seq<Arg>)
    ensures ParseHead("#2x", args) == Head(NO_FLAGS.(hash := true), 2, 0, args, "x")
  {
    assert "#2x"[1..] == "2x" && "2x"[1..] == "x";
    assert ParseNumber("x", 2) == (2, "x");
    assert ParseNumber("2x", 0) == (2, "x");
  }

  lemma HashFlags(f: Flags)
    requires f == NO_FLAGS.(hash := true)
    ensures IntFlags(f, 'x') == f
  {
    assert f.(plus := false).(space := false) == f;
  }

  lemma TwoDigits(f: Flags)
    requires f == NO_FLAGS.(hash := true)
    ensures IntText(0xAB, false, 16, 0, 2, f) == "0x"
  {
    hide Text, Digits;
    DigitsStep(0xAB, 16);
    DigitsStep(10, 16);
    DigitsStep(0, 16);
    assert Digits(0xAB, 16) == [10, 11];
    assert Digits(0xAB, 16)[0..] == [10, 11];
    assert Text([10, 11], false) == ['a', 'b'];
  }
}
