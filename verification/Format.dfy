/** What `_vsnprintf` of libc/printf.c writes, as text: the conversions without the output buffer,
    the digit buffer and the pointers. Floating point is not part of it. */
module Format {
  import opened Machine
  import opened Numerals

  /** The digit buffer holds this many characters. */
  const NTOA_BUFFER_SIZE: int := 32

  datatype Flags = Flags(zeropad: bool, left: bool, plus: bool, space: bool, hash: bool, upper: bool,
                         chr: bool, short: bool, long: bool, longlong: bool, precision: bool)

  const NO_FLAGS: Flags :=
    Flags(false, false, false, false, false, false, false, false, false, false, false)

  // ----- one integer

  function Repeat(c: char, n: int): (t: string)
    ensures |t| == if n < 0 then 0 else n
    ensures forall i :: 0 <= i < |t| ==> t[i] == c
  {
    if n <= 0 then "" else seq(n, _ => c)
  }

  function Min(a: int, b: int): int { if a < b then a else b }

  function Max(a: int, b: int): int { if a < b then b else a }

  /** Zero padding leaves room for a sign. */
  function FieldWidth(negative: bool, width: Word, f: Flags): (w: Word)
  {
    if !f.left && width > 0 && f.zeropad && (negative || f.plus || f.space) then width - 1 else width
  }

  /** Digits with zeros in front, up to the precision and, with zero padding, the width; a left
      aligned number gets none. */
  function ZeroFilled(d: string, prec: Word, width: Word, f: Flags): (t: string)
    ensures |t| >= |d|
  {
    if f.left then d
    else
      var n := Max(Min(prec, NTOA_BUFFER_SIZE), if f.zeropad then Min(width, NTOA_BUFFER_SIZE) else 0);
      Repeat('0', n - |d|) + d
  }

  /** Whether characters give way to the prefix, and how many. */
  function StripCount(t: string, base: nat, prec: Word, width: Word, f: Flags): (k: nat)
    ensures k <= |t|
  {
    if !f.precision && |t| > 0 && (|t| == prec || |t| == width) then
      if base == 16 && |t| > 1 then 2 else 1
    else 0
  }

  /** A character goes in front if the digit buffer has room for it. */
  function InFront(c: char, t: string): (r: string)
    ensures |r| <= Max(|t|, NTOA_BUFFER_SIZE)
  {
    if |t| < NTOA_BUFFER_SIZE then [c] + t else t
  }

  /** The alternate form: 0x, 0X, 0b or 0 in front. */
  function Prefixed(t: string, base: nat, prec: Word, width: Word, f: Flags): (r: string)
  {
    if !f.hash then t
    else
      var s := t[StripCount(t, base, prec, width, f)..];
      var m := if base == 16 then InFront(if f.upper then 'X' else 'x', s)
               else if base == 2 then InFront('b', s) else s;
      InFront('0', m)
  }

  function Signed_(t: string, negative: bool, f: Flags): (r: string)
  {
    if negative then InFront('-', t)
    else if f.plus then InFront('+', t)
    else if f.space then InFront(' ', t)
    else t
  }

  /** Everything but the spaces of the field. */
  function FieldBody(d: string, negative: bool, base: nat, prec: Word, width: Word, f: Flags): string
  {
    var w := FieldWidth(negative, width, f);
    Signed_(Prefixed(ZeroFilled(d, prec, w, f), base, prec, w, f), negative, f)
  }

  /** `_out_rev`, for text in reading order. */
  function Aligned(t: string, width: Word, f: Flags): (r: string)
  {
    (if !f.left && !f.zeropad then Repeat(' ', width - |t|) else "") + t +
    (if f.left then Repeat(' ', width - |t|) else "")
  }

  /** `_ntoa_format`. */
  function FieldText(d: string, negative: bool, base: nat, prec: Word, width: Word, f: Flags): string
  {
    Aligned(FieldBody(d, negative, base, prec, width, f), FieldWidth(negative, width, f), f)
  }

  /** The digits `_ntoa_long` and `_ntoa_long_long` put in the buffer: none for zero with a
      precision, and never more than the last 32. */
  function IntDigits(value: nat, base: nat, f: Flags): (d: string)
    requires 2 <= base <= 16
    ensures |d| <= NTOA_BUFFER_SIZE
  {
    DigitsDenote(value, base);
    if value == 0 then (if f.precision then "" else "0")
    else
      var ds := Digits(value, base);
      Text(ds[Max(0, |ds| - NTOA_BUFFER_SIZE)..], f.upper)
  }

  /** `_ntoa_long`, `_ntoa_long_long`: zero has no alternate form. */
  function IntText(value: nat, negative: bool, base: nat, prec: Word, width: Word, f: Flags): string
    requires 2 <= base <= 16
  {
    var g := if value == 0 then f.(hash := false) else f;
    FieldText(IntDigits(value, base, g), negative, base, prec, width, g)
  }

  // ----- characters and strings

  function CharText(w: Word, width: Word, f: Flags): string
  {
    var c := [(w % 256) as char];
    if f.left then c + Repeat(' ', width - 1) else Repeat(' ', width - 1) + c
  }

  function StrText(s: string, prec: Word, width: Word, f: Flags): string
  {
    var t := if f.precision && prec < |s| then s[..prec] else s;
    if f.left then t + Repeat(' ', width - |t|) else Repeat(' ', width - |t|) + t
  }

  // ----- arguments

  /** Variadic arguments as they were passed: 32-bit words, 64-bit words and strings. */
  datatype Arg = Int32(w: Word) | Int64(x: nat) | Str(s: string)

  /** What C lets be passed: 64-bit values are 64 bits wide, strings hold no NUL and fit memory. */
  ghost predicate Passable(a: Arg)
  {
    match a
    case Int32(_) => true
    case Int64(x) => x < 0x1_0000_0000_0000_0000
    case Str(s) => '\0' !in s && |s| < 0x1_0000_0000
  }

  function SignedBits(x: nat, bits: nat): (v: int)
    requires bits in {8, 16, 32, 64}
  {
    var m := if bits == 8 then 0x100 else if bits == 16 then 0x1_0000
             else if bits == 32 then 0x1_0000_0000 else 0x1_0000_0000_0000_0000;
    if x % m < m / 2 then x % m else x % m - m
  }

  datatype Number = Number(magnitude: nat, negative: bool) | NoNumber

  /** The number a conversion takes from its argument: cut to the width its length modifier names,
      signed for `d` and `i`. */
  function NumberOf(a: Arg, signed: bool, f: Flags): (n: Number)
  {
    var bits := if f.longlong then 64 else if f.long then 32 else if f.chr then 8
                else if f.short then 16 else 32;
    match a
    case Int32(w) =>
      if f.longlong then NoNumber else Cut(w, bits, signed)
    case Int64(x) =>
      if f.longlong then Cut(x, bits, signed) else NoNumber
    case Str(_) => NoNumber
  }

  function Cut(x: nat, bits: nat, signed: bool): (n: Number)
    requires bits in {8, 16, 32, 64}
  {
    if signed then
      var v := SignedBits(x, bits);
      Number(if v > 0 then v else -v, v < 0)
    else Number(if bits == 8 then x % 0x100 else if bits == 16 then x % 0x1_0000 else x, false)
  }

  // ----- the format string

  predicate IsDigit(c: char) { '0' <= c <= '9' }

  /** The next character of a format, NUL at its end. */
  function Next(s: string): char
  {
    if s == "" then '\0' else s[0]
  }

  function ParseFlags(s: string, f: Flags): (r: (Flags, string))
    ensures |r.1| <= |s|
  {
    match Next(s)
    case '0' => ParseFlags(s[1..], f.(zeropad := true))
    case '-' => ParseFlags(s[1..], f.(left := true))
    case '+' => ParseFlags(s[1..], f.(plus := true))
    case ' ' => ParseFlags(s[1..], f.(space := true))
    case '#' => ParseFlags(s[1..], f.(hash := true))
    case _ => (f, s)
  }

  /** `_atoi`, which wraps around. */
  function ParseNumber(s: string, acc: Word): (r: (Word, string))
    ensures |r.1| <= |s|
  {
    if s != "" && IsDigit(s[0]) then
      ParseNumber(s[1..], Wrap(acc * 10 + (s[0] as int - '0' as int)))
    else (acc, s)
  }

  /** What stands between the percent sign and the conversion, and what it takes from the
      arguments. */
  datatype Head = Head(f: Flags, width: Word, prec: Word, args: seq<Arg>, rest: string) | NoHead

  function ParseWidth(h: Head): (r: Head)
    requires h.Head?
    ensures r.Head? ==> |r.rest| <= |h.rest|
  {
    if IsDigit(Next(h.rest)) then
      var (w, s) := ParseNumber(h.rest, 0);
      h.(width := w, rest := s)
    else if Next(h.rest) == '*' then
      if h.args == [] || !h.args[0].Int32? then NoHead
      else
        var w := h.args[0].w;
        h.(f := if Signed(w) < 0 then h.f.(left := true) else h.f,
           width := if Signed(w) < 0 then Wrap(0 - w) else w,
           args := h.args[1..], rest := h.rest[1..])
    else h
  }

  function ParsePrecision(h: Head): (r: Head)
    requires h.Head?
    ensures r.Head? ==> |r.rest| <= |h.rest|
  {
    if Next(h.rest) != '.' then h
    else
      var g := h.(f := h.f.(precision := true), rest := h.rest[1..]);
      if IsDigit(Next(g.rest)) then
        var (p, s) := ParseNumber(g.rest, 0);
        g.(prec := p, rest := s)
      else if Next(g.rest) == '*' then
        if g.args == [] || !g.args[0].Int32? then NoHead
        else
          var p := g.args[0].w;
          g.(prec := if Signed(p) > 0 then p else 0, args := g.args[1..], rest := g.rest[1..])
      else g
  }

  /** The length modifier. On i686 `long`, `ptrdiff_t` and `size_t` have 32 bits, `intmax_t` has
      64. */
  function ParseModifier(s: string, f: Flags): (r: (Flags, string))
    ensures r.0.precision == f.precision
    ensures |r.1| <= |s|
  {
    match Next(s)
    case 'l' =>
      if Next(s[1..]) == 'l' then (f.(long := true).(longlong := true), s[2..])
      else (f.(long := true), s[1..])
    case 'h' =>
      if Next(s[1..]) == 'h' then (f.(short := true).(chr := true), s[2..])
      else (f.(short := true), s[1..])
    case 't' => (f.(long := true), s[1..])
    case 'j' => (f.(longlong := true), s[1..])
    case 'z' => (f.(long := true), s[1..])
    case _ => (f, s)
  }

  function ParseLength(h: Head): (r: Head)
    requires h.Head?
    ensures r.Head? && |r.rest| <= |h.rest|
  {
    var (f, s) := ParseModifier(h.rest, h.f);
    h.(f := f, rest := s)
  }

  function ParseHead(s: string, args: seq<Arg>): (h: Head)
    ensures h.Head? ==> |h.rest| <= |s|
  {
    var (f, t) := ParseFlags(s, NO_FLAGS);
    var w := ParseWidth(Head(f, 0, 0, args, t));
    if w.NoHead? then NoHead
    else
      var p := ParsePrecision(w);
      if p.NoHead? then NoHead else ParseLength(p)
  }

  predicate IsIntConversion(c: char)
  {
    c == 'd' || c == 'i' || c == 'u' || c == 'x' || c == 'X' || c == 'o' || c == 'b'
  }

  /** Floating point. */
  predicate IsUnmodelled(c: char)
  {
    c == 'f' || c == 'F' || c == 'e' || c == 'E' || c == 'g' || c == 'G'
  }

  /** A pointer is written in upper case, with zeros to eight digits. */
  const ADDRESS_WIDTH: Word := 8

  function AddressFlags(f: Flags): (g: Flags)
    ensures g.zeropad && g.upper && g.hash == f.hash && g.plus == f.plus && g.space == f.space
  {
    f.(zeropad := true).(upper := true)
  }

  function BaseOf(c: char): (b: nat)
    ensures b in {2, 8, 10, 16}
  {
    if c == 'x' || c == 'X' then 16 else if c == 'o' then 8 else if c == 'b' then 2 else 10
  }

  /** No alternate form in decimal. */
  function HashFor(f: Flags, c: char): (g: Flags)
    ensures g.hash == (f.hash && BaseOf(c) != 10)
  {
    if BaseOf(c) == 10 then f.(hash := false) else f
  }

  function UpperFor(f: Flags, c: char): (g: Flags)
    ensures g.upper == (f.upper || c == 'X') && g.hash == f.hash
  {
    if c == 'X' then f.(upper := true) else f
  }

  /** Plus and space only for signed conversions. */
  function SignFor(f: Flags, c: char): (g: Flags)
    ensures g.plus == (f.plus && (c == 'd' || c == 'i')) && g.hash == f.hash
    ensures g.space == (f.space && (c == 'd' || c == 'i')) && g.upper == f.upper
  {
    if c != 'd' && c != 'i' then f.(plus := false).(space := false) else f
  }

  /** A precision turns zero padding off. */
  function PadFor(f: Flags): (g: Flags)
    ensures g.zeropad == (f.zeropad && !f.precision) && g.hash == f.hash && g.upper == f.upper
    ensures g.plus == f.plus && g.space == f.space
  {
    if f.precision then f.(zeropad := false) else f
  }

  /** The flags an integer conversion leaves standing. */
  function IntFlags(f: Flags, c: char): (g: Flags)
  {
    PadFor(SignFor(UpperFor(HashFor(f, c), c), c))
  }

  /** The text of a format: what it comes to and the arguments it leaves; or that it ends inside a
      conversion, that an argument is missing or of the wrong kind (both undefined in C), or that
      it uses a conversion that is not modelled. */
  datatype Outcome = Rendered(text: string, args: seq<Arg>) | RunsOff | BadArgument | Unmodelled

  function Prepend(t: string, o: Outcome): (r: Outcome)
  {
    if o.Rendered? then o.(text := t + o.text) else o
  }

  /** The conversion that ends a head. */
  function Convert(h: Head): (o: Outcome)
    requires h.Head? && h.rest != ""
  {
    var c := h.rest[0];
    if IsUnmodelled(c) then Unmodelled
    else if IsIntConversion(c) then
      if h.args == [] then BadArgument
      else
        var g := IntFlags(h.f, c);
        var n := NumberOf(h.args[0], c == 'd' || c == 'i', g);
        if n.NoNumber? then BadArgument
        else Rendered(IntText(n.magnitude, n.negative, BaseOf(c), h.prec, h.width, g), h.args[1..])
    else if c == 'c' then
      if h.args == [] || !h.args[0].Int32? then BadArgument
      else Rendered(CharText(h.args[0].w, h.width, h.f), h.args[1..])
    else if c == 's' then
      if h.args == [] || !h.args[0].Str? then BadArgument
      else Rendered(StrText(h.args[0].s, h.prec, h.width, h.f), h.args[1..])
    else if c == 'p' then
      if h.args == [] || !h.args[0].Int32? then BadArgument
      else Rendered(IntText(h.args[0].w, false, 16, h.prec, ADDRESS_WIDTH, AddressFlags(h.f)), h.args[1..])
    else Rendered([c], h.args)
  }

  /** `_vsnprintf`, all of the text; a format holds no NUL. */
  function Render(s: string, args: seq<Arg>): (o: Outcome)
    decreases |s|
  {
    if s == "" then Rendered("", args)
    else if s[0] != '%' then Prepend([s[0]], Render(s[1..], args))
    else
      var h := ParseHead(s[1..], args);
      if h.NoHead? then BadArgument
      else if h.rest == "" then RunsOff
      else
        var o := Convert(h);
        if o.Rendered? then Prepend(o.text, Render(h.rest[1..], o.args)) else o
  }

  // ----- the output buffer

  /** Characters written one by one from index `idx`, a 32-bit word that wraps around; those at or
      past `limit` are dropped. */
  function Emit(buf: seq<char>, idx: Word, t: string, limit: nat): (r: seq<char>)
    requires limit <= |buf|
    ensures |r| == |buf|
    decreases |t|
  {
    if t == "" then buf
    else Emit(if idx < limit then buf[idx := t[0]] else buf, Wrap(idx + 1), t[1..], limit)
  }

  /** The terminating NUL. */
  function Terminate(buf: seq<char>, length: nat, limit: nat): (r: seq<char>)
    requires limit <= |buf|
    ensures |r| == |buf|
  {
    if limit == 0 then buf
    else buf[(if Wrap(length) < limit then Wrap(length) else limit - 1) := '\0']
  }
}
