/** What may stand between the percent sign and the conversion in a format of libc/printf.c, spelled out
    from its parts, and what the scanner makes of each part. */
module Grammar {
  import opened Machine
  import opened Numerals
  import opened Format
  import opened FieldLaws

  datatype WidthPart = NoWidth | Width(ds: seq<nat>) | StarWidth
  datatype PrecisionPart = NoPrecision | Precision(ds: seq<nat>) | StarPrecision
  datatype LengthPart = NoLength | HH | H | L | LL | J | Z | T

  /** The flag characters come in any order and number. */
  datatype Spec = Spec(flags: string, width: WidthPart, precision: PrecisionPart, length: LengthPart)

  predicate IsFlag(c: char)
  {
    c == '0' || c == '-' || c == '+' || c == ' ' || c == '#'
  }

  /** A width does not start with a zero, which would be a flag; a precision may, and may be empty. */
  predicate WellFormed(s: Spec)
  {
    (forall c | c in s.flags :: IsFlag(c)) &&
    (s.width.Width? ==> s.width.ds != [] && s.width.ds[0] != 0 && AllBelow(s.width.ds, 10)) &&
    (s.precision.Precision? ==> AllBelow(s.precision.ds, 10))
  }

  function WidthText(p: WidthPart): string
    requires p.Width? ==> AllBelow(p.ds, 10)
  {
    match p
    case NoWidth => ""
    case Width(ds) => DigitText(ds, false)
    case StarWidth => "*"
  }

  function PrecisionText(p: PrecisionPart): string
    requires p.Precision? ==> AllBelow(p.ds, 10)
  {
    match p
    case NoPrecision => ""
    case Precision(ds) => "." + DigitText(ds, false)
    case StarPrecision => ".*"
  }

  function LengthText(p: LengthPart): string
  {
    match p
    case NoLength => ""
    case HH => "hh"
    case H => "h"
    case L => "l"
    case LL => "ll"
    case J => "j"
    case Z => "z"
    case T => "t"
  }

  function Spelled(s: Spec): string
    requires WellFormed(s)
  {
    s.flags + (WidthText(s.width) + (PrecisionText(s.precision) + LengthText(s.length)))
  }

  /** `c` belongs to none of the parts: each of them goes as far as it can. */
  predicate Ends(s: Spec, c: char)
  {
    (s.length.H? ==> c != 'h') && (s.length.L? ==> c != 'l') &&
    (s.length.NoLength? ==>
       c !in "hljzt" &&
       match s.precision
       case StarPrecision => true
       case Precision(ds) => !IsDigit(c) && (ds == [] ==> c != '*')
       case NoPrecision =>
         c != '.' &&
         match s.width
         case StarWidth => true
         case Width(_) => !IsDigit(c)
         case NoWidth => !IsDigit(c) && c != '*' && !IsFlag(c))
  }

  /** The bits an integer argument has. */
  function BitsOf(p: LengthPart): (b: nat)
    ensures b in {8, 16, 32, 64}
  {
    match p
    case HH => 8
    case H => 16
    case LL => 64
    case J => 64
    case _ => 32
  }

  /** How many arguments the stars take. */
  function Stars(s: Spec): nat
  {
    (if s.width.StarWidth? then 1 else 0) + (if s.precision.StarPrecision? then 1 else 0)
  }

  /** The arguments the stars take are there and are of type `int`. */
  predicate StarsGiven(s: Spec, args: seq<Arg>)
  {
    Stars(s) <= |args| && forall i | 0 <= i < Stars(s) :: args[i].Int32?
  }

  /** A negative width of a star means left alignment. */
  function WidthOf(s: Spec, args: seq<Arg>): (w: Word)
    requires StarsGiven(s, args)
  {
    match s.width
    case NoWidth => 0
    case Width(ds) => Wrap(Value(ds, 10))
    case StarWidth => if Signed(args[0].w) < 0 then -Signed(args[0].w) else Signed(args[0].w)
  }

  predicate LeftAligned(s: Spec, args: seq<Arg>)
    requires StarsGiven(s, args)
  {
    '-' in s.flags || (s.width.StarWidth? && Signed(args[0].w) < 0)
  }

  /** A negative precision of a star counts as zero, but is a precision all the same. */
  function PrecisionOf(s: Spec, args: seq<Arg>): (p: Word)
    requires StarsGiven(s, args)
  {
    match s.precision
    case NoPrecision => 0
    case Precision(ds) => Wrap(Value(ds, 10))
    case StarPrecision => Max(0, Signed(args[if s.width.StarWidth? then 1 else 0].w))
  }

  /** The head `h` says what the parts say. */
  predicate Says(h: Head, s: Spec, args: seq<Arg>, rest: string)
    requires StarsGiven(s, args)
  {
    h.Head? && h.rest == rest && h.args == args[Stars(s)..] &&
    h.width == WidthOf(s, args) && h.prec == PrecisionOf(s, args) && FlagsSay(h.f, s, args)
  }

  predicate FlagsSay(f: Flags, s: Spec, args: seq<Arg>)
    requires StarsGiven(s, args)
  {
    f.zeropad == ('0' in s.flags) && f.left == LeftAligned(s, args) &&
    f.plus == ('+' in s.flags) && f.space == (' ' in s.flags) && f.hash == ('#' in s.flags) &&
    f.precision == !s.precision.NoPrecision? && !f.upper &&
    f.chr == s.length.HH? && f.short == (s.length.H? || s.length.HH?) &&
    f.long == (s.length.L? || s.length.LL? || s.length.Z? || s.length.T?) &&
    f.longlong == (s.length.LL? || s.length.J?)
  }

  // ----- part by part

  lemma NextOf(s: string, t: string)
    ensures Next(s + t) == if s == "" then Next(t) else s[0]
    ensures s != "" ==> (s + t)[1..] == s[1..] + t
    ensures s == "" ==> s + t == t
  {
  }

  /** `g` has the flags of `f` and those the characters `fl` name. */
  predicate FlagsAdded(f: Flags, fl: string, g: Flags)
  {
    g.zeropad == (f.zeropad || '0' in fl) && g.left == (f.left || '-' in fl) &&
    g.plus == (f.plus || '+' in fl) && g.space == (f.space || ' ' in fl) &&
    g.hash == (f.hash || '#' in fl) && g.upper == f.upper && g.chr == f.chr && g.short == f.short &&
    g.long == f.long && g.longlong == f.longlong && g.precision == f.precision
  }

  lemma {:induction false} ReadsFlags(fl: string, t: string, f: Flags)
    requires (forall c | c in fl :: IsFlag(c)) && !IsFlag(Next(t))
    ensures ParseFlags(fl + t, f).1 == t && FlagsAdded(f, fl, ParseFlags(fl + t, f).0)
    decreases |fl|
  {
    hide FlagsAdded;
    NextOf(fl, t);
    if fl == "" {
      NoFlagAdded(f);
    } else {
      assert fl[0] in fl && forall c | c in fl[1..] :: c in fl;
      var g := match fl[0]
        case '0' => f.(zeropad := true)
        case '-' => f.(left := true)
        case '+' => f.(plus := true)
        case ' ' => f.(space := true)
        case _ => f.(hash := true);
      assert ParseFlags(fl + t, f) == ParseFlags(fl[1..] + t, g);
      ReadsFlags(fl[1..], t, g);
      match fl[0] {
        case '0' => ZeroAdded(f);
        case '-' => MinusAdded(f);
        case '+' => PlusAdded(f);
        case ' ' => SpaceAdded(f);
        case _ => HashAdded(f);
      }
      FlagAdded(f, g, fl, ParseFlags(fl[1..] + t, g).0);
    }
  }

  lemma NoFlagAdded(f: Flags)
    ensures FlagsAdded(f, "", f)
  {
  }

  lemma ZeroAdded(f: Flags)
    ensures FlagsAdded(f, "0", f.(zeropad := true))
  {
  }

  lemma MinusAdded(f: Flags)
    ensures FlagsAdded(f, "-", f.(left := true))
  {
  }

  lemma PlusAdded(f: Flags)
    ensures FlagsAdded(f, "+", f.(plus := true))
  {
  }

  lemma SpaceAdded(f: Flags)
    ensures FlagsAdded(f, " ", f.(space := true))
  {
  }

  lemma HashAdded(f: Flags)
    ensures FlagsAdded(f, "#", f.(hash := true))
  {
  }

  lemma FlagAdded(f: Flags, h: Flags, fl: string, g: Flags)
    requires fl != "" && FlagsAdded(f, [fl[0]], h) && FlagsAdded(h, fl[1..], g)
    ensures FlagsAdded(f, fl, g)
  {
    FirstOrLater(fl, '0');
    FirstOrLater(fl, '-');
    FirstOrLater(fl, '+');
    FirstOrLater(fl, ' ');
    FirstOrLater(fl, '#');
  }

  lemma FirstOrLater(s: string, c: char)
    requires s != ""
    ensures c in s <==> c == s[0] || c in s[1..]
  {
    assert s == [s[0]] + s[1..];
  }

  /** Written digits are what the parse loop reads. */
  lemma ReadsNumeral(ds: seq<nat>, t: string)
    requires AllBelow(ds, 10) && !IsDigit(Next(t))
    ensures ParseNumber(DigitText(ds, false) + t, 0) == (Wrap(Value(ds, 10)), t)
    ensures ds != [] ==> IsDigit(DigitText(ds, false)[0]) && (ds[0] != 0 ==> DigitText(ds, false)[0] != '0')
  {
    hide Value, Wrap, ParseNumber, Pow;
    TextIsTable(ds, false);
    NumberOfDigits(ds, false, t, 0);
    LeadCounts(0, ds, 10);
  }

  lemma ReadsWidth(h: Head, p: WidthPart, t: string)
    requires h.Head? && h.width == 0 && (p.Width? ==> p.ds != [] && AllBelow(p.ds, 10))
    requires h.rest == WidthText(p) + t
    requires !p.StarWidth? ==> !IsDigit(Next(t))
    requires p.NoWidth? ==> Next(t) != '*'
    ensures var r := ParseWidth(h);
      match p
      case NoWidth => r == h.(rest := t)
      case Width(ds) => r == h.(width := Wrap(Value(ds, 10)), rest := t)
      case StarWidth =>
        if h.args == [] || !h.args[0].Int32? then r.NoHead?
        else
          var w := Signed(h.args[0].w);
          r == h.(f := if w < 0 then h.f.(left := true) else h.f, width := if w < 0 then -w else w,
                  args := h.args[1..], rest := t)
  {
    hide ParseNumber, Value;
    NextOf(WidthText(p), t);
    match p
    case NoWidth =>
    case Width(ds) => ReadsNumeral(ds, t);
    case StarWidth => assert h.rest[1..] == t;
  }

  lemma ReadsPrecision(h: Head, p: PrecisionPart, t: string)
    requires h.Head? && h.prec == 0 && (p.Precision? ==> AllBelow(p.ds, 10))
    requires h.rest == PrecisionText(p) + t
    requires p.NoPrecision? ==> Next(t) != '.'
    requires p.Precision? ==> !IsDigit(Next(t)) && (p.ds == [] ==> Next(t) != '*')
    ensures var r, g := ParsePrecision(h), h.f.(precision := true);
      match p
      case NoPrecision => r == h.(rest := t)
      case Precision(ds) => r == h.(f := g, prec := Wrap(Value(ds, 10)), rest := t)
      case StarPrecision =>
        if h.args == [] || !h.args[0].Int32? then r.NoHead?
        else r == h.(f := g, prec := Max(0, Signed(h.args[0].w)), args := h.args[1..], rest := t)
  {
    hide ParseNumber, Value;
    NextOf(PrecisionText(p), t);
    match p
    case NoPrecision =>
    case Precision(ds) =>
      assert h.rest[1..] == DigitText(ds, false) + t;
      NextOf(DigitText(ds, false), t);
      ReadsNumeral(ds, t);
      NoDigits(10);
    case StarPrecision =>
      assert h.rest[1..] == "*" + t && h.rest[1..][1..] == t;
  }

  lemma ReadsLength(p: LengthPart, t: string, f: Flags)
    requires p.H? ==> Next(t) != 'h'
    requires p.L? ==> Next(t) != 'l'
    requires p.NoLength? ==> Next(t) !in "hljzt"
    ensures ParseModifier(LengthText(p) + t, f).1 == t
    ensures LengthAdded(f, p, ParseModifier(LengthText(p) + t, f).0)
  {
    hide LengthAdded;
    var s := LengthText(p) + t;
    NextOf(LengthText(p), t);
    match p
    case NoLength => NoneAdded(f);
    case HH =>
      assert s[1..][0] == 'h' && s[2..] == t;
      CharAdded(f);
    case H =>
      assert s[1..] == t;
      ShortAdded(f);
    case LL =>
      assert s[1..][0] == 'l' && s[2..] == t;
      LongLongAdded(f);
    case J =>
      assert s[1..] == t;
      MaxAdded(f);
    case _ =>
      assert s[1..] == t;
      LongAdded(f, p);
  }

  lemma NoneAdded(f: Flags)
    ensures LengthAdded(f, NoLength, f)
  {
  }

  lemma CharAdded(f: Flags)
    ensures LengthAdded(f, HH, f.(short := true).(chr := true))
  {
  }

  lemma ShortAdded(f: Flags)
    ensures LengthAdded(f, H, f.(short := true))
  {
  }

  lemma LongLongAdded(f: Flags)
    ensures LengthAdded(f, LL, f.(long := true).(longlong := true))
  {
  }

  lemma MaxAdded(f: Flags)
    ensures LengthAdded(f, J, f.(longlong := true))
  {
  }

  lemma LongAdded(f: Flags, p: LengthPart)
    requires p.L? || p.Z? || p.T?
    ensures LengthAdded(f, p, f.(long := true))
  {
  }

  predicate LengthAdded(f: Flags, p: LengthPart, g: Flags)
  {
    g.zeropad == f.zeropad && g.left == f.left && g.plus == f.plus && g.space == f.space &&
    g.hash == f.hash && g.upper == f.upper && g.precision == f.precision &&
    g.chr == (f.chr || p.HH?) && g.short == (f.short || p.H? || p.HH?) &&
    g.long == (f.long || p.L? || p.LL? || p.Z? || p.T?) && g.longlong == (f.longlong || p.LL? || p.J?)
  }

  // ----- the whole head

  /** What is written out is read as it was meant, up to its end; only a star whose argument is missing or
      no `int` stops the scanner. */
  lemma HeadOfSpelling(s: Spec, rest: string, args: seq<Arg>)
    requires WellFormed(s) && Ends(s, Next(rest))
    ensures var h := ParseHead(Spelled(s) + rest, args);
      if StarsGiven(s, args) then Says(h, s, args, rest) else h.NoHead?
  {
    hide ParseFlags, ParseWidth, ParsePrecision, ParseModifier, FlagsAdded, LengthAdded, FlagsSay, Value;
    var t3 := LengthText(s.length) + rest;
    var t2 := PrecisionText(s.precision) + t3;
    var t1 := WidthText(s.width) + t2;
    assert Spelled(s) + rest == s.flags + t1;
    Seams(s, rest);
    ReadsFlags(s.flags, t1, NO_FLAGS);
    var (f, t) := ParseFlags(s.flags + t1, NO_FLAGS);
    var h0 := Head(f, 0, 0, args, t);
    ReadsWidth(h0, s.width, t2);
    var h1 := ParseWidth(h0);
    if h1.Head? {
      ReadsPrecision(h1, s.precision, t3);
      var h2 := ParsePrecision(h1);
      if h2.Head? {
        ReadsLength(s.length, rest, h2.f);
        AllSaid(s, args, f, h2.f, ParseModifier(t3, h2.f).0);
      }
    }
  }

  /** No part runs on into the next. */
  lemma Seams(s: Spec, rest: string)
    requires WellFormed(s) && Ends(s, Next(rest))
    ensures var t3 := LengthText(s.length) + rest;
      var t2 := PrecisionText(s.precision) + t3;
      var t1 := WidthText(s.width) + t2;
      !IsFlag(Next(t1)) &&
      (!s.width.StarWidth? ==> !IsDigit(Next(t2))) && (s.width.NoWidth? ==> Next(t2) != '*') &&
      (s.precision.NoPrecision? ==> Next(t3) != '.') &&
      (s.precision.Precision? ==> !IsDigit(Next(t3)) && (s.precision.ds == [] ==> Next(t3) != '*'))
  {
    hide WidthText, PrecisionText, LengthText, DigitText;
    var t3 := LengthText(s.length) + rest;
    var t2 := PrecisionText(s.precision) + t3;
    LengthStart(s.length);
    PrecisionStart(s.precision);
    WidthStart(s.width);
    NextOf(LengthText(s.length), rest);
    NextOf(PrecisionText(s.precision), t3);
    NextOf(WidthText(s.width), t2);
  }

  lemma LengthStart(p: LengthPart)
    ensures var t := LengthText(p); if p.NoLength? then t == "" else t != "" && t[0] in "hljzt"
  {
  }

  lemma PrecisionStart(p: PrecisionPart)
    requires p.Precision? ==> AllBelow(p.ds, 10)
    ensures var t := PrecisionText(p); if p.NoPrecision? then t == "" else t != "" && t[0] == '.'
  {
  }

  lemma WidthStart(p: WidthPart)
    requires p.Width? ==> p.ds != [] && p.ds[0] != 0 && AllBelow(p.ds, 10)
    ensures var t := WidthText(p);
      match p
      case NoWidth => t == ""
      case Width(ds) => t != "" && '1' <= t[0] <= '9'
      case StarWidth => t == "*"
  {
    if p.Width? {
      assert p.ds[0] in {1, 2, 3, 4, 5, 6, 7, 8, 9};
    }
  }

  lemma AllSaid(s: Spec, args: seq<Arg>, f1: Flags, f2: Flags, f3: Flags)
    requires StarsGiven(s, args)
    requires FlagsAdded(NO_FLAGS, s.flags, f1)
    requires var g := if s.width.StarWidth? && Signed(args[0].w) < 0 then f1.(left := true) else f1;
      f2 == if s.precision.NoPrecision? then g else g.(precision := true)
    requires LengthAdded(f2, s.length, f3)
    ensures FlagsSay(f3, s, args)
  {
  }

  // ----- every format has a spelling

  lemma {:induction false} SplitFlags(s: string) returns (fl: string, t: string)
    ensures s == fl + t && (forall c | c in fl :: IsFlag(c)) && !IsFlag(Next(t))
    decreases |s|
  {
    if s != "" && IsFlag(s[0]) {
      var g, u := SplitFlags(s[1..]);
      return [s[0]] + g, u;
    } else {
      return "", s;
    }
  }

  lemma {:induction false} SplitDigits(s: string) returns (ds: seq<nat>, t: string)
    ensures AllBelow(ds, 10) && s == DigitText(ds, false) + t && !IsDigit(Next(t))
    ensures s != "" && IsDigit(s[0]) ==> ds != [] && ds[0] == s[0] as int - '0' as int
    decreases |s|
  {
    if s != "" && IsDigit(s[0]) {
      var es, u := SplitDigits(s[1..]);
      return [s[0] as int - '0' as int] + es, u;
    } else {
      return [], s;
    }
  }

  lemma SplitWidth(s: string) returns (p: WidthPart, t: string)
    requires !IsFlag(Next(s))
    ensures (p.Width? ==> p.ds != [] && p.ds[0] != 0 && AllBelow(p.ds, 10)) && s == WidthText(p) + t
    ensures !p.StarWidth? ==> !IsDigit(Next(t))
    ensures p.NoWidth? ==> t == s && Next(t) != '*'
  {
    if IsDigit(Next(s)) {
      var ds, u := SplitDigits(s);
      return Width(ds), u;
    } else if Next(s) == '*' {
      return StarWidth, s[1..];
    } else {
      return NoWidth, s;
    }
  }

  lemma SplitPrecision(s: string) returns (p: PrecisionPart, t: string)
    ensures (p.Precision? ==> AllBelow(p.ds, 10)) && s == PrecisionText(p) + t
    ensures p.NoPrecision? ==> t == s && Next(t) != '.'
    ensures p.Precision? ==> !IsDigit(Next(t)) && (p.ds == [] ==> Next(t) != '*')
  {
    if Next(s) != '.' {
      return NoPrecision, s;
    } else if Next(s[1..]) == '*' {
      return StarPrecision, s[2..];
    } else {
      var ds, u := SplitDigits(s[1..]);
      return Precision(ds), u;
    }
  }

  lemma SplitLength(s: string) returns (p: LengthPart, t: string)
    ensures s == LengthText(p) + t && (p.H? ==> Next(t) != 'h') && (p.L? ==> Next(t) != 'l')
    ensures p.NoLength? ==> t == s && Next(t) !in "hljzt"
  {
    if "hh" <= s {
      return HH, s[2..];
    } else if "ll" <= s {
      return LL, s[2..];
    } else if s != "" && s[0] in "hljzt" {
      p := match s[0] case 'h' => H case 'l' => L case 'j' => J case 'z' => Z case _ => T;
      return p, s[1..];
    } else {
      return NoLength, s;
    }
  }

  /** Whatever stands behind a percent sign is spelled out from parts, so that `HeadOfSpelling` says what
      the scanner makes of every format. */
  lemma EveryFormatIsSpelled(s: string) returns (p: Spec, rest: string)
    ensures WellFormed(p) && Ends(p, Next(rest)) && s == Spelled(p) + rest
  {
    hide WidthText, PrecisionText, LengthText, Next, IsFlag, IsDigit;
    var fl, t1 := SplitFlags(s);
    var w, t2 := SplitWidth(t1);
    var q, t3 := SplitPrecision(t2);
    var l, t4 := SplitLength(t3);
    p, rest := Spec(fl, w, q, l), t4;
    assert s == Spelled(p) + rest;
  }
}
