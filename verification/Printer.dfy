/** `_vsnprintf` of libc/printf.c: the scanner over the format and the conversions it calls. */
module Printer {
  import opened Machine
  import opened Format
  import opened FormatLaws
  import opened Printf

  // ----- reading the format

  /** The flag loop. */
  method ScanFlags(s: string) returns (f: Flags, t: string)
    ensures (f, t) == ParseFlags(s, NO_FLAGS)
  {
    f, t := NO_FLAGS, s;
    var n := true;
    while n
      invariant ParseFlags(s, NO_FLAGS) == ParseFlags(t, f)
      invariant !n ==> ParseFlags(t, f) == (f, t)
      decreases |t|, n
    {
      match Next(t)
      case '0' => f, t := f.(zeropad := true), t[1..];
      case '-' => f, t := f.(left := true), t[1..];
      case '+' => f, t := f.(plus := true), t[1..];
      case ' ' => f, t := f.(space := true), t[1..];
      case '#' => f, t := f.(hash := true), t[1..];
      case _ => n := false;
    }
  }

  /** `_atoi`. */
  method Atoi(s: string) returns (i: Word, t: string)
    ensures (i, t) == ParseNumber(s, 0)
  {
    hide Wrap;
    i, t := 0, s;
    while IsDigit(Next(t))
      invariant ParseNumber(s, 0) == ParseNumber(t, i)
      decreases |t|
    {
      i := Wrap(i * 10 + (t[0] as int - '0' as int));
      t := t[1..];
    }
  }

  /** The field width. */
  method ScanWidth(f: Flags, s: string, va: seq<Arg>)
    returns (ok: bool, g: Flags, width: Word, t: string, wa: seq<Arg>)
    ensures ok == ParseWidth(Head(f, 0, 0, va, s)).Head?
    ensures ok ==> ParseWidth(Head(f, 0, 0, va, s)) == Head(g, width, 0, wa, t)
  {
    hide ParseNumber, Wrap;
    ok, g, width, t, wa := true, f, 0, s, va;
    if IsDigit(Next(t)) {
      width, t := Atoi(t);
    } else if Next(t) == '*' {
      if wa == [] || !wa[0].Int32? {
        ok := false;
        return;
      }
      var w := wa[0].w;
      wa := wa[1..];
      if Signed(w) < 0 {
        g := g.(left := true);
        width := Wrap(-(w as int));
      } else {
        width := w;
      }
      t := t[1..];
    }
  }

  /** The precision. */
  method ScanPrecision(f: Flags, width: Word, s: string, va: seq<Arg>)
    returns (ok: bool, g: Flags, prec: Word, t: string, wa: seq<Arg>)
    ensures ok == ParsePrecision(Head(f, width, 0, va, s)).Head?
    ensures ok ==> ParsePrecision(Head(f, width, 0, va, s)) == Head(g, width, prec, wa, t)
  {
    hide ParseNumber, Wrap;
    ok, g, prec, t, wa := true, f, 0, s, va;
    if Next(t) == '.' {
      g := g.(precision := true);
      t := t[1..];
      if IsDigit(Next(t)) {
        prec, t := Atoi(t);
      } else if Next(t) == '*' {
        if wa == [] || !wa[0].Int32? {
          ok := false;
          return;
        }
        var p := wa[0].w;
        wa := wa[1..];
        prec := if Signed(p) > 0 then p else 0;
        t := t[1..];
      }
    }
  }

  /** The length modifier. */
  method ScanLength(f: Flags, s: string) returns (g: Flags, t: string)
    ensures (g, t) == ParseModifier(s, f)
  {
    g, t := f, s;
    var c := Next(t);
    if c == 'l' {
      g, t := g.(long := true), t[1..];
      if Next(t) == 'l' {
        g, t := g.(longlong := true), t[1..];
      }
    } else if c == 'h' {
      g, t := g.(short := true), t[1..];
      if Next(t) == 'h' {
        g, t := g.(chr := true), t[1..];
      }
    } else if c == 't' || c == 'z' {
      g, t := g.(long := true), t[1..];
    } else if c == 'j' {
      g, t := g.(longlong := true), t[1..];
    }
  }

  /** Everything between the percent sign and the conversion. */
  method ScanHead(s: string, va: seq<Arg>) returns (h: Head)
    ensures h == ParseHead(s, va)
  {
    hide ParseFlags, ParseWidth, ParsePrecision, ParseModifier;
    var f, t := ScanFlags(s);
    var ok, width, prec, wa;
    ok, f, width, t, wa := ScanWidth(f, t, va);
    if !ok {
      return NoHead;
    }
    ok, f, prec, t, wa := ScanPrecision(f, width, t, wa);
    if !ok {
      return NoHead;
    }
    f, t := ScanLength(f, t);
    h := Head(f, width, prec, wa, t);
  }

  // ----- the conversions

  /** `va_arg` and the casts to the width of the length modifier. */
  method TakeNumber(a: Arg, signed: bool, f: Flags) returns (ok: bool, value: nat, negative: bool)
    ensures NumberOf(a, signed, f) == if ok then Number(value, negative) else NoNumber
  {
    ok, value, negative := a.Int64? == f.longlong && !a.Str?, 0, false;
    if ok {
      if signed {
        var v := if f.longlong then SignedBits(a.x, 64)
                 else if f.long then SignedBits(a.w, 32)
                 else if f.chr then SignedBits(a.w, 8)
                 else if f.short then SignedBits(a.w, 16) else SignedBits(a.w, 32);
        value := if v > 0 then v else 0 - v;
        negative := v < 0;
      } else {
        value := if f.longlong then a.x
                 else if f.long then a.w
                 else if f.chr then a.w % 0x100
                 else if f.short then a.w % 0x1_0000 else a.w;
      }
    }
  }

  /** The base, and no alternate form in decimal. */
  method IntBase(c: char, f: Flags) returns (base: nat, g: Flags)
    requires IsIntConversion(c)
    ensures base == BaseOf(c) && g == HashFor(f, c)
  {
    g := f;
    if c == 'x' || c == 'X' {
      base := 16;
    } else if c == 'o' {
      base := 8;
    } else if c == 'b' {
      base := 2;
    } else {
      base := 10;
      g := g.(hash := false);
    }
  }

  /** The other flags that depend on the conversion. */
  method IntSettings(c: char, f: Flags) returns (base: nat, g: Flags)
    requires IsIntConversion(c)
    ensures base == BaseOf(c) && g == IntFlags(f, c)
  {
    hide BaseOf, HashFor, UpperFor, SignFor, PadFor;
    base, g := IntBase(c, f);
    UpperStep(g, c);
    if c == 'X' {
      g := g.(upper := true);
    }
    SignStep(g, c);
    if c != 'i' && c != 'd' {
      g := g.(plus := false).(space := false);
    }
    PadStep(g);
    if g.precision {
      g := g.(zeropad := false);
    }
  }

  lemma UpperStep(f: Flags, c: char)
    ensures UpperFor(f, c) == if c == 'X' then f.(upper := true) else f
  {
  }

  lemma SignStep(f: Flags, c: char)
    ensures SignFor(f, c) == if c != 'i' && c != 'd' then f.(plus := false).(space := false) else f
  {
  }

  lemma PadStep(f: Flags)
    ensures PadFor(f) == if f.precision then f.(zeropad := false) else f
  {
  }

  /** The integer conversions. */
  method ConvertInt(out: Output, buffer: array<char>, idx: Word, maxlen: Word, c: char,
                    width: Word, prec: Word, f: Flags, a: Arg) returns (ok: bool, next: Word)
    requires Limit(out, maxlen) <= buffer.Length && IsIntConversion(c)
    modifies buffer
    ensures var g := IntFlags(f, c);
      var n := NumberOf(a, c == 'd' || c == 'i', g);
      ok == n.Number? &&
      (ok ==> Wrote(old(buffer[..]), idx,
                    IntText(n.magnitude, n.negative, BaseOf(c), prec, width, g),
                    Limit(out, maxlen), buffer[..], next))
  {
    hide Wrote, IntText, NumberOf, Limit, IntFlags, BaseOf;
    var base, g := IntSettings(c, f);
    var value, negative;
    ok, value, negative := TakeNumber(a, c == 'i' || c == 'd', g);
    next := idx;
    if ok {
      next := Ntoa(out, buffer, idx, maxlen, value, negative, base, prec, width, g);
    }
  }

  /** `%c`. */
  method ConvertChar(out: Output, buffer: array<char>, idx: Word, maxlen: Word,
                     width: Word, f: Flags, w: Word) returns (next: Word)
    requires Limit(out, maxlen) <= buffer.Length
    modifies buffer
    ensures Wrote(old(buffer[..]), idx, CharText(w, width, f), Limit(out, maxlen), buffer[..], next)
  {
    hide Wrote, Limit, Repeat;
    ghost var b, limit := buffer[..], Limit(out, maxlen);
    ghost var text := [(w % 256) as char];
    ghost var pad := Repeat(' ', width - 1);
    next := idx;
    if !f.left {
      next := Pad(out, buffer, next, maxlen, 1, width);
      ghost var c, j := buffer[..], next;
      next := Out(out, (w % 256) as char, buffer, next, maxlen);
      WroteMore(b, idx, pad, limit, c, j, text, buffer[..], next);
    } else {
      next := Out(out, (w % 256) as char, buffer, next, maxlen);
      ghost var c, j := buffer[..], next;
      next := Pad(out, buffer, next, maxlen, 1, width);
      WroteMore(b, idx, text, limit, c, j, pad, buffer[..], next);
    }
  }

  /** `_strnlen_s` on a string and the NUL behind it. Each character is looked at before the bound is,
      so `last`, the last position looked at, is one past the characters counted. */
  method Strnlen(s: string, maxsize: Word) returns (n: nat, ghost last: nat)
    ensures n == Min(|s|, maxsize) && last == n
  {
    n, last := 0, 0;
    var left: int := maxsize;
    while n < |s| && left > 0
      invariant 0 <= n <= |s| && left == maxsize - n && left >= 0 && last == n
    {
      left := left - 1;
      n := n + 1;
      last := n;
    }
  }

  /** The loop that writes a string, at most `prec` characters of it if there is a precision. It, too,
      looks at a character before it looks at the precision. */
  method WriteString(out: Output, buffer: array<char>, idx: Word, maxlen: Word,
                     s: string, precision: bool, prec: Word) returns (next: Word, ghost last: nat)
    requires Limit(out, maxlen) <= buffer.Length
    modifies buffer
    ensures last == if precision then Min(|s|, prec) else |s|
    ensures Wrote(old(buffer[..]), idx, if precision && prec < |s| then s[..prec] else s,
                  Limit(out, maxlen), buffer[..], next)
  {
    hide Wrote, Limit;
    ghost var b, limit := buffer[..], Limit(out, maxlen);
    next := idx;
    WroteNothing(b, idx, limit);
    var p, left: int := 0, prec;
    last := 0;
    assert s[..0] == "";
    while p < |s| && (!precision || left > 0)
      invariant 0 <= p <= |s| && (precision ==> left == prec - p && left >= 0)
      invariant Wrote(b, idx, s[..p], limit, buffer[..], next) && last == p
    {
      left := left - 1;
      ghost var c, j := buffer[..], next;
      next := Out(out, s[p], buffer, next, maxlen);
      WroteMore(b, idx, s[..p], limit, c, j, [s[p]], buffer[..], next);
      assert s[..p] + [s[p]] == s[..p + 1];
      p := p + 1;
      last := p;
    }
    assert s[..|s|] == s;
  }

  /** `%s`. The string is read up to and including position `last`: the one behind the precision, and
      for a precision of zero all of it with its NUL. */
  method ConvertStr(out: Output, buffer: array<char>, idx: Word, maxlen: Word,
                    width: Word, prec: Word, f: Flags, s: string)
    returns (next: Word, ghost last: nat)
    requires Limit(out, maxlen) <= buffer.Length && |s| < 0x1_0000_0000
    requires !f.precision ==> prec == 0
    modifies buffer
    ensures Wrote(old(buffer[..]), idx, StrText(s, prec, width, f), Limit(out, maxlen),
                  buffer[..], next)
    ensures last == if prec > 0 then Min(|s|, prec) else |s|
  {
    hide Wrote, Limit, Repeat;
    ghost var b, limit := buffer[..], Limit(out, maxlen);
    ghost var text := if f.precision && prec < |s| then s[..prec] else s;
    var l;
    l, last := Strnlen(s, if prec != 0 then prec else 0xFFFF_FFFF);
    ghost var written;
    if f.precision {
      l := if l < prec then l else prec;
    }
    next := idx;
    if !f.left {
      next := Pad(out, buffer, next, maxlen, l, width);
      ghost var c, j := buffer[..], next;
      next, written := WriteString(out, buffer, next, maxlen, s, f.precision, prec);
      WroteMore(b, idx, Repeat(' ', width - l), limit, c, j, text, buffer[..], next);
    } else {
      next, written := WriteString(out, buffer, next, maxlen, s, f.precision, prec);
      ghost var c, j := buffer[..], next;
      next := Pad(out, buffer, next, maxlen, l, width);
      WroteMore(b, idx, text, limit, c, j, Repeat(' ', width - l), buffer[..], next);
    }
    last := Max(last, written);
  }

  /** `%p`. */
  method ConvertAddress(out: Output, buffer: array<char>, idx: Word, maxlen: Word,
                        prec: Word, f: Flags, w: Word) returns (next: Word)
    requires Limit(out, maxlen) <= buffer.Length
    modifies buffer
    ensures Wrote(old(buffer[..]), idx, IntText(w, false, 16, prec, ADDRESS_WIDTH, AddressFlags(f)),
                  Limit(out, maxlen), buffer[..], next)
  {
    hide Wrote, Limit, IntText;
    var g := f.(zeropad := true).(upper := true);
    next := Ntoa(out, buffer, idx, maxlen, w, false, 16, prec, ADDRESS_WIDTH, g);
  }

  // ----- _vsnprintf

  ghost predicate AllPassable(va: seq<Arg>)
  {
    forall i :: 0 <= i < |va| ==> Passable(va[i])
  }

  /** A head only takes arguments away, and has a precision only with its flag. */
  lemma HeadKeeps(s: string, va: seq<Arg>)
    requires AllPassable(va) && ParseHead(s, va).Head?
    ensures AllPassable(ParseHead(s, va).args)
    ensures !ParseHead(s, va).f.precision ==> ParseHead(s, va).prec == 0
  {
    hide ParseFlags, ParseNumber, ParseModifier, Passable, Wrap;
  }

  /** The conversion that ends a head. */
  method Specifier(out: Output, buffer: array<char>, idx: Word, maxlen: Word, h: Head)
    returns (ok: bool, next: Word, va: seq<Arg>)
    requires Limit(out, maxlen) <= buffer.Length
    requires h.Head? && h.rest != "" && AllPassable(h.args) && (!h.f.precision ==> h.prec == 0)
    modifies buffer
    ensures ok == Convert(h).Rendered?
    ensures ok ==> va == Convert(h).args && AllPassable(va)
    ensures ok ==> Wrote(old(buffer[..]), idx, Convert(h).text, Limit(out, maxlen), buffer[..], next)
  {
    hide Wrote, Limit, IntText, CharText, StrText, NumberOf, IntFlags, AddressFlags, BaseOf, IsUnmodelled,
         IsIntConversion;
    ok, next, va := false, idx, h.args;
    var c := h.rest[0];
    if IsUnmodelled(c) {
      return;
    }
    if IsIntConversion(c) {
      if va != [] {
        ok, next := ConvertInt(out, buffer, idx, maxlen, c, h.width, h.prec, h.f, va[0]);
        va := va[1..];
      }
    } else if c == 'c' {
      if va != [] && va[0].Int32? {
        next := ConvertChar(out, buffer, idx, maxlen, h.width, h.f, va[0].w);
        ok, va := true, va[1..];
      }
    } else if c == 's' {
      if va != [] && va[0].Str? {
        assert Passable(va[0]);
        ghost var last;
        next, last := ConvertStr(out, buffer, idx, maxlen, h.width, h.prec, h.f, va[0].s);
        ok, va := true, va[1..];
      }
    } else if c == 'p' {
      if va != [] && va[0].Int32? {
        next := ConvertAddress(out, buffer, idx, maxlen, h.prec, h.f, va[0].w);
        ok, va := true, va[1..];
      }
    } else {
      next := Out(out, c, buffer, idx, maxlen);
      ok := true;
    }
  }

  /** The text written so far and the rest of the format make up the text of the whole format. */
  lemma RenderChar(s: string, va: seq<Arg>, t: string)
    requires s != "" && s[0] != '%'
    ensures Prepend(t, Render(s, va)) == Prepend(t + [s[0]], Render(s[1..], va))
  {
    hide ParseHead, Convert;
    PrependTwice(t, [s[0]], Render(s[1..], va));
  }

  lemma RenderSpecifier(s: string, va: seq<Arg>, t: string)
    requires s != "" && s[0] == '%'
    ensures var h := ParseHead(s[1..], va);
      var o := Prepend(t, Render(s, va));
      if h.NoHead? || h.rest == "" || !Convert(h).Rendered? then !o.Rendered?
      else o == Prepend(t + Convert(h).text, Render(h.rest[1..], Convert(h).args))
  {
    hide ParseHead, Convert;
    var h := ParseHead(s[1..], va);
    if h.Head? && h.rest != "" && Convert(h).Rendered? {
      PrependTwice(t, Convert(h).text, Render(h.rest[1..], Convert(h).args));
    }
  }

  lemma RenderEnd(va: seq<Arg>, t: string)
    ensures Prepend(t, Render("", va)) == Rendered(t, va)
  {
    assert t + "" == t;
  }

  /** The scanner, up to the termination of the text. */
  method Scan(out: Output, buffer: array<char>, maxlen: Word, format: string, args: seq<Arg>)
    returns (ok: bool, idx: Word)
    requires Limit(out, maxlen) <= buffer.Length && AllPassable(args) && '\0' !in format
    modifies buffer
    ensures ok == Render(format, args).Rendered?
    ensures ok ==> Wrote(old(buffer[..]), 0, Render(format, args).text, Limit(out, maxlen),
                         buffer[..], idx)
  {
    hide Wrote, Limit, Render, Prepend, ParseHead, Convert, AllPassable;
    ghost var b, limit, t := buffer[..], Limit(out, maxlen), "";
    var s, va := format, args;
    ok, idx := true, 0;
    PrependNothing(Render(format, args));
    WroteNothing(b, 0, limit);
    while s != ""
      invariant Render(format, args) == Prepend(t, Render(s, va))
      invariant Wrote(b, 0, t, limit, buffer[..], idx) && AllPassable(va)
      decreases |s|
    {
      ghost var c, j := buffer[..], idx;
      if s[0] != '%' {
        RenderChar(s, va, t);
        idx := Out(out, s[0], buffer, idx, maxlen);
        WroteMore(b, 0, t, limit, c, j, [s[0]], buffer[..], idx);
        t := t + [s[0]];
        s := s[1..];
        continue;
      }
      RenderSpecifier(s, va, t);
      var h := ScanHead(s[1..], va);
      if h.NoHead? || h.rest == "" {
        ok := false;
        return;
      }
      HeadKeeps(s[1..], va);
      ok, idx, va := Specifier(out, buffer, idx, maxlen, h);
      if !ok {
        return;
      }
      WroteMore(b, 0, t, limit, c, j, Convert(h).text, buffer[..], idx);
      t := t + Convert(h).text;
      s := h.rest[1..];
    }
    RenderEnd(va, t);
  }

  /** `_vsnprintf` with a buffer that may be null: the number of characters of the text, and the
      buffer as `Printed` describes it. Where C leaves the behaviour undefined, or the format is not
      modelled, `ok` is false and nothing is promised. */
  method Vsnprintf(out: Output, buffer: array?<char>, maxlen: Word, format: string, args: seq<Arg>)
    returns (ok: bool, ret: int)
    requires buffer != null && out.ToBuffer? ==> maxlen <= buffer.Length
    requires AllPassable(args) && '\0' !in format
    modifies buffer
    ensures ok == Render(format, args).Rendered?
    ensures ok ==> ret == Signed(Wrap(|Render(format, args).text|))
    ensures ok && buffer != null ==>
              buffer[..] == Printed(old(buffer[..]), Render(format, args).text, Limit(out, maxlen))
  {
    hide Render, AllPassable, Emit;
    var o, sink := out, buffer;
    if buffer == null {
      o, sink := ToNull, new char[0];
    }
    ghost var b := sink[..];
    var idx;
    ok, idx := Scan(o, sink, maxlen, format, args);
    ghost var e := sink[..];
    if o.ToBuffer? {
      var at := if idx < maxlen then idx else Wrap(maxlen - 1);
      if at < maxlen {
        sink[at] := '\0';
      }
    }
    ret := Signed(idx);
    if ok {
      Terminated(b, Render(format, args).text, Limit(o, maxlen), e, idx, sink[..]);
    }
  }

  lemma Terminated(b: seq<char>, t: string, limit: Word, e: seq<char>, idx: Word, c: seq<char>)
    requires limit <= |b| == |e| && Wrote(b, 0, t, limit, e, idx)
    requires c == if limit == 0 then e else e[(if idx < limit then idx else limit - 1) := '\0']
    ensures c == Printed(b, t, limit) && idx == Wrap(|t|)
  {
    hide Emit;
  }

  /** `snprintf`. */
  method Snprintf(buffer: array?<char>, count: Word, format: string, args: seq<Arg>)
    returns (ok: bool, ret: int)
    requires buffer != null ==> count <= buffer.Length
    requires AllPassable(args) && '\0' !in format
    modifies buffer
    ensures ok == Render(format, args).Rendered?
    ensures ok ==> ret == Signed(Wrap(|Render(format, args).text|))
    ensures ok && buffer != null ==>
              buffer[..] == Printed(old(buffer[..]), Render(format, args).text, count)
  {
    hide Render, AllPassable, Printed;
    ok, ret := Vsnprintf(ToBuffer, buffer, count, format, args);
  }
}
