/** `_vsnprintf` of libc/printf.c and the functions it is made of, step by step, against the text
    that module Format gives. */
module Printf {
  import opened Machine
  import opened Numerals
  import opened Format
  import opened FormatLaws

  // ----- the output function

  /** `_out_buffer`, or `_out_null`, which drops everything. */
  datatype Output = ToBuffer | ToNull

  function Limit(out: Output, maxlen: Word): nat
  {
    if out.ToNull? then 0 else maxlen
  }

  /** From buffer `b` and index `i`, writing `t` leads to buffer `c` and index `j`. */
  ghost predicate Wrote(b: seq<char>, i: Word, t: string, limit: nat, c: seq<char>, j: Word)
    requires limit <= |b|
  {
    c == Emit(b, i, t, limit) && j == Wrap(i + |t|)
  }

  lemma WroteNothing(b: seq<char>, i: Word, limit: nat)
    requires limit <= |b|
    ensures Wrote(b, i, "", limit, b, i)
  {
  }

  /** Writing goes on where it stopped. */
  lemma WroteMore(b: seq<char>, i: Word, t: string, limit: nat, c: seq<char>, j: Word,
                  u: string, d: seq<char>, k: Word)
    requires limit <= |b| && Wrote(b, i, t, limit, c, j)
    requires |c| == |b| && Wrote(c, j, u, limit, d, k)
    ensures Wrote(b, i, t + u, limit, d, k)
  {
    EmitAppend(b, i, t, u, limit);
    WrapAdd(i, |t|, |u|);
  }

  /** `out(character, buffer, idx++, maxlen)`. */
  method Out(out: Output, character: char, buffer: array<char>, idx: Word, maxlen: Word)
    returns (next: Word)
    requires Limit(out, maxlen) <= buffer.Length
    modifies buffer
    ensures Wrote(old(buffer[..]), idx, [character], Limit(out, maxlen), buffer[..], next)
  {
    assert [character][1..] == "";
    assert Emit(buffer[..], idx, [character], Limit(out, maxlen)) ==
           if idx < Limit(out, maxlen) then buffer[..][idx := character] else buffer[..];
    if out.ToBuffer? {
      if idx < maxlen {
        buffer[idx] := character;
      }
    }
    next := Wrap(idx + 1);
  }

  lemma OneMore(c: char, n: nat)
    ensures Repeat(c, n) + [c] == Repeat(c, n + 1)
  {
  }

  /** The loops that write spaces from a count up to the field width. */
  method Pad(out: Output, buffer: array<char>, idx: Word, maxlen: Word, from: Word, width: Word)
    returns (next: Word)
    requires Limit(out, maxlen) <= buffer.Length
    modifies buffer
    ensures Wrote(old(buffer[..]), idx, Repeat(' ', width - from), Limit(out, maxlen), buffer[..], next)
  {
    hide Wrote, Repeat, Limit;
    ghost var b := buffer[..];
    ghost var limit := Limit(out, maxlen);
    next := idx;
    var l: int := from;
    NoSpaces(width - from);
    WroteNothing(b, idx, limit);
    while l < width
      invariant from <= l && (l <= width || l == from)
      invariant Wrote(b, idx, Repeat(' ', l - from), limit, buffer[..], next)
    {
      ghost var c, j := buffer[..], next;
      next := Out(out, ' ', buffer, next, maxlen);
      WroteMore(b, idx, Repeat(' ', l - from), limit, c, j, " ", buffer[..], next);
      OneMore(' ', l - from);
      l := l + 1;
    }
  }

  lemma NoSpaces(n: int)
    ensures Repeat(' ', 0) == "" && (n <= 0 ==> Repeat(' ', n) == "")
  {
  }

  // ----- the reversed digit buffer

  /** `_out_rev`. */
  method OutRev(out: Output, buffer: array<char>, idx: Word, maxlen: Word,
                buf: array<char>, len: Word, width: Word, f: Flags) returns (next: Word)
    requires Limit(out, maxlen) <= buffer.Length && buf != buffer && len <= buf.Length
    modifies buffer
    ensures Wrote(old(buffer[..]), idx, Aligned(Reverse(buf[..len]), width, f), Limit(out, maxlen),
                  buffer[..], next)
  {
    hide Wrote, Repeat, Limit, Reverse;
    ghost var b := buffer[..];
    ghost var limit := Limit(out, maxlen);
    ghost var t := Reverse(buf[..len]);
    next := idx;
    WroteNothing(b, idx, limit);
    ghost var lead := "";
    if !f.left && !f.zeropad {
      next := Pad(out, buffer, next, maxlen, len, width);
      lead := Repeat(' ', width - len);
    }
    ghost var c, j := buffer[..], next;
    next := WriteReversed(out, buffer, next, maxlen, buf, len);
    WroteMore(b, idx, lead, limit, c, j, t, buffer[..], next);
    if f.left {
      assert lead + t == t;
      next := PadBehind(out, buffer, idx, next, maxlen, t, width, b);
      assert "" + t + Repeat(' ', width - |t|) == t + Repeat(' ', width - |t|);
    } else {
      assert lead + t + "" == lead + t;
    }
  }

  lemma ReverseStep(s: string, l: nat)
    requires 0 < l <= |s|
    ensures Reverse(s[l..]) + [s[l - 1]] == Reverse(s[l - 1..])
    ensures Reverse(s[|s|..]) == ""
  {
  }

  /** The loop that writes the buffer from its end. */
  method WriteReversed(out: Output, buffer: array<char>, idx: Word, maxlen: Word,
                       buf: array<char>, len: nat) returns (next: Word)
    requires Limit(out, maxlen) <= buffer.Length && buf != buffer && len <= buf.Length
    modifies buffer
    ensures Wrote(old(buffer[..]), idx, Reverse(buf[..len]), Limit(out, maxlen), buffer[..], next)
  {
    hide Wrote, Reverse, Limit;
    ghost var b := buffer[..];
    ghost var limit := Limit(out, maxlen);
    ghost var s := buf[..len];
    next := idx;
    var l: nat := len;
    assert s[len..] == "" && Reverse(s[len..]) == "";
    WroteNothing(b, idx, limit);
    while l != 0
      invariant l <= len && buf[..len] == s
      invariant Wrote(b, idx, Reverse(s[l..]), limit, buffer[..], next)
    {
      ghost var c, j := buffer[..], next;
      ReverseStep(s, l);
      l := l - 1;
      assert buf[l] == s[l];
      next := Out(out, buf[l], buffer, next, maxlen);
      WroteMore(b, idx, Reverse(s[l + 1..]), limit, c, j, [s[l]], buffer[..], next);
    }
    assert s[0..] == s;
  }

  lemma WrapDifference(start: Word, n: nat)
    requires n < 0x1_0000_0000
    ensures Wrap(Wrap(start + n) - start) == n
  {
  }

  /** The loop that writes spaces until the field, measured from its start index, is wide enough. */
  method PadBehind(out: Output, buffer: array<char>, start: Word, idx: Word, maxlen: Word,
                   ghost t: string, width: Word, ghost b: seq<char>) returns (next: Word)
    requires Limit(out, maxlen) <= buffer.Length == |b| && |t| < 0x1_0000_0000
    requires Wrote(b, start, t, Limit(out, maxlen), buffer[..], idx)
    modifies buffer
    ensures Wrote(b, start, t + Repeat(' ', width - |t|), Limit(out, maxlen), buffer[..], next)
  {
    hide Repeat, Limit, Emit;
    ghost var limit := Limit(out, maxlen);
    next := idx;
    ghost var n := 0;
    NoSpaces(width - |t|);
    assert t + "" == t;
    WrapDifference(start, |t|);
    while Wrap(next - start) < width
      invariant n == 0 || |t| + n <= width
      invariant Wrote(b, start, t + Repeat(' ', n), limit, buffer[..], next)
      invariant Wrap(next - start) == |t| + n
      decreases width - n
    {
      ghost var c, j := buffer[..], next;
      next := Out(out, ' ', buffer, next, maxlen);
      WroteMore(b, start, t + Repeat(' ', n), limit, c, j, " ", buffer[..], next);
      OneMore(' ', n);
      assert t + Repeat(' ', n) + " " == t + (Repeat(' ', n) + " ");
      n := n + 1;
      WrapDifference(start, |t| + n);
    }
  }

  // ----- the format of an integer

  /** `if (len < PRINTF_NTOA_BUFFER_SIZE) buf[len++] = c`. */
  method Push(buf: array<char>, len: nat, c: char) returns (n: nat)
    requires buf.Length == NTOA_BUFFER_SIZE && len <= NTOA_BUFFER_SIZE
    modifies buf
    ensures len <= n <= NTOA_BUFFER_SIZE
    ensures Reverse(buf[..n]) == InFront(c, Reverse(old(buf[..len])))
    ensures len < NTOA_BUFFER_SIZE ==>
              n == len + 1 && Reverse(buf[..n]) == [c] + Reverse(old(buf[..len]))
  {
    n := len;
    if len < NTOA_BUFFER_SIZE {
      buf[len] := c;
      n := len + 1;
      assert buf[..n] == old(buf[..len]) + [c];
    }
  }

  /** A loop that pushes zeros up to some length. */
  method PushZeros(buf: array<char>, len: nat, upTo: Word) returns (n: nat)
    requires buf.Length == NTOA_BUFFER_SIZE && len <= NTOA_BUFFER_SIZE
    modifies buf
    ensures n == Max(len, Min(upTo, NTOA_BUFFER_SIZE))
    ensures Reverse(buf[..n]) == Repeat('0', n - len) + Reverse(old(buf[..len]))
  {
    hide Reverse, Repeat, InFront;
    n := len;
    ghost var d := Reverse(buf[..len]);
    NoZeros(d);
    while n < upTo && n < NTOA_BUFFER_SIZE
      invariant len <= n <= NTOA_BUFFER_SIZE && (n == len || n <= upTo)
      invariant Reverse(buf[..n]) == Repeat('0', n - len) + d
    {
      MoreZeros(n - len, d);
      n := Push(buf, n, '0');
    }
  }

  /** The leading zeros. */
  method PadZeros(buf: array<char>, len: nat, prec: Word, width: Word, f: Flags) returns (n: nat)
    requires buf.Length == NTOA_BUFFER_SIZE && len <= NTOA_BUFFER_SIZE
    modifies buf
    ensures n <= NTOA_BUFFER_SIZE
    ensures Reverse(buf[..n]) == ZeroFilled(Reverse(old(buf[..len])), prec, width, f)
  {
    hide Reverse, Repeat, ZeroFilled;
    n := len;
    ghost var d := Reverse(buf[..len]);
    LeftHasNone(d, prec, width, f);
    if !f.left {
      n := PushZeros(buf, n, prec);
      ghost var k := n;
      if f.zeropad {
        n := PushZeros(buf, n, width);
      } else {
        NoZeros(Repeat('0', k - len) + d);
      }
      ZerosAddUp(n - k, k - len, d);
      FillsTo(d, n, prec, width, f);
    }
  }

  lemma NoZeros(d: string)
    ensures Repeat('0', 0) + d == d
  {
  }

  lemma ZerosAddUp(m: nat, n: nat, d: string)
    ensures Repeat('0', m) + (Repeat('0', n) + d) == Repeat('0', m + n) + d
  {
  }

  lemma LeftHasNone(d: string, prec: Word, width: Word, f: Flags)
    ensures f.left ==> ZeroFilled(d, prec, width, f) == d
  {
  }

  lemma MoreZeros(n: nat, d: string)
    ensures ['0'] + (Repeat('0', n) + d) == Repeat('0', n + 1) + d
  {
  }

  lemma FillsTo(d: string, n: nat, prec: Word, width: Word, f: Flags)
    requires !f.left && n >= |d|
    requires n == Max(|d|, Max(Min(prec, NTOA_BUFFER_SIZE),
                               if f.zeropad then Min(width, NTOA_BUFFER_SIZE) else 0))
    ensures Repeat('0', n - |d|) + d == ZeroFilled(d, prec, width, f)
  {
  }

  /** What is taken away for the prefix. */
  method Strip(buf: array<char>, len: nat, base: nat, prec: Word, width: Word, f: Flags)
    returns (n: nat)
    requires len <= buf.Length
    ensures n == len - StripCount(Reverse(buf[..len]), base, prec, width, f)
    ensures Reverse(buf[..n]) == Reverse(buf[..len])[len - n..]
  {
    n := len;
    if !f.precision && n != 0 && (n == prec || n == width) {
      n := n - 1;
      if n != 0 && base == 16 {
        n := n - 1;
      }
    }
    ReverseCut(buf[..len], n);
    assert buf[..len][..n] == buf[..n];
  }

  /** The prefix of the alternate form. */
  method AddPrefix(buf: array<char>, len: nat, base: nat, prec: Word, width: Word, f: Flags)
    returns (n: nat)
    requires buf.Length == NTOA_BUFFER_SIZE && len <= NTOA_BUFFER_SIZE && f.hash
    modifies buf
    ensures n <= NTOA_BUFFER_SIZE
    ensures Reverse(buf[..n]) == Prefixed(Reverse(old(buf[..len])), base, prec, width, f)
  {
    hide Reverse, StripCount;
    n := Strip(buf, len, base, prec, width, f);
    if base == 16 && !f.upper && n < NTOA_BUFFER_SIZE {
      n := Push(buf, n, 'x');
    } else if base == 16 && f.upper && n < NTOA_BUFFER_SIZE {
      n := Push(buf, n, 'X');
    } else if base == 2 && n < NTOA_BUFFER_SIZE {
      n := Push(buf, n, 'b');
    }
    n := Push(buf, n, '0');
  }

  lemma ReverseCut(s: string, n: nat)
    requires n <= |s|
    ensures Reverse(s[..n]) == Reverse(s)[|s| - n..]
  {
  }

  /** `_ntoa_format`. */
  method NtoaFormat(out: Output, buffer: array<char>, idx: Word, maxlen: Word, buf: array<char>,
                    len: nat, negative: bool, base: nat, prec: Word, width: Word, f: Flags)
    returns (next: Word)
    requires Limit(out, maxlen) <= buffer.Length && buf != buffer
    requires buf.Length == NTOA_BUFFER_SIZE && len <= NTOA_BUFFER_SIZE
    modifies buffer, buf
    ensures Wrote(old(buffer[..]), idx,
                  FieldText(Reverse(old(buf[..len])), negative, base, prec, width, f),
                  Limit(out, maxlen), buffer[..], next)
  {
    hide Wrote, Reverse, Limit, Aligned, ZeroFilled, Prefixed, InFront;
    var w := width;
    if !f.left {
      if w > 0 && f.zeropad && (negative || f.plus || f.space) {
        w := w - 1;
      }
    }
    var n := PadZeros(buf, len, prec, w, f);
    if f.hash {
      n := AddPrefix(buf, n, base, prec, w, f);
    } else {
      NoPrefix(Reverse(buf[..n]), base, prec, w, f);
    }
    if negative {
      n := Push(buf, n, '-');
    } else if f.plus {
      n := Push(buf, n, '+');
    } else if f.space {
      n := Push(buf, n, ' ');
    }
    next := OutRev(out, buffer, idx, maxlen, buf, n, w, f);
  }

  lemma NoPrefix(t: string, base: nat, prec: Word, width: Word, f: Flags)
    requires !f.hash
    ensures Prefixed(t, base, prec, width, f) == t
  {
  }

  // ----- the digits of an integer

  /** The buffer holds the last `len` digits of a number, last first, and `v` has the others. */
  ghost predicate DigitsSoFar(b: seq<char>, len: nat, v: nat, value: nat, base: nat, upper: bool)
    requires 2 <= base <= 16
  {
    var ds := Digits(value, base);
    len <= |ds| && len <= |b| && Digits(v, base) == ds[..|ds| - len] && AllBelow(ds, 36) &&
    Reverse(b[..len]) == Text(ds[|ds| - len..], upper)
  }

  /** One round of the digit loop. */
  method PutDigit(buf: array<char>, len: nat, v: nat, base: nat, upper: bool, ghost value: nat)
    returns (q: nat)
    requires buf.Length == NTOA_BUFFER_SIZE && len < NTOA_BUFFER_SIZE && 2 <= base <= 16
    requires v > 0 ==> DigitsSoFar(buf[..], len, v, value, base, upper)
    requires v == 0 ==> len == 0
    modifies buf
    ensures q <= v && (v > 0 ==> q < v && DigitsSoFar(buf[..], len + 1, q, value, base, upper))
    ensures v == 0 ==> Reverse(buf[..1]) == "0" && q == 0
  {
    hide Digits, Text, Reverse;
    ghost var b := buf[..];
    var digit := v % base;
    DigitsStep(v, base);
    buf[len] := if digit < 10 then '0' + digit as char
                else (if upper then 'A' else 'a') + (digit - 10) as char;
    q := v / base;
    if v > 0 {
      OneDigitMore(b, buf[..], len, v, value, base, upper);
    } else {
      assert buf[..1] == ['0'];
      assert Reverse("0") == "0" by { ReverseOne('0'); }
    }
  }

  lemma ReverseOne(c: char)
    ensures Reverse([c]) == [c]
  {
  }

  lemma OneDigitMore(b: seq<char>, c: seq<char>, len: nat, v: nat, value: nat, base: nat, upper: bool)
    requires 2 <= base <= 16 && v > 0 && DigitsSoFar(b, len, v, value, base, upper)
    requires len < |b| && c == b[len := DigitChar(v % base, upper)]
    ensures DigitsSoFar(c, len + 1, v / base, value, base, upper)
  {
    hide Digits, Text, Reverse;
    var ds := Digits(value, base);
    NextDigit(ds, v, base, len);
    assert c[..len + 1] == b[..len] + [DigitChar(v % base, upper)];
    ReverseSnoc(b[..len], DigitChar(v % base, upper));
    var k := |ds| - len - 1;
    assert ds[k..] == [ds[k]] + ds[k + 1..];
    TextCons(ds[k], ds[k + 1..], upper);
  }

  lemma ReverseSnoc(s: string, c: char)
    ensures Reverse(s + [c]) == [c] + Reverse(s)
  {
  }

  lemma TextCons(d: nat, ds: seq<nat>, upper: bool)
    requires d < 36 && AllBelow(ds, 36)
    ensures AllBelow([d] + ds, 36) && Text([d] + ds, upper) == [DigitChar(d, upper)] + Text(ds, upper)
  {
  }

  /** The digit loop, which runs at least once. */
  method PutDigits(buf: array<char>, value: nat, base: nat, f: Flags) returns (len: nat)
    requires buf.Length == NTOA_BUFFER_SIZE && 2 <= base <= 16
    requires value == 0 ==> !f.precision
    modifies buf
    ensures len <= NTOA_BUFFER_SIZE && Reverse(buf[..len]) == IntDigits(value, base, f)
  {
    hide Digits, Text, Reverse, IntDigits, DigitsSoFar;
    NoDigitsYet(buf[..], value, base, f.upper);
    var v := PutDigit(buf, 0, value, base, f.upper, value);
    len := 1;
    if value == 0 {
      ZeroIsOneDigit(base, f);
    }
    while v != 0 && len < NTOA_BUFFER_SIZE
      invariant len <= NTOA_BUFFER_SIZE
      invariant value > 0 ==> DigitsSoFar(buf[..], len, v, value, base, f.upper)
      invariant value == 0 ==> v == 0 && len == 1 && Reverse(buf[..1]) == "0"
      decreases v
    {
      v := PutDigit(buf, len, v, base, f.upper, value);
      len := len + 1;
    }
    if value > 0 {
      DigitsDone(buf[..], len, v, value, base, f);
      assert buf[..][..len] == buf[..len];
    }
  }

  lemma NoDigitsYet(b: seq<char>, value: nat, base: nat, upper: bool)
    requires 2 <= base <= 16
    ensures DigitsSoFar(b, 0, value, value, base, upper)
  {
    DigitsDenote(value, base);
  }

  lemma ZeroIsOneDigit(base: nat, f: Flags)
    requires 2 <= base <= 16 && !f.precision
    ensures IntDigits(0, base, f) == "0"
  {
  }

  lemma DigitsDone(b: seq<char>, len: nat, v: nat, value: nat, base: nat, f: Flags)
    requires 2 <= base <= 16 && value > 0 && DigitsSoFar(b, len, v, value, base, f.upper)
    requires v == 0 || len == NTOA_BUFFER_SIZE
    requires len <= NTOA_BUFFER_SIZE
    ensures Reverse(b[..len]) == IntDigits(value, base, f)
  {
    hide Digits, Text, Reverse;
    DigitsStep(v, base);
    DigitsDenote(value, base);
  }

  /** `_ntoa_long` and `_ntoa_long_long`, which differ in the width of the value. */
  method Ntoa(out: Output, buffer: array<char>, idx: Word, maxlen: Word, value: nat, negative: bool,
              base: nat, prec: Word, width: Word, f: Flags) returns (next: Word)
    requires Limit(out, maxlen) <= buffer.Length && 2 <= base <= 16
    modifies buffer
    ensures Wrote(old(buffer[..]), idx, IntText(value, negative, base, prec, width, f),
                  Limit(out, maxlen), buffer[..], next)
  {
    hide Wrote, Limit, FieldText, Reverse, IntDigits, IntText;
    var buf := new char[32];
    var len := 0;
    var g := f;
    if value == 0 {
      g := g.(hash := false);
    }
    if !g.precision || value != 0 {
      len := PutDigits(buf, value, base, g);
    } else {
      NoDigitsAtAll(base, g);
      assert buf[..0] == "" && Reverse("") == "";
    }
    IntTextIs(value, negative, base, prec, width, f);
    next := NtoaFormat(out, buffer, idx, maxlen, buf, len, negative, base, prec, width, g);
  }

  lemma NoDigitsAtAll(base: nat, f: Flags)
    requires 2 <= base <= 16 && f.precision
    ensures IntDigits(0, base, f) == ""
  {
  }
}
