/** What the text of a format means: how the bounded output relates to it, how formats combine,
    and what integer fields say and how long they are. */
module FormatLaws {
  import opened Machine
  import opened Numerals
  import opened Format

  // ----- the output buffer

  lemma {:induction false} EmitAppend(buf: seq<char>, idx: Word, s: string, t: string, limit: nat)
    requires limit <= |buf|
    ensures Emit(buf, idx, s + t, limit) == Emit(Emit(buf, idx, s, limit), Wrap(idx + |s|), t, limit)
    decreases |s|
  {
    if s == "" {
      assert s + t == t;
    } else {
      assert (s + t)[1..] == s[1..] + t;
      var b := if idx < limit then buf[idx := s[0]] else buf;
      EmitAppend(b, Wrap(idx + 1), s[1..], t, limit);
      WrapAdd(idx, 1, |s| - 1);
    }
  }

  /** As long as the index does not wrap around, character `j` of the text goes to index
      `idx + j` or is dropped, and nothing else is touched. */
  lemma {:induction false} EmitPlaces(buf: seq<char>, idx: Word, t: string, limit: nat)
    requires limit <= |buf| && idx + |t| <= 0x1_0000_0000
    ensures forall j :: 0 <= j < |buf| ==>
              Emit(buf, idx, t, limit)[j] == if idx <= j < idx + |t| && j < limit then t[j - idx] else buf[j]
    decreases |t|
  {
    if |t| > 0 {
      var b := if idx < limit then buf[idx := t[0]] else buf;
      if |t| == 1 {
        assert Emit(b, Wrap(idx + 1), t[1..], limit) == b;
      } else {
        EmitPlaces(b, idx + 1, t[1..], limit);
      }
    }
  }

  /** The contents of an `snprintf` buffer of size `limit` after text `t`. */
  function Printed(buf: seq<char>, t: string, limit: nat): (r: seq<char>)
    requires limit <= |buf|
    ensures |r| == |buf|
  {
    Terminate(Emit(buf, 0, t, limit), |t|, limit)
  }

  /** What section 7.21.6.5 of ISO C11 asks of a buffer of size `limit`: it gets the first characters
      of the text, as many as leave room for the NUL behind them, and nothing behind that NUL is
      touched; a buffer of size zero is left alone. */
  ghost predicate Truncates(buf: seq<char>, t: string, r: seq<char>, limit: nat)
    requires limit <= |buf| == |r|
  {
    if limit == 0 then r == buf
    else
      var n := Min(limit - 1, |t|);
      r[..n] == t[..n] && r[n] == '\0' && r[n + 1..] == buf[n + 1..]
  }

  /** Nothing at or past the bound is ever touched. */
  lemma {:induction false} EmitStaysBelow(buf: seq<char>, idx: Word, t: string, limit: nat)
    requires limit <= |buf|
    ensures forall j :: limit <= j < |buf| ==> Emit(buf, idx, t, limit)[j] == buf[j]
    decreases |t|
  {
    if t != "" {
      EmitStaysBelow(if idx < limit then buf[idx := t[0]] else buf, Wrap(idx + 1), t[1..], limit);
    }
  }

  /** Truncation refines the unbounded text while the 32-bit index does not wrap around; a buffer of
      at most one character does not even need that. */
  lemma TruncationRefines(buf: seq<char>, t: string, limit: nat)
    requires limit <= |buf| && (|t| < 0x1_0000_0000 || limit <= 1)
    ensures Truncates(buf, t, Printed(buf, t, limit), limit)
  {
    var e, r := Emit(buf, 0, t, limit), Printed(buf, t, limit);
    EmitStaysBelow(buf, 0, t, limit);
    if limit == 0 {
      assert r == buf;
    } else {
      var n := Min(limit - 1, |t|);
      if |t| < 0x1_0000_0000 {
        EmitPlaces(buf, 0, t, limit);
      }
      assert r == e[n := '\0'];
      assert forall j :: 0 <= j < n ==> r[j] == t[j];
      assert forall j :: n < j < |buf| ==> r[j] == buf[j];
    }
  }

  /** Writing nothing but one character leaves it at the front, if it ever gets there. */
  lemma {:induction false} EmitOnly(buf: seq<char>, idx: Word, c: char, t: string, limit: nat)
    requires 0 < limit <= |buf| && forall i :: 0 <= i < |t| ==> t[i] == c
    requires buf[0] == c || (idx == 0 && t != "")
    ensures Emit(buf, idx, t, limit)[0] == c
    decreases |t|
  {
    if t != "" {
      EmitOnly(if idx < limit then buf[idx := t[0]] else buf, Wrap(idx + 1), c, t[1..], limit);
    }
  }

  /** A text whose length makes the index wrap: the first character does not survive. */
  lemma WrappingOverwrites(buf: seq<char>, t: string, limit: nat)
    requires 1 < limit <= |buf| && |t| >= 0x1_0000_0000
    requires t[0] == 'a' && forall i :: 0 < i < |t| ==> t[i] == 'b'
    ensures !Truncates(buf, t, Printed(buf, t, limit), limit)
  {
    hide Emit;
    var u, v := t[..0x1_0000_0000], t[0x1_0000_0000..];
    assert t == u + v;
    EmitAppend(buf, 0, u, v, limit);
    if v != "" {
      EmitOnly(Emit(buf, 0, u, limit), 0, 'b', v, limit);
    }
    assert Printed(buf, t, limit)[0] != 'a';
    assert Printed(buf, t, limit)[..1][0] == Printed(buf, t, limit)[0] && t[..1][0] == t[0];
    FrontDiffers(buf, t, Printed(buf, t, limit), limit);
  }

  lemma FrontDiffers(buf: seq<char>, t: string, r: seq<char>, limit: nat)
    requires 1 < limit <= |buf| == |r| && t != "" && r[0] != t[0]
    ensures !Truncates(buf, t, r, limit)
  {
    var n := Min(limit - 1, |t|);
    assert r[..n][0] == r[0] && t[..n][0] == t[0];
  }

  /** All texts of a length are truncated as they should be exactly when that length fits the index
      or the buffer holds at most the NUL. */
  lemma TruncationIff(length: nat, limit: nat)
    ensures (forall buf: seq<char>, t: string | limit <= |buf| && |t| == length ::
               Truncates(buf, t, Printed(buf, t, limit), limit))
            <==> length < 0x1_0000_0000 || limit <= 1
  {
    hide Emit, Printed, Truncates;
    if length < 0x1_0000_0000 || limit <= 1 {
      forall buf: seq<char>, t: string | limit <= |buf| && |t| == length
        ensures Truncates(buf, t, Printed(buf, t, limit), limit)
      {
        TruncationRefines(buf, t, limit);
      }
    } else {
      var buf, t := Repeat(' ', limit), "a" + Repeat('b', length - 1);
      WrappingOverwrites(buf, t, limit);
    }
  }

  // ----- integers

  /** Zero has no alternate form. */
  lemma IntTextIs(value: nat, negative: bool, base: nat, prec: Word, width: Word, f: Flags)
    requires 2 <= base <= 16
    ensures var g := if value == 0 then f.(hash := false) else f;
      IntText(value, negative, base, prec, width, f) ==
      FieldText(IntDigits(value, base, g), negative, base, prec, width, g)
  {
    hide FieldText, IntDigits;
  }

  lemma PlainIntText(value: nat, negative: bool, base: nat, prec: Word, width: Word, f: Flags)
    requires 2 <= base <= 16 && !f.hash
    ensures IntText(value, negative, base, prec, width, f) ==
            FieldText(IntDigits(value, base, f), negative, base, prec, width, f)
  {
    hide FieldText, IntDigits;
    assert f.(hash := false) == f;
  }

  // ----- formats in sequence

  lemma PrependTwice(s: string, t: string, o: Outcome)
    ensures Prepend(s, Prepend(t, o)) == Prepend(s + t, o)
  {
    if o.Rendered? {
      assert s + (t + o.text) == (s + t) + o.text;
    }
  }

  lemma PrependNothing(o: Outcome)
    ensures Prepend("", o) == o
  {
  }

  /** A part of a format that has been read to its end leaves the same remainder in any longer
      format. */
  lemma {:induction false} FlagsInLonger(s: string, f: Flags, t: string)
    ensures ParseFlags(s, f).1 != "" ==>
              ParseFlags(s + t, f) == (ParseFlags(s, f).0, ParseFlags(s, f).1 + t)
    decreases |s|
  {
    if s != "" {
      assert (s + t)[1..] == s[1..] + t && (s + t)[0] == s[0];
      match s[0]
      case '0' => FlagsInLonger(s[1..], f.(zeropad := true), t);
      case '-' => FlagsInLonger(s[1..], f.(left := true), t);
      case '+' => FlagsInLonger(s[1..], f.(plus := true), t);
      case ' ' => FlagsInLonger(s[1..], f.(space := true), t);
      case '#' => FlagsInLonger(s[1..], f.(hash := true), t);
      case _ =>
    }
  }

  lemma {:induction false} NumberInLonger(s: string, acc: Word, t: string)
    ensures ParseNumber(s, acc).1 != "" ==>
              ParseNumber(s + t, acc) == (ParseNumber(s, acc).0, ParseNumber(s, acc).1 + t)
    decreases |s|
  {
    if s != "" {
      assert (s + t)[1..] == s[1..] + t && (s + t)[0] == s[0];
      if IsDigit(s[0]) {
        NumberInLonger(s[1..], Wrap(acc * 10 + (s[0] as int - '0' as int)), t);
      }
    }
  }

  lemma WidthInLonger(h: Head, t: string)
    requires h.Head? && ParseWidth(h).Head? && ParseWidth(h).rest != ""
    ensures ParseWidth(h.(rest := h.rest + t)) == ParseWidth(h).(rest := ParseWidth(h).rest + t)
  {
    hide ParseNumber, Wrap, Signed;
    NumberInLonger(h.rest, 0, t);
    if h.rest != "" {
      assert (h.rest + t)[1..] == h.rest[1..] + t;
    }
  }

  lemma PrecisionInLonger(h: Head, t: string)
    requires h.Head? && ParsePrecision(h).Head? && ParsePrecision(h).rest != ""
    ensures ParsePrecision(h.(rest := h.rest + t)) ==
            ParsePrecision(h).(rest := ParsePrecision(h).rest + t)
  {
    hide ParseNumber, Wrap, Signed;
    if h.rest != "" {
      assert (h.rest + t)[1..] == h.rest[1..] + t;
      var g := h.rest[1..];
      NumberInLonger(g, 0, t);
      if g != "" {
        assert (g + t)[1..] == g[1..] + t;
      }
    }
  }

  lemma ModifierInLonger(s: string, f: Flags, t: string)
    ensures ParseModifier(s, f).1 != "" ==>
              ParseModifier(s + t, f) == (ParseModifier(s, f).0, ParseModifier(s, f).1 + t)
  {
    if s != "" {
      assert (s + t)[1..] == s[1..] + t;
      if |s| > 1 {
        assert (s + t)[2..] == s[2..] + t;
      }
    }
  }

  lemma LengthInLonger(h: Head, t: string)
    requires h.Head? && ParseLength(h).rest != ""
    ensures ParseLength(h.(rest := h.rest + t)) == ParseLength(h).(rest := ParseLength(h).rest + t)
  {
    hide ParseModifier;
    ModifierInLonger(h.rest, h.f, t);
  }

  lemma HeadInLonger(s: string, args: seq<Arg>, t: string)
    requires ParseHead(s, args).Head? && ParseHead(s, args).rest != ""
    ensures ParseHead(s + t, args) == ParseHead(s, args).(rest := ParseHead(s, args).rest + t)
  {
    hide ParseFlags, ParseWidth, ParsePrecision, ParseLength;
    FlagsInLonger(s, NO_FLAGS, t);
    var (f, u) := ParseFlags(s, NO_FLAGS);
    var h0 := Head(f, 0, 0, args, u);
    var h1 := ParseWidth(h0);
    var h2 := ParsePrecision(h1);
    var h3 := ParseLength(h2);
    LengthInLonger(h2, t);
    PrecisionInLonger(h1, t);
    WidthInLonger(h0, t);
  }

  /** Formats combine: when the first is complete, the second continues with the text and the
      arguments it leaves. */
  lemma {:induction false} FormatsCombine(s: string, t: string, args: seq<Arg>)
    requires Render(s, args).Rendered?
    ensures Render(s + t, args) == Prepend(Render(s, args).text, Render(t, Render(s, args).args))
    decreases |s|
  {
    hide ParseHead, Convert;
    if s == "" {
      assert s + t == t;
      PrependNothing(Render(t, args));
    } else {
      assert (s + t)[1..] == s[1..] + t && (s + t)[0] == s[0];
      if s[0] != '%' {
        FormatsCombine(s[1..], t, args);
        var o := Render(s[1..], args);
        PrependTwice([s[0]], o.text, Render(t, o.args));
      } else {
        var h := ParseHead(s[1..], args);
        HeadInLonger(s[1..], args, t);
        SameConversion(h, t);
        var o := Convert(h);
        FormatsCombine(h.rest[1..], t, o.args);
        var p := Render(h.rest[1..], o.args);
        PrependTwice(o.text, p.text, Render(t, p.args));
      }
    }
  }

  lemma SameConversion(h: Head, t: string)
    requires h.Head? && h.rest != ""
    ensures Convert(h.(rest := h.rest + t)) == Convert(h)
    ensures (h.rest + t)[1..] == h.rest[1..] + t
  {
  }

  /** Text without a percent sign stands for itself. */
  lemma {:induction false} PlainText(s: string, args: seq<Arg>)
    requires '%' !in s && '\0' !in s
    ensures Render(s, args) == Rendered(s, args)
    decreases |s|
  {
    if s != "" {
      assert s[0] in s && forall c :: c in s[1..] ==> c in s;
      PlainText(s[1..], args);
      assert [s[0]] + s[1..] == s;
    }
  }
}
