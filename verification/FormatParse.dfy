/** From a written format to a number and back: vsnprintf with a format of flags, a width and a
    conversion, and strtoul on what it leaves in the buffer. */
module FormatParse {
  import opened Common
  import opened Printf
  import opened PrintfEngine
  import PrintParse
  import Strtoul

  predicate FlagChar(c: char) { c == '-' || c == '+' || c == ' ' || c == '#' || c == '0' }

  predicate FlagString(fs: string) { forall i | 0 <= i < |fs| :: FlagChar(fs[i]) }

  /** The flags that the characters of `fs` add. */
  function Flagged(flags: Flags, fs: string): Flags {
    flags.(left := flags.left || '-' in fs, showSign := flags.showSign || '+' in fs, blankPos := flags.blankPos ||
      ' ' in fs,
           alt := flags.alt || '#' in fs, leadZero := flags.leadZero || '0' in fs)
  }

  /** A character that ends a conversion specification. */
  predicate Converts(c: char) {
    !FlagChar(c) && !('0' <= c <= '9') && !Ignored(c) && c != 'l' && c != 'h'
  }

  predicate SizeText(size: string) { size in ["", "l", "ll", "h", "hh", "z", "j", "t"] }

  /** A conversion specification as it is written: flags in any order, a width, a precision, a size, the
      conversion. */
  datatype Directive = Directive(flags: string, width: nat, precision: Option<nat>, size: string, conv: char) {
    predicate Valid() {
      && FlagString(flags) && Columns() < TWO32 && SizeText(size) && Converts(conv)
      && (precision.Some? ==> 0 < width + precision.value)
    }

    function Text(): string { ['%'] + flags + WidthText(width) + PrecisionText(precision) + size + [conv] }

    /** The field width. The engine passes over the dot, so the digits of a precision are more digits of the
        width. */
    function Columns(): nat { if precision.None? then width else Joined(width, precision.value) }

    /** What it asks for. */
    function Asks(): Flags {
      Flags(size == "l" || size == "ll", size == "ll", size == "h" || size == "hh", size == "hh", '#' in flags, false,
            '+' in flags, '-' in flags, '0' in flags, ' ' in flags)
    }

    /** What it puts out for an argument. */
    function Puts(arg: Arg): string
      requires arg.word < TWO32
    {
      Field(conv, Asks(), Columns(), arg)
    }
  }

  function WidthText(w: nat): string { if w == 0 then "" else Digits(w, 10, false) }

  function PrecisionText(p: Option<nat>): string { if p.None? then "" else ['.'] + Digits(p.value, 10, false) }

  // ---- The engine reads back what was written ----

  lemma OneFlag(fmt: string, i: nat, flags: Flags)
    requires i < |fmt| && FlagChar(fmt[i])
    ensures ParseSpec(fmt, i, flags, 0) == ParseSpec(fmt, i + 1, Flagged(flags, [fmt[i]]), 0)
  {
  }

  lemma {:induction false} ParsesFlags(fmt: string, i: nat, fs: string, flags: Flags)
    requires FlagString(fs) && i + |fs| <= |fmt| && fmt[i..i + |fs|] == fs
    ensures ParseSpec(fmt, i, flags, 0) == ParseSpec(fmt, i + |fs|, Flagged(flags, fs), 0)
    decreases |fs|
  {
    hide ParseSpec;
    if fs == [] {
      assert Flagged(flags, fs) == flags;
    } else {
      assert fmt[i] == fs[0] && fs == [fs[0]] + fs[1..];
      OneFlag(fmt, i, flags);
      assert fmt[i + 1..i + 1 + |fs[1..]|] == fs[1..];
      ParsesFlags(fmt, i + 1, fs[1..], Flagged(flags, [fs[0]]));
      assert Flagged(Flagged(flags, [fs[0]]), fs[1..]) == Flagged(flags, fs);
    }
  }

  lemma OneDigit(fmt: string, i: nat, flags: Flags, width: nat, d: nat)
    requires i < |fmt| && d < 10 && fmt[i] == Digit(d, false) && (width > 0 || d > 0) && width * 10 + d < TWO32
    ensures ParseSpec(fmt, i, flags, width) == ParseSpec(fmt, i + 1, flags, width * 10 + d)
  {
  }

  /** The number whose digits are those of `w` and then those of `p`. */
  function Joined(w: nat, p: nat): nat { w * Power(10, |Digits(p, 10, false)|) + p }

  lemma JoinedStep(w: nat, p: nat)
    ensures p < 10 ==> Joined(w, p) == w * 10 + p
    ensures p >= 10 ==> Joined(w, p) == Joined(w, p / 10) * 10 + p % 10
    ensures Joined(0, p) == p && p <= Joined(w, p) && (p >= 10 ==> Joined(w, p / 10) <= Joined(w, p))
  {
    hide Digits, Digit;
    DigitsStep(p, 10, false);
    if p < 10 {
      assert Power(10, 1) == 10 * Power(10, 0) == 10;
    } else {
      var k := |Digits(p / 10, 10, false)|;
      assert |Digits(p, 10, false)| == k + 1 && Power(10, k + 1) == 10 * Power(10, k);
      TenTimes(w, Power(10, k));
      NotNegative(w, Power(10, k));
    }
    NotNegative(w, Power(10, |Digits(p, 10, false)|));
    assert 0 * Power(10, |Digits(p, 10, false)|) == 0;
  }

  lemma TenTimes(w: nat, x: nat)
    ensures w * (10 * x) == 10 * (w * x)
  {
  }

  lemma NotNegative(w: nat, x: nat)
    ensures 0 <= w * x
  {
  }

  lemma {:induction false} ParsesDigits(fmt: string, i: nat, flags: Flags, w: nat, p: nat)
    requires 0 < w + p && Joined(w, p) < TWO32
    requires i + |Digits(p, 10, false)| <= |fmt| && fmt[i..i + |Digits(p, 10, false)|] == Digits(p, 10, false)
    ensures ParseSpec(fmt, i, flags, w) == ParseSpec(fmt, i + |Digits(p, 10, false)|, flags, Joined(w, p))
    decreases p
  {
    hide ParseSpec, Digit, Digits, Joined;
    DigitsStep(p, 10, false);
    JoinedStep(w, p);
    var text := Digits(p, 10, false);
    if p < 10 {
      assert fmt[i] == text[0];
      OneDigit(fmt, i, flags, w, p);
    } else {
      var high := Digits(p / 10, 10, false);
      JoinedStep(w, p / 10);
      assert fmt[i..i + |high|] == text[..|high|] == high;
      ParsesDigits(fmt, i, flags, w, p / 10);
      assert fmt[i + |high|] == text[|high|];
      OneDigit(fmt, i + |high|, flags, Joined(w, p / 10), p % 10);
    }
  }

  lemma ParsesConversion(fmt: string, i: nat, flags: Flags, w: nat)
    requires i < |fmt| && Converts(fmt[i])
    ensures ParseSpec(fmt, i, flags, w) == Spec(Some(fmt[i]), flags, w, i + 1)
  {
  }

  /** A size modifier sets its flags, or none. */
  lemma ParsesSize(fmt: string, i: nat, flags: Flags, w: nat, size: string)
    requires SizeText(size) && i + |size| <= |fmt| && fmt[i..i + |size|] == size
    requires !flags.long && !flags.longLong && !flags.half && !flags.halfHalf
    ensures ParseSpec(fmt, i, flags, w) ==
            ParseSpec(fmt, i + |size|, flags.(long := size == "l" || size == "ll", longLong := size == "ll",
                                              half := size == "h" || size == "hh", halfHalf := size == "hh"), w)
  {
    hide ParseSpec;
    if size == "" {
      assert flags.(long := false, longLong := false, half := false, halfHalf := false) == flags;
    } else {
      assert fmt[i] == size[0];
      OneSizeChar(fmt, i, flags, w);
      if |size| == 2 {
        assert fmt[i + 1] == size[1];
        OneSizeChar(fmt, i + 1, if size == "ll" then flags.(long := true) else flags.(half := true), w);
      }
    }
  }

  lemma OneSizeChar(fmt: string, i: nat, flags: Flags, w: nat)
    requires i < |fmt| && (fmt[i] == 'l' || fmt[i] == 'h' || fmt[i] == 'z' || fmt[i] == 'j' || fmt[i] == 't')
    ensures ParseSpec(fmt, i, flags, w) ==
            ParseSpec(fmt, i + 1,
              if fmt[i] == 'l' then flags.(long := true, longLong := flags.longLong || flags.long)
              else if fmt[i] == 'h' then flags.(half := true, halfHalf := flags.halfHalf || flags.half) else flags, w)
  {
  }

  /** A directive, anywhere in a format, is parsed as exactly what it asks for. */
  lemma ParsesWritten(fmt: string, i: nat, d: Directive)
    requires d.Valid() && i + |d.Text()| <= |fmt| && fmt[i..i + |d.Text()|] == d.Text()
    ensures ParseSpec(fmt, i + 1, NO_FLAGS, 0) == Spec(Some(d.conv), d.Asks(), d.Columns(), i + |d.Text()|)
  {
    hide ParseSpec, Directive.Text, Directive.Columns, WidthText, PrecisionText, Flagged, SizeText, Converts,
        FlagString, FlagChar;
    var a := i + 1 + |d.flags|;
    var b := a + |WidthText(d.width)|;
    var c := b + |PrecisionText(d.precision)|;
    PartsAt(fmt, i, d);
    WidthFits(d);
    FlaggedIs(d.flags);
    var flags := Flagged(NO_FLAGS, d.flags);
    ParsesFlags(fmt, i + 1, d.flags, NO_FLAGS);
    ParsesWidthText(fmt, a, flags, d.width);
    ParsesPrecision(fmt, b, flags, d);
    ParsesSize(fmt, c, flags, d.Columns(), d.size);
    ParsesConversion(fmt, c + |d.size|, d.Asks(), d.Columns());
  }

  /** Where its parts are in a format. */
  lemma PartsAt(fmt: string, i: nat, d: Directive)
    requires i + |d.Text()| <= |fmt| && fmt[i..i + |d.Text()|] == d.Text()
    ensures var a := i + 1 + |d.flags|;
            var b := a + |WidthText(d.width)|;
            var c := b + |PrecisionText(d.precision)|;
            var e := c + |d.size|;
            && e < |fmt| && i + |d.Text()| == e + 1 && fmt[i + 1..a] == d.flags && fmt[a..b] == WidthText(d.width)
            && fmt[b..c] == PrecisionText(d.precision) && fmt[c..e] == d.size && fmt[e] == d.conv
  {
    hide Directive.Text, WidthText, PrecisionText;
    var a := 1 + |d.flags|;
    var b := a + |WidthText(d.width)|;
    var c := b + |PrecisionText(d.precision)|;
    TextParts(d);
    Within(fmt, i, d.Text(), 1, a);
    Within(fmt, i, d.Text(), a, b);
    Within(fmt, i, d.Text(), b, c);
    Within(fmt, i, d.Text(), c, c + |d.size|);
  }

  lemma WidthFits(d: Directive)
    requires d.Columns() < TWO32
    ensures d.width < TWO32
  {
    if d.precision.Some? {
      var k := |Digits(d.precision.value, 10, false)|;
      PowerPositive(k);
      assert d.width * Power(10, k) >= d.width * 1;
    }
  }

  lemma PowerPositive(k: nat)
    ensures Power(10, k) >= 1
  {
  }

  /** The digits behind the dot join those of the width. */
  lemma ParsesPrecision(fmt: string, i: nat, flags: Flags, d: Directive)
    requires d.Valid() && i + |PrecisionText(d.precision)| <= |fmt|
    requires fmt[i..i + |PrecisionText(d.precision)|] == PrecisionText(d.precision)
    ensures ParseSpec(fmt, i, flags, d.width) ==
            ParseSpec(fmt, i + |PrecisionText(d.precision)|, flags, d.Columns())
  {
    hide Digits, Joined;
    if d.precision.Some? {
      var text := Digits(d.precision.value, 10, false);
      assert fmt[i] == PrecisionText(d.precision)[0] == '.';
      Within(fmt, i, PrecisionText(d.precision), 1, 1 + |text|);
      assert PrecisionText(d.precision)[1..] == text;
      PassesDot(fmt, i, flags, d.width);
      ParsesDigits(fmt, i + 1, flags, d.width, d.precision.value);
    }
    hide ParseSpec;
  }

  lemma PassesDot(fmt: string, i: nat, flags: Flags, w: nat)
    requires i < |fmt| && fmt[i] == '.'
    ensures ParseSpec(fmt, i, flags, w) == ParseSpec(fmt, i + 1, flags, w)
  {
  }

  lemma FlaggedIs(fs: string)
    ensures Flagged(NO_FLAGS, fs) ==
            Flags(false, false, false, false, '#' in fs, false, '+' in fs, '-' in fs, '0' in fs, ' ' in fs)
  {
  }

  lemma TextParts(d: Directive)
    ensures var f, a := d.Text(), 1 + |d.flags|;
            var b := a + |WidthText(d.width)|;
            var c := b + |PrecisionText(d.precision)|;
            var e := c + |d.size|;
            && |f| == e + 1 && f[0] == '%' && f[1..a] == d.flags && f[a..b] == WidthText(d.width)
            && f[b..c] == PrecisionText(d.precision) && f[c..e] == d.size && f[e] == d.conv
  {
    hide WidthText, PrecisionText;
  }

  lemma ParsesWidthText(fmt: string, i: nat, flags: Flags, w: nat)
    requires w < TWO32 && i + |WidthText(w)| <= |fmt| && fmt[i..i + |WidthText(w)|] == WidthText(w)
    ensures ParseSpec(fmt, i, flags, 0) == ParseSpec(fmt, i + |WidthText(w)|, flags, w)
  {
    if w > 0 {
      JoinedStep(0, w);
      ParsesDigits(fmt, i, flags, 0, w);
    }
  }

  lemma Within(s: string, i: nat, t: string, a: nat, b: nat)
    requires i + |t| <= |s| && s[i..i + |t|] == t && a <= b <= |t|
    ensures s[i + a..i + b] == t[a..b]
    ensures b < |t| ==> s[i + b] == t[b]
  {
    forall k | 0 <= k < b - a
      ensures s[i + a..i + b][k] == t[a..b][k]
    {
      assert s[i..i + |t|][a + k] == t[a + k];
    }
    assert b < |t| ==> s[i..i + |t|][b] == t[b];
  }

  /** What such a format denotes. */
  lemma RendersField(d: Directive, arg: Arg)
    requires d.Valid() && arg.word < TWO32
    ensures Render(d.Text(), 0, [arg], 0).text == d.Puts(arg)
  {
    var fmt := d.Text();
    assert fmt[0..|fmt|] == fmt && fmt[0] == '%';
    ParsesWritten(fmt, 0, d);
    var args: Args := [arg];
    LiteralEnds(fmt);
    RenderRound(fmt, 0, args, 0);
    hide ParseSpec, Field, Directive.Asks, Directive.Text, Render, Literal;
    var head := fmt[0..0] + d.Puts(arg);
    assert head == d.Puts(arg);
    RenderRound(fmt, |fmt|, if TakesArg(d.conv) then Tail(args) else args, |head|);
    assert head + "" == head;
  }

  lemma LiteralEnds(fmt: string)
    ensures Literal(fmt, |fmt|) == |fmt| && (fmt != [] && fmt[0] == '%' ==> Literal(fmt, 0) == 0)
  {
  }

  // ---- The text in the buffer ----

  /** Blanks, a sign, zeros and digits: no NUL, and no longer than width and number ask. */
  lemma FieldIsText(c: char, flags: Flags, w: nat, arg: Arg)
    requires PrintParse.Plain(c, flags) && arg.word < TWO32
    ensures '\0' !in Field(c, flags, w, arg) && |Field(c, flags, w, arg)| <= w + 11
  {
    hide Digits, Narrow, Justify;
    if PrintParse.Hex(c) {
      var caps := if c == 'X' then flags.(caps := true) else flags;
      var n := Narrow(caps, arg.word, false);
      JustifiedIsText(caps, w, '\0', n, 16, caps.caps);
    } else {
      var n := Narrow(flags, arg.word, c != 'u');
      JustifiedIsText(flags, w, Sign(flags, n, c != 'u'), Magnitude(n, c != 'u'), 10, false);
    }
  }

  lemma JustifiedIsText(flags: Flags, w: nat, sign: char, n: nat, base: nat, caps: bool)
    requires !flags.left && n < TWO32 && (base == 10 || base == 16)
    ensures var text := Justify(flags, w, sign, Digits(n, base, caps)); '\0' !in text && |text| <= w + 11
  {
    hide Digits;
    var digits := Digits(n, base, caps);
    WordDigits(n, caps);
    if base == 10 {
      CapsDoNotMatter(n, caps);
    }
    DigitsAreDigits(n, base, caps);
    FieldWidth(flags, w, sign, digits);
    var text := Justify(flags, w, sign, digits);
    forall i | 0 <= i < |text|
      ensures text[i] != '\0'
    {
      assert text[i] == ' ' || text[i] == '0' || (text[i] == sign && sign != '\0') || text[i] in digits;
    }
  }

  lemma {:induction false} CapsDoNotMatter(n: nat, caps: bool)
    ensures |Digits(n, 10, caps)| == |Digits(n, 10, false)|
    decreases n
  {
    DigitsStep(n, 10, caps);
    DigitsStep(n, 10, false);
    hide Digits, Digit;
    if n >= 10 {
      CapsDoNotMatter(n / 10, caps);
    }
  }

  /** What a size leaves of a word: "hh" its low byte and "h" its low half, as a signed number where the
      conversion is one. */
  function Kept(size: string, word: nat, signed: bool): nat {
    if size == "hh" then
      if signed && word % 0x100 >= 0x80 then 0xFFFF_FF00 + word % 0x100 else word % 0x100
    else if size == "h" then
      if signed && word % 0x1_0000 >= 0x8000 then 0xFFFF_0000 + word % 0x1_0000 else word % 0x1_0000
    else word
  }

  lemma NarrowKeeps(d: Directive, word: nat, signed: bool)
    requires word < TWO32
    ensures Narrow(d.Asks(), word, signed) == Kept(d.size, word, signed)
  {
  }

  /** Any 32-bit word, printed with any flags but '-' (and '#' for hexadecimal), any width and size and a
      conversion d, i, u, x or X, and handed to strtoul in the matching base, comes back, as the size
      left it, without an error. */
  method PrintAndParse(d: Directive, word: nat) returns (ret: nat, errno: Strtoul.Errno)
    requires d.Valid() && d.Columns() < TWO31 - 16 && word < TWO32 && PrintParse.Plain(d.conv, d.Asks())
    ensures ret == Kept(d.size, word, d.conv == 'd' || d.conv == 'i') && errno == Strtoul.Unchanged
  {
    hide Field, Directive.Columns, Directive.Asks, Directive.Text, Render, Narrow, Kept, Strtoul.Magnitude,
        Strtoul.ParsePrefix;
    var arg := Arg(word, None);
    ghost var text := d.Puts(arg);
    RendersField(d, arg);
    FieldIsText(d.conv, d.Asks(), d.Columns(), arg);
    PrintParse.PrintThenParse(d.conv, d.Asks(), d.Columns(), arg);
    NarrowKeeps(d, word, PrintParse.Signed(d.conv));
    var buf := new char[d.Columns() + 12];
    var wlen, _ := Vsnprintf(buf, d.Columns() + 12, d.Text(), [arg]);
    var s := buf[..wlen];
    assert s == text && '\0' !in s && buf[wlen] == '\0';
    var end;
    ret, end, errno := Strtoul.Strtoul(s, PrintParse.BaseOf(d.conv));
  }
}
