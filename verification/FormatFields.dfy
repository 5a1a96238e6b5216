/** What the conversions of printf put out, told without the functions that compute it. */
module FormatFields {
  import opened Common
  import opened Printf
  import opened FormatParse
  import PrintParse
  import Strtoul

  /** `t` is the numeral of `n`: digits of the base, in one case, with no zero in front. */
  predicate Numeral(t: string, n: nat, base: nat, caps: bool) {
    && t != "" && (t[0] == '0' ==> |t| == 1)
    && (forall c | c in t ::
          '0' <= c <= '9' || (base == 16 && if caps then 'A' <= c <= 'F' else 'a' <= c <= 'f'))
    && (forall c | c in t :: Strtoul.IsDigit(c, base)) && Strtoul.Number(t, base) == n
  }

  /** `s` is `t` laid out: left-justified with blanks behind and no sign; or in a field at least as wide as
      asked and no wider than needed, with zeros between sign and text, or blanks before both. */
  predicate LaidOut(s: string, flags: Flags, width: nat, sign: string, t: string) {
    if flags.left then
      |s| >= |t| && s[..|t|] == t && (forall i | |t| <= i < |s| :: s[i] == ' ') &&
      |s| == if width > |t| then width else |t|
    else
      var need := |sign| + |t|;
      var pad := if width > need then width - need else 0;
      && |s| == pad + need
      && if flags.leadZero then
           s[..|sign|] == sign && (forall i | |sign| <= i < |sign| + pad :: s[i] == '0') && s[|sign| + pad..] == t
         else
           (forall i | 0 <= i < pad :: s[i] == ' ') && s[pad..pad + |sign|] == sign && s[pad + |sign|..] == t
  }

  /** "-" for a negative number; otherwise what the flags ask for. */
  function SignText(d: Directive, negative: bool): string {
    if negative then "-" else if '+' in d.flags then "+" else if ' ' in d.flags then " " else ""
  }

  lemma {:induction false} DigitsAreNumeral(n: nat, base: nat, caps: bool)
    requires base == 10 || base == 16
    ensures Numeral(Digits(n, base, caps), n, base, caps)
    decreases n
  {
    PrintParse.DigitsRoundTrip(n, base, caps);
    CharsAre(n, base, caps);
    NoLeadingZero(n, base, caps);
    hide Digits, Strtoul.Number;
  }

  lemma {:induction false} CharsAre(n: nat, base: nat, caps: bool)
    requires base == 10 || base == 16
    ensures forall c | c in Digits(n, base, caps) ::
              '0' <= c <= '9' || (base == 16 && if caps then 'A' <= c <= 'F' else 'a' <= c <= 'f')
    decreases n
  {
    DigitsStep(n, base, caps);
    OneChar(n % base, base, caps);
    if n < base {
      OneChar(n, base, caps);
    } else {
      PrintParse.DivSmaller(n, base);
      CharsAre(n / base, base, caps);
    }
    hide Digits, Digit;
  }

  lemma OneChar(d: nat, base: nat, caps: bool)
    requires (base == 10 || base == 16) && d < base
    ensures var c := Digit(d, caps);
            && ('0' <= c <= '9' || (base == 16 && if caps then 'A' <= c <= 'F' else 'a' <= c <= 'f'))
            && (c == '0' <==> d == 0)
  {
  }

  lemma {:induction false} NoLeadingZero(n: nat, base: nat, caps: bool)
    requires base == 10 || base == 16
    ensures Digits(n, base, caps)[0] == '0' ==> n == 0 && |Digits(n, base, caps)| == 1
    decreases n
  {
    DigitsStep(n, base, caps);
    if n < base {
      OneChar(n, base, caps);
    } else {
      PrintParse.DivSmaller(n, base);
      NoLeadingZero(n / base, base, caps);
      assert n / base > 0;
    }
    hide Digits, Digit;
  }

  lemma JustifyLaysOut(flags: Flags, width: nat, sign: char, t: string)
    ensures LaidOut(Justify(flags, width, sign, t), flags, width, if sign == '\0' then "" else [sign], t)
  {
    var s, signed := Justify(flags, width, sign, t), if sign == '\0' then "" else [sign];
    var fill := (if sign != '\0' && width > 0 then width - 1 else width) - |t|;
    if flags.left {
      assert s[..|t|] == t;
    } else if flags.leadZero {
      assert s == signed + (Repeat('0', fill) + t);
    } else {
      assert s == Repeat(' ', fill) + (signed + t);
    }
  }

  /** %d and %i: the word as a signed number. */
  lemma SignedField(d: Directive, arg: Arg)
    requires d.Valid() && (d.conv == 'd' || d.conv == 'i') && arg.word < TWO32
    ensures var n := Kept(d.size, arg.word, true);
            var m := if n < 0x8000_0000 then n else 0x1_0000_0000 - n;
            exists t :: && Numeral(t, m, 10, false)
                        && LaidOut(d.Puts(arg), d.Asks(), d.Columns(), SignText(d, n >= 0x8000_0000), t)
  {
    hide Digits, Justify, LaidOut, Numeral, Narrow, Kept;
    NarrowKeeps(d, arg.word, true);
    var n := Kept(d.size, arg.word, true);
    var m := Magnitude(n, true);
    DigitsAreNumeral(m, 10, false);
    JustifyLaysOut(d.Asks(), d.Columns(), Sign(d.Asks(), n, true), Digits(m, 10, false));
  }

  /** %u: never negative. */
  lemma UnsignedField(d: Directive, arg: Arg)
    requires d.Valid() && d.conv == 'u' && arg.word < TWO32
    ensures exists t :: && Numeral(t, Kept(d.size, arg.word, false), 10, false)
                        && LaidOut(d.Puts(arg), d.Asks(), d.Columns(), SignText(d, false), t)
  {
    hide Digits, Justify, LaidOut, Numeral, Narrow, Kept;
    NarrowKeeps(d, arg.word, false);
    var n := Kept(d.size, arg.word, false);
    DigitsAreNumeral(n, 10, false);
    JustifyLaysOut(d.Asks(), d.Columns(), Sign(d.Asks(), n, false), Digits(n, 10, false));
  }

  /** %x, %X and %p: no sign; with '#', and always for %p, 0x or 0X comes first and does not count towards the
      width. */
  lemma HexFields(d: Directive, arg: Arg)
    requires d.Valid() && d.conv in ['x', 'X', 'p'] && arg.word < TWO32
    ensures var n := if d.conv == 'p' then arg.word else Kept(d.size, arg.word, false);
            var prefix := if d.conv == 'p' || '#' in d.flags then (if d.conv == 'X' then "0X" else "0x") else "";
            exists t :: && Numeral(t, n, 16, d.conv == 'X') && |d.Puts(arg)| >= |prefix|
                        && d.Puts(arg)[..|prefix|] == prefix
                        && LaidOut(d.Puts(arg)[|prefix|..], d.Asks(), d.Columns(), "", t)
  {
    hide Digits, Justify, LaidOut, Numeral, Narrow, Kept;
    NarrowKeeps(d, arg.word, false);
    LongKeeps(d.Asks(), arg.word);
    CapsKeep(d.Asks(), arg.word);
    var n := if d.conv == 'p' then arg.word else Kept(d.size, arg.word, false);
    var prefix := if d.conv == 'p' || '#' in d.flags then (if d.conv == 'X' then "0X" else "0x") else "";
    var flags := if d.conv == 'p' then d.Asks().(long := true, alt := true)
                 else if d.conv == 'X' then d.Asks().(caps := true) else d.Asks();
    var t := Digits(n, 16, d.conv == 'X');
    DigitsAreNumeral(n, 16, d.conv == 'X');
    JustifyLaysOut(flags, d.Columns(), '\0', t);
    assert d.Puts(arg) == prefix + Justify(flags, d.Columns(), '\0', t);
    SameLayout(Justify(flags, d.Columns(), '\0', t), flags, d.Asks(), d.Columns(), "", t);
  }

  lemma LongKeeps(flags: Flags, word: nat)
    requires word < TWO32
    ensures Narrow(flags.(long := true, alt := true), word, false) == word
  {
  }

  lemma CapsKeep(flags: Flags, word: nat)
    requires word < TWO32
    ensures Narrow(flags.(caps := true), word, false) == Narrow(flags, word, false)
  {
  }

  lemma SameLayout(s: string, flags: Flags, flags': Flags, width: nat, sign: string, t: string)
    requires LaidOut(s, flags, width, sign, t) && flags.left == flags'.left && flags.leadZero == flags'.leadZero
    ensures LaidOut(s, flags', width, sign, t)
  {
  }

  /** %s: the string, or "<null>", never with zeros; %c: one character; %% a percent sign; %n nothing; and any
      other character as it stands. */
  lemma TextFields(d: Directive, arg: Arg)
    requires d.Valid() && arg.word < TWO32
    ensures d.conv == 's' ==> LaidOut(d.Puts(arg), d.Asks().(leadZero := false), d.Columns(), "",
                                if arg.str.Some? then arg.str.value else "<null>")
    ensures d.conv == 'c' ==> |d.Puts(arg)| == 1 && d.Puts(arg)[0] as int == arg.word % 256
    ensures d.conv == '%' ==> d.Puts(arg) == "%"
    ensures d.conv == 'n' ==> d.Puts(arg) == ""
    ensures d.conv !in ['%', 'c', 's', 'd', 'i', 'u', 'x', 'X', 'p', 'n'] ==> d.Puts(arg) == ['%', d.conv]
  {
    hide Justify, LaidOut, Digits, Narrow;
    JustifyLaysOut(d.Asks().(leadZero := false), d.Columns(), '\0', if arg.str.Some? then arg.str.value else "<null>");
  }
}
