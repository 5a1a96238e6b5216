/** What printf prints, strtoul reads back. */
module PrintParse {
  import opened Common
  import opened Arith
  import P = Printf
  import S = Strtoul

  // ---- Digits denote their number ----

  predicate Special(c: char) { c == '+' || c == '-' || c == 'x' }

  predicate IsSign(s: string) { s == "" || s == "+" || s == "-" }

  predicate SignChar(c: char) { c == '\0' || c == ' ' || c == '+' || c == '-' }

  predicate Signed(c: char) { c == 'd' || c == 'i' }

  predicate Hex(c: char) { c == 'x' || c == 'X' }

  predicate PlainDigits(digits: string, base: nat) {
    digits != [] && forall c | c in digits :: S.IsDigit(c, base) && !S.IsSpace(c) && !Special(c)
  }

  lemma DigitRoundTrip(d: nat, base: nat, caps: bool)
    requires d < base <= 16
    ensures S.IsDigit(P.Digit(d, caps), base) && S.DigitValue(P.Digit(d, caps)) == d
    ensures !S.IsSpace(P.Digit(d, caps)) && !Special(P.Digit(d, caps))
  {
  }

  lemma NumberAppend(t: string, c: char, base: nat)
    requires (forall d | d in t :: S.IsDigit(d, base)) && S.IsDigit(c, base)
    ensures S.Number(t + [c], base) == S.Number(t, base) * base + S.DigitValue(c)
  {
    assert (t + [c])[..|t|] == t;
  }

  lemma {:induction false} DigitsArePlain(n: nat, base: nat, caps: bool)
    requires 2 <= base <= 16
    ensures PlainDigits(P.Digits(n, base, caps), base)
    decreases n
  {
    DigitRoundTrip(n % base, base, caps);
    P.DigitsStep(n, base, caps);
    hide P.Digits, P.Digit, S.DigitValue, S.IsSpace;
    if n < base {
      SmallMod(n, base);
    } else {
      DivSmaller(n, base);
      DigitsArePlain(n / base, base, caps);
    }
  }

  lemma {:induction false} DigitsRoundTrip(n: nat, base: nat, caps: bool)
    requires 2 <= base <= 16
    ensures PlainDigits(P.Digits(n, base, caps), base)
    ensures S.Number(P.Digits(n, base, caps), base) == n
    decreases n
  {
    DigitsArePlain(n, base, caps);
    P.DigitsStep(n, base, caps);
    var d, high := n % base, n / base;
    DigitRoundTrip(d, base, caps);
    hide P.Digits, P.Digit, S.DigitValue, S.IsSpace, S.Number;
    if n < base {
      SmallMod(n, base);
      NumberAppend([], P.Digit(d, caps), base);
      assert P.Digits(n, base, caps) == [] + [P.Digit(d, caps)];
      NumberEmpty(base);
    } else {
      DivSmaller(n, base);
      DigitsRoundTrip(high, base, caps);
      NumberAppend(P.Digits(high, base, caps), P.Digit(d, caps), base);
      DivMod(n, base);
    }
  }

  lemma DivMod(n: nat, base: nat)
    requires 0 < base
    ensures n == n / base * base + n % base
  {
  }

  lemma SmallMod(n: nat, base: nat)
    requires n < base
    ensures n % base == n
  {
  }

  lemma DivSmaller(n: nat, base: nat)
    requires 2 <= base <= n
    ensures n / base < n
  {
    DivFloor(n, base);
    MulMonotone(n / base, 2, base);
  }

  lemma NumberEmpty(base: nat)
    ensures S.Number([], base) == 0 && 0 * base == 0
  {
  }

  lemma {:induction false} LeadingZeros(k: nat, digits: string, base: nat)
    requires 2 <= base <= 16 && digits != []
    requires forall c | c in digits :: S.IsDigit(c, base)
    ensures forall c | c in P.Repeat('0', k) + digits :: S.IsDigit(c, base)
    ensures S.Number(P.Repeat('0', k) + digits, base) == S.Number(digits, base)
    decreases |digits|
  {
    var zeros := P.Repeat('0', k);
    var all := zeros + digits;
    var init := digits[..|digits| - 1];
    assert all[..|all| - 1] == zeros + init;
    if init == [] {
      assert zeros + init == zeros;
      ZerosAreZero(k, base);
    } else {
      LeadingZeros(k, init, base);
    }
  }

  lemma {:induction false} ZerosAreZero(k: nat, base: nat)
    requires 2 <= base <= 16
    ensures forall c | c in P.Repeat('0', k) :: S.IsDigit(c, base)
    ensures S.Number(P.Repeat('0', k), base) == 0
  {
    var zeros := P.Repeat('0', k);
    if k > 0 {
      ZerosAreZero(k - 1, base);
      assert zeros[..k - 1] == P.Repeat('0', k - 1);
      assert 0 * base == 0;
    }
  }

  // ---- Reading blanks, a sign and digits ----

  lemma {:induction false} SkipsBlanks(s: string, i: nat, k: nat)
    requires i <= k <= |s|
    requires forall j | i <= j < k :: s[j] == ' '
    requires k < |s| ==> !S.IsSpace(s[k])
    ensures S.SkipSpaces(s, i) == k
    decreases k - i
  {
    if i < k {
      SkipsBlanks(s, i + 1, k);
    }
  }

  lemma {:induction false} SkipsAllDigits(s: string, i: nat, base: nat)
    requires i <= |s| && forall j | i <= j < |s| :: S.IsDigit(s[j], base)
    ensures S.SkipDigits(s, i, base) == |s|
    decreases |s| - i
  {
    if i < |s| {
      SkipsAllDigits(s, i + 1, base);
    }
  }

  lemma ReadsPrefix(blanks: nat, sign: string, digits: string, base: nat)
    requires base == 10 || base == 16
    requires IsSign(sign) && PlainDigits(digits, base)
    ensures var s := P.Repeat(' ', blanks) + sign + digits;
            S.ParsePrefix(s, base) == S.Prefix(sign == "-", base, blanks + |sign|)
  {
    var s := P.Repeat(' ', blanks) + sign + digits;
    var start := blanks + |sign|;
    assert s[start] == digits[0] && digits[0] in digits;
    assert start + 1 < |s| ==> s[start + 1] == digits[1] && digits[1] in digits;
    hide S.DigitValue;
    assert |sign| == 1 ==> s[blanks] == sign[0];
    SkipsBlanks(s, 0, blanks);
  }

  /** A printed number as strtoul takes it apart. */
  lemma Reads(blanks: nat, sign: string, digits: string, base: nat)
    requires base == 10 || base == 16
    requires IsSign(sign) && PlainDigits(digits, base)
    ensures var s := P.Repeat(' ', blanks) + sign + digits;
            && S.ParsePrefix(s, base) == S.Prefix(sign == "-", base, blanks + |sign|)
            && S.SkipDigits(s, blanks + |sign|, base) == |s|
            && S.Magnitude(s, base) == S.Number(digits, base)
  {
    ReadsPrefix(blanks, sign, digits, base);
    hide S.DigitValue, S.Number, S.ParsePrefix;
    var s := P.Repeat(' ', blanks) + sign + digits;
    var start := blanks + |sign|;
    assert s[start..] == digits == s[start..|s|];
    assert forall j | start <= j < |s| :: s[j] in digits;
    SkipsAllDigits(s, start, base);
  }

  /** The field as blanks, sign, zeros and digits. */
  lemma FieldShape(flags: P.Flags, width: nat, sign: char, digits: string) returns (blanks: nat, s: string, zeros: nat)
    requires !flags.left && SignChar(sign)
    ensures P.Justify(flags, width, sign, digits) == P.Repeat(' ', blanks) + s + (P.Repeat('0', zeros) + digits)
    ensures IsSign(s) && (s == "-" <==> sign == '-')
  {
    var fill := (if sign != '\0' && width > 0 then width - 1 else width) - |digits|;
    var pad := if fill < 0 then 0 else fill;
    s := if sign == '+' || sign == '-' then [sign] else "";
    var blank := if sign == ' ' then 1 else 0;
    if flags.leadZero {
      blanks, zeros := blank, pad;
    } else {
      blanks, zeros := pad + blank, 0;
    }
    var signed := if sign == '\0' then "" else [sign];
    if flags.leadZero {
      assert signed == P.Repeat(' ', blanks) + s;
      assert signed + P.Repeat('0', fill) + digits == P.Repeat(' ', blanks) + s + (P.Repeat('0', zeros) + digits);
    } else {
      assert P.Repeat(' ', fill) + signed == P.Repeat(' ', blanks) + s;
      assert P.Repeat('0', 0) + digits == digits;
    }
  }

  predicate Plain(c: char, flags: P.Flags) {
    (Signed(c) || c == 'u' || (Hex(c) && !flags.alt)) && !flags.left
  }

  function BaseOf(c: char): nat { if Hex(c) then 16 else 10 }

  /** strtoul reads `s` as the word `n`, with no error and to the end. */
  predicate ReadsBackAs(s: string, base: nat, n: nat) {
    var p := S.ParsePrefix(s, base);
    && S.Saturate(S.Magnitude(s, base), p.neg) == n
    && S.Magnitude(s, base) <= S.ULONG_MAX
    && S.SkipDigits(s, p.start, p.base) == |s|
  }

  lemma HexThenParse(flags: P.Flags, width: nat, word: nat)
    requires word < TWO32 && !flags.left && !flags.alt
    ensures ReadsBackAs(P.HexField(flags, width, word), 16, P.Narrow(flags, word, false))
  {
    hide P.Digits, P.Justify, P.Low, S.ParsePrefix, S.Magnitude;
    var n := P.Narrow(flags, word, false);
    FieldReads(flags, width, '\0', n, 16, flags.caps);
    assert P.HexField(flags, width, word) == P.Justify(flags, width, '\0', P.Digits(n, 16, flags.caps));
  }

  lemma DecimalThenParse(flags: P.Flags, width: nat, n: nat, signed: bool)
    requires n < TWO32 && !flags.left
    ensures ReadsBackAs(P.Justify(flags, width, P.Sign(flags, n, signed),
        P.Digits(P.Magnitude(n, signed), 10, false)), 10, n)
  {
    hide P.Digits, P.Justify, S.ParsePrefix, S.Magnitude;
    FieldReads(flags, width, P.Sign(flags, n, signed), P.Magnitude(n, signed), 10, false);
  }

  /** Any word printed by %d, %i, %u, %x or %X, with any width, '0', '+', blank and size
      modifiers, is read back by strtoul in the matching base as the same word (as the size
      modifiers left it), with no error and to the end of the field. */
  lemma PrintThenParse(c: char, flags: P.Flags, width: nat, arg: P.Arg)
    requires Plain(c, flags) && arg.word < TWO32
    ensures ReadsBackAs(P.Field(c, flags, width, arg), BaseOf(c), P.Narrow(flags, arg.word, Signed(c)))
  {
    hide P.Digits, P.Justify, P.Low, P.HexField, ReadsBackAs;
    if Hex(c) {
      HexThenParse(if c == 'X' then flags.(caps := true) else flags, width, arg.word);
    } else {
      DecimalThenParse(flags, width, P.Narrow(flags, arg.word, Signed(c)), Signed(c));
    }
  }

  lemma PlainWithZeros(zeros: nat, digits: string, base: nat)
    requires 2 <= base <= 16 && PlainDigits(digits, base)
    ensures PlainDigits(P.Repeat('0', zeros) + digits, base)
    ensures S.Number(P.Repeat('0', zeros) + digits, base) == S.Number(digits, base)
  {
    LeadingZeros(zeros, digits, base);
    ZerosAreDigits(zeros);
  }

  /** A field as blanks, a sign and digits of the number. */
  lemma FieldParts(flags: P.Flags, width: nat, sign: char, m: nat, base: nat, caps: bool)
    returns (blanks: nat, s: string, body: string)
    requires !flags.left && SignChar(sign) && (base == 10 || base == 16)
    ensures P.Justify(flags, width, sign, P.Digits(m, base, caps)) == P.Repeat(' ', blanks) + s + body
    ensures IsSign(s) && (s == "-" <==> sign == '-')
    ensures PlainDigits(body, base) && S.Number(body, base) == m
  {
    DigitsRoundTrip(m, base, caps);
    hide P.Digits, S.Number, P.Justify, P.Repeat;
    var zeros;
    blanks, s, zeros := FieldShape(flags, width, sign, P.Digits(m, base, caps));
    PlainWithZeros(zeros, P.Digits(m, base, caps), base);
    body := P.Repeat('0', zeros) + P.Digits(m, base, caps);
  }

  lemma FieldReads(flags: P.Flags, width: nat, sign: char, m: nat, base: nat, caps: bool)
    requires !flags.left && SignChar(sign) && (base == 10 || base == 16)
    ensures var s := P.Justify(flags, width, sign, P.Digits(m, base, caps));
            var p := S.ParsePrefix(s, base);
            && S.Magnitude(s, base) == m && p.neg == (sign == '-')
            && S.SkipDigits(s, p.start, p.base) == |s|
  {
    hide P.Digits, P.Justify, S.ParsePrefix, S.Magnitude, S.Number, P.Repeat, PlainDigits, S.SkipDigits;
    var blanks, s, body := FieldParts(flags, width, sign, m, base, caps);
    Reads(blanks, s, body, base);
  }

  lemma ZerosAreDigits(k: nat)
    ensures forall c | c in P.Repeat('0', k) :: !S.IsSpace(c) && !Special(c)
  {
  }

  /** With '-' the sign is lost, so a negative number does not survive: exactly the
      non-negative ones do. */
  lemma LeftJustifiedParsesIff(flags: P.Flags, width: nat, arg: P.Arg)
    requires flags.left && arg.word < TWO32
    ensures var s := P.Field('d', flags, width, arg);
            var n := P.Narrow(flags, arg.word, true);
            S.Saturate(S.Magnitude(s, 10), S.ParsePrefix(s, 10).neg) == n <==> (n < TWO31 || n == TWO31)
  {
    hide P.Digits, P.Justify, P.Field, P.Narrow, S.ParsePrefix, S.Magnitude, S.Number, PlainDigits;
    var n := P.Narrow(flags, arg.word, true);
    LeftField(flags, width, arg);
    DigitsRoundTrip(P.Magnitude(n, true), 10, false);
    ReadsLeft(P.Digits(P.Magnitude(n, true), 10, false), width);
  }

  lemma LeftField(flags: P.Flags, width: nat, arg: P.Arg)
    requires flags.left && arg.word < TWO32
    ensures var digits := P.Digits(P.Magnitude(P.Narrow(flags, arg.word, true), true), 10, false);
            P.Field('d', flags, width, arg) == digits + P.Repeat(' ', width - |digits|)
  {
    hide P.Digits, P.Narrow, P.Repeat;
  }

  lemma ReadsLeft(digits: string, width: nat)
    requires PlainDigits(digits, 10)
    ensures var s := digits + P.Repeat(' ', width - |digits|);
            !S.ParsePrefix(s, 10).neg && S.Magnitude(s, 10) == S.Number(digits, 10)
  {
    var s := digits + P.Repeat(' ', width - |digits|);
    assert s[0] == digits[0];
    StopsAtBlank(s, 0, |digits|);
    assert s[0..|digits|] == digits;
  }

  lemma {:induction false} StopsAtBlank(s: string, i: nat, end: nat)
    requires i <= end <= |s| && (forall j | i <= j < end :: S.IsDigit(s[j], 10)) && (end < |s| ==> s[end] == ' ')
    ensures S.SkipDigits(s, i, 10) == end
    decreases end - i
  {
    if i < end {
      StopsAtBlank(s, i + 1, end);
    }
  }
}
