/** libc/src/printf.c without floating point: what a format string denotes, and the engine,
    number printers and bounded output that compute it in place. */
module Printf {
  import opened Common

  /** One variadic argument: its low 32 bits as a number, and the string it points to (None
      for a null pointer or a number). */
  datatype Arg = Arg(word: nat, str: Option<string>)

  datatype Flags = Flags(long: bool, longLong: bool, half: bool, halfHalf: bool, alt: bool, caps: bool,
                         showSign: bool, left: bool, leadZero: bool, blankPos: bool)

  const NO_FLAGS := Flags(false, false, false, false, false, false, false, false, false, false)

  // ---- Numbers ----

  function Digit(d: nat, caps: bool): char
    requires d < 16
  {
    if d < 10 then ('0' as int + d) as char
    else if caps then ('A' as int + d - 10) as char
    else ('a' as int + d - 10) as char
  }

  /** The digits of `n`, most significant first, with no leading zero but for 0 itself. */
  function Digits(n: nat, base: nat, caps: bool): (s: string)
    requires 2 <= base <= 16
    ensures s != []
    decreases n
  {
    if n < base then [Digit(n, caps)]
    else
      assert n / base < n;
      Digits(n / base, base, caps) + [Digit(n % base, caps)]
  }

  lemma DigitsStep(n: nat, base: nat, caps: bool)
    requires 2 <= base <= 16
    ensures n < base ==> Digits(n, base, caps) == [Digit(n, caps)]
    ensures n >= base ==> Digits(n, base, caps) == Digits(n / base, base, caps) + [Digit(n % base, caps)]
  {
  }

  /** A word is printed with at most 10 decimal or 8 hexadecimal digits. */
  lemma {:induction false} DigitsBounded(n: nat, base: nat, caps: bool, k: nat)
    requires base == 10 || base == 16
    requires 1 <= k && n < Power(base, k)
    ensures |Digits(n, base, caps)| <= k
    decreases k
  {
    if n >= base {
      assert n / base < Power(base, k - 1);
      DigitsBounded(n / base, base, caps, k - 1);
    }
  }

  function Power(base: nat, k: nat): nat {
    if k == 0 then 1 else base * Power(base, k - 1)
  }

  lemma WordDigits(n: nat, caps: bool)
    requires n < TWO32
    ensures |Digits(n, 10, caps)| <= 10 && |Digits(n, 16, caps)| <= 8
  {
    assert Power(10, 1) == 10 && Power(10, 2) == 100 && Power(10, 3) == 1000 && Power(10, 4) == 10000;
    assert Power(10, 6) == 1_000_000;
    assert Power(10, 8) == 100_000_000;
    assert Power(10, 10) == 10_000_000_000;
    assert Power(16, 2) == 0x100 && Power(16, 4) == 0x1_0000;
    assert Power(16, 6) == 0x100_0000;
    assert Power(16, 8) == TWO32;
    DigitsBounded(n, 10, caps, 10);
    DigitsBounded(n, 16, caps, 8);
  }

  function Negative(n: nat, signed: bool): bool { signed && n >= TWO31 }

  function Magnitude(n: nat, signed: bool): nat
    requires n < TWO32
  {
    if Negative(n, signed) then TWO32 - n else n
  }

  /** The sign character, '\0' for none. */
  function Sign(flags: Flags, n: nat, signed: bool): char {
    if Negative(n, signed) then '-' else if flags.showSign then '+' else if flags.blankPos then ' ' else '\0'
  }

  function Low(n: nat, m: nat, signed: bool): (r: nat)
    requires 0 < m && m <= TWO32 && n < TWO32
    ensures r < TWO32
  {
    var b := n % m;
    if signed && 2 * b >= m then TWO32 - m + b else b
  }

  /** The h and hh modifiers cut the argument down; l overrides them. */
  function Narrow(flags: Flags, n: nat, signed: bool): (r: nat)
    requires n < TWO32
    ensures r < TWO32
  {
    if flags.long then n
    else if flags.halfHalf then Low(n, 0x100, signed)
    else if flags.half then Low(n, 0x1_0000, signed)
    else n
  }

  // ---- Fields ----

  function Repeat(c: char, n: int): string { if n <= 0 then "" else seq(n, _ => c) }

  /** Text in a field: left-justified text loses its sign; otherwise the sign counts towards
      the width and comes before zeros but after blanks. */
  function Justify(flags: Flags, width: nat, sign: char, text: string): string {
    if flags.left then text + Repeat(' ', width - |text|)
    else
      var signed := if sign == '\0' then "" else [sign];
      var fill := (if sign != '\0' && width > 0 then width - 1 else width) - |text|;
      if flags.leadZero then signed + Repeat('0', fill) + text else Repeat(' ', fill) + signed + text
  }

  datatype Spec = Spec(conv: Option<char>, flags: Flags, width: nat, next: nat)

  /** Reads flags, width and modifiers up to the conversion character, if there is one. */
  function ParseSpec(fmt: string, i: nat, flags: Flags, width: nat): (s: Spec)
    requires i <= |fmt|
    ensures i <= s.next <= |fmt| && (s.conv.Some? ==> i < s.next)
    decreases |fmt| - i
  {
    if i == |fmt| then Spec(None, flags, width, i)
    else
      var c := fmt[i];
      if '0' <= c <= '9' then
        ParseSpec(fmt, i + 1, flags.(leadZero := flags.leadZero || (c == '0' && width == 0)),
                  (width * 10 + (c as int - '0' as int)) % TWO32)
      else if Ignored(c) then ParseSpec(fmt, i + 1, flags, width)
      else if c == '-' then ParseSpec(fmt, i + 1, flags.(left := true), width)
      else if c == '+' then ParseSpec(fmt, i + 1, flags.(showSign := true), width)
      else if c == ' ' then ParseSpec(fmt, i + 1, flags.(blankPos := true), width)
      else if c == '#' then ParseSpec(fmt, i + 1, flags.(alt := true), width)
      else if c == 'l' then ParseSpec(fmt, i + 1, flags.(long := true, longLong := flags.longLong || flags.long), width)
      else if c == 'h' then ParseSpec(fmt, i + 1, flags.(half := true, halfHalf := flags.halfHalf || flags.half), width)
      else Spec(Some(c), flags, width, i + 1)
  }

  predicate TakesArg(c: char) {
    c == 'c' || c == 's' || c == 'i' || c == 'd' || c == 'u' || c == 'x' || c == 'X' || c == 'p' || c == 'n'
  }

  /** Parsed but without effect: precision dots, and size modifiers that mean 32 bits here. */
  predicate Ignored(c: char) { c == '.' || c == 'z' || c == 'j' || c == 't' }

  function HexField(flags: Flags, width: nat, n: nat): string
    requires n < TWO32
  {
    (if flags.alt then ['0', if flags.caps then 'X' else 'x'] else "") +
    Justify(flags, width, '\0', Digits(Narrow(flags, n, false), 16, flags.caps))
  }

  /** What one conversion puts out. */
  function Field(c: char, flags: Flags, width: nat, arg: Arg): string
    requires arg.word < TWO32
  {
    if c == '%' then "%"
    else if c == 'c' then [(arg.word % 256) as char]
    else if c == 's' then Justify(flags.(leadZero := false), width, '\0', if arg.str.Some? then arg.str.value
        else "<null>")
    else if c == 'i' || c == 'd' then
      var n := Narrow(flags, arg.word, true);
      Justify(flags, width, Sign(flags, n, true), Digits(Magnitude(n, true), 10, false))
    else if c == 'u' then
      var n := Narrow(flags, arg.word, false);
      Justify(flags, width, Sign(flags, n, false), Digits(n, 10, false))
    else if c == 'p' then HexField(flags.(long := true, alt := true), width, arg.word)
    else if c == 'X' then HexField(flags.(caps := true), width, arg.word)
    else if c == 'x' then HexField(flags, width, arg.word)
    else if c == 'n' then ""
    else ['%', c]
  }

  type Args = s: seq<Arg> | forall a | a in s :: a.word < TWO32

  function Head(args: Args): (a: Arg)
    ensures a.word < TWO32
  {
    if args == [] then Arg(0, None) else assert args[0] in args; args[0]
  }

  function Tail(args: Args): Args {
    if args == [] then [] else args[1..]
  }

  /** The end of the literal text at `i`. */
  function Literal(fmt: string, i: nat): (j: nat)
    requires i <= |fmt|
    ensures i <= j <= |fmt| && (j < |fmt| ==> fmt[j] == '%')
    decreases |fmt| - i
  {
    if i == |fmt| || fmt[i] == '%' then i else Literal(fmt, i + 1)
  }

  /** What a %n conversion stores: so many bytes, little-endian, of the count so far. */
  datatype Store = Store(bytes: nat, value: nat)

  function StoreOf(flags: Flags, count: nat): Store {
    if flags.longLong then Store(8, count % TWO32)
    else if flags.long then Store(4, count % TWO32)
    else if flags.halfHalf then Store(1, count % 0x100)
    else if flags.half then Store(2, count % 0x1_0000)
    else Store(4, count % TWO32)
  }

  /** The stores of one conversion when `count` characters are out. */
  function StoresOf(c: char, flags: Flags, count: nat): seq<Store> { if c == 'n' then [StoreOf(flags, count)] else [] }

  /** The text a format denotes, and what its %n conversions store. */
  datatype Output = Output(text: string, stores: seq<Store>)

  function Render(fmt: string, i: nat, args: Args, written: nat): Output
    requires i <= |fmt|
    decreases |fmt| - i
  {
    var j := Literal(fmt, i);
    if j == |fmt| then Output(fmt[i..j], [])
    else
      var spec := ParseSpec(fmt, j + 1, NO_FLAGS, 0);
      if spec.conv.None? then Output(fmt[i..j], [])
      else
        var c := spec.conv.value;
        var head := fmt[i..j] + Field(c, spec.flags, spec.width, Head(args));
        var rest := Render(fmt, spec.next, if TakesArg(c) then Tail(args) else args, written + |head|);
        Output(head + rest.text, StoresOf(c, spec.flags, written + |head|) + rest.stores)
  }

  // ---- Properties of fields ----

  /** A right-justified field is exactly as wide as asked, or as its digits and sign need. */
  lemma FieldWidth(flags: Flags, width: nat, sign: char, text: string)
    requires !flags.left
    ensures var need := |text| + (if sign == '\0' then 0 else 1);
            |Justify(flags, width, sign, text)| == if width > need then width else need
  {
  }

  /** Left justification drops the sign, and that is the only thing that does. */
  lemma SignShownIff(flags: Flags, width: nat, n: nat)
    requires n < TWO32 && Negative(n, true)
    ensures var text := Digits(Magnitude(n, true), 10, false);
            '-' in Justify(flags, width, Sign(flags, n, true), text) <==> !flags.left
  {
    var text := Digits(Magnitude(n, true), 10, false);
    DigitsAreDigits(Magnitude(n, true), 10, false);
  }

  predicate HexChar(c: char) { '0' <= c <= '9' || 'a' <= c <= 'f' || 'A' <= c <= 'F' }

  lemma DigitIsHexChar(d: nat, caps: bool)
    requires d < 16
    ensures HexChar(Digit(d, caps))
  {
  }

  lemma {:induction false} DigitsAreDigits(n: nat, base: nat, caps: bool)
    requires 2 <= base <= 16
    ensures forall c | c in Digits(n, base, caps) :: HexChar(c)
    decreases n
  {
    hide Digit, HexChar;
    DigitIsHexChar(n % base, caps);
    if n >= base {
      assert n / base < n;
      DigitsAreDigits(n / base, base, caps);
    }
  }
}
