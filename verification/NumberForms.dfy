/** How numbers are written for strtoul: blanks, a sign, the prefix of the base, digits. */
module NumberForms {
  import opened Common
  import opened Strtoul

  const LOWER := "0123456789abcdefghijklmnopqrstuvwxyz"
  const UPPER := "0123456789ABCDEFGHIJKLMNOPQRSTUVWXYZ"

  lemma Alphabets(d: nat)
    requires d < 36
    ensures |LOWER| == |UPPER| == 36
    ensures LOWER[d] == (if d < 10 then '0' as int + d else 'a' as int + d - 10) as char
    ensures UPPER[d] == (if d < 10 then '0' as int + d else 'A' as int + d - 10) as char
  {
  }

  /** A digit is worth its place in the alphabet, in either case, and nothing else is a digit. */
  lemma DigitTable(c: char, d: nat)
    requires d < 36
    ensures |LOWER| == |UPPER| == 36
    ensures DigitValue(c) == d <==> c == LOWER[d] || c == UPPER[d]
    ensures -1 <= DigitValue(c) < 36
  {
    hide LOWER, UPPER;
    Alphabets(d);
  }

  /** The white space of the C locale. */
  predicate Blank(c: char) { c in [' ', '\t', '\n', 11 as char, 12 as char, '\r'] }

  predicate Letter(c: char) { 'a' <= c <= 'z' || 'A' <= c <= 'Z' || '0' <= c <= '9' }

  /** A written number: what comes after the digits begins with neither a letter nor a digit. */
  datatype Form = Form(blanks: string, sign: string, prefix: string, digits: string, after: string) {
    predicate Valid(base: nat) {
      && (forall c | c in blanks :: Blank(c)) && (sign == "" || sign == "+" || sign == "-")
      && (forall c | c in digits :: IsDigit(c, base))
      && (after == "" || !Letter(after[0]))
    }

    function Text(): string { blanks + sign + prefix + digits + after }

    function Front(): nat { |blanks| + |sign| + |prefix| }
  }

  /** The base in which the digits are read. */
  predicate Means(f: Form, base: nat, effective: nat) {
    match base
    case 0 =>
      || (f.prefix == "0x" && effective == 16)
      || (f.prefix == "0" && effective == 8)
      || (f.prefix == "" && effective == 10 && f.digits != "" && f.digits[0] != '0')
    case 16 => (f.prefix == "" || f.prefix == "0x") && effective == 16 && (f.prefix == "" ==> f.digits != "")
    case _ => f.prefix == "" && f.digits != "" && effective == base && 2 <= base <= 36
  }

  lemma {:induction false} Skips(s: string, i: nat, k: nat)
    requires i <= k <= |s| && (forall j | i <= j < k :: Blank(s[j])) && (k < |s| ==> !Blank(s[k]))
    ensures SkipSpaces(s, i) == k
    decreases k - i
  {
    if i < k {
      Skips(s, i + 1, k);
    }
  }

  lemma {:induction false} SkipsTo(s: string, i: nat, k: nat, base: nat)
    requires base <= 36 && i <= k <= |s| && (forall j | i <= j < k :: IsDigit(s[j], base))
    requires k < |s| ==> !Letter(s[k])
    ensures SkipDigits(s, i, base) == k
    decreases k - i
  {
    if i < k {
      SkipsTo(s, i + 1, k, base);
    }
  }

  /** What stands where in the text. */
  lemma Places(f: Form, base: nat)
    requires f.Valid(base)
    ensures var s, a, b, c := f.Text(), |f.blanks|, |f.blanks| + |f.sign|, f.Front();
            && c + |f.digits| + |f.after| == |s|
            && (forall j | 0 <= j < a :: s[j] == f.blanks[j])
            && (forall j | a <= j < b :: s[j] == f.sign[j - a])
            && (forall j | b <= j < c :: s[j] == f.prefix[j - b])
            && s[c..c + |f.digits|] == f.digits
            && (forall j | c <= j < c + |f.digits| :: s[j] == f.digits[j - c])
            && (c + |f.digits| < |s| ==> s[c + |f.digits|] == f.after[0])
  {
  }

  /** What strtoul meets before the digits: blanks, the sign, and then a letter, with an 'x' behind it exactly
      for the prefix "0x". */
  lemma Meets(f: Form, base: nat, effective: nat)
    requires f.Valid(effective) && Means(f, base, effective)
    ensures var s, a, b := f.Text(), |f.blanks|, |f.blanks| + |f.sign|;
            && b < |s| && (forall j | 0 <= j < a :: Blank(s[j])) && !Blank(s[a])
            && (if f.sign == "" then s[b] != '+' && s[b] != '-' else s[a] == f.sign[0])
            && (base == 0 || base == 16 ==> (At(s, b + 1) == 'x' && s[b] == '0' <==> f.prefix == "0x"))
            && (f.prefix == "0" ==> s[b] == '0')
            && (f.prefix == "" && base == 0 ==> s[b] != '0')
  {
    hide Form.Text, DigitValue;
    Places(f, effective);
    var s, b, c := f.Text(), |f.blanks| + |f.sign|, f.Front();
    DigitsAreLetters(f, effective);
    assert forall j | 0 <= j < |f.blanks| :: f.blanks[j] in f.blanks;
    assert f.digits != "" ==> f.digits[0] in f.digits && s[c] == f.digits[0];
    assert |f.digits| > 1 ==> f.digits[1] in f.digits && s[c + 1] == f.digits[1];
    assert f.prefix != "" ==> s[b] == f.prefix[0] == '0';
    assert |f.prefix| == 2 ==> s[b + 1] == f.prefix[1] == 'x';
  }

  lemma ReadsPrefixOf(f: Form, base: nat, effective: nat)
    requires f.Valid(effective) && Means(f, base, effective)
    ensures ParsePrefix(f.Text(), base) == Prefix(f.sign == "-", effective, f.Front())
  {
    Meets(f, base, effective);
    hide Form.Text, Blank, IsSpace;
    Skips(f.Text(), 0, |f.blanks|);
    hide SkipSpaces, DigitValue;
  }

  lemma DigitsAreLetters(f: Form, base: nat)
    requires f.Valid(base) && base <= 36
    ensures forall c | c in f.digits :: Letter(c) && !Blank(c) && c != '+' && c != '-'
    ensures base <= 16 ==> forall c | c in f.digits :: c != 'x'
  {
  }

  /** Octal after "0" and hexadecimal after "0x" in base 0, hexadecimal with or without "0x" in base 16, and in
      every other base the digits as they are, after any white space and a sign: the magnitude read is
      the value of the digits in that base, and the end is where they end. */
  lemma ReadsForm(f: Form, base: nat, effective: nat)
    requires f.Valid(effective) && Means(f, base, effective)
    ensures var s := f.Text();
            && ParsePrefix(s, base).neg == (f.sign == "-")
            && SkipDigits(s, ParsePrefix(s, base).start, ParsePrefix(s, base).base) == |s| - |f.after|
            && Magnitude(s, base) == Number(f.digits, effective)
  {
    hide Form.Text, DigitValue, Number, ParsePrefix;
    ReadsPrefixOf(f, base, effective);
    Places(f, effective);
    SkipsTo(f.Text(), f.Front(), f.Front() + |f.digits|, effective);
  }

  /** strtoul of a written number, all in all. */
  method ReadForm(f: Form, base: nat, ghost effective: nat) returns (ret: nat, end: Option<nat>, errno: Errno)
    requires f.Valid(effective) && Means(f, base, effective)
    ensures var value := Number(f.digits, effective);
            && (errno == if value > 0xFFFF_FFFF then ERANGE else Unchanged)
            && (value < 0xFFFF_FFFF ==>
                  ret == if f.sign == "-" && value > 0 then 0x1_0000_0000 - value else value)
            && (value >= 0xFFFF_FFFF ==> ret == 0xFFFF_FFFF)
            && end == Some(|f.Text()| - |f.after|)
  {
    hide Form.Text, Form.Valid, Number, Magnitude, ParsePrefix;
    ReadsForm(f, base, effective);
    ret, end, errno := Strtoul.Strtoul(f.Text(), base);
  }

  /** For instance: octal in base 0, hexadecimal in bases 0 and 16, and "-42" among other text. */
  lemma Instances()
    ensures Magnitude("017", 0) == 15 && Magnitude("0x1F", 0) == 31 && Magnitude("0x1F", 16) == 31
    ensures Magnitude("\t -42;", 10) == 42
  {
    hide Magnitude, Number;
    Instance(Form("", "", "0", "17", ""), 0, 8, '1', '7', 15);
    Instance(Form("", "", "0x", "1F", ""), 0, 16, '1', 'F', 31);
    Instance(Form("", "", "0x", "1F", ""), 16, 16, '1', 'F', 31);
    Instance(Form("\t ", "-", "", "42", ";"), 10, 10, '4', '2', 42);
    assert Form("", "", "0", "17", "").Text() == "017" && Form("", "", "0x", "1F", "").Text() == "0x1F";
    assert Form("\t ", "-", "", "42", ";").Text() == "\t -42;";
  }

  lemma Instance(f: Form, base: nat, effective: nat, a: char, b: char, value: nat)
    requires f.digits == [a, b] && IsDigit(a, effective) && IsDigit(b, effective)
    requires f.Valid(effective) && Means(f, base, effective)
    requires DigitValue(a) * effective + DigitValue(b) == value
    ensures Magnitude(f.Text(), base) == value
  {
    ReadsForm(f, base, effective);
    TwoDigits(a, b, effective);
    hide Magnitude, Number, Form.Text;
  }

  lemma TwoDigits(a: char, b: char, base: nat)
    requires IsDigit(a, base) && IsDigit(b, base)
    ensures (forall c | c in [a, b] :: IsDigit(c, base)) &&
        Number([a, b], base) == DigitValue(a) * base + DigitValue(b)
  {
    hide DigitValue;
    assert [a, b][..1] == [a] && [a][..0] == [];
    assert Number([a][..0], base) == 0;
    assert 0 * base == 0;
    assert Number([a], base) == DigitValue(a);
  }
}
