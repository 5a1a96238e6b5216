/** libc/src/atoi.c: strtoul on RV32, where unsigned long has 32 bits. A C string is the
    sequence of its characters without the terminator. */
module Strtoul {
  import opened Common
  import opened Arith

  const ULONG_MAX := 0xFFFF_FFFF

  function At(s: string, i: nat): char { if i < |s| then s[i] else '\0' }

  predicate IsSpace(c: char) { c == ' ' || c == '\t' || c == '\n' || c == '\r' || c == 11 as char || c == 12 as char }

  /** The value of a digit in the largest base, or -1. */
  function DigitValue(c: char): int {
    if 'A' <= c <= 'Z' then c as int - 'A' as int + 10
    else if 'a' <= c <= 'z' then c as int - 'a' as int + 10
    else if '0' <= c <= '9' then c as int - '0' as int
    else -1
  }

  predicate IsDigit(c: char, base: nat) { 0 <= DigitValue(c) < base }

  // ---- The number that a string denotes ----

  function SkipSpaces(s: string, i: nat): (j: nat)
    requires i <= |s|
    ensures i <= j <= |s|
    decreases |s| - i
  {
    if i < |s| && IsSpace(s[i]) then SkipSpaces(s, i + 1) else i
  }

  /** Past the digits that start at `i`. */
  function SkipDigits(s: string, i: nat, base: nat): (j: nat)
    requires i <= |s|
    ensures i <= j <= |s|
    decreases |s| - i
  {
    if i < |s| && IsDigit(s[i], base) then SkipDigits(s, i + 1, base) else i
  }

  /** The mathematical value of a run of digits, most significant first. */
  function Number(digits: string, base: nat): nat
    requires forall c | c in digits :: IsDigit(c, base)
  {
    if digits == [] then 0
    else
      var last := digits[|digits| - 1];
      assert last in digits && IsDigit(last, base);
      var high: nat := Number(digits[..|digits| - 1], base);
      MulMonotone(high, 0, base);
      high * base + DigitValue(last)
  }

  /** Sign, effective base and position of the first digit. */
  datatype Prefix = Prefix(neg: bool, base: nat, start: nat)

  function ParsePrefix(s: string, base: nat): (p: Prefix)
    ensures p.start <= |s|
    ensures base != 0 ==> p.base == base
    ensures base == 0 ==> p.base in {8, 10, 16}
  {
    var i := SkipSpaces(s, 0);
    var neg := At(s, i) == '-';
    var j := if i < |s| && (s[i] == '+' || s[i] == '-') then i + 1 else i;
    if (base == 0 || base == 16) && At(s, j) == '0' && At(s, j + 1) == 'x' then Prefix(neg, 16, j + 2)
    else if base == 0 && At(s, j) == '0' then Prefix(neg, 8, j + 1)
    else Prefix(neg, if base == 0 then 10 else base, j)
  }

  lemma DigitsAreDigits(s: string, i: nat, base: nat)
    requires i <= |s|
    ensures forall c | c in s[i..SkipDigits(s, i, base)] :: IsDigit(c, base)
    decreases |s| - i
  {
    if i < |s| && IsDigit(s[i], base) {
      DigitsAreDigits(s, i + 1, base);
      assert s[i..SkipDigits(s, i, base)] == [s[i]] + s[i + 1..SkipDigits(s, i + 1, base)];
    }
  }

  /** The value denoted, before the sign is applied. */
  function Magnitude(s: string, base: nat): nat {
    var p := ParsePrefix(s, base);
    DigitsAreDigits(s, p.start, p.base);
    Number(s[p.start..SkipDigits(s, p.start, p.base)], p.base)
  }

  /** What strtoul makes of a magnitude and a sign. */
  function Saturate(value: nat, neg: bool): nat {
    if value >= ULONG_MAX then ULONG_MAX else if neg && value != 0 then TWO32 - value else value
  }

  // ---- The overflow test ----

  /** The divide-back test, the carry test and the sticky maximum together detect exactly the
      digits that take the value beyond 32 bits. */
  lemma OverflowTest(value: nat, base: nat, v: nat)
    requires 2 <= base <= 36 && v < base
    ensures var ret := if value >= ULONG_MAX then ULONG_MAX else value;
            var newRet := ret * base % TWO32;
            (newRet / base != ret || (newRet + v) % TWO32 < newRet || ret == ULONG_MAX)
            <==> value * base + v > ULONG_MAX
  {
    if value >= ULONG_MAX {
      MulMonotone(value, 2, base);
    } else {
      DivideBack(value, base);
      CarryTest(value * base % TWO32, v);
    }
  }

  /** Dividing the truncated product gives the factor back exactly when nothing was cut off. */
  lemma DivideBack(ret: nat, base: nat)
    requires 2 <= base <= 36
    ensures ret * base % TWO32 / base == ret <==> ret * base < TWO32
  {
    var p := ret * base;
    MulMonotone(ret, 0, base);
    if p < TWO32 {
      DivUnique(p, base, ret, 0);
    } else {
      var cut := p % TWO32;
      assert cut <= p - TWO32 < p - base;
      DivFloor(cut, base);
    }
  }

  lemma CarryTest(x: nat, v: nat)
    requires x < TWO32 && v < 36
    ensures (x + v) % TWO32 < x <==> x + v >= TWO32
  {
  }

  // ---- strtoul ----

  datatype Errno = Unchanged | EINVAL | ERANGE

  /** The digit loop of strtoul. */
  method ScanDigits(s: string, start: nat, base: nat) returns (ret: nat, end: nat, errno: Errno)
    requires start <= |s| && 2 <= base <= 36
    ensures end == SkipDigits(s, start, base)
    ensures forall c | c in s[start..end] :: IsDigit(c, base)
    ensures var value := Number(s[start..end], base);
            && ret == (if value >= ULONG_MAX then ULONG_MAX else value)
            && errno == (if value > ULONG_MAX then ERANGE else Unchanged)
  {
    DigitsAreDigits(s, start, base);
    var i := start;
    ret, errno := 0, Unchanged;
    ghost var value := 0;
    while 0 <= DigitValue(At(s, i)) < base
      invariant start <= i <= SkipDigits(s, start, base) && SkipDigits(s, i, base) == SkipDigits(s, start, base)
      invariant forall c | c in s[start..i] :: IsDigit(c, base)
      invariant value == Number(s[start..i], base)
      invariant ret == if value >= ULONG_MAX then ULONG_MAX else value
      invariant errno == if value > ULONG_MAX then ERANGE else Unchanged
      decreases |s| - i
    {
      var v := DigitValue(At(s, i));
      var newRet := ret * base % TWO32;
      OverflowTest(value, base, v);
      assert s[start..i + 1][..i - start] == s[start..i];
      value := value * base + v;
      if newRet / base != ret || (newRet + v) % TWO32 < newRet || ret == ULONG_MAX {
        ret, errno := ULONG_MAX, ERANGE;
      } else {
        NoWrap(ret, base, v);
        ret := newRet + v;
      }
      i := i + 1;
    }
    end := i;
  }

  /** White space, sign and base prefix. */
  method ScanPrefix(s: string, base: nat) returns (p: Prefix)
    ensures p == ParsePrefix(s, base)
  {
    var neg, b, i := false, base, 0;
    while IsSpace(At(s, i))
      invariant i <= |s| && SkipSpaces(s, i) == SkipSpaces(s, 0)
      decreases |s| - i
    {
      i := i + 1;
    }
    if At(s, i) == '+' {
      i := i + 1;
    } else if At(s, i) == '-' {
      neg := true;
      i := i + 1;
    }
    if (b == 0 || b == 16) && At(s, i) == '0' && At(s, i + 1) == 'x' {
      b := 16;
      i := i + 2;
    } else if b == 0 && At(s, i) == '0' {
      b := 8;
      i := i + 1;
    } else if b == 0 {
      b := 10;
    }
    p := Prefix(neg, b, i);
  }

  /** strtoul saturates exactly, whatever the string and base; ERANGE is set if and only if
      the value needs more than 32 bits. */
  method Strtoul(s: string, base: int) returns (ret: nat, endptr: Option<nat>, errno: Errno)
    ensures base < 0 || base == 1 || base > 36 ==> ret == 0 && endptr == None && errno == EINVAL
    ensures base == 0 || 2 <= base <= 36 ==>
              var p := ParsePrefix(s, base);
              && ret == Saturate(Magnitude(s, base), p.neg)
              && (errno == if Magnitude(s, base) > ULONG_MAX then ERANGE else Unchanged)
              && endptr == Some(SkipDigits(s, p.start, p.base))
  {
    if base < 0 || base == 1 || base > 36 {
      return 0, None, EINVAL;
    }
    hide ParsePrefix, Number;
    var p := ScanPrefix(s, base);
    var end;
    ret, end, errno := ScanDigits(s, p.start, p.base);
    endptr := Some(end);
    if p.neg && ret != ULONG_MAX {
      ret := (TWO32 - ret) % TWO32;
    }
  }

  lemma NoWrap(ret: nat, base: nat, v: nat)
    requires ret * base + v <= ULONG_MAX
    ensures ret * base % TWO32 == ret * base
  {
  }

  /** A negative number comes back as its two's complement exactly when its magnitude is not
      the largest word: "-4294967295" is taken for an overflow, though no error is set. */
  lemma NegationIff(value: nat)
    requires value <= ULONG_MAX
    ensures Saturate(value, true) == (TWO32 - value) % TWO32 <==> value != ULONG_MAX
  {
  }
}
