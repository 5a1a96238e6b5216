/** libc/src/printf.c, the code: number printers, bounded output and the format engine. */
module PrintfEngine {
  import opened Arith
  import opened Common
  import opened Printf

  // ---- Number printers ----

  lemma ShiftDigit(n: nat, base: nat, caps: bool, low: string)
    requires 2 <= base <= 16
    ensures n < base ==> Digits(n, base, caps) + low == [Digit(n, caps)] + low
    ensures n >= base ==> Digits(n, base, caps) + low == Digits(n / base, base, caps) + ([Digit(n % base, caps)] + low)
    ensures |Digits(n, base, caps) + low| >= 1 + |low|
  {
    DigitsStep(n, base, caps);
  }

  /** One digit more at the front of the used part of the buffer. */
  method PushDigit(buf: array<char>, pos: nat, c: char) returns (pos': nat)
    requires buf.Length == 32 && 0 < pos <= 31
    modifies buf
    ensures pos' == pos - 1 && buf[31] == old(buf[31]) && buf[pos'..31] == [c] + old(buf[pos..31])
  {
    pos' := pos - 1;
    buf[pos'] := c;
  }

  /** longlong_to_string: fills the buffer from the back. */
  method LonglongToString(buf: array<char>, word: nat, flags: Flags, signed: bool) returns (pos: nat, signchar: char)
    requires buf.Length == 32 && word < TWO32
    modifies buf
    ensures pos < 31 && buf[31] == '\0'
    ensures buf[pos..31] == Digits(Magnitude(word, signed), 10, false)
    ensures signchar == Sign(flags, word, signed)
  {
    var n: nat := word;
    var negative := false;
    if signed && n >= TWO31 {
      negative := true;
      n := TWO32 - n;
    }
    ghost var all := Digits(n, 10, false);
    WordDigits(n, false);
    hide Digits, Digit, Sign;
    pos := 31;
    buf[pos] := '\0';
    assert all + buf[31..31] == all;
    while n >= 10
      invariant 0 <= pos <= 31 && buf[31] == '\0'
      invariant Digits(n, 10, false) + buf[pos..31] == all
    {
      ShiftDigit(n, 10, false, buf[pos..31]);
      pos := PushDigit(buf, pos, Digit(n % 10, false));
      n := n / 10;
    }
    ShiftDigit(n, 10, false, buf[pos..31]);
    pos := PushDigit(buf, pos, Digit(n, false));
    signchar := if negative then '-' else if flags.showSign then '+' else if flags.blankPos then ' ' else '\0';
  }

  /** The digits of `u` that the do-while loop of longlong_to_hexstring has still to print. */
  function HexLeft(u: nat, caps: bool): string { if u == 0 then "" else Digits(u, 16, caps) }

  lemma Hex16(u: nat)
    ensures u < 16 ==> u / 16 == 0 && u % 16 == u
    ensures u >= 16 ==> u / 16 > 0
  {
    DivFloor(u, 16);
    if u < 16 {
      DivUnique(u, 16, 0, u);
    }
  }

  lemma ShiftHex(u: nat, caps: bool, low: string)
    ensures Digits(u, 16, caps) + low == HexLeft(u / 16, caps) + ([Digit(u % 16, caps)] + low)
    ensures |Digits(u, 16, caps) + low| >= 1 + |low|
  {
    hide Digit, Digits;
    Hex16(u);
    DigitsStep(u, 16, caps);
    assert Digits(u, 16, caps) == HexLeft(u / 16, caps) + [Digit(u % 16, caps)];
  }

  /** longlong_to_hexstring. */
  method LonglongToHexstring(buf: array<char>, word: nat, flags: Flags) returns (pos: nat)
    requires buf.Length == 32 && word < TWO32
    modifies buf
    ensures pos < 31 && buf[31] == '\0'
    ensures buf[pos..31] == Digits(word, 16, flags.caps)
  {
    var u: nat := word;
    ghost var all := Digits(u, 16, flags.caps);
    WordDigits(u, flags.caps);
    hide Digits, Digit;
    buf[31] := '\0';
    ShiftHex(u, flags.caps, buf[31..31]);
    assert all + buf[31..31] == all;
    pos := PushDigit(buf, 31, Digit(u % 16, flags.caps));
    u := u / 16;
    while u != 0
      invariant 0 <= pos <= 30 && buf[31] == '\0'
      invariant HexLeft(u, flags.caps) + buf[pos..31] == all
    {
      ShiftHex(u, flags.caps, buf[pos..31]);
      pos := PushDigit(buf, pos, Digit(u % 16, flags.caps));
      u := u / 16;
    }
  }

  // ---- Output ----

  /** struct _output_args: a destination of `len` bytes that silently drops what does not fit. */
  class Sink {
    const outstr: array<char>
    const len: nat
    var pos: nat
    ghost const original: seq<char>  // the destination as it was
    ghost var text: string           // everything put out

    /** The destination holds as much of the text as `len` allows, and is untouched behind it. */
    ghost predicate Valid()
      reads this, outstr
    {
      && pos <= outstr.Length == |original|
      && pos == (if |text| < len then |text| else len)
      && outstr[..] == text[..pos] + original[pos..]
    }

    /** There is room for `n` more characters, or for `len` in all: sprintf counts on the one,
        snprintf on the other. */
    ghost predicate Fits(n: nat)
      reads this
    {
      len <= outstr.Length || |text| + n <= outstr.Length
    }

    constructor (outstr: array<char>, len: nat)
      ensures Valid() && this.outstr == outstr && this.len == len && text == "" && original == outstr[..]
    {
      this.outstr := outstr;
      this.len := len;
      original := outstr[..];
      pos := 0;
      text := "";
    }

    /** _vsnprintf_output: reports the full length whether or not it fitted. */
    method Put(s: string) returns (count: nat)
      requires Valid() && Fits(|s|)
      modifies this, outstr
      ensures Valid() && text == old(text) + s && count == |s|
    {
      count := 0;
      while count < |s|
        invariant 0 <= count <= |s|
        invariant Valid() && text == old(text) + s[..count]
      {
        if pos < len {
          outstr[pos] := s[count];
          pos := pos + 1;
        }
        text := text + [s[count]];
        assert s[..count + 1] == s[..count] + [s[count]];
        count := count + 1;
      }
    }
  }

  // ---- The engine ----

  /** `for (; format_num > used; format_num--) OUTPUT_CHAR(c);` */
  method PutFill(out: Sink, c: char, width: nat, used: nat) returns (written: nat)
    requires out.Valid() && out.Fits(|Repeat(c, width - used)|)
    modifies out, out.outstr
    ensures out.Valid() && out.text == old(out.text) + Repeat(c, width - used) && written == |Repeat(c, width - used)|
  {
    var formatNum := width;
    written := 0;
    while formatNum > used
      invariant out.Valid() && (formatNum >= used || formatNum == width)
      invariant out.text == old(out.text) + Repeat(c, width - formatNum) && written == |Repeat(c, width - formatNum)|
    {
      var n := out.Put([c]);
      assert Repeat(c, width - formatNum) + [c] == Repeat(c, width - (formatNum - 1));
      written, formatNum := written + n, formatNum - 1;
    }
  }

  /** The shared tail of the engine, `_output_string`. */
  method PutJustified(out: Sink, flags: Flags, width: nat, sign: char, text: string) returns (written: nat)
    requires out.Valid() && out.Fits(|Justify(flags, width, sign, text)|)
    modifies out, out.outstr
    ensures out.Valid() && out.text == old(out.text) + Justify(flags, width, sign, text)
    ensures written == |Justify(flags, width, sign, text)|
  {
    hide Repeat;
    ghost var before := out.text;
    if flags.left {
      var n := out.Put(text);
      var pad := PutFill(out, ' ', width, n);
      assert (before + text) + Repeat(' ', width - n) == before + Justify(flags, width, sign, text);
      return n + pad;
    }
    var formatNum := if sign != '\0' && width > 0 then width - 1 else width;
    var fill := if flags.leadZero then '0' else ' ';
    var signed := if sign == '\0' then "" else [sign];
    var first := if flags.leadZero then signed else "";
    var second := if flags.leadZero then "" else signed;
    var a := out.Put(first);
    var b := PutFill(out, fill, formatNum, |text|);
    var c := out.Put(second);
    var d := out.Put(text);
    Assemble(before, first, Repeat(fill, formatNum - |text|), second, text, Justify(flags, width, sign, text));
    return a + b + c + d;
  }

  lemma Assemble(before: string, first: string, fill: string, second: string, text: string, all: string)
    requires (first == "" && all == fill + second + text) || (second == "" && all == first + fill + text)
    ensures (((before + first) + fill) + second) + text == before + all
    ensures |all| == |first| + |fill| + |second| + |text|
  {
  }

  /** The next_format loop: flags, width and modifiers up to a conversion character. */
  method ScanSpec(fmt: string, start: nat) returns (spec: Spec)
    requires start <= |fmt|
    ensures spec == ParseSpec(fmt, start, NO_FLAGS, 0)
  {
    var i, flags := start, NO_FLAGS;
    var width: nat := 0;
    while i < |fmt|
      invariant start <= i <= |fmt|
      invariant ParseSpec(fmt, i, flags, width) == ParseSpec(fmt, start, NO_FLAGS, 0)
    {
      var c := fmt[i];
      i := i + 1;
      if '0' <= c <= '9' {
        if c == '0' && width == 0 {
          flags := flags.(leadZero := true);
        }
        width := (width * 10 + (c as int - '0' as int)) % TWO32;
      } else if c == '-' {
        flags := flags.(left := true);
      } else if c == '+' {
        flags := flags.(showSign := true);
      } else if c == ' ' {
        flags := flags.(blankPos := true);
      } else if c == '#' {
        flags := flags.(alt := true);
      } else if c == 'l' {
        if flags.long {
          flags := flags.(longLong := true);
        }
        flags := flags.(long := true);
      } else if c == 'h' {
        if flags.half {
          flags := flags.(halfHalf := true);
        }
        flags := flags.(half := true);
      } else if !Ignored(c) {
        return Spec(Some(c), flags, width, i);
      }
    }
    return Spec(None, flags, width, i);
  }

  method PutDecimal(out: Sink, flags: Flags, width: nat, word: nat, signed: bool) returns (written: nat)
    requires out.Valid() && word < TWO32
    requires out.Fits(|Justify(flags, width, Sign(flags, word, signed), Digits(Magnitude(word, signed), 10, false))|)
    modifies out, out.outstr
    ensures out.Valid()
    ensures var field := Justify(flags, width, Sign(flags, word, signed), Digits(Magnitude(word, signed), 10, false));
            out.text == old(out.text) + field && written == |field|
  {
    var buf := new char[32];
    var pos, signchar := LonglongToString(buf, word, flags, signed);
    written := PutJustified(out, flags, width, signchar, buf[pos..31]);
  }

  method PutHex(out: Sink, flags: Flags, width: nat, word: nat) returns (written: nat)
    requires out.Valid() && word < TWO32 && out.Fits(|HexField(flags, width, word)|)
    modifies out, out.outstr
    ensures out.Valid() && out.text == old(out.text) + HexField(flags, width, word) &&
        written == |HexField(flags, width, word)|
  {
    hide Justify, Digits;
    var n := Narrow(flags, word, false);
    var buf := new char[32];
    var pos := LonglongToHexstring(buf, n, flags);
    var digits := buf[pos..31];
    var prefix := if flags.alt then ['0', if flags.caps then 'X' else 'x'] else "";
    var a := out.Put(prefix);
    var b := PutJustified(out, flags, width, '\0', digits);
    assert (old(out.text) + prefix) + Justify(flags, width, '\0', digits) ==
        old(out.text) + HexField(flags, width, word);
    written := a + b;
  }

  /** The conversion switch. */
  method PutField(out: Sink, c: char, flags: Flags, width: nat, arg: Arg, count: nat)
    returns (written: nat, stores: seq<Store>)
    requires out.Valid() && arg.word < TWO32 && out.Fits(|Field(c, flags, width, arg)|)
    modifies out, out.outstr
    ensures out.Valid() && out.text == old(out.text) + Field(c, flags, width, arg)
    ensures written == |Field(c, flags, width, arg)| && stores == StoresOf(c, flags, count)
  {
    hide Justify, Digits, HexField;
    stores := [];
    match c
    case '%' => written := out.Put(['%']);
    case 'c' => written := out.Put([(arg.word % 256) as char]);
    case 's' =>
      written := PutJustified(out, flags.(leadZero := false), width, '\0', if arg.str.Some? then arg.str.value
        else "<null>");
    case 'i' => written := PutDecimal(out, flags, width, Narrow(flags, arg.word, true), true);
    case 'd' => written := PutDecimal(out, flags, width, Narrow(flags, arg.word, true), true);
    case 'u' => written := PutDecimal(out, flags, width, Narrow(flags, arg.word, false), false);
    case 'p' => written := PutHex(out, flags.(long := true, alt := true), width, arg.word);
    case 'X' => written := PutHex(out, flags.(caps := true), width, arg.word);
    case 'x' => written := PutHex(out, flags, width, arg.word);
    case 'n' =>
      written := 0;
      var value := count % TWO32;  // size_t chars_written
      stores := [
        if flags.longLong then Store(8, value)
        else if flags.long then Store(4, value)
        else if flags.halfHalf then Store(1, value % 0x100)
        else if flags.half then Store(2, value % 0x1_0000)
        else Store(4, value)];
      LowParts(count);
      assert out.text + "" == out.text;
    case _ =>
      ghost var before := out.text;
      var a := out.Put(['%']);
      var b := out.Put([c]);
      assert (before + ['%']) + [c] == before + ['%', c];
      written := a + b;
  }

  lemma LowParts(n: nat)
    ensures n % TWO32 % 0x100 == n % 0x100 && n % TWO32 % 0x1_0000 == n % 0x1_0000
  {
    var q, r := n / TWO32, n % TWO32;
    DivUnique(n, 0x100, q * 0x100_0000 + r / 0x100, r % 0x100);
    DivUnique(n, 0x1_0000, q * 0x1_0000 + r / 0x1_0000, r % 0x1_0000);
  }

  /** One round of the engine's loop: literal text, then at most one conversion. */
  lemma RenderRound(fmt: string, i: nat, args: Args, written: nat)
    requires i <= |fmt|
    ensures var j := Literal(fmt, i);
            if j == |fmt| || ParseSpec(fmt, j + 1, NO_FLAGS, 0).conv.None? then
              Render(fmt, i, args, written) == Output(fmt[i..j], [])
            else
              var spec := ParseSpec(fmt, j + 1, NO_FLAGS, 0);
              var c := spec.conv.value;
              var head := fmt[i..j] + Field(c, spec.flags, spec.width, Head(args));
              var now := written + |head|;
              var rest := Render(fmt, spec.next, if TakesArg(c) then Tail(args) else args, now);
              Render(fmt, i, args, written) == Output(head + rest.text, StoresOf(c, spec.flags, now) + rest.stores)
  {
    hide Field, ParseSpec, Literal;
  }

  /** The progress of the engine: what is out and stored, and what is still to come. */
  ghost predicate Progress(all: Output, done: string, stores: seq<Store>, rest: Output) {
    all.text == done + rest.text && all.stores == stores + rest.stores
  }

  lemma Advance(all: Output, done: string, stores: seq<Store>, head: string, store: seq<Store>, rest: Output)
    requires Progress(all, done, stores, Output(head + rest.text, store + rest.stores))
    ensures Progress(all, done + head, stores + store, rest)
  {
    assert done + (head + rest.text) == (done + head) + rest.text;
    assert stores + (store + rest.stores) == (stores + store) + rest.stores;
  }

  lemma Start(all: Output)
    ensures Progress(all, "", [], all)
  {
    assert "" + all.text == all.text && [] + all.stores == all.stores;
  }

  lemma Finish(all: Output, done: string, stores: seq<Store>, last: string)
    requires Progress(all, done, stores, Output(last, []))
    ensures all.text == done + last && all.stores == stores
  {
  }

  method ScanLiteral(fmt: string, start: nat) returns (i: nat)
    requires start <= |fmt|
    ensures i == Literal(fmt, start)
  {
    i := start;
    while i < |fmt| && fmt[i] != '%'
      invariant start <= i <= |fmt| && Literal(fmt, start) == Literal(fmt, i)
    {
      i := i + 1;
    }
  }

  /** What is still to come is no longer than the whole. */
  lemma Ahead(all: Output, done: string, stores: seq<Store>, rest: Output, part: string)
    requires Progress(all, done, stores, rest) && part <= rest.text
    ensures |done| + |part| <= |all.text|
  {
  }

  /** The literal text at `i` and the conversion after it both lie ahead. */
  lemma RoundAhead(all: Output, done: string, stores: seq<Store>, fmt: string, i: nat, args: Args, written: nat)
    requires i <= |fmt| && Progress(all, done, stores, Render(fmt, i, args, written))
    ensures var j := Literal(fmt, i);
            && |done| + |fmt[i..j]| <= |all.text|
            && (j < |fmt| ==>
                  var spec := ParseSpec(fmt, j + 1, NO_FLAGS, 0);
                  spec.conv.Some? ==>
                    |done| + |fmt[i..j]| + |Field(spec.conv.value, spec.flags, spec.width, Head(args))| <= |all.text|)
  {
    hide Render, Field, ParseSpec, Literal, Progress, StoresOf, TakesArg, Tail, Head;
    RenderRound(fmt, i, args, written);
    var j, rest := Literal(fmt, i), Render(fmt, i, args, written);
    var spec := if j < |fmt| then ParseSpec(fmt, j + 1, NO_FLAGS, 0) else Spec(None, NO_FLAGS, 0, j);
    if spec.conv.Some? {
      var field := Field(spec.conv.value, spec.flags, spec.width, Head(args));
      Ahead(all, done, stores, rest, fmt[i..j] + field);
    } else {
      Ahead(all, done, stores, rest, fmt[i..j]);
    }
  }

  /** The conversion, if any, that begins behind the '%' at `j`. */
  method Convert(out: Sink, fmt: string, j: nat, arg: Arg, count: nat)
    returns (spec: Spec, written: nat, stores: seq<Store>)
    requires out.Valid() && j < |fmt| && arg.word < TWO32
    requires var s := ParseSpec(fmt, j + 1, NO_FLAGS, 0);
             s.conv.Some? ==> out.Fits(|Field(s.conv.value, s.flags, s.width, arg)|)
    modifies out, out.outstr
    ensures out.Valid() && spec == ParseSpec(fmt, j + 1, NO_FLAGS, 0)
    ensures if spec.conv.None? then out.text == old(out.text) && written == 0 && stores == []
            else
              var field := Field(spec.conv.value, spec.flags, spec.width, arg);
              && out.text == old(out.text) + field && written == |field|
              && stores == StoresOf(spec.conv.value, spec.flags, count + |field|)
  {
    hide Field, ParseSpec, StoresOf;
    spec := ScanSpec(fmt, j + 1);
    written, stores := 0, [];
    if spec.conv.Some? {
      NoFieldForN(spec.flags, spec.width, arg);
      written, stores := PutField(out, spec.conv.value, spec.flags, spec.width, arg, count);
      NoOtherStores(spec.conv.value, spec.flags, count, count + written);
    }
  }

  lemma NoFieldForN(flags: Flags, width: nat, arg: Arg)
    requires arg.word < TWO32
    ensures Field('n', flags, width, arg) == ""
  {
  }

  lemma NoOtherStores(c: char, flags: Flags, count: nat, count': nat)
    requires c == 'n' ==> count' == count
    ensures StoresOf(c, flags, count') == StoresOf(c, flags, count)
  {
  }

  /** _printf_engine: the output is exactly what the format and the arguments denote. */
  method Engine(out: Sink, fmt: string, args: Args) returns (written: nat, stores: seq<Store>)
    requires out.Valid() && out.Fits(|Render(fmt, 0, args, 0).text|)
    modifies out, out.outstr
    ensures var all := Render(fmt, 0, args, 0);
            out.Valid() && out.text == old(out.text) + all.text && written == |all.text| && stores == all.stores
  {
    hide Render, Field, ParseSpec, Literal, Progress, StoresOf;
    ghost var before, all := out.text, Render(fmt, 0, args, 0);
    ghost var done := "";
    var i: nat, ap: Args := 0, args;
    written, stores := 0, [];
    assert before == before + done;
    Start(all);
    while true
      invariant i <= |fmt| && out.Valid() &&
          (out.len <= out.outstr.Length || |before| + |all.text| <= out.outstr.Length)
      invariant out.text == before + done && written == |done|
      invariant Progress(all, done, stores, Render(fmt, i, ap, written))
      decreases |fmt| - i
    {
      RenderRound(fmt, i, ap, written);
      RoundAhead(all, done, stores, fmt, i, ap, written);
      var s := i;
      i := ScanLiteral(fmt, s);
      var n := out.Put(fmt[s..i]);
      Join(before, done, fmt[s..i]);
      if i == |fmt| {
        Finish(all, done, stores, fmt[s..i]);
        return written + n, stores;
      }
      var spec, m, more := Convert(out, fmt, i, Head(ap), written + n);
      if spec.conv.None? {
        Finish(all, done, stores, fmt[s..i]);
        return written + n, stores;
      }
      var c := spec.conv.value;
      ghost var head := fmt[s..i] + Field(c, spec.flags, spec.width, Head(ap));
      Join(before, done + fmt[s..i], Field(c, spec.flags, spec.width, Head(ap)));
      Join(done, fmt[s..i], Field(c, spec.flags, spec.width, Head(ap)));
      if TakesArg(c) {
        ap := Tail(ap);
      }
      written := written + n + m;
      Advance(all, done, stores, head, more, Render(fmt, spec.next, ap, written));
      stores := stores + more;
      done := done + head;
      i := spec.next;
    }
  }

  lemma Join(a: string, b: string, c: string)
    ensures (a + b) + c == a + (b + c)
  {
  }

  lemma Terminated(text: string, original: seq<char>, len: nat, pos: nat)
    requires 0 < len && pos == (if |text| < len then |text| else len) && pos <= |original|
    requires (if |text| < len then |text| else len - 1) < |original|
    ensures var shown := if |text| < len then |text| else len - 1;
            (text[..pos] + original[pos..])[shown := '\0'] == text[..shown] + ['\0'] + original[shown + 1..]
  {
  }

  /** vsnprintf: the full length is returned, and as much of the text as `len` allows is left in
      the buffer with a NUL behind it. The buffer must hold `len` characters, or the whole text
      and the NUL. */
  method Vsnprintf(str: array<char>, len: nat, fmt: string, args: Args) returns (wlen: nat, stores: seq<Store>)
    requires 0 < len && (len <= str.Length || |Render(fmt, 0, args, 0).text| < str.Length)
    requires |Render(fmt, 0, args, 0).text| < TWO31
    modifies str
    ensures var text := Render(fmt, 0, args, 0).text;
            var shown := if |text| < len then |text| else len - 1;
            && shown < str.Length && wlen == |text| && stores == Render(fmt, 0, args, 0).stores
            && str[..] == text[..shown] + ['\0'] + old(str[..])[shown + 1..]
  {
    hide Render;
    ghost var text := Render(fmt, 0, args, 0).text;
    var out := new Sink(str, len);
    assert "" + text == text;
    wlen, stores := Engine(out, fmt, args);
    ghost var full := str[..];
    Terminated(text, out.original, len, out.pos);
    var end := if out.pos >= len then len - 1 else wlen;
    str[end] := '\0';
    assert str[..] == full[end := '\0'];
  }

  /** vsprintf: no bound but the largest int. */
  method Vsprintf(str: array<char>, fmt: string, args: Args) returns (wlen: nat, stores: seq<Store>)
    requires |Render(fmt, 0, args, 0).text| < str.Length && |Render(fmt, 0, args, 0).text| < TWO31 - 1
    modifies str
    ensures var text := Render(fmt, 0, args, 0).text;
            && wlen == |text| && stores == Render(fmt, 0, args, 0).stores
            && str[..] == text + ['\0'] + old(str[..])[|text| + 1..]
  {
    hide Render;
    ghost var text := Render(fmt, 0, args, 0).text;
    wlen, stores := Vsnprintf(str, TWO31 - 1, fmt, args);
    assert text[..|text|] == text;
  }
}
