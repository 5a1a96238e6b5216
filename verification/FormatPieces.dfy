/** What a whole format denotes: literal text and conversions in any number, each conversion with the next
    argument of the list. */
module FormatPieces {
  import opened Common
  import opened Printf
  import opened PrintfEngine
  import opened FormatParse
  import PrintParse

  /** A piece of a format: text without '%', or a written conversion. */
  datatype Piece = Text(text: string) | Conversion(d: Directive)

  predicate Written(p: Piece) {
    match p
    case Text(t) => '%' !in t
    case Conversion(d) => d.Valid()
  }

  predicate AllWritten(ps: seq<Piece>) { forall k | 0 <= k < |ps| :: Written(ps[k]) }

  function Source(p: Piece): string {
    match p
    case Text(t) => t
    case Conversion(d) => d.Text()
  }

  function Sources(ps: seq<Piece>): (ss: seq<string>)
    ensures |ss| == |ps|
  {
    seq(|ps|, k requires 0 <= k < |ps| => Source(ps[k]))
  }

  /** The format that the pieces make up. */
  function FormatOf(ps: seq<Piece>): string { Concat(Sources(ps)) }

  /** Nothing, or the beginning of a directive that does not get to its conversion. */
  predicate CutOff(cut: string) { cut != "" ==> cut[0] == '%' && forall j | 0 < j < |cut| :: !Converts(cut[j]) }

  function Concat(ss: seq<string>): string { if ss == [] then "" else ss[0] + Concat(ss[1..]) }

  /** These conversions take an argument; "%%", and what is no conversion at all, takes none. */
  predicate Takes(p: Piece) {
    p.Conversion? && (p.d.conv == 'd' || p.d.conv == 'i' || p.d.conv == 'u' || p.d.conv == 'x' || p.d.conv == 'X' ||
                      p.d.conv == 'p' || p.d.conv == 'c' || p.d.conv == 's' || p.d.conv == 'n')
  }

  /** How many arguments the first `k` pieces take. */
  function Before(ps: seq<Piece>, k: nat): nat
    requires k <= |ps|
  {
    if k == 0 then 0 else Before(ps, k - 1) + if Takes(ps[k - 1]) then 1 else 0
  }

  /** Argument `i`; past the end of the list there is nothing to speak of. */
  function Argument(args: Args, i: nat): (a: Arg)
    ensures a.word < TWO32
  {
    if i < |args| then assert args[i] in args; args[i] else Arg(0, None)
  }

  function PieceText(p: Piece, arg: Arg): string
    requires arg.word < TWO32
  {
    match p
    case Text(t) => t
    case Conversion(d) => d.Puts(arg)
  }

  /** What each piece puts out: conversion number i the field of argument number i. */
  function Texts(ps: seq<Piece>, args: Args): (ts: seq<string>)
    ensures |ts| == |ps|
  {
    seq(|ps|, k requires 0 <= k < |ps| => PieceText(ps[k], Argument(args, Before(ps, k))))
  }

  /** Where piece `k` begins in the output. */
  function Start(ps: seq<Piece>, args: Args, k: nat): nat
    requires k <= |ps|
  {
    |Concat(Texts(ps, args)[..k])|
  }

  /** A count in the number of bytes that a size asks for; chars_written has 32 bits. */
  function CountFor(size: string, count: nat): Store {
    if size == "ll" then Store(8, count % 0x1_0000_0000)
    else if size == "hh" then Store(1, count % 0x100)
    else if size == "h" then Store(2, count % 0x1_0000)
    else Store(4, count % 0x1_0000_0000)
  }

  /** What %n conversions store from piece `k` on: the number of characters put out before them. */
  function Stores(ps: seq<Piece>, args: Args, k: nat): seq<Store>
    requires k <= |ps|
    decreases |ps| - k
  {
    if k == |ps| then []
    else
      (if ps[k].Conversion? && ps[k].d.conv == 'n'
       then [CountFor(ps[k].d.size, Start(ps, args, k))] else []) + Stores(ps, args, k + 1)
  }

  // ---- The engine, piece by piece ----

  function Rest(args: Args, n: nat): Args { if n <= |args| then args[n..] else [] }

  lemma RestOf(args: Args, n: nat)
    ensures Head(Rest(args, n)) == Argument(args, n) && Tail(Rest(args, n)) == Rest(args, n + 1)
  {
  }

  lemma OneChar(fmt: string, i: nat, args: Args, written: nat)
    requires i < |fmt| && fmt[i] != '%'
    ensures var rest := Render(fmt, i + 1, args, written + 1);
            Render(fmt, i, args, written) == Output([fmt[i]] + rest.text, rest.stores)
  {
    hide Render, Field, ParseSpec, StoresOf, Literal, Tail, Head, TakesArg;
    RenderRound(fmt, i, args, written);
    RenderRound(fmt, i + 1, args, written + 1);
    LiteralStep(fmt, i);
    var j := Literal(fmt, i);
    assert fmt[i..j] == [fmt[i]] + fmt[i + 1..j];
    var spec := if j < |fmt| then ParseSpec(fmt, j + 1, NO_FLAGS, 0) else Spec(None, NO_FLAGS, 0, j);
    if spec.conv.Some? {
      var field := Field(spec.conv.value, spec.flags, spec.width, Head(args));
      Shift([fmt[i]], fmt[i + 1..j], field, Render(fmt, spec.next,
        if TakesArg(spec.conv.value) then Tail(args) else args, written + |fmt[i..j] + field|).text);
    }
  }

  lemma LiteralStep(fmt: string, i: nat)
    requires i < |fmt| && fmt[i] != '%'
    ensures Literal(fmt, i) == Literal(fmt, i + 1)
  {
  }

  lemma Shift(a: string, b: string, c: string, d: string)
    ensures (a + b) + c == a + (b + c) && ((a + b) + c) + d == a + ((b + c) + d)
  {
  }

  lemma {:induction false} LiteralText(fmt: string, i: nat, t: string, args: Args, written: nat)
    requires i + |t| <= |fmt| && fmt[i..i + |t|] == t && '%' !in t
    ensures var rest := Render(fmt, i + |t|, args, written + |t|);
            Render(fmt, i, args, written) == Output(t + rest.text, rest.stores)
    decreases |t|
  {
    hide Render;
    var rest := Render(fmt, i + |t|, args, written + |t|);
    if t == "" {
      assert t + rest.text == rest.text;
    } else {
      assert fmt[i] == t[0] && t[0] in t && t == [t[0]] + t[1..];
      OneChar(fmt, i, args, written);
      assert fmt[i + 1..i + 1 + |t[1..]|] == t[1..];
      LiteralText(fmt, i + 1, t[1..], args, written + 1);
      assert [t[0]] + (t[1..] + rest.text) == t + rest.text;
    }
  }

  lemma OneConversion(fmt: string, i: nat, p: Piece, args: Args, written: nat)
    requires p.Conversion? && Written(p) && i + |Source(p)| <= |fmt| && fmt[i..i + |Source(p)|] == Source(p)
    ensures var text := PieceText(p, Head(args));
            var now := written + |text|;
            var rest := Render(fmt, i + |Source(p)|, if Takes(p) then Tail(args) else args, now);
            Render(fmt, i, args, written) ==
            Output(text + rest.text, StoresOf(p.d.conv, p.d.Asks(), now) + rest.stores)
  {
    hide Field, ParseSpec, Render, StoresOf, Digits;
    assert fmt[i] == Source(p)[0] == '%';
    ParsesWritten(fmt, i, p.d);
    RenderRound(fmt, i, args, written);
    assert Literal(fmt, i) == i && fmt[i..i] == "";
    assert "" + PieceText(p, Head(args)) == PieceText(p, Head(args));
  }

  lemma ConcatAppend(ss: seq<string>, t: string)
    ensures Concat(ss + [t]) == Concat(ss) + t
  {
    if ss == [] {
      assert ss + [t] == [t] && [t][1..] == [];
    } else {
      assert (ss + [t])[1..] == ss[1..] + [t];
      ConcatAppend(ss[1..], t);
    }
  }

  lemma ConcatSplit(ss: seq<string>, k: nat)
    requires k < |ss|
    ensures Concat(ss[..k + 1]) == Concat(ss[..k]) + ss[k] && Concat(ss[k..]) == ss[k] + Concat(ss[k + 1..])
  {
    assert ss[..k + 1] == ss[..k] + [ss[k]];
    ConcatAppend(ss[..k], ss[k]);
    assert ss[k..][1..] == ss[k + 1..];
  }

  lemma {:induction false} FromPiece(fmt: string, i: nat, ps: seq<Piece>, k: nat, cut: string, args: Args)
    requires AllWritten(ps) && CutOff(cut) && k <= |ps| && i <= |fmt| && fmt[i..] == Concat(Sources(ps)[k..]) + cut
    ensures Render(fmt, i, Rest(args, Before(ps, k)), Start(ps, args, k)) ==
            Output(Concat(Texts(ps, args)[k..]), Stores(ps, args, k))
    decreases |ps| - k
  {
    hide Render, PieceText, Source, Concat, Rest, Argument, CountFor, Directive.Asks, Sources, Texts, Before, Start,
        Stores, Takes;
    var ss, ts, given, written := Sources(ps), Texts(ps, args), Rest(args, Before(ps, k)), Start(ps, args, k);
    if k == |ps| {
      AtEnd(fmt, i, cut, given, written, ss[k..], ts[k..]);
      NothingLeft(ps, args);
    } else {
      NextPiece(ps, args, k);
      var p, next := ps[k], i + |ss[k]|;
      SourceHere(fmt, i, ss, k, cut);
      RestOf(args, Before(ps, k));
      FromPiece(fmt, next, ps, k + 1, cut, args);
      if p.Text? {
        TextIs(p);
        LiteralText(fmt, i, p.text, given, written);
      } else {
        OneConversion(fmt, i, p, given, written);
        StoresAre(p, Head(given), written);
      }
    }
  }

  lemma NothingLeft(ps: seq<Piece>, args: Args)
    ensures Stores(ps, args, |ps|) == []
  {
  }

  lemma NextPiece(ps: seq<Piece>, args: Args, k: nat)
    requires k < |ps|
    ensures var ts := Texts(ps, args);
            && Sources(ps)[k] == Source(ps[k]) && ts[k] == PieceText(ps[k], Argument(args, Before(ps, k)))
            && Concat(ts[k..]) == ts[k] + Concat(ts[k + 1..]) && Start(ps, args, k + 1) == Start(ps, args, k) + |ts[k]|
    ensures Before(ps, k + 1) == Before(ps, k) + if Takes(ps[k]) then 1 else 0
    ensures Stores(ps, args, k) ==
            (if ps[k].Conversion? && ps[k].d.conv == 'n'
             then [CountFor(ps[k].d.size, Start(ps, args, k))] else []) + Stores(ps, args, k + 1)
    ensures ps[k].Text? ==> !Takes(ps[k])
  {
    hide Source, PieceText, Argument, CountFor, Concat;
    ConcatSplit(Texts(ps, args), k);
  }

  lemma SourceHere(fmt: string, i: nat, ss: seq<string>, k: nat, cut: string)
    requires i <= |fmt| && k < |ss| && fmt[i..] == Concat(ss[k..]) + cut
    ensures var next := i + |ss[k]|;
            next <= |fmt| && fmt[i..next] == ss[k] && fmt[next..] == Concat(ss[k + 1..]) + cut
  {
    ConcatSplit(ss, k);
    hide Concat;
    var next := i + |ss[k]|;
    Join(ss[k], Concat(ss[k + 1..]), cut);
    assert fmt[i..next] == fmt[i..][..|ss[k]|] && fmt[next..] == fmt[i..][|ss[k]|..];
  }

  lemma AtEnd(fmt: string, i: nat, cut: string, args: Args, written: nat, ss: seq<string>, ts: seq<string>)
    requires i <= |fmt| && ss == [] && ts == [] && CutOff(cut) && fmt[i..] == Concat(ss) + cut
    ensures Render(fmt, i, args, written) == Output(Concat(ts), [])
  {
    assert fmt[i..] == cut;
    assert forall j | i <= j < |fmt| :: fmt[j] == cut[j - i];
    RenderRound(fmt, i, args, written);
    if cut != "" {
      assert Literal(fmt, i) == i;
      NeverConverts(fmt, i + 1, NO_FLAGS, 0);
    }
    hide Render, ParseSpec;
  }

  lemma {:induction false} NeverConverts(fmt: string, i: nat, flags: Flags, w: nat)
    requires i <= |fmt| && forall j | i <= j < |fmt| :: !Converts(fmt[j])
    ensures ParseSpec(fmt, i, flags, w).conv.None?
    decreases |fmt| - i
  {
    if i < |fmt| {
      var flags', w' := NoConversion(fmt, i, flags, w);
      hide ParseSpec;
      NeverConverts(fmt, i + 1, flags', w');
    }
  }

  lemma NoConversion(fmt: string, i: nat, flags: Flags, w: nat) returns (flags': Flags, w': nat)
    requires i < |fmt| && !Converts(fmt[i])
    ensures ParseSpec(fmt, i, flags, w) == ParseSpec(fmt, i + 1, flags', w')
  {
    var c := fmt[i];
    if '0' <= c <= '9' {
      flags' := flags.(leadZero := flags.leadZero || (c == '0' && w == 0));
      w' := (w * 10 + (c as int - '0' as int)) % TWO32;
    } else {
      flags' := NoDigit(fmt, i, flags, w);
      w' := w;
    }
  }

  lemma NoDigit(fmt: string, i: nat, flags: Flags, w: nat) returns (flags': Flags)
    requires i < |fmt| && !Converts(fmt[i]) && !('0' <= fmt[i] <= '9')
    ensures ParseSpec(fmt, i, flags, w) == ParseSpec(fmt, i + 1, flags', w)
  {
    var c := fmt[i];
    if c == '-' {
      flags' := flags.(left := true);
    } else if c == '+' {
      flags' := flags.(showSign := true);
    } else if c == ' ' {
      flags' := flags.(blankPos := true);
    } else if c == '#' {
      flags' := flags.(alt := true);
    } else if c == '.' {
      flags' := flags;
    } else {
      OneSizeChar(fmt, i, flags, w);
      flags' := if c == 'l' then flags.(long := true, longLong := flags.longLong || flags.long)
                else if c == 'h' then flags.(half := true, halfHalf := flags.halfHalf || flags.half) else flags;
    }
  }

  lemma TextIs(p: Piece)
    requires p.Text? && Written(p)
    ensures Source(p) == p.text && '%' !in p.text && forall a: Arg | a.word < TWO32 :: PieceText(p, a) == p.text
  {
  }

  /** A %n puts out nothing, so the count it stores is that of the pieces before it. */
  lemma StoresAre(p: Piece, arg: Arg, written: nat)
    requires p.Conversion? && arg.word < TWO32
    ensures StoresOf(p.d.conv, p.d.Asks(), written + |PieceText(p, arg)|) ==
            if p.d.conv == 'n' then [CountFor(p.d.size, written)] else []
  {
  }

  /** A format denotes its pieces in order: the text as it stands, and for conversion number i the field of
      argument number i. A directive without an end puts out nothing. */
  lemma RendersPieces(ps: seq<Piece>, cut: string, args: Args)
    requires AllWritten(ps) && CutOff(cut)
    ensures Render(FormatOf(ps) + cut, 0, args, 0) == Output(Concat(Texts(ps, args)), Stores(ps, args, 0))
  {
    hide Render, PieceText, Source;
    var fmt := FormatOf(ps) + cut;
    assert fmt[0..] == fmt && Sources(ps)[0..] == Sources(ps) && Texts(ps, args)[0..] == Texts(ps, args);
    assert Texts(ps, args)[..0] == [] && args[0..] == args;
    FromPiece(fmt, 0, ps, 0, cut, args);
  }

  /** vsnprintf of such a format: all pieces are in the buffer, each where those before it end. */
  method PrintPieces(str: array<char>, ps: seq<Piece>, cut: string, args: Args) returns (wlen: nat, stores: seq<Store>)
    requires AllWritten(ps) && CutOff(cut) && |Concat(Texts(ps, args))| < str.Length <= TWO31
    modifies str
    ensures wlen == |Concat(Texts(ps, args))| < str.Length && str[wlen] == '\0' && stores == Stores(ps, args, 0)
    ensures forall k | 0 <= k < |ps| ::
              var start, text := Start(ps, args, k), PieceText(ps[k], Argument(args, Before(ps, k)));
              start + |text| <= wlen && str[start..start + |text|] == text
  {
    hide Render, PieceText, Source, Concat;
    ghost var ts := Texts(ps, args);
    RendersPieces(ps, cut, args);
    wlen, stores := Vsnprintf(str, str.Length, FormatOf(ps) + cut, args);
    assert str[..wlen] == Concat(ts);
    forall k | 0 <= k < |ps|
      ensures Start(ps, args, k) + |ts[k]| <= wlen
      ensures str[Start(ps, args, k)..Start(ps, args, k) + |ts[k]|] == ts[k]
    {
      PieceAt(ts, k);
      SubBuffer(str, wlen, Start(ps, args, k), |ts[k]|);
    }
  }

  lemma SubBuffer(str: array<char>, wlen: nat, start: nat, n: nat)
    requires start + n <= wlen <= str.Length
    ensures str[start..start + n] == str[..wlen][start..start + n]
  {
  }

  lemma PieceAt(ts: seq<string>, k: nat)
    requires k < |ts|
    ensures var start := |Concat(ts[..k])|;
            start + |ts[k]| <= |Concat(ts)| && Concat(ts)[start..start + |ts[k]|] == ts[k]
  {
    ConcatSplit(ts, k);
    ConcatWhole(ts, k);
    hide Concat;
    var a, b, c := Concat(ts[..k]), ts[k], Concat(ts[k + 1..]);
    assert Concat(ts) == a + (b + c) == (a + b) + c;
  }

  lemma {:induction false} ConcatWhole(ts: seq<string>, k: nat)
    requires k <= |ts|
    ensures Concat(ts) == Concat(ts[..k]) + Concat(ts[k..])
  {
    hide Concat;
    if k == 0 {
      assert ts[0..] == ts && ts[..0] == [];
      ConcatEmpty();
      assert "" + Concat(ts) == Concat(ts);
    } else {
      ConcatWhole(ts, k - 1);
      ConcatSplit(ts, k - 1);
      Join(Concat(ts[..k - 1]), ts[k - 1], Concat(ts[k..]));
    }
  }

  lemma ConcatEmpty()
    ensures Concat([]) == ""
  {
  }

  /** So any number of words, with whatever text between, are all found again: strtoul reads piece `k` as
      the word of its own argument. */
  lemma PiecesComeBack(ps: seq<Piece>, args: Args, k: nat)
    requires AllWritten(ps) && k < |ps| && ps[k].Conversion? && PrintParse.Plain(ps[k].d.conv, ps[k].d.Asks())
    ensures var d, word := ps[k].d, Argument(args, Before(ps, k)).word;
            PrintParse.ReadsBackAs(Texts(ps, args)[k], PrintParse.BaseOf(d.conv),
              Kept(d.size, word, d.conv == 'd' || d.conv == 'i'))
  {
    hide Field, Narrow, Kept, PrintParse.ReadsBackAs, Directive.Asks;
    var d, arg := ps[k].d, Argument(args, Before(ps, k));
    PrintParse.PrintThenParse(d.conv, d.Asks(), d.Columns(), arg);
    NarrowKeeps(d, arg.word, PrintParse.Signed(d.conv));
  }
}
