/** vsnprintf (kernel/string.c:256-374): a bounded printer for an unbounded ideal. */
module Format {
  import opened Bytes
  import opened CString
  import opened Numerals

  const PERCENT: Byte := '%'
  const NULL_TEXT: Bytes := ['(', 'n', 'u', 'l', 'l', ')']

  datatype Arg = IntArg(i: Int32) | UIntArg(u: U32) | StrArg(s: Bytes) | NullArg | CharArg(c: Byte)

  datatype Flags = Flags(zeroPad: bool, leftAlign: bool, width: nat)

  // ------------------------------------------------------------------ the ideal output

  function DigitRun(f: Bytes): (k: nat)
    ensures k <= |f|
  {
    if f == [] || !IsDigit(f[0]) then 0 else 1 + DigitRun(f[1..])
  }

  function AfterZero(f: Bytes): Bytes { if f != [] && f[0] == '0' then f[1..] else f }
  function AfterDash(f: Bytes): Bytes { if f != [] && f[0] == '-' then f[1..] else f }

  // What follows the percent sign, up to the conversion letter.
  function FlagsOf(f: Bytes): Flags {
    var g := AfterZero(f);
    var h := AfterDash(g);
    Flags(g != f, h != g, LeadingValue(h, 0))
  }

  function AfterFlags(f: Bytes): (rest: Bytes)
    ensures |rest| <= |f|
  {
    var h := AfterDash(AfterZero(f));
    h[DigitRun(h)..]
  }

  function Repeat(c: Byte, n: int): Bytes {
    if n <= 0 then [] else seq(n, i => c)
  }

  function Padded(text: Bytes, fl: Flags, fill: Byte): Bytes {
    if fl.leftAlign then text + Repeat(' ', fl.width - |text|) else Repeat(fill, fl.width - |text|) + text
  }

  function Fill(fl: Flags): Byte { if fl.zeroPad then '0' else ' ' }

  predicate TakesArg(c: Byte) { c in ['d', 'i', 'u', 'x', 'X', 'p', 's', 'c'] }

  // Whether the argument is one the conversion may read.
  predicate Suits(c: Byte, args: seq<Arg>) {
    TakesArg(c) ==>
      && args != []
      && (c in ['d', 'i'] ==> args[0].IntArg? && args[0].i > -0x8000_0000)
      && (c in ['u', 'x', 'X', 'p'] ==> args[0].UIntArg?)
      && (c == 's' ==> args[0].NullArg? || (args[0].StrArg? && NUL !in args[0].s))
      && (c == 'c' ==> args[0].CharArg?)
  }

  function Converted(fl: Flags, c: Byte, args: seq<Arg>): Bytes
    requires Suits(c, args)
  {
    if c == 'd' || c == 'i' then Padded(Signed(args[0].i), fl, Fill(fl))
    else if c == 'u' then Padded(Decimal(args[0].u), fl, Fill(fl))
    else if c == 'x' || c == 'X' then Padded(Numeral(args[0].u, 16, c == 'X'), fl, Fill(fl))
    else if c == 'p' then
      var hex := Numeral(args[0].u, 16, false);
      ['0', 'x'] + (Repeat('0', 8 - |hex|) + hex)
    else if c == 's' then Padded(if args[0].NullArg? then NULL_TEXT else args[0].s, fl, ' ')
    else if c == 'c' then [args[0].c]
    else if c == PERCENT then [PERCENT]
    else [PERCENT, c]
  }

  function Left(c: Byte, args: seq<Arg>): seq<Arg>
    requires Suits(c, args)
  {
    if TakesArg(c) then args[1..] else args
  }

  // Every directive is complete, its width fits an int and its argument is there.
  predicate WellFormed(f: Bytes, args: seq<Arg>)
    decreases |f|
  {
    if f == [] then true
    else if f[0] != PERCENT then WellFormed(f[1..], args)
    else
      var rest := AfterFlags(f[1..]);
      && FlagsOf(f[1..]).width < 0x8000_0000 && rest != [] && Suits(rest[0], args)
      && WellFormed(rest[1..], Left(rest[0], args))
  }

  function Ideal(f: Bytes, args: seq<Arg>): Bytes
    requires WellFormed(f, args)
    decreases |f|
  {
    if f == [] then []
    else if f[0] != PERCENT then [f[0]] + Ideal(f[1..], args)
    else
      var rest := AfterFlags(f[1..]);
      Converted(FlagsOf(f[1..]), rest[0], args) + Ideal(rest[1..], Left(rest[0], args))
  }

  // ------------------------------------------------------------------ the bounded writer

  // The buffer, once was, holds the part of text that fits from position at; left more characters fit.
  ghost predicate Holds(now: Bytes, was: Bytes, at: nat, out: nat, left: nat, text: Bytes) {
    && |now| == |was| && at <= out && out + left < |was|
    && out - at == Min(|text|, out - at + left)
    && now == was[..at] + text[..out - at] + was[out..]
  }

  lemma NothingHeld(was: Bytes, at: nat, left: nat)
    requires at + left < |was|
    ensures Holds(was, was, at, at, left, [])
  {
  }

  // The PUT macro.
  method Put(str: array<Byte>, out0: nat, left0: nat, c: Byte, ghost was: Bytes, ghost at: nat, ghost text: Bytes)
    returns (out: nat, left: nat)
    requires Holds(str[..], was, at, out0, left0, text)
    modifies str
    ensures Holds(str[..], was, at, out, left, text + [c]) && out + left == out0 + left0
  {
    out, left := out0, left0;
    if left > 0 {
      assert |text| == out - at;
      str[out] := c;
      out := out + 1;
      left := left - 1;
      assert (text + [c])[..out - at] == text + [c];
    } else {
      assert (text + [c])[..out - at] == text[..out - at];
    }
  }

  method PutText(str: array<Byte>, out0: nat, left0: nat, s: Bytes, ghost was: Bytes, ghost at: nat, ghost text: Bytes)
    returns (out: nat, left: nat)
    requires Holds(str[..], was, at, out0, left0, text)
    modifies str
    ensures Holds(str[..], was, at, out, left, text + s) && out + left == out0 + left0
  {
    hide Holds;
    out, left := out0, left0;
    var p := 0;
    assert text + s[..0] == text;
    while p < |s|
      invariant 0 <= p <= |s| && Holds(str[..], was, at, out, left, text + s[..p]) && out + left == out0 + left0
    {
      out, left := Put(str, out, left, s[p], was, at, text + s[..p]);
      assert text + s[..p + 1] == text + s[..p] + [s[p]];
      p := p + 1;
    }
    assert s[..p] == s;
  }

  method PutPad(str: array<Byte>, out0: nat, left0: nat, c: Byte, len: nat, width: nat,
                ghost was: Bytes, ghost at: nat, ghost text: Bytes)
    returns (out: nat, left: nat)
    requires Holds(str[..], was, at, out0, left0, text)
    modifies str
    ensures Holds(str[..], was, at, out, left, text + Repeat(c, width - len)) && out + left == out0 + left0
  {
    hide Holds;
    out, left := out0, left0;
    var i := len;
    assert text + Repeat(c, 0) == text;
    while i < width
      invariant len <= i && (i <= width || i == len)
      invariant Holds(str[..], was, at, out, left, text + Repeat(c, i - len)) && out + left == out0 + left0
    {
      out, left := Put(str, out, left, c, was, at, text + Repeat(c, i - len));
      assert Repeat(c, i + 1 - len) == Repeat(c, i - len) + [c];
      assert text + Repeat(c, i + 1 - len) == text + Repeat(c, i - len) + [c];
      i := i + 1;
    }
  }

  // A padded field: the shape shared by the %d, %u, %x and %s branches.
  method PutField(str: array<Byte>, out0: nat, left0: nat, s: Bytes, fl: Flags, fill: Byte,
                  ghost was: Bytes, ghost at: nat, ghost text: Bytes)
    returns (out: nat, left: nat)
    requires Holds(str[..], was, at, out0, left0, text)
    modifies str
    ensures Holds(str[..], was, at, out, left, text + Padded(s, fl, fill)) && out + left == out0 + left0
  {
    hide Holds, Repeat;
    out, left := out0, left0;
    if !fl.leftAlign {
      out, left := PutPad(str, out, left, fill, |s|, fl.width, was, at, text);
      out, left := PutText(str, out, left, s, was, at, text + Repeat(fill, fl.width - |s|));
      assert text + Repeat(fill, fl.width - |s|) + s == text + (Repeat(fill, fl.width - |s|) + s);
    } else {
      out, left := PutText(str, out, left, s, was, at, text);
      out, left := PutPad(str, out, left, ' ', |s|, fl.width, was, at, text + s);
      assert text + s + Repeat(' ', fl.width - |s|) == text + (s + Repeat(' ', fl.width - |s|));
    }
  }

  method PutPointer(str: array<Byte>, out0: nat, left0: nat, val: U32, ghost was: Bytes, ghost at: nat, ghost text: Bytes)
    returns (out: nat, left: nat)
    requires Holds(str[..], was, at, out0, left0, text)
    modifies str
    ensures var hex := Numeral(val, 16, false);
            Holds(str[..], was, at, out, left, text + (['0', 'x'] + (Repeat('0', 8 - |hex|) + hex)))
    ensures out + left == out0 + left0
  {
    hide Holds, Repeat, Numeral;
    out, left := PutText(str, out0, left0, ['0', 'x'], was, at, text);
    var buf := new Byte[20];
    var len: int := DigitsOf(val, 16, false, buf);
    var hex := CStr(buf[..]);
    out, left := PutPad(str, out, left, '0', |hex|, 8, was, at, text + ['0', 'x']);
    out, left := PutText(str, out, left, hex, was, at, text + ['0', 'x'] + Repeat('0', 8 - len));
    assert text + ['0', 'x'] + Repeat('0', 8 - len) + hex == text + (['0', 'x'] + (Repeat('0', 8 - len) + hex));
  }

  // The switch on the conversion letter (kernel/string.c:279-368).
  method PutConverted(str: array<Byte>, out0: nat, left0: nat, fl: Flags, c: Byte, args: seq<Arg>,
                      ghost was: Bytes, ghost at: nat, ghost text: Bytes)
    returns (out: nat, left: nat)
    requires Holds(str[..], was, at, out0, left0, text) && Suits(c, args)
    modifies str
    ensures Holds(str[..], was, at, out, left, text + Converted(fl, c, args)) && out + left == out0 + left0
  {
    hide Holds, Repeat, Numeral, Padded, Signed, Decimal;
    var buf := new Byte[20];
    if c == 'd' || c == 'i' {
      Itoa(args[0].i, buf);
      out, left := PutField(str, out0, left0, CStr(buf[..]), fl, Fill(fl), was, at, text);
    } else if c == 'u' {
      var len := DigitsOf(args[0].u, 10, false, buf);
      DecimalIs(args[0].u);
      out, left := PutField(str, out0, left0, CStr(buf[..]), fl, Fill(fl), was, at, text);
    } else if c == 'x' || c == 'X' {
      var len := DigitsOf(args[0].u, 16, c == 'X', buf);
      out, left := PutField(str, out0, left0, CStr(buf[..]), fl, Fill(fl), was, at, text);
    } else if c == 'p' {
      out, left := PutPointer(str, out0, left0, args[0].u, was, at, text);
    } else if c == 's' {
      out, left := PutField(str, out0, left0, if args[0].NullArg? then NULL_TEXT else args[0].s, fl, ' ', was, at, text);
    } else if c == 'c' {
      out, left := Put(str, out0, left0, args[0].c, was, at, text);
    } else if c == PERCENT {
      out, left := Put(str, out0, left0, PERCENT, was, at, text);
    } else {
      out, left := PutText(str, out0, left0, [PERCENT, c], was, at, text);
    }
  }

  lemma DecimalIs(n: nat)
    ensures Decimal(n) == Numeral(n, 10, false)
  {
  }

  // The width digits (kernel/string.c:276-277).
  method ReadWidth(format: Bytes, f0: nat) returns (width: nat, f: nat)
    requires f0 <= |format|
    ensures width == LeadingValue(format[f0..], 0) && f == f0 + DigitRun(format[f0..]) <= |format|
  {
    f, width := f0, 0;
    while f < |format| && IsDigit(format[f])
      invariant f0 <= f <= |format|
      invariant LeadingValue(format[f0..], 0) == LeadingValue(format[f..], width)
      invariant f0 + DigitRun(format[f0..]) == f + DigitRun(format[f..])
    {
      assert format[f..][1..] == format[f + 1..];
      width := width * 10 + DigitValue(format[f]);
      f := f + 1;
    }
  }

  // Flags and width (kernel/string.c:269-276).
  method ReadFlags(format: Bytes, f0: nat) returns (fl: Flags, f: nat)
    requires f0 <= |format|
    ensures fl == FlagsOf(format[f0..]) && f0 <= f <= |format| && format[f..] == AfterFlags(format[f0..])
  {
    hide DigitRun, LeadingValue, AfterZero, AfterDash, FlagsOf, AfterFlags;
    var zeroPad, leftAlign, width;
    zeroPad, f := ReadFlag(format, f0, '0');
    ghost var g := format[f..];
    leftAlign, f := ReadFlag(format, f, '-');
    ghost var h, at := format[f..], f;
    width, f := ReadWidth(format, f);
    assert format[f..] == h[f - at..];
    fl := Flags(zeroPad, leftAlign, width);
    FlagsRead(format[f0..], g, h);
  }

  // The two flag characters, one after the other.
  lemma FlagsRead(f: Bytes, g: Bytes, h: Bytes)
    requires g == if f != [] && f[0] == '0' then f[1..] else f
    requires h == if g != [] && g[0] == '-' then g[1..] else g
    ensures FlagsOf(f) == Flags(f != [] && f[0] == '0', g != [] && g[0] == '-', LeadingValue(h, 0))
    ensures AfterFlags(f) == h[DigitRun(h)..]
  {
    hide DigitRun, LeadingValue;
    assert f != [] ==> |f[1..]| != |f|;
    assert g != [] ==> |g[1..]| != |g|;
  }

  // One flag character, if it is there.
  method ReadFlag(format: Bytes, f0: nat, flag: Byte) returns (there: bool, f: nat)
    requires f0 <= |format|
    ensures f0 <= f <= |format| && (there <==> f0 < |format| && format[f0] == flag)
    ensures format[f..] == if there then format[f0..][1..] else format[f0..]
  {
    f, there := f0, false;
    if f < |format| && format[f] == flag {
      there := true;
      f := f + 1;
    }
  }

  method Terminate(str: array<Byte>, at: nat, out: nat, ghost left: nat, ghost was: Bytes, ghost text: Bytes) returns (n: nat)
    requires Holds(str[..], was, at, out, left, text)
    modifies str
    ensures n == Min(|text|, out - at + left) && at + n < |was|
    ensures str[..] == was[..at] + text[..n] + [NUL] + was[at + n + 1..]
  {
    str[out] := NUL;
    n := out - at;
  }

  // One turn of the loop: a literal character, or a directive.
  method EmitNext(str: array<Byte>, out0: nat, left0: nat, format: Bytes, f0: nat, args0: seq<Arg>,
                  ghost was: Bytes, ghost at: nat, ghost text: Bytes)
    returns (out: nat, left: nat, f: nat, args: seq<Arg>, ghost piece: Bytes)
    requires Holds(str[..], was, at, out0, left0, text) && f0 < |format| && WellFormed(format[f0..], args0)
    modifies str
    ensures Holds(str[..], was, at, out, left, text + piece) && out + left == out0 + left0
    ensures f0 < f <= |format| && WellFormed(format[f..], args)
    ensures Ideal(format[f0..], args0) == piece + Ideal(format[f..], args)
  {
    hide Holds, WellFormed, Ideal, Converted, Suits, FlagsOf, AfterFlags;
    args := args0;
    ghost var ahead := format[f0..];
    IdealStep(ahead, args);
    assert ahead[1..] == format[f0 + 1..];
    if format[f0] != PERCENT {
      piece := [format[f0]];
      out, left := Put(str, out0, left0, format[f0], was, at, text);
      f := f0 + 1;
    } else {
      var fl;
      fl, f := ReadFlags(format, f0 + 1);
      piece := Converted(fl, format[f], args);
      out, left := PutConverted(str, out0, left0, fl, format[f], args, was, at, text);
      assert format[f..][1..] == format[f + 1..];
      args := Left(format[f], args);
      f := f + 1;
    }
  }

  // vsnprintf: stores what fits of the ideal output, then a NUL, and returns how many characters it stored.
  method Vsnprintf(str: array<Byte>, at: nat, size: nat, format: Bytes, args0: seq<Arg>) returns (n: nat)
    requires at + size <= str.Length && NulFree(format) && WellFormed(format, args0)
    modifies str
    ensures size == 0 ==> n == 0 && str[..] == old(str[..])
    ensures size > 0 ==>
              && n == Min(|Ideal(format, args0)|, size - 1)
              && str[..] == old(str[..at]) + Ideal(format, args0)[..n] + [NUL] + old(str[at + n + 1..])
  {
    hide Holds, WellFormed, Ideal;
    if size == 0 {
      return 0;
    }
    ghost var was := str[..];
    var out: nat, left: nat, f: nat, args := at, size - 1, 0, args0;
    ghost var text: Bytes := [];
    NothingHeld(was, at, left);
    assert format[0..] == format && text + Ideal(format, args0) == Ideal(format, args0);
    while f < |format|
      invariant 0 <= f <= |format| && WellFormed(format[f..], args)
      invariant Holds(str[..], was, at, out, left, text) && out + left == at + size - 1
      invariant Ideal(format, args0) == text + Ideal(format[f..], args)
      decreases |format| - f
    {
      ghost var piece;
      out, left, f, args, piece := EmitNext(str, out, left, format, f, args, was, at, text);
      AppendPiece(text, piece, Ideal(format[f..], args));
      text := text + piece;
    }
    IdealEnds(args);
    assert format[f..] == [] && text + [] == text;
    n := Terminate(str, at, out, left, was, Ideal(format, args0));
  }

  lemma IdealEnds(args: seq<Arg>)
    ensures WellFormed([], args) && Ideal([], args) == []
  {
  }

  // The first character or directive of a format.
  lemma IdealStep(f: Bytes, args: seq<Arg>)
    requires WellFormed(f, args) && f != []
    ensures f[0] != PERCENT ==> WellFormed(f[1..], args) && Ideal(f, args) == [f[0]] + Ideal(f[1..], args)
    ensures f[0] == PERCENT ==>
              var rest := AfterFlags(f[1..]);
              && rest != [] && Suits(rest[0], args) && WellFormed(rest[1..], Left(rest[0], args))
              && Ideal(f, args) == Converted(FlagsOf(f[1..]), rest[0], args) + Ideal(rest[1..], Left(rest[0], args))
  {
    hide AfterFlags, FlagsOf, Suits, Converted;
  }

  lemma AppendPiece(text: Bytes, piece: Bytes, rest: Bytes)
    ensures text + (piece + rest) == (text + piece) + rest
  {
  }

  // ------------------------------------------------------------------ simple formats

  // A literal character stands for itself.
  lemma IdealLiteral(c: Byte, rest: Bytes, args: seq<Arg>)
    requires c != PERCENT
    ensures WellFormed([c] + rest, args) <==> WellFormed(rest, args)
    ensures WellFormed(rest, args) ==> Ideal([c] + rest, args) == [c] + Ideal(rest, args)
  {
    assert ([c] + rest)[1..] == rest;
  }

  lemma NoFlags(c: Byte, rest: Bytes)
    requires !IsDigit(c) && c != '-'
    ensures AfterFlags([c] + rest) == [c] + rest && FlagsOf([c] + rest) == Flags(false, false, 0)
  {
  }

  lemma NoPadding(text: Bytes, fill: Byte)
    ensures Padded(text, Flags(false, false, 0), fill) == text
  {
  }

  // A directive without flags or width stands for its argument's text.
  lemma IdealPlain(c: Byte, rest: Bytes, args: seq<Arg>)
    requires !IsDigit(c) && c != '-' && Suits(c, args) && WellFormed(rest, Left(c, args))
    ensures WellFormed([PERCENT, c] + rest, args)
    ensures Ideal([PERCENT, c] + rest, args) == Converted(Flags(false, false, 0), c, args) + Ideal(rest, Left(c, args))
  {
    hide AfterFlags, FlagsOf, Converted, Suits;
    NoFlags(c, rest);
    var f: Bytes := [PERCENT, c] + rest;
    assert f[1..] == [c] + rest && ([c] + rest)[1..] == rest;
  }

  lemma StringPrinted(text: Bytes)
    requires NulFree(text)
    ensures WellFormed([PERCENT, 's'], [StrArg(text)]) && Ideal([PERCENT, 's'], [StrArg(text)]) == text
  {
    hide Ideal, WellFormed, Padded;
    var args := [StrArg(text)];
    IdealEnds(args[1..]);
    IdealPlain('s', [], args);
    NoPadding(text, ' ');
    assert [PERCENT, 's'] + [] == [PERCENT, 's'] && text + [] == text;
  }

  lemma {:induction false} LiteralPrefix(text: Bytes, rest: Bytes, args: seq<Arg>)
    requires PERCENT !in text && WellFormed(rest, args)
    ensures WellFormed(text + rest, args) && Ideal(text + rest, args) == text + Ideal(rest, args)
  {
    hide Ideal, WellFormed;
    if text == [] {
      assert text + rest == rest;
    } else {
      LiteralPrefix(text[1..], rest, args);
      IdealLiteral(text[0], text[1..] + rest, args);
      assert [text[0]] + (text[1..] + rest) == text + rest;
    }
  }

  // A text in front of "%s" is put in front of the string.
  lemma PrefixPrinted(prefix: Bytes, text: Bytes)
    requires PERCENT !in prefix && NulFree(text)
    ensures WellFormed(prefix + [PERCENT, 's'], [StrArg(text)])
    ensures Ideal(prefix + [PERCENT, 's'], [StrArg(text)]) == prefix + text
  {
    hide Ideal, WellFormed;
    StringPrinted(text);
    LiteralPrefix(prefix, [PERCENT, 's'], [StrArg(text)]);
  }
}
