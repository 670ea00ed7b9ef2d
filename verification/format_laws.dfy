/** What width, dash and zero do to a directive, and what every conversion prints (kernel/string.c:262-372). */
module FormatLaws {
  import opened Bytes
  import opened CString
  import opened Numerals
  import opened Format

  // A field of at least the given width: text on the left and blanks behind it, or text on the right behind blanks or zeros.
  ghost predicate FieldIs(field: Bytes, text: Bytes, width: nat, dash: bool, zeros: bool) {
    && |field| == (if |text| < width then width else |text|)
    && (dash ==> field[..|text|] == text && forall i :: |text| <= i < |field| ==> field[i] == ' ')
    && (!dash ==> field[|field| - |text|..] == text
                  && forall i :: 0 <= i < |field| - |text| ==> field[i] == if zeros then '0' else ' ')
  }

  // The text of an argument: a number in the base of its letter, or a string.
  ghost predicate TextIs(text: Bytes, c: Byte, arg: Arg) {
    match arg
    case IntArg(i) =>
      c in ['d', 'i'] && text != [] && (text[0] == '-' <==> i < 0) &&
      Digits(if i < 0 then text[1..] else text, Magnitude(i), 10, false)
    case UIntArg(u) => (c == 'u' && Digits(text, u, 10, false)) || (c in ['x', 'X'] && Digits(text, u, 16, c == 'X'))
    case StrArg(t) => c == 's' && text == t
    case NullArg => c == 's' && text == ['(', 'n', 'u', 'l', 'l', ')']
    case CharArg(ch) => false
  }

  function Magnitude(i: int): nat { if i < 0 then -i else i }

  // s is the number n in a base, without leading zeros, with letters of one case.
  ghost predicate Digits(s: Bytes, n: nat, base: nat, upper: bool) {
    && s != [] && ValueOf(s, base) == n && (s[0] == '0' ==> n == 0 && |s| == 1)
    && forall i :: 0 <= i < |s| ==> ProperDigit(s[i], base, upper)
  }

  // ------------------------------------------------------------------ flags and width of a whole directive

  function FlagText(zero: bool, dash: bool): Bytes {
    (if zero then ['0'] else []) + (if dash then ['-'] else [])
  }

  function WidthText(width: nat): Bytes { if width == 0 then [] else Decimal(width) }

  function Directive(zero: bool, dash: bool, width: nat, c: Byte): Bytes {
    ['%'] + FlagText(zero, dash) + WidthText(width) + [c]
  }

  lemma {:induction false} RunOfDigits(s: Bytes, tail: Bytes)
    requires (forall i :: 0 <= i < |s| ==> IsDigit(s[i])) && (tail == [] || !IsDigit(tail[0]))
    ensures DigitRun(s + tail) == |s|
  {
    if s == [] {
      assert s + tail == tail;
    } else {
      assert (s + tail)[1..] == s[1..] + tail;
      RunOfDigits(s[1..], tail);
    }
  }

  lemma WidthRead(width: nat, tail: Bytes)
    requires tail != [] && !IsDigit(tail[0])
    ensures LeadingValue(WidthText(width) + tail, 0) == width && DigitRun(WidthText(width) + tail) == |WidthText(width)|
    ensures WidthText(width) != [] ==> IsDigit(WidthText(width)[0]) && WidthText(width)[0] != '0'
  {
    hide Numeral, LeadingValue;
    if width == 0 {
      assert [] + tail == tail;
      LeadingStop(tail, 0);
      RunOfDigits([], tail);
    } else {
      NumeralMeans(width, 10, false);
      LeadingOfDecimal(width, tail);
      AllDigits(width);
      RunOfDigits(Decimal(width), tail);
    }
  }

  lemma AllDigits(n: nat)
    ensures forall i :: 0 <= i < |Decimal(n)| ==> IsDigit(Decimal(n)[i])
  {
    NumeralMeans(n, 10, false);
  }

  lemma FlagsOfDirective(zero: bool, dash: bool, width: nat, tail: Bytes)
    requires tail != [] && !IsDigit(tail[0]) && tail[0] != '-'
    ensures var f := FlagText(zero, dash) + WidthText(width) + tail;
            FlagsOf(f) == Flags(zero, dash, width) && AfterFlags(f) == tail
  {
    hide Numeral, LeadingValue, DigitRun, FlagsOf, AfterFlags, WidthText;
    WidthRead(width, tail);
    var f, h := FlagText(zero, dash) + WidthText(width) + tail, WidthText(width) + tail;
    var g := (if dash then ['-'] else []) + h;
    assert f == (if zero then ['0'] else []) + g;
    assert h != [] && h[0] != '-' && (WidthText(width) == [] ==> h == tail);
    assert (zero ==> f[1..] == g) && (dash ==> g[1..] == h);
    FlagsRead(f, g, h);
    assert h[|WidthText(width)|..] == tail;
  }

  // ------------------------------------------------------------------ what a directive prints

  lemma {:induction false} PaddedField(text: Bytes, fl: Flags, fill: Byte)
    requires fill == ' ' || fill == '0'
    ensures FieldIs(Padded(text, fl, fill), text, fl.width, fl.leftAlign, fill == '0')
  {
  }

  lemma NumberText(c: Byte, arg: Arg)
    requires Suits(c, [arg]) && c in ['d', 'i', 'u', 'x', 'X']
    ensures var text := if c in ['d', 'i'] then Signed(arg.i) else if c == 'u' then Decimal(arg.u) else Numeral(arg.u, 16, c == 'X');
            TextIs(text, c, arg)
  {
    if c in ['d', 'i'] {
      NumeralMeans(Magnitude(arg.i), 10, false);
      AllDigits(Magnitude(arg.i));
      if arg.i < 0 {
        assert Signed(arg.i)[1..] == Decimal(-arg.i);
      }
    } else if c == 'u' {
      NumeralMeans(arg.u, 10, false);
    } else {
      NumeralMeans(arg.u, 16, c == 'X');
    }
  }

  // A directive for a number or a string prints a field: its text stands left with a dash and right without one, behind
  // zeros where a number has the zero flag and behind blanks otherwise.
  lemma DirectivePrints(zero: bool, dash: bool, width: nat, c: Byte, rest: Bytes, args: seq<Arg>)
    returns (field: Bytes, text: Bytes)
    requires c in ['d', 'i', 'u', 'x', 'X', 's'] && Suits(c, args) && width < 0x8000_0000 && WellFormed(rest, args[1..])
    ensures WellFormed(Directive(zero, dash, width, c) + rest, args)
    ensures Ideal(Directive(zero, dash, width, c) + rest, args) == field + Ideal(rest, args[1..])
    ensures TextIs(text, c, args[0]) && FieldIs(field, text, width, dash, zero && c != 's')
  {
    hide FlagsOf, AfterFlags, WidthText, Padded, FieldIs, TextIs, Numeral, Decimal, Signed, Ideal, WellFormed;
    var fl := Flags(zero, dash, width);
    FlagsOfDirective(zero, dash, width, [c] + rest);
    DirectiveStep(Directive(zero, dash, width, c) + rest, FlagText(zero, dash) + WidthText(width) + ([c] + rest), fl, c, rest, args);
    field := Converted(fl, c, args);
    text := ArgText(c, args[0]);
    ConvertedField(fl, c, args);
  }

  function ArgText(c: Byte, arg: Arg): Bytes
    requires Suits(c, [arg]) && c in ['d', 'i', 'u', 'x', 'X', 's']
  {
    if c in ['d', 'i'] then Signed(arg.i) else if c == 'u' then Decimal(arg.u)
    else if c == 's' then (if arg.NullArg? then NULL_TEXT else arg.s) else Numeral(arg.u, 16, c == 'X')
  }

  lemma ConvertedField(fl: Flags, c: Byte, args: seq<Arg>)
    requires c in ['d', 'i', 'u', 'x', 'X', 's'] && Suits(c, args)
    ensures TextIs(ArgText(c, args[0]), c, args[0])
    ensures FieldIs(Converted(fl, c, args), ArgText(c, args[0]), fl.width, fl.leftAlign, fl.zeroPad && c != 's')
  {
    hide Padded, FieldIs, Numeral, Decimal, Signed, Digits;
    PaddedField(ArgText(c, args[0]), fl, if fl.zeroPad && c != 's' then '0' else ' ');
    if c != 's' {
      NumberText(c, args[0]);
    }
  }

  lemma DirectiveStep(f: Bytes, g: Bytes, fl: Flags, c: Byte, rest: Bytes, args: seq<Arg>)
    requires f != [] && f[0] == '%' && f[1..] == g && FlagsOf(g) == fl && AfterFlags(g) == [c] + rest && fl.width < 0x8000_0000
    requires Suits(c, args) && WellFormed(rest, Left(c, args))
    ensures WellFormed(f, args) && Ideal(f, args) == Converted(fl, c, args) + Ideal(rest, Left(c, args))
  {
    hide FlagsOf, AfterFlags, Converted, Suits;
    assert ([c] + rest)[0] == c && ([c] + rest)[1..] == rest;
  }

  // The other letters take no heed of flags and width: a character, a pointer of eight digits, a percent sign, and
  // anything unknown as it stands.
  lemma OtherPrints(zero: bool, dash: bool, width: nat, c: Byte, rest: Bytes, args: seq<Arg>) returns (field: Bytes)
    requires c !in ['d', 'i', 'u', 'x', 'X', 's'] && !IsDigit(c) && c != '-' && Suits(c, args) && width < 0x8000_0000
    requires WellFormed(rest, Left(c, args))
    ensures WellFormed(Directive(zero, dash, width, c) + rest, args)
    ensures Ideal(Directive(zero, dash, width, c) + rest, args) == field + Ideal(rest, Left(c, args))
    ensures c == 'c' ==> field == [args[0].c]
    ensures c == 'p' ==> |field| == 10 && field[..2] == ['0', 'x'] && ValueOf(field[2..], 16) == args[0].u
                         && forall i :: 2 <= i < 10 ==> DigitOf(field[i]) < 16 && !('A' <= field[i] <= 'F')
    ensures c == '%' ==> field == ['%']
    ensures c !in ['c', 'p', '%'] ==> field == ['%', c]
    ensures Left(c, args) == if c in ['c', 'p'] then args[1..] else args
  {
    hide FlagsOf, AfterFlags, WidthText, Padded, Numeral, Decimal, Signed, Ideal, WellFormed, ValueOf, DigitOf, Repeat;
    var fl := Flags(zero, dash, width);
    FlagsOfDirective(zero, dash, width, [c] + rest);
    DirectiveStep(Directive(zero, dash, width, c) + rest, FlagText(zero, dash) + WidthText(width) + ([c] + rest), fl, c, rest, args);
    field := Converted(fl, c, args);
    if c == 'p' {
      PointerText(args[0].u);
    }
  }

  lemma PointerText(u: U32)
    ensures var hex := Numeral(u, 16, false); var field := ['0', 'x'] + (Repeat('0', 8 - |hex|) + hex);
            && |field| == 10 && field[..2] == ['0', 'x'] && ValueOf(field[2..], 16) == u
            && forall i :: 2 <= i < 10 ==> DigitOf(field[i]) < 16 && !('A' <= field[i] <= 'F')
  {
    hide Numeral, ValueOf;
    var hex := Numeral(u, 16, false);
    TextFits(u, false);
    NumeralMeans(u, 16, false);
    ZerosBefore(8 - |hex|, hex);
    var digits := Repeat('0', 8 - |hex|) + hex;
    var field: Bytes := ['0', 'x'] + digits;
    assert field[2..] == digits;
    forall i | 2 <= i < 10
      ensures DigitOf(field[i]) < 16 && !('A' <= field[i] <= 'F')
    {
      assert field[i] == if i - 2 < 8 - |hex| then '0' else hex[i - 2 - (8 - |hex|)];
    }
  }

  lemma {:induction false} ZerosBefore(k: nat, s: Bytes)
    ensures ValueOf(Repeat('0', k) + s, 16) == ValueOf(s, 16)
    decreases |s|, k
  {
    var all := Repeat('0', k) + s;
    if s != [] {
      assert all[..|all| - 1] == Repeat('0', k) + s[..|s| - 1];
      ZerosBefore(k, s[..|s| - 1]);
    } else if k > 0 {
      assert all[..|all| - 1] == Repeat('0', k - 1) + s;
      ZerosBefore(k - 1, s);
    }
  }

  // ------------------------------------------------------------------ the line of a process

  const PROCESS_FORMAT: Bytes :=
    ['%', '5', 'd', ' ', '%', '5', 'd', ' ', '%', 's', ' ', '%', '5', 'd', ' ', '%', 's', '\n']

  // The pid stands right-aligned in the first five columns, whatever the rest of the line.
  lemma PidColumn(pid: nat, rest: Bytes, args: seq<Arg>)
    requires pid < 100_000 && WellFormed(rest, args)
    ensures var f: Bytes, all := ['%', '5', 'd'] + rest, [IntArg(pid)] + args;
            && WellFormed(f, all) && |Ideal(f, all)| == 5 + |Ideal(rest, args)|
            && exists k :: 0 <= k < 5 && Digits(Ideal(f, all)[k..5], pid, 10, false)
                           && forall i :: 0 <= i < k ==> Ideal(f, all)[i] == ' '
  {
    hide Ideal, WellFormed, Numeral, Digits;
    var all := [IntArg(pid)] + args;
    assert all[1..] == args;
    FiveIs();
    var field, text := DirectivePrints(false, false, 5, 'd', rest, all);
    assert Directive(false, false, 5, 'd') == ['%', '5', 'd'];
    ShortText(text, pid);
    var line := Ideal(['%', '5', 'd'] + rest, all);
    assert line[5 - |text|..5] == field[5 - |text|..] == text;
    assert forall i :: 0 <= i < 5 ==> line[i] == field[i];
  }

  lemma FiveIs()
    ensures WidthText(5) == ['5']
  {
  }

  lemma ShortText(text: Bytes, n: nat)
    requires n < 100_000 && TextIs(text, 'd', IntArg(n))
    ensures 1 <= |text| <= 5 && Digits(text, n, 10, false)
  {
    if |text| > 5 {
      LongDigits(text, 5);
    }
  }

  // A numeral of more than k digits is at least ten to the k.
  lemma {:induction false} LongDigits(s: Bytes, k: nat)
    requires |s| > k && s[0] != '0' && (forall i :: 0 <= i < |s| ==> DigitOf(s[i]) < 10)
    ensures ValueOf(s, 10) >= Power10(k)
    decreases k
  {
    if k > 0 {
      LongDigits(s[..|s| - 1], k - 1);
    } else {
      FirstCounts(s);
    }
  }

  lemma {:induction false} FirstCounts(s: Bytes)
    requires s != [] && s[0] != '0' && DigitOf(s[0]) < 10
    ensures ValueOf(s, 10) >= 1
    decreases |s|
  {
    if |s| > 1 {
      FirstCounts(s[..|s| - 1]);
    } else {
      assert s[..0] == [];
    }
  }
}
