/** Numbers as text: itoa, strrev, atoi and the digit loops of vsnprintf (kernel/string.c:68-77, 179-187, 244-254). */
module Numerals {
  import opened Bytes
  import opened CString

  type Int32 = x: int | -0x8000_0000 <= x < 0x8000_0000

  function DigitChar(d: nat, upper: bool): (c: Byte)
    requires d < 16
    ensures c != NUL
  {
    if d < 10 then (48 + d) as char else if upper then (55 + d) as char else (87 + d) as char
  }

  predicate IsBase(base: nat) { base == 10 || base == 16 }

  // n in the given base, most significant digit first.
  function Numeral(n: nat, base: nat, upper: bool): (s: Bytes)
    requires IsBase(base)
    ensures |s| >= 1 && NUL !in s
  {
    if n < base then [DigitChar(n, upper)]
    else Quotient(n, base); Numeral(n / base, base, upper) + [DigitChar(n % base, upper)]
  }

  function Decimal(n: nat): (s: Bytes)
    ensures |s| >= 1 && NUL !in s
  {
    Numeral(n, 10, false)
  }

  function Signed(i: int): Bytes {
    if i < 0 then ['-'] + Decimal(-i) else Decimal(i)
  }

  lemma Quotient(n: nat, base: nat)
    requires IsBase(base) && base <= n
    ensures 0 < n / base < n && n % base < base
  {
  }

  function Reverse(s: Bytes): (r: Bytes)
    ensures |r| == |s|
  {
    if s == [] then [] else Reverse(s[1..]) + [s[0]]
  }

  lemma {:induction false} ReverseAt(s: Bytes, k: nat)
    requires k < |s|
    ensures Reverse(s)[k] == s[|s| - 1 - k]
  {
    if k < |s| - 1 {
      ReverseAt(s[1..], k);
    }
  }

  lemma {:induction false} ReverseSnoc(s: Bytes, c: Byte)
    ensures Reverse(s + [c]) == [c] + Reverse(s)
  {
    if s == [] {
      assert s + [c] == [c];
    } else {
      assert (s + [c])[1..] == s[1..] + [c];
      ReverseSnoc(s[1..], c);
    }
  }

  // Width bounds that show the 20-byte buffers suffice.
  lemma {:induction false} NumeralShort(n: nat, k: nat, upper: bool)
    requires 1 <= k <= 10 && n < Power10(k)
    ensures |Numeral(n, 10, upper)| <= k
    decreases k
  {
    if n >= 10 {
      NumeralShort(n / 10, k - 1, upper);
    }
  }

  function Power10(k: nat): nat { if k == 0 then 1 else 10 * Power10(k - 1) }

  lemma {:induction false} HexShort(n: nat, k: nat, upper: bool)
    requires 1 <= k <= 8 && n < Power16(k)
    ensures |Numeral(n, 16, upper)| <= k
    decreases k
  {
    if n >= 16 {
      HexShort(n / 16, k - 1, upper);
    }
  }

  function Power16(k: nat): nat { if k == 0 then 1 else 16 * Power16(k - 1) }

  lemma TextFits(u: U32, upper: bool)
    ensures |Numeral(u, 10, upper)| <= 10 && |Numeral(u, 16, upper)| <= 8
  {
    assert Power10(10) == 10_000_000_000 by {
      assert Power10(5) == 100_000;
      assert Power10(8) == 100_000_000;
    }
    assert Power16(8) == 0x1_0000_0000 by {
      assert Power16(4) == 0x1_0000;
    }
    NumeralShort(u, 10, upper);
    HexShort(u, 8, upper);
  }

  // The in-place reversal both strrev and itoa end with.
  method ReverseInPlace(str: array<Byte>, n: nat)
    requires n <= str.Length
    modifies str
    ensures str[..n] == Reverse(old(str[..n])) && str[n..] == old(str[n..])
  {
    var j, k := 0, n - 1;
    while j < k
      invariant 0 <= j && j + k == n - 1 && j <= k + 1
      invariant forall i :: 0 <= i < j ==> str[i] == old(str[n - 1 - i]) && str[n - 1 - i] == old(str[i])
      invariant forall i :: j <= i <= k ==> str[i] == old(str[i])
      invariant str[n..] == old(str[n..])
    {
      str[j], str[k] := str[k], str[j];
      j, k := j + 1, k - 1;
    }
    ghost var was := old(str[..n]);
    forall i | 0 <= i < n
      ensures str[..n][i] == Reverse(was)[i]
    {
      ReverseAt(was, i);
    }
  }

  // The digit loop: least significant first, then reversed (kernel/string.c:298-303, 317-322, 334-340).
  method DigitsOf(val0: U32, base: nat, upper: bool, buf: array<Byte>) returns (i: nat)
    requires IsBase(base)
    requires buf.Length == 20
    modifies buf
    ensures i == |Numeral(val0, base, upper)| <= 10 && CStr(buf[..]) == Numeral(val0, base, upper)
  {
    hide Numeral, Reverse, DigitChar;
    TextFits(val0, upper);
    var val := val0;
    i := 0;
    if val == 0 {
      buf[i] := '0';
      i := i + 1;
      ZeroNumeral(base, upper);
      assert buf[..1] == ['0'];
    } else {
      NothingReversed();
      assert buf[..0] == [] && Numeral(val0, base, upper) + [] == Numeral(val0, base, upper);
      while val != 0
        invariant 0 <= val <= val0 && i <= 10
        invariant val != 0 ==> Numeral(val0, base, upper) == Numeral(val, base, upper) + Reverse(buf[..i])
        invariant val == 0 ==> Numeral(val0, base, upper) == Reverse(buf[..i])
        decreases val
      {
        ghost var low := buf[..i];
        assert |Numeral(val0, base, upper)| == |Numeral(val, base, upper)| + i;
        buf[i] := DigitChar(val % base, upper);
        ReverseSnoc(low, buf[i]);
        assert buf[..i + 1] == low + [buf[i]];
        DigitStep(val, base, upper, Reverse(low));
        val := val / base;
        i := i + 1;
      }
    }
    buf[i] := NUL;
    ReverseInPlace(buf, i);
    CStrIs(buf[..], buf[..i]);
  }

  lemma ZeroNumeral(base: nat, upper: bool)
    requires IsBase(base)
    ensures Numeral(0, base, upper) == ['0'] == Reverse(['0'])
  {
    assert ['0'][1..] == [];
  }

  lemma NothingReversed()
    ensures Reverse([]) == []
  {
  }

  lemma DigitStep(val: nat, base: nat, upper: bool, tail: Bytes)
    requires IsBase(base) && val > 0
    ensures val / base < val && val % base < base
    ensures var d := DigitChar(val % base, upper);
            Numeral(val, base, upper) + tail ==
            if val / base == 0 then [d] + tail else Numeral(val / base, base, upper) + ([d] + tail)
  {
    if val >= base {
      Quotient(val, base);
    }
  }

  // itoa (kernel/string.c:244-254); the most negative number has no positive counterpart.
  method Itoa(n0: Int32, str: array<Byte>)
    requires n0 > -0x8000_0000 && str.Length == 20
    modifies str
    ensures CStr(str[..]) == Signed(n0) && |Signed(n0)| <= 11
  {
    var n := if n0 < 0 then -n0 else n0;
    ghost var m := n;
    TextFits(m, false);
    var i := 0;
    var more := true;
    while more
      invariant 0 <= n <= m && i <= 10 && (more ==> n > 0 || i == 0)
      invariant more ==> Decimal(m) == Decimal(n) + Reverse(str[..i])
      invariant !more ==> n == 0 && Decimal(m) == Reverse(str[..i])
      decreases more, n
    {
      ghost var low := str[..i];
      assert |Decimal(m)| == |Decimal(n)| + i;
      str[i] := DigitChar(n % 10, false);
      ReverseSnoc(low, str[i]);
      assert str[..i + 1] == low + [str[i]];
      if n > 0 {
        DigitStep(n, 10, false, Reverse(low));
      }
      n := n / 10;
      i := i + 1;
      more := n > 0;
    }
    if n0 < 0 {
      ghost var low := str[..i];
      str[i] := '-';
      ReverseSnoc(low, '-');
      i := i + 1;
      assert str[..i] == low + ['-'];
    }
    str[i] := NUL;
    ReverseInPlace(str, i);
    CStrIs(str[..], str[..i]);
  }

  // ------------------------------------------------------------------ reading numbers back

  predicate IsDigit(c: Byte) { '0' <= c <= '9' }

  function DigitValue(c: Byte): nat
    requires IsDigit(c)
  {
    c as int - 48
  }

  // The value of the leading digits of s, continuing from acc.
  function LeadingValue(s: Bytes, acc: nat): nat {
    if s == [] || !IsDigit(s[0]) then acc else LeadingValue(s[1..], 10 * acc + DigitValue(s[0]))
  }

  function AtoiValue(s: Bytes): int {
    if s != [] && s[0] == '-' then 0 - LeadingValue(s[1..], 0) else LeadingValue(s, 0)
  }

  // atoi (kernel/string.c:68-77) on text whose value fits an int.
  method Atoi(str: Bytes) returns (v: int)
    requires -0x8000_0000 < AtoiValue(str) < 0x8000_0000
    ensures v == AtoiValue(str)
  {
    var result, sign, i := 0, 1, 0;
    if |str| > 0 && str[0] == '-' {
      sign := -1;
      i := 1;
    }
    ghost var digits := str[i..];
    while i < |str| && IsDigit(str[i])
      invariant 0 <= i <= |str| && result >= 0
      invariant LeadingValue(digits, 0) == LeadingValue(str[i..], result)
    {
      result := result * 10 + DigitValue(str[i]);
      assert str[i..][1..] == str[i + 1..];
      i := i + 1;
    }
    return sign * result;
  }

  lemma {:induction false} LeadingOfDecimal(n: nat, tail: Bytes)
    requires tail == [] || !IsDigit(tail[0])
    ensures LeadingValue(Decimal(n) + tail, 0) == n
  {
    LeadingGeneral(n, tail, 0);
    ShiftedZero(|Decimal(n)|);
  }

  // Digits after an accumulated value shift it left by their number.
  lemma {:induction false} LeadingGeneral(n: nat, tail: Bytes, acc: nat)
    requires tail == [] || !IsDigit(tail[0])
    ensures LeadingValue(Decimal(n) + tail, acc) == Shifted(acc, |Decimal(n)|) + n
  {
    LeadingSnoc(n, tail, acc);
    LeadingStop(tail, Shifted(acc, |Decimal(n)|) + n);
  }

  function Shifted(acc: nat, k: nat): nat { if k == 0 then acc else 10 * Shifted(acc, k - 1) }

  lemma LeadingStop(tail: Bytes, acc: nat)
    requires tail == [] || !IsDigit(tail[0])
    ensures LeadingValue(tail, acc) == acc
  {
  }

  lemma {:induction false} LeadingSnoc(n: nat, tail: Bytes, acc: nat)
    ensures LeadingValue(Decimal(n) + tail, acc) == LeadingValue(tail, Shifted(acc, |Decimal(n)|) + n)
  {
    if n < 10 {
      var s := Decimal(n) + tail;
      assert s[0] == DigitChar(n, false) && s[1..] == tail;
      assert |Decimal(n)| == 1 && Shifted(acc, 1) == 10 * Shifted(acc, 0);
    } else {
      Quotient(n, 10);
      var d := DigitChar(n % 10, false);
      assert Decimal(n) + tail == Decimal(n / 10) + ([d] + tail);
      LeadingSnoc(n / 10, [d] + tail, acc);
      assert ([d] + tail)[1..] == tail;
      assert |Decimal(n)| == |Decimal(n / 10)| + 1;
    }
  }

  // atoi undoes the printing of a number, whatever non-digit follows.
  lemma AtoiOfSigned(i: int, tail: Bytes)
    requires tail == [] || !IsDigit(tail[0])
    ensures AtoiValue(Signed(i) + tail) == i
  {
    hide Numeral, Decimal, LeadingValue;
    var s := Signed(i) + tail;
    if i < 0 {
      assert s[1..] == Decimal(-i) + tail;
      LeadingOfDecimal(-i, tail);
    } else {
      FirstIsDigit(i);
      LeadingOfDecimal(i, tail);
    }
  }

  lemma {:induction false} FirstIsDigit(n: nat)
    ensures IsDigit(Decimal(n)[0])
  {
    if n >= 10 {
      FirstIsDigit(n / 10);
    }
  }

  lemma {:induction false} ShiftedZero(k: nat)
    ensures Shifted(0, k) == 0
  {
    if k > 0 {
      ShiftedZero(k - 1);
    }
  }

  // ------------------------------------------------------------------ what a numeral is

  // The digit a character stands for, 16 for one that is no digit.
  function DigitOf(c: Byte): nat {
    if '0' <= c <= '9' then c as int - '0' as int
    else if 'a' <= c <= 'f' then c as int - 'a' as int + 10
    else if 'A' <= c <= 'F' then c as int - 'A' as int + 10
    else 16
  }

  // The value of digits in a base, the most significant one first.
  function ValueOf(s: Bytes, base: nat): nat {
    if s == [] then 0 else base * ValueOf(s[..|s| - 1], base) + DigitOf(s[|s| - 1])
  }

  ghost predicate ProperDigit(c: Byte, base: nat, upper: bool) {
    DigitOf(c) < base && !(if upper then 'a' <= c <= 'f' else 'A' <= c <= 'F')
  }

  lemma DigitBack(d: nat, upper: bool)
    requires d < 16
    ensures DigitOf(DigitChar(d, upper)) == d && (DigitChar(d, upper) == '0' <==> d == 0)
    ensures !(if upper then 'a' <= DigitChar(d, upper) <= 'f' else 'A' <= DigitChar(d, upper) <= 'F')
  {
  }

  lemma ValueSnoc(s: Bytes, c: Byte, base: nat)
    ensures ValueOf(s + [c], base) == base * ValueOf(s, base) + DigitOf(c)
  {
    assert (s + [c])[..|s|] == s;
  }

  // Printing a number and reading its digits gives the number; letters are all of the case asked for, and there is no
  // leading zero.
  lemma {:induction false} NumeralMeans(n: nat, base: nat, upper: bool)
    requires IsBase(base)
    ensures var s := Numeral(n, base, upper);
            && ValueOf(s, base) == n && (forall i :: 0 <= i < |s| ==> ProperDigit(s[i], base, upper))
            && (s[0] == '0' ==> n == 0 && |s| == 1)
  {
    hide DigitChar, DigitOf, ValueOf;
    if n < base {
      DigitBack(n, upper);
      ValueSnoc([], DigitChar(n, upper), base);
      NoValue(base);
      assert [] + [DigitChar(n, upper)] == [DigitChar(n, upper)];
    } else {
      Quotient(n, base);
      NumeralMeans(n / base, base, upper);
      DigitBack(n % base, upper);
      ValueSnoc(Numeral(n / base, base, upper), DigitChar(n % base, upper), base);
      Divided(n, base);
    }
  }

  lemma NoValue(base: nat)
    ensures base * ValueOf([], base) == 0
  {
  }

  lemma Divided(n: nat, base: nat)
    requires IsBase(base)
    ensures base * (n / base) + n % base == n
  {
  }
}
