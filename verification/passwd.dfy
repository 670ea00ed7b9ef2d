/** The passwd file: one line of eight fields for each user (kernel/user.c:9-66). */
module Passwd {
  import opened Bytes
  import opened CString
  import opened Numerals
  import opened Tokens
  import Format

  const COLON: Byte := ':'
  const LINE_END: Byte := '\n'
  const MAX_USERS := 50
  const NAME_MAX := 31
  const HOME_MAX := 39
  const PASSWD_BUFFER := 4096
  const INT_LIMIT := 0x8000_0000
  const SLASH_HOME: Bytes := ['/']
  const KSH: Bytes := ['/', 'b', 'i', 'n', '/', 'k', 's', 'h']
  const COLONS: Bytes := [COLON]
  const FORMAT: Bytes := ['%', 's', ':', '%', 's', ':', '%', 'u', ':', '%', 'u', ':',
                          '%', 'd', ':', '%', 'd', ':', '%', 's', ':', '%', 's', '\n']
  const LETTERS: Bytes := ['s', 's', 'u', 'u', 'd', 'd', 's', 's']

  datatype User = User(name: Bytes, password: Bytes, uid: U32, gid: U32, isRoot: U8, inSudo: U8, home: Bytes, shell: Bytes)

  // ------------------------------------------------------------------ users as text

  function JoinFields(ts: seq<Bytes>): Bytes
    requires ts != []
  {
    if |ts| == 1 then ts[0] else ts[0] + [COLON] + JoinFields(ts[1..])
  }

  function FieldsOf(u: User): (ts: seq<Bytes>)
    ensures |ts| == 8
  {
    [u.name, u.password, Decimal(u.uid), Decimal(u.gid), Decimal(u.isRoot), Decimal(u.inSudo), u.home, u.shell]
  }

  // The file that holds a table, in full.
  function PasswdText(us: seq<User>): Bytes {
    if us == [] then [] else JoinFields(FieldsOf(us[0])) + [LINE_END] + PasswdText(us[1..])
  }

  lemma {:induction false} PasswdTextSnoc(us: seq<User>, u: User)
    ensures PasswdText(us + [u]) == PasswdText(us) + (JoinFields(FieldsOf(u)) + [LINE_END])
  {
    hide JoinFields, FieldsOf;
    if us == [] {
      assert us + [u] == [u] && [u][1..] == [];
    } else {
      assert (us + [u])[1..] == us[1..] + [u];
      PasswdTextSnoc(us[1..], u);
    }
  }

  function Arguments(u: User): seq<Format.Arg> {
    [Format.StrArg(u.name), Format.StrArg(u.password), Format.UIntArg(u.uid), Format.UIntArg(u.gid),
     Format.IntArg(u.isRoot), Format.IntArg(u.inSudo), Format.StrArg(u.home), Format.StrArg(u.shell)]
  }

  // A format of plain directives between colons.
  function FieldFormat(letters: Bytes): Bytes
    requires letters != []
  {
    ['%', letters[0]] + if |letters| == 1 then [LINE_END] else [COLON] + FieldFormat(letters[1..])
  }

  ghost predicate Plain(letter: Byte, arg: Format.Arg) {
    || (letter == 's' && arg.StrArg? && NulFree(arg.s))
    || (letter == 'u' && arg.UIntArg?)
    || (letter == 'd' && arg.IntArg? && arg.i >= 0)
  }

  ghost function ArgText(arg: Format.Arg): Bytes {
    match arg
    case StrArg(s) => s
    case UIntArg(u) => Decimal(u)
    case IntArg(i) => if i >= 0 then Decimal(i) else []
    case _ => []
  }

  lemma PlainText(letter: Byte, args: seq<Format.Arg>)
    requires args != [] && Plain(letter, args[0])
    ensures Format.Suits(letter, args) && Format.Left(letter, args) == args[1..]
    ensures Format.Converted(Format.Flags(false, false, 0), letter, args) == ArgText(args[0])
  {
    hide Format.Padded;
    Format.NoPadding(ArgText(args[0]), ' ');
  }

  // What such a format prints.
  lemma {:induction false} FieldsPrinted(letters: Bytes, args: seq<Format.Arg>)
    requires |letters| == |args| >= 1 && forall i :: 0 <= i < |args| ==> Plain(letters[i], args[i])
    ensures Format.WellFormed(FieldFormat(letters), args)
    ensures Format.Ideal(FieldFormat(letters), args) == JoinFields(seq(|args|, i requires 0 <= i < |args| => ArgText(args[i]))) + [LINE_END]
    decreases |letters|
  {
    hide Format.WellFormed, Format.Ideal, Format.Converted, Format.Suits, Plain, ArgText, JoinFields;
    var ts := seq(|args|, i requires 0 <= i < |args| => ArgText(args[i]));
    var c := letters[0];
    PlainText(c, args);
    Format.IdealEnds(args[1..]);
    assert c != '-' && !IsDigit(c) by { PlainLetter(c, args[0]); }
    if |letters| == 1 {
      Format.IdealLiteral(LINE_END, [], args[1..]);
      assert [LINE_END] + [] == [LINE_END];
      Format.IdealPlain(c, [LINE_END], args);
      OneField(ts);
    } else {
      var more := FieldFormat(letters[1..]);
      FieldsPrinted(letters[1..], args[1..]);
      var rest := seq(|args| - 1, i requires 0 <= i < |args| - 1 => ArgText(args[1..][i]));
      assert rest == ts[1..];
      Format.IdealLiteral(COLON, more, args[1..]);
      Format.IdealPlain(c, [COLON] + more, args);
      MoreFields(ts);
      assert ts[0] + ([COLON] + (JoinFields(rest) + [LINE_END])) == (ts[0] + [COLON] + JoinFields(rest)) + [LINE_END];
    }
  }

  lemma PlainLetter(c: Byte, arg: Format.Arg)
    requires Plain(c, arg)
    ensures c != '-' && !IsDigit(c)
  {
  }

  lemma OneField(ts: seq<Bytes>)
    requires |ts| == 1
    ensures JoinFields(ts) == ts[0]
  {
  }

  lemma MoreFields(ts: seq<Bytes>)
    requires |ts| > 1
    ensures JoinFields(ts) == ts[0] + [COLON] + JoinFields(ts[1..])
  {
  }

  lemma MoreLetters(c: Byte, letters: Bytes, format: Bytes)
    requires letters != [] && FieldFormat(letters) == format
    ensures FieldFormat([c] + letters) == ['%', c, COLON] + format
  {
    assert ([c] + letters)[1..] == letters;
  }

  const HALF: Bytes := ['%', 'd', ':', '%', 'd', ':', '%', 's', ':', '%', 's', '\n']

  lemma HalfFormat()
    ensures FieldFormat(['d', 'd', 's', 's']) == HALF
  {
    hide FieldFormat;
    LastLetter();
    var tail: Bytes := ['%', 's', '\n'];
    MoreLetters('s', ['s'], tail);
    MoreLetters('d', ['s'] + ['s'], ['%', 's', COLON] + tail);
    MoreLetters('d', ['d'] + (['s'] + ['s']), ['%', 'd', COLON] + (['%', 's', COLON] + tail));
    assert ['d'] + (['d'] + (['s'] + ['s'])) == ['d', 'd', 's', 's'];
    assert ['%', 'd', COLON] + (['%', 'd', COLON] + (['%', 's', COLON] + tail)) == HALF;
  }

  lemma FormatIs()
    ensures FieldFormat(LETTERS) == FORMAT && NulFree(FORMAT)
  {
    hide FieldFormat;
    var six: Bytes := ['u', 'u', 'd', 'd', 's', 's'];
    var rest := ['%', 'u', COLON, '%', 'u', COLON] + HALF;
    UsersFormat();
    MoreLetters('s', six, rest);
    MoreLetters('s', ['s'] + six, ['%', 's', COLON] + rest);
    assert ['s'] + (['s'] + six) == LETTERS;
    assert ['%', 's', COLON] + (['%', 's', COLON] + rest) == FORMAT;
  }

  lemma UsersFormat()
    ensures FieldFormat(['u', 'u', 'd', 'd', 's', 's']) == ['%', 'u', COLON, '%', 'u', COLON] + HALF
    ensures NulFree(['%', 'u', COLON, '%', 'u', COLON] + HALF)
  {
    hide FieldFormat;
    HalfFormat();
    var half: Bytes := ['d', 'd', 's', 's'];
    MoreLetters('u', half, HALF);
    MoreLetters('u', ['u'] + half, ['%', 'u', COLON] + HALF);
    assert ['u'] + (['u'] + half) == ['u', 'u', 'd', 'd', 's', 's'];
    assert ['%', 'u', COLON] + (['%', 'u', COLON] + HALF) == ['%', 'u', COLON, '%', 'u', COLON] + HALF;
  }

  lemma LastLetter()
    ensures FieldFormat(['s']) == ['%', 's', '\n']
  {
  }

  // One line of users_save is the user's fields between colons.
  lemma LinePrinted(u: User)
    requires NulFree(u.name) && NulFree(u.password) && NulFree(u.home) && NulFree(u.shell)
    ensures Format.WellFormed(FORMAT, Arguments(u))
    ensures Format.Ideal(FORMAT, Arguments(u)) == JoinFields(FieldsOf(u)) + [LINE_END]
  {
    hide Format.WellFormed, Format.Ideal, JoinFields, FieldFormat;
    var args := Arguments(u);
    FormatIs();
    FieldsPrinted(LETTERS, args);
    assert seq(|args|, i requires 0 <= i < |args| => ArgText(args[i])) == FieldsOf(u);
  }

  // ------------------------------------------------------------------ text as users

  datatype Option<T> = None | Some(value: T)

  function Number(ts: seq<Bytes>, i: nat, bound: nat): (n: nat)
    requires bound > 0
    ensures n < bound
  {
    if i < |ts| then AtoiValue(ts[i]) % bound else 0
  }

  // The user a line describes; a line of fewer than two fields describes none.
  function ParseLine(line: Bytes): Option<User> {
    var ts := TokensOf(line, COLONS);
    if |ts| < 2 then None
    else
      var isRoot := Number(ts, 4, 0x100);
      Some(User(Upto(ts[0], NAME_MAX), Upto(ts[1], NAME_MAX), Number(ts, 2, 0x1_0000_0000), Number(ts, 3, 0x1_0000_0000),
                isRoot, Number(ts, 5, 0x100),
                if isRoot != 0 then SLASH_HOME else Upto(if 6 < |ts| then ts[6] else SLASH_HOME, HOME_MAX),
                Upto(if 7 < |ts| then ts[7] else KSH, NAME_MAX)))
  }

  // The users of a text, at most n of them.
  function UsersOf(text: Bytes, n: nat): (us: seq<User>)
    ensures |us| <= n
    decreases |text|
  {
    if n == 0 || text == [] then []
    else
      var k := FirstIndex(text, LINE_END);
      var rest := if k == |text| then [] else text[k + 1..];
      match ParseLine(text[..k])
      case Some(u) => [u] + UsersOf(rest, n - 1)
      case None => UsersOf(rest, n)
  }

  // ------------------------------------------------------------------ round trip

  ghost predicate FieldOk(s: Bytes, max: nat) {
    1 <= |s| <= max && NulFree(s) && COLON !in s && LINE_END !in s
  }

  ghost predicate UserOk(u: User) {
    && FieldOk(u.name, NAME_MAX) && FieldOk(u.password, NAME_MAX) && FieldOk(u.home, HOME_MAX) && FieldOk(u.shell, NAME_MAX)
    && (u.isRoot != 0 ==> u.home == SLASH_HOME) && u.uid < INT_LIMIT && u.gid < INT_LIMIT
  }

  ghost predicate UsersOk(us: seq<User>) { forall i :: 0 <= i < |us| ==> UserOk(us[i]) }

  lemma {:induction false} DecimalField(n: nat)
    ensures forall c :: c in Decimal(n) ==> IsDigit(c)
  {
    if n >= 10 {
      DecimalField(n / 10);
    }
  }

  lemma FieldWords(s: Bytes)
    requires s != [] && COLON !in s
    ensures NoneIn(s, COLONS)
  {
  }

  // Joined fields come apart again.
  lemma {:induction false} FieldsComeApart(ts: seq<Bytes>)
    requires ts != [] && forall i :: 0 <= i < |ts| ==> ts[i] != [] && COLON !in ts[i]
    ensures TokensOf(JoinFields(ts), COLONS) == ts
  {
    hide TokensOf;
    FieldWords(ts[0]);
    EmptyTokens(COLONS);
    if |ts| == 1 {
      assert [] + ts[0] + [] == ts[0];
      OneToken([], ts[0], [], COLONS);
    } else {
      var rest := JoinFields(ts[1..]);
      assert [] + ts[0] + ([COLON] + rest) == JoinFields(ts);
      OneToken([], ts[0], [COLON] + rest, COLONS);
      SkipOne([COLON] + rest, COLONS);
      assert ([COLON] + rest)[1..] == rest;
      FieldsComeApart(ts[1..]);
    }
  }

  lemma NumberBack(n: nat)
    ensures AtoiValue(Decimal(n)) == n && COLON !in Decimal(n) && LINE_END !in Decimal(n) && Decimal(n) != []
  {
    DecimalField(n);
    AtoiOfSigned(n, []);
    assert Signed(n) + [] == Decimal(n);
  }

  // Reading a line back gives the user it was printed from.
  lemma LineComesBack(u: User)
    requires UserOk(u)
    ensures ParseLine(JoinFields(FieldsOf(u))) == Some(u)
  {
    hide TokensOf, JoinFields, AtoiValue, Decimal;
    NumberBack(u.uid);
    NumberBack(u.gid);
    NumberBack(u.isRoot);
    NumberBack(u.inSudo);
    FieldsComeApart(FieldsOf(u));
  }

  lemma {:induction false} NoLineEnd(ts: seq<Bytes>)
    requires ts != [] && forall i :: 0 <= i < |ts| ==> LINE_END !in ts[i]
    ensures LINE_END !in JoinFields(ts)
  {
    if |ts| > 1 {
      NoLineEnd(ts[1..]);
    }
  }

  lemma {:induction false} NoNul(ts: seq<Bytes>)
    requires ts != [] && forall i :: 0 <= i < |ts| ==> NulFree(ts[i])
    ensures NulFree(JoinFields(ts))
  {
    if |ts| > 1 {
      NoNul(ts[1..]);
    }
  }

  lemma LineIsOne(u: User)
    requires UserOk(u)
    ensures LINE_END !in JoinFields(FieldsOf(u)) && NulFree(JoinFields(FieldsOf(u)))
  {
    hide JoinFields;
    NumberBack(u.uid);
    NumberBack(u.gid);
    NumberBack(u.isRoot);
    NumberBack(u.inSudo);
    NoLineEnd(FieldsOf(u));
    NoNul(FieldsOf(u));
  }

  lemma {:induction false} TextNulFree(us: seq<User>)
    requires UsersOk(us)
    ensures NulFree(PasswdText(us))
  {
    hide JoinFields, UserOk;
    if us != [] {
      assert UserOk(us[0]);
      LineIsOne(us[0]);
      TextNulFree(us[1..]);
    }
  }

  lemma FirstUser(line: Bytes, rest: Bytes, n: nat)
    requires LINE_END !in line && n > 0
    ensures UsersOf(line + ([LINE_END] + rest), n) ==
            match ParseLine(line) case Some(u) => [u] + UsersOf(rest, n - 1) case None => UsersOf(rest, n)
  {
    hide ParseLine;
    var text := line + ([LINE_END] + rest);
    FirstIndexJoin(line, [LINE_END] + rest, LINE_END);
    assert text[..|line|] == line && text[|line| + 1..] == rest;
  }

  lemma NoUsers(n: nat)
    ensures UsersOf([], n) == []
  {
  }

  // The whole file reads back as the table it was printed from.
  lemma {:induction false} UsersComeBack(us: seq<User>, n: nat)
    requires UsersOk(us) && |us| <= n
    ensures UsersOf(PasswdText(us), n) == us
  {
    hide JoinFields, FieldsOf, ParseLine, UserOk, UsersOf;
    NoUsers(n);
    if us != [] {
      assert UserOk(us[0]);
      var line, rest := JoinFields(FieldsOf(us[0])), PasswdText(us[1..]);
      LineIsOne(us[0]);
      assert PasswdText(us) == line + ([LINE_END] + rest);
      FirstUser(line, rest, n);
      LineComesBack(us[0]);
      UsersComeBack(us[1..], n - 1);
    }
  }

  // ------------------------------------------------------------------ numbers that fit an int

  ghost predicate LineNumbersFit(line: Bytes) {
    var ts := TokensOf(line, COLONS);
    forall i :: 2 <= i < 6 && i < |ts| ==> -INT_LIMIT < AtoiValue(ts[i]) < INT_LIMIT
  }

  // atoi of the number fields of every line is defined.
  ghost predicate NumbersFit(text: Bytes)
    decreases |text|
  {
    text == [] ||
    var k := FirstIndex(text, LINE_END);
    LineNumbersFit(text[..k]) && NumbersFit(if k == |text| then [] else text[k + 1..])
  }

  lemma {:induction false} TableNumbersFit(us: seq<User>)
    requires UsersOk(us)
    ensures NumbersFit(PasswdText(us))
  {
    hide JoinFields, FieldsOf, UserOk, LineNumbersFit;
    if us != [] {
      assert UserOk(us[0]);
      var line, rest := JoinFields(FieldsOf(us[0])), PasswdText(us[1..]);
      LineIsOne(us[0]);
      assert PasswdText(us) == line + ([LINE_END] + rest);
      FirstIndexJoin(line, [LINE_END] + rest, LINE_END);
      assert (line + ([LINE_END] + rest))[..|line|] == line && (line + ([LINE_END] + rest))[|line| + 1..] == rest;
      UserNumbersFit(us[0]);
      TableNumbersFit(us[1..]);
    }
  }

  lemma UserNumbersFit(u: User)
    requires UserOk(u)
    ensures LineNumbersFit(JoinFields(FieldsOf(u)))
  {
    hide TokensOf, JoinFields, AtoiValue, Decimal;
    NumberBack(u.uid);
    NumberBack(u.gid);
    NumberBack(u.isRoot);
    NumberBack(u.inSudo);
    FieldsComeApart(FieldsOf(u));
  }
}
