/** What a passwd file that was cut off still says (kernel/user.c:9-66). */
module PasswdCuts {
  import opened Bytes
  import opened CString
  import opened Numerals
  import opened Tokens
  import opened Passwd

  // ------------------------------------------------------------------ the condition

  // What users_load puts in place of a missing field.
  function DefaultText(k: nat): Bytes {
    if k < 6 then Decimal(0) else if k == 6 then SLASH_HOME else KSH
  }

  ghost predicate Default(u: User, k: nat)
    requires k < 8
  {
    FieldsOf(u)[k] == DefaultText(k)
  }

  // Where the m-th field of a line ends.
  ghost function FieldsEnd(u: User, m: nat): nat
    requires 1 <= m <= 8
  {
    |JoinFields(FieldsOf(u)[..m])|
  }

  // w characters keep name, password and some more fields whole, with or without the separator behind them,
  // and every field cut off is the one that stands for a missing one.
  ghost predicate LineKept(u: User, w: nat) {
    exists m :: 2 <= m <= 8 && w - 1 <= FieldsEnd(u, m) <= w && forall k :: m <= k < 8 ==> Default(u, k)
  }

  ghost predicate CutKeeps(us: seq<User>, w: nat)
    requires us != []
  {
    var head := |PasswdText(us[..|us| - 1])|;
    head <= w && LineKept(us[|us| - 1], w - head)
  }

  // ------------------------------------------------------------------ numbers cut short

  // A number cut short is smaller.
  lemma {:induction false} NumberCut(v: nat, q: Bytes)
    requires q != [] && q <= Decimal(v)
    ensures AtoiValue(q) >= 0 && AtoiValue(q) <= v && (AtoiValue(q) == v <==> q == Decimal(v))
  {
    NumberBack(v);
    if q != Decimal(v) {
      DecimalSteps(v);
      assert v >= 10;
      assert q <= Decimal(v / 10);
      NumberCut(v / 10, q);
    }
  }

  lemma DecimalSteps(v: nat)
    ensures v < 10 ==> |Decimal(v)| == 1
    ensures v >= 10 ==> Decimal(v)[..|Decimal(v)| - 1] == Decimal(v / 10)
  {
  }

  lemma DecimalZero(v: nat)
    ensures Decimal(v) == Decimal(0) <==> v == 0
  {
    NumberBack(v);
    NumberBack(0);
  }

  // ------------------------------------------------------------------ one line cut short

  // The fields before k whole and q of field k.
  ghost function CutFields(fs: seq<Bytes>, k: nat, q: Bytes): (ts: seq<Bytes>)
    requires k < |fs|
    ensures |ts| == if q == [] then k else k + 1
  {
    fs[..k] + if q == [] then [] else [q]
  }

  ghost function CutText(fs: seq<Bytes>, k: nat, q: Bytes): Bytes
    requires k < |fs|
  {
    if k == 0 then q else JoinFields(fs[..k]) + ([COLON] + q)
  }

  ghost predicate FieldsFit(fs: seq<Bytes>) {
    fs != [] && forall i :: 0 <= i < |fs| ==> fs[i] != [] && COLON !in fs[i]
  }

  // Every prefix of a line is some whole fields and a part of the next one.
  lemma {:induction false} CutShape(fs: seq<Bytes>, w: nat) returns (k: nat, q: Bytes)
    requires FieldsFit(fs) && w <= |JoinFields(fs)|
    ensures k < |fs| && q <= fs[k] && JoinFields(fs)[..w] == CutText(fs, k, q)
  {
    if |fs| == 1 || w <= |fs[0]| {
      k, q := 0, fs[0][..w];
    } else {
      var rest := JoinFields(fs[1..]);
      var j, p := CutShape(fs[1..], w - |fs[0]| - 1);
      k, q := j + 1, p;
      assert JoinFields(fs) == fs[0] + ([COLON] + rest);
      assert JoinFields(fs)[..w] == fs[0] + ([COLON] + rest[..w - |fs[0]| - 1]);
      if j == 0 {
        OneField(fs[..1]);
      } else {
        assert fs[..k][1..] == fs[1..][..j];
        MoreFields(fs[..k]);
        assert JoinFields(fs[..k]) + ([COLON] + q) == fs[0] + ([COLON] + (JoinFields(fs[1..][..j]) + ([COLON] + q)));
      }
    }
  }

  // Fields and a separated rest come apart.
  lemma {:induction false} FieldsThen(ts: seq<Bytes>, rest: Bytes)
    requires FieldsFit(ts) && (rest == [] || rest[0] == COLON)
    ensures TokensOf(JoinFields(ts) + rest, COLONS) == ts + TokensOf(rest, COLONS)
  {
    hide TokensOf;
    FieldWords(ts[0]);
    if |ts| == 1 {
      assert JoinFields(ts) + rest == [] + ts[0] + rest;
      OneToken([], ts[0], rest, COLONS);
    } else {
      var more := JoinFields(ts[1..]) + rest;
      assert JoinFields(ts) + rest == [] + ts[0] + ([COLON] + more);
      OneToken([], ts[0], [COLON] + more, COLONS);
      SkipOne([COLON] + more, COLONS);
      assert ([COLON] + more)[1..] == more;
      FieldsThen(ts[1..], rest);
      assert [ts[0]] + (ts[1..] + TokensOf(rest, COLONS)) == ts + TokensOf(rest, COLONS);
    }
  }

  lemma PartTokens(q: Bytes)
    requires COLON !in q
    ensures TokensOf(q, COLONS) == if q == [] then [] else [q]
  {
    hide TokensOf;
    EmptyTokens(COLONS);
    if q != [] {
      FieldWords(q);
      OneToken([], q, [], COLONS);
      assert [] + q + [] == q;
    }
  }

  lemma CutTokens(fs: seq<Bytes>, k: nat, q: Bytes)
    requires FieldsFit(fs) && k < |fs| && q <= fs[k]
    ensures TokensOf(CutText(fs, k, q), COLONS) == CutFields(fs, k, q)
  {
    hide TokensOf, JoinFields;
    PartTokens(q);
    if k > 0 {
      FieldsThen(fs[..k], [COLON] + q);
      SkipOne([COLON] + q, COLONS);
      assert ([COLON] + q)[1..] == q;
    }
  }

  // Field j reads as it was: it is whole, or missing where its default stands.
  ghost predicate Stays(u: User, k: nat, q: Bytes, j: nat)
    requires k < 8 && j < 8
  {
    j < k || (j == k && q == FieldsOf(u)[k]) || ((j > k || (j == k && q == [])) && Default(u, j))
  }

  lemma NumberStays(u: User, k: nat, q: Bytes, j: nat, v: nat, bound: nat)
    requires UserOk(u) && k < 8 && q <= FieldsOf(u)[k] && 2 <= j < 6 && FieldsOf(u)[j] == Decimal(v) && v < bound
    ensures Number(CutFields(FieldsOf(u), k, q), j, bound) == v <==> Stays(u, k, q, j)
  {
    hide AtoiValue, Decimal;
    NumberBack(v);
    DecimalZero(v);
    if j == k && q != [] {
      NumberCut(v, q);
    }
  }

  lemma TextStays(u: User, k: nat, q: Bytes, j: nat)
    requires UserOk(u) && k < 8 && q <= FieldsOf(u)[k] && 6 <= j < 8
    ensures var ts := CutFields(FieldsOf(u), k, q);
            (if j < |ts| then ts[j] else DefaultText(j)) == FieldsOf(u)[j] <==> Stays(u, k, q, j)
  {
    UserFieldsFit(u);
    hide FieldsOf;
  }

  // A root user's home is "/" whatever the file says.
  lemma RootHomeStays(u: User, k: nat, q: Bytes)
    requires UserOk(u) && u.isRoot != 0 && k < 8 && q <= FieldsOf(u)[k]
    ensures Stays(u, k, q, 6)
  {
    assert FieldsOf(u)[6] == SLASH_HOME;
    if k == 6 && q != [] {
      assert q == SLASH_HOME;
    }
  }

  // A cut line reads as the user exactly when every field of it stays.
  lemma CutReads(u: User, k: nat, q: Bytes)
    requires UserOk(u) && k < 8 && q <= FieldsOf(u)[k]
    ensures ParseLine(CutText(FieldsOf(u), k, q)) == Some(u)
      <==> (k > 1 || (k == 1 && q == u.password)) && forall j :: 2 <= j < 8 ==> Stays(u, k, q, j)
  {
    hide TokensOf, AtoiValue, Decimal, JoinFields, Stays, Number, DefaultText;
    var fs := FieldsOf(u);
    UserFieldsFit(u);
    CutTokens(fs, k, q);
    var ts := CutFields(fs, k, q);
    NumberStays(u, k, q, 2, u.uid, 0x1_0000_0000);
    NumberStays(u, k, q, 3, u.gid, 0x1_0000_0000);
    NumberStays(u, k, q, 4, u.isRoot, 0x100);
    NumberStays(u, k, q, 5, u.inSudo, 0x100);
    TextStays(u, k, q, 6);
    TextStays(u, k, q, 7);
    Defaults();
    PartsFit(u, k, q);
    if u.isRoot != 0 {
      RootHomeStays(u, k, q);
    }
  }

  lemma Defaults()
    ensures DefaultText(6) == SLASH_HOME && DefaultText(7) == KSH
  {
  }

  // No field is cut by its buffer.
  lemma PartsFit(u: User, k: nat, q: Bytes)
    requires UserOk(u) && k < 8 && q <= FieldsOf(u)[k]
    ensures var ts := CutFields(FieldsOf(u), k, q);
            && (0 < |ts| ==> Upto(ts[0], NAME_MAX) == ts[0]) && (1 < |ts| ==> Upto(ts[1], NAME_MAX) == ts[1])
            && Upto(if 6 < |ts| then ts[6] else SLASH_HOME, HOME_MAX) == (if 6 < |ts| then ts[6] else SLASH_HOME)
            && Upto(if 7 < |ts| then ts[7] else KSH, NAME_MAX) == (if 7 < |ts| then ts[7] else KSH)
  {
  }

  lemma UserFieldsFit(u: User)
    requires UserOk(u)
    ensures FieldsFit(FieldsOf(u))
  {
    hide Decimal;
    NumberBack(u.uid);
    NumberBack(u.gid);
    NumberBack(u.isRoot);
    NumberBack(u.inSudo);
  }

  lemma {:induction false} CutIsPrefix(fs: seq<Bytes>, k: nat, q: Bytes)
    requires fs != [] && k < |fs| && q <= fs[k]
    ensures CutText(fs, k, q) <= JoinFields(fs)
  {
    if k > 0 {
      CutIsPrefix(fs[1..], k - 1, q);
      var part := CutText(fs[1..], k - 1, q);
      assert fs[..k][1..] == fs[1..][..k - 1];
      if k == 1 {
        OneField(fs[..1]);
      } else {
        MoreFields(fs[..k]);
      }
      assert CutText(fs, k, q) == fs[0] + ([COLON] + part);
      assert JoinFields(fs) == fs[0] + ([COLON] + JoinFields(fs[1..]));
    } else if |fs| > 1 {
      assert JoinFields(fs) == fs[0] + ([COLON] + JoinFields(fs[1..]));
    }
  }

  lemma {:induction false} EndNext(fs: seq<Bytes>, k: nat)
    requires 1 <= k < |fs|
    ensures JoinFields(fs[..k + 1]) == JoinFields(fs[..k]) + ([COLON] + fs[k])
  {
    if k == 1 {
      assert fs[..2][1..] == [fs[1]] && fs[..1] == [fs[0]];
      OneField([fs[1]]);
    } else {
      EndNext(fs[1..], k - 1);
      assert fs[..k + 1][1..] == fs[1..][..k] && fs[..k][1..] == fs[1..][..k - 1];
      MoreFields(fs[..k]);
      MoreFields(fs[..k + 1]);
      assert fs[0] + [COLON] + (JoinFields(fs[1..][..k - 1]) + ([COLON] + fs[k]))
        == fs[0] + [COLON] + JoinFields(fs[1..][..k - 1]) + ([COLON] + fs[k]);
    }
  }

  // A line cut after w characters reads as the user exactly when w keeps the line.
  lemma LineCutReads(u: User, w: nat)
    requires UserOk(u) && w <= |JoinFields(FieldsOf(u))|
    ensures ParseLine(JoinFields(FieldsOf(u))[..w]) == Some(u) <==> LineKept(u, w)
  {
    hide ParseLine, JoinFields, FieldsOf, Default;
    var fs := FieldsOf(u);
    UserFieldsFit(u);
    if LineKept(u, w) {
      var m :| 2 <= m <= 8 && w - 1 <= FieldsEnd(u, m) <= w && forall k :: m <= k < 8 ==> Default(u, k);
      KeptReads(u, w, m);
    }
    if ParseLine(JoinFields(fs)[..w]) == Some(u) {
      var k, q := CutShape(fs, w);
      CutReads(u, k, q);
      ReadIsKept(u, k, q);
    }
  }

  lemma KeptReads(u: User, w: nat, m: nat)
    requires UserOk(u) && w <= |JoinFields(FieldsOf(u))| && 2 <= m <= 8
    requires w - 1 <= FieldsEnd(u, m) <= w && forall k :: m <= k < 8 ==> Default(u, k)
    ensures ParseLine(JoinFields(FieldsOf(u))[..w]) == Some(u)
  {
    hide ParseLine, JoinFields, Default;
    var fs := FieldsOf(u);
    var k, q := m - 1, fs[m - 1];
    EndNext(fs, m - 1);
    if w == FieldsEnd(u, m) + 1 {
      assert fs[..8] == fs;
      k, q := m, [];
    }
    CutReads(u, k, q);
    CutIsPrefix(fs, k, q);
    assert CutText(fs, k, q) == JoinFields(fs)[..w];
  }

  lemma ReadIsKept(u: User, k: nat, q: Bytes)
    requires UserOk(u) && k < 8 && q <= FieldsOf(u)[k]
    requires (k > 1 || (k == 1 && q == u.password)) && forall j :: 2 <= j < 8 ==> Stays(u, k, q, j)
    ensures LineKept(u, |CutText(FieldsOf(u), k, q)|)
  {
    hide JoinFields, Default;
    var fs := FieldsOf(u);
    EndNext(fs, k);
    var m := if q == fs[k] then k + 1 else k;
    if k > 1 {
      assert Stays(u, k, q, k);
    }
    forall j | m <= j < 8
      ensures Default(u, j)
    {
      assert Stays(u, k, q, j);
    }
    var w := |CutText(fs, k, q)|;
    assert w - 1 <= FieldsEnd(u, m) <= w;
  }

  // ------------------------------------------------------------------ the whole file cut short

  // Users printed in full come back whatever follows them.
  lemma {:induction false} UsersThen(vs: seq<User>, rest: Bytes, n: nat)
    requires UsersOk(vs) && |vs| <= n
    ensures UsersOf(PasswdText(vs) + rest, n) == vs + UsersOf(rest, n - |vs|)
    decreases |vs|
  {
    hide JoinFields, FieldsOf, ParseLine, UserOk, UsersOf;
    if vs == [] {
      assert PasswdText(vs) + rest == rest;
    } else {
      assert UserOk(vs[0]);
      var line, more := JoinFields(FieldsOf(vs[0])), PasswdText(vs[1..]) + rest;
      LineIsOne(vs[0]);
      assert PasswdText(vs) + rest == line + ([LINE_END] + more);
      FirstUser(line, more, n);
      LineComesBack(vs[0]);
      UsersThen(vs[1..], rest, n - 1);
      assert [vs[0]] + (vs[1..] + UsersOf(rest, n - |vs|)) == vs + UsersOf(rest, n - |vs|);
    }
  }

  lemma LastUser(line: Bytes, n: nat)
    requires LINE_END !in line && n > 0
    ensures UsersOf(line, n) ==
            if line == [] then [] else match ParseLine(line) case Some(u) => [u] case None => []
  {
    hide ParseLine;
    if line != [] {
      assert line + [] == line && line[..|line|] == line;
      FirstIndexJoin(line, [], LINE_END);
      NoUsers(n);
      NoUsers(n - 1);
    }
  }

  // A text cut inside the lines of vs holds no more than |vs| users.
  lemma {:induction false} FewerUsers(vs: seq<User>, w: nat, n: nat)
    requires UsersOk(vs) && w <= |PasswdText(vs)|
    ensures |UsersOf(PasswdText(vs)[..w], n)| <= |vs|
    decreases |vs|
  {
    hide JoinFields, FieldsOf, ParseLine, UserOk, UsersOf;
    if n > 0 {
      NoUsers(n);
      if vs != [] {
        assert UserOk(vs[0]);
        var line, more := JoinFields(FieldsOf(vs[0])), PasswdText(vs[1..]);
        LineIsOne(vs[0]);
        assert PasswdText(vs) == line + ([LINE_END] + more);
        if w <= |line| {
          assert PasswdText(vs)[..w] == line[..w];
          LastUser(line[..w], n);
        } else {
          var v := w - |line| - 1;
          assert PasswdText(vs)[..w] == line + ([LINE_END] + more[..v]);
          FirstUser(line, more[..v], n);
          LineComesBack(vs[0]);
          FewerUsers(vs[1..], v, n - 1);
        }
      }
    }
  }

  // The first w characters of a table's text give the table exactly when the cut keeps its last line.
  lemma CutComesBack(us: seq<User>, w: nat, n: nat)
    requires UsersOk(us) && 1 <= |us| <= n && w <= |PasswdText(us)|
    ensures UsersOf(PasswdText(us)[..w], n) == us <==> CutKeeps(us, w)
  {
    hide JoinFields, FieldsOf, ParseLine, UserOk, UsersOf, LineKept, PasswdText;
    var init, u := us[..|us| - 1], us[|us| - 1];
    assert us == init + [u] && UserOk(u);
    PasswdTextSnoc(init, u);
    var head, line := PasswdText(init), JoinFields(FieldsOf(u));
    if w < |head| {
      assert PasswdText(us)[..w] == head[..w];
      FewerUsers(init, w, n);
    } else {
      var v := w - |head|;
      assert PasswdText(us)[..w] == head + (line + [LINE_END])[..v];
      UsersThen(init, (line + [LINE_END])[..v], n);
      LastLine(u, v, n - |init|);
      assert init + [u] == us;
    }
  }

  lemma LastLine(u: User, v: nat, n: nat)
    requires UserOk(u) && n > 0 && v <= |JoinFields(FieldsOf(u))| + 1
    ensures UsersOf((JoinFields(FieldsOf(u)) + [LINE_END])[..v], n) == [u] <==> LineKept(u, v)
  {
    hide JoinFields, FieldsOf, ParseLine, UserOk, UsersOf;
    var line := JoinFields(FieldsOf(u));
    LineIsOne(u);
    LineComesBack(u);
    NoUsers(n - 1);
    assert FieldsOf(u)[..8] == FieldsOf(u);
    assert FieldsEnd(u, 8) == |line|;
    if v == |line| + 1 {
      assert (line + [LINE_END])[..v] == line + ([LINE_END] + []);
      FirstUser(line, [], n);
    } else {
      assert (line + [LINE_END])[..v] == line[..v];
      LastUser(line[..v], n);
      LineCutReads(u, v);
      if v == 0 {
        EndsAreLong(u);
      }
    }
  }

  lemma EndsAreLong(u: User)
    requires UserOk(u)
    ensures !LineKept(u, 0)
  {
    hide FieldsOf;
    UserFieldsFit(u);
    forall m | 2 <= m <= 8
      ensures FieldsEnd(u, m) > 0
    {
      MoreFields(FieldsOf(u)[..m]);
    }
  }

  // A table of at most one character too many loses its last newline only.
  lemma WholeIsKept(us: seq<User>, w: nat)
    requires us != [] && |PasswdText(us)| - 1 <= w <= |PasswdText(us)|
    ensures CutKeeps(us, w)
  {
    hide JoinFields, FieldsOf, PasswdText;
    var init, u := us[..|us| - 1], us[|us| - 1];
    assert us == init + [u];
    PasswdTextSnoc(init, u);
    assert FieldsOf(u)[..8] == FieldsOf(u);
    var v := w - |PasswdText(init)|;
    assert v - 1 <= FieldsEnd(u, 8) <= v;
  }

  // ------------------------------------------------------------------ atoi stays defined on a cut file

  lemma CutNumbersFit(u: User, w: nat)
    requires UserOk(u) && w <= |JoinFields(FieldsOf(u))|
    ensures LineNumbersFit(JoinFields(FieldsOf(u))[..w])
  {
    hide JoinFields, TokensOf, AtoiValue, Decimal;
    var fs := FieldsOf(u);
    UserFieldsFit(u);
    var k, q := CutShape(fs, w);
    CutTokens(fs, k, q);
    PartFits(u, k, q, 2, u.uid);
    PartFits(u, k, q, 3, u.gid);
    PartFits(u, k, q, 4, u.isRoot);
    PartFits(u, k, q, 5, u.inSudo);
  }

  lemma PartFits(u: User, k: nat, q: Bytes, j: nat, v: nat)
    requires k < 8 && q <= FieldsOf(u)[k] && 2 <= j < 6 && FieldsOf(u)[j] == Decimal(v) && v < INT_LIMIT
    ensures var ts := CutFields(FieldsOf(u), k, q); j < |ts| ==> -INT_LIMIT < AtoiValue(ts[j]) < INT_LIMIT
  {
    hide AtoiValue, Decimal;
    NumberBack(v);
    if j == k && q != [] {
      NumberCut(v, q);
    }
  }

  lemma OneLineFits(line: Bytes)
    requires LINE_END !in line && LineNumbersFit(line)
    ensures NumbersFit(line)
  {
    hide LineNumbersFit;
    if line != [] {
      assert line + [] == line && line[..|line|] == line;
      FirstIndexJoin(line, [], LINE_END);
    }
  }

  lemma NextLinesFit(line: Bytes, rest: Bytes)
    requires LINE_END !in line && LineNumbersFit(line) && NumbersFit(rest)
    ensures NumbersFit(line + ([LINE_END] + rest))
  {
    hide LineNumbersFit;
    var text := line + ([LINE_END] + rest);
    FirstIndexJoin(line, [LINE_END] + rest, LINE_END);
    assert text[..|line|] == line && text[|line| + 1..] == rest;
  }

  lemma {:induction false} CutFileNumbersFit(us: seq<User>, w: nat)
    requires UsersOk(us) && w <= |PasswdText(us)|
    ensures NumbersFit(PasswdText(us)[..w])
    decreases |us|
  {
    hide JoinFields, FieldsOf, UserOk, LineNumbersFit;
    if us != [] {
      assert UserOk(us[0]);
      var line, more := JoinFields(FieldsOf(us[0])), PasswdText(us[1..]);
      LineIsOne(us[0]);
      assert PasswdText(us) == line + ([LINE_END] + more);
      if w <= |line| {
        assert PasswdText(us)[..w] == line[..w];
        CutNumbersFit(us[0], w);
        OneLineFits(line[..w]);
      } else {
        var v := w - |line| - 1;
        assert PasswdText(us)[..w] == line + ([LINE_END] + more[..v]);
        UserNumbersFit(us[0]);
        CutFileNumbersFit(us[1..], v);
        NextLinesFit(line, more[..v]);
      }
    }
  }
}
