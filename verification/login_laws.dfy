/** What a new record holds and who may log in with it; what sudo and removal do to a table (kernel/user.c:76-148). */
module LoginLaws {
  import opened Bytes
  import opened Passwd
  import opened PasswdCuts
  import opened Users
  import opened Numerals
  import Tokens
  import opened Sessions

  function FirstOf(s: Bytes, n: nat): Bytes { if |s| <= n then s else s[..n] }

  // ------------------------------------------------------------------ a new user

  // The record of a user added to a table of so many.
  ghost predicate NewRecord(u: User, count: nat, name: Bytes, password: Bytes, isRoot: U8) {
    && u.name == FirstOf(name, 31) && u.password == FirstOf(password, 31)
    && u.isRoot == isRoot && u.inSudo == 0 && u.gid == u.uid && u.uid == (if isRoot != 0 then 0 else 999 + count)
    && u.home == (if isRoot != 0 then ['/'] else FirstOf(['/', 'h', 'o', 'm', 'e', '/'] + name, 39))
    && u.shell == ['/', 'b', 'i', 'n', '/', 'k', 's', 'h']
  }

  // What user_add leaves in the table: the old users and, if there was room and the name was new, that record behind them.
  ghost predicate UserAdded(us: seq<User>, vs: seq<User>, name: Bytes, password: Bytes, isRoot: U8, rc: int) {
    && (rc == 0 <==> |us| < 50 && forall i :: 0 <= i < |us| ==> us[i].name != name)
    && (rc == 0 ==> |vs| == |us| + 1 && vs[..|us|] == us && NewRecord(vs[|us|], |us|, name, password, isRoot))
    && (rc != 0 ==> rc == -1 && vs == us)
  }

  lemma AddDone(us: seq<User>, name: Bytes, password: Bytes, isRoot: U8)
    ensures UserAdded(us, Added(us, name, password, isRoot), name, password, isRoot, if Accepts(us, name) then 0 else -1)
  {
    hide IndexOf;
    if Accepts(us, name) {
      assert NewRecord(NewUser(|us|, name, password, isRoot), |us|, name, password, isRoot);
    }
  }

  // The new user logs in with the password given, as far as it is stored, and with no other.
  lemma NewUserLogsIn(us: seq<User>, vs: seq<User>, name: Bytes, password: Bytes, isRoot: U8, p: Bytes)
    requires UserAdded(us, vs, name, password, isRoot, 0) && |name| <= 31
    ensures LoginIndex(vs, name, p) < |vs| <==> p == FirstOf(password, 31)
    ensures LoginIndex(vs, name, p) < |vs| ==>
              LoginIndex(vs, name, p) == |us| && NewRecord(vs[LoginIndex(vs, name, p)], |us|, name, password, isRoot)
  {
    hide LoginIndex;
    var k := LoginIndex(vs, name, p);
    assert forall i :: 0 <= i < |us| ==> vs[i] == vs[..|us|][i] == us[i];
    if p == FirstOf(password, 31) {
      LoginIndexIs(vs, name, p, |us|);
    }
  }

  // The same after the table was saved and loaded, when it survives that.
  lemma LogsInAfterLoad(s: Session, us: seq<User>, vs: seq<User>, name: Bytes, password: Bytes, isRoot: U8, p: Bytes)
    requires SessionOk(s) && WriteReady(s, PASSWD) && CanBeSaved(s) && TableOk(vs)
    requires UserAdded(us, vs, name, password, isRoot, 0) && |name| <= 31 && CutKeeps(vs, |SavedText(vs)|)
    ensures var t := WritePath(s, PASSWD, SavedText(vs)); ReadReady(t, PASSWD)
    ensures var ws := FileUsers(WritePath(s, PASSWD, SavedText(vs)));
            && ws == vs && (LoginIndex(ws, name, p) < |ws| <==> p == FirstOf(password, 31))
            && (LoginIndex(ws, name, p) < |ws| ==>
                  LoginIndex(ws, name, p) == |us| && NewRecord(ws[|us|], |us|, name, password, isRoot))
  {
    hide SessionOk, WriteReady, ReadReady, WritePath, CanBeSaved, FileUsers, TableOk, CutKeeps, SavedText, LoginIndex;
    SaveExact(s, vs);
    NewUserLogsIn(us, vs, name, password, isRoot, p);
  }

  // ------------------------------------------------------------------ sudo and removal

  ghost predicate FirstUser(us: seq<User>, name: Bytes, k: nat) {
    k < |us| && us[k].name == name && forall i :: 0 <= i < k ==> us[i].name != name
  }

  // The first user of that name is marked; nothing else changes, and without such a user nothing at all.
  ghost predicate Marked(us: seq<User>, vs: seq<User>, name: Bytes, rc: int) {
    && |vs| == |us| && (rc == 0 || rc == -1) && (rc == 0 <==> exists k: nat :: FirstUser(us, name, k))
    && forall k :: 0 <= k < |us| ==>
         vs[k].inSudo == (if FirstUser(us, name, k) then 1 else us[k].inSudo) && vs[k].(inSudo := us[k].inSudo) == us[k]
  }

  lemma SudoDone(us: seq<User>, name: Bytes)
    ensures Marked(us, Sudoed(us, name), name, if IndexOf(us, name) < |us| then 0 else -1)
  {
    hide IndexOf;
    if IndexOf(us, name) < |us| {
      assert FirstUser(us, name, IndexOf(us, name));
    }
  }

  // The first user of that name goes if it is no root user; all others stay, in their order.
  ghost predicate Unlisted(us: seq<User>, vs: seq<User>, name: Bytes, rc: int) {
    && (rc == 0 || rc == -1)
    && (rc == 0 ==> exists k: nat :: FirstUser(us, name, k) && us[k].isRoot == 0 && vs == us[..k] + us[k + 1..])
    && (rc == -1 ==> vs == us && forall k: nat :: FirstUser(us, name, k) ==> us[k].isRoot != 0)
  }

  lemma RemoveDone(us: seq<User>, name: Bytes)
    ensures Unlisted(us, Removed(us, name), name, if Removable(us, name) then 0 else -1)
  {
    hide IndexOf;
    var i := IndexOf(us, name);
    if i < |us| {
      assert FirstUser(us, name, i);
    }
  }

  // No removal takes a root user.
  lemma RootStays(us: seq<User>, vs: seq<User>, name: Bytes, rc: int, u: User)
    requires Unlisted(us, vs, name, rc) && u in us && u.isRoot != 0
    ensures u in vs
  {
    if rc == 0 {
      var k: nat :| FirstUser(us, name, k) && us[k].isRoot == 0 && vs == us[..k] + us[k + 1..];
      var i :| 0 <= i < |us| && us[i] == u;
      assert i < k ==> us[..k][i] == u;
      assert i > k ==> us[k + 1..][i - k - 1] == u;
    }
  }

  // ------------------------------------------------------------------ the line of a user

  // Eight fields in this order, with colons between them, a newline at the end.
  lemma LineIs(u: User)
    ensures PasswdText([u]) ==
            u.name + [':'] + u.password + [':'] + Decimal(u.uid) + [':'] + Decimal(u.gid) + [':'] + Decimal(u.isRoot) + [':']
            + Decimal(u.inSudo) + [':'] + u.home + [':'] + u.shell + ['\n']
  {
    hide Decimal, JoinFields;
    var ts := FieldsOf(u);
    assert [u][1..] == [];
    JoinEight(ts);
  }

  lemma JoinEight(ts: seq<Bytes>)
    requires |ts| == 8
    ensures JoinFields(ts) == ts[0] + [':'] + ts[1] + [':'] + ts[2] + [':'] + ts[3] + [':'] + ts[4] + [':'] + ts[5] + [':'] + ts[6]
                              + [':'] + ts[7]
  {
    hide JoinFields;
    EndNext(ts, 1);
    EndNext(ts, 2);
    EndNext(ts, 3);
    EndNext(ts, 4);
    EndNext(ts, 5);
    EndNext(ts, 6);
    EndNext(ts, 7);
    OneField(ts[..1]);
    assert ts[..8] == ts;
  }

  // What a line of two to eight fields says; fields that are missing are zero, "/" and the shell.
  lemma FieldsRead(ts: seq<Bytes>)
    requires 2 <= |ts| <= 8 && forall i :: 0 <= i < |ts| ==> ts[i] != [] && ':' !in ts[i]
    ensures ParseLine(JoinFields(ts)).Some?
    ensures var u := ParseLine(JoinFields(ts)).value;
            && u.name == FirstOf(ts[0], 31) && u.password == FirstOf(ts[1], 31)
            && u.uid == (if |ts| > 2 then AtoiValue(ts[2]) % 0x1_0000_0000 else 0)
            && u.gid == (if |ts| > 3 then AtoiValue(ts[3]) % 0x1_0000_0000 else 0)
            && u.isRoot == (if |ts| > 4 then AtoiValue(ts[4]) % 0x100 else 0)
            && u.inSudo == (if |ts| > 5 then AtoiValue(ts[5]) % 0x100 else 0)
            && u.home == (if u.isRoot != 0 || |ts| <= 6 then ['/'] else FirstOf(ts[6], 39))
            && u.shell == if |ts| > 7 then FirstOf(ts[7], 31) else ['/', 'b', 'i', 'n', '/', 'k', 's', 'h']
  {
    hide JoinFields, Tokens.TokensOf, AtoiValue;
    FieldsComeApart(ts);
  }

  // A line of one field, or none, is nobody's.
  lemma ShortLine(ts: seq<Bytes>)
    requires |ts| == 1 && ':' !in ts[0]
    ensures ParseLine(ts[0]) == None && ParseLine([]) == None
  {
    hide Tokens.TokensOf;
    Tokens.EmptyTokens(COLONS);
    if ts[0] != [] {
      FieldsComeApart(ts);
      OneField(ts);
    }
  }
}
