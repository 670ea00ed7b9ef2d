/** The user table and the passwd file it is kept in (kernel/user.c). */
module Users {
  import opened Bytes
  import opened CString
  import opened Passwd
  import opened PasswdCuts
  import opened Paths
  import opened Sessions
  import opened TextFiles
  import SessionLaws
  import opened StoreModel
  import opened DirentBlock

  const PASSWD: Bytes := ['/', 'e', 't', 'c', '/', 'p', 'a', 's', 's', 'w', 'd']
  const HOME_FORMAT: Bytes := ['/', 'h', 'o', 'm', 'e', '/', '%', 's']
  const NOBODY := -1
  const NOBODY_NAME: Bytes := ['n', 'o', 'b', 'o', 'd', 'y']

  // ------------------------------------------------------------------ the table as a list

  // The first user of that name.
  ghost function IndexOf(us: seq<User>, name: Bytes): (k: nat)
    ensures k <= |us| && (forall i :: 0 <= i < k ==> us[i].name != name) && (k < |us| ==> us[k].name == name)
  {
    if us == [] || us[0].name == name then 0 else 1 + IndexOf(us[1..], name)
  }

  lemma {:induction false} IndexIs(us: seq<User>, name: Bytes, k: nat)
    requires k <= |us| && (forall i :: 0 <= i < k ==> us[i].name != name) && (k < |us| ==> us[k].name == name)
    ensures IndexOf(us, name) == k
  {
    if k > 0 {
      IndexIs(us[1..], name, k - 1);
    }
  }

  // The first user of that name and password.
  ghost function LoginIndex(us: seq<User>, name: Bytes, password: Bytes): (k: nat)
    ensures k <= |us| && (k < |us| ==> us[k].name == name && us[k].password == password)
    ensures forall i :: 0 <= i < k ==> !(us[i].name == name && us[i].password == password)
  {
    if us == [] || (us[0].name == name && us[0].password == password) then 0 else 1 + LoginIndex(us[1..], name, password)
  }

  lemma {:induction false} LoginIndexIs(us: seq<User>, name: Bytes, password: Bytes, k: nat)
    requires k <= |us| && (k < |us| ==> us[k].name == name && us[k].password == password)
    requires forall i :: 0 <= i < k ==> !(us[i].name == name && us[i].password == password)
    ensures LoginIndex(us, name, password) == k
  {
    if k > 0 {
      LoginIndexIs(us[1..], name, password, k - 1);
    }
  }

  function NewUser(count: nat, name: Bytes, password: Bytes, isRoot: U8): User
    requires count < MAX_USERS
  {
    var uid := if isRoot != 0 then 0 else 1000 + count - 1;
    User(Upto(name, NAME_MAX), Upto(password, NAME_MAX), uid, uid, isRoot, 0,
         if isRoot != 0 then SLASH_HOME else Upto(HOME + name, HOME_MAX), KSH)
  }

  ghost function Added(us: seq<User>, name: Bytes, password: Bytes, isRoot: U8): seq<User> {
    if !Accepts(us, name) then us else us + [NewUser(|us|, name, password, isRoot)]
  }

  // There is room in the table and the name is new.
  ghost predicate Accepts(us: seq<User>, name: Bytes) { |us| < MAX_USERS && IndexOf(us, name) == |us| }

  // The files when the table is saved: all but root users were given a home.
  ghost function AfterHome(s: Session, name: Bytes, isRoot: U8): Session
    requires SessionOk(s) && (isRoot == 0 ==> HomeReady(s, name))
  {
    if isRoot != 0 then s else HomePath(s, name)
  }

  ghost predicate AddReady(s: Session, name: Bytes, isRoot: U8)
    requires SessionOk(s)
  {
    (isRoot == 0 ==> HomeReady(s, name)) && SessionOk(AfterHome(s, name, isRoot)) && WriteReady(AfterHome(s, name, isRoot), PASSWD)
  }

  ghost predicate Removable(us: seq<User>, name: Bytes) {
    IndexOf(us, name) < |us| && us[IndexOf(us, name)].isRoot == 0
  }

  ghost function Removed(us: seq<User>, name: Bytes): seq<User> {
    var i := IndexOf(us, name);
    if Removable(us, name) then us[..i] + us[i + 1..] else us
  }

  ghost function Sudoed(us: seq<User>, name: Bytes): seq<User> {
    var i := IndexOf(us, name);
    if i < |us| then us[i := us[i].(inSudo := 1)] else us
  }

  // ------------------------------------------------------------------ what every operation keeps

  ghost predicate Distinct(us: seq<User>) {
    forall i, j :: 0 <= i < j < |us| ==> us[i].name != us[j].name
  }

  ghost predicate TableOk(us: seq<User>) {
    |us| <= MAX_USERS && UsersOk(us) && Distinct(us)
  }

  lemma NewUserOk(count: nat, name: Bytes, password: Bytes, isRoot: U8)
    requires count < MAX_USERS && FieldOk(name, NAME_MAX) && FieldOk(password, NAME_MAX)
    ensures UserOk(NewUser(count, name, password, isRoot)) && NewUser(count, name, password, isRoot).name == name
  {
    assert FieldOk(HOME + name, HOME_MAX);
    assert FieldOk(KSH, NAME_MAX);
  }

  lemma AddKeeps(us: seq<User>, name: Bytes, password: Bytes, isRoot: U8)
    requires TableOk(us) && FieldOk(name, NAME_MAX) && FieldOk(password, NAME_MAX)
    ensures TableOk(Added(us, name, password, isRoot))
  {
    hide UserOk;
    if |us| < MAX_USERS {
      NewUserOk(|us|, name, password, isRoot);
    }
  }

  // Names are compared whole and stored cut, so they stay distinct exactly when the cut name is new as well.
  lemma AddDistinctExact(us: seq<User>, name: Bytes, password: Bytes, isRoot: U8)
    requires Distinct(us) && Accepts(us, name)
    ensures Distinct(Added(us, name, password, isRoot)) <==> IndexOf(us, Upto(name, NAME_MAX)) == |us|
  {
    hide IndexOf, Distinct;
    DistinctSnoc(us, NewUser(|us|, name, password, isRoot));
  }

  lemma DistinctSnoc(us: seq<User>, u: User)
    requires Distinct(us)
    ensures Distinct(us + [u]) <==> IndexOf(us, u.name) == |us|
  {
    hide IndexOf;
    var vs, k := us + [u], IndexOf(us, u.name);
    assert vs[|us|] == u && forall i :: 0 <= i < |us| ==> vs[i] == us[i];
    if k < |us| {
      assert vs[k].name == vs[|us|].name;
    }
  }

  lemma RemoveKeeps(us: seq<User>, name: Bytes)
    requires TableOk(us)
    ensures TableOk(Removed(us, name))
    ensures Removable(us, name) ==> IndexOf(Removed(us, name), name) == |Removed(us, name)|
  {
    hide UserOk;
    var vs := Removed(us, name);
    if Removable(us, name) {
      var i := IndexOf(us, name);
      assert forall j :: 0 <= j < |vs| ==> vs[j] == us[if j < i then j else j + 1];
      IndexIs(vs, name, |vs|);
    }
  }

  lemma SudoKeeps(us: seq<User>, name: Bytes)
    requires TableOk(us)
    ensures TableOk(Sudoed(us, name))
  {
    var i := IndexOf(us, name);
    if i < |us| {
      assert UserOk(us[i]);
    }
  }

  // The array of records after user i of the first count went: later users move down, and the last slot is not cleared.
  ghost function Closed(slots: seq<User>, count: nat, i: nat): (out: seq<User>)
    requires i < count <= |slots|
    ensures |out| == |slots|
  {
    slots[..i] + slots[i + 1..count] + slots[count - 1..]
  }

  // The record at an index other than the removed one stays exactly when the index is below it, or is the last one
  // in use or behind it: the last user stays readable in the slot that is given up.
  lemma LoginAfterRemoval(slots: seq<User>, count: nat, name: Bytes, current: nat)
    requires count <= |slots| && TableOk(slots[..count]) && Removable(slots[..count], name)
    requires current < |slots| && current != IndexOf(slots[..count], name)
    ensures var i := IndexOf(slots[..count], name);
            Closed(slots, count, i)[current] == slots[current] <==> current < i || current >= count - 1
  {
    hide IndexOf, UsersOk;
    var us, i := slots[..count], IndexOf(slots[..count], name);
    if i < current < count - 1 {
      assert Closed(slots, count, i)[current] == us[current + 1];
      assert us[current].name != us[current + 1].name;
    }
  }

  // ------------------------------------------------------------------ saving and loading

  // The users the passwd file holds; none when there is no file.
  ghost function FileUsers(s: Session): seq<User>
    requires ReadReady(s, PASSWD)
  {
    if Resolve(s.tree, s.dir, PASSWD) == NO_ENTRY then []
    else UsersOf(FileText(s, PASSWD, PASSWD_BUFFER), MAX_USERS)
  }

  // The text users_save writes.
  ghost function SavedText(us: seq<User>): Bytes { Upto(PasswdText(us), PASSWD_BUFFER - 1) }

  // The file can be written: it is there, or its directory has room for it.
  ghost predicate CanBeSaved(s: Session) {
    Resolve(s.tree, s.dir, PASSWD) != NO_ENTRY || SessionLaws.ParentHasRoom(s, PASSWD)
  }

  // Loading what was saved gives the same table exactly when: an empty table met a file without users; any other one
  // could be written and was not cut, or cut where its last line stays.
  lemma SaveExact(s: Session, us: seq<User>)
    requires SessionOk(s) && WriteReady(s, PASSWD) && TableOk(us)
    ensures var u := WritePath(s, PASSWD, SavedText(us));
            && ReadReady(s, PASSWD) && ReadReady(u, PASSWD)
            && (FileUsers(u) == us <==>
                if us == [] then FileUsers(s) == [] else CanBeSaved(s) && CutKeeps(us, |SavedText(us)|))
            && (us != [] && CanBeSaved(s) ==>
                  Resolve(u.tree, u.dir, PASSWD) != NO_ENTRY && NumbersFit(FileText(u, PASSWD, PASSWD_BUFFER)))
  {
    hide SessionOk, WriteReady, ReadReady, WritePath, Resolve, SessionLaws.ParentHasRoom, FileText, PasswdText, UsersOf;
    hide NumbersFit, CutKeeps, UserOk;
    WriterReads(s);
    if us == [] {
      SavedNothing(s);
    } else if CanBeSaved(s) {
      SavedSomething(s, us);
    } else {
      SavedNowhere(s, SavedText(us));
    }
  }

  lemma WriterReads(s: Session)
    requires WriteReady(s, PASSWD)
    ensures ReadReady(s, PASSWD)
  {
  }

  lemma SavedSomething(s: Session, us: seq<User>)
    requires SessionOk(s) && WriteReady(s, PASSWD) && CanBeSaved(s) && us != [] && TableOk(us)
    ensures var u := WritePath(s, PASSWD, SavedText(us));
            && ReadReady(u, PASSWD) && Resolve(u.tree, u.dir, PASSWD) != NO_ENTRY
            && NumbersFit(FileText(u, PASSWD, PASSWD_BUFFER))
            && (FileUsers(u) == us <==> CutKeeps(us, |SavedText(us)|))
  {
    hide SessionOk, WriteReady, ReadReady, WritePath, Resolve, SessionLaws.ParentHasRoom, Target, PasswdText, UserOk;
    hide Padded, Slice, UsersOf, NumbersFit, CutKeeps;
    var text := SavedText(us);
    TextIsNotEmpty(us);
    SessionLaws.WriteThenRead(s, PASSWD, text, PASSWD_BUFFER - 1);
    SessionLaws.WriteSucceeds(s, PASSWD, text);
    TextNulFree(us);
    assert text == PasswdText(us)[..|text|] && text[..|text|] == text;
    ReadBack(text, PASSWD_BUFFER - 1);
    CutComesBack(us, |text|, MAX_USERS);
    CutFileNumbersFit(us, |text|);
  }

  // Saving an empty table leaves an existing file as it was and makes a missing one at most empty.
  lemma SavedNothing(s: Session)
    requires SessionOk(s) && WriteReady(s, PASSWD)
    ensures SavedText([]) == [] && ReadReady(s, PASSWD)
    ensures var u := WritePath(s, PASSWD, []); ReadReady(u, PASSWD) && FileUsers(u) == FileUsers(s)
  {
    hide Walkable, Resolve, ParentReady, SessionOk, UsersOf, BaseName, ParentOf;
    SessionLaws.OpenedOk(s, PASSWD);
    NoUsers(MAX_USERS);
    if Resolve(s.tree, s.dir, PASSWD) != NO_ENTRY {
      SessionLaws.OpenedExisting(s, PASSWD);
    } else if HasParent(s, PASSWD) {
      SessionLaws.OpenedNew(s, PASSWD);
      NewFileIsEmpty(s);
    } else {
      SessionLaws.OpenedNowhere(s, PASSWD);
    }
  }

  lemma NewFileIsEmpty(s: Session)
    requires SessionOk(s) && WriteReady(s, PASSWD) && Resolve(s.tree, s.dir, PASSWD) == NO_ENTRY && HasParent(s, PASSWD)
    ensures var o, n := Opened(s, PASSWD), Target(s, PASSWD);
            n != NO_ENTRY ==> IsFile(o.tree, n) && o.tree.nodes[n].body.bytes == []
  {
    hide Walkable, Resolve, TreeOk;
    SessionLaws.OpenedNew(s, PASSWD);
    SessionLaws.BaseNameValid(PASSWD);
    Paths.ParentAgrees(s.tree, s.dir, PASSWD);
    SessionLaws.CreatedLookup(s.tree, ParentOf(s.tree, s.dir, PASSWD), BaseName(PASSWD));
  }

  lemma SavedNowhere(s: Session, data: Bytes)
    requires SessionOk(s) && WriteReady(s, PASSWD) && !CanBeSaved(s)
    ensures var u := WritePath(s, PASSWD, data); ReadReady(u, PASSWD) && FileUsers(u) == []
  {
    hide Walkable, Resolve, ParentReady, SessionOk, UsersOf, BaseName, ParentOf;
    SessionLaws.OpenedOk(s, PASSWD);
    if HasParent(s, PASSWD) {
      SessionLaws.OpenedNew(s, PASSWD);
    } else {
      SessionLaws.OpenedNowhere(s, PASSWD);
    }
  }

  lemma TextIsNotEmpty(us: seq<User>)
    ensures us != [] ==> PasswdText(us) != []
  {
  }

  // A table whose text has at most 4096 characters survives a save and a load.
  lemma TableSurvives(s: Session, us: seq<User>)
    requires SessionOk(s) && WriteReady(s, PASSWD) && CanBeSaved(s)
    requires us != [] && TableOk(us) && |PasswdText(us)| <= PASSWD_BUFFER
    ensures var u := WritePath(s, PASSWD, SavedText(us)); ReadReady(u, PASSWD) && FileUsers(u) == us
  {
    hide SessionOk, WriteReady, ReadReady, WritePath, CanBeSaved, FileUsers, PasswdText, TableOk, CutKeeps, FileText, Resolve, NumbersFit;
    SaveExact(s, us);
    WholeIsKept(us, |SavedText(us)|);
  }
}
