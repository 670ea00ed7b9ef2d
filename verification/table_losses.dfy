/** Tables user_add builds that a removal or the passwd file treats badly (kernel/user.c:54-124). */
module TableLosses {
  import opened Bytes
  import opened CString
  import opened Numerals
  import opened DirentBlock
  import opened InodeTable
  import opened StoreModel
  import opened Paths
  import opened Sessions
  import opened SessionLaws
  import opened RootLaws
  import opened Passwd
  import opened PasswdCuts
  import opened Users
  import NestedNames
  import DirectoryLaws
  import HomeLaws

  const SECRET: Bytes := ['p']

  // ------------------------------------------------------------------ who is logged in

  ghost function Three(): seq<User> {
    Added(Added(Added([], ['a'], SECRET, 0), ['b'], SECRET, 0), ['c'], SECRET, 0)
  }

  lemma ThreeIs()
    ensures Three() == [NewUser(0, ['a'], SECRET, 0), NewUser(1, ['b'], SECRET, 0), NewUser(2, ['c'], SECRET, 0)]
    ensures TableOk(Three())
  {
    hide TableOk;
    TableOfNone();
    ShortNames();
    AddKeeps([], ['a'], SECRET, 0);
    var one := Added([], ['a'], SECRET, 0);
    AddKeeps(one, ['b'], SECRET, 0);
    IndexIs(one, ['b'], 1);
    var two := Added(one, ['b'], SECRET, 0);
    AddKeeps(two, ['c'], SECRET, 0);
    IndexIs(two, ['c'], 2);
  }

  lemma TableOfNone()
    ensures TableOk([])
  {
  }

  lemma ShortNames()
    ensures FieldOk(SECRET, NAME_MAX) && forall c :: 'a' <= c <= 'c' ==> FieldOk([c], NAME_MAX)
  {
  }

  // Three users, the first removed: the middle index now denotes the last user. The last index still shows the last user,
  // whose record stays in the slot given up, until the next user added takes that slot.
  lemma RemovalShifts(slots: seq<User>)
    requires |slots| == MAX_USERS && slots[..3] == Three()
    ensures TableOk(slots[..3]) && Removable(slots[..3], ['a']) && IndexOf(slots[..3], ['a']) == 0
    ensures var now := Closed(slots, 3, 0);
            && now[1] == slots[2] != slots[1] && now[2] == slots[2]
            && Accepts(now[..2], ['d']) && now[2 := NewUser(2, ['d'], SECRET, 0)][2].name == ['d'] != slots[2].name
  {
    hide TableOk;
    ThreeIs();
    IndexIs(Three(), ['a'], 0);
    var now := Closed(slots, 3, 0);
    assert slots[0] == slots[..3][0] && slots[1] == slots[..3][1] && slots[2] == slots[..3][2];
    IndexIs(now[..2], ['d'], 2);
  }

  // ------------------------------------------------------------------ a long name

  function LongUserName(): Bytes { seq(NAME_MAX + 1, i => 'a') }

  // A name of 32 characters is new to the table that holds its first 31.
  lemma SameNameTwice()
    ensures var us := Added([], LongUserName(), SECRET, 0);
            && Accepts(us, LongUserName())
            && !Distinct(Added(us, LongUserName(), SECRET, 0))
  {
    var name, us := LongUserName(), Added([], LongUserName(), SECRET, 0);
    assert us == [NewUser(0, name, SECRET, 0)] && |us[0].name| == NAME_MAX;
    IndexIs(us, name, 1);
    AddDistinctExact(us, name, SECRET, 0);
    IndexIs(us, Upto(name, NAME_MAX), 0);
  }

  // ------------------------------------------------------------------ a full table

  function LongSecret(): Bytes { seq(NAME_MAX, i => 'p') }

  function NameOf(i: nat): Bytes
    requires i < MAX_USERS
  {
    seq(NAME_MAX - 1, j => 'a') + [('A' as int + i) as char]
  }

  ghost function Grown(n: nat): seq<User>
    requires n <= MAX_USERS
  {
    if n == 0 then [] else Added(Grown(n - 1), NameOf(n - 1), LongSecret(), 0)
  }

  lemma LongFieldsOk(i: nat)
    requires i < MAX_USERS
    ensures FieldOk(NameOf(i), NAME_MAX) && FieldOk(LongSecret(), NAME_MAX) && |NameOf(i)| == |LongSecret()| == NAME_MAX
  {
  }

  lemma NamesDiffer(i: nat, j: nat)
    requires i < j < MAX_USERS
    ensures NameOf(i) != NameOf(j)
  {
    assert NameOf(i)[NAME_MAX - 1] != NameOf(j)[NAME_MAX - 1];
  }

  lemma GrownNext(us: seq<User>)
    requires TableOk(us) && |us| < MAX_USERS && forall i :: 0 <= i < |us| ==> us[i].name == NameOf(i)
    ensures var u := NewUser(|us|, NameOf(|us|), LongSecret(), 0);
            Added(us, NameOf(|us|), LongSecret(), 0) == us + [u] && TableOk(us + [u]) && u.name == NameOf(|us|)
  {
    hide TableOk, NameOf, UserOk, IndexOf;
    LongFieldsOk(|us|);
    NewUserOk(|us|, NameOf(|us|), LongSecret(), 0);
    forall i | 0 <= i < |us|
      ensures us[i].name != NameOf(|us|)
    {
      NamesDiffer(i, |us|);
    }
    IndexIs(us, NameOf(|us|), |us|);
    AddKeeps(us, NameOf(|us|), LongSecret(), 0);
  }

  lemma {:induction false} GrownIs(n: nat)
    requires n <= MAX_USERS
    ensures TableOk(Grown(n)) && |Grown(n)| == n
    ensures forall i :: 0 <= i < n ==> Grown(n)[i].name == NameOf(i)
    ensures n > 0 ==> Grown(n) == Grown(n - 1) + [NewUser(n - 1, NameOf(n - 1), LongSecret(), 0)]
  {
    hide TableOk, NameOf, Added, NewUser;
    if n == 0 {
      TableOfNone();
    } else {
      GrownIs(n - 1);
      GrownNext(Grown(n - 1));
    }
  }

  lemma {:induction false} FieldInLine(ts: seq<Bytes>, k: nat)
    requires k < |ts|
    ensures |JoinFields(ts)| >= |ts[k]|
  {
    if k > 0 {
      FieldInLine(ts[1..], k - 1);
    }
  }

  // Name, password and home alone make a hundred characters.
  lemma LongLine(i: nat)
    requires i < MAX_USERS
    ensures |JoinFields(FieldsOf(NewUser(i, NameOf(i), LongSecret(), 0)))| >= 100
  {
    hide NameOf, JoinFields;
    LongFieldsOk(i);
    var u := NewUser(i, NameOf(i), LongSecret(), 0);
    var ts := FieldsOf(u);
    FieldInLine(ts[2..], 4);
    JoinStep(ts);
    JoinStep(ts[1..]);
    assert ts[1..][1..] == ts[2..];
  }

  lemma JoinStep(ts: seq<Bytes>)
    requires |ts| > 1
    ensures |JoinFields(ts)| == |ts[0]| + 1 + |JoinFields(ts[1..])|
  {
  }

  lemma {:induction false} GrownText(n: nat)
    requires n <= MAX_USERS
    ensures |PasswdText(Grown(n))| >= 101 * n
  {
    hide JoinFields, FieldsOf, TableOk, NameOf, NewUser;
    if n > 0 {
      GrownIs(n);
      GrownText(n - 1);
      LongLine(n - 1);
      PasswdTextSnoc(Grown(n - 1), NewUser(n - 1, NameOf(n - 1), LongSecret(), 0));
    }
  }

  // Fifty users with long fields, added one by one, do not fit the file: saved anywhere, they come back as others.
  lemma FullTableIsCut(s: Session)
    requires SessionOk(s) && WriteReady(s, PASSWD)
    ensures var us := Grown(MAX_USERS);
            var u := WritePath(s, PASSWD, SavedText(us));
            TableOk(us) && |us| == MAX_USERS && ReadReady(u, PASSWD) && FileUsers(u) != us
  {
    hide SessionOk, WriteReady, ReadReady, WritePath, CanBeSaved, FileUsers, TableOk, LineKept, Grown;
    var us := Grown(MAX_USERS);
    GrownIs(MAX_USERS);
    assert us[..MAX_USERS - 1] == Grown(MAX_USERS - 1);
    GrownText(MAX_USERS - 1);
    SaveExact(s, us);
  }

  // ------------------------------------------------------------------ an empty table

  const ETC: Bytes := ['e', 't', 'c']

  lemma PasswdParts()
    ensures ParentPath(PASSWD) == [SLASH] + ETC && BaseName(PASSWD) == ['p', 'a', 's', 's', 'w', 'd']
    ensures ValidName(ETC) && SLASH !in ETC && NulFree(PASSWD)
  {
    var front, base := [SLASH] + ETC, ['p', 'a', 's', 's', 'w', 'd'];
    assert PASSWD == front + [SLASH] + base;
    assert PASSWD[4] == SLASH && PASSWD[5..] == base && PASSWD[..4] == front;
  }

  lemma EtcNew()
    ensures NewReady(MountedSession(), ETC, 0) && SessionOk(MkdirPath(MountedSession(), ETC))
    ensures MkdirPath(MountedSession(), ETC).tree.nextBlock <= FIRST_BLOCK + 2
  {
    hide TreeOk;
    EmptyTreeOk();
    PasswdParts();
    NestedNames.EnterNew(MountedSession(), ETC);
  }

  // A session just mounted in which /etc was made.
  ghost function WithEtc(): (s: Session)
    ensures SessionOk(s) && s.tree.nextBlock <= FIRST_BLOCK + 2
  {
    EtcNew();
    MkdirPath(MountedSession(), ETC)
  }

  // The passwd file can be made where /etc is a directory with room and without it.
  lemma PasswdReady(s: Session, etc: nat)
    requires SessionOk(s) && Lookup(s.tree, ROOT, ETC) == etc && HasRoom(s.tree, etc) && Capacity(s.tree, DIRECT)
    requires Lookup(s.tree, etc, BaseName(PASSWD)) == NO_ENTRY
    ensures WriteReady(s, PASSWD) && CanBeSaved(s)
  {
    hide TreeOk, Resolve, Walkable, ParentPath, BaseName, LastIndex;
    RootIsDir(s.tree);
    PasswdParts();
    RootNameResolves(s.tree, s.dir, ETC);
    ParentAgrees(s.tree, s.dir, PASSWD);
  }

  // What making /etc left: its directory is empty, and the root has no other name.
  lemma EtcTree()
    ensures WithEtc().dir == ROOT && WithEtc().tree.nextInode == FIRST_INODE + 1
    ensures var t := WithEtc().tree;
            && Lookup(t, ROOT, ETC) == FIRST_INODE && Lookup(t, ROOT, HOME_NAME) == NO_ENTRY
            && IsDir(t, FIRST_INODE) && Used(t, FIRST_INODE) == 0
            && Lookup(t, FIRST_INODE, BaseName(PASSWD)) == NO_ENTRY
    ensures HasRoom(WithEtc().tree, ROOT)
  {
    hide TreeOk, Resolve, Walkable, ParentPath, BaseName, LastIndex;
    PasswdParts();
    EmptyTreeOk();
    assert Lookup(EmptyTree(), ROOT, ETC) == NO_ENTRY && Lookup(EmptyTree(), ROOT, HOME_NAME) == NO_ENTRY;
    NestedNames.EnterNew(MountedSession(), ETC);
    DirectoryLaws.MkdirNames(EmptyTree(), ROOT, ETC);
    NestedNames.NameParts(MountedSession(), ETC);
    DirectoryLaws.MkdirElsewhere(EmptyTree(), ROOT, ETC, ROOT, HOME_NAME);
    MkdirUsed(EmptyTree(), ROOT, ETC, ROOT);
  }

  // The home of the user is made before the file is saved.
  lemma HomeMade()
    ensures AddReady(WithEtc(), ['a'], 0) && SessionOk(AfterHome(WithEtc(), ['a'], 0))
    ensures WriteReady(AfterHome(WithEtc(), ['a'], 0), PASSWD) && CanBeSaved(AfterHome(WithEtc(), ['a'], 0))
    ensures AfterHome(WithEtc(), ['a'], 0).tree.nextBlock <= FIRST_BLOCK + 6
  {
    hide TreeOk, Resolve, Walkable, ParentPath, BaseName, LastIndex, Lookup, Mkdir, HasRoom, Used;
    EtcTree();
    HomeLaws.HomeIsAName();
    NameResolves(WithEtc().tree, ROOT, HOME_NAME);
    var t := WithEtc().tree;
    EtcKept(t, ROOT, HOME_NAME);
    var u := Mkdir(t, ROOT, HOME_NAME);
    HomeAdded(t);
    EtcKept(u, FIRST_INODE + 1, ['a']);
    HomeLaws.HomeServed(WithEtc(), ['a']);
    PasswdReady(AfterHome(WithEtc(), ['a'], 0), FIRST_INODE);
  }

  lemma HomeAdded(t: Tree)
    requires Mutable(t, ROOT) && HasRoom(t, ROOT) && Lookup(t, ROOT, HOME_NAME) == NO_ENTRY
    ensures var u := Mkdir(t, ROOT, HOME_NAME);
            Lookup(u, ROOT, HOME_NAME) == t.nextInode && IsDir(u, t.nextInode)
  {
    hide TreeOk;
    DirectoryLaws.MkdirNames(t, ROOT, HOME_NAME);
  }

  // Another directory made elsewhere leaves /etc as it is.
  lemma EtcKept(t: Tree, parent: nat, name: Bytes)
    requires Mutable(t, parent) && ValidName(name) && IsDir(t, ROOT) && parent != FIRST_INODE && !(parent == ROOT && name == ETC)
    requires Lookup(t, ROOT, ETC) == FIRST_INODE && IsDir(t, FIRST_INODE) && Used(t, FIRST_INODE) == 0
    requires Lookup(t, FIRST_INODE, BaseName(PASSWD)) == NO_ENTRY
    ensures var u := Mkdir(t, parent, name);
            && TreeOk(u) && IsDir(u, ROOT) && u.nextInode == t.nextInode + 1 && u.nextBlock <= t.nextBlock + 2
            && Lookup(u, ROOT, ETC) == FIRST_INODE && IsDir(u, FIRST_INODE) && Used(u, FIRST_INODE) == 0
            && HasRoom(u, FIRST_INODE) && Lookup(u, FIRST_INODE, BaseName(PASSWD)) == NO_ENTRY
  {
    hide TreeOk, BaseName, Lookup, Extends;
    MkdirKeeps(t, parent, name);
    NestedNames.NewNodeStays(t, parent, name);
    DirectoryLaws.MkdirElsewhere(t, parent, name, ROOT, ETC);
    DirectoryLaws.MkdirElsewhere(t, parent, name, FIRST_INODE, BaseName(PASSWD));
    MkdirUsed(t, parent, name, FIRST_INODE);
    MkdirUsed(t, parent, name, ROOT);
  }

  lemma {:induction false} JoinAtMost(ts: seq<Bytes>, b: nat)
    requires ts != [] && forall i :: 0 <= i < |ts| ==> |ts[i]| <= b
    ensures |JoinFields(ts)| <= |ts| * (b + 1)
  {
    if |ts| > 1 {
      JoinAtMost(ts[1..], b);
    }
  }

  ghost function OneUser(): seq<User> { Added([], ['a'], SECRET, 0) }

  lemma OneUserIs()
    ensures TableOk(OneUser()) && OneUser() == [NewUser(0, ['a'], SECRET, 0)] && Removed(OneUser(), ['a']) == []
    ensures |PasswdText(OneUser())| <= PASSWD_BUFFER
  {
    hide TableOk, JoinFields, Decimal;
    TableOfNone();
    ShortNames();
    AddKeeps([], ['a'], SECRET, 0);
    DecimalSteps(999);
    DecimalSteps(99);
    DecimalSteps(9);
    DecimalSteps(0);
    var u := NewUser(0, ['a'], SECRET, 0);
    JoinAtMost(FieldsOf(u), 8);
    assert PasswdText([u]) == JoinFields(FieldsOf(u)) + [LINE_END] + PasswdText([]);
  }

  lemma BlocksTaken(s: Session, path: Bytes, data: Bytes)
    requires SessionOk(s) && WriteReady(s, path)
    ensures WritePath(s, path, data).tree.nextBlock <= s.tree.nextBlock + 1 + DIRECT
  {
    hide TreeOk, Walkable, Resolve, ParentOf, BaseName, Extends;
    if Resolve(s.tree, s.dir, path) != NO_ENTRY {
      OpenedExisting(s, path);
    } else if HasParent(s, path) {
      OpenedNew(s, path);
    } else {
      OpenedNowhere(s, path);
    }
  }

  // A file that was just written can be written again.
  lemma WrittenAgain(s: Session, us: seq<User>)
    requires SessionOk(s) && WriteReady(s, PASSWD) && CanBeSaved(s) && us != [] && TableOk(us)
    requires s.tree.nextBlock + 1 + 2 * DIRECT <= DISK_BLOCKS
    ensures SessionOk(WritePath(s, PASSWD, SavedText(us))) && WriteReady(WritePath(s, PASSWD, SavedText(us)), PASSWD)
  {
    hide SessionOk, WritePath, CanBeSaved, FileUsers, TableOk, Resolve, Walkable, SavedText, CutKeeps;
    SaveExact(s, us);
    WriteServed(s, PASSWD, SavedText(us));
    BlocksTaken(s, PASSWD, SavedText(us));
  }

  // A table that was saved is still in the file when an empty one is saved after it.
  lemma SavedTwice(s: Session, us: seq<User>)
    requires SessionOk(s) && WriteReady(s, PASSWD) && CanBeSaved(s) && us != [] && TableOk(us)
    requires s.tree.nextBlock + 1 + 2 * DIRECT <= DISK_BLOCKS && |PasswdText(us)| <= PASSWD_BUFFER
    ensures var t := WritePath(s, PASSWD, SavedText(us));
            && SessionOk(t) && WriteReady(t, PASSWD)
            && var u := WritePath(t, PASSWD, SavedText([]));
            && ReadReady(u, PASSWD) && FileUsers(u) == us
  {
    hide SessionOk, WriteReady, ReadReady, WritePath, CanBeSaved, FileUsers, TableOk, SavedText, PasswdText;
    WrittenAgain(s, us);
    TableSurvives(s, us);
    SavedNothing(WritePath(s, PASSWD, SavedText(us)));
  }

  // The only user is added, with a home and a save, and removed, with another save: the file still has the user.
  lemma LastUserStays()
    ensures AddReady(WithEtc(), ['a'], 0)
    ensures var us := OneUser();
            var s := WritePath(AfterHome(WithEtc(), ['a'], 0), PASSWD, SavedText(us));
            && Removed(us, ['a']) == [] && SessionOk(s) && WriteReady(s, PASSWD)
            && var u := WritePath(s, PASSWD, SavedText(Removed(us, ['a'])));
            && ReadReady(u, PASSWD) && FileUsers(u) == us != []
  {
    hide SessionOk, WriteReady, ReadReady, WritePath, CanBeSaved, FileUsers, TableOk, SavedText, Removed, AfterHome, HomeReady;
    hide PasswdText, WithEtc, OneUser, NewUser;
    HomeMade();
    OneUserIs();
    SavedTwice(AfterHome(WithEtc(), ['a'], 0), OneUser());
  }
}
