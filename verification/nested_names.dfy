/** Directories entered as soon as they are made: where the text of the working directory loses its inode (kernel/fs.c:212-260). */
module NestedNames {
  import opened Bytes
  import opened InodeTable
  import opened DirentBlock
  import opened StoreModel
  import opened CString
  import opened Paths
  import opened Sessions
  import opened SessionLaws
  import opened RootLaws
  import DirectoryLaws
  import HomeLaws

  ghost predicate NewName(s: Session, name: Bytes) {
    && ValidName(name) && |name| <= COMPONENT_MAX && name != DOTDOT
    && HasRoom(s.tree, s.dir) && Lookup(s.tree, s.dir, name) == NO_ENTRY
  }

  lemma NameParts(s: Session, name: Bytes)
    requires ValidName(name) && |name| <= COMPONENT_MAX
    ensures NulFree(name) && SLASH !in name && (Plain(name) <==> name != DOTDOT)
    ensures ParentPath(name) == [] && ParentOf(s.tree, s.dir, name) == s.dir && BaseName(name) == name
    ensures HasParent(s, name)
  {
    hide Resolve, LastIndex;
    assert name != [SLASH] by { assert [SLASH][0] == SLASH; }
    assert Cut(name) == name && LastIndex(name, SLASH) == -1;
    assert name[0..] == name;
  }

  // What mkdir and chdir of a new name do to a session with room for it.
  lemma EnterNew(s: Session, name: Bytes)
    requires SessionOk(s) && Capacity(s.tree, 0) && NewName(s, name)
    ensures NewReady(s, name, 0)
    ensures var m, n := MkdirPath(s, name), s.tree.nextInode;
            && SessionOk(m) && m.cwd == s.cwd && m.dir == s.dir
            && ChdirReady(m, name) && ChdirSucceeds(m, name)
            && Chdir(m, name) == m.(cwd := CwdText(s.cwd, name), dir := n)
            && n in m.tree.nodes && m.tree.nodes[n].body == Dir([], 0, 1)
            && m.tree.nextInode == n + 1 && m.tree.nextBlock <= s.tree.nextBlock + 2
  {
    hide TreeOk, ParentOf, BaseName, ParentPath, Extends, LastIndex;
    NameParts(s, name);
    MkdirServed(s, name);
    var m := MkdirPath(s, name);
    DirectoryLaws.MkdirNames(s.tree, s.dir, name);
    NewNodeStays(s.tree, s.dir, name);
    ExtendedDir(s.tree, m.tree, s.dir);
    NameResolves(m.tree, s.dir, name);
  }

  lemma NewNodeStays(t: Tree, parent: nat, name: Bytes)
    requires Mutable(t, parent)
    ensures var m := Mkdir(t, parent, name);
            && t.nextInode in m.nodes && m.nodes[t.nextInode] == FreshDir()
            && m.nextInode == t.nextInode + 1 && m.nextBlock <= t.nextBlock + 2
  {
    DirectoryLaws.NotNew(t, parent);
  }

  // Making a directory and entering it, as requests.
  ghost function Enter(name: Bytes): seq<Request> { [AskMkdir(name), AskChdir(name)] }

  ghost function Entered(s: Session, name: Bytes): Session
    requires SessionOk(s) && Capacity(s.tree, 0) && NewName(s, name)
  {
    EnterNew(s, name);
    Chdir(MkdirPath(s, name), name)
  }

  lemma RunOfTwo(s: Session, name: Bytes, rs: seq<Request>)
    requires SessionOk(s) && Capacity(s.tree, 0) && NewName(s, name)
    ensures SessionOk(Entered(s, name))
    ensures ReadyRun(s, Enter(name) + rs) <==> ReadyRun(Entered(s, name), rs)
    ensures ReadyRun(s, Enter(name) + rs) ==> ServeRun(s, Enter(name) + rs) == ServeRun(Entered(s, name), rs)
  {
    hide SessionOk, MkdirPath, Chdir, ChdirReady, ChdirSucceeds, NewReady, NewName;
    EnterNew(s, name);
    var m := MkdirPath(s, name);
    ServeOk(m, AskChdir(name));
    var all := Enter(name) + rs;
    assert all[1..] == [AskChdir(name)] + rs;
    assert all[1..][1..] == rs;
    assert Serve(s, AskMkdir(name)) == m && Serve(m, AskChdir(name)) == Entered(s, name);
    assert ReadyRun(m, all[1..]) <==> ReadyRun(Entered(s, name), rs);
  }

  // Names of 63 characters.
  function LongName(c: Byte): Bytes { seq(COMPONENT_MAX, i => c) }

  lemma LongNameOk(c: Byte)
    requires c != SLASH && c != NUL
    ensures ValidName(LongName(c)) && |LongName(c)| == COMPONENT_MAX && LongName(c) != DOTDOT
  {
  }

  lemma FirstNew(c: Byte)
    requires c != SLASH && c != NUL
    ensures Coherent(MountedSession())
    ensures Capacity(EmptyTree(), 0) && NewName(MountedSession(), LongName(c))
    ensures Lookup(EmptyTree(), ROOT, LongName(c)) == NO_ENTRY
  {
    hide TreeOk, LongName, Coherent;
    MountedOk();
    LongNameOk(c);
  }

  // Entering a new directory keeps text and inode together exactly when the text of the working directory has room for its name.
  lemma EnteredCoherent(s: Session, name: Bytes)
    requires SessionOk(s) && Capacity(s.tree, 0) && NewName(s, name) && Coherent(s)
    ensures SessionOk(Entered(s, name))
    ensures Coherent(Entered(s, name)) <==> s.cwd == [SLASH] || |s.cwd| + 1 + |name| < PATH_MAX
    ensures Entered(s, name).cwd == CwdText(s.cwd, name)
    ensures var u := Entered(s, name);
            && u.dir in u.tree.nodes && u.tree.nodes[u.dir].body == Dir([], 0, 1)
            && u.tree.nextInode == s.tree.nextInode + 1 && u.tree.nextBlock <= s.tree.nextBlock + 2
  {
    hide SessionOk, Coherent, MkdirPath, Chdir, ChdirReady, ChdirSucceeds, NewReady, Gentle;
    EnterNew(s, name);
    NameParts(s, name);
    var m := MkdirPath(s, name);
    MkdirIsGentle(s, name);
    ServeCoherent(s, AskMkdir(name));
    ServeOk(m, AskChdir(name));
    if s.cwd == [SLASH] {
      ChdirCoherent(m, name);
    } else {
      RelativeChdirExact(m, name);
    }
  }

  lemma MkdirIsGentle(s: Session, name: Bytes)
    requires NewReady(s, name, 0)
    ensures Gentle(s, AskMkdir(name))
  {
  }

  // Two directories with such names, the second made inside the first: after that the text still names the first one.
  lemma LongNamesPart()
    ensures var rs := Enter(LongName('a')) + Enter(LongName('b'));
            && Coherent(MountedSession()) && ReadyRun(MountedSession(), rs)
            && !Coherent(ServeRun(MountedSession(), rs))
            && ServeRun(MountedSession(), rs).cwd == [SLASH] + LongName('a')
  {
    hide SessionOk, Coherent, LongName, Lookup, Entered, NewName, ServeRun, ReadyRun, Enter;
    var s, a, b := MountedSession(), LongName('a'), LongName('b');
    FirstNew('a');
    LongNameOk('a');
    LongNameOk('b');
    EnteredCoherent(s, a);
    var u := Entered(s, a);
    EmptyHasRoom(u, b);
    EnteredCoherent(u, b);
    RunOfTwo(s, a, Enter(b));
    RunOfTwo(u, b, []);
    NoRequests(Entered(u, b));
    assert Enter(b) + [] == Enter(b);
  }

  lemma NoRequests(s: Session)
    requires SessionOk(s)
    ensures ReadyRun(s, []) && ServeRun(s, []) == s
  {
  }

  lemma EmptyHasRoom(s: Session, name: Bytes)
    requires s.dir in s.tree.nodes && s.tree.nodes[s.dir].body == Dir([], 0, 1)
    requires ValidName(name) && |name| <= COMPONENT_MAX && name != DOTDOT
    ensures NewName(s, name)
  {
  }

  // mkdir of one name twice succeeds twice; the second directory is not what the name leads to.
  lemma SameNameTwice()
    ensures NewReady(MountedSession(), ['a'], 0)
    ensures var m := MkdirPath(MountedSession(), ['a']);
            && SessionOk(m) && NewReady(m, ['a'], 0)
            && var u, second := MkdirPath(m, ['a']).tree, m.tree.nextInode;
            && IsDir(u, second) && Lookup(u, ROOT, ['a']) != second
  {
    hide TreeOk, Lookup, ParentOf, BaseName, ParentPath;
    ShortNew();
    EnterNew(MountedSession(), ['a']);
    NameParts(MountedSession(), ['a']);
    DirectoryLaws.MkdirNames(EmptyTree(), ROOT, ['a']);
    var m := MkdirPath(MountedSession(), ['a']);
    NameParts(m, ['a']);
    DirectoryLaws.MkdirNames(m.tree, ROOT, ['a']);
  }

  lemma ShortNew()
    ensures Capacity(EmptyTree(), 0) && NewName(MountedSession(), ['a'])
    ensures Lookup(EmptyTree(), ROOT, ['a']) == NO_ENTRY && HasRoom(EmptyTree(), ROOT)
  {
    hide TreeOk;
    MountedOk();
  }

  // ------------------------------------------------------------------ inode 81

  ghost function MkdirMany(n: nat): seq<Request> { seq(n, i => AskMkdir(['a'])) }

  // Every mkdir of a single name takes an inode, also when the name leads elsewhere already.
  lemma {:induction false} ManyMade(s: Session, n: nat)
    requires SessionOk(s) && s.tree.nextInode + n <= MAX_INODE + 1 && s.tree.nextBlock + 2 * n <= DISK_BLOCKS
    ensures ReadyRun(s, MkdirMany(n)) && ServeRun(s, MkdirMany(n)).tree.nextInode == s.tree.nextInode + n
    decreases n
  {
    hide SessionOk, ParentOf, BaseName, ParentPath, LastIndex, Mkdir;
    if n > 0 {
      OneMade(s);
      ManyMade(MkdirPath(s, ['a']), n - 1);
      assert MkdirMany(n)[1..] == MkdirMany(n - 1);
    }
  }

  lemma OneMade(s: Session)
    requires SessionOk(s) && Capacity(s.tree, 0)
    ensures NewReady(s, ['a'], 0) && SessionOk(MkdirPath(s, ['a']))
    ensures var t := MkdirPath(s, ['a']).tree;
            t.nextInode == s.tree.nextInode + 1 && t.nextBlock <= s.tree.nextBlock + 2
  {
    hide TreeOk, ParentOf, BaseName, ParentPath, Extends, LastIndex;
    NameParts(s, ['a']);
    MkdirServed(s, ['a']);
    NewNodeStays(s.tree, s.dir, ['a']);
  }

  // Seventy directories after a fresh mount, the next inode handed out is the first whose slot lies in the data area.
  lemma SlotInData()
    ensures ReadyRun(MountedSession(), MkdirMany(70))
    ensures var n := ServeRun(MountedSession(), MkdirMany(70)).tree.nextInode;
            n == 81 && InodeBlock(n) == FIRST_BLOCK && InodeBlock(n - 1) < FIRST_BLOCK
  {
    hide SessionOk, ReadyRun, ServeRun, MkdirMany;
    ManyMade(MountedSession(), 70);
  }

  // ------------------------------------------------------------------ a second "home"

  // A home is made from the root, then one from a directory just entered: the root takes "home" a second time.
  lemma SecondHome()
    ensures HomeReady(MountedSession(), ['u'])
    ensures var s := HomePath(MountedSession(), ['u']);
            && SessionOk(s) && Capacity(s.tree, 0) && NewName(s, ['a'])
            && var t := Entered(s, ['a']);
            && SessionOk(t) && Lookup(t.tree, ROOT, HOME_NAME) != NO_ENTRY && Mutable(t.tree, ROOT)
            && IsDir(WithHome(t).tree, ROOT) && Used(WithHome(t).tree, ROOT) == Used(t.tree, ROOT) + 1
  {
    hide TreeOk, Lookup, Used, Extends, Coherent;
    FirstHome();
    var s := HomePath(MountedSession(), ['u']);
    EnteredBesides(s);
    HomeLaws.HomeSlot(Entered(s, ['a']));
  }

  // The first home: the root holds "home" alone.
  lemma FirstHome()
    ensures HomeReady(MountedSession(), ['u'])
    ensures var s := HomePath(MountedSession(), ['u']);
            && SessionOk(s) && s.dir == ROOT && s.tree.nextInode == FIRST_INODE + 2 && s.tree.nextBlock <= FIRST_BLOCK + 4
            && Lookup(s.tree, ROOT, HOME_NAME) != NO_ENTRY && Lookup(s.tree, ROOT, ['a']) == NO_ENTRY
            && IsDir(s.tree, ROOT) && Used(s.tree, ROOT) == 1
  {
    hide TreeOk, Extends, Mkdir;
    EmptyTreeOk();
    HomeLaws.HomeIsAName();
    NameResolves(EmptyTree(), ROOT, HOME_NAME);
    assert Lookup(EmptyTree(), ROOT, HOME_NAME) == NO_ENTRY && Lookup(EmptyTree(), ROOT, ['a']) == NO_ENTRY;
    HomeLaws.WithHomeOk(MountedSession());
    var u := Mkdir(EmptyTree(), ROOT, HOME_NAME);
    NewNodeStays(EmptyTree(), ROOT, HOME_NAME);
    DirectoryLaws.MkdirNames(EmptyTree(), ROOT, HOME_NAME);
    DirectoryLaws.MkdirElsewhere(EmptyTree(), ROOT, HOME_NAME, ROOT, ['a']);
    MkdirUsed(EmptyTree(), ROOT, HOME_NAME, ROOT);
    NewNodeStays(u, FIRST_INODE, ['u']);
    DirectoryLaws.MkdirElsewhere(u, FIRST_INODE, ['u'], ROOT, HOME_NAME);
    DirectoryLaws.MkdirElsewhere(u, FIRST_INODE, ['u'], ROOT, ['a']);
    MkdirUsed(u, FIRST_INODE, ['u'], ROOT);
    HomeLaws.HomeServed(MountedSession(), ['u']);
  }

  lemma EnteredBesides(s: Session)
    requires SessionOk(s) && s.dir == ROOT && s.tree.nextInode == FIRST_INODE + 2 && s.tree.nextBlock <= FIRST_BLOCK + 4
    requires Lookup(s.tree, ROOT, HOME_NAME) != NO_ENTRY && Lookup(s.tree, ROOT, ['a']) == NO_ENTRY
    requires IsDir(s.tree, ROOT) && Used(s.tree, ROOT) == 1
    ensures Capacity(s.tree, 0) && NewName(s, ['a'])
    ensures var t := Entered(s, ['a']);
            && SessionOk(t) && Mutable(t.tree, ROOT) && HasRoom(t.tree, ROOT)
            && Lookup(t.tree, ROOT, HOME_NAME) != NO_ENTRY && Lookup(t.tree, t.dir, HOME_NAME) == NO_ENTRY
  {
    hide TreeOk, ParentOf, BaseName, ParentPath, Extends, LastIndex;
    EnterNew(s, ['a']);
    NameParts(s, ['a']);
    NewNodeStays(s.tree, ROOT, ['a']);
    DirectoryLaws.MkdirElsewhere(s.tree, ROOT, ['a'], ROOT, HOME_NAME);
    MkdirUsed(s.tree, ROOT, ['a'], ROOT);
    ServeOk(MkdirPath(s, ['a']), AskChdir(['a']));
  }
}
