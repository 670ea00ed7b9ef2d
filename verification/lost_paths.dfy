/** Runs from a fresh mount after which the text of the working directory leads elsewhere (kernel/fs.c:142-148, 212-260). */
module LostPaths {
  import opened Bytes
  import opened InodeTable
  import opened DirentBlock
  import opened StoreModel
  import opened CString
  import opened Paths
  import opened Sessions
  import opened SessionLaws
  import opened RootLaws
  import opened OneName
  import opened CoherenceLaws
  import opened NestedNames
  import DirectoryLaws
  import HomeLaws

  // What a new directory of the root looks like from inside.
  lemma EnteredFromRoot(name: Bytes)
    requires ValidName(name) && |name| <= COMPONENT_MAX && name != DOTDOT
    ensures Capacity(EmptyTree(), 0) && NewName(MountedSession(), name)
    ensures var s := Entered(MountedSession(), name);
            && SessionOk(s) && Coherent(s) && NamedOnce(s.tree) && ModeIs(s.tree, ROOT, 0)
            && s.dir == Lookup(s.tree, ROOT, name) == FIRST_INODE && s.cwd == [SLASH] + name
            && s.tree.nextInode == FIRST_INODE + 1 && s.tree.nextBlock <= FIRST_BLOCK + 2
            && s.dir in s.tree.nodes && s.tree.nodes[s.dir].body == Dir([], 0, 1) && IsDir(s.tree, ROOT)
  {
    hide TreeOk, ParentOf, BaseName, ParentPath, LastIndex, Coherent, NamedOnce, Extends, ModeIs, Mkdir;
    MountedOk();
    MountedNamed();
    FreshName(name);
    EnteredCoherent(MountedSession(), name);
    EnterNew(MountedSession(), name);
    NameParts(MountedSession(), name);
    MkdirNamed(EmptyTree(), ROOT, name);
    MkdirModes(EmptyTree(), ROOT, name, ROOT, 0);
    DirectoryLaws.MkdirNames(EmptyTree(), ROOT, name);
    RootIsDir(Entered(MountedSession(), name).tree);
  }

  lemma FreshName(name: Bytes)
    requires ValidName(name) && |name| <= COMPONENT_MAX && name != DOTDOT
    ensures Capacity(EmptyTree(), 0) && NewName(MountedSession(), name)
    ensures Lookup(EmptyTree(), ROOT, name) == NO_ENTRY && HasRoom(EmptyTree(), ROOT)
  {
  }

  // A name of the root, as a path.
  lemma RootNameParts(s: Session, name: Bytes)
    requires SessionOk(s) && ValidName(name) && |name| <= COMPONENT_MAX
    ensures var path := [SLASH] + name;
            && ParentReady(s, path) && HasParent(s, path)
            && ParentOf(s.tree, s.dir, path) == ROOT && BaseName(path) == name && Components(path) == [name]
  {
    hide TreeOk, LastIndex, Components, Resolve, Walkable;
    var path := [SLASH] + name;
    HomeLaws.LastSlash([], name);
    assert [] + [SLASH] + name == path && path[1..] == name && Cut(path) == path;
    RootResolves(s.tree, s.dir);
    RootIsDir(s.tree);
    SlashesIgnored([], name);
    ComponentsOfName(name);
  }

  // ------------------------------------------------------------------ the directory itself goes

  // The working directory is deleted: its text leads nowhere.
  lemma DeletedUnderfoot()
    ensures var rs := Enter(['a']) + [AskDelete([SLASH, 'a'])];
            ReadyRun(MountedSession(), rs) && !Coherent(ServeRun(MountedSession(), rs))
  {
    hide SessionOk, Coherent, NamedOnce, Lookup, Entered, NewName, Enter, Components, ParentOf, BaseName, ModeIs, Walk;
    EnteredFromRoot(['a']);
    var s, path := Entered(MountedSession(), ['a']), [SLASH, 'a'];
    assert path == [SLASH] + ['a'];
    RootNameParts(s, ['a']);
    assert ['a'] == [['a']][0];
    assert Lookup(s.tree, ROOT, ['a']) in Visited(s.tree, ROOT, [['a']]);
    DeleteExact(s, path);
    RunOfTwo(MountedSession(), ['a'], [AskDelete(path)]);
    OneRequest(s, AskDelete(path));
  }

  lemma OneRequest(s: Session, r: Request)
    requires SessionOk(s)
    ensures ReadyRun(s, [r]) <==> Ready(s, r)
    ensures Ready(s, r) ==> ServeRun(s, [r]) == Serve(s, r)
  {
    hide SessionOk, Ready, Serve;
    assert [r][1..] == [];
    if Ready(s, r) {
      ServeOk(s, r);
    }
  }

  // ------------------------------------------------------------------ a path that is cut

  function TwoNames(): Bytes { [SLASH] + LongName('a') + [SLASH] + LongName('b') }

  // A directory and one inside it, both with names of 63 characters.
  lemma TwoLevels()
    ensures Capacity(EmptyTree(), 0) && NewName(MountedSession(), LongName('a'))
    ensures var s := Entered(MountedSession(), LongName('a'));
            && SessionOk(s) && Capacity(s.tree, 0) && NewReady(s, LongName('b'), 0)
            && var t := MkdirPath(s, LongName('b'));
            && SessionOk(t) && Coherent(t) && NamedOnce(t.tree) && ModeIs(t.tree, ROOT, 0)
            && Lookup(t.tree, ROOT, LongName('a')) == FIRST_INODE && IsDir(t.tree, FIRST_INODE) && IsDir(t.tree, ROOT)
            && Lookup(t.tree, FIRST_INODE, LongName('b')) == FIRST_INODE + 1 && IsDir(t.tree, FIRST_INODE + 1)
  {
    hide TreeOk, ParentOf, BaseName, ParentPath, LastIndex, Coherent, NamedOnce, Extends, ModeIs, Mkdir, LongName, Lookup, NewName;
    LongNameOk('a');
    LongNameOk('b');
    EnteredFromRoot(LongName('a'));
    var s := Entered(MountedSession(), LongName('a'));
    NameParts(s, LongName('b'));
    EmptyLookup(s, LongName('b'));
    EmptyHasRoom(s, LongName('b'));
    EnterNew(s, LongName('b'));
    MkdirIsGentle(s, LongName('b'));
    ServeCoherent(s, AskMkdir(LongName('b')));
    MkdirNamed(s.tree, FIRST_INODE, LongName('b'));
    MkdirModes(s.tree, FIRST_INODE, LongName('b'), ROOT, 0);
    DirectoryLaws.MkdirNames(s.tree, FIRST_INODE, LongName('b'));
    DirectoryLaws.MkdirElsewhere(s.tree, FIRST_INODE, LongName('b'), ROOT, LongName('a'));
    RootIsDir(MkdirPath(s, LongName('b')).tree);
    MkdirKeeps(s.tree, FIRST_INODE, LongName('b'));
    ExtendedDir(s.tree, MkdirPath(s, LongName('b')).tree, FIRST_INODE);
  }

  lemma EmptyLookup(s: Session, name: Bytes)
    requires s.dir in s.tree.nodes && s.tree.nodes[s.dir].body == Dir([], 0, 1)
    ensures Lookup(s.tree, s.dir, name) == NO_ENTRY && HasRoom(s.tree, s.dir) && IsDir(s.tree, s.dir)
  {
  }

  lemma TwoComponents()
    ensures Components(TwoNames()) == [LongName('a'), LongName('b')] && |TwoNames()| == 128 && NulFree(TwoNames())
    ensures TwoNames()[0] == SLASH && TwoNames()[127] == 'b'
  {
    hide Components, LongName;
    LongNameOk('a');
    LongNameOk('b');
    LongNameEnds('b');
    ComponentsJoin([SLASH] + LongName('a'), LongName('b'));
    SlashesIgnored([], LongName('a'));
    ComponentsOfName(LongName('a'));
    ComponentsOfName(LongName('b'));
  }

  lemma LongNameEnds(c: Byte)
    ensures |LongName(c)| == COMPONENT_MAX && LongName(c)[COMPONENT_MAX - 1] == c
  {
  }

  // Entered by a path of 128 characters, which is stored without its last one.
  lemma LongPathLost()
    ensures var rs := Enter(LongName('a')) + [AskMkdir(LongName('b')), AskChdir([SLASH]), AskChdir(TwoNames())];
            ReadyRun(MountedSession(), rs) && !Coherent(ServeRun(MountedSession(), rs))
  {
    hide SessionOk, Coherent, NamedOnce, Lookup, Entered, NewName, Enter, Components, ModeIs, LongName, TwoNames, NewReady;
    hide MkdirPath, Capacity, IsDir, Ready, Serve, ReadyRun, ServeRun;
    TwoLevels();
    var s := Entered(MountedSession(), LongName('a'));
    var t := MkdirPath(s, LongName('b'));
    var rest := [AskChdir([SLASH]), AskChdir(TwoNames())];
    FromRootLost(t);
    AsRequest(s, LongName('b'));
    StepRun(s, AskMkdir(LongName('b')), rest);
    RunOfTwo(MountedSession(), LongName('a'), [AskMkdir(LongName('b'))] + rest);
    assert [AskMkdir(LongName('b'))] + rest == [AskMkdir(LongName('b')), AskChdir([SLASH]), AskChdir(TwoNames())];
  }

  lemma AsRequest(s: Session, name: Bytes)
    requires SessionOk(s) && NewReady(s, name, 0)
    ensures Ready(s, AskMkdir(name)) && Serve(s, AskMkdir(name)) == MkdirPath(s, name)
  {
  }

  lemma StepRun(s: Session, r: Request, rs: seq<Request>)
    requires SessionOk(s) && Ready(s, r)
    ensures SessionOk(Serve(s, r))
    ensures ReadyRun(s, [r] + rs) <==> ReadyRun(Serve(s, r), rs)
    ensures ReadyRun(s, [r] + rs) ==> ServeRun(s, [r] + rs) == ServeRun(Serve(s, r), rs)
  {
    hide SessionOk, Ready, Serve;
    ServeOk(s, r);
    assert ([r] + rs)[1..] == rs;
  }

  lemma FromRootLost(t: Session)
    requires SessionOk(t) && Coherent(t) && NamedOnce(t.tree) && ModeIs(t.tree, ROOT, 0)
    requires Lookup(t.tree, ROOT, LongName('a')) == FIRST_INODE && IsDir(t.tree, FIRST_INODE) && IsDir(t.tree, ROOT)
    requires Lookup(t.tree, FIRST_INODE, LongName('b')) == FIRST_INODE + 1 && IsDir(t.tree, FIRST_INODE + 1)
    ensures var rs := [AskChdir([SLASH]), AskChdir(TwoNames())];
            ReadyRun(t, rs) && !Coherent(ServeRun(t, rs))
  {
    hide SessionOk, Coherent, NamedOnce, Lookup, Components, ModeIs, LongName, TwoNames, IsDir;
    AtRoot(t);
    var u := Chdir(t, [SLASH]);
    LostThere(u);
    OneRequest(u, AskChdir(TwoNames()));
    StepRun(t, AskChdir([SLASH]), [AskChdir(TwoNames())]);
    assert [AskChdir([SLASH])] + [AskChdir(TwoNames())] == [AskChdir([SLASH]), AskChdir(TwoNames())];
  }

  lemma AtRoot(t: Session)
    requires SessionOk(t) && Coherent(t)
    ensures ChdirReady(t, [SLASH]) && Chdir(t, [SLASH]).tree == t.tree
    ensures SessionOk(Chdir(t, [SLASH])) && Coherent(Chdir(t, [SLASH]))
  {
    hide Components, TreeOk;
    RootResolves(t.tree, t.dir);
    ChdirCoherent(t, [SLASH]);
  }

  lemma LostThere(u: Session)
    requires SessionOk(u) && Coherent(u) && NamedOnce(u.tree) && ModeIs(u.tree, ROOT, 0)
    requires Lookup(u.tree, ROOT, LongName('a')) == FIRST_INODE && IsDir(u.tree, FIRST_INODE) && IsDir(u.tree, ROOT)
    requires Lookup(u.tree, FIRST_INODE, LongName('b')) == FIRST_INODE + 1 && IsDir(u.tree, FIRST_INODE + 1)
    ensures ChdirReady(u, TwoNames()) && !Coherent(Chdir(u, TwoNames()))
  {
    hide SessionOk, Coherent, NamedOnce, Lookup, Components, ModeIs, LongName, TwoNames, IsDir, Chdir, ChdirSucceeds;
    TwoComponents();
    var cs := [LongName('a'), LongName('b')];
    TwoSteps(u.tree, LongName('a'), LongName('b'));
    ChdirExact(u, TwoNames());
    ChdirExactly(u, TwoNames());
    LastLetterLost(u.cwd, TwoNames());
  }

  lemma TwoSteps(t: Tree, a: Bytes, b: Bytes)
    requires IsDir(t, ROOT) && Lookup(t, ROOT, a) == FIRST_INODE && IsDir(t, FIRST_INODE)
    ensures DirWalk(t, ROOT, [a, b]) && Walk(t, ROOT, [a, b]) == Lookup(t, FIRST_INODE, b)
  {
    hide Lookup;
    assert [a] + [b] == [a, b];
    WalkJoin(t, ROOT, [a], [b]);
    WalkOne(t, ROOT, a);
    WalkOne(t, FIRST_INODE, b);
  }

  lemma LastLetterLost(cwd: Bytes, path: Bytes)
    requires |path| == 128 && path[0] == SLASH && path[127] != SLASH
    ensures Plain(path) && !CwdFits(cwd, path)
  {
    assert path[PATH_MAX..][0] == path[127];
  }
}
