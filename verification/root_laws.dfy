/** The root directory, whose inode is never initialised, as a target of chdir (kernel/ext2.c:76-103, kernel/fs.c:212-260). */
module RootLaws {
  import opened Bytes
  import opened InodeTable
  import opened DirentBlock
  import opened StoreModel
  import opened Paths
  import opened PathCuts
  import opened Sessions
  import opened SessionLaws

  // A session on a store just formatted.
  ghost function MountedSession(): (s: Session)
    ensures SessionOk(s)
  {
    EmptyTreeOk();
    Session(EmptyTree(), [SLASH], ROOT)
  }

  lemma MountedOk()
    ensures Coherent(MountedSession()) && ModeIs(MountedSession().tree, ROOT, 0)
  {
    hide TreeOk;
    EmptyTreeOk();
    RootResolves(EmptyTree(), ROOT);
  }

  // ------------------------------------------------------------------ modes never change

  ghost predicate ModeIs(t: Tree, n: nat, mode: U16) { n in t.nodes && t.nodes[n].attr.mode == mode }

  lemma AddEntryModes(t: Tree, dir: nat, e: Entry, n: nat, mode: U16)
    requires IsDir(t, dir) && t.nodes[dir].attr.size <= MAX_FILE && ModeIs(t, n, mode)
    ensures ModeIs(AddEntry(t, dir, e), n, mode)
  {
  }

  lemma NewNodeModes(t: Tree, node: Node, n: nat, mode: U16)
    requires TreeOk(t) && ModeIs(t, n, mode)
    ensures ModeIs(NewNode(t, node), n, mode)
  {
  }

  lemma MkdirModes(t: Tree, parent: nat, name: Bytes, n: nat, mode: U16)
    requires Mutable(t, parent) && ModeIs(t, n, mode)
    ensures ModeIs(Mkdir(t, parent, name), n, mode)
  {
    hide TreeOk;
    DirSize(t, parent);
    ParentNotNew(t, parent);
    NewNodeModes(t, FreshDir(), n, mode);
    AddEntryModes(WithNewDir(t), parent, Entry(name, t.nextInode, TYPE_DIR), n, mode);
  }

  lemma CreateModes(t: Tree, parent: nat, name: Bytes, n: nat, mode: U16)
    requires Mutable(t, parent) && ModeIs(t, n, mode)
    ensures ModeIs(Create(t, parent, name, FILE_MODE), n, mode)
  {
    hide TreeOk;
    DirSize(t, parent);
    ParentNotNew(t, parent);
    NewNodeModes(t, FreshFile(FILE_MODE), n, mode);
    AddEntryModes(NewNode(t, FreshFile(FILE_MODE)), parent, Entry(name, t.nextInode, TYPE_FILE), n, mode);
  }

  lemma ParentNotNew(t: Tree, parent: nat)
    requires TreeOk(t) && parent in t.nodes
    ensures parent != t.nextInode
  {
    assert Allocated(t.nextInode, parent);
  }

  lemma WriteModes(s: Session, p: Bytes, data: Bytes, n: nat, mode: U16)
    requires SessionOk(s) && WriteReady(s, p) && ModeIs(s.tree, n, mode)
    ensures ModeIs(WritePath(s, p, data).tree, n, mode)
  {
    hide TreeOk, Walkable, Resolve, ParentOf, BaseName, Extends, Create;
    if Resolve(s.tree, s.dir, p) != NO_ENTRY {
      OpenedExisting(s, p);
    } else if HasParent(s, p) {
      OpenedNew(s, p);
      CreateModes(s.tree, ParentOf(s.tree, s.dir, p), BaseName(p), n, mode);
    } else {
      OpenedNowhere(s, p);
    }
  }

  lemma UnlinkModes(t: Tree, dir: nat, name: Bytes, n: nat, mode: U16)
    requires TreeOk(t) && IsDir(t, dir) && ModeIs(t, n, mode)
    ensures ModeIs(Unlink(t, dir, name), n, mode)
  {
  }

  lemma ServeKeepsModes(s: Session, r: Request, n: nat, mode: U16)
    requires SessionOk(s) && Ready(s, r) && ModeIs(s.tree, n, mode)
    ensures ModeIs(Serve(s, r).tree, n, mode)
  {
    hide TreeOk, ParentOf, BaseName, Mkdir, Create, Unlink, ModeIs, Walkable, Resolve;
    match r
    case AskMkdir(p) =>
      if HasParent(s, p) {
        MkdirModes(s.tree, ParentOf(s.tree, s.dir, p), BaseName(p), n, mode);
      }
    case AskCreate(p) =>
      if HasParent(s, p) {
        CreateModes(s.tree, ParentOf(s.tree, s.dir, p), BaseName(p), n, mode);
      }
    case AskWrite(p, d) =>
      WriteModes(s, p, d, n, mode);
    case AskDelete(p) =>
      if HasParent(s, p) {
        UnlinkModes(s.tree, ParentOf(s.tree, s.dir, p), BaseName(p), n, mode);
      }
    case AskChdir(p) =>
  }

  // No run of path operations changes the mode an inode was given.
  lemma {:induction false} RunKeepsModes(s: Session, rs: seq<Request>, n: nat, mode: U16)
    requires SessionOk(s) && ReadyRun(s, rs) && ModeIs(s.tree, n, mode)
    ensures ModeIs(ServeRun(s, rs).tree, n, mode)
    decreases |rs|
  {
    hide SessionOk, Ready, Serve, ModeIs;
    if rs != [] {
      ServeOk(s, rs[0]);
      ServeKeepsModes(s, rs[0], n, mode);
      RunKeepsModes(Serve(s, rs[0]), rs[1..], n, mode);
    }
  }

  // ------------------------------------------------------------------ where chdir goes

  // With a root of mode zero, every spelling but "/" and ".." succeeds exactly when it leads to a directory that is not the root.
  lemma ChdirExact(s: Session, dir: Bytes)
    requires SessionOk(s) && ChdirReady(s, dir) && Plain(dir) && ModeIs(s.tree, ROOT, 0)
    ensures var n := Resolve(s.tree, s.dir, dir);
            ChdirSucceeds(s, dir) <==> n != NO_ENTRY && n != ROOT && IsDir(s.tree, n)
  {
    hide Components;
    ChdirTargetIs(s, dir);
    var n := Resolve(s.tree, s.dir, dir);
    if n != NO_ENTRY {
      RootIsDir(s.tree);
      WalkInTree(s.tree, Start(s.dir, dir), Components(dir));
      assert NodeOk(s.tree, n, s.tree.nodes[n]);
    }
  }

  lemma SlashesResolve(t: Tree, cwd: nat, dir: Bytes)
    requires dir != [] && AllSlashes(dir)
    ensures Resolve(t, cwd, dir) == ROOT && Walkable(t, cwd, dir)
  {
    hide Components;
    OnlySlashes(dir);
  }

  // Two or more slashes lead to the root and are refused.
  lemma RootRefused(s: Session, dir: Bytes)
    requires SessionOk(s) && ModeIs(s.tree, ROOT, 0) && |dir| >= 2 && AllSlashes(dir)
    ensures Resolve(s.tree, s.dir, dir) == ROOT && !ChdirSucceeds(s, dir) && Chdir(s, dir) == s
  {
    hide Resolve, ModeIs, ChdirSucceeds, Chdir, Lookup;
    SlashesResolve(s.tree, s.dir, dir);
    ChdirTargetIs(s, dir);
    RefusedAtRoot(s, dir);
  }

  lemma RefusedAtRoot(s: Session, dir: Bytes)
    requires Plain(dir) && ChdirTarget(s, dir) == ROOT && ModeIs(s.tree, ROOT, 0)
    ensures !ChdirSucceeds(s, dir) && Chdir(s, dir) == s
  {
    hide ChdirTarget;
  }

  // The exact condition holds after every run that starts with such a root, as each run from a fresh mount does.
  lemma RunChdirExact(s: Session, rs: seq<Request>, dir: Bytes)
    requires SessionOk(s) && ModeIs(s.tree, ROOT, 0) && ReadyRun(s, rs) && Plain(dir)
    ensures var u := ServeRun(s, rs);
            var n := Resolve(u.tree, u.dir, dir);
            ChdirReady(u, dir) ==> (ChdirSucceeds(u, dir) <==> n != NO_ENTRY && n != ROOT && IsDir(u.tree, n))
  {
    hide SessionOk, Walkable, Resolve, ChdirReady, ModeIs;
    RunKeepsModes(s, rs, ROOT, 0);
    if ChdirReady(ServeRun(s, rs), dir) {
      ChdirExact(ServeRun(s, rs), dir);
    }
  }

  // In the session just mounted: "/" is entered, "//" is refused, although both are the root.
  lemma RootSpelledTwice()
    ensures ChdirReady(MountedSession(), [SLASH, SLASH])
    ensures ChdirSucceeds(MountedSession(), [SLASH]) && !ChdirSucceeds(MountedSession(), [SLASH, SLASH])
    ensures Resolve(MountedSession().tree, ROOT, [SLASH, SLASH]) == Resolve(MountedSession().tree, ROOT, [SLASH]) == ROOT
  {
    hide Components;
    MountedOk();
    RootResolves(EmptyTree(), ROOT);
    SlashesResolve(EmptyTree(), ROOT, [SLASH, SLASH]);
    RootRefused(MountedSession(), [SLASH, SLASH]);
  }
}
