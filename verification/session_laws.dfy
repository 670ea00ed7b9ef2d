/** Laws of kernel/fs.c: write then read, isolation of files, the working directory, directory capacity. */
module SessionLaws {
  import opened Bytes
  import opened InodeTable
  import opened DirentBlock
  import opened StoreModel
  import opened CString
  import opened Paths
  import opened PathCuts
  import opened Sessions

  // ------------------------------------------------------------------ what one operation keeps

  lemma NewNodeExtends(t: Tree, node: Node)
    requires TreeOk(t)
    ensures Extends(t, NewNode(t, node))
  {
  }

  lemma AddEntryExtends(t: Tree, dir: nat, e: Entry)
    requires TreeOk(t) && IsDir(t, dir) && t.nodes[dir].attr.size <= MAX_FILE
    ensures Extends(t, AddEntry(t, dir, e))
  {
  }

  lemma DirSize(t: Tree, n: nat)
    requires TreeOk(t) && IsDir(t, n)
    ensures t.nodes[n].attr.size <= MAX_FILE
  {
    assert NodeOk(t, n, t.nodes[n]);
  }

  lemma NewDirExtends(t: Tree)
    requires TreeOk(t)
    ensures Extends(t, WithNewDir(t))
  {
  }

  lemma MkdirKeeps(t: Tree, parent: nat, name: Bytes)
    requires Mutable(t, parent) && ValidName(name)
    ensures TreeOk(Mkdir(t, parent, name)) && Extends(t, Mkdir(t, parent, name))
  {
    hide TreeOk, Extends;
    var u, e := WithNewDir(t), Entry(name, t.nextInode, TYPE_DIR);
    NewDirOk(t);
    NewDirExtends(t);
    NewEntryOk(t, u, parent, e);
    AddEntryOk(u, parent, e);
    AddEntryExtends(u, parent, e);
    ExtendsTrans(t, u, Mkdir(t, parent, name));
  }

  lemma NewEntryOk(t: Tree, u: Tree, parent: nat, e: Entry)
    requires TreeOk(t) && IsDir(t, parent) && ValidName(e.name) && e.ino == t.nextInode <= MAX_INODE
    requires t.nextInode in u.nodes && u.nodes == t.nodes[t.nextInode := u.nodes[t.nextInode]]
    ensures IsDir(u, parent) && EntryOk(u, parent, e) && u.nodes[parent] == t.nodes[parent]
    ensures u.nodes[parent].attr.size <= MAX_FILE
  {
    DirSize(t, parent);
    assert Allocated(t.nextInode, parent);
  }

  lemma CreateKeeps(t: Tree, parent: nat, name: Bytes, mode: U16)
    requires Mutable(t, parent) && ValidName(name) && !HasDirBit(mode)
    ensures TreeOk(Create(t, parent, name, mode)) && Extends(t, Create(t, parent, name, mode))
  {
    hide TreeOk, Extends;
    var u, e := NewNode(t, FreshFile(mode)), Entry(name, t.nextInode, TYPE_FILE);
    NewFileTreeOk(t, mode);
    NewEntryOk(t, u, parent, e);
    AddEntryOk(u, parent, e);
    NewNodeExtends(t, FreshFile(mode));
    AddEntryExtends(u, parent, e);
    ExtendsTrans(t, u, Create(t, parent, name, mode));
  }

  lemma NewFileTreeOk(t: Tree, mode: U16)
    requires TreeOk(t) && t.nextInode <= MAX_INODE && !HasDirBit(mode)
    ensures TreeOk(NewNode(t, FreshFile(mode)))
  {
    NewNodeOk(t, FreshFile(mode));
  }

  lemma WriteExtends(t: Tree, n: nat, data: Bytes)
    requires IsFile(t, n)
    ensures Extends(t, Write(t, n, data))
  {
  }

  lemma BaseNameValid(path: Bytes)
    requires NulFree(path) && 1 <= |BaseName(path)| <= COMPONENT_MAX
    ensures ValidName(BaseName(path))
  {
  }

  // ------------------------------------------------------------------ opening a file to write

  ghost predicate ParentHasRoom(s: Session, path: Bytes) {
    HasParent(s, path) && HasRoom(s.tree, ParentOf(s.tree, s.dir, path))
  }

  lemma ParentStable(s: Session, u: Tree, path: Bytes)
    requires Extends(s.tree, u) && path != []
    requires ParentPath(path) == [] || Walkable(s.tree, s.dir, ParentPath(path))
    requires ParentOf(s.tree, s.dir, path) != NO_ENTRY
    ensures ParentOf(u, s.dir, path) == ParentOf(s.tree, s.dir, path)
    ensures ParentPath(path) == [] || Walkable(u, s.dir, ParentPath(path))
  {
    var pp := ParentPath(path);
    if pp != [] {
      WalkStable(s.tree, u, Start(s.dir, pp), Components(pp));
    }
  }

  // After creating base in parent it is found exactly when the parent had room for it.
  lemma CreatedLookup(t: Tree, parent: nat, name: Bytes)
    requires Mutable(t, parent) && ValidName(name) && Lookup(t, parent, name) == NO_ENTRY
    ensures var u := Create(t, parent, name, FILE_MODE);
            && IsDir(u, parent)
            && Lookup(u, parent, name) == (if HasRoom(t, parent) then t.nextInode else NO_ENTRY)
            && IsFile(u, t.nextInode) && u.nodes[t.nextInode].body.bytes == []
            && (forall n :: n in t.nodes && n != parent ==> n in u.nodes && u.nodes[n] == t.nodes[n])
  {
    var u := Create(t, parent, name, FILE_MODE);
    DirSize(t, parent);
    assert Allocated(t.nextInode, parent) && parent != t.nextInode;
    var e := Entry(name, t.nextInode, TYPE_FILE);
    var es := t.nodes[parent].body.entries;
    FirstMatchStable(es, [e], name);
    if HasRoom(t, parent) {
      assert u.nodes[parent].body.entries == es + [e];
    }
  }

  lemma OpenedExisting(s: Session, path: Bytes)
    requires SessionOk(s) && WriteReady(s, path)
    requires Resolve(s.tree, s.dir, path) != NO_ENTRY
    ensures Opened(s, path) == s && Target(s, path) == Resolve(s.tree, s.dir, path) && IsFile(s.tree, Target(s, path))
    ensures Walkable(Opened(s, path).tree, s.dir, path)
  {
  }

  lemma OpenedNowhere(s: Session, path: Bytes)
    requires SessionOk(s) && WriteReady(s, path)
    requires Resolve(s.tree, s.dir, path) == NO_ENTRY && !HasParent(s, path)
    ensures Opened(s, path) == s && Target(s, path) == NO_ENTRY && Walkable(Opened(s, path).tree, s.dir, path)
  {
  }

  lemma OpenedNew(s: Session, path: Bytes)
    requires SessionOk(s) && WriteReady(s, path)
    requires Resolve(s.tree, s.dir, path) == NO_ENTRY && HasParent(s, path)
    ensures var o := Opened(s, path).tree;
            && o == Create(s.tree, ParentOf(s.tree, s.dir, path), BaseName(path), FILE_MODE)
            && Target(s, path) == (if ParentHasRoom(s, path) then s.tree.nextInode else NO_ENTRY)
            && IsFile(o, s.tree.nextInode) && Walkable(o, s.dir, path) && TreeOk(o) && Extends(s.tree, o)
            && (forall n :: IsFile(s.tree, n) ==> n in o.nodes && o.nodes[n] == s.tree.nodes[n])
  {
    hide TreeOk, Extends, Walkable, Components, Resolve, FirstMatch;
    var parent, base := ParentOf(s.tree, s.dir, path), BaseName(path);
    var o := Opened(s, path).tree;
    BaseNameValid(path);
    assert FILE_MODE / S_IFDIR % 2 == 0;
    CreateKeeps(s.tree, parent, base, FILE_MODE);
    ParentAgrees(s.tree, s.dir, path);
    CreatedLookup(s.tree, parent, base);
    ParentStable(s, o, path);
    ParentAgrees(o, s.dir, path);
  }

  // ------------------------------------------------------------------ write then read

  // fs_write succeeds exactly when the file exists or its parent directory has room for it.
  lemma WriteSucceeds(s: Session, path: Bytes, data: Bytes)
    requires SessionOk(s) && WriteReady(s, path)
    ensures WriteResult(s, path, data) ==
            if Resolve(s.tree, s.dir, path) != NO_ENTRY || ParentHasRoom(s, path) then Stored(|data|) else -1
  {
    if Resolve(s.tree, s.dir, path) != NO_ENTRY {
      OpenedExisting(s, path);
    } else if HasParent(s, path) {
      OpenedNew(s, path);
    } else {
      OpenedNowhere(s, path);
    }
  }

  lemma OpenedOk(s: Session, path: Bytes)
    requires SessionOk(s) && WriteReady(s, path)
    ensures var o, n := Opened(s, path), Target(s, path);
            && SessionOk(o) && Extends(s.tree, o.tree) && o.cwd == s.cwd && o.dir == s.dir
            && Walkable(o.tree, s.dir, path)
            && (n != NO_ENTRY ==> IsFile(o.tree, n) && o.tree.nextBlock + DIRECT <= DISK_BLOCKS)
            && (forall f :: IsFile(s.tree, f) ==> f in o.tree.nodes && o.tree.nodes[f] == s.tree.nodes[f])
  {
    if Resolve(s.tree, s.dir, path) != NO_ENTRY {
      OpenedExisting(s, path);
    } else if HasParent(s, path) {
      OpenedNew(s, path);
      CreateBlocks(s.tree, ParentOf(s.tree, s.dir, path), BaseName(path));
    } else {
      OpenedNowhere(s, path);
    }
  }

  lemma CreateBlocks(t: Tree, parent: nat, name: Bytes)
    requires Mutable(t, parent)
    ensures Create(t, parent, name, FILE_MODE).nextBlock <= t.nextBlock + 1
  {
    DirSize(t, parent);
    assert Allocated(t.nextInode, parent);
  }

  // The central promise: what a successful write stored is what a read of the path returns, cut to the size asked for;
  // every other regular file reads as before.
  lemma WriteThenRead(s: Session, path: Bytes, data: Bytes, size: nat)
    requires SessionOk(s) && WriteReady(s, path)
    requires Resolve(s.tree, s.dir, path) != NO_ENTRY || ParentHasRoom(s, path)
    requires 1 <= |data|
    ensures var u := WritePath(s, path, data);
            && WriteResult(s, path, data) == Stored(|data|)
            && SessionOk(u) && ReadReady(u, path) && Resolve(u.tree, u.dir, path) == Target(s, path)
            && ReadPath(u, path, size) == Slice(Padded(data[..Stored(|data|)]), 0, size)
            && (forall f :: IsFile(s.tree, f) && f != Target(s, path) ==>
                  IsFile(u.tree, f) && u.tree.nodes[f] == s.tree.nodes[f])
  {
    hide TreeOk, Extends, Components, Slice, Padded;
    var o, n := Opened(s, path), Target(s, path);
    WriteSucceeds(s, path, data);
    OpenedOk(s, path);
    var u := WritePath(s, path, data);
    WriteOk(o.tree, n, data);
    WriteExtends(o.tree, n, data);
    WalkStable(o.tree, u.tree, Start(s.dir, path), Components(path));
    WrittenDirs(o.tree, n, data, s.dir);
  }

  lemma WrittenDirs(t: Tree, n: nat, data: Bytes, d: nat)
    requires IsFile(t, n)
    ensures IsDir(t, d) <==> IsDir(Write(t, n, data), d)
  {
  }

  // ------------------------------------------------------------------ the working directory

  lemma CoherentKept(s: Session, u: Tree)
    requires Coherent(s) && Extends(s.tree, u)
    ensures Coherent(s.(tree := u))
  {
    WalkStable(s.tree, u, ROOT, Components(s.cwd));
  }

  // The text above the working directory leads to a directory.
  lemma UpCoherent(s: Session)
    requires SessionOk(s) && Coherent(s)
    ensures UpReady(s) && Coherent(Chdir(s, DOTDOT)) && SessionOk(Chdir(s, DOTDOT))
  {
    hide Components, TreeOk;
    RootResolves(s.tree, s.dir);
    RootIsDir(s.tree);
    var last := LastIndex(s.cwd, SLASH);
    if last > 0 {
      var up, rest := s.cwd[..last], s.cwd[last + 1..];
      assert s.cwd == up + [SLASH] + rest;
      ComponentsJoin(up, rest);
      WalkJoin(s.tree, ROOT, Components(up), Components(rest));
    }
  }

  lemma RootIsDir(t: Tree)
    requires TreeOk(t)
    ensures IsDir(t, ROOT)
  {
    assert Allocated(t.nextInode, ROOT) && NodeOk(t, ROOT, t.nodes[ROOT]);
  }

  lemma EntryNamesAreNames(t: Tree, n: nat, name: Bytes)
    requires TreeOk(t) && Lookup(t, n, name) != NO_ENTRY
    ensures ValidName(name)
  {
    FirstMatchFound(t.nodes[n].body.entries, name);
    assert NodeOk(t, n, t.nodes[n]);
    var e :| e in t.nodes[n].body.entries && e.name == name;
    assert EntryOk(t, n, e);
  }

  // Looking the argument up as a name first never changes where it leads.
  lemma ChdirTargetIs(s: Session, dir: Bytes)
    requires SessionOk(s) && dir != []
    ensures ChdirTarget(s, dir) == Resolve(s.tree, s.dir, dir)
  {
    if Lookup(s.tree, s.dir, dir) != NO_ENTRY {
      EntryNamesAreNames(s.tree, s.dir, dir);
      NameResolves(s.tree, s.dir, dir);
    }
  }

  ghost predicate Plain(dir: Bytes) { dir != [] && dir != [SLASH] && dir != DOTDOT }

  lemma ChdirLeadsToDir(s: Session, dir: Bytes)
    requires SessionOk(s) && ChdirReady(s, dir) && ChdirSucceeds(s, dir) && Plain(dir)
    ensures IsDir(s.tree, ChdirTarget(s, dir)) && SessionOk(Chdir(s, dir))
    ensures dir[0] != SLASH ==> s.dir < ChdirTarget(s, dir)
  {
    ChdirTargetIs(s, dir);
    var n := ChdirTarget(s, dir);
    assert NodeOk(s.tree, n, s.tree.nodes[n]);
    if dir[0] != SLASH {
      WalkInTree(s.tree, s.dir, Components(dir));
      assert Run(dir, COMPONENT_MAX) > 0;
    }
  }

  // The new text where it replaces the old one.
  ghost function FullText(dir: Bytes): (text: Bytes)
    requires dir != []
    ensures text != [] && text[0] == SLASH
  {
    if dir[0] == SLASH then dir else [SLASH] + dir
  }

  // Whether the new text is stored, but for slashes at its end.
  ghost predicate CwdFits(cwd: Bytes, dir: Bytes) {
    if !Plain(dir) then true
    else if dir[0] == SLASH || cwd == [SLASH] then |FullText(dir)| <= PATH_MAX || AllSlashes(FullText(dir)[PATH_MAX..])
    else |cwd| + 1 + |dir| < PATH_MAX
  }

  lemma ChdirCoherent(s: Session, dir: Bytes)
    requires SessionOk(s) && Coherent(s) && ChdirReady(s, dir) && CwdFits(s.cwd, dir)
    ensures Coherent(Chdir(s, dir)) && SessionOk(Chdir(s, dir))
  {
    hide Components, CwdFits;
    if dir == DOTDOT {
      UpCoherent(s);
    } else if dir == [SLASH] {
      RootResolves(s.tree, s.dir);
      RootIsDir(s.tree);
    } else if ChdirSucceeds(s, dir) {
      ChdirLeadsToDir(s, dir);
      ChdirTargetIs(s, dir);
      if dir[0] == SLASH || s.cwd == [SLASH] {
        WholeText(s, dir);
        CutText(s, dir);
      } else {
        RelativeText(s, dir);
      }
    }
  }

  // Where the text is replaced, the argument is walked from the root.
  lemma WholeText(s: Session, dir: Bytes)
    requires Coherent(s) && Plain(dir) && (dir[0] == SLASH || s.cwd == [SLASH])
    ensures CwdText(s.cwd, dir) == Cut(FullText(dir)) && Components(FullText(dir)) == Components(dir)
    ensures Start(s.dir, dir) == ROOT
    ensures var text := CwdText(s.cwd, dir);
            text != [] && text[0] == SLASH && |text| <= PATH_MAX && (NulFree(dir) ==> NulFree(text))
  {
    hide Components;
    if dir[0] != SLASH {
      SlashesIgnored([], dir);
      RootResolves(s.tree, s.dir);
    }
  }

  lemma CutText(s: Session, dir: Bytes)
    requires Coherent(s) && Plain(dir) && (dir[0] == SLASH || s.cwd == [SLASH])
    ensures CwdFits(s.cwd, dir) <==> Components(Cut(FullText(dir))) == Components(FullText(dir))
  {
    hide Components, AllSlashes;
    var full := FullText(dir);
    if |full| > PATH_MAX {
      CutKeepsComponents(full, PATH_MAX);
    }
  }

  lemma RelativeText(s: Session, dir: Bytes)
    requires Coherent(s) && Plain(dir) && dir[0] != SLASH && s.cwd != [SLASH] && CwdFits(s.cwd, dir)
    ensures var text := CwdText(s.cwd, dir);
            && text != [] && text[0] == SLASH && |text| <= PATH_MAX && (NulFree(dir) ==> NulFree(text))
            && Walk(s.tree, ROOT, Components(text)) == Walk(s.tree, s.dir, Components(dir))
            && (DirWalk(s.tree, ROOT, Components(text)) <==> DirWalk(s.tree, s.dir, Components(dir)))
  {
    hide Components;
    ComponentsJoin(s.cwd, dir);
    WalkJoin(s.tree, ROOT, Components(s.cwd), Components(dir));
  }

  // Below the root, a relative change keeps text and inode together exactly when the joined text is shorter than 127.
  lemma RelativeChdirExact(s: Session, dir: Bytes)
    requires SessionOk(s) && Coherent(s) && ChdirReady(s, dir) && ChdirSucceeds(s, dir)
    requires Plain(dir) && dir[0] != SLASH && s.cwd != [SLASH]
    ensures Coherent(Chdir(s, dir)) <==> |s.cwd| + 1 + |dir| < PATH_MAX
  {
    if |s.cwd| + 1 + |dir| < PATH_MAX {
      ChdirCoherent(s, dir);
    } else {
      ChdirLeadsToDir(s, dir);
    }
  }

  // ------------------------------------------------------------------ whole runs

  datatype Request =
    | AskMkdir(path: Bytes)
    | AskCreate(path: Bytes)
    | AskWrite(path: Bytes, data: Bytes)
    | AskDelete(path: Bytes)
    | AskChdir(path: Bytes)

  ghost predicate Ready(s: Session, r: Request) {
    match r
    case AskMkdir(p) => NewReady(s, p, 0)
    case AskCreate(p) => NewReady(s, p, 0)
    case AskWrite(p, d) => WriteReady(s, p)
    case AskDelete(p) => ParentReady(s, p)
    case AskChdir(p) => ChdirReady(s, p)
  }

  ghost function Serve(s: Session, r: Request): Session
    requires SessionOk(s) && Ready(s, r)
  {
    match r
    case AskMkdir(p) => MkdirPath(s, p)
    case AskCreate(p) => CreatePath(s, p)
    case AskWrite(p, d) => WritePath(s, p, d)
    case AskDelete(p) => DeletePath(s, p)
    case AskChdir(p) => Chdir(s, p)
  }

  lemma MkdirServed(s: Session, p: Bytes)
    requires SessionOk(s) && NewReady(s, p, 0)
    ensures SessionOk(MkdirPath(s, p)) && Extends(s.tree, MkdirPath(s, p).tree)
  {
    hide TreeOk;
    if HasParent(s, p) {
      BaseNameValid(p);
      MkdirKeeps(s.tree, ParentOf(s.tree, s.dir, p), BaseName(p));
    }
  }

  lemma CreateServed(s: Session, p: Bytes)
    requires SessionOk(s) && NewReady(s, p, 0)
    ensures SessionOk(CreatePath(s, p)) && Extends(s.tree, CreatePath(s, p).tree)
  {
    hide TreeOk;
    assert FILE_MODE / S_IFDIR % 2 == 0;
    if HasParent(s, p) {
      BaseNameValid(p);
      CreateKeeps(s.tree, ParentOf(s.tree, s.dir, p), BaseName(p), FILE_MODE);
    }
  }

  lemma WriteServed(s: Session, p: Bytes, d: Bytes)
    requires SessionOk(s) && WriteReady(s, p)
    ensures SessionOk(WritePath(s, p, d)) && Extends(s.tree, WritePath(s, p, d).tree)
  {
    hide TreeOk, Extends;
    OpenedOk(s, p);
    var o, n := Opened(s, p), Target(s, p);
    if n != NO_ENTRY {
      WriteOk(o.tree, n, d);
      WriteExtends(o.tree, n, d);
      WrittenDirs(o.tree, n, d, s.dir);
      ExtendsTrans(s.tree, o.tree, WritePath(s, p, d).tree);
    }
    ExtendedDir(s.tree, o.tree, s.dir);
  }

  lemma ExtendedDir(t: Tree, u: Tree, n: nat)
    requires Extends(t, u) && IsDir(t, n)
    ensures IsDir(u, n)
  {
  }

  lemma UnlinkDirs(t: Tree, dir: nat, name: Bytes, n: nat)
    requires TreeOk(t) && IsDir(t, dir)
    ensures IsDir(t, n) <==> IsDir(Unlink(t, dir, name), n)
  {
  }

  lemma DeleteServed(s: Session, p: Bytes)
    requires SessionOk(s) && ParentReady(s, p)
    ensures SessionOk(DeletePath(s, p))
  {
    hide TreeOk;
    if HasParent(s, p) {
      UnlinkOk(s.tree, ParentOf(s.tree, s.dir, p), BaseName(p));
      UnlinkDirs(s.tree, ParentOf(s.tree, s.dir, p), BaseName(p), s.dir);
    }
  }

  lemma ChdirServed(s: Session, p: Bytes)
    requires SessionOk(s) && ChdirReady(s, p)
    ensures SessionOk(Chdir(s, p))
  {
    RootIsDir(s.tree);
    if Plain(p) && ChdirSucceeds(s, p) {
      ChdirLeadsToDir(s, p);
    }
  }

  lemma ServeOk(s: Session, r: Request)
    requires SessionOk(s) && Ready(s, r)
    ensures SessionOk(Serve(s, r))
  {
    hide SessionOk;
    match r
    case AskMkdir(p) => MkdirServed(s, p);
    case AskCreate(p) => CreateServed(s, p);
    case AskWrite(p, d) => WriteServed(s, p, d);
    case AskDelete(p) => DeleteServed(s, p);
    case AskChdir(p) => ChdirServed(s, p);
  }

  // The inodes a walk meets, the starting point left out.
  ghost function Visited(t: Tree, n: nat, cs: seq<Bytes>): set<int>
    decreases |cs|
  {
    if cs == [] then {}
    else
      var m := Lookup(t, n, cs[0]);
      if m == NO_ENTRY then {} else {m} + Visited(t, m, cs[1..])
  }

  lemma {:induction false} WalkSpared(t: Tree, dir: nat, name: Bytes, n: nat, cs: seq<Bytes>)
    requires TreeOk(t) && IsDir(t, dir) && Lookup(t, dir, name) != NO_ENTRY
    requires n != Lookup(t, dir, name) && Lookup(t, dir, name) !in Visited(t, n, cs)
    ensures var u := Unlink(t, dir, name);
            && Walk(u, n, cs) == Walk(t, n, cs) && (DirWalk(u, n, cs) <==> DirWalk(t, n, cs))
    decreases |cs|
  {
    if cs != [] {
      SparedLookup(t, dir, name, n, cs[0]);
      if Lookup(t, n, cs[0]) != NO_ENTRY {
        WalkSpared(t, dir, name, Lookup(t, n, cs[0]), cs[1..]);
      }
    }
  }

  // Unlinking removes the first match and leaves every other lookup alone, in that directory and in all others.
  lemma SparedLookup(t: Tree, dir: nat, name: Bytes, n: nat, other: Bytes)
    requires TreeOk(t) && IsDir(t, dir) && Lookup(t, dir, name) != NO_ENTRY && n != Lookup(t, dir, name)
    ensures IsDir(t, n) <==> IsDir(Unlink(t, dir, name), n)
    ensures !(n == dir && other == name) ==> Lookup(Unlink(t, dir, name), n, other) == Lookup(t, n, other)
  {
    LookupOk(t, dir, name);
    if n == dir && other != name {
      RemoveFirstOther(t.nodes[dir].body.entries, name, other);
    }
  }

  // A request that cannot separate the working directory's text from its inode.
  ghost predicate Gentle(s: Session, r: Request)
    requires Ready(s, r)
  {
    match r
    case AskChdir(p) => !ChdirSucceeds(s, p) || CwdFits(s.cwd, p)
    case AskDelete(p) =>
      HasParent(s, p) ==>
        var victim := Lookup(s.tree, ParentOf(s.tree, s.dir, p), BaseName(p));
        victim == NO_ENTRY || victim !in Visited(s.tree, ROOT, Components(s.cwd))
    case _ => true
  }

  lemma ServeCoherent(s: Session, r: Request)
    requires SessionOk(s) && Ready(s, r) && Coherent(s) && Gentle(s, r)
    ensures Coherent(Serve(s, r))
  {
    hide Components, TreeOk, Extends, Coherent, SessionOk, Walkable, Resolve;
    match r
    case AskMkdir(p) =>
      MkdirServed(s, p);
      CoherentKept(s, MkdirPath(s, p).tree);
    case AskCreate(p) =>
      CreateServed(s, p);
      CoherentKept(s, CreatePath(s, p).tree);
    case AskWrite(p, d) =>
      WriteServed(s, p, d);
      CoherentKept(s, WritePath(s, p, d).tree);
    case AskDelete(p) =>
      DeleteCoherent(s, p);
    case AskChdir(p) =>
      if ChdirSucceeds(s, p) {
        ChdirCoherent(s, p);
      }
  }

  lemma DeleteCoherent(s: Session, p: Bytes)
    requires SessionOk(s) && ParentReady(s, p) && Coherent(s) && Gentle(s, AskDelete(p))
    ensures Coherent(DeletePath(s, p))
  {
    hide Components;
    if HasParent(s, p) {
      var parent, base := ParentOf(s.tree, s.dir, p), BaseName(p);
      UnlinkDirs(s.tree, parent, base, s.dir);
      if Lookup(s.tree, parent, base) != NO_ENTRY {
        LookupOk(s.tree, parent, base);
        ParentAtLeastRoot(s.tree, parent);
        WalkSpared(s.tree, parent, base, ROOT, Components(s.cwd));
      }
    }
  }

  lemma ParentAtLeastRoot(t: Tree, n: nat)
    requires TreeOk(t) && n in t.nodes
    ensures ROOT <= n
  {
    assert Allocated(t.nextInode, n);
  }

  ghost predicate ReadyRun(s: Session, rs: seq<Request>)
    requires SessionOk(s)
    decreases |rs|
  {
    rs == [] || (Ready(s, rs[0]) && (ServeOk(s, rs[0]); ReadyRun(Serve(s, rs[0]), rs[1..])))
  }

  ghost function ServeRun(s: Session, rs: seq<Request>): (u: Session)
    requires SessionOk(s) && ReadyRun(s, rs)
    ensures SessionOk(u)
    decreases |rs|
  {
    if rs == [] then s else ServeOk(s, rs[0]); ServeRun(Serve(s, rs[0]), rs[1..])
  }

  ghost predicate GentleRun(s: Session, rs: seq<Request>)
    requires SessionOk(s) && ReadyRun(s, rs)
    decreases |rs|
  {
    rs == [] || (Gentle(s, rs[0]) && (ServeOk(s, rs[0]); GentleRun(Serve(s, rs[0]), rs[1..])))
  }

  // Over any run, resolving the text of the working directory gives its inode.
  lemma {:induction false} RunCoherent(s: Session, rs: seq<Request>)
    requires SessionOk(s) && Coherent(s) && ReadyRun(s, rs) && GentleRun(s, rs)
    ensures Coherent(ServeRun(s, rs))
    ensures var u := ServeRun(s, rs); Resolve(u.tree, u.dir, u.cwd) == u.dir
    decreases |rs|
  {
    hide SessionOk, Coherent, Ready, Gentle, Serve;
    if rs == [] {
      CwdResolves(s);
    } else {
      ServeOk(s, rs[0]);
      ServeCoherent(s, rs[0]);
      RunCoherent(Serve(s, rs[0]), rs[1..]);
    }
  }

  lemma CwdResolves(s: Session)
    requires Coherent(s)
    ensures Resolve(s.tree, s.dir, s.cwd) == s.dir
  {
  }

  // ------------------------------------------------------------------ directories accept twelve names, ever

  ghost function Used(t: Tree, d: nat): nat
    requires IsDir(t, d)
  {
    t.nodes[d].body.full
  }

  // Whether a request puts a name into directory d.
  ghost predicate AddsTo(s: Session, r: Request, d: nat)
    requires Ready(s, r)
  {
    match r
    case AskMkdir(p) => ParentHasRoom(s, p) && ParentOf(s.tree, s.dir, p) == d
    case AskCreate(p) => ParentHasRoom(s, p) && ParentOf(s.tree, s.dir, p) == d
    case AskWrite(p, _) => Resolve(s.tree, s.dir, p) == NO_ENTRY && ParentHasRoom(s, p) && ParentOf(s.tree, s.dir, p) == d
    case _ => false
  }

  ghost predicate Removes(s: Session, r: Request, d: nat)
    requires Ready(s, r)
  {
    r.AskDelete? && HasParent(s, r.path) && Lookup(s.tree, ParentOf(s.tree, s.dir, r.path), BaseName(r.path)) == d
  }

  lemma AddEntryUsed(t: Tree, parent: nat, e: Entry, d: nat)
    requires IsDir(t, parent) && t.nodes[parent].attr.size <= MAX_FILE && IsDir(t, d)
    ensures var u := AddEntry(t, parent, e);
            IsDir(u, d) && Used(u, d) == Used(t, d) + if parent == d && HasRoom(t, d) then 1 else 0
  {
  }

  lemma MkdirUsed(t: Tree, parent: nat, name: Bytes, d: nat)
    requires Mutable(t, parent) && IsDir(t, d)
    ensures var u := Mkdir(t, parent, name);
            IsDir(u, d) && Used(u, d) == Used(t, d) + if parent == d && HasRoom(t, d) then 1 else 0
  {
    DirSize(t, parent);
    assert Allocated(t.nextInode, parent) && Allocated(t.nextInode, d);
    AddEntryUsed(WithNewDir(t), parent, Entry(name, t.nextInode, TYPE_DIR), d);
  }

  lemma CreateUsed(t: Tree, parent: nat, name: Bytes, d: nat)
    requires Mutable(t, parent) && IsDir(t, d)
    ensures var u := Create(t, parent, name, FILE_MODE);
            IsDir(u, d) && Used(u, d) == Used(t, d) + if parent == d && HasRoom(t, d) then 1 else 0
  {
    DirSize(t, parent);
    assert Allocated(t.nextInode, parent) && Allocated(t.nextInode, d);
    AddEntryUsed(NewNode(t, FreshFile(FILE_MODE)), parent, Entry(name, t.nextInode, TYPE_FILE), d);
  }

  // Deleting a name from a directory gives nothing back.
  lemma UnlinkUsed(t: Tree, dir: nat, name: Bytes, d: nat)
    requires TreeOk(t) && IsDir(t, dir) && IsDir(t, d) && Lookup(t, dir, name) != d
    ensures IsDir(Unlink(t, dir, name), d) && Used(Unlink(t, dir, name), d) == Used(t, d)
  {
    if Lookup(t, dir, name) != NO_ENTRY {
      LookupOk(t, dir, name);
    }
  }

  lemma ServeUsed(s: Session, r: Request, d: nat)
    requires SessionOk(s) && Ready(s, r) && IsDir(s.tree, d) && !Removes(s, r, d)
    ensures IsDir(Serve(s, r).tree, d)
    ensures Used(Serve(s, r).tree, d) == Used(s.tree, d) + if AddsTo(s, r, d) then 1 else 0
  {
    hide Components, TreeOk, Extends;
    match r
    case AskMkdir(p) =>
      if HasParent(s, p) {
        MkdirUsed(s.tree, ParentOf(s.tree, s.dir, p), BaseName(p), d);
      }
    case AskCreate(p) =>
      if HasParent(s, p) {
        CreateUsed(s.tree, ParentOf(s.tree, s.dir, p), BaseName(p), d);
      }
    case AskWrite(p, data) =>
      WriteUsed(s, p, data, d);
    case AskDelete(p) =>
      if HasParent(s, p) {
        UnlinkUsed(s.tree, ParentOf(s.tree, s.dir, p), BaseName(p), d);
      }
    case AskChdir(p) =>
  }

  lemma WrittenUsed(t: Tree, n: nat, data: Bytes, d: nat)
    requires IsFile(t, n) && IsDir(t, d)
    ensures IsDir(Write(t, n, data), d) && Used(Write(t, n, data), d) == Used(t, d)
  {
  }

  lemma WriteUsed(s: Session, p: Bytes, data: Bytes, d: nat)
    requires SessionOk(s) && WriteReady(s, p) && IsDir(s.tree, d)
    ensures var u := WritePath(s, p, data).tree;
            && IsDir(u, d)
            && Used(u, d) == Used(s.tree, d) +
               if Resolve(s.tree, s.dir, p) == NO_ENTRY && ParentHasRoom(s, p) && ParentOf(s.tree, s.dir, p) == d then 1 else 0
  {
    hide Components, TreeOk, Extends, Used, Write, Walkable, Resolve, ParentOf, BaseName;
    if Resolve(s.tree, s.dir, p) != NO_ENTRY {
      OpenedExisting(s, p);
    } else if HasParent(s, p) {
      OpenedNew(s, p);
      BaseNameValid(p);
      CreateUsed(s.tree, ParentOf(s.tree, s.dir, p), BaseName(p), d);
    } else {
      OpenedNowhere(s, p);
    }
    var o, n := Opened(s, p), Target(s, p);
    if n != NO_ENTRY && IsFile(o.tree, n) {
      WrittenUsed(o.tree, n, data, d);
    }
  }

  ghost predicate NeverRemoved(s: Session, rs: seq<Request>, d: nat)
    requires SessionOk(s) && ReadyRun(s, rs)
    decreases |rs|
  {
    rs == [] || (!Removes(s, rs[0], d) && (ServeOk(s, rs[0]); NeverRemoved(Serve(s, rs[0]), rs[1..], d)))
  }

  ghost function Additions(s: Session, rs: seq<Request>, d: nat): nat
    requires SessionOk(s) && ReadyRun(s, rs)
    decreases |rs|
  {
    if rs == [] then 0
    else ServeOk(s, rs[0]); (if AddsTo(s, rs[0], d) then 1 else 0) + Additions(Serve(s, rs[0]), rs[1..], d)
  }

  // However names come and go, a directory that is not itself removed takes at most twelve of them over its life.
  lemma {:induction false} TwelveNamesEver(s: Session, rs: seq<Request>, d: nat)
    requires SessionOk(s) && ReadyRun(s, rs) && IsDir(s.tree, d) && NeverRemoved(s, rs, d)
    ensures IsDir(ServeRun(s, rs).tree, d)
    ensures Used(ServeRun(s, rs).tree, d) == Used(s.tree, d) + Additions(s, rs, d) <= DIRECT
    decreases |rs|
  {
    hide Ready, Serve, AddsTo, Removes, TreeOk;
    if rs == [] {
      UsedBound(s.tree, d);
    } else {
      ServeOk(s, rs[0]);
      ServeUsed(s, rs[0], d);
      TwelveNamesEver(Serve(s, rs[0]), rs[1..], d);
    }
  }

  lemma UsedBound(t: Tree, d: nat)
    requires TreeOk(t) && IsDir(t, d)
    ensures Used(t, d) <= DIRECT
  {
    assert NodeOk(t, d, t.nodes[d]);
  }
}
