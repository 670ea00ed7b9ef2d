/** kernel/fs.c: paths resolved over a mounted store, and the working directory. */
module FileSystem {
  import opened Bytes
  import opened InodeTable
  import opened DirentBlock
  import opened StoreModel
  import opened Layout
  import opened LayoutSteps
  import opened Ext2Store
  import opened CString
  import opened Paths
  import opened Sessions
  import opened SessionLaws
  import HomeLaws
  import NodeLaws
  import UpLaws
  import Format

  const CWD_SIZE := 128
  const BASE_SIZE := 64
  const JOIN_FORMAT: Bytes := ['/', '%', 's']

  lemma RunIs(path: Bytes, n: nat, r: nat)
    requires r <= n && r <= |path| && SLASH !in path[..r]
    requires r == n || r == |path| || path[r] == SLASH
    ensures Run(path, n) == r
  {
    if r > 0 {
      assert path[0] in path[..r];
      assert path[1..][..r - 1] == path[..r][1..];
      RunIs(path[1..], n - 1, r - 1);
    }
  }

  // The inner loop of fs_resolve_inode: one component into its buffer.
  method ReadComponent(path: Bytes, p0: nat, component: array<Byte>) returns (p: nat)
    requires p0 <= |path| && component.Length == BASE_SIZE && NulFree(path)
    modifies component
    ensures p == p0 + Run(path[p0..], COMPONENT_MAX) <= |path| && CStr(component[..]) == path[p0..p]
  {
    p := p0;
    var i := 0;
    while p < |path| && path[p] != SLASH && i < COMPONENT_MAX
      invariant p0 <= p <= |path| && i == p - p0 && i <= COMPONENT_MAX
      invariant component[..i] == path[p0..p] && SLASH !in path[p0..p]
    {
      component[i] := path[p];
      i := i + 1;
      p := p + 1;
    }
    component[i] := NUL;
    CStrIs(component[..], path[p0..p]);
    assert path[p0..][..i] == path[p0..p];
    RunIs(path[p0..], COMPONENT_MAX, i);
  }

  lemma NextComponent(path: Bytes, p: nat, q: nat)
    requires p < |path| && q == p + Run(path[p..], COMPONENT_MAX)
    ensures q <= |path|
    ensures var next := if q < |path| && path[q] == SLASH then q + 1 else q;
            && p < next <= |path|
            && Components(path[p..]) == (if p == q then [] else [path[p..q]]) + Components(path[next..])
  {
    var rest := path[p..];
    var r := Run(rest, COMPONENT_MAX);
    assert rest[..r] == path[p..q] && rest[r..] == path[q..];
    var next := if q < |path| && path[q] == SLASH then q + 1 else q;
    assert AfterRun(rest) == path[next..];
  }

  lemma WalkStep(t: Tree, n: nat, c: Bytes, cs: seq<Bytes>)
    ensures Walk(t, n, [c] + cs) == if Lookup(t, n, c) == NO_ENTRY then NO_ENTRY else Walk(t, Lookup(t, n, c), cs)
    ensures DirWalk(t, n, [c] + cs) <==>
            IsDir(t, n) && (Lookup(t, n, c) == NO_ENTRY || DirWalk(t, Lookup(t, n, c), cs))
  {
    assert ([c] + cs)[1..] == cs;
  }

  class Fs {
    const store: Ext2
    const cwd: array<Byte>
    var cwdInode: nat

    ghost predicate Valid()
      reads this, store, cwd
    {
      && store.Valid() && cwd.Length == CWD_SIZE && Terminated(cwd[..])
      && SessionOk(Session(store.T(), CStr(cwd[..]), cwdInode))
    }

    // The abstract state.
    ghost function S(): Session
      reads this, store, cwd
      requires Valid()
    {
      Session(store.T(), CStr(cwd[..]), cwdInode)
    }

    constructor Mounted(formatted: Ext2)
      requires formatted.Valid()
      ensures Valid() && store == formatted && fresh(cwd)
      ensures S() == Session(formatted.T(), [SLASH], ROOT) && Coherent(S())
    {
      store := formatted;
      cwd := new Byte[CWD_SIZE](i => if i == 0 then SLASH else NUL);
      cwdInode := ROOT;
      new;
      hide Inv, Abs, TreeOk, IsDir, Coherent, CStr, Terminated, NulFree;
      RootText(cwd[..]);
      StartsOk(store.St());
      StartsCoherent(S());
    }

    // fs_resolve_inode (kernel/fs.c:9-28).
    method ResolveInode(path: Bytes) returns (r: int)
      requires Valid() && NulFree(path) && Walkable(S().tree, cwdInode, path)
      ensures r == Resolve(S().tree, cwdInode, path)
    {
      ghost var t := S().tree;
      if path == [] {
        return NO_ENTRY;
      }
      if path == [SLASH] {
        RootResolves(t, cwdInode);
        return ROOT;
      }
      r := WalkComponents(path);
    }

    method WalkComponents(path: Bytes) returns (r: int)
      requires Valid() && NulFree(path) && path != [] && Walkable(S().tree, cwdInode, path)
      ensures r == Resolve(S().tree, cwdInode, path)
    {
      hide Components, Run, Walk, DirWalk, Lookup, Inv, Abs, SessionOk, IsDir;
      ghost var t := S().tree;
      var current: nat := if path[0] == SLASH then ROOT else cwdInode;
      var component := new Byte[BASE_SIZE];
      var p := if path[0] == SLASH then 1 else 0;
      LeadingSlash(path);
      while p < |path|
        invariant 0 <= p <= |path|
        invariant DirWalk(t, current, Components(path[p..]))
        invariant Walk(t, current, Components(path[p..])) == Resolve(t, cwdInode, path)
        decreases |path| - p
      {
        ghost var p0 := p;
        p := ReadComponent(path, p, component);
        NextComponent(path, p0, p);
        ghost var q := p;
        if p < |path| && path[p] == SLASH {
          p := p + 1;
        }
        var name := CStr(component[..]);
        if name != [] {
          WalkStep(t, current, name, Components(path[p..]));
          var inode := store.FindInode(current, name);
          if inode < 0 {
            return NO_ENTRY;
          }
          current := inode;
        } else {
          assert [] + Components(path[p..]) == Components(path[p..]);
        }
      }
      WalkEnds(t, current, path);
      r := current;
    }

    // fs_get_parent (kernel/fs.c:30-41); the caller's basename buffer has room for 63 characters.
    method GetParent(path: Bytes, basename: array<Byte>) returns (parent: int)
      requires Valid() && ParentReady(S(), path) && basename.Length == BASE_SIZE && basename != cwd
      modifies basename
      ensures Valid() && S() == old(S())
      ensures parent == ParentOf(S().tree, cwdInode, path)
      ensures path != [] ==> CStr(basename[..]) == BaseName(path)
    {
      hide Inv, Abs, Resolve, Walkable, SessionOk, IsDir, CStr, LastIndex, Terminated, NulFree;
      if path == [] {
        return NO_ENTRY;
      }
      var tmp := new Byte[PATH_MAX + 1];
      var last := SplitPath(path, tmp, basename);
      if last < 0 {
        return cwdInode;
      }
      if last == 0 {
        RootResolves(S().tree, cwdInode);
        return ROOT;
      }
      tmp[last] := NUL;
      CStrIs(tmp[..], Cut(path)[..last]);
      parent := ResolveInode(CStr(tmp[..]));
    }

    // fs_mkdir (kernel/fs.c:124-131).
    method MakeDirectory(path: Bytes) returns (r: int)
      requires Valid() && NewReady(S(), path, 0)
      modifies store
      ensures Valid() && S() == MkdirPath(old(S()), path) && Evolves(old(store.St()), store.St())
      ensures r == if HasParent(old(S()), path) then old(S().tree.nextInode) else -1
      ensures NodeLaws.Made(old(S()), S(), path, NodeLaws.NewDirectory(), 2, 1, r)
    {
      hide Inv, Abs, SessionOk, ParentReady, ParentOf, BaseName, Mutable, IsDir, ValidName, Mkdir, Evolves, Capacity;
      hide NodeLaws.Made;
      EvolvesRefl(store.St());
      NodeLaws.MkdirDone(S(), path);
      MkdirServed(S(), path);
      ReadyParent(S(), path);
      var basename := new Byte[BASE_SIZE];
      var parent := GetParent(path, basename);
      if parent < 0 || CStr(basename[..]) == [] {
        return -1;
      }
      CountersOk(store.St());
      r := store.MakeDir(parent, CStr(basename[..]));
    }

    // fs_create_home (kernel/fs.c:287-297).
    method CreateHome(name: Bytes) returns (r: int)
      requires Valid() && HomeReady(S(), name)
      modifies store
      ensures Valid() && S() == HomePath(old(S()), name) && Evolves(old(store.St()), store.St())
      ensures r == if name == ROOT_NAME then 0
                   else if HomeFails(old(S()), name) then -1 else WithHome(old(S())).tree.nextInode
      ensures HomeLaws.Homed(old(S()), S(), name, r)
    {
      hide Inv, Abs, TreeOk, Resolve, Walkable, IsDir, Evolves, Lookup, Mkdir, ValidName, NulFree, HomeLaws.Homed;
      EvolvesRefl(store.St());
      HomeLaws.HomeDone(S(), name);
      HomeLaws.HomeServed(S(), name);
      if name == ROOT_NAME {
        return 0;
      }
      HomeLaws.WithHomeOk(S());
      if !HomeFails(S(), name) {
        HomeLaws.HomeNumber(S(), name);
      }
      MakeHome();
      ghost var mid := store.St();
      CountersOk(mid);
      var home := store.FindInode(ROOT, HOME_NAME);
      if home <= 0 {
        return -1;
      }
      r := store.MakeDir(home, name);
      EvolvesTrans(old(store.St()), mid, store.St());
    }

    // Its first half: "home" is made where it is missed.
    method MakeHome()
      requires Valid() && (HomeMissing(S()) ==> Mutable(S().tree, ROOT))
      modifies store
      ensures Valid() && S() == WithHome(old(S())) && Evolves(old(store.St()), store.St())
    {
      hide Inv, Abs, TreeOk, Resolve, IsDir, Evolves, Mkdir;
      EvolvesRefl(store.St());
      HomeLaws.HomeIsAName();
      HomeLaws.HomeWalk(S());
      HomeLaws.WithHomeOk(S());
      var there := ResolveInode(HOME_NAME);
      if there < 0 {
        var made := store.MakeDir(ROOT, HOME_NAME);
      }
    }

    // fs_create (kernel/fs.c:133-140).
    method Create(path: Bytes) returns (r: int)
      requires Valid() && NewReady(S(), path, 0)
      modifies store
      ensures Valid() && S() == CreatePath(old(S()), path) && Evolves(old(store.St()), store.St())
      ensures r == if HasParent(old(S()), path) then old(S().tree.nextInode) else -1
      ensures NodeLaws.Made(old(S()), S(), path, NodeLaws.NewFile(), 1, 0, r)
    {
      hide Inv, Abs, SessionOk, ParentReady, ParentOf, BaseName, Mutable, IsDir, ValidName, StoreModel.Create, Evolves, Capacity;
      hide NodeLaws.Made;
      EvolvesRefl(store.St());
      NodeLaws.CreateDone(S(), path);
      CreateServed(S(), path);
      ReadyParent(S(), path);
      var basename := new Byte[BASE_SIZE];
      var parent := GetParent(path, basename);
      if parent < 0 || CStr(basename[..]) == [] {
        return -1;
      }
      CountersOk(store.St());
      FileModeIsNoDir();
      r := store.CreateFile(parent, CStr(basename[..]), FILE_MODE);
    }

    // fs_delete (kernel/fs.c:142-148).
    method Delete(path: Bytes) returns (r: int)
      requires Valid() && ParentReady(S(), path)
      modifies store
      ensures Valid() && S() == DeletePath(old(S()), path) && Evolves(old(store.St()), store.St())
      ensures r == old(if HasParent(S(), path) && Lookup(S().tree, ParentOf(S().tree, S().dir, path), BaseName(path)) != NO_ENTRY
                       then 0 else -1)
      ensures NodeLaws.Deleted(old(S()), S(), path, r)
    {
      hide Inv, Abs, SessionOk, ParentReady, ParentOf, BaseName, IsDir, Unlink, Lookup, Evolves, NodeLaws.Deleted;
      EvolvesRefl(store.St());
      NodeLaws.DeleteDone(S(), path);
      DeleteServed(S(), path);
      ReadyToDelete(S(), path);
      var basename := new Byte[BASE_SIZE];
      var parent := GetParent(path, basename);
      if parent < 0 || CStr(basename[..]) == [] {
        return -1;
      }
      r := store.UnlinkName(parent, CStr(basename[..]));
    }

    // fs_read (kernel/fs.c:188-195).
    method Read(path: Bytes, buffer: array<Byte>, size: nat) returns (r: int)
      requires Valid() && ReadReady(S(), path) && size <= buffer.Length && buffer != cwd
      modifies buffer
      ensures Valid() && S() == old(S())
      ensures old(Resolve(S().tree, cwdInode, path)) == NO_ENTRY ==> r == -1 && buffer[..] == old(buffer[..])
      ensures old(Resolve(S().tree, cwdInode, path)) != NO_ENTRY ==>
                var wanted := old(ReadPath(S(), path, size));
                && r == |wanted| && buffer[..|wanted|] == wanted && buffer[|wanted|..] == old(buffer[..])[|wanted|..]
      ensures var n := old(Resolve(S().tree, cwdInode, path));
              n >= 0 ==> NodeLaws.ReadOut(old(S().tree), n, size, old(buffer[..]), buffer[..], r)
    {
      hide Inv, Abs, Resolve, Walkable, SessionOk, Slice, FileBytes, Blocks, PointersOk, NodeLaws.ReadOut;
      ghost var was := buffer[..];
      ReadTarget(S(), path);
      var inodeNum := ResolveInode(path);
      if inodeNum < 0 {
        return -1;
      }
      FileAt(store.St(), inodeNum);
      var rc, inode := store.ReadInode(inodeNum);
      r := store.ReadFile(inode, 0, size, buffer);
      NodeLaws.ReadSaid(S(), path, size, was, buffer[..], r);
    }

    // fs_write (kernel/fs.c:197-210); a write of nothing leaves an existing file as it was.
    method Write(path: Bytes, data: Bytes) returns (r: int)
      requires Valid() && WriteReady(S(), path)
      modifies store
      ensures Valid() && S() == WritePath(old(S()), path, data) && r == WriteResult(old(S()), path, data)
      ensures Evolves(old(store.St()), store.St()) && NodeLaws.Written(old(S()), S(), path, data, r)
    {
      hide Inv, Abs, Resolve, Walkable, SessionOk, ParentReady, IsFile, Extends, CreatePath, StoreModel.Write, Evolves, NewReady;
      hide NodeLaws.Written;
      EvolvesRefl(store.St());
      NodeLaws.WriteDone(S(), path, data);
      WriteServed(S(), path, data);
      WriteTarget(S(), path);
      OpenedOk(S(), path);
      var inodeNum := ResolveInode(path);
      if inodeNum < 0 {
        var created := Create(path);
        if created < 0 {
          return -1;
        }
        inodeNum := ResolveInode(path);
        if inodeNum < 0 {
          return -1;
        }
      }
      ghost var mid := store.St();
      r := WriteContents(inodeNum, data);
      EvolvesTrans(old(store.St()), mid, store.St());
    }

    // fs_chdir (kernel/fs.c:212-260).
    method ChangeDir(dir: Bytes) returns (rc: int)
      requires Valid() && ChdirReady(S(), dir)
      modifies this`cwdInode, cwd
      ensures Valid() && S() == Chdir(old(S()), dir)
      ensures rc == if ChdirSucceeds(old(S()), dir) then 0 else -1
      ensures UpLaws.Went(old(S()), S(), dir, rc)
    {
      hide Inv, Abs, Resolve, Walkable, SessionOk, IsDir, Lookup, CwdText, UpLaws.Went;
      ChdirServed(S(), dir);
      UpLaws.ChdirDone(S(), dir);
      ReadyToFind(S(), dir);
      if dir == [] {
        return -1;
      }
      if dir == [SLASH] {
        GoToRoot();
        return 0;
      }
      if dir == DOTDOT {
        GoUp();
        return 0;
      }
      var inodeNum := store.FindInode(cwdInode, dir);
      if inodeNum < 0 {
        inodeNum := ResolveInode(dir);
        if inodeNum < 0 {
          return -1;
        }
      }
      TargetInTree(S(), dir);
      ModeAt(store.St(), inodeNum);
      var rcRead, inode := store.ReadInode(inodeNum);
      if !HasDirBit(inode.mode) {
        return -1;
      }
      StoreCwd(cwd, dir);
      cwdInode := inodeNum;
      return 0;
    }

    // One request.
    method Perform(r: Request)
      requires Valid() && Ready(S(), r)
      modifies store, this`cwdInode, cwd
      ensures Valid() && S() == Serve(old(S()), r) && Evolves(old(store.St()), store.St())
    {
      hide Inv, Abs, SessionOk, NewReady, WriteReady, ParentReady, ChdirReady, MkdirPath, CreatePath, WritePath, DeletePath;
      hide Chdir, Evolves, ChdirSucceeds, HasParent, WriteResult, Resolve, Lookup;
      EvolvesRefl(store.St());
      match r
      case AskMkdir(p) =>
        var rc := MakeDirectory(p);
      case AskCreate(p) =>
        var rc := Create(p);
      case AskWrite(p, d) =>
        var rc := Write(p, d);
      case AskDelete(p) =>
        var rc := Delete(p);
      case AskChdir(p) =>
        var rc := ChangeDir(p);
    }

    // Requests one after the other, as the shell makes them: the state afterwards is that of the run, and the store has one history.
    method PerformAll(rs: seq<Request>)
      requires Valid() && ReadyRun(S(), rs)
      modifies store, this`cwdInode, cwd
      ensures Valid() && S() == ServeRun(old(S()), rs) && Evolves(old(store.St()), store.St())
    {
      hide Inv, Abs, SessionOk, Ready, Serve, Evolves, ReadyRun, ServeRun;
      EvolvesRefl(store.St());
      var i := 0;
      assert rs[0..] == rs;
      while i < |rs|
        invariant 0 <= i <= |rs| && Valid() && ReadyRun(S(), rs[i..]) && ServeRun(S(), rs[i..]) == ServeRun(old(S()), rs)
        invariant Evolves(old(store.St()), store.St())
      {
        ghost var mid := store.St();
        RunStep(S(), rs, i);
        Perform(rs[i]);
        EvolvesTrans(old(store.St()), mid, store.St());
        i := i + 1;
      }
      RunDone(S(), rs[i..]);
    }

    method GoToRoot()
      requires Valid()
      modifies this`cwdInode, cwd
      ensures Valid() && S() == old(S()).(cwd := [SLASH], dir := ROOT)
    {
      hide Inv, Abs, TreeOk, IsDir;
      RootIsDir(store.T());
      cwdInode := ROOT;
      Strcpy(cwd, 0, [SLASH]);
      CStrIs(cwd[..], [SLASH]);
    }

    // The ".." branch: the text loses its last part and is resolved afresh.
    method GoUp()
      requires Valid() && UpReady(S())
      modifies this`cwdInode, cwd
      ensures Valid() && S() == Chdir(old(S()), DOTDOT)
    {
      hide Inv, Abs, TreeOk, IsDir, Walkable, Resolve;
      ghost var s := S();
      var text := CStr(cwd[..]);
      var last := Strrchr(text, SLASH);
      if last <= 0 {
        GoToRoot();
        return;
      }
      cwd[last] := NUL;
      CStrIs(cwd[..], text[..last]);
      var n := ResolveInode(CStr(cwd[..]));
      if n < 0 {
        GoToRoot();
        return;
      }
      cwdInode := n;
    }

    // The second half of fs_write: new blocks, then the inode, unless nothing was written.
    method WriteContents(inodeNum: nat, data: Bytes) returns (r: nat)
      requires Valid() && IsFile(S().tree, inodeNum) && S().tree.nextBlock + DIRECT <= DISK_BLOCKS
      modifies store
      ensures Valid() && S() == old(S()).(tree := StoreModel.Write(old(S().tree), inodeNum, data)) && r == Stored(|data|)
      ensures Evolves(old(store.St()), store.St())
    {
      hide Inv, Abs, SessionOk, IsFile, DataStored, DataPointers, PointersOk, Blocks, StoreModel.Write, InodeReplaced, Evolves;
      ghost var s1 := store.St();
      SessionFiles(S(), inodeNum, data);
      FileAt(s1, inodeNum);
      CountersOk(s1);
      var rc, inode := store.ReadInode(inodeNum);
      var written, inode2 := store.WriteFile(inode, 0, data);
      ghost var s2 := store.St();
      if written > 0 {
        var put := store.WriteInode(inodeNum, inode2);
      }
      FileWritten(s1, s2, store.St(), inodeNum, inode2, data);
      r := written;
    }
  }

  lemma RunStep(s: Session, rs: seq<Request>, i: nat)
    requires SessionOk(s) && i < |rs| && ReadyRun(s, rs[i..])
    ensures Ready(s, rs[i]) && SessionOk(Serve(s, rs[i])) && ReadyRun(Serve(s, rs[i]), rs[i + 1..])
    ensures ServeRun(s, rs[i..]) == ServeRun(Serve(s, rs[i]), rs[i + 1..])
  {
    hide SessionOk, Ready, Serve;
    ServeOk(s, rs[i]);
    assert rs[i..][0] == rs[i] && rs[i..][1..] == rs[i + 1..];
  }

  lemma RunDone(s: Session, rs: seq<Request>)
    requires SessionOk(s) && rs == []
    ensures ReadyRun(s, rs) && ServeRun(s, rs) == s
  {
  }

  // What the layout says about an allocated file.
  lemma FileAt(s: Store, n: nat)
    requires Inv(s) && IsFile(Abs(s), n)
    ensures 1 <= n <= MAX_INODE && Allocated(s.nextInode, n) && !IsDirInode(n, InodeAt(s.disk, n))
    ensures var ino := InodeAt(s.disk, n);
            && PointersOk(ino.block, s.nextBlock) && (forall k :: DIRECT <= k < 15 ==> ino.block[k] == 0)
            && Abs(s).nodes[n] == Node(ino.(block := NoPointers()), File(FileBytes(Blocks(s.disk, ino.block))))
  {
    assert Allocated(s.nextInode, n);
    assert LayoutOk(s.disk, s.nextBlock, n, InodeAt(s.disk, n));
    AbsAt(s, n);
  }

  // Both halves of a write on the disk are one write in the tree.
  lemma FileWritten(s1: Store, s2: Store, s3: Store, n: nat, ino: Inode, data: Bytes)
    requires Inv(s1) && IsFile(Abs(s1), n) && 1 <= n && s1.nextBlock + DIRECT <= DISK_BLOCKS
    requires var w := Stored(|data|);
             && DataStored(s1, s2, data[..w]) && DataPointers(ino.block, s1.nextBlock, BlocksFor(w))
             && ino == InodeAt(s1.disk, n).(block := ino.block, size := w, sectors := 2 * BlocksFor(w))
             && (w == 0 ==> s3 == s2)
             && (w > 0 ==> s3 == s2.(disk := s3.disk) && InodeReplaced(s2.disk, s3.disk, n, ino))
    ensures Inv(s3) && Abs(s3) == StoreModel.Write(Abs(s1), n, data) && Evolves(s1, s3)
  {
    hide LaidOut, TreeOk, Abs, DataStored, DataPointers, Padded, InodeReplaced;
    FileAt(s1, n);
    CountersOk(s1);
    WriteOk(Abs(s1), n, data);
    var w := Stored(|data|);
    if w == 0 {
      StoredOk(s1, s2, data[..w]);
      StoredNothing(s1, s2);
    } else {
      StoredCounters(s1, s2, data[..w]);
      FileInstalled(s1, s2, s3, n, ino, data[..w]);
      assert ino.(block := NoPointers()) ==
             Abs(s1).nodes[n].attr.(size := w, sectors := 2 * BlocksFor(w));
    }
  }

  lemma StoredNothing(s1: Store, s2: Store)
    requires DataStored(s1, s2, []) && LaidOut(s1) && LaidOut(s2)
    ensures s2.nextBlock == s1.nextBlock && Abs(s1).nextBlock == s1.nextBlock
  {
  }

  lemma StoredCounters(s1: Store, s2: Store, data: Bytes)
    requires DataStored(s1, s2, data)
    ensures s2.nextInode == s1.nextInode && s2.nextBlock == s1.nextBlock + BlocksFor(|data|)
  {
  }

  // tmp of fs_get_parent: the path, cut to what the buffer holds.
  method CutPath(path: Bytes, tmp: array<Byte>)
    requires NulFree(path) && tmp.Length == PATH_MAX + 1
    modifies tmp
    ensures CStr(tmp[..]) == Cut(path)
  {
    Strncpy(tmp, path, PATH_MAX);
    tmp[PATH_MAX] := NUL;
    CStrIs(tmp[..], Cut(path));
  }

  lemma RootText(b: Bytes)
    requires |b| >= 2 && b[0] == SLASH && b[1] == NUL
    ensures Terminated(b) && CStr(b) == [SLASH]
  {
    CStrIs(b, [SLASH]);
  }

  lemma AfterSlash(path: Bytes)
    requires NulFree(path)
    ensures NulFree(Cut(path)) && NulFree(Cut(path)[LastIndex(Cut(path), SLASH) + 1..])
  {
    hide LastIndex;
  }

  // The copying half of fs_get_parent: the cut path in tmp, its last part in basename, its last slash returned.
  method SplitPath(path: Bytes, tmp: array<Byte>, basename: array<Byte>) returns (last: int)
    requires NulFree(path) && tmp.Length == PATH_MAX + 1 && basename.Length == BASE_SIZE && tmp != basename
    requires |BaseName(path)| <= COMPONENT_MAX
    modifies tmp, basename
    ensures last == LastIndex(Cut(path), SLASH) && CStr(tmp[..]) == Cut(path) && CStr(basename[..]) == BaseName(path)
  {
    hide CStr, LastIndex, NulFree;
    CutPath(path, tmp);
    var whole := CStr(tmp[..]);
    AfterSlash(path);
    last := Strrchr(whole, SLASH);
    Strcpy(basename, 0, whole[last + 1..]);
    CStrIs(basename[..], whole[last + 1..]);
  }

  lemma TargetInTree(s: Session, dir: Bytes)
    requires SessionOk(s) && ChdirReady(s, dir) && Plain(dir) && ChdirTarget(s, dir) != NO_ENTRY
    ensures ChdirTarget(s, dir) in s.tree.nodes && ROOT <= ChdirTarget(s, dir)
  {
    ChdirTargetIs(s, dir);
    RootIsDir(s.tree);
    WalkInTree(s.tree, Start(s.dir, dir), Components(dir));
    ParentAtLeastRoot(s.tree, ChdirTarget(s, dir));
  }

  // Printing "/%s" is putting a slash in front.
  lemma JoinText(dir: Bytes)
    requires NulFree(dir)
    ensures NulFree(JOIN_FORMAT) && Format.WellFormed(JOIN_FORMAT, [Format.StrArg(dir)])
    ensures Format.Ideal(JOIN_FORMAT, [Format.StrArg(dir)]) == [SLASH] + dir
  {
    hide Format.Ideal, Format.WellFormed;
    Format.PrefixPrinted([SLASH], dir);
    assert [SLASH] + ['%', 's'] == JOIN_FORMAT;
  }

  // The three ways fs_chdir rewrites the text (kernel/fs.c:245-258).
  method StoreAbsolute(cwd: array<Byte>, dir: Bytes)
    requires cwd.Length == CWD_SIZE && NulFree(dir)
    modifies cwd
    ensures Terminated(cwd[..]) && CStr(cwd[..]) == Cut(dir)
  {
    Strncpy(cwd, dir, CWD_SIZE - 1);
    cwd[CWD_SIZE - 1] := NUL;
    CStrIs(cwd[..], Cut(dir));
  }

  method StoreJoined(cwd: array<Byte>, dir: Bytes)
    requires cwd.Length == CWD_SIZE && Terminated(cwd[..]) && NulFree(dir)
    modifies cwd
    ensures var text := old(CStr(cwd[..]));
            Terminated(cwd[..]) && CStr(cwd[..]) == if |text| + 1 + |dir| < PATH_MAX then text + [SLASH] + dir else text
  {
    var text := CStr(cwd[..]);
    var l := |text|;
    if l + 1 + |dir| < CWD_SIZE - 1 {
      cwd[l] := SLASH;
      Strcpy(cwd, l + 1, dir);
      CStrIs(cwd[..], text + [SLASH] + dir);
    }
  }

  method StoreFirst(cwd: array<Byte>, dir: Bytes)
    requires cwd.Length == CWD_SIZE && NulFree(dir)
    modifies cwd
    ensures Terminated(cwd[..]) && CStr(cwd[..]) == Cut([SLASH] + dir)
  {
    hide Format.Ideal, Format.WellFormed;
    JoinText(dir);
    var n := Format.Vsnprintf(cwd, 0, CWD_SIZE, JOIN_FORMAT, [Format.StrArg(dir)]);
    var text := [SLASH] + dir;
    assert cwd[..n] == text[..n] && text[..n] == Cut(text);
    CutNulFree(dir);
    CStrIs(cwd[..], Cut(text));
  }

  lemma CutNulFree(dir: Bytes)
    requires NulFree(dir)
    ensures NulFree(Cut([SLASH] + dir))
  {
  }

  method StoreCwd(cwd: array<Byte>, dir: Bytes)
    requires cwd.Length == CWD_SIZE && Terminated(cwd[..]) && NulFree(dir) && dir != []
    modifies cwd
    ensures Terminated(cwd[..]) && CStr(cwd[..]) == CwdText(old(CStr(cwd[..])), dir)
  {
    var text := CStr(cwd[..]);
    if dir[0] == SLASH {
      StoreAbsolute(cwd, dir);
    } else if text != [SLASH] {
      StoreJoined(cwd, dir);
    } else {
      StoreFirst(cwd, dir);
    }
  }

  lemma ModeAt(s: Store, n: nat)
    requires Inv(s) && n in Abs(s).nodes
    ensures 1 <= n <= MAX_INODE && Abs(s).nodes[n].attr.mode == InodeAt(s.disk, n).mode
  {
    assert Allocated(s.nextInode, n);
    AbsAt(s, n);
  }

  // What the parent of a path is good for once it is found.
  lemma ReadyParent(s: Session, path: Bytes)
    requires SessionOk(s) && NewReady(s, path, 0)
    ensures HasParent(s, path) ==> Mutable(s.tree, ParentOf(s.tree, s.dir, path)) && ValidName(BaseName(path))
    ensures !HasParent(s, path) ==> MkdirPath(s, path) == s && CreatePath(s, path) == s
    ensures MkdirPath(s, path).dir == CreatePath(s, path).dir == s.dir
    ensures path == [] ==> ParentOf(s.tree, s.dir, path) == NO_ENTRY
  {
    if HasParent(s, path) {
      BaseNameValid(path);
    }
  }

  lemma ReadyToDelete(s: Session, path: Bytes)
    requires SessionOk(s) && ParentReady(s, path)
    ensures HasParent(s, path) ==> IsDir(s.tree, ParentOf(s.tree, s.dir, path)) && |BaseName(path)| < 256
    ensures path == [] ==> ParentOf(s.tree, s.dir, path) == NO_ENTRY
  {
  }

  lemma ReadyToFind(s: Session, dir: Bytes)
    requires SessionOk(s) && ChdirReady(s, dir)
    ensures IsDir(s.tree, s.dir) && TreeOk(s.tree)
    ensures dir != DOTDOT ==> NulFree(dir) && Walkable(s.tree, s.dir, dir)
  {
  }

  lemma ReadTarget(s: Session, path: Bytes)
    requires ReadReady(s, path)
    ensures Walkable(s.tree, s.dir, path) && NulFree(path)
    ensures Resolve(s.tree, s.dir, path) != NO_ENTRY ==> IsFile(s.tree, Resolve(s.tree, s.dir, path))
  {
  }

  lemma WriteTarget(s: Session, path: Bytes)
    requires SessionOk(s) && WriteReady(s, path)
    ensures NulFree(path) && Walkable(s.tree, s.dir, path)
    ensures Resolve(s.tree, s.dir, path) != NO_ENTRY ==> IsFile(s.tree, Resolve(s.tree, s.dir, path))
    ensures Resolve(s.tree, s.dir, path) == NO_ENTRY ==>
              NewReady(s, path, 0) && (!HasParent(s, path) ==> CreatePath(s, path) == s)
  {
  }

  lemma FileModeIsNoDir()
    ensures !HasDirBit(FILE_MODE)
  {
    assert FILE_MODE / S_IFDIR % 2 == 0;
  }

  lemma SessionFiles(s: Session, n: nat, data: Bytes)
    requires SessionOk(s) && IsFile(s.tree, n) && s.tree.nextBlock + DIRECT <= DISK_BLOCKS
    ensures SessionOk(s.(tree := StoreModel.Write(s.tree, n, data)))
  {
    WriteOk(s.tree, n, data);
    WrittenDirs(s.tree, n, data, s.dir);
  }

  lemma StartsOk(s: Store)
    requires Inv(s)
    ensures TreeOk(Abs(s)) && IsDir(Abs(s), ROOT)
  {
    RootIsDir(Abs(s));
  }

  lemma StartsCoherent(s: Session)
    requires SessionOk(s) && s.cwd == [SLASH] && s.dir == ROOT
    ensures Coherent(s)
  {
    RootResolves(s.tree, ROOT);
  }

  lemma LeadingSlash(path: Bytes)
    requires path != []
    ensures Components(path) == Components(path[if path[0] == SLASH then 1 else 0..])
  {
    if path[0] == SLASH {
      SlashesIgnored([], path[1..]);
      assert path == [SLASH] + path[1..];
    } else {
      assert path[0..] == path;
    }
  }

  lemma WalkEnds(t: Tree, n: nat, path: Bytes)
    ensures Walk(t, n, Components(path[|path|..])) == n
  {
  }
}
