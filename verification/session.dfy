/** The path operations of kernel/fs.c on a tree, and what holds over whole runs of them. */
module Sessions {
  import opened Bytes
  import opened InodeTable
  import opened DirentBlock
  import opened StoreModel
  import opened CString
  import opened Paths

  const DOTDOT: Bytes := ['.', '.']

  // The mounted tree, the text of the working directory and the inode it stands for.
  datatype Session = Session(tree: Tree, cwd: Bytes, dir: nat)

  ghost predicate SessionOk(s: Session) {
    TreeOk(s.tree) && IsDir(s.tree, s.dir)
  }

  // An inode and two blocks for a new name are left, and so many blocks more.
  ghost predicate Capacity(t: Tree, more: nat) {
    t.nextInode <= MAX_INODE && t.nextBlock + 2 + more <= DISK_BLOCKS
  }

  // What the kernel leaves unchecked about the parent of a path: lookups meet directories only, names fit their buffer.
  ghost predicate ParentReady(s: Session, path: Bytes) {
    var parent := ParentOf(s.tree, s.dir, path);
    && NulFree(path) && |BaseName(path)| <= COMPONENT_MAX
    && (ParentPath(path) == [] || Walkable(s.tree, s.dir, ParentPath(path)))
    && (parent != NO_ENTRY && BaseName(path) != [] ==> IsDir(s.tree, parent))
  }

  ghost predicate HasParent(s: Session, path: Bytes) {
    path != [] && ParentOf(s.tree, s.dir, path) != NO_ENTRY && BaseName(path) != []
  }

  // The path may be given a new name: what that takes is there if it comes to it.
  ghost predicate NewReady(s: Session, path: Bytes, more: nat) {
    ParentReady(s, path) && (HasParent(s, path) ==> Capacity(s.tree, more))
  }

  ghost function MkdirPath(s: Session, path: Bytes): Session
    requires SessionOk(s) && NewReady(s, path, 0)
  {
    if !HasParent(s, path) then s
    else s.(tree := Mkdir(s.tree, ParentOf(s.tree, s.dir, path), BaseName(path)))
  }

  ghost function CreatePath(s: Session, path: Bytes): Session
    requires SessionOk(s) && NewReady(s, path, 0)
  {
    if !HasParent(s, path) then s
    else s.(tree := Create(s.tree, ParentOf(s.tree, s.dir, path), BaseName(path), FILE_MODE))
  }

  ghost function DeletePath(s: Session, path: Bytes): Session
    requires SessionOk(s) && ParentReady(s, path)
  {
    if !HasParent(s, path) then s
    else s.(tree := Unlink(s.tree, ParentOf(s.tree, s.dir, path), BaseName(path)))
  }

  // A path to write leads through directories to a regular file, or to nothing yet; there is room for the data.
  ghost predicate WriteReady(s: Session, path: Bytes) {
    && NulFree(path) && Walkable(s.tree, s.dir, path)
    && if Resolve(s.tree, s.dir, path) != NO_ENTRY
       then IsFile(s.tree, Resolve(s.tree, s.dir, path)) && s.tree.nextBlock + DIRECT <= DISK_BLOCKS
       else |path| <= PATH_MAX && NewReady(s, path, DIRECT)
  }

  // The inode fs_write ends up with, and the session in which it writes to it.
  ghost function Opened(s: Session, path: Bytes): Session
    requires SessionOk(s) && WriteReady(s, path)
  {
    if Resolve(s.tree, s.dir, path) != NO_ENTRY then s else CreatePath(s, path)
  }

  ghost function Target(s: Session, path: Bytes): (r: int)
    requires SessionOk(s) && WriteReady(s, path)
    ensures r >= NO_ENTRY
  {
    Resolve(Opened(s, path).tree, s.dir, path)
  }

  ghost function WritePath(s: Session, path: Bytes, data: Bytes): Session
    requires SessionOk(s) && WriteReady(s, path)
  {
    var o, n := Opened(s, path), Target(s, path);
    if n == NO_ENTRY || !IsFile(o.tree, n) then o else o.(tree := Write(o.tree, n, data))
  }

  ghost function WriteResult(s: Session, path: Bytes, data: Bytes): int
    requires SessionOk(s) && WriteReady(s, path)
  {
    if Target(s, path) == NO_ENTRY then NO_ENTRY else Stored(|data|)
  }

  ghost predicate ReadReady(s: Session, path: Bytes) {
    && NulFree(path) && Walkable(s.tree, s.dir, path)
    && (Resolve(s.tree, s.dir, path) != NO_ENTRY ==> IsFile(s.tree, Resolve(s.tree, s.dir, path)))
  }

  // The bytes fs_read delivers for a path that leads to a file.
  ghost function ReadPath(s: Session, path: Bytes, size: nat): (r: Bytes)
    requires ReadReady(s, path) && Resolve(s.tree, s.dir, path) != NO_ENTRY
    ensures |r| <= size
  {
    Slice(s.tree.nodes[Resolve(s.tree, s.dir, path)].body.bytes, 0, size)
  }

  // ------------------------------------------------------------------ home directories

  const HOME_NAME: Bytes := ['h', 'o', 'm', 'e']
  const HOME: Bytes := ['/', 'h', 'o', 'm', 'e', '/']
  const FALLBACK_SIZE := 64
  const ROOT_NAME: Bytes := ['r', 'o', 'o', 't']

  ghost predicate HomeMissing(s: Session) { Resolve(s.tree, s.dir, HOME_NAME) == NO_ENTRY }

  // "home" is looked for in the working directory and made in the root.
  ghost function WithHome(s: Session): Session
    requires SessionOk(s) && (HomeMissing(s) ==> Mutable(s.tree, ROOT))
  {
    if HomeMissing(s) then s.(tree := Mkdir(s.tree, ROOT, HOME_NAME)) else s
  }

  // What the kernel leaves unchecked when it makes a home: a proper name, room on the image, "home" being a directory.
  ghost predicate HomeReady(s: Session, name: Bytes)
    requires SessionOk(s)
  {
    name == ROOT_NAME ||
    (ValidName(name) && (HomeMissing(s) ==> Mutable(s.tree, ROOT)) &&
     var t := WithHome(s).tree;
     Lookup(t, ROOT, HOME_NAME) != NO_ENTRY ==> Mutable(t, Lookup(t, ROOT, HOME_NAME)))
  }

  ghost function HomePath(s: Session, name: Bytes): Session
    requires SessionOk(s) && HomeReady(s, name)
  {
    if name == ROOT_NAME then s
    else
      var u := WithHome(s);
      var h := Lookup(u.tree, ROOT, HOME_NAME);
      if h == NO_ENTRY then u else u.(tree := Mkdir(u.tree, h, name))
  }

  ghost predicate HomeFails(s: Session, name: Bytes)
    requires SessionOk(s) && HomeReady(s, name)
  {
    name != ROOT_NAME && Lookup(WithHome(s).tree, ROOT, HOME_NAME) == NO_ENTRY
  }

  // ------------------------------------------------------------------ changing the working directory

  ghost predicate ChdirReady(s: Session, dir: Bytes) {
    if dir == DOTDOT then UpReady(s) else NulFree(dir) && Walkable(s.tree, s.dir, dir)
  }

  // The text above the working directory leads through directories to a directory, or nowhere.
  ghost predicate UpReady(s: Session) {
    var last := LastIndex(s.cwd, SLASH);
    last > 0 ==>
      var up := s.cwd[..last];
      && Walkable(s.tree, s.dir, up)
      && (Resolve(s.tree, s.dir, up) != NO_ENTRY ==> IsDir(s.tree, Resolve(s.tree, s.dir, up)))
  }

  // The inode a name other than "/" and ".." leads to: an entry of that very name wins over the path.
  ghost function ChdirTarget(s: Session, dir: Bytes): (r: int)
    ensures r >= NO_ENTRY
  {
    var n := Lookup(s.tree, s.dir, dir);
    if n != NO_ENTRY then n else Resolve(s.tree, s.dir, dir)
  }

  // The text after a successful change; a relative one that would not fit leaves the text alone.
  ghost function CwdText(cwd: Bytes, dir: Bytes): Bytes
    requires dir != []
  {
    if dir[0] == SLASH then Cut(dir)
    else if cwd == [SLASH] then Cut([SLASH] + dir)
    else if |cwd| + 1 + |dir| < PATH_MAX then cwd + [SLASH] + dir
    else cwd
  }

  ghost predicate ChdirSucceeds(s: Session, dir: Bytes) {
    || dir == [SLASH] || dir == DOTDOT
    || (dir != [] && ChdirTarget(s, dir) != NO_ENTRY && ChdirTarget(s, dir) in s.tree.nodes
        && HasDirBit(s.tree.nodes[ChdirTarget(s, dir)].attr.mode))
  }

  ghost function Chdir(s: Session, dir: Bytes): Session {
    if !ChdirSucceeds(s, dir) then s
    else if dir == [SLASH] then s.(cwd := [SLASH], dir := ROOT)
    else if dir == DOTDOT then
      var last := LastIndex(s.cwd, SLASH);
      if last <= 0 || Resolve(s.tree, s.dir, s.cwd[..last]) == NO_ENTRY then s.(cwd := [SLASH], dir := ROOT)
      else s.(cwd := s.cwd[..last], dir := Resolve(s.tree, s.dir, s.cwd[..last]))
    else s.(cwd := CwdText(s.cwd, dir), dir := ChdirTarget(s, dir))
  }

  // The text of the working directory leads from the root to its inode.
  ghost predicate Coherent(s: Session) {
    && s.cwd != [] && s.cwd[0] == SLASH && |s.cwd| <= PATH_MAX && NulFree(s.cwd) && IsDir(s.tree, s.dir)
    && DirWalk(s.tree, ROOT, Components(s.cwd)) && Walk(s.tree, ROOT, Components(s.cwd)) == s.dir
  }
}
