/** What creating, writing and deleting a name do to the tree, node by node (kernel/ext2.c:137-335, kernel/fs.c:124-210). */
module NodeLaws {
  import opened Bytes
  import opened InodeTable
  import opened DirentBlock
  import opened StoreModel
  import opened CString
  import opened Paths
  import opened Sessions
  import opened SessionLaws
  import DirectoryLaws

  // The counters and every node but those two are as before.
  ghost predicate OthersStay(t: Tree, u: Tree, a: nat, b: nat) {
    forall n :: n in t.nodes && n != a && n != b ==> n in u.nodes && u.nodes[n] == t.nodes[n]
  }

  // ------------------------------------------------------------------ creating

  // A new node under the next number, and in its directory, unless that has twelve names already, one entry more at the end.
  ghost predicate NodeMade(t: Tree, u: Tree, dir: nat, name: Bytes, child: Node, ftype: nat, own: nat)
    requires ftype < 256
  {
    && IsDir(t, dir) && t.nextInode <= 80 && t.nextInode !in t.nodes && u.nodes.Keys == t.nodes.Keys + {t.nextInode} && dir != t.nextInode
    && u.nextInode == t.nextInode + 1 && u.nodes[t.nextInode] == child && OthersStay(t, u, dir, t.nextInode)
    && var Node(attr, Dir(es, full, held)) := t.nodes[dir];
       if full >= 12 then u.nodes[dir] == t.nodes[dir] && u.nextBlock == t.nextBlock + own
       else
         var more := if full < held then 0 else 1;
         && u.nodes[dir].body == Dir(es + [Entry(name, t.nextInode, ftype as char)], full + 1, held + more)
         && u.nodes[dir].attr == attr.(size := u.nodes[dir].attr.size) && u.nodes[dir].attr.size == attr.size + 1024 * more
         && u.nextBlock == t.nextBlock + own + more
  }

  // Directories start with mode 0755, two links and one block, files with mode 0644, one link and no block; all else is zero.
  ghost function NewDirectory(): Node {
    Node(Inode(0x4000 + 7 * 64 + 5 * 8 + 5, 0, 1024, 0, 0, 0, 0, 2, 0, NoPointers()), Dir([], 0, 1))
  }

  ghost function NewFile(): Node {
    Node(Inode(0x8000 + 6 * 64 + 4 * 8 + 4, 0, 0, 0, 0, 0, 0, 1, 0, NoPointers()), File([]))
  }

  lemma MkdirMakes(t: Tree, dir: nat, name: Bytes)
    requires Mutable(t, dir) && ValidName(name)
    ensures NodeMade(t, Mkdir(t, dir, name), dir, name, NewDirectory(), 2, 1)
  {
    hide TreeOk;
    DirectoryLaws.NotNew(t, dir);
    NewIsNew(t);
  }

  lemma CreateMakes(t: Tree, dir: nat, name: Bytes)
    requires Mutable(t, dir) && ValidName(name)
    ensures NodeMade(t, Create(t, dir, name, FILE_MODE), dir, name, NewFile(), 1, 0)
  {
    hide TreeOk;
    DirectoryLaws.NotNew(t, dir);
    NewIsNew(t);
  }

  lemma NewIsNew(t: Tree)
    requires TreeOk(t)
    ensures t.nextInode !in t.nodes
  {
    assert !Allocated(t.nextInode, t.nextInode);
  }

  // What fs_mkdir and fs_create do, on any path.
  ghost predicate Made(s: Session, u: Session, path: Bytes, child: Node, ftype: nat, own: nat, rc: int)
    requires ftype < 256
  {
    && u.cwd == s.cwd && u.dir == s.dir
    && if HasParent(s, path)
       then rc == s.tree.nextInode && NodeMade(s.tree, u.tree, ParentOf(s.tree, s.dir, path), BaseName(path), child, ftype, own)
       else rc == -1 && u.tree == s.tree
  }

  lemma MkdirDone(s: Session, path: Bytes)
    requires SessionOk(s) && NewReady(s, path, 0)
    ensures Made(s, MkdirPath(s, path), path, NewDirectory(), 2, 1, if HasParent(s, path) then s.tree.nextInode else -1)
  {
    hide TreeOk, ParentOf, BaseName, Mkdir, NodeMade, Walkable;
    if HasParent(s, path) {
      BaseNameValid(path);
      MkdirMakes(s.tree, ParentOf(s.tree, s.dir, path), BaseName(path));
    }
  }

  lemma CreateDone(s: Session, path: Bytes)
    requires SessionOk(s) && NewReady(s, path, 0)
    ensures Made(s, CreatePath(s, path), path, NewFile(), 1, 0, if HasParent(s, path) then s.tree.nextInode else -1)
  {
    hide TreeOk, ParentOf, BaseName, Create, NodeMade, Walkable;
    if HasParent(s, path) {
      BaseNameValid(path);
      CreateMakes(s.tree, ParentOf(s.tree, s.dir, path), BaseName(path));
    }
  }

  // ------------------------------------------------------------------ writing

  // File n holds the first w characters, padded with zeros to whole blocks, as its size and sector count say; with w = 0
  // nothing changes.
  ghost predicate Wrote(t: Tree, u: Tree, n: nat, data: Bytes, w: nat) {
    && IsFile(t, n) && w == (if |data| < 12288 then |data| else 12288) && u.nextInode == t.nextInode
    && if w == 0 then u == t
       else
         var blocks := (w + 1023) / 1024;
         && u.nodes.Keys == t.nodes.Keys && OthersStay(t, u, n, n) && u.nextBlock == t.nextBlock + blocks
         && IsFile(u, n) && u.nodes[n].attr == t.nodes[n].attr.(size := w, sectors := 2 * blocks)
         && |u.nodes[n].body.bytes| == 1024 * blocks && u.nodes[n].body.bytes[..w] == data[..w]
         && forall i :: w <= i < 1024 * blocks ==> u.nodes[n].body.bytes[i] == '\0'
  }

  lemma WriteWrites(t: Tree, n: nat, data: Bytes)
    requires IsFile(t, n)
    ensures Wrote(t, Write(t, n, data), n, data, Stored(|data|))
  {
    var w := Stored(|data|);
    assert Padded(data[..w])[..w] == data[..w];
  }

  // What fs_write does: to the file the path leads to, or to one made for it; -1 when neither is to be had.
  ghost predicate Written(s: Session, u: Session, path: Bytes, data: Bytes, rc: int) {
    && u.cwd == s.cwd && u.dir == s.dir
    && var n := Resolve(s.tree, s.dir, path);
       if n >= 0 then rc >= 0 && Wrote(s.tree, u.tree, n, data, rc)
       else if ParentHasRoom(s, path) then
         exists made: Session :: Made(s, made, path, NewFile(), 1, 0, s.tree.nextInode)
                                 && rc >= 0 && Wrote(made.tree, u.tree, s.tree.nextInode, data, rc)
       else rc == -1 && Made(s, u, path, NewFile(), 1, 0, if HasParent(s, path) then s.tree.nextInode else -1)
  }

  lemma WriteDone(s: Session, path: Bytes, data: Bytes)
    requires SessionOk(s) && WriteReady(s, path)
    ensures Written(s, WritePath(s, path, data), path, data, WriteResult(s, path, data))
  {
    hide TreeOk, Walkable, Resolve, ParentOf, BaseName, Extends, Create, Made, Wrote, StoreModel.Write;
    if Resolve(s.tree, s.dir, path) != NO_ENTRY {
      OpenedExisting(s, path);
      WriteWrites(s.tree, Resolve(s.tree, s.dir, path), data);
    } else if HasParent(s, path) {
      OpenedNew(s, path);
      CreateDone(s, path);
      var made := CreatePath(s, path);
      if ParentHasRoom(s, path) {
        WriteWrites(made.tree, s.tree.nextInode, data);
        assert Made(s, made, path, NewFile(), 1, 0, s.tree.nextInode);
      }
    } else {
      OpenedNowhere(s, path);
      CreateDone(s, path);
    }
  }

  // ------------------------------------------------------------------ deleting

  ghost predicate FirstPlaceOf(es: seq<Entry>, name: Bytes, k: nat) {
    k < |es| && es[k].name == name && forall j :: 0 <= j < k ==> es[j].name != name
  }

  // The first entry of that name is gone from its directory, and the node it led to is empty: no entries, no bytes, no links.
  ghost predicate EntryGone(t: Tree, u: Tree, dir: nat, name: Bytes, k: nat) {
    && IsDir(t, dir) && FirstPlaceOf(t.nodes[dir].body.entries, name, k)
    && var es := t.nodes[dir].body.entries;
       var v: nat := es[k].ino;
    && v != dir && v in t.nodes && u.nodes.Keys == t.nodes.Keys
    && u.nextInode == t.nextInode && u.nextBlock == t.nextBlock && OthersStay(t, u, dir, v)
    && u.nodes[dir] == Node(t.nodes[dir].attr, Dir(es[..k] + es[k + 1..], t.nodes[dir].body.full, t.nodes[dir].body.held))
    && u.nodes[v].attr == t.nodes[v].attr.(links := 0, size := 0)
    && u.nodes[v].body == if t.nodes[v].body.Dir? then Dir([], 0, 0) else File([])
  }

  lemma {:induction false} PlaceOfFirst(es: seq<Entry>, name: Bytes) returns (k: nat)
    requires FirstMatch(es, name) != NO_ENTRY
    ensures FirstPlaceOf(es, name, k) && es[k].ino == FirstMatch(es, name) && RemoveFirst(es, name) == es[..k] + es[k + 1..]
  {
    hide FirstPlaceOf;
    if es[0].name == name {
      k := 0;
      PlaceHere(es, name);
    } else {
      var m := PlaceOfFirst(es[1..], name);
      k := m + 1;
      PlaceBehind(es, name, m);
    }
  }

  lemma PlaceHere(es: seq<Entry>, name: Bytes)
    requires es != [] && es[0].name == name
    ensures FirstPlaceOf(es, name, 0) && es[..0] + es[1..] == es[1..]
  {
  }

  lemma PlaceBehind(es: seq<Entry>, name: Bytes, m: nat)
    requires es != [] && es[0].name != name && FirstPlaceOf(es[1..], name, m)
    ensures FirstPlaceOf(es, name, m + 1) && es[m + 1] == es[1..][m]
    ensures [es[0]] + (es[1..][..m] + es[1..][m + 1..]) == es[..m + 1] + es[m + 2..]
  {
    assert forall j :: 0 < j < |es| ==> es[j] == es[1..][j - 1];
  }

  lemma {:induction false} NoPlace(es: seq<Entry>, name: Bytes)
    ensures FirstMatch(es, name) == NO_ENTRY <==> forall j :: 0 <= j < |es| ==> es[j].name != name
  {
    if es != [] && es[0].name != name {
      NoPlace(es[1..], name);
      assert forall j :: 0 <= j < |es| ==> es[j] == if j == 0 then es[0] else es[1..][j - 1];
    }
  }

  lemma UnlinkGone(t: Tree, dir: nat, name: Bytes) returns (k: nat)
    requires TreeOk(t) && IsDir(t, dir) && Lookup(t, dir, name) != NO_ENTRY
    ensures EntryGone(t, Unlink(t, dir, name), dir, name, k)
  {
    hide TreeOk;
    LookupOk(t, dir, name);
    k := PlaceOfFirst(t.nodes[dir].body.entries, name);
  }

  // What fs_delete does, on any path: with result 0 the base name's first entry is gone, otherwise nothing changed.
  ghost predicate Deleted(s: Session, u: Session, path: Bytes, rc: int) {
    && u.cwd == s.cwd && u.dir == s.dir && (rc == 0 || rc == -1)
    && (rc == 0 ==> HasParent(s, path) && ParentOf(s.tree, s.dir, path) >= 0
                    && exists k: nat :: EntryGone(s.tree, u.tree, ParentOf(s.tree, s.dir, path), BaseName(path), k))
    && (rc == -1 ==> u.tree == s.tree)
    && (rc == -1 && HasParent(s, path) ==> Lookup(s.tree, ParentOf(s.tree, s.dir, path), BaseName(path)) == NO_ENTRY)
  }

  lemma DeleteDone(s: Session, path: Bytes)
    requires SessionOk(s) && ParentReady(s, path)
    ensures var rc := if HasParent(s, path) && Lookup(s.tree, ParentOf(s.tree, s.dir, path), BaseName(path)) != NO_ENTRY
                      then 0 else -1;
            Deleted(s, DeletePath(s, path), path, rc)
  {
    hide TreeOk, ParentOf, BaseName, Unlink, Lookup, EntryGone, Walkable;
    if HasParent(s, path) {
      var parent, base := ParentOf(s.tree, s.dir, path), BaseName(path);
      if Lookup(s.tree, parent, base) != NO_ENTRY {
        var k := UnlinkGone(s.tree, parent, base);
      } else {
        NothingUnlinked(s.tree, parent, base);
      }
    }
  }

  lemma NothingUnlinked(t: Tree, dir: nat, name: Bytes)
    requires TreeOk(t) && IsDir(t, dir) && Lookup(t, dir, name) == NO_ENTRY
    ensures Unlink(t, dir, name) == t
  {
  }

  // Afterwards the name leads where its second entry led, or nowhere if there was but one.
  lemma NextOfName(t: Tree, u: Tree, dir: nat, name: Bytes, k: nat)
    requires EntryGone(t, u, dir, name, k)
    ensures Lookup(u, dir, name) == FirstMatch(t.nodes[dir].body.entries[k + 1..], name)
    ensures Lookup(u, dir, name) == NO_ENTRY
      <==> forall j :: 0 <= j < |t.nodes[dir].body.entries| && j != k ==> t.nodes[dir].body.entries[j].name != name
  {
    var es := t.nodes[dir].body.entries;
    FirstMatchSkips(es[..k], es[k + 1..], name);
    NoPlace(es[k + 1..], name);
    assert forall j :: k < j < |es| ==> es[j] == es[k + 1..][j - k - 1];
  }

  // The inodes on a walk are no larger than the one it ends at.
  lemma {:induction false} VisitedBelow(t: Tree, n: nat, cs: seq<Bytes>)
    requires TreeOk(t) && DirWalk(t, n, cs) && Walk(t, n, cs) != NO_ENTRY
    ensures n <= Walk(t, n, cs) && forall x :: x in Visited(t, n, cs) ==> x <= Walk(t, n, cs)
    decreases |cs|
  {
    if cs != [] {
      LookupOk(t, n, cs[0]);
      VisitedBelow(t, Lookup(t, n, cs[0]), cs[1..]);
    }
  }

  // A deleted path stops resolving exactly when its name stood once in its directory.
  lemma DeletedPathResolves(s: Session, path: Bytes, k: nat)
    requires SessionOk(s) && ParentReady(s, path) && HasParent(s, path) && |path| <= PATH_MAX
    requires ParentOf(s.tree, s.dir, path) >= 0
    requires EntryGone(s.tree, Serve(s, AskDelete(path)).tree, ParentOf(s.tree, s.dir, path), BaseName(path), k)
    ensures var es, u := s.tree.nodes[ParentOf(s.tree, s.dir, path)].body.entries, Serve(s, AskDelete(path));
            && Resolve(u.tree, u.dir, path) == FirstMatch(es[k + 1..], BaseName(path))
            && (Resolve(u.tree, u.dir, path) == NO_ENTRY
                <==> forall j :: 0 <= j < |es| && j != k ==> es[j].name != BaseName(path))
  {
    hide TreeOk, BaseName, Unlink, Lookup, Walk, DirWalk, Components, ParentPath, LastIndex;
    var parent, base, u := ParentOf(s.tree, s.dir, path), BaseName(path), Serve(s, AskDelete(path));
    NextOfName(s.tree, u.tree, parent, base, k);
    FoundAt(s.tree, u.tree, parent, base, k);
    ParentKept(s, path);
    ParentAgrees(u.tree, u.dir, path);
  }

  lemma FoundAt(t: Tree, u: Tree, dir: nat, name: Bytes, k: nat)
    requires EntryGone(t, u, dir, name, k)
    ensures Lookup(t, dir, name) != NO_ENTRY
  {
    NoPlace(t.nodes[dir].body.entries, name);
  }

  // Deleting leaves the way to the parent alone.
  lemma ParentKept(s: Session, path: Bytes)
    requires SessionOk(s) && ParentReady(s, path) && HasParent(s, path)
    requires Lookup(s.tree, ParentOf(s.tree, s.dir, path), BaseName(path)) != NO_ENTRY
    ensures ParentOf(DeletePath(s, path).tree, s.dir, path) == ParentOf(s.tree, s.dir, path)
  {
    hide TreeOk, BaseName, Unlink, Lookup, Walk, DirWalk, Components, ParentPath, LastIndex, Visited;
    var pp, parent, base := ParentPath(path), ParentOf(s.tree, s.dir, path), BaseName(path);
    if pp != [] {
      LookupOk(s.tree, parent, base);
      VisitedBelow(s.tree, Start(s.dir, pp), Components(pp));
      WalkSpared(s.tree, parent, base, Start(s.dir, pp), Components(pp));
    }
  }

  // ------------------------------------------------------------------ reading

  // The buffer holds the file from its start, as far as file and size reach; the rest of it is as before.
  ghost predicate ReadOut(t: Tree, n: nat, size: nat, was: Bytes, now: Bytes, r: int) {
    && IsFile(t, n) && |now| == |was| && r == (if |t.nodes[n].body.bytes| < size then |t.nodes[n].body.bytes| else size)
    && 0 <= r <= |now| && now[..r] == t.nodes[n].body.bytes[..r] && now[r..] == was[r..]
  }

  lemma ReadSaid(s: Session, path: Bytes, size: nat, was: Bytes, now: Bytes, r: int)
    requires ReadReady(s, path) && Resolve(s.tree, s.dir, path) != NO_ENTRY && |now| == |was| && size <= |was|
    requires var wanted := ReadPath(s, path, size);
             r == |wanted| && now[..|wanted|] == wanted && now[|wanted|..] == was[|wanted|..]
    ensures ReadOut(s.tree, Resolve(s.tree, s.dir, path), size, was, now, r)
  {
    hide Resolve, Walkable, ReadPath;
    ReadDone(s, path, size);
  }

  lemma ReadDone(s: Session, path: Bytes, size: nat)
    requires ReadReady(s, path) && Resolve(s.tree, s.dir, path) != NO_ENTRY
    ensures var bytes, r := s.tree.nodes[Resolve(s.tree, s.dir, path)].body.bytes, ReadPath(s, path, size);
            |r| == (if |bytes| < size then |bytes| else size) && r == bytes[..|r|]
  {
    hide Resolve, Walkable;
  }

  // ------------------------------------------------------------------ permissions, and the parts of a path

  // A file may be written by its owner and read by all; nobody may execute it. A directory may be entered by all.
  lemma Permissions()
    ensures var file, dir := NewFile().attr.mode, NewDirectory().attr.mode;
            && file / 0x4000 % 2 == 0 && dir / 0x4000 % 2 == 1
            && file / 64 % 8 == 6 && file / 8 % 8 == 4 && file % 8 == 4
            && dir / 64 % 8 == 7 && dir / 8 % 8 == 5 && dir % 8 == 5
  {
  }

  // What fs_get_parent splits off, of the first 127 characters: behind the last slash the base name, before it the parent.
  lemma PathSplit(path: Bytes, k: nat)
    ensures var text := if |path| <= 127 then path else path[..127];
            && ('/' !in text ==> BaseName(path) == text && ParentPath(path) == [])
            && (k < |text| && text[k] == '/' && '/' !in text[k + 1..] ==>
                  BaseName(path) == text[k + 1..] && ParentPath(path) == if k == 0 then ['/'] else text[..k])
  {
    hide LastIndex;
    var text := Cut(path);
    assert text[0..] == text;
    if k < |text| && text[k] == '/' && '/' !in text[k + 1..] {
      LastSlashIs(text, k);
    }
  }

  lemma LastSlashIs(text: Bytes, k: nat)
    requires k < |text| && text[k] == '/' && '/' !in text[k + 1..]
    ensures LastIndex(text, SLASH) == k
  {
    hide LastIndex;
  }
}
