/** What the store means: numbered nodes, a directory being an ordered list of entries and a file whole blocks. */
module StoreModel {
  import opened Bytes
  import opened InodeTable
  import opened DirentBlock

  const S_IFDIR := 0x4000
  const MAX_FILE := DIRECT * BLOCK_SIZE
  const DIR_MODE: U16 := 0x41ED      // S_IFDIR | 0755
  const FILE_MODE: U16 := 0x81A4     // S_IFREG | 0644

  const TYPE_FILE: Byte := 1 as char
  const TYPE_DIR: Byte := 2 as char

  // full counts the directory blocks that hold a record, held those the directory owns.
  datatype Body = Dir(entries: seq<Entry>, full: nat, held: nat) | File(bytes: Bytes)
  // attr is the inode without its pointers.
  datatype Node = Node(attr: Inode, body: Body)
  datatype Tree = Tree(nodes: map<nat, Node>, nextInode: nat, nextBlock: nat)

  predicate HasDirBit(mode: U16) { mode / S_IFDIR % 2 == 1 }

  // The root's inode is never initialised, so its mode is zero; it is a directory by its number.
  ghost predicate IsDirInode(n: nat, ino: Inode) { n == ROOT || HasDirBit(ino.mode) }

  ghost predicate Allocated(nextInode: nat, n: nat) { n == ROOT || FIRST_INODE <= n < nextInode }

  ghost predicate IsDir(t: Tree, n: nat) { n in t.nodes && t.nodes[n].body.Dir? }
  ghost predicate IsFile(t: Tree, n: nat) { n in t.nodes && t.nodes[n].body.File? }
  ghost predicate HasRoom(t: Tree, n: nat) { IsDir(t, n) && t.nodes[n].body.full < DIRECT }

  ghost predicate EntryOk(t: Tree, n: nat, e: Entry) {
    ValidName(e.name) && n < e.ino && e.ino as nat in t.nodes
  }

  ghost predicate NodeOk(t: Tree, n: nat, node: Node) {
    && node.attr.block == NoPointers()
    && (node.body.Dir? <==> IsDirInode(n, node.attr))
    && (node.body.Dir? ==>
          && node.body.full <= node.body.held <= DIRECT && node.body.held <= node.body.full + 1
          && node.attr.size == BLOCK_SIZE * node.body.held
          && forall e :: e in node.body.entries ==> EntryOk(t, n, e))
    && (node.body.File? ==> |node.body.bytes| <= MAX_FILE && |node.body.bytes| % BLOCK_SIZE == 0)
  }

  ghost predicate TreeOk(t: Tree) {
    && FIRST_INODE <= t.nextInode <= MAX_INODE + 1
    && FIRST_BLOCK <= t.nextBlock <= DISK_BLOCKS
    && (forall n :: n in t.nodes <==> Allocated(t.nextInode, n))
    && (forall n :: n in t.nodes ==> NodeOk(t, n, t.nodes[n]))
  }

  // What a formatted image holds: an empty root whose inode was never written.
  ghost function EmptyTree(): Tree {
    Tree(map[ROOT := Node(ZeroInode(), Dir([], 0, 0))], FIRST_INODE, FIRST_BLOCK)
  }

  lemma EmptyTreeOk()
    ensures TreeOk(EmptyTree()) && IsDir(EmptyTree(), ROOT)
  {
    assert NodeOk(EmptyTree(), ROOT, EmptyTree().nodes[ROOT]);
  }

  // ------------------------------------------------------------------ operations

  ghost function AddEntry(t: Tree, dir: nat, e: Entry): Tree
    requires IsDir(t, dir) && t.nodes[dir].attr.size <= MAX_FILE
  {
    var Node(attr, Dir(es, full, held)) := t.nodes[dir];
    if full >= DIRECT then t
    else if full < held then t.(nodes := t.nodes[dir := Node(attr, Dir(es + [e], full + 1, held))])
    else t.(nodes := t.nodes[dir := Node(attr.(size := attr.size + BLOCK_SIZE), Dir(es + [e], full + 1, held + 1))],
            nextBlock := t.nextBlock + 1)
  }

  ghost function NewNode(t: Tree, node: Node): Tree {
    t.(nodes := t.nodes[t.nextInode := node], nextInode := t.nextInode + 1)
  }

  ghost function FreshDir(): Node {
    Node(ZeroInode().(mode := DIR_MODE, links := 2, size := BLOCK_SIZE), Dir([], 0, 1))
  }

  ghost function FreshFile(mode: U16): Node {
    Node(ZeroInode().(mode := mode, links := 1), File([]))
  }

  // A new directory takes an inode and a block, which stays as the image was made.
  ghost function WithNewDir(t: Tree): Tree {
    NewNode(t, FreshDir()).(nextBlock := t.nextBlock + 1)
  }

  ghost predicate Mutable(t: Tree, dir: nat) {
    TreeOk(t) && IsDir(t, dir) && t.nextInode <= MAX_INODE && t.nextBlock + 2 <= DISK_BLOCKS
  }

  ghost function Mkdir(t: Tree, parent: nat, name: Bytes): Tree
    requires Mutable(t, parent)
  {
    AddEntry(WithNewDir(t), parent, Entry(name, t.nextInode, TYPE_DIR))
  }

  ghost function Create(t: Tree, parent: nat, name: Bytes, mode: U16): Tree
    requires Mutable(t, parent)
  {
    AddEntry(NewNode(t, FreshFile(mode)), parent, Entry(name, t.nextInode, TYPE_FILE))
  }

  ghost function Lookup(t: Tree, dir: nat, name: Bytes): (r: int)
    ensures r >= NO_ENTRY
  {
    if IsDir(t, dir) then FirstMatch(t.nodes[dir].body.entries, name) else NO_ENTRY
  }

  // The inode an unlinked name leaves behind.
  ghost function Emptied(node: Node): Node {
    Node(node.attr.(links := 0, size := 0), if node.body.Dir? then Dir([], 0, 0) else File([]))
  }

  ghost function DropEntry(node: Node, name: Bytes): Node
    requires node.body.Dir?
  {
    node.(body := node.body.(entries := RemoveFirst(node.body.entries, name)))
  }

  ghost function Unlink(t: Tree, dir: nat, name: Bytes): Tree
    requires TreeOk(t) && IsDir(t, dir)
  {
    var victim := Lookup(t, dir, name);
    if victim == NO_ENTRY || victim !in t.nodes then t
    else t.(nodes := t.nodes[victim := Emptied(t.nodes[victim])][dir := DropEntry(t.nodes[dir], name)])
  }

  ghost function Stored(size: nat): nat { if size < MAX_FILE then size else MAX_FILE }

  ghost function BlocksFor(size: nat): nat { (size + BLOCK_SIZE - 1) / BLOCK_SIZE }

  ghost function Padded(data: Bytes): Bytes {
    data + Zeros(BLOCK_SIZE * BlocksFor(|data|) - |data|)
  }

  // A write of nothing consumes nothing and leaves the old contents in place.
  ghost function Write(t: Tree, n: nat, data: Bytes): Tree
    requires IsFile(t, n)
  {
    var w := Stored(|data|);
    if w == 0 then t
    else
      var attr := t.nodes[n].attr.(size := w, sectors := 2 * BlocksFor(w));
      t.(nodes := t.nodes[n := Node(attr, File(Padded(data[..w])))], nextBlock := t.nextBlock + BlocksFor(w))
  }

  // The bytes a read of size bytes at an offset returns.
  ghost function Slice(bytes: Bytes, offset: nat, size: nat): (r: Bytes)
    ensures |r| <= size
  {
    if offset >= |bytes| then []
    else if offset + size <= |bytes| then bytes[offset..offset + size]
    else bytes[offset..]
  }

  // ------------------------------------------------------------------ every operation keeps TreeOk

  lemma AddEntryOk(t: Tree, dir: nat, e: Entry)
    requires TreeOk(t) && IsDir(t, dir) && EntryOk(t, dir, e) && t.nextBlock < DISK_BLOCKS
    ensures TreeOk(AddEntry(t, dir, e))
  {
    var u := AddEntry(t, dir, e);
    assert NodeOk(t, dir, t.nodes[dir]);
    forall n | n in u.nodes
      ensures NodeOk(u, n, u.nodes[n])
    {
      assert NodeOk(t, n, t.nodes[n]);
      if n == dir && u != t {
        forall f | f in u.nodes[n].body.entries
          ensures EntryOk(u, n, f)
        {
          assert f == e || f in t.nodes[n].body.entries;
        }
      } else if u.nodes[n].body.Dir? {
        assert forall f :: f in u.nodes[n].body.entries ==> EntryOk(t, n, f);
      }
    }
  }

  lemma NewNodeOk(t: Tree, node: Node)
    requires TreeOk(t) && t.nextInode <= MAX_INODE
    requires NodeOk(t, t.nextInode, node) && (node.body.Dir? ==> node.body.entries == [])
    ensures TreeOk(NewNode(t, node))
  {
    var u := NewNode(t, node);
    forall n | n in u.nodes
      ensures NodeOk(u, n, u.nodes[n])
    {
      if n != t.nextInode {
        assert NodeOk(t, n, t.nodes[n]);
        if t.nodes[n].body.Dir? {
          forall e | e in t.nodes[n].body.entries
            ensures EntryOk(u, n, e)
          {
            assert EntryOk(t, n, e);
          }
        }
      }
    }
  }

  lemma NewDirOk(t: Tree)
    requires TreeOk(t) && t.nextInode <= MAX_INODE && t.nextBlock < DISK_BLOCKS
    ensures TreeOk(WithNewDir(t))
  {
    assert DIR_MODE / S_IFDIR % 2 == 1;
    NewNodeOk(t, FreshDir());
    var u, v := NewNode(t, FreshDir()), WithNewDir(t);
    forall n | n in v.nodes
      ensures NodeOk(v, n, v.nodes[n])
    {
      assert NodeOk(u, n, u.nodes[n]);
      if u.nodes[n].body.Dir? {
        assert forall e :: e in u.nodes[n].body.entries ==> EntryOk(u, n, e) && EntryOk(v, n, e);
      }
    }
  }

  lemma {:induction false} RemoveFirstSubset(es: seq<Entry>, name: Bytes)
    ensures forall e :: e in RemoveFirst(es, name) ==> e in es
  {
    if es != [] && es[0].name != name {
      RemoveFirstSubset(es[1..], name);
    }
  }

  lemma LookupOk(t: Tree, dir: nat, name: Bytes)
    requires TreeOk(t) && IsDir(t, dir) && Lookup(t, dir, name) != NO_ENTRY
    ensures dir < Lookup(t, dir, name) && Lookup(t, dir, name) in t.nodes
  {
    FirstMatchFound(t.nodes[dir].body.entries, name);
    assert NodeOk(t, dir, t.nodes[dir]);
    var e :| e in t.nodes[dir].body.entries && e.name == name && e.ino == Lookup(t, dir, name);
    assert EntryOk(t, dir, e);
  }

  lemma UnlinkOk(t: Tree, dir: nat, name: Bytes)
    requires TreeOk(t) && IsDir(t, dir)
    ensures TreeOk(Unlink(t, dir, name))
  {
    var u := Unlink(t, dir, name);
    if Lookup(t, dir, name) != NO_ENTRY {
      LookupOk(t, dir, name);
    }
    forall n | n in u.nodes
      ensures NodeOk(u, n, u.nodes[n])
    {
      assert NodeOk(t, n, t.nodes[n]);
      if u.nodes[n].body.Dir? {
        RemoveFirstSubset(t.nodes[n].body.entries, name);
        forall e | e in u.nodes[n].body.entries
          ensures EntryOk(u, n, e)
        {
          assert EntryOk(t, n, e);
        }
      }
    }
  }

  lemma WriteOk(t: Tree, n: nat, data: Bytes)
    requires TreeOk(t) && IsFile(t, n) && t.nextBlock + DIRECT <= DISK_BLOCKS
    ensures TreeOk(Write(t, n, data))
  {
    var u := Write(t, n, data);
    forall m | m in u.nodes
      ensures NodeOk(u, m, u.nodes[m])
    {
      assert NodeOk(t, m, t.nodes[m]);
      if u.nodes[m].body.Dir? {
        forall e | e in u.nodes[m].body.entries
          ensures EntryOk(u, m, e)
        {
          assert EntryOk(t, m, e);
        }
      }
    }
  }
}
