/** How a tree of nodes lies on the disk: pointers, ownership of blocks, and the abstraction function. */
module Layout {
  import opened Bytes
  import opened InodeTable
  import opened DirentBlock
  import opened StoreModel

  type Disk = d: seq<Block> | |d| == DISK_BLOCKS witness seq<Block>(DISK_BLOCKS, i => ZeroBlock())

  datatype Store = Store(disk: Disk, nextInode: nat, nextBlock: nat)

  // Number of leading direct pointers in use, counting from i.
  ghost function Held(p: Pointers, i: nat): (h: nat)
    requires i <= DIRECT
    ensures i <= h <= DIRECT && (forall k :: i <= k < h ==> p[k] != 0) && (h < DIRECT ==> p[h] == 0)
    decreases DIRECT - i
  {
    if i == DIRECT || p[i] == 0 then i else Held(p, i + 1)
  }

  lemma {:induction false} HeldIs(p: Pointers, i: nat, h: nat)
    requires i <= h <= DIRECT && (forall k :: i <= k < h ==> p[k] != 0) && (h < DIRECT ==> p[h] == 0)
    ensures Held(p, i) == h
    decreases h - i
  {
    if i < h {
      HeldIs(p, i + 1, h);
    }
  }

  // The direct pointers in use form a prefix and stay inside the allocated data area.
  ghost predicate PointersOk(p: Pointers, nextBlock: nat) {
    && nextBlock <= DISK_BLOCKS
    && (forall k :: 0 <= k < Held(p, 0) ==> FIRST_BLOCK <= p[k] < nextBlock)
    && (forall k :: Held(p, 0) <= k < 15 ==> p[k] == 0)
  }

  ghost predicate InDisk(p: Pointers) {
    forall k :: 0 <= k < Held(p, 0) ==> p[k] < DISK_BLOCKS
  }

  // The blocks an inode holds, in order.
  ghost function Blocks(d: Disk, p: Pointers): (bs: seq<Block>)
    requires InDisk(p)
    ensures |bs| == Held(p, 0)
  {
    seq(Held(p, 0), k requires 0 <= k < Held(p, 0) => d[p[k]])
  }

  ghost function FileBytes(bs: seq<Block>): Bytes {
    if bs == [] then [] else bs[0] + FileBytes(bs[1..])
  }

  ghost function Flatten<T>(lists: seq<seq<T>>): seq<T> {
    if lists == [] then [] else lists[0] + Flatten(lists[1..])
  }

  ghost predicate AllDirBlocks(bs: seq<Block>) {
    forall k :: 0 <= k < |bs| ==> DirBlock(bs[k])
  }

  ghost function EntryLists(bs: seq<Block>): (lists: seq<seq<Entry>>)
    requires AllDirBlocks(bs)
    ensures |lists| == |bs|
  {
    seq(|bs|, k requires 0 <= k < |bs| => BlockEntries(bs[k]))
  }

  ghost function DirEntries(bs: seq<Block>): seq<Entry>
    requires AllDirBlocks(bs)
  {
    Flatten(EntryLists(bs))
  }

  lemma {:induction false} FileBytesLength(bs: seq<Block>)
    ensures |FileBytes(bs)| == BLOCK_SIZE * |bs|
  {
    if bs != [] {
      FileBytesLength(bs[1..]);
    }
  }

  lemma {:induction false} FileBytesSplit(bs: seq<Block>, cs: seq<Block>)
    ensures FileBytes(bs + cs) == FileBytes(bs) + FileBytes(cs)
  {
    if bs == [] {
      assert bs + cs == cs;
    } else {
      assert (bs + cs)[1..] == bs[1..] + cs;
      FileBytesSplit(bs[1..], cs);
      AppendAssociates(bs[0], FileBytes(bs[1..]), FileBytes(cs));
    }
  }

  lemma {:induction false} FlattenJoin<T>(xs: seq<seq<T>>, ys: seq<seq<T>>)
    ensures Flatten(xs + ys) == Flatten(xs) + Flatten(ys)
  {
    if xs == [] {
      assert xs + ys == ys;
    } else {
      assert (xs + ys)[1..] == xs[1..] + ys;
      FlattenJoin(xs[1..], ys);
    }
  }

  lemma FlattenOne<T>(x: seq<T>)
    ensures Flatten([x]) == x
  {
    assert Flatten([x]) == x + Flatten([x][1..]);
  }

  // A flattened list around position k.
  lemma {:induction false} FlattenAt<T>(lists: seq<seq<T>>, k: nat)
    requires k < |lists|
    ensures Flatten(lists) == Flatten(lists[..k]) + (lists[k] + Flatten(lists[k + 1..]))
  {
    if k == 0 {
      assert Flatten(lists[..0]) == [];
    } else {
      FlattenAt(lists[1..], k - 1);
      assert lists[..k][1..] == lists[1..][..k - 1] && lists[1..][k..] == lists[k + 1..];
      AppendAssociates(lists[0], Flatten(lists[1..][..k - 1]), lists[k] + Flatten(lists[k + 1..]));
    }
  }

  // ------------------------------------------------------------------ nodes

  // Every block but the last holds records; the last may still be fresh.
  ghost predicate DirLayout(bs: seq<Block>) {
    && AllDirBlocks(bs)
    && (forall k :: 0 <= k < |bs| - 1 ==> !Fresh(bs[k]))
    && (forall k :: 0 <= k < |bs| ==> OneRecord(bs[k]))
  }

  ghost predicate LayoutOk(d: Disk, nextBlock: nat, n: nat, ino: Inode) {
    PointersOk(ino.block, nextBlock) && (IsDirInode(n, ino) ==> DirLayout(Blocks(d, ino.block)))
  }

  ghost function FullBlocks(bs: seq<Block>): nat {
    if bs != [] && Fresh(bs[|bs| - 1]) then |bs| - 1 else |bs|
  }

  ghost function BodyOf(isDir: bool, bs: seq<Block>): Body
    requires isDir ==> DirLayout(bs)
  {
    if isDir then Dir(DirEntries(bs), FullBlocks(bs), |bs|) else File(FileBytes(bs))
  }

  ghost function NodeOf(d: Disk, nextBlock: nat, n: nat, ino: Inode): Node
    requires LayoutOk(d, nextBlock, n, ino)
  {
    Node(ino.(block := NoPointers()), BodyOf(IsDirInode(n, ino), Blocks(d, ino.block)))
  }

  lemma NodeFrame(d1: Disk, d2: Disk, nb1: nat, nb2: nat, n: nat, ino: Inode)
    requires LayoutOk(d1, nb1, n, ino) && nb1 <= nb2 <= DISK_BLOCKS
    requires forall k :: 0 <= k < Held(ino.block, 0) ==> d2[ino.block[k]] == d1[ino.block[k]]
    ensures LayoutOk(d2, nb2, n, ino) && NodeOf(d2, nb2, n, ino) == NodeOf(d1, nb1, n, ino)
  {
    assert Blocks(d1, ino.block) == Blocks(d2, ino.block);
  }

  // ------------------------------------------------------------------ the whole store

  ghost predicate Owns(p: Pointers, b: nat) {
    exists k :: 0 <= k < DIRECT && p[k] == b && b != 0
  }

  // No data block is pointed to twice.
  ghost predicate NoSharing(n: nat, p: Pointers, m: nat, q: Pointers) {
    forall i, j :: 0 <= i < DIRECT && 0 <= j < DIRECT && p[i] != 0 && p[i] == q[j] ==> n == m && i == j
  }

  ghost predicate Ownership(s: Store) {
    forall n, m :: Allocated(s.nextInode, n) && Allocated(s.nextInode, m) ==>
      NoSharing(n, InodeAt(s.disk, n).block, m, InodeAt(s.disk, m).block)
  }

  // Blocks never handed out are still as the image was made.
  ghost predicate TailZero(s: Store) {
    forall b :: s.nextBlock <= b < DISK_BLOCKS ==> s.disk[b] == ZeroBlock()
  }

  ghost predicate Counters(s: Store) {
    FIRST_INODE <= s.nextInode <= MAX_INODE + 1 && FIRST_BLOCK <= s.nextBlock <= DISK_BLOCKS
  }

  ghost predicate LaidOut(s: Store) {
    && Counters(s)
    && (forall n :: Allocated(s.nextInode, n) ==> LayoutOk(s.disk, s.nextBlock, n, InodeAt(s.disk, n)))
    && Ownership(s)
    && TailZero(s)
  }

  ghost function NodeAt(s: Store, n: nat): Node
    requires LaidOut(s) && Allocated(s.nextInode, n)
  {
    NodeOf(s.disk, s.nextBlock, n, InodeAt(s.disk, n))
  }

  ghost function Abs(s: Store): Tree
    requires LaidOut(s)
  {
    Tree(map n | 0 <= n <= MAX_INODE && Allocated(s.nextInode, n) :: NodeAt(s, n), s.nextInode, s.nextBlock)
  }

  lemma AbsAt(s: Store, n: nat)
    requires LaidOut(s) && Allocated(s.nextInode, n)
    ensures n in Abs(s).nodes && Abs(s).nodes[n] == NodeAt(s, n)
  {
  }

  ghost predicate Inv(s: Store) { LaidOut(s) && TreeOk(Abs(s)) }

  // The blocks of an allocated directory, as its node describes them.
  ghost function DirectoryBlocks(s: Store, n: nat): (bs: seq<Block>)
    requires Inv(s) && IsDir(Abs(s), n)
    ensures n >= 1 && n <= MAX_INODE && Allocated(s.nextInode, n) && IsDirInode(n, InodeAt(s.disk, n))
    ensures PointersOk(InodeAt(s.disk, n).block, s.nextBlock) && InodeAt(s.disk, n).size <= DIRECT * BLOCK_SIZE
    ensures bs == Blocks(s.disk, InodeAt(s.disk, n).block) && AllDirBlocks(bs) && DirLayout(bs)
    ensures Abs(s).nodes[n].body == Dir(DirEntries(bs), FullBlocks(bs), |bs|)
  {
    assert Allocated(s.nextInode, n) && NodeOk(Abs(s), n, Abs(s).nodes[n]);
    assert LayoutOk(s.disk, s.nextBlock, n, InodeAt(s.disk, n));
    AbsAt(s, n);
    Blocks(s.disk, InodeAt(s.disk, n).block)
  }

  lemma FormattedOk(s: Store)
    requires s.nextInode == FIRST_INODE && s.nextBlock == FIRST_BLOCK
    requires forall b :: 0 <= b < DISK_BLOCKS && b != 1 ==> s.disk[b] == ZeroBlock()
    ensures Inv(s) && Abs(s) == EmptyTree()
  {
    var ino := InodeAt(s.disk, ROOT);
    assert ino.block == NoPointers();
    assert ino == ZeroInode();
    HeldIs(ino.block, 0, 0);
    assert Blocks(s.disk, ino.block) == [];
    assert forall n :: Allocated(s.nextInode, n) ==> n == ROOT;
    EmptyTreeOk();
    FormattedTree(s);
  }

  lemma FormattedTree(s: Store)
    requires LaidOut(s) && s.nextInode == FIRST_INODE && s.nextBlock == FIRST_BLOCK && NodeAt(s, ROOT) == EmptyTree().nodes[ROOT]
    ensures Abs(s) == EmptyTree()
  {
    hide LaidOut, NodeAt, Abs;
    AbsKeys(s);
    AbsAt(s, ROOT);
    AbsCounters(s);
    assert Abs(s).nodes.Keys == EmptyTree().nodes.Keys;
  }

  lemma AbsCounters(s: Store)
    requires LaidOut(s)
    ensures Abs(s).nextInode == s.nextInode && Abs(s).nextBlock == s.nextBlock
  {
  }

  // ------------------------------------------------------------------ one inode changes

  // Only inode n and blocks that it owned or that were still unallocated differ between s1 and s2.
  ghost predicate Touches(s1: Store, s2: Store, n: nat)
    requires n >= 1
  {
    && s1.nextBlock <= s2.nextBlock <= DISK_BLOCKS
    && (forall m :: 1 <= m <= MAX_INODE && m != n ==> InodeAt(s2.disk, m) == InodeAt(s1.disk, m))
    && (forall b :: FIRST_BLOCK <= b < s1.nextBlock && s2.disk[b] != s1.disk[b] ==>
          Allocated(s1.nextInode, n) && Owns(InodeAt(s1.disk, n).block, b))
    && (forall b :: s2.nextBlock <= b < DISK_BLOCKS ==> s2.disk[b] == s1.disk[b])
  }

  // The pointers of n's new inode are distinct and were its own or newly allocated.
  ghost predicate PointersMayBe(s1: Store, s2: Store, n: nat, ino: Inode)
    requires n >= 1
  {
    && NoSharing(n, ino.block, n, ino.block)
    && forall k :: 0 <= k < DIRECT && ino.block[k] != 0 ==>
         || s1.nextBlock <= ino.block[k] < s2.nextBlock
         || (Allocated(s1.nextInode, n) && Owns(InodeAt(s1.disk, n).block, ino.block[k]))
  }

  lemma OthersKeepBlocks(s1: Store, s2: Store, n: nat, m: nat)
    requires LaidOut(s1) && Counters(s2) && n >= 1 && Touches(s1, s2, n)
    requires Allocated(s1.nextInode, m) && m != n
    ensures LayoutOk(s2.disk, s2.nextBlock, m, InodeAt(s2.disk, m))
    ensures NodeOf(s2.disk, s2.nextBlock, m, InodeAt(s2.disk, m)) == NodeAt(s1, m)
  {
    var ino := InodeAt(s1.disk, m);
    assert InodeAt(s2.disk, m) == ino;
    forall k | 0 <= k < Held(ino.block, 0)
      ensures s2.disk[ino.block[k]] == s1.disk[ino.block[k]]
    {
      if Allocated(s1.nextInode, n) {
        assert NoSharing(m, ino.block, n, InodeAt(s1.disk, n).block);
      }
    }
    NodeFrame(s1.disk, s2.disk, s1.nextBlock, s2.nextBlock, m, ino);
  }

  lemma OwnershipKept(s1: Store, s2: Store, n: nat, m: nat)
    requires LaidOut(s1) && 1 <= n && Touches(s1, s2, n) && PointersMayBe(s1, s2, n, InodeAt(s2.disk, n))
    requires Allocated(s1.nextInode, m) && m != n
    ensures NoSharing(n, InodeAt(s2.disk, n).block, m, InodeAt(s2.disk, m).block)
    ensures NoSharing(m, InodeAt(s2.disk, m).block, n, InodeAt(s2.disk, n).block)
  {
    var p, q := InodeAt(s2.disk, n).block, InodeAt(s1.disk, m).block;
    assert InodeAt(s2.disk, m).block == q;
    PointerBounds(s1, m);
    assert Allocated(s1.nextInode, n) ==> NoSharing(n, InodeAt(s1.disk, n).block, m, q);
    hide LaidOut, Touches;
  }

  lemma PointerBounds(s: Store, n: nat)
    requires LaidOut(s) && Allocated(s.nextInode, n)
    ensures var p := InodeAt(s.disk, n).block;
            forall j :: 0 <= j < DIRECT && p[j] != 0 ==> FIRST_BLOCK <= p[j] < s.nextBlock
  {
    assert LayoutOk(s.disk, s.nextBlock, n, InodeAt(s.disk, n));
  }

  lemma UpdateNode(s1: Store, s2: Store, n: nat)
    requires LaidOut(s1) && Counters(s2) && n >= 1 && Touches(s1, s2, n)
    requires Allocated(s2.nextInode, n)
    requires s2.nextInode == s1.nextInode || (n == s1.nextInode && s2.nextInode == n + 1)
    requires LayoutOk(s2.disk, s2.nextBlock, n, InodeAt(s2.disk, n))
    requires PointersMayBe(s1, s2, n, InodeAt(s2.disk, n))
    ensures LaidOut(s2)
    ensures Abs(s2) == Tree(Abs(s1).nodes[n := NodeAt(s2, n)],
                            s2.nextInode, s2.nextBlock)
  {
    forall m | Allocated(s2.nextInode, m) && m != n
      ensures Allocated(s1.nextInode, m)
      ensures LayoutOk(s2.disk, s2.nextBlock, m, InodeAt(s2.disk, m))
      ensures NodeOf(s2.disk, s2.nextBlock, m, InodeAt(s2.disk, m)) == NodeAt(s1, m)
      ensures NoSharing(n, InodeAt(s2.disk, n).block, m, InodeAt(s2.disk, m).block)
      ensures NoSharing(m, InodeAt(s2.disk, m).block, n, InodeAt(s2.disk, n).block)
    {
      OthersKeepBlocks(s1, s2, n, m);
      OwnershipKept(s1, s2, n, m);
    }
    assert Ownership(s2) by {
      forall a, b | Allocated(s2.nextInode, a) && Allocated(s2.nextInode, b)
        ensures NoSharing(a, InodeAt(s2.disk, a).block, b, InodeAt(s2.disk, b).block)
      {
        if a != n && b != n {
          assert NoSharing(a, InodeAt(s1.disk, a).block, b, InodeAt(s1.disk, b).block);
        }
      }
    }
    assert LaidOut(s2);
    forall m | Allocated(s1.nextInode, m) && m != n
      ensures NodeAt(s2, m) == NodeAt(s1, m)
    {
      assert Allocated(s2.nextInode, m);
    }
    UpdatedMap(s1, s2, n);
  }

  lemma UpdatedMap(s1: Store, s2: Store, n: nat)
    requires LaidOut(s1) && LaidOut(s2) && Allocated(s2.nextInode, n)
    requires s2.nextInode == s1.nextInode || (n == s1.nextInode && s2.nextInode == n + 1)
    requires forall m :: Allocated(s1.nextInode, m) && m != n ==> NodeAt(s2, m) == NodeAt(s1, m)
    ensures Abs(s2).nodes == Abs(s1).nodes[n := NodeAt(s2, n)]
  {
    hide NodeAt, Ownership, TailZero, LayoutOk, Abs, LaidOut;
    AbsKeys(s1);
    AbsKeys(s2);
    var a, b := Abs(s2).nodes, Abs(s1).nodes[n := NodeAt(s2, n)];
    assert forall m :: Allocated(s2.nextInode, m) <==> m == n || Allocated(s1.nextInode, m);
    assert a.Keys == b.Keys;
    forall m | m in a
      ensures a[m] == b[m]
    {
      AbsAt(s2, m);
      if m != n {
        AbsAt(s1, m);
      }
    }
  }

  lemma AbsKeys(s: Store)
    requires LaidOut(s)
    ensures forall m :: m in Abs(s).nodes <==> Allocated(s.nextInode, m)
  {
    hide NodeAt, Ownership, TailZero, LayoutOk;
  }

  // ------------------------------------------------------------------ what survives over time

  ghost predicate DirOwns(s: Store, n: nat, b: nat)
    requires Allocated(s.nextInode, n)
  {
    IsDirInode(n, InodeAt(s.disk, n)) && Owns(InodeAt(s.disk, n).block, b)
  }

  ghost predicate DirOwned(s: Store, b: nat) {
    exists n :: Allocated(s.nextInode, n) && DirOwns(s, n, b)
  }

  // From s1 to s2 no allocated block outside the directories was written or became a directory's.
  ghost predicate Evolves(s1: Store, s2: Store) {
    && s1.nextBlock <= s2.nextBlock
    && forall b :: FIRST_BLOCK <= b < s1.nextBlock && b < DISK_BLOCKS && !DirOwned(s1, b) ==>
         s2.disk[b] == s1.disk[b] && !DirOwned(s2, b)
  }

  lemma EvolvesRefl(s: Store)
    ensures Evolves(s, s)
  {
  }

  lemma EvolvesTrans(s1: Store, s2: Store, s3: Store)
    requires Evolves(s1, s2) && Evolves(s2, s3)
    ensures Evolves(s1, s3)
  {
  }

  lemma DirOwnerStays(s1: Store, s2: Store, n: nat, m: nat, b: nat)
    requires LaidOut(s1) && n >= 1 && Touches(s1, s2, n) && PointersMayBe(s1, s2, n, InodeAt(s2.disk, n))
    requires s2.nextInode <= MAX_INODE + 1
    requires s2.nextInode == s1.nextInode || (n == s1.nextInode && s2.nextInode == n + 1)
    requires Allocated(s1.nextInode, n) && IsDirInode(n, InodeAt(s2.disk, n)) ==> IsDirInode(n, InodeAt(s1.disk, n))
    requires Allocated(s2.nextInode, m) && DirOwns(s2, m, b) && b < s1.nextBlock
    ensures DirOwned(s1, b)
  {
    if m == n {
      var k :| 0 <= k < DIRECT && InodeAt(s2.disk, n).block[k] == b && b != 0;
      assert Allocated(s1.nextInode, n) && DirOwns(s1, n, b);
    } else {
      assert InodeAt(s2.disk, m) == InodeAt(s1.disk, m);
      assert DirOwns(s1, m, b);
    }
  }

  lemma UpdateEvolves(s1: Store, s2: Store, n: nat)
    requires LaidOut(s1) && n >= 1 && Touches(s1, s2, n) && PointersMayBe(s1, s2, n, InodeAt(s2.disk, n))
    requires s2.nextInode <= MAX_INODE + 1
    requires s2.nextInode == s1.nextInode || (n == s1.nextInode && s2.nextInode == n + 1)
    requires Allocated(s1.nextInode, n) && IsDirInode(n, InodeAt(s2.disk, n)) ==> IsDirInode(n, InodeAt(s1.disk, n))
    requires (Allocated(s1.nextInode, n) && IsDirInode(n, InodeAt(s1.disk, n))) ||
             forall b :: FIRST_BLOCK <= b < s1.nextBlock ==> s2.disk[b] == s1.disk[b]
    ensures Evolves(s1, s2)
  {
    forall b | FIRST_BLOCK <= b < s1.nextBlock && s2.disk[b] != s1.disk[b]
      ensures DirOwned(s1, b)
    {
      assert DirOwns(s1, n, b);
    }
    forall m: nat, b: nat | Allocated(s2.nextInode, m) && b < s1.nextBlock && DirOwns(s2, m, b)
      ensures DirOwned(s1, b)
    {
      DirOwnerStays(s1, s2, n, m, b);
    }
  }
}
