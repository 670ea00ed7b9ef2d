/** What the invariant of the disk says, spelled out, and what stays readable over whole runs. */
module LayoutLaws {
  import opened Bytes
  import opened InodeTable
  import opened DirentBlock
  import opened StoreModel
  import opened Layout
  import opened LayoutSteps

  // Every stored pointer lies among the blocks handed out and is stored once.
  lemma OneOwner(s: Store, n: nat, i: nat, m: nat, j: nat)
    requires Inv(s) && Allocated(s.nextInode, n) && Allocated(s.nextInode, m) && i < 15 && j < 15
    requires InodeAt(s.disk, n).block[i] != 0
    ensures FIRST_BLOCK <= InodeAt(s.disk, n).block[i] < s.nextBlock && i < DIRECT
    ensures InodeAt(s.disk, n).block[i] == InodeAt(s.disk, m).block[j] ==> n == m && i == j
  {
    var p, q := InodeAt(s.disk, n).block, InodeAt(s.disk, m).block;
    assert LayoutOk(s.disk, s.nextBlock, n, InodeAt(s.disk, n));
    assert LayoutOk(s.disk, s.nextBlock, m, InodeAt(s.disk, m));
    assert NoSharing(n, p, m, q);
  }

  // Blocks not handed out are zero; a directory's pointers are a prefix of fresh blocks or blocks of one full record.
  lemma DiskShape(s: Store, n: nat, b: nat, k: nat)
    requires Inv(s) && IsDir(Abs(s), n) && b < DISK_BLOCKS && k < DIRECT
    ensures s.nextBlock <= b ==> s.disk[b] == ZeroBlock()
    ensures n >= 1
    ensures var p := InodeAt(s.disk, n).block;
            && (k > 0 && p[k] != 0 ==> p[k - 1] != 0)
            && (p[k] != 0 ==> p[k] < DISK_BLOCKS && (Fresh(s.disk[p[k]]) || RecLen(s.disk[p[k]], 0) == BLOCK_SIZE))
  {
    var bs := DirectoryBlocks(s, n);
    PointerAt(s.disk, InodeAt(s.disk, n).block, s.nextBlock, k);
    if k < |bs| {
      assert OneRecord(bs[k]);
    }
  }

  // Storing one inode stays below the data area and touches no other inode's slot and no data block.
  lemma SlotsNeverOverlap(d: Disk, n: nat, ino: Inode, block: Block)
    requires 1 <= n <= MAX_INODE
    requires var off := InodeOffset(n);
             block == d[InodeBlock(n)][..off] + EncodeInode(ino) + d[InodeBlock(n)][off + INODE_BYTES..]
    ensures InodeBlock(n) < FIRST_BLOCK
    ensures InodeReplaced(d, d[InodeBlock(n) := block], n, ino)
  {
    SlotsApart(n, n);
    StoringInode(d, d[InodeBlock(n) := block], n, ino);
  }

  // The bytes an inode copy leads to.
  ghost function CopyReads(d: Disk, ino: Inode, offset: nat, size: nat): Bytes
    requires InDisk(ino.block)
  {
    Slice(FileBytes(Blocks(d, ino.block)), offset, size)
  }

  // The copy of a file's inode points only at allocated blocks no directory owns.
  ghost predicate CopySafe(s: Store, ino: Inode) {
    && PointersOk(ino.block, s.nextBlock)
    && forall k :: 0 <= k < Held(ino.block, 0) ==> !DirOwned(s, ino.block[k])
  }

  lemma FileCopySafe(s: Store, n: nat)
    requires Inv(s) && IsFile(Abs(s), n) && 1 <= n
    ensures CopySafe(s, InodeAt(s.disk, n))
  {
    var ino := InodeAt(s.disk, n);
    assert Allocated(s.nextInode, n);
    AbsAt(s, n);
    assert LayoutOk(s.disk, s.nextBlock, n, ino);
    forall d: nat | Allocated(s.nextInode, d)
      ensures NoSharing(d, InodeAt(s.disk, d).block, n, ino.block)
    {
    }
  }

  lemma CopyStep(s1: Store, s2: Store, ino: Inode)
    requires Evolves(s1, s2) && CopySafe(s1, ino) && s2.nextBlock <= DISK_BLOCKS
    ensures CopySafe(s2, ino) && Blocks(s2.disk, ino.block) == Blocks(s1.disk, ino.block)
  {
    hide DirOwned;
  }

  // A run of the store: every operation of Ext2 ensures Evolves between the states around it.
  ghost predicate History(ss: seq<Store>) {
    && (forall i :: 0 <= i < |ss| ==> ss[i].nextBlock <= DISK_BLOCKS)
    && (forall i :: 0 <= i < |ss| - 1 ==> Evolves(ss[i], ss[i + 1]))
  }

  // An inode copied before any run of creations, writes and unlinks still reads the bytes it read then.
  lemma {:induction false} CopyStillReads(ss: seq<Store>, n: nat, offset: nat, size: nat)
    requires |ss| >= 1 && History(ss) && Inv(ss[0]) && IsFile(Abs(ss[0]), n) && 1 <= n
    ensures var copy := InodeAt(ss[0].disk, n);
            && InDisk(copy.block)
            && CopyReads(ss[|ss| - 1].disk, copy, offset, size) == Slice(Abs(ss[0]).nodes[n].body.bytes, offset, size)
  {
    var copy := InodeAt(ss[0].disk, n);
    FileCopySafe(ss[0], n);
    assert Allocated(ss[0].nextInode, n);
    AbsAt(ss[0], n);
    CopyRun(ss, copy);
  }

  lemma {:induction false} CopyRun(ss: seq<Store>, copy: Inode)
    requires |ss| >= 1 && History(ss) && CopySafe(ss[0], copy)
    ensures CopySafe(ss[|ss| - 1], copy)
    ensures Blocks(ss[|ss| - 1].disk, copy.block) == Blocks(ss[0].disk, copy.block)
    decreases |ss|
  {
    hide CopySafe, Evolves, Blocks;
    CopySafeInDisk(ss[0], copy);
    if |ss| > 1 {
      CopyStep(ss[0], ss[1], copy);
      assert History(ss[1..]);
      CopyRun(ss[1..], copy);
    }
  }

  lemma CopySafeInDisk(s: Store, copy: Inode)
    requires CopySafe(s, copy)
    ensures InDisk(copy.block)
  {
  }
}
