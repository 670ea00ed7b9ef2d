/** The single steps of kernel/ext2.c on the disk, each shown to be one change of the tree. */
module LayoutSteps {
  import opened Bytes
  import opened InodeTable
  import opened DirentBlock
  import opened StoreModel
  import opened Layout

  // ------------------------------------------------------------------ scanning inside a block

  // prev is where the record before off starts, or -1.
  ghost predicate Precedes(b: Block, prev: int, off: nat) {
    if prev < 0 then off == 0
    else Chain(b, 0, prev) && RecordAt(b, prev) && prev + RecLen(b, prev) == off
  }

  // A scan stopped at the first live record called name.
  ghost predicate MatchAt(b: Block, prev: int, off: nat, name: Bytes) {
    off < BLOCK_SIZE && Scanned(b, off, name) && Precedes(b, prev, off) && RecordAt(b, off) && Matches(b, off, name)
  }

  // b2 is b1 after ext2_unlink edited the record at off.
  ghost predicate RecordDropped(b1: Block, b2: Block, prev: int, off: nat)
    requires off + HEADER <= BLOCK_SIZE && prev + HEADER <= BLOCK_SIZE
  {
    if prev < 0 then RecIno(b2, 0) == 0 && forall i :: 4 <= i < BLOCK_SIZE ==> b2[i] == b1[i]
    else
      && RecLen(b2, prev) == RecLen(b1, prev) + RecLen(b1, off)
      && forall i :: 0 <= i < BLOCK_SIZE && !(prev + 4 <= i < prev + 6) ==> b2[i] == b1[i]
  }

  // Dropping the matched record removes exactly the first entry of that name, and the records still tile the block.
  lemma DropRecord(b1: Block, b2: Block, prev: int, off: nat, name: Bytes)
    requires MatchAt(b1, prev, off, name) && prev + HEADER <= BLOCK_SIZE && RecordDropped(b1, b2, prev, off)
    ensures Tiled(b1) && Tiled(b2) && !Fresh(b2)
    ensures BlockEntries(b2) == RemoveFirst(BlockEntries(b1), name)
  {
    MatchAtCursor(b1, off, name);
    if prev < 0 {
      KillFirstRecord(b1, b2, name);
    } else {
      SwallowRecord(b1, b2, prev, off);
      FreshOrNot(b2);
    }
  }

  // ------------------------------------------------------------------ adding an entry

  // The block holds e and nothing else.
  ghost predicate JustEntry(rec: Block, e: Entry) {
    DirBlock(rec) && !Fresh(rec) && BlockEntries(rec) == [e] && OneRecord(rec)
  }

  // What the scan for a free place sees at position i, up to the first place without records.
  lemma BlockKind(d: Disk, p: Pointers, bs: seq<Block>, i: nat)
    requires InDisk(p) && bs == Blocks(d, p) && DirLayout(bs) && i <= FullBlocks(bs) && i < DIRECT
    ensures p[i] < DISK_BLOCKS && (p[i] == 0 <==> i == |bs|)
    ensures i < |bs| ==> DirBlock(d[p[i]]) && (Fresh(d[p[i]]) <==> i == FullBlocks(bs))
  {
    if i < |bs| {
      assert bs[i] == d[p[i]];
    }
  }

  lemma GrownLayout(bs: seq<Block>, rec: Block)
    requires DirLayout(bs) && DirBlock(rec) && !Fresh(rec) && OneRecord(rec)
    ensures var bs2 := bs[..FullBlocks(bs)] + [rec];
            && DirLayout(bs2) && FullBlocks(bs2) == |bs2|
            && EntryLists(bs2) == EntryLists(bs)[..FullBlocks(bs)] + [BlockEntries(rec)]
  {
  }

  lemma OldEntries(bs: seq<Block>)
    requires DirLayout(bs)
    ensures DirEntries(bs) == Flatten(EntryLists(bs)[..FullBlocks(bs)])
  {
    var lists, i := EntryLists(bs), FullBlocks(bs);
    if i < |bs| {
      assert lists[i] == [];
      assert lists == lists[..i] + [lists[i]];
      FlattenJoin(lists[..i], [lists[i]]);
      FlattenOne(lists[i]);
    } else {
      assert lists == lists[..i];
    }
  }

  // A directory's blocks after rec took the first place without records.
  lemma GrownBlocks(bs: seq<Block>, rec: Block, e: Entry)
    requires DirLayout(bs) && JustEntry(rec, e)
    ensures var bs2 := bs[..FullBlocks(bs)] + [rec];
            DirLayout(bs2) && DirEntries(bs2) == DirEntries(bs) + [e] && FullBlocks(bs2) == |bs2|
  {
    GrownLayout(bs, rec);
    OldEntries(bs);
    var head := EntryLists(bs)[..FullBlocks(bs)];
    FlattenJoin(head, [BlockEntries(rec)]);
    FlattenOne(BlockEntries(rec));
  }

  // What ext2_add_dirent leaves behind: directory inode ino2, and rec in block blk of the directory.
  ghost predicate EntryStored(s1: Store, s2: Store, dir: nat, i: nat, blk: nat, rec: Block, ino2: Inode)
    requires 1 <= dir
  {
    var ino := InodeAt(s1.disk, dir);
    && i < DIRECT && FIRST_BLOCK <= blk < DISK_BLOCKS
    && s2.nextInode == s1.nextInode && Counters(s2)
    && ino2.block == ino.block[i := blk]
    && InodeReplaced(s1.disk[blk := rec], s2.disk, dir, ino2)
    && if i < Held(ino.block, 0) then blk == ino.block[i] && s2.nextBlock == s1.nextBlock && ino2 == ino
       else i == Held(ino.block, 0) && blk == s1.nextBlock && s2.nextBlock == s1.nextBlock + 1
  }

  lemma EntryStoredNow(s1: Store, s2: Store, dir: nat, i: nat, ino: Inode, rec: Block, ino2: Inode)
    requires Counters(s1) && s1.nextBlock < DISK_BLOCKS && 1 <= dir && ino == InodeAt(s1.disk, dir)
    requires PointersOk(ino.block, s1.nextBlock) && i <= Held(ino.block, 0) && i < DIRECT && ino.size <= MAX_FILE
    requires s2.nextInode == s1.nextInode
    requires if ino.block[i] != 0 then
               ino2 == ino && s2.nextBlock == s1.nextBlock && InodeReplaced(s1.disk[ino.block[i] := rec], s2.disk, dir, ino2)
             else
               && ino2 == ino.(block := ino.block[i := s1.nextBlock], size := ino.size + BLOCK_SIZE)
               && s2.nextBlock == s1.nextBlock + 1
               && InodeReplaced(s1.disk[s1.nextBlock := ZeroBlock()][s1.nextBlock := rec], s2.disk, dir, ino2)
    ensures EntryStored(s1, s2, dir, i, ino2.block[i], rec, ino2) && AttrAfterAdd(ino, i, ino2)
  {
    assert s1.disk[s1.nextBlock := ZeroBlock()][s1.nextBlock := rec] == s1.disk[s1.nextBlock := rec];
    if ino.block[i] != 0 {
      assert ino.block[i := ino.block[i]] == ino.block;
    }
  }

  lemma DataBlockKeepsInodes(d: Disk, blk: nat, rec: Block)
    requires FIRST_BLOCK <= blk < DISK_BLOCKS
    ensures forall m :: 1 <= m <= MAX_INODE ==> InodeAt(d[blk := rec], m) == InodeAt(d, m)
  {
    forall m | 1 <= m <= MAX_INODE
      ensures InodeAt(d[blk := rec], m) == InodeAt(d, m)
    {
      SlotsApart(m, m);
    }
  }

  lemma EntryStoredDisk(s1: Store, s2: Store, dir: nat, i: nat, blk: nat, rec: Block, ino2: Inode)
    requires 1 <= dir && EntryStored(s1, s2, dir, i, blk, rec, ino2)
    ensures forall b :: FIRST_BLOCK <= b < DISK_BLOCKS && b != blk ==> s2.disk[b] == s1.disk[b]
    ensures s2.disk[blk] == rec
    ensures forall m :: 1 <= m <= MAX_INODE && m != dir ==> InodeAt(s2.disk, m) == InodeAt(s1.disk, m)
  {
    hide Held;
    DataBlockKeepsInodes(s1.disk, blk, rec);
  }

  lemma EntryStoredTouches(s1: Store, s2: Store, dir: nat, i: nat, blk: nat, rec: Block, ino2: Inode)
    requires Counters(s1) && 1 <= dir && EntryStored(s1, s2, dir, i, blk, rec, ino2)
    requires PointersOk(InodeAt(s1.disk, dir).block, s1.nextBlock) && Allocated(s1.nextInode, dir)
    ensures Touches(s1, s2, dir)
  {
    hide InodeReplaced;
    EntryStoredDisk(s1, s2, dir, i, blk, rec, ino2);
    var p1 := InodeAt(s1.disk, dir).block;
    if i < Held(p1, 0) {
      assert p1[i] == blk;
      assert Owns(p1, blk);
    }
    hide PointersOk, Held;
  }

  lemma EntryStoredPointers(s1: Store, s2: Store, dir: nat, i: nat, blk: nat, rec: Block, ino2: Inode)
    requires Counters(s1) && 1 <= dir && EntryStored(s1, s2, dir, i, blk, rec, ino2)
    requires PointersOk(InodeAt(s1.disk, dir).block, s1.nextBlock) && Allocated(s1.nextInode, dir)
    requires NoSharing(dir, InodeAt(s1.disk, dir).block, dir, InodeAt(s1.disk, dir).block)
    ensures PointersMayBe(s1, s2, dir, ino2) && PointersOk(ino2.block, s2.nextBlock)
  {
    hide InodeReplaced;
    var p1 := InodeAt(s1.disk, dir).block;
    OwnsItsOwn(p1);
    PointersReplaced(p1, ino2.block, s1.nextBlock, s2.nextBlock, i, blk);
    hide PointersOk, Held;
  }

  lemma PointersReplaced(p1: Pointers, p2: Pointers, nb1: nat, nb2: nat, i: nat, blk: U32)
    requires PointersOk(p1, nb1) && i < DIRECT && p2 == p1[i := blk] && NoSharing(0, p1, 0, p1)
    requires FIRST_BLOCK <= nb1 <= nb2 <= DISK_BLOCKS && i <= Held(p1, 0)
    requires if i < Held(p1, 0) then blk == p1[i] else blk == nb1 && nb2 == nb1 + 1
    ensures PointersOk(p2, nb2) && NoSharing(0, p2, 0, p2)
    ensures forall k :: 0 <= k < DIRECT && p2[k] != 0 ==> nb1 <= p2[k] < nb2 || p2[k] == p1[k]
  {
    if i < Held(p1, 0) {
      assert p2 == p1;
    } else {
      HeldIs(p2, 0, i + 1);
      assert forall k :: 0 <= k < DIRECT ==> p1[k] < nb1;
      NewPointerAlone(p1, p2, i, blk);
    }
  }

  lemma NewPointerAlone(p1: Pointers, p2: Pointers, i: nat, blk: U32)
    requires i < DIRECT && p2 == p1[i := blk] && NoSharing(0, p1, 0, p1)
    requires forall k :: 0 <= k < DIRECT ==> p1[k] < blk
    ensures NoSharing(0, p2, 0, p2)
  {
    forall a, b | 0 <= a < DIRECT && 0 <= b < DIRECT && p2[a] != 0 && p2[a] == p2[b]
      ensures a == b
    {
      if a != i && b != i {
        assert p1[a] == p1[b];
      }
    }
  }

  lemma BlocksAfterStore(d1: Disk, p1: Pointers, d2: Disk, p2: Pointers, i: nat, rec: Block)
    requires i <= Held(p1, 0) && i < DIRECT && p2 == p1[i := p2[i]] && p2[i] != 0 && InDisk(p1) && InDisk(p2)
    requires forall k :: i < k < DIRECT ==> p1[k] == 0
    requires forall k :: 0 <= k < i ==> d2[p1[k]] == d1[p1[k]]
    requires p2[i] < DISK_BLOCKS && d2[p2[i]] == rec
    ensures Blocks(d2, p2) == Blocks(d1, p1)[..i] + [rec]
  {
    HeldAfter(p1, p2, i);
    hide Held, Blocks;
    var bs := Blocks(d1, p1)[..i] + [rec];
    forall k | 0 <= k <= i
      ensures bs[k] == d2[p2[k]]
    {
      if k < i {
        BlockIs(d1, p1, k);
      }
    }
    BlocksAre(d2, p2, bs);
  }

  lemma BlockIs(d: Disk, p: Pointers, k: nat)
    requires InDisk(p) && k < Held(p, 0)
    ensures Blocks(d, p)[k] == d[p[k]]
  {
  }

  lemma BlocksAre(d: Disk, p: Pointers, bs: seq<Block>)
    requires InDisk(p) && |bs| == Held(p, 0) && forall k :: 0 <= k < |bs| ==> bs[k] == d[p[k]]
    ensures Blocks(d, p) == bs
  {
    hide Held;
  }

  lemma HeldAfter(p1: Pointers, p2: Pointers, i: nat)
    requires i <= Held(p1, 0) && i < DIRECT && p2 == p1[i := p2[i]] && p2[i] != 0
    requires forall k :: i < k < DIRECT ==> p1[k] == 0
    ensures Held(p2, 0) == i + 1
  {
    hide Held;
    HeldIs(p2, 0, i + 1);
  }

  lemma EntryStoredBlocks(s1: Store, s2: Store, dir: nat, i: nat, blk: nat, rec: Block, ino2: Inode)
    requires Counters(s1) && 1 <= dir && EntryStored(s1, s2, dir, i, blk, rec, ino2)
    requires PointersOk(InodeAt(s1.disk, dir).block, s1.nextBlock) && PointersOk(ino2.block, s2.nextBlock)
    requires i == FullBlocks(Blocks(s1.disk, InodeAt(s1.disk, dir).block))
    requires NoSharing(dir, InodeAt(s1.disk, dir).block, dir, InodeAt(s1.disk, dir).block)
    ensures Blocks(s2.disk, ino2.block) == Blocks(s1.disk, InodeAt(s1.disk, dir).block)[..i] + [rec]
  {
    hide Fresh, Blocks, InodeReplaced;
    EntryStoredDisk(s1, s2, dir, i, blk, rec, ino2);
    var p1, p2 := InodeAt(s1.disk, dir).block, ino2.block;
    forall k | 0 <= k < i
      ensures s2.disk[p1[k]] == s1.disk[p1[k]]
    {
      assert p1[k] != blk && FIRST_BLOCK <= p1[k];
    }
    BlocksAfterStore(s1.disk, p1, s2.disk, p2, i, rec);
  }

  // The attributes of a directory inode that received an entry at position i.
  ghost predicate AttrAfterAdd(ino: Inode, i: nat, ino2: Inode) {
    && ino.size <= MAX_FILE
    && ino2.(block := NoPointers()) ==
       if i < Held(ino.block, 0) then ino.(block := NoPointers())
       else ino.(block := NoPointers(), size := ino.size + BLOCK_SIZE)
  }

  ghost function BodyAfterAdd(body: Body, e: Entry): Body
    requires body.Dir?
  {
    Dir(body.entries + [e], body.full + 1, if body.full < body.held then body.held else body.held + 1)
  }

  lemma NodeAfterAdd(d1: Disk, nb1: nat, ino: Inode, d2: Disk, nb2: nat, ino2: Inode, dir: nat, rec: Block, e: Entry)
    requires LayoutOk(d1, nb1, dir, ino) && IsDirInode(dir, ino) && PointersOk(ino2.block, nb2) && ino2.mode == ino.mode
    requires JustEntry(rec, e)
    requires var bs := Blocks(d1, ino.block); Blocks(d2, ino2.block) == bs[..FullBlocks(bs)] + [rec]
    ensures LayoutOk(d2, nb2, dir, ino2)
    ensures NodeOf(d2, nb2, dir, ino2) ==
            Node(ino2.(block := NoPointers()), BodyAfterAdd(NodeOf(d1, nb1, dir, ino).body, e))
  {
    GrownBlocks(Blocks(d1, ino.block), rec, e);
  }

  lemma EntryAddedNode(s1: Store, s2: Store, dir: nat, e: Entry, i: nat, blk: nat, rec: Block, ino2: Inode)
    requires LaidOut(s1) && Allocated(s1.nextInode, dir) && IsDirInode(dir, InodeAt(s1.disk, dir))
    requires EntryStored(s1, s2, dir, i, blk, rec, ino2)
    requires PointersOk(InodeAt(s1.disk, dir).block, s1.nextBlock)
    requires i == FullBlocks(Blocks(s1.disk, InodeAt(s1.disk, dir).block))
    requires JustEntry(rec, e) && ino2.mode == InodeAt(s1.disk, dir).mode
    ensures Touches(s1, s2, dir) && PointersMayBe(s1, s2, dir, ino2) && LayoutOk(s2.disk, s2.nextBlock, dir, ino2)
    ensures NodeOf(s2.disk, s2.nextBlock, dir, ino2) ==
            Node(ino2.(block := NoPointers()), BodyAfterAdd(NodeAt(s1, dir).body, e))
  {
    var ino := InodeAt(s1.disk, dir);
    assert LayoutOk(s1.disk, s1.nextBlock, dir, ino);
    assert NoSharing(dir, ino.block, dir, ino.block);
    EntryStoredTouches(s1, s2, dir, i, blk, rec, ino2);
    EntryStoredPointers(s1, s2, dir, i, blk, rec, ino2);
    EntryStoredBlocks(s1, s2, dir, i, blk, rec, ino2);
    NodeAfterAdd(s1.disk, s1.nextBlock, ino, s2.disk, s2.nextBlock, ino2, dir, rec, e);
  }

  lemma EntryAdded(s1: Store, s2: Store, dir: nat, e: Entry, i: nat, blk: nat, rec: Block, ino2: Inode)
    requires LaidOut(s1) && Allocated(s1.nextInode, dir) && IsDirInode(dir, InodeAt(s1.disk, dir))
    requires EntryStored(s1, s2, dir, i, blk, rec, ino2)
    requires PointersOk(InodeAt(s1.disk, dir).block, s1.nextBlock)
    requires i == FullBlocks(Blocks(s1.disk, InodeAt(s1.disk, dir).block))
    requires JustEntry(rec, e) && AttrAfterAdd(InodeAt(s1.disk, dir), i, ino2)
    ensures LaidOut(s2) && Abs(s2) == AddEntry(Abs(s1), dir, e) && Evolves(s1, s2)
  {
    assert ino2.mode == InodeAt(s1.disk, dir).mode by { assert ino2.(block := NoPointers()).mode == ino2.mode; }
    EntryAddedNode(s1, s2, dir, e, i, blk, rec, ino2);
    UpdateNode(s1, s2, dir);
    UpdateEvolves(s1, s2, dir);
    AbsAt(s1, dir);
    TreeAfterAdd(Abs(s1), Abs(s2), dir, e, NodeAt(s2, dir).attr);
  }

  lemma TreeAfterAdd(t1: Tree, t2: Tree, dir: nat, e: Entry, attr: Inode)
    requires IsDir(t1, dir) && t1.nodes[dir].attr.size <= MAX_FILE && t1.nodes[dir].body.full < DIRECT
    requires var Node(attr1, Dir(es, full, held)) := t1.nodes[dir];
             && attr == (if full < held then attr1 else attr1.(size := attr1.size + BLOCK_SIZE))
             && t2 == Tree(t1.nodes[dir := Node(attr, BodyAfterAdd(t1.nodes[dir].body, e))], t1.nextInode,
                           if full < held then t1.nextBlock else t1.nextBlock + 1)
    ensures t2 == AddEntry(t1, dir, e)
  {
  }

  // ------------------------------------------------------------------ creating an inode

  ghost function NewDirInode(blk: U32): Inode {
    ZeroInode().(mode := DIR_MODE, links := 2, size := BLOCK_SIZE, block := NoPointers()[0 := blk])
  }

  ghost function NewFileInode(mode: U16): Inode {
    ZeroInode().(mode := mode, links := 1)
  }

  lemma FreshDirBody(d: Disk, p: Pointers, blk: U32)
    requires p == NoPointers()[0 := blk] && 0 < blk < DISK_BLOCKS && d[blk] == ZeroBlock()
    ensures InDisk(p) && Blocks(d, p) == [d[blk]] && DirLayout(Blocks(d, p))
    ensures BodyOf(true, Blocks(d, p)) == Dir([], 0, 1)
  {
    HeldIs(p, 0, 1);
    var bs := Blocks(d, p);
    assert bs == [d[blk]] && Fresh(bs[0]);
    assert EntryLists(bs) == [[]];
    FlattenOne<Entry>([]);
  }

  lemma InodeOnlyTouches(s1: Store, s2: Store, n: nat, ino: Inode)
    requires Counters(s1) && 1 <= n && s1.nextBlock <= s2.nextBlock <= DISK_BLOCKS
    requires InodeReplaced(s1.disk, s2.disk, n, ino)
    ensures Touches(s1, s2, n)
  {
  }

  lemma DirCreated(s1: Store, s2: Store)
    requires LaidOut(s1) && s1.nextInode <= MAX_INODE && s1.nextBlock < DISK_BLOCKS
    requires s2.nextInode == s1.nextInode + 1 && s2.nextBlock == s1.nextBlock + 1
    requires InodeReplaced(s1.disk, s2.disk, s1.nextInode, NewDirInode(s1.nextBlock))
    ensures LaidOut(s2) && Abs(s2) == WithNewDir(Abs(s1))
    ensures Evolves(s1, s2)
  {
    var n, ino := s1.nextInode, NewDirInode(s1.nextBlock);
    InodeOnlyTouches(s1, s2, n, ino);
    NewDirNode(s2.disk, s2.nextBlock, n, s1.nextBlock);
    UpdateNode(s1, s2, n);
    UpdateEvolves(s1, s2, n);
  }

  lemma NewDirNode(d: Disk, nb: nat, n: nat, blk: U32)
    requires FIRST_BLOCK <= blk < nb <= DISK_BLOCKS && d[blk] == ZeroBlock()
    ensures LayoutOk(d, nb, n, NewDirInode(blk)) && NodeOf(d, nb, n, NewDirInode(blk)) == FreshDir()
    ensures NoSharing(n, NewDirInode(blk).block, n, NewDirInode(blk).block)
  {
    var ino := NewDirInode(blk);
    FreshDirBody(d, ino.block, blk);
    assert DIR_MODE / S_IFDIR % 2 == 1;
    assert ino.(block := NoPointers()) == FreshDir().attr;
  }

  lemma FileCreated(s1: Store, s2: Store, mode: U16)
    requires LaidOut(s1) && s1.nextInode <= MAX_INODE && !HasDirBit(mode)
    requires s2.nextInode == s1.nextInode + 1 && s2.nextBlock == s1.nextBlock
    requires InodeReplaced(s1.disk, s2.disk, s1.nextInode, NewFileInode(mode))
    ensures LaidOut(s2) && Abs(s2) == NewNode(Abs(s1), FreshFile(mode)) && Evolves(s1, s2)
  {
    var n, ino := s1.nextInode, NewFileInode(mode);
    InodeOnlyTouches(s1, s2, n, ino);
    HeldIs(ino.block, 0, 0);
    assert Blocks(s2.disk, ino.block) == [];
    UpdateNode(s1, s2, n);
    UpdateEvolves(s1, s2, n);
  }

  // ------------------------------------------------------------------ looking names up

  // The first i blocks hold no live record called name.
  ghost predicate NoneBefore(bs: seq<Block>, i: nat, name: Bytes) {
    AllDirBlocks(bs) && i <= |bs| && NoMatch(Flatten(EntryLists(bs)[..i]), name)
  }

  lemma NothingScanned(bs: seq<Block>, name: Bytes)
    requires AllDirBlocks(bs)
    ensures NoneBefore(bs, 0, name)
  {
  }

  // Scanning block i either meets the directory's first match or extends the scanned part.
  lemma ScannedBlock(bs: seq<Block>, i: nat, name: Bytes)
    requires i < |bs| && NoneBefore(bs, i, name)
    ensures FirstMatch(BlockEntries(bs[i]), name) == NO_ENTRY ==> NoneBefore(bs, i + 1, name)
    ensures FirstMatch(BlockEntries(bs[i]), name) != NO_ENTRY ==>
              FirstMatch(DirEntries(bs), name) == FirstMatch(BlockEntries(bs[i]), name)
  {
    var lists := EntryLists(bs);
    assert lists[i] == BlockEntries(bs[i]) && lists[..i + 1] == lists[..i] + [lists[i]];
    FlattenJoin(lists[..i], [lists[i]]);
    FlattenOne(lists[i]);
    FirstMatchFound(lists[i], name);
    FlattenAt(lists, i);
    FirstMatchSkips(Flatten(lists[..i]), lists[i] + Flatten(lists[i + 1..]), name);
    FirstMatchStable(lists[i], Flatten(lists[i + 1..]), name);
  }

  lemma AllScanned(bs: seq<Block>, name: Bytes)
    requires NoneBefore(bs, |bs|, name)
    ensures FirstMatch(DirEntries(bs), name) == NO_ENTRY
  {
    assert EntryLists(bs)[..|bs|] == EntryLists(bs);
    FirstMatchFound(DirEntries(bs), name);
  }

  // ------------------------------------------------------------------ unlinking

  ghost predicate EmptiedInode(ino: Inode, ino2: Inode) {
    ino2 == ino.(links := 0, size := 0, block := NoPointers())
  }

  lemma VictimEmptied(s1: Store, s2: Store, v: nat)
    requires LaidOut(s1) && Allocated(s1.nextInode, v)
    requires s2.nextInode == s1.nextInode && s2.nextBlock == s1.nextBlock
    requires EmptiedInode(InodeAt(s1.disk, v), InodeAt(s2.disk, v))
    requires InodeReplaced(s1.disk, s2.disk, v, InodeAt(s2.disk, v))
    ensures LaidOut(s2) && Abs(s2) == Abs(s1).(nodes := Abs(s1).nodes[v := Emptied(Abs(s1).nodes[v])])
    ensures Evolves(s1, s2)
  {
    InodeOnlyTouches(s1, s2, v, InodeAt(s2.disk, v));
    EmptiedNode(s1.disk, s2.disk, s1.nextBlock, v, InodeAt(s1.disk, v), InodeAt(s2.disk, v));
    assert LayoutOk(s1.disk, s1.nextBlock, v, InodeAt(s1.disk, v));
    hide InodeReplaced, LayoutOk, Ownership, TailZero;
    UpdateNode(s1, s2, v);
    UpdateEvolves(s1, s2, v);
    AbsAt(s1, v);
  }

  lemma EmptiedNode(d1: Disk, d2: Disk, nb: nat, v: nat, ino: Inode, ino2: Inode)
    requires EmptiedInode(ino, ino2) && nb <= DISK_BLOCKS
    ensures LayoutOk(d2, nb, v, ino2) && NoSharing(v, ino2.block, v, ino2.block)
    ensures LayoutOk(d1, nb, v, ino) ==> NodeOf(d2, nb, v, ino2) == Emptied(NodeOf(d1, nb, v, ino))
  {
    HeldIs(ino2.block, 0, 0);
    assert Blocks(d2, ino2.block) == [];
  }

  lemma RemoveFirstIn(es: seq<Entry>, fs: seq<Entry>, name: Bytes)
    requires !NoMatch(es, name)
    ensures RemoveFirst(es + fs, name) == RemoveFirst(es, name) + fs
  {
    if es[0].name != name {
      assert (es + fs)[1..] == es[1..] + fs;
      RemoveFirstIn(es[1..], fs, name);
    } else {
      assert (es + fs)[1..] == es[1..] + fs;
    }
  }

  lemma DroppedFromLists(lists: seq<seq<Entry>>, k: nat, name: Bytes)
    requires k < |lists| && NoMatch(Flatten(lists[..k]), name) && !NoMatch(lists[k], name)
    ensures Flatten(lists[k := RemoveFirst(lists[k], name)]) == RemoveFirst(Flatten(lists), name)
  {
    var lists2 := lists[k := RemoveFirst(lists[k], name)];
    FlattenAt(lists, k);
    FlattenAt(lists2, k);
    assert lists2[..k] == lists[..k] && lists2[k + 1..] == lists[k + 1..];
    FirstMatchSkips(Flatten(lists[..k]), lists[k] + Flatten(lists[k + 1..]), name);
    RemoveFirstIn(lists[k], Flatten(lists[k + 1..]), name);
  }

  lemma EditedLayout(bs: seq<Block>, k: nat, rec: Block)
    requires DirLayout(bs) && k < |bs| && DirBlock(rec) && !Fresh(rec) && !Fresh(bs[k]) && OneRecord(rec)
    ensures DirLayout(bs[k := rec]) && FullBlocks(bs[k := rec]) == FullBlocks(bs)
    ensures EntryLists(bs[k := rec]) == EntryLists(bs)[k := BlockEntries(rec)]
  {
  }

  // Editing block k of a directory removes the first entry of that name from the whole directory.
  lemma DroppedBlocks(bs: seq<Block>, k: nat, rec: Block, name: Bytes)
    requires DirLayout(bs) && k < |bs| && DirBlock(rec) && !Fresh(rec) && !Fresh(bs[k]) && OneRecord(rec)
    requires NoneBefore(bs, k, name) && !NoMatch(BlockEntries(bs[k]), name)
    requires BlockEntries(rec) == RemoveFirst(BlockEntries(bs[k]), name)
    ensures DirLayout(bs[k := rec]) && FullBlocks(bs[k := rec]) == FullBlocks(bs)
    ensures DirEntries(bs[k := rec]) == RemoveFirst(DirEntries(bs), name)
  {
    EditedLayout(bs, k, rec);
    assert EntryLists(bs)[k] == BlockEntries(bs[k]);
    DroppedFromLists(EntryLists(bs), k, name);
  }

  lemma OwnsItsOwn(p: Pointers)
    ensures forall j :: 0 <= j < DIRECT && p[j] != 0 ==> Owns(p, p[j])
  {
  }

  lemma DroppedBlocksOnDisk(d: Disk, p: Pointers, k: nat, rec: Block)
    requires InDisk(p) && k < Held(p, 0) && forall j :: 0 <= j < Held(p, 0) && j != k ==> p[j] != p[k]
    ensures Blocks(d[p[k] := rec], p) == Blocks(d, p)[k := rec]
  {
  }

  lemma EntryDropped(s1: Store, s2: Store, dir: nat, k: nat, rec: Block, name: Bytes)
    requires LaidOut(s1) && Allocated(s1.nextInode, dir) && IsDirInode(dir, InodeAt(s1.disk, dir))
    requires k < Held(InodeAt(s1.disk, dir).block, 0) && PointersOk(InodeAt(s1.disk, dir).block, s1.nextBlock)
    requires s2 == s1.(disk := s1.disk[InodeAt(s1.disk, dir).block[k] := rec])
    requires var bs := Blocks(s1.disk, InodeAt(s1.disk, dir).block);
             && DirBlock(rec) && !Fresh(rec) && !Fresh(bs[k]) && DirLayout(bs) && OneRecord(rec)
             && NoneBefore(bs, k, name) && !NoMatch(BlockEntries(bs[k]), name)
             && BlockEntries(rec) == RemoveFirst(BlockEntries(bs[k]), name)
    ensures LaidOut(s2) && Evolves(s1, s2)
    ensures dir in Abs(s1).nodes && Abs(s1).nodes[dir].body.Dir?
    ensures Abs(s2) == Abs(s1).(nodes := Abs(s1).nodes[dir := DropEntry(Abs(s1).nodes[dir], name)])
  {
    var p := InodeAt(s1.disk, dir).block;
    DroppedBlocks(Blocks(s1.disk, p), k, rec, name);
    assert NoSharing(dir, p, dir, p);
    DroppedBlocksOnDisk(s1.disk, p, k, rec);
    OwnBlockWritten(s1, s2, dir, k, rec);
    SamePointersMayBe(s1, s2, dir);
    UpdateNode(s1, s2, dir);
    UpdateEvolves(s1, s2, dir);
    AbsAt(s1, dir);
  }

  lemma OwnBlockWritten(s1: Store, s2: Store, dir: nat, k: nat, rec: Block)
    requires Counters(s1) && Allocated(s1.nextInode, dir)
    requires k < Held(InodeAt(s1.disk, dir).block, 0) && PointersOk(InodeAt(s1.disk, dir).block, s1.nextBlock)
    requires s2 == s1.(disk := s1.disk[InodeAt(s1.disk, dir).block[k] := rec])
    ensures InodeAt(s2.disk, dir) == InodeAt(s1.disk, dir) && Touches(s1, s2, dir)
  {
    var p := InodeAt(s1.disk, dir).block;
    DataBlockKeepsInodes(s1.disk, p[k], rec);
    var blk := p[k];
    assert Owns(p, blk);
    assert forall b :: 0 <= b < DISK_BLOCKS && b != blk ==> s2.disk[b] == s1.disk[b];
  }

  lemma SamePointersMayBe(s1: Store, s2: Store, n: nat)
    requires n >= 1 && Allocated(s1.nextInode, n)
    requires NoSharing(n, InodeAt(s1.disk, n).block, n, InodeAt(s1.disk, n).block)
    ensures PointersMayBe(s1, s2, n, InodeAt(s1.disk, n))
  {
    OwnsItsOwn(InodeAt(s1.disk, n).block);
  }

  lemma EmptyNameUnlinked(t: Tree, dir: nat)
    requires TreeOk(t) && IsDir(t, dir)
    ensures Lookup(t, dir, []) == NO_ENTRY && Unlink(t, dir, []) == t
  {
    var es := t.nodes[dir].body.entries;
    FirstMatchFound(es, []);
    assert NodeOk(t, dir, t.nodes[dir]);
    assert forall e :: e in es ==> EntryOk(t, dir, e);
  }

  // A search of directory blocks bs stopped in block i at the first match for name.
  ghost predicate FoundIn(bs: seq<Block>, i: nat, prev: int, off: nat, name: Bytes) {
    i < |bs| && NoneBefore(bs, i, name) && MatchAt(bs[i], prev, off, name)
  }

  lemma FoundFirst(bs: seq<Block>, i: nat, prev: int, off: nat, name: Bytes)
    requires FoundIn(bs, i, prev, off, name)
    ensures FirstMatch(DirEntries(bs), name) == RecIno(bs[i], off) != 0
    ensures !Fresh(bs[i]) && !NoMatch(BlockEntries(bs[i]), name)
  {
    MatchAtCursor(bs[i], off, name);
    ScannedBlock(bs, i, name);
  }

  // The record a search stopped at names the directory's first match, another allocated inode.
  lemma VictimFound(s: Store, dir: nat, bs: seq<Block>, i: nat, prev: int, off: nat, name: Bytes)
    requires Inv(s) && IsDir(Abs(s), dir) && bs == DirectoryBlocks(s, dir) && FoundIn(bs, i, prev, off, name)
    ensures off + HEADER <= BLOCK_SIZE && InodeAt(s.disk, dir).block[i] < DISK_BLOCKS && OneRecord(bs[i])
    ensures var v := RecIno(bs[i], off);
            && v == Lookup(Abs(s), dir, name) && dir < v <= MAX_INODE && Allocated(s.nextInode, v)
            && PointersOk(InodeAt(s.disk, v).block, s.nextBlock)
  {
    var v := RecIno(bs[i], off);
    FoundFirst(bs, i, prev, off, name);
    LookupOk(Abs(s), dir, name);
    assert LayoutOk(s.disk, s.nextBlock, v, InodeAt(s.disk, v));
  }

  lemma RecordDroppedFrom(bs: seq<Block>, i: nat, prev: int, off: nat, rec: Block, name: Bytes)
    requires FoundIn(bs, i, prev, off, name)
    requires prev + HEADER <= BLOCK_SIZE && RecordDropped(bs[i], rec, prev, off)
    ensures DirBlock(rec) && !Fresh(rec) && !Fresh(bs[i]) && !NoMatch(BlockEntries(bs[i]), name)
    ensures BlockEntries(rec) == RemoveFirst(BlockEntries(bs[i]), name)
    ensures OneRecord(bs[i]) ==> OneRecord(rec)
  {
    DropRecord(bs[i], rec, prev, off, name);
    FoundFirst(bs, i, prev, off, name);
    if OneRecord(bs[i]) {
      LoneRecordFirst(bs[i], prev, off, name);
    }
  }

  // In a block with one record the match is that record.
  lemma LoneRecordFirst(b: Block, prev: int, off: nat, name: Bytes)
    requires MatchAt(b, prev, off, name) && RecLen(b, 0) == BLOCK_SIZE
    ensures off == 0 && prev < 0
  {
    ChainBounds(b, 0, off);
    if prev >= 0 {
      ChainBounds(b, 0, prev);
    }
    if off > 0 {
      ChainBounds(b, RecLen(b, 0), off);
    }
  }

  // What the first write of ext2_unlink leaves: the victim emptied, the directory as it was.
  ghost predicate VictimGone(s1: Store, s2: Store, dir: nat, bs: seq<Block>, v: nat)
    requires LaidOut(s1) && 1 <= dir
  {
    && LaidOut(s2) && Evolves(s1, s2) && v in Abs(s1).nodes
    && s2.nextInode == s1.nextInode && s2.nextBlock == s1.nextBlock
    && Abs(s2) == Abs(s1).(nodes := Abs(s1).nodes[v := Emptied(Abs(s1).nodes[v])])
    && InodeAt(s2.disk, dir) == InodeAt(s1.disk, dir)
    && PointersOk(InodeAt(s2.disk, dir).block, s2.nextBlock) && bs == Blocks(s2.disk, InodeAt(s2.disk, dir).block)
  }

  lemma SameBlocks(d1: Disk, d2: Disk, p: Pointers, nb: nat)
    requires forall b :: FIRST_BLOCK <= b < DISK_BLOCKS ==> d2[b] == d1[b]
    requires PointersOk(p, nb)
    ensures Blocks(d1, p) == Blocks(d2, p)
  {
  }

  lemma VictimWritten(s1: Store, s2: Store, dir: nat, bs: seq<Block>, v: nat)
    requires Inv(s1) && IsDir(Abs(s1), dir) && bs == DirectoryBlocks(s1, dir)
    requires s2 == s1.(disk := s2.disk) && dir < v <= MAX_INODE && Allocated(s1.nextInode, v)
    requires EmptiedInode(InodeAt(s1.disk, v), InodeAt(s2.disk, v))
    requires InodeReplaced(s1.disk, s2.disk, v, InodeAt(s2.disk, v))
    ensures VictimGone(s1, s2, dir, bs, v) && InodeAt(s2.disk, dir) == InodeAt(s1.disk, dir)
  {
    SameBlocks(s1.disk, s2.disk, InodeAt(s1.disk, dir).block, s1.nextBlock);
    VictimEmptied(s1, s2, v);
    AbsAt(s1, v);
    hide LaidOut, TreeOk, Evolves, DirLayout, DirEntries, DirBlock, Blocks, Abs, PointersOk;
  }

  lemma NothingUnlinked(s: Store, dir: nat, bs: seq<Block>, name: Bytes)
    requires Inv(s) && IsDir(Abs(s), dir) && bs == DirectoryBlocks(s, dir)
    requires FirstMatch(DirEntries(bs), name) == NO_ENTRY
    ensures Lookup(Abs(s), dir, name) == NO_ENTRY && Unlink(Abs(s), dir, name) == Abs(s) && Evolves(s, s)
  {
  }

  // Both writes of ext2_unlink together.
  lemma Unlinked(s1: Store, s2: Store, s3: Store, dir: nat, bs: seq<Block>, i: nat, blk: nat, rec: Block, v: nat,
                 name: Bytes)
    requires 1 <= dir && i < DIRECT && i < |bs| && blk < DISK_BLOCKS && blk == InodeAt(s2.disk, dir).block[i]
    requires s3 == s2.(disk := s2.disk[blk := rec])
    requires DirBlock(rec) && !Fresh(rec) && DirBlock(bs[i]) && !Fresh(bs[i]) && !NoMatch(BlockEntries(bs[i]), name)
    requires OneRecord(rec)
    requires NoneBefore(bs, i, name) && BlockEntries(rec) == RemoveFirst(BlockEntries(bs[i]), name)
    requires Inv(s1) && IsDir(Abs(s1), dir) && bs == DirectoryBlocks(s1, dir)
    requires v == Lookup(Abs(s1), dir, name) && dir < v && VictimGone(s1, s2, dir, bs, v)
    ensures Inv(s3) && Abs(s3) == Unlink(Abs(s1), dir, name) && Evolves(s1, s3)
  {
    EntryDropped(s2, s3, dir, i, rec, name);
    EvolvesTrans(s1, s2, s3);
    UnlinkOk(Abs(s1), dir, name);
  }

  // ------------------------------------------------------------------ file contents

  // What the pointer at position k says about the file.
  lemma PointerAt(d: Disk, p: Pointers, nb: nat, k: nat)
    requires PointersOk(p, nb) && k < DIRECT
    ensures p[k] == 0 ==> Held(p, 0) <= k
    ensures p[k] != 0 ==> k < Held(p, 0) && p[k] < DISK_BLOCKS && d[p[k]] == Blocks(d, p)[k]
  {
  }

  // Block k of a file is the k-th kilobyte of its bytes.
  lemma {:induction false} BlockInFile(bs: seq<Block>, k: nat)
    requires k < |bs|
    ensures |FileBytes(bs)| == BLOCK_SIZE * |bs|
    ensures FileBytes(bs)[BLOCK_SIZE * k..BLOCK_SIZE * k + BLOCK_SIZE] == bs[k]
  {
    assert bs == bs[..k] + ([bs[k]] + bs[k + 1..]);
    FileBytesSplit(bs[..k], [bs[k]] + bs[k + 1..]);
    FileBytesSplit([bs[k]], bs[k + 1..]);
    FileBytesLength(bs);
    FileBytesLength(bs[..k]);
    assert FileBytes([bs[k]]) == bs[k] + FileBytes([bs[k]][1..]);
  }

  // A read of size bytes at offset has delivered done and continues at blockOff of block blockNum.
  ghost predicate ReadSoFar(flat: Bytes, done: Bytes, offset: nat, size: nat, blockNum: nat, blockOff: nat) {
    && |done| <= size && blockOff < BLOCK_SIZE && Slice(flat, offset, |done|) == done
    && (|done| == size || BLOCK_SIZE * blockNum + blockOff == offset + |done|)
    && (|done| == 0 || offset + |done| <= |flat|)
  }

  lemma ReadStarts(flat: Bytes, offset: nat, size: nat)
    ensures ReadSoFar(flat, [], offset, size, offset / BLOCK_SIZE, offset % BLOCK_SIZE)
  {
  }

  lemma ReadGoesOn(flat: Bytes, done: Bytes, offset: nat, size: nat, blockNum: nat, blockOff: nat, blk: Bytes, n: nat)
    requires ReadSoFar(flat, done, offset, size, blockNum, blockOff) && |done| < size && |blk| == BLOCK_SIZE
    requires BLOCK_SIZE * blockNum + BLOCK_SIZE <= |flat|
    requires flat[BLOCK_SIZE * blockNum..BLOCK_SIZE * blockNum + BLOCK_SIZE] == blk
    requires n == if BLOCK_SIZE - blockOff > size - |done| then size - |done| else BLOCK_SIZE - blockOff
    ensures ReadSoFar(flat, done + blk[blockOff..blockOff + n], offset, size, blockNum + 1, 0)
  {
    var part := flat[offset + |done|..offset + |done| + n];
    forall k | 0 <= k < n
      ensures part[k] == blk[blockOff..blockOff + n][k]
    {
      assert part[k] == flat[BLOCK_SIZE * blockNum..BLOCK_SIZE * blockNum + BLOCK_SIZE][blockOff + k];
    }
    assert Slice(flat, offset, |done| + n) == Slice(flat, offset, |done|) + part;
  }

  // A read that stops early stops at the end of the file.
  lemma ReadEnds(flat: Bytes, done: Bytes, offset: nat, size: nat, blockNum: nat, blockOff: nat)
    requires ReadSoFar(flat, done, offset, size, blockNum, blockOff)
    requires |done| == size || BLOCK_SIZE * blockNum >= |flat|
    ensures done == Slice(flat, offset, size)
  {
  }

  // Block k of the data a write stores, zero-padded.
  ghost function DataBlock(data: Bytes, k: nat): Block
    requires BLOCK_SIZE * k < |data|
  {
    var from := BLOCK_SIZE * k;
    if from + BLOCK_SIZE <= |data| then data[from..from + BLOCK_SIZE]
    else data[from..] + Zeros(BLOCK_SIZE - (|data| - from))
  }

  ghost function DataBlocks(data: Bytes, k: nat): seq<Block>
    requires k <= BlocksFor(|data|)
  {
    seq(k, i requires 0 <= i < k => DataBlock(data, i))
  }

  lemma DataBlocksTail(data: Bytes)
    requires |data| > BLOCK_SIZE
    ensures DataBlocks(data, BlocksFor(|data|)) ==
            [data[..BLOCK_SIZE]] + DataBlocks(data[BLOCK_SIZE..], BlocksFor(|data| - BLOCK_SIZE))
  {
    forall i | 0 <= i < BlocksFor(|data| - BLOCK_SIZE)
      ensures DataBlock(data[BLOCK_SIZE..], i) == DataBlock(data, i + 1)
    {
    }
  }

  lemma {:induction false} DataBlocksBytes(data: Bytes)
    ensures FileBytes(DataBlocks(data, BlocksFor(|data|))) == Padded(data)
    decreases |data|
  {
    var bs := DataBlocks(data, BlocksFor(|data|));
    if data == [] {
      assert bs == [];
    } else if |data| <= BLOCK_SIZE {
      assert bs == [DataBlock(data, 0)];
      assert FileBytes(bs) == bs[0] + FileBytes(bs[1..]);
    } else {
      var rest := data[BLOCK_SIZE..];
      DataBlocksTail(data);
      DataBlocksBytes(rest);
      assert bs[1..] == DataBlocks(rest, BlocksFor(|rest|));
      assert data == data[..BLOCK_SIZE] + rest;
    }
  }

  // What ext2_write_file leaves behind: w bytes of data in blocks newly taken from the counter.
  ghost predicate DataStored(s1: Store, s2: Store, data: Bytes) {
    && s2.nextInode == s1.nextInode && s2.nextBlock == s1.nextBlock + BlocksFor(|data|) && Counters(s2)
    && |data| <= MAX_FILE
    && (forall b :: 0 <= b < DISK_BLOCKS && !(s1.nextBlock <= b < s2.nextBlock) ==> s2.disk[b] == s1.disk[b])
    && (forall k :: 0 <= k < BlocksFor(|data|) ==> s2.disk[s1.nextBlock + k] == DataBlock(data, k))
  }

  ghost predicate DataPointers(p: Pointers, first: nat, count: nat)
    requires count <= DIRECT
  {
    (forall k :: 0 <= k < count ==> p[k] == first + k) && (forall k :: count <= k < 15 ==> p[k] == 0)
  }

  lemma DataTouches(s1: Store, s2: Store, data: Bytes, n: nat)
    requires DataStored(s1, s2, data) && Counters(s1) && n >= 1
    ensures Touches(s1, s2, n)
  {
    DataKeepsInodes(s1, s2, data);
  }

  lemma DataKeepsTree(s1: Store, s2: Store, data: Bytes)
    requires LaidOut(s1) && DataStored(s1, s2, data)
    ensures LaidOut(s2) && Abs(s2) == Abs(s1).(nextBlock := s2.nextBlock) && Evolves(s1, s2)
  {
    hide DataStored, LayoutOk, NodeOf, Touches, PointersMayBe, LaidOut, Evolves, Counters;
    RootKept(s1, s2, data);
    RootCounted(s1, s2, data);
    UpdateNode(s1, s2, ROOT);
    UpdateEvolves(s1, s2, ROOT);
    AbsAt(s1, ROOT);
  }

  lemma RootCounted(s1: Store, s2: Store, data: Bytes)
    requires LaidOut(s1) && DataStored(s1, s2, data)
    ensures Counters(s1) && Counters(s2) && s2.nextInode == s1.nextInode <= MAX_INODE + 1
    ensures Allocated(s1.nextInode, ROOT) && IsDirInode(ROOT, InodeAt(s1.disk, ROOT))
  {
    hide LayoutOk;
  }

  lemma RootKept(s1: Store, s2: Store, data: Bytes)
    requires LaidOut(s1) && DataStored(s1, s2, data)
    ensures InodeAt(s2.disk, ROOT) == InodeAt(s1.disk, ROOT) && Touches(s1, s2, ROOT)
    ensures PointersMayBe(s1, s2, ROOT, InodeAt(s1.disk, ROOT))
    ensures LayoutOk(s2.disk, s2.nextBlock, ROOT, InodeAt(s1.disk, ROOT))
    ensures NodeOf(s2.disk, s2.nextBlock, ROOT, InodeAt(s1.disk, ROOT)) == NodeAt(s1, ROOT)
  {
    var ino := InodeAt(s1.disk, ROOT);
    DataTouches(s1, s2, data, ROOT);
    DataKeepsInodes(s1, s2, data);
    assert Allocated(s1.nextInode, ROOT);
    assert NoSharing(ROOT, ino.block, ROOT, ino.block);
    SamePointersMayBe(s1, s2, ROOT);
    RootFrame(s1, s2, data);
  }

  lemma RootFrame(s1: Store, s2: Store, data: Bytes)
    requires DataStored(s1, s2, data) && LayoutOk(s1.disk, s1.nextBlock, ROOT, InodeAt(s1.disk, ROOT))
    ensures LayoutOk(s2.disk, s2.nextBlock, ROOT, InodeAt(s1.disk, ROOT))
    ensures NodeOf(s2.disk, s2.nextBlock, ROOT, InodeAt(s1.disk, ROOT)) ==
            NodeOf(s1.disk, s1.nextBlock, ROOT, InodeAt(s1.disk, ROOT))
  {
    NodeFrame(s1.disk, s2.disk, s1.nextBlock, s2.nextBlock, ROOT, InodeAt(s1.disk, ROOT));
  }

  lemma CountersOk(s: Store)
    requires Inv(s)
    ensures Counters(s) && Abs(s).nextBlock == s.nextBlock && Abs(s).nextInode == s.nextInode
  {
  }

  lemma DataBlocksPrefix(data: Bytes, w: nat)
    requires w <= |data| && (w == |data| || w % BLOCK_SIZE == 0)
    ensures forall k :: 0 <= k < BlocksFor(w) ==> DataBlock(data[..w], k) == DataBlock(data, k)
  {
    forall k | 0 <= k < BlocksFor(w)
      ensures DataBlock(data[..w], k) == DataBlock(data, k)
    {
      var from := BLOCK_SIZE * k;
      if w < |data| {
        assert from + BLOCK_SIZE <= w;
        assert data[..w][from..from + BLOCK_SIZE] == data[from..from + BLOCK_SIZE];
      } else {
        assert data[..w] == data;
      }
    }
  }

  lemma StoredOk(s1: Store, s2: Store, data: Bytes)
    requires Inv(s1) && DataStored(s1, s2, data)
    ensures Inv(s2) && Abs(s2) == Abs(s1).(nextBlock := s2.nextBlock) && Evolves(s1, s2)
  {
    DataKeepsTree(s1, s2, data);
    var t, u := Abs(s1), Abs(s2);
    forall n | n in u.nodes
      ensures NodeOk(u, n, u.nodes[n])
    {
      assert NodeOk(t, n, t.nodes[n]);
      if t.nodes[n].body.Dir? {
        assert forall e :: e in t.nodes[n].body.entries ==> EntryOk(t, n, e) && EntryOk(u, n, e);
      }
    }
  }

  lemma DataBlocksOnDisk(s1: Store, s2: Store, p: Pointers, data: Bytes)
    requires DataStored(s1, s2, data) && Counters(s1) && DataPointers(p, s1.nextBlock, BlocksFor(|data|))
    ensures PointersOk(p, s2.nextBlock) && NoSharing(0, p, 0, p)
    ensures Blocks(s2.disk, p) == DataBlocks(data, BlocksFor(|data|))
  {
    HeldIs(p, 0, BlocksFor(|data|));
  }

  lemma InstalledNode(s1: Store, s2: Store, s3: Store, n: nat, ino: Inode, data: Bytes)
    requires Counters(s1) && DataStored(s1, s2, data) && 1 <= n <= MAX_INODE
    requires !IsDirInode(n, ino) && DataPointers(ino.block, s1.nextBlock, BlocksFor(|data|))
    requires s3.nextInode == s2.nextInode && s3.nextBlock == s2.nextBlock && InodeReplaced(s2.disk, s3.disk, n, ino)
    ensures Touches(s1, s3, n) && PointersMayBe(s1, s3, n, ino)
    ensures LayoutOk(s3.disk, s3.nextBlock, n, ino)
    ensures NodeOf(s3.disk, s3.nextBlock, n, ino) == Node(ino.(block := NoPointers()), File(Padded(data)))
  {
    hide FileBytes, DataBlock, Padded, DirLayout;
    DataBlocksOnDisk(s1, s2, ino.block, data);
    assert Blocks(s3.disk, ino.block) == Blocks(s2.disk, ino.block);
    DataBlocksBytes(data);
    DataKeepsInodes(s1, s2, data);
  }

  // Storing the inode of the written file completes the write.
  lemma FileInstalled(s1: Store, s2: Store, s3: Store, n: nat, ino: Inode, data: Bytes)
    requires LaidOut(s1) && DataStored(s1, s2, data) && Allocated(s1.nextInode, n)
    requires !IsDirInode(n, ino) && DataPointers(ino.block, s1.nextBlock, BlocksFor(|data|))
    requires s3.nextInode == s2.nextInode && s3.nextBlock == s2.nextBlock && InodeReplaced(s2.disk, s3.disk, n, ino)
    ensures LaidOut(s3) && Evolves(s1, s3)
    ensures Abs(s3) == Tree(Abs(s1).nodes[n := Node(ino.(block := NoPointers()), File(Padded(data)))],
                            s1.nextInode, s3.nextBlock)
  {
    InstalledNode(s1, s2, s3, n, ino, data);
    UpdateNode(s1, s3, n);
    UpdateEvolves(s1, s3, n);
  }

  lemma DataKeepsInodes(s1: Store, s2: Store, data: Bytes)
    requires DataStored(s1, s2, data) && Counters(s1)
    ensures forall m :: 1 <= m <= MAX_INODE ==> InodeAt(s2.disk, m) == InodeAt(s1.disk, m)
  {
    forall m | 1 <= m <= MAX_INODE
      ensures InodeAt(s2.disk, m) == InodeAt(s1.disk, m)
    {
      SlotsApart(m, m);
    }
  }
}
