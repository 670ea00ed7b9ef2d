/** kernel/ext2.c on a formatted image: block and inode transfers, directories, file contents. */
module Ext2Store {
  import opened Bytes
  import opened InodeTable
  import opened DirentBlock
  import opened StoreModel
  import opened Layout
  import opened LayoutSteps

  // The inner loop of ext2_add_dirent: the first place where no record starts.
  method FreeRecord(buf: array<Byte>) returns (off: nat)
    requires buf.Length == BLOCK_SIZE && DirBlock(buf[..])
    ensures off == if Fresh(buf[..]) then 0 else BLOCK_SIZE
  {
    ghost var b: Block := buf[..];
    off := 0;
    while off < BLOCK_SIZE
      invariant off <= BLOCK_SIZE
      invariant if Fresh(b) then off == 0 else Chain(b, off, BLOCK_SIZE)
    {
      var recLen := ReadU16(buf[..], off + 4);
      if recLen == 0 || recLen < HEADER {
        return;
      }
      off := off + recLen;
    }
    if Fresh(b) {
      FreshIsNotTiled(b);
    }
  }

  // The stores of ext2_add_dirent into a block that had no record at its start.
  method PutRecord(buf: array<Byte>, off: nat, name: Bytes, child: U32, ftype: Byte)
    requires buf.Length == BLOCK_SIZE && off == 0 && ValidName(name) && child != 0
    modifies buf
    ensures JustEntry(buf[..], Entry(name, child, ftype))
    ensures LowFirst(buf[..4]) == child && LowFirst(buf[4..6]) == 1024 && buf[6] as int == |name| && buf[7] == ftype
    ensures buf[8..8 + |name| + 1] == name + ['\0']
  {
    StoreU32(buf, off, child);
    buf[off + 6] := |name| as char;
    buf[off + 7] := ftype;
    CopyInto(buf, off + HEADER, name + ['\0']);
    ghost var named := buf[..];
    assert ReadU32(named, off) == child && named[6] as int == |name| && named[7] == ftype;
    assert named[HEADER..HEADER + |name|] == name;
    StoreU16(buf, off + 4, BLOCK_SIZE - off);
    assert ReadU32(buf[..], off) == child;
    assert buf[HEADER..HEADER + |name|] == named[HEADER..HEADER + |name|];
    SingleRecord(buf[..]);
    FourBytes(buf[..4]);
    TwoBytes(buf[4..6]);
    assert buf[8..8 + |name| + 1] == named[8..8 + |name| + 1];
  }

  // memcmp of a record's name with the wanted one (kernel/string.c:114-122): it goes no further than the first difference.
  method NameEquals(buf: array<Byte>, at: nat, name: Bytes, ghost stop: nat) returns (equal: bool)
    requires stop <= |name| && at + stop <= buf.Length
    requires stop < |name| ==> at + stop < buf.Length && buf[at + stop] != name[stop]
    ensures equal <==> stop == |name| && buf[at..at + |name|] == name
  {
    var i := 0;
    while i < |name|
      invariant 0 <= i <= stop
      invariant buf[at..at + i] == name[..i]
    {
      if buf[at + i] != name[i] {
        assert stop == |name| ==> buf[at..at + |name|][i] != name[i];
        return false;
      }
      i := i + 1;
    }
    assert name[..i] == name;
    return true;
  }

  // Whether the record at off is a live one called name (kernel/ext2.c:268-269, 302-303).
  method RecordIs(buf: array<Byte>, off: nat, name: Bytes) returns (same: bool)
    requires buf.Length == BLOCK_SIZE && RecordAt(buf[..], off)
    requires |name| < 256 || ('\0' !in name && NameEnds(buf[..], off))
    ensures same <==> Matches(buf[..], off, name)
  {
    if ReadU32(buf[..], off) == 0 || buf[off + 6] as int != |name| % 256 {
      return false;
    }
    ghost var stop := if |name| < 256 then |name| else NameLen(buf[..], off);
    same := NameEquals(buf, off + HEADER, name, stop);
  }

  lemma WantedHere(b: Block, off: nat, name: Bytes)
    requires off < BLOCK_SIZE && !Fresh(b) && Scanned(b, off, name) && RecordAt(b, off) && Wanted(b, name)
    ensures |name| < 256 || ('\0' !in name && NameEnds(b, off))
  {
    if |name| >= 256 {
      ScanOfOne(b, off, name);
    }
  }

  lemma FreshHasNone(b: Block, off: nat)
    requires off + HEADER <= BLOCK_SIZE && RecIno(b, off) != 0
    ensures !Fresh(b) || off != 0
  {
    if Fresh(b) && off == 0 {
      FreshIsNotTiled(b);
    }
  }

  ghost predicate AllWanted(bs: seq<Block>, name: Bytes) { forall k :: 0 <= k < |bs| ==> Wanted(bs[k], name) }

  // A directory is searched for any C string, and for any string shorter than 256.
  lemma DirectoryWanted(bs: seq<Block>, name: Bytes)
    requires DirLayout(bs) && (|name| < 256 || '\0' !in name)
    ensures AllWanted(bs, name)
  {
  }

  // The inner loop of ext2_find_inode.
  method FindInBlock(buf: array<Byte>, name: Bytes) returns (ino: int)
    requires buf.Length == BLOCK_SIZE && DirBlock(buf[..]) && Wanted(buf[..], name)
    ensures ino == FirstMatch(BlockEntries(buf[..]), name)
  {
    ghost var b: Block := buf[..];
    var off := 0;
    while off < BLOCK_SIZE
      invariant off <= BLOCK_SIZE
      invariant if Fresh(b) then off == 0 else Scanned(b, off, name)
    {
      var live := ReadU32(buf[..], off) != 0;
      if live {
        ScanStep(b, off, name);
        FreshHasNone(b, off);
        WantedHere(b, off, name);
        var same := RecordIs(buf, off, name);
        if same {
          MatchAtCursor(b, off, name);
          return ReadU32(buf[..], off);
        }
      }
      var recLen := ReadU16(buf[..], off + 4);
      if recLen == 0 {
        return NO_ENTRY;
      }
      ScanStep(b, off, name);
      off := off + recLen;
    }
    ScanEnd(b, name);
    ino := NO_ENTRY;
  }

  // The inner loop of ext2_unlink: the matching record and the one before it, -1 standing for none.
  method FindRecord(buf: array<Byte>, name: Bytes) returns (found: bool, prev: int, off: nat)
    requires buf.Length == BLOCK_SIZE && DirBlock(buf[..]) && Wanted(buf[..], name)
    ensures found <==> !NoMatch(BlockEntries(buf[..]), name)
    ensures found ==> MatchAt(buf[..], prev, off, name)
  {
    ghost var b: Block := buf[..];
    off, prev, found := 0, -1, false;
    while off < BLOCK_SIZE
      invariant off <= BLOCK_SIZE
      invariant if Fresh(b) then off == 0 else Scanned(b, off, name) && Precedes(b, prev, off)
    {
      var recLen := ReadU16(buf[..], off + 4);
      if recLen == 0 {
        return;
      }
      ScanStep(b, off, name);
      WantedHere(b, off, name);
      found := RecordIs(buf, off, name);
      if found {
        MatchAtCursor(b, off, name);
        return;
      }
      prev := off;
      off := off + recLen;
    }
    ScanEnd(b, name);
  }

  // The edit that takes the matched record out of its block (kernel/ext2.c:321-325).
  method DropRecordIn(buf: array<Byte>, prev: int, off: nat, ghost name: Bytes)
    requires buf.Length == BLOCK_SIZE && MatchAt(buf[..], prev, off, name)
    modifies buf
    ensures prev + HEADER <= BLOCK_SIZE && RecordDropped(old(buf[..]), buf[..], prev, off)
  {
    if prev >= 0 {
      StoreU16(buf, prev + 4, ReadU16(buf[..], prev + 4) + ReadU16(buf[..], off + 4));
    } else {
      StoreU32(buf, off, 0);
    }
  }

  // The padded block that ext2_write_file stores next (kernel/ext2.c:243-246).
  method CutBlock(data: Bytes, b: nat, written: nat) returns (temp: array<Byte>, todo: nat)
    requires written == BLOCK_SIZE * b < |data|
    ensures temp.Length == BLOCK_SIZE && temp[..] == DataBlock(data, b)
    ensures todo == if |data| - written < BLOCK_SIZE then |data| - written else BLOCK_SIZE
  {
    temp := new Byte[BLOCK_SIZE](i => '\0');
    todo := BLOCK_SIZE;
    if todo > |data| - written {
      todo := |data| - written;
    }
    CopyInto(temp, 0, data[written..written + todo]);
  }

  lemma BufferGrown(was: Bytes, got: nat, piece: Bytes, now: Bytes, start: Bytes)
    requires got + |piece| <= |was| == |start| && now == was[..got] + piece + was[got + |piece|..] && was[got..] == start[got..]
    ensures now[..got + |piece|] == was[..got] + piece && now[got + |piece|..] == start[got + |piece|..]
  {
    assert was[got..][|piece|..] == was[got + |piece|..] && start[got..][|piece|..] == start[got + |piece|..];
  }

  class Ext2 {
    var disk: Disk
    var nextInode: nat
    var nextBlock: nat

    ghost function St(): Store
      reads this
    {
      Store(disk, nextInode, nextBlock)
    }

    ghost predicate Valid()
      reads this
    {
      Inv(St())
    }

    ghost function T(): Tree
      reads this
      requires Valid()
    {
      Abs(St())
    }

    // ext2_read_block: a transfer past the end of the image fails and leaves the buffer alone.
    method ReadBlock(num: nat, buf: array<Byte>) returns (got: int)
      requires buf.Length == BLOCK_SIZE
      modifies buf
      ensures num < DISK_BLOCKS ==> got == BLOCK_SIZE && buf[..] == disk[num]
      ensures num >= DISK_BLOCKS ==> got == -1 && buf[..] == old(buf[..])
    {
      if num >= DISK_BLOCKS {
        return -1;
      }
      CopyInto(buf, 0, disk[num]);
      return BLOCK_SIZE;
    }

    method WriteBlock(num: nat, buf: array<Byte>) returns (put: int)
      requires buf.Length == BLOCK_SIZE
      modifies this`disk
      ensures num < DISK_BLOCKS ==> put == BLOCK_SIZE && disk == old(disk)[num := buf[..]]
      ensures num >= DISK_BLOCKS ==> put == -1 && disk == old(disk)
    {
      if num >= DISK_BLOCKS {
        return -1;
      }
      disk := disk[num := buf[..]];
      return BLOCK_SIZE;
    }

    method ReadInode(n: nat) returns (rc: int, ino: Inode)
      ensures n == 0 ==> rc == -1
      ensures n >= 1 ==> rc == 0 && ino == InodeAt(disk, n)
    {
      if n < 1 {
        return -1, ZeroInode();
      }
      var buf := new Byte[BLOCK_SIZE];
      var got := ReadBlock(InodeBlock(n), buf);
      if got != BLOCK_SIZE {
        return -1, ZeroInode();
      }
      ino := DecodeInode(buf[..], InodeOffset(n));
      rc := 0;
    }

    method WriteInode(n: nat, ino: Inode) returns (put: int)
      requires n <= MAX_INODE
      modifies this`disk
      ensures n == 0 ==> put == -1 && disk == old(disk)
      ensures n >= 1 ==> put == BLOCK_SIZE && InodeReplaced(old(disk), disk, n, ino)
    {
      if n < 1 {
        return -1;
      }
      var buf := new Byte[BLOCK_SIZE];
      var got := ReadBlock(InodeBlock(n), buf);
      CopyInto(buf, InodeOffset(n), EncodeInode(ino));
      put := WriteBlock(InodeBlock(n), buf);
      StoringInode(old(disk), disk, n, ino);
    }

    method AllocBlock() returns (b: nat)
      modifies this`nextBlock
      ensures b == old(nextBlock) && nextBlock == b + 1
    {
      b := nextBlock;
      nextBlock := nextBlock + 1;
    }

    method AllocInode() returns (n: nat)
      modifies this`nextInode
      ensures n == old(nextInode) && nextInode == n + 1
    {
      n := nextInode;
      nextInode := nextInode + 1;
    }

    // The image as ext2_format leaves it: all zero except the block that holds the superblock.
    constructor Formatted(superblock: Block)
      ensures Valid() && nextInode == FIRST_INODE && nextBlock == FIRST_BLOCK && T() == EmptyTree()
    {
      disk := seq<Block>(DISK_BLOCKS, i => ZeroBlock())[1 := superblock];
      nextInode, nextBlock := FIRST_INODE, FIRST_BLOCK;
      new;
      FormattedOk(St());
    }

    // Block i of a directory, taken from the counter and zeroed when there is none yet (kernel/ext2.c:146-156).
    method TakeBlock(dir: Inode, i: nat, buf: array<Byte>) returns (blk: nat, dir2: Inode)
      requires i < DIRECT && dir.block[i] < DISK_BLOCKS && nextBlock < DISK_BLOCKS && dir.size <= MAX_FILE
      requires buf.Length == BLOCK_SIZE
      modifies this`disk, this`nextBlock, buf
      ensures dir.block[i] != 0 ==>
                blk == dir.block[i] && dir2 == dir && buf[..] == disk[blk] && disk == old(disk) && nextBlock == old(nextBlock)
      ensures dir.block[i] == 0 ==>
                && blk == old(nextBlock) && nextBlock == blk + 1 && buf[..] == ZeroBlock()
                && disk == old(disk)[blk := ZeroBlock()]
                && dir2 == dir.(block := dir.block[i := blk], size := dir.size + BLOCK_SIZE)
    {
      blk, dir2 := dir.block[i], dir;
      if blk == 0 {
        blk := AllocBlock();
        dir2 := dir2.(block := dir2.block[i := blk], size := dir2.size + BLOCK_SIZE);
        Clear(buf);
        var put := WriteBlock(blk, buf);
      } else {
        var got := ReadBlock(blk, buf);
      }
    }

    // The two writes that end ext2_add_dirent (kernel/ext2.c:167-168).
    method CommitEntry(dirNo: nat, dir: Inode, blk: nat, buf: array<Byte>)
      requires 1 <= dirNo <= MAX_INODE && blk < DISK_BLOCKS && buf.Length == BLOCK_SIZE
      modifies this`disk
      ensures InodeReplaced(old(disk)[blk := buf[..]], disk, dirNo, dir)
    {
      var put := WriteBlock(blk, buf);
      put := WriteInode(dirNo, dir);
    }

    // The block loop of ext2_add_dirent: the entry goes into the first block without records.
    method PlaceEntry(dirNo: nat, dir0: Inode, name: Bytes, child: U32, ftype: Byte, ghost bs: seq<Block>)
      returns (rc: int, ghost rec: Block, ghost ino2: Inode)
      requires 1 <= dirNo <= MAX_INODE && dir0 == InodeAt(disk, dirNo) && Counters(St()) && nextBlock < DISK_BLOCKS
      requires PointersOk(dir0.block, nextBlock) && bs == Blocks(disk, dir0.block) && DirLayout(bs)
      requires dir0.size <= MAX_FILE && ValidName(name) && child != 0
      modifies this`disk, this`nextBlock
      ensures FullBlocks(bs) == DIRECT ==> rc == -1 && St() == old(St())
      ensures FullBlocks(bs) < DIRECT ==>
                && rc == 0 && JustEntry(rec, Entry(name, child, ftype))
                && AttrAfterAdd(dir0, FullBlocks(bs), ino2)
                && EntryStored(old(St()), St(), dirNo, FullBlocks(bs), ino2.block[FullBlocks(bs)], rec, ino2)
    {
      hide EntryStored, AttrAfterAdd, JustEntry, DirLayout, Tiled, InodeReplaced, Blocks, Held, ValidName, NoPointers;
      var dir := dir0;
      rec, ino2 := ZeroBlock(), dir;
      var buf := new Byte[BLOCK_SIZE];
      var i := 0;
      while i < DIRECT
        invariant 0 <= i <= FullBlocks(bs) && St() == old(St()) && dir == dir0
      {
        BlockKind(disk, dir.block, bs, i);
        var blk;
        blk, dir := TakeBlock(dir, i, buf);
        var off := FreeRecord(buf);
        if off < BLOCK_SIZE {
          PutRecord(buf, off, name, child, ftype);
          rec, ino2 := buf[..], dir;
          CommitEntry(dirNo, dir, dir.block[i], buf);
          EntryStoredNow(old(St()), St(), dirNo, i, dir0, rec, ino2);
          return 0, rec, ino2;
        }
        i := i + 1;
      }
      rc := -1;
    }

    // ext2_add_dirent (kernel/ext2.c:137-175).
    method AddDirent(dirNo: nat, name: Bytes, child: U32, ftype: Byte) returns (rc: int)
      requires Valid() && IsDir(T(), dirNo) && EntryOk(T(), dirNo, Entry(name, child, ftype))
      requires nextBlock < DISK_BLOCKS
      modifies this`disk, this`nextBlock
      ensures Valid() && T() == AddEntry(old(T()), dirNo, Entry(name, child, ftype))
      ensures rc == if old(HasRoom(T(), dirNo)) then 0 else -1
      ensures Evolves(old(St()), St())
    {
      ghost var bs := DirectoryBlocks(St(), dirNo);
      AddEntryOk(T(), dirNo, Entry(name, child, ftype));
      var rcRead, dir := ReadInode(dirNo);
      if rcRead != 0 {
        return -1;
      }
      ghost var rec, ino2;
      rc, rec, ino2 := PlaceEntry(dirNo, dir, name, child, ftype, bs);
      if rc == 0 {
        ghost var i := FullBlocks(bs);
        EntryAdded(old(St()), St(), dirNo, Entry(name, child, ftype), i, ino2.block[i], rec, ino2);
      }
    }

    // The inode and block a new directory starts with (kernel/ext2.c:178-189).
    method StoreNewDir() returns (inodeNum: nat)
      requires Valid() && nextInode <= MAX_INODE && nextBlock < DISK_BLOCKS
      modifies this`disk, this`nextBlock, this`nextInode
      ensures Valid() && T() == WithNewDir(old(T())) && inodeNum == old(nextInode)
      ensures Evolves(old(St()), St())
    {
      inodeNum := AllocInode();
      var blockNum := AllocBlock();
      var dir := ZeroInode().(mode := DIR_MODE, links := 2, size := BLOCK_SIZE, block := NoPointers()[0 := blockNum]);
      var put := WriteInode(inodeNum, dir);
      DirCreated(old(St()), St());
      NewDirOk(old(T()));
    }

    // ext2_mkdir (kernel/ext2.c:177-192): the outcome of adding the name is ignored.
    method MakeDir(parent: nat, name: Bytes) returns (n: int)
      requires Valid() && Mutable(T(), parent) && ValidName(name)
      modifies this`disk, this`nextBlock, this`nextInode
      ensures Valid() && T() == Mkdir(old(T()), parent, name) && n == old(nextInode)
      ensures Evolves(old(St()), St())
    {
      var inodeNum := StoreNewDir();
      ghost var mid := St();
      var rc := AddDirent(parent, name, inodeNum, TYPE_DIR);
      EvolvesTrans(old(St()), mid, St());
      n := inodeNum;
    }

    // The inode a new file starts with (kernel/ext2.c:195-201).
    method StoreNewFile(mode: U16) returns (inodeNum: nat)
      requires Valid() && nextInode <= MAX_INODE && !HasDirBit(mode)
      modifies this`disk, this`nextInode
      ensures Valid() && T() == NewNode(old(T()), FreshFile(mode)) && inodeNum == old(nextInode)
      ensures Evolves(old(St()), St())
    {
      inodeNum := AllocInode();
      var file := ZeroInode().(mode := mode, links := 1);
      var put := WriteInode(inodeNum, file);
      FileCreated(old(St()), St(), mode);
      NewNodeOk(old(T()), FreshFile(mode));
    }

    // ext2_create_file (kernel/ext2.c:194-204): likewise.
    method CreateFile(parent: nat, name: Bytes, mode: U16) returns (n: int)
      requires Valid() && Mutable(T(), parent) && ValidName(name) && !HasDirBit(mode)
      modifies this`disk, this`nextBlock, this`nextInode
      ensures Valid() && T() == Create(old(T()), parent, name, mode) && n == old(nextInode)
      ensures Evolves(old(St()), St())
    {
      var inodeNum := StoreNewFile(mode);
      ghost var mid := St();
      var rc := AddDirent(parent, name, inodeNum, TYPE_FILE);
      EvolvesTrans(old(St()), mid, St());
      n := inodeNum;
    }

    // The block loop of ext2_find_inode.
    method FindInBlocks(dir: Inode, name: Bytes, ghost bs: seq<Block>) returns (n: int)
      requires InDisk(dir.block) && bs == Blocks(disk, dir.block) && AllDirBlocks(bs) && AllWanted(bs, name)
      ensures n == FirstMatch(DirEntries(bs), name)
    {
      hide DirBlock, BlockEntries, DirEntries, FirstMatch, NoMatch, NoneBefore;
      var buf := new Byte[BLOCK_SIZE];
      var i := 0;
      NothingScanned(bs, name);
      while i < DIRECT && dir.block[i] != 0
        invariant 0 <= i <= |bs| && NoneBefore(bs, i, name)
      {
        var got := ReadBlock(dir.block[i], buf);
        assert buf[..] == bs[i];
        ScannedBlock(bs, i, name);
        n := FindInBlock(buf, name);
        if n != NO_ENTRY {
          return n;
        }
        i := i + 1;
      }
      AllScanned(bs, name);
      n := NO_ENTRY;
    }

    // ext2_find_inode (kernel/ext2.c:255-278).
    method FindInode(dirNo: nat, name: Bytes) returns (n: int)
      requires Valid() && IsDir(T(), dirNo) && (|name| < 256 || '\0' !in name)
      ensures n == Lookup(T(), dirNo, name)
    {
      ghost var bs := DirectoryBlocks(St(), dirNo);
      DirectoryWanted(bs, name);
      var rcRead, dir := ReadInode(dirNo);
      if rcRead != 0 {
        return NO_ENTRY;
      }
      n := FindInBlocks(dir, name, bs);
    }

    // The search loops of ext2_unlink; the block of the match is left in buf.
    method FindLink(dir: Inode, name: Bytes, buf: array<Byte>, ghost bs: seq<Block>)
      returns (found: bool, i: nat, prev: int, off: nat)
      requires PointersOk(dir.block, nextBlock) && bs == Blocks(disk, dir.block) && AllDirBlocks(bs) && AllWanted(bs, name)
      requires buf.Length == BLOCK_SIZE
      modifies buf
      ensures !found ==> FirstMatch(DirEntries(bs), name) == NO_ENTRY
      ensures found ==> FoundIn(bs, i, prev, off, name) && buf[..] == bs[i]
    {
      hide DirBlock, BlockEntries, DirEntries, FirstMatch, NoMatch, NoneBefore, MatchAt;
      found, i, prev, off := false, 0, -1, 0;
      NothingScanned(bs, name);
      while i < DIRECT
        invariant 0 <= i <= DIRECT
        invariant NoneBefore(bs, if i < |bs| then i else |bs|, name)
      {
        var blk := dir.block[i];
        if blk != 0 {
          var got := ReadBlock(blk, buf);
          if got > 0 {
            assert buf[..] == bs[i];
            ScannedBlock(bs, i, name);
            found, prev, off := FindRecord(buf, name);
            if found {
              return;
            }
            FirstMatchFound(BlockEntries(bs[i]), name);
          }
        }
        i := i + 1;
      }
      AllScanned(bs, name);
    }

    // Unlinking empties the victim's inode whatever it was (kernel/ext2.c:306-319).
    method EmptyVictim(victim: nat)
      requires 1 <= victim <= MAX_INODE && PointersOk(InodeAt(disk, victim).block, nextBlock)
      modifies this`disk
      ensures InodeReplaced(old(disk), disk, victim, InodeAt(disk, victim))
      ensures EmptiedInode(old(InodeAt(disk, victim)), InodeAt(disk, victim))
    {
      var rcRead, ino := ReadInode(victim);
      ghost var ino0 := ino;
      if rcRead == 0 {
        var b := 0;
        while b < DIRECT
          invariant 0 <= b <= DIRECT && ino == ino0.(block := ino.block)
          invariant forall k :: 0 <= k < 15 ==> ino.block[k] == if k < b then 0 else ino0.block[k]
        {
          if ino.block[b] != 0 {
            ino := ino.(block := ino.block[b := 0]);
          }
          b := b + 1;
        }
        assert ino.block == NoPointers();
        ino := ino.(links := 0, size := 0);
        var put := WriteInode(victim, ino);
      }
    }

    // ext2_unlink (kernel/ext2.c:280-335).
    method UnlinkName(dirNo: nat, name: Bytes) returns (rc: int)
      requires Valid() && IsDir(T(), dirNo) && (|name| < 256 || '\0' !in name)
      modifies this`disk
      ensures Valid() && T() == Unlink(old(T()), dirNo, name)
      ensures rc == if old(Lookup(T(), dirNo, name)) != NO_ENTRY then 0 else -1
      ensures Evolves(old(St()), St())
    {
      hide LaidOut, TreeOk, Abs, Unlink, Lookup, Evolves, PointersOk, DirLayout, Blocks, DirEntries, FirstMatch, NoMatch;
      hide NoneBefore, MatchAt, RecordDropped, DirBlock, BlockEntries, Fresh, VictimGone, InodeReplaced, OneRecord;
      ghost var bs := DirectoryBlocks(St(), dirNo);
      if name == [] {
        EmptyNameUnlinked(T(), dirNo);
        EvolvesRefl(St());
        return -1;
      }
      var rcRead, dir := ReadInode(dirNo);
      if rcRead != 0 {
        return -1;
      }
      var buf := new Byte[BLOCK_SIZE];
      DirectoryWanted(bs, name);
      var found, i, prev, off := FindLink(dir, name, buf, bs);
      if !found {
        NothingUnlinked(St(), dirNo, bs, name);
        return -1;
      }
      VictimFound(St(), dirNo, bs, i, prev, off, name);
      var victim := ReadU32(buf[..], off);
      EmptyVictim(victim);
      ghost var mid := St();
      VictimWritten(old(St()), mid, dirNo, bs, victim);
      DropRecordIn(buf, prev, off, name);
      RecordDroppedFrom(bs, i, prev, off, buf[..], name);
      var put := WriteBlock(dir.block[i], buf);
      Unlinked(old(St()), mid, St(), dirNo, bs, i, dir.block[i], buf[..], victim, name);
      rc := 0;
    }

    // ext2_read_file (kernel/ext2.c:206-225) on an inode copy; the recorded size plays no part.
    method ReadFile(ino: Inode, offset: nat, size: nat, buffer: array<Byte>) returns (got: nat)
      requires PointersOk(ino.block, nextBlock) && size <= buffer.Length
      modifies buffer
      ensures var wanted := Slice(FileBytes(Blocks(disk, ino.block)), offset, size);
              got == |wanted| && buffer[..got] == wanted
      ensures buffer[got..] == old(buffer[got..])
    {
      hide FileBytes, Slice, Blocks, ReadSoFar;
      ghost var bs := Blocks(disk, ino.block);
      ghost var flat := FileBytes(bs);
      FileBytesLength(bs);
      ReadStarts(flat, offset, size);
      got := 0;
      var blockNum: nat, blockOff: nat := offset / BLOCK_SIZE, offset % BLOCK_SIZE;
      var blk := new Byte[BLOCK_SIZE];
      ghost var start := buffer[..];
      assert buffer[..0] == [];
      while got < size && blockNum < DIRECT && ino.block[blockNum] != 0
        invariant got <= size && blockOff < BLOCK_SIZE
        invariant ReadSoFar(flat, buffer[..got], offset, size, blockNum, blockOff)
        invariant buffer[got..] == start[got..]
        decreases size - got
      {
        PointerAt(disk, ino.block, nextBlock, blockNum);
        var n := ReadBlock(ino.block[blockNum], blk);
        BlockInFile(bs, blockNum);
        var toCopy := BLOCK_SIZE - blockOff;
        if toCopy > size - got {
          toCopy := size - got;
        }
        ghost var was, done := buffer[..], buffer[..got];
        ReadGoesOn(flat, done, offset, size, blockNum, blockOff, blk[..], toCopy);
        CopyInto(buffer, got, blk[blockOff..blockOff + toCopy]);
        BufferGrown(was, got, blk[blockOff..blockOff + toCopy], buffer[..], start);
        got := got + toCopy;
        blockNum := blockNum + 1;
        blockOff := 0;
      }
      if blockNum < DIRECT {
        PointerAt(disk, ino.block, nextBlock, blockNum);
      }
      ReadEnds(flat, buffer[..got], offset, size, blockNum, blockOff);
    }

    // The block loop of ext2_write_file (kernel/ext2.c:237-249).
    method StoreData(p0: Pointers, data: Bytes) returns (written: nat, b: nat, p: Pointers)
      requires p0 == NoPointers() && Counters(St()) && nextBlock + DIRECT <= DISK_BLOCKS
      modifies this`disk, this`nextBlock
      ensures written == Stored(|data|) && b == BlocksFor(written)
      ensures DataStored(old(St()), St(), data[..written]) && DataPointers(p, old(nextBlock), b)
    {
      hide DataBlock;
      written, b, p := 0, 0, p0;
      while written < |data| && b < DIRECT
        invariant b <= DIRECT && written == (if BLOCK_SIZE * b <= |data| then BLOCK_SIZE * b else |data|)
        invariant |data| > BLOCK_SIZE * b - BLOCK_SIZE
        invariant nextBlock == old(nextBlock) + b && nextInode == old(nextInode)
        invariant DataPointers(p, old(nextBlock), b)
        invariant forall n :: 0 <= n < DISK_BLOCKS && !(old(nextBlock) <= n < nextBlock) ==> disk[n] == old(disk)[n]
        invariant forall k :: 0 <= k < b ==> disk[old(nextBlock) + k] == DataBlock(data, k)
      {
        var blk := AllocBlock();
        p := p[b := blk];
        var temp, todo := CutBlock(data, b, written);
        var put := WriteBlock(blk, temp);
        written := written + todo;
        b := b + 1;
      }
      DataBlocksPrefix(data, written);
    }

    // ext2_write_file (kernel/ext2.c:227-253): new blocks for all of the data, or as much as twelve blocks take.
    method WriteFile(ino0: Inode, offset: nat, data: Bytes) returns (written: int, ino: Inode)
      requires Valid() && nextBlock + DIRECT <= DISK_BLOCKS && forall k :: DIRECT <= k < 15 ==> ino0.block[k] == 0
      modifies this`disk, this`nextBlock
      ensures offset != 0 ==> written == -1 && ino == ino0 && St() == old(St())
      ensures offset == 0 ==>
                && written == Stored(|data|) && DataStored(old(St()), St(), data[..written])
                && DataPointers(ino.block, old(nextBlock), BlocksFor(written))
                && ino == ino0.(block := ino.block, size := written, sectors := 2 * BlocksFor(written))
      ensures Valid() && T() == old(T()).(nextBlock := nextBlock) && Evolves(old(St()), St())
    {
      hide LaidOut, TreeOk, Abs, Evolves, DataStored, DataPointers;
      ino := ino0;
      CountersOk(St());
      if offset != 0 {
        EvolvesRefl(St());
        return -1, ino;
      }
      var i := 0;
      while i < DIRECT
        invariant 0 <= i <= DIRECT && ino == ino0.(block := ino.block)
        invariant forall k :: 0 <= k < 15 ==> ino.block[k] == if k < i then 0 else ino0.block[k]
      {
        if ino.block[i] != 0 {
          ino := ino.(block := ino.block[i := 0]);
        }
        i := i + 1;
      }
      assert ino.block == NoPointers();
      var w, b, p := StoreData(ino.block, data);
      StoredOk(old(St()), St(), data[..w]);
      written := w;
      ino := ino.(block := p, size := w, sectors := b * (BLOCK_SIZE / 512));
    }
  }
}
