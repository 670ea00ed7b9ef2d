/** The on-disk inode: its 88 stored bytes and its place in the inode table (kernel/ext2.c:105-135). */
module InodeTable {
  import opened Bytes

  const BLOCK_SIZE := 1024
  const DISK_BLOCKS := 65536
  const INODE_SIZE := 128
  const INODES_PER_GROUP := 2048
  const INODE_BYTES := 88
  const DIRECT := 12
  const ROOT := 2

  // The last inode number whose slot lies below the first data block.
  const MAX_INODE := 80
  const FIRST_BLOCK := 10
  const FIRST_INODE := 11

  type Block = b: Bytes | |b| == BLOCK_SIZE witness seq(BLOCK_SIZE, i => '\0')
  type Pointers = p: seq<U32> | |p| == 15 witness seq(15, i => 0)

  datatype Inode = Inode(mode: U16, uid: U16, size: U32, atime: U32, ctime: U32, mtime: U32,
                         gid: U16, links: U16, sectors: U32, block: Pointers)

  function NoPointers(): Pointers { seq(15, i => 0) }

  function ZeroInode(): Inode { Inode(0, 0, 0, 0, 0, 0, 0, 0, 0, NoPointers()) }

  function ZeroBlock(): Block { Zeros(BLOCK_SIZE) }

  // Byte i of the stored inode.
  function InodeByte(ino: Inode, i: nat): Byte
    requires i < INODE_BYTES
  {
    if i < 2 then Digit(ino.mode, i)
    else if i < 4 then Digit(ino.uid, i - 2)
    else if i < 8 then Digit(ino.size, i - 4)
    else if i < 12 then Digit(ino.atime, i - 8)
    else if i < 16 then Digit(ino.ctime, i - 12)
    else if i < 20 then Digit(ino.mtime, i - 16)
    else if i < 22 then Digit(ino.gid, i - 20)
    else if i < 24 then Digit(ino.links, i - 22)
    else if i < 28 then Digit(ino.sectors, i - 24)
    else Digit(ino.block[(i - 28) / 4], (i - 28) % 4)
  }

  function EncodeInode(ino: Inode): (b: Bytes)
    ensures |b| == INODE_BYTES
  {
    seq(INODE_BYTES, i requires 0 <= i < INODE_BYTES => InodeByte(ino, i))
  }

  function DecodeInode(b: Bytes, off: nat): Inode
    requires off + INODE_BYTES <= |b|
  {
    Inode(ReadU16(b, off), ReadU16(b, off + 2), ReadU32(b, off + 4), ReadU32(b, off + 8), ReadU32(b, off + 12),
          ReadU32(b, off + 16), ReadU16(b, off + 20), ReadU16(b, off + 22), ReadU32(b, off + 24),
          seq(15, i requires 0 <= i < 15 => ReadU32(b, off + 28 + 4 * i)))
  }

  ghost predicate StoresInode(b: Bytes, off: nat, ino: Inode)
    requires off + INODE_BYTES <= |b|
  {
    forall j :: off <= j < off + INODE_BYTES ==> b[j] == InodeByte(ino, j - off)
  }

  lemma PointerRoundTrip(b: Bytes, off: nat, ino: Inode, k: nat)
    requires off + INODE_BYTES <= |b| && StoresInode(b, off, ino) && k < 15
    ensures ReadU32(b, off + 28 + 4 * k) == ino.block[k]
  {
    forall d | 0 <= d < 4
      ensures b[off + 28 + 4 * k + d] == Digit(ino.block[k], d)
    {
      assert (4 * k + d) / 4 == k && (4 * k + d) % 4 == d;
    }
    U32RoundTrip(b, off + 28 + 4 * k, ino.block[k]);
  }

  lemma ScalarsRoundTrip(b: Bytes, off: nat, ino: Inode)
    requires off + INODE_BYTES <= |b| && StoresInode(b, off, ino)
    ensures DecodeInode(b, off).(block := ino.block) == ino
  {
    U16RoundTrip(b, off, ino.mode);
    U16RoundTrip(b, off + 2, ino.uid);
    U32RoundTrip(b, off + 4, ino.size);
    U32RoundTrip(b, off + 8, ino.atime);
    U32RoundTrip(b, off + 12, ino.ctime);
    U32RoundTrip(b, off + 16, ino.mtime);
    U16RoundTrip(b, off + 20, ino.gid);
    U16RoundTrip(b, off + 22, ino.links);
    U32RoundTrip(b, off + 24, ino.sectors);
  }

  // Reading a slot back after storing an inode in it gives that inode.
  lemma InodeRoundTrip(b: Bytes, off: nat, ino: Inode)
    requires off + INODE_BYTES <= |b| && StoresInode(b, off, ino)
    ensures DecodeInode(b, off) == ino
  {
    ScalarsRoundTrip(b, off, ino);
    forall k | 0 <= k < 15
      ensures DecodeInode(b, off).block[k] == ino.block[k]
    {
      PointerRoundTrip(b, off, ino, k);
    }
    assert DecodeInode(b, off).block == ino.block;
  }

  // Where each field of a stored inode lies, the lowest byte first.
  lemma InodeFields(ino: Inode, k: nat)
    requires k < 15
    ensures var b := EncodeInode(ino);
            && |b| == 88 && LowFirst(b[0..2]) == ino.mode && LowFirst(b[2..4]) == ino.uid && LowFirst(b[4..8]) == ino.size
            && LowFirst(b[8..12]) == ino.atime && LowFirst(b[12..16]) == ino.ctime && LowFirst(b[16..20]) == ino.mtime
            && LowFirst(b[20..22]) == ino.gid && LowFirst(b[22..24]) == ino.links && LowFirst(b[24..28]) == ino.sectors
            && LowFirst(b[28 + 4 * k..32 + 4 * k]) == ino.block[k]
  {
    hide LowFirst, EncodeInode, ReadU16, ReadU32, Digit;
    var b := EncodeInode(ino);
    Half(ino, b, 0, ino.mode);
    Half(ino, b, 2, ino.uid);
    Word(ino, b, 4, ino.size);
    Word(ino, b, 8, ino.atime);
    Word(ino, b, 12, ino.ctime);
    Word(ino, b, 16, ino.mtime);
    Half(ino, b, 20, ino.gid);
    Half(ino, b, 22, ino.links);
    Word(ino, b, 24, ino.sectors);
    Word(ino, b, 28 + 4 * k, ino.block[k]);
  }

  lemma Word(ino: Inode, b: Bytes, off: nat, v: U32)
    requires b == EncodeInode(ino) && off + 4 <= INODE_BYTES
    requires InodeByte(ino, off) == Digit(v, 0) && InodeByte(ino, off + 1) == Digit(v, 1)
    requires InodeByte(ino, off + 2) == Digit(v, 2) && InodeByte(ino, off + 3) == Digit(v, 3)
    ensures LowFirst(b[off..off + 4]) == v
  {
    hide LowFirst, InodeByte;
    assert b[off] == InodeByte(ino, off + 0) && b[off + 1] == InodeByte(ino, off + 1);
    assert b[off + 2] == InodeByte(ino, off + 2) && b[off + 3] == InodeByte(ino, off + 3);
    LittleEndian(b, off, v);
  }

  lemma Half(ino: Inode, b: Bytes, off: nat, v: U16)
    requires b == EncodeInode(ino) && off + 2 <= INODE_BYTES
    requires InodeByte(ino, off) == Digit(v, 0) && InodeByte(ino, off + 1) == Digit(v, 1)
    ensures LowFirst(b[off..off + 2]) == v
  {
    hide LowFirst, InodeByte;
    assert b[off] == InodeByte(ino, off + 0) && b[off + 1] == InodeByte(ino, off + 1);
    U16RoundTrip(b, off, v);
    TwoBytes(b[off..off + 2]);
  }

  // Where ext2_read_inode looks: every group's inode table starts at block 0 of the formatted image.
  function InodeBlock(n: nat): nat
    requires n >= 1
  {
    ((n - 1) % INODES_PER_GROUP) * INODE_SIZE / BLOCK_SIZE
  }

  function InodeOffset(n: nat): (off: nat)
    requires n >= 1
    ensures off + INODE_SIZE <= BLOCK_SIZE
  {
    ((n - 1) % INODES_PER_GROUP) * INODE_SIZE % BLOCK_SIZE
  }

  // Slots of numbers up to 80 stay below the data area and never overlap; number 81 falls into it.
  lemma SlotsApart(n: nat, m: nat)
    requires 1 <= n <= INODES_PER_GROUP && 1 <= m <= INODES_PER_GROUP
    ensures InodeBlock(n) < FIRST_BLOCK <==> n <= MAX_INODE
    ensures n != m && InodeBlock(n) == InodeBlock(m) ==>
              InodeOffset(n) + INODE_BYTES <= InodeOffset(m) || InodeOffset(m) + INODE_BYTES <= InodeOffset(n)
  {
    SlotPlace(n);
    SlotPlace(m);
    hide InodeBlock, InodeOffset;
  }

  lemma SlotPlace(n: nat)
    requires 1 <= n <= INODES_PER_GROUP
    ensures InodeBlock(n) == (n - 1) / 8 && InodeOffset(n) == (n - 1) % 8 * 128
  {
  }

  // The inode stored on disk under number n.
  function InodeAt(disk: seq<Block>, n: nat): Inode
    requires |disk| == DISK_BLOCKS && n >= 1
  {
    DecodeInode(disk[InodeBlock(n)], InodeOffset(n))
  }

  // d2 is d1 with inode n replaced by ino and nothing else an inode or data block could notice.
  ghost predicate InodeReplaced(d1: seq<Block>, d2: seq<Block>, n: nat, ino: Inode)
    requires |d1| == |d2| == DISK_BLOCKS && 1 <= n
  {
    && InodeAt(d2, n) == ino
    && (forall m :: 1 <= m <= MAX_INODE && m != n ==> InodeAt(d2, m) == InodeAt(d1, m))
    && (forall b :: FIRST_BLOCK <= b < DISK_BLOCKS ==> d2[b] == d1[b])
  }

  lemma DecodeLocal(b1: Bytes, b2: Bytes, off: nat)
    requires |b1| == |b2| && off + INODE_BYTES <= |b1|
    requires forall i :: off <= i < off + INODE_BYTES ==> b1[i] == b2[i]
    ensures DecodeInode(b1, off) == DecodeInode(b2, off)
  {
    assert DecodeInode(b1, off).block == DecodeInode(b2, off).block;
  }

  lemma StoringInode(d1: seq<Block>, d2: seq<Block>, n: nat, ino: Inode)
    requires |d1| == |d2| == DISK_BLOCKS && 1 <= n <= MAX_INODE
    requires forall b :: 0 <= b < DISK_BLOCKS && b != InodeBlock(n) ==> d2[b] == d1[b]
    requires var off := InodeOffset(n);
             d2[InodeBlock(n)] == d1[InodeBlock(n)][..off] + EncodeInode(ino) + d1[InodeBlock(n)][off + INODE_BYTES..]
    ensures InodeReplaced(d1, d2, n, ino)
  {
    var t, off := InodeBlock(n), InodeOffset(n);
    SlotsApart(n, n);
    assert StoresInode(d2[t], off, ino) by {
      forall j | off <= j < off + INODE_BYTES
        ensures d2[t][j] == InodeByte(ino, j - off)
      {
        assert EncodeInode(ino)[j - off] == InodeByte(ino, j - off);
      }
    }
    InodeRoundTrip(d2[t], off, ino);
    forall m | 1 <= m <= MAX_INODE && m != n
      ensures InodeAt(d2, m) == InodeAt(d1, m)
    {
      SlotsApart(n, m);
      if InodeBlock(m) == t {
        DecodeLocal(d1[t], d2[t], InodeOffset(m));
      }
    }
  }
}
