/** Directory blocks: chains of variable-length records inside one block (kernel/ext2.c:158-172, 263-335). */
module DirentBlock {
  import opened Bytes
  import opened InodeTable

  const HEADER := 8
  const MAX_NAME := 63
  const NO_ENTRY := -1

  datatype Entry = Entry(name: Bytes, ino: U32, ftype: Byte)

  ghost predicate ValidName(name: Bytes) {
    1 <= |name| <= MAX_NAME && '/' !in name && '\0' !in name
  }

  // ------------------------------------------------------------------ first-match lists

  ghost predicate NoMatch(es: seq<Entry>, name: Bytes) {
    forall e :: e in es ==> e.name != name
  }

  ghost function FirstMatch(es: seq<Entry>, name: Bytes): (r: int)
    ensures r >= NO_ENTRY
  {
    if es == [] then NO_ENTRY
    else if es[0].name == name then es[0].ino
    else FirstMatch(es[1..], name)
  }

  ghost function RemoveFirst(es: seq<Entry>, name: Bytes): seq<Entry> {
    if es == [] then []
    else if es[0].name == name then es[1..]
    else [es[0]] + RemoveFirst(es[1..], name)
  }

  lemma {:induction false} FirstMatchSkips(pre: seq<Entry>, post: seq<Entry>, name: Bytes)
    requires NoMatch(pre, name)
    ensures FirstMatch(pre + post, name) == FirstMatch(post, name)
    ensures RemoveFirst(pre + post, name) == pre + RemoveFirst(post, name)
  {
    if pre == [] {
      assert pre + post == post;
    } else {
      assert (pre + post)[1..] == pre[1..] + post;
      FirstMatchSkips(pre[1..], post, name);
    }
  }

  lemma {:induction false} FirstMatchFound(es: seq<Entry>, name: Bytes)
    ensures FirstMatch(es, name) == NO_ENTRY <==> NoMatch(es, name)
    ensures FirstMatch(es, name) != NO_ENTRY ==> exists e :: e in es && e.name == name && e.ino == FirstMatch(es, name)
  {
    if es != [] && es[0].name != name {
      FirstMatchFound(es[1..], name);
      assert forall e :: e in es <==> e == es[0] || e in es[1..];
    } else if es != [] {
      assert es[0] in es;
    }
  }

  // Appending never changes a lookup that already succeeds.
  lemma {:induction false} FirstMatchStable(es: seq<Entry>, more: seq<Entry>, name: Bytes)
    ensures FirstMatch(es + more, name) ==
            if FirstMatch(es, name) != NO_ENTRY then FirstMatch(es, name) else FirstMatch(more, name)
  {
    if es == [] {
      assert es + more == more;
    } else {
      assert (es + more)[1..] == es[1..] + more;
      FirstMatchStable(es[1..], more, name);
    }
  }

  lemma {:induction false} RemoveFirstOther(es: seq<Entry>, name: Bytes, other: Bytes)
    requires name != other
    ensures FirstMatch(RemoveFirst(es, name), other) == FirstMatch(es, other)
  {
    if es != [] && es[0].name != name {
      assert RemoveFirst(es, name)[1..] == RemoveFirst(es[1..], name);
      RemoveFirstOther(es[1..], name, other);
    }
  }

  // ------------------------------------------------------------------ records in a block

  function RecIno(b: Block, off: nat): U32
    requires off + HEADER <= BLOCK_SIZE
  { ReadU32(b, off) }

  function RecLen(b: Block, off: nat): U16
    requires off + HEADER <= BLOCK_SIZE
  { ReadU16(b, off + 4) }

  function NameLen(b: Block, off: nat): nat
    requires off + HEADER <= BLOCK_SIZE
  { b[off + 6] as int }

  // A record whose name lies inside it and which lies inside the block.
  ghost predicate RecordAt(b: Block, off: nat) {
    off + HEADER <= BLOCK_SIZE && HEADER + NameLen(b, off) <= RecLen(b, off) && off + RecLen(b, off) <= BLOCK_SIZE
  }

  ghost function LiveAt(b: Block, off: nat): seq<Entry>
    requires RecordAt(b, off)
  {
    if RecIno(b, off) == 0 then []
    else [Entry(b[off + HEADER..off + HEADER + NameLen(b, off)], RecIno(b, off), b[off + 7])]
  }

  // The records starting at from lead exactly to offset upto.
  ghost predicate Chain(b: Block, from: nat, upto: nat)
    decreases upto - from
  {
    from == upto || (from < upto <= BLOCK_SIZE && RecordAt(b, from) && Chain(b, from + RecLen(b, from), upto))
  }

  ghost predicate Tiled(b: Block) { Chain(b, 0, BLOCK_SIZE) }

  ghost function Entries(b: Block, from: nat, upto: nat): seq<Entry>
    requires Chain(b, from, upto)
    decreases upto - from
  {
    if from == upto then [] else LiveAt(b, from) + Entries(b, from + RecLen(b, from), upto)
  }

  lemma {:induction false} ChainBounds(b: Block, from: nat, upto: nat)
    requires Chain(b, from, upto)
    ensures from <= upto
  {
  }

  lemma AppendAssociates<T>(a: seq<T>, b: seq<T>, c: seq<T>)
    ensures (a + b) + c == a + (b + c)
  {
  }

  lemma {:induction false} ChainJoin(b: Block, from: nat, mid: nat, upto: nat)
    requires Chain(b, from, mid) && Chain(b, mid, upto)
    ensures Chain(b, from, upto) && Entries(b, from, upto) == Entries(b, from, mid) + Entries(b, mid, upto)
    decreases mid - from
  {
    ChainBounds(b, mid, upto);
    ChainBounds(b, from, mid);
    if from == mid {
      assert Entries(b, from, mid) == [];
    } else {
      var nx := from + RecLen(b, from);
      ChainJoin(b, nx, mid, upto);
      AppendAssociates(LiveAt(b, from), Entries(b, nx, mid), Entries(b, mid, upto));
    }
  }

  // One more record on the scanned side of a scan position.
  lemma ChainAdvance(b: Block, off: nat)
    requires Chain(b, 0, off) && off < BLOCK_SIZE && Chain(b, off, BLOCK_SIZE)
    ensures RecordAt(b, off) && Chain(b, 0, off + RecLen(b, off)) && Chain(b, off + RecLen(b, off), BLOCK_SIZE)
    ensures Entries(b, 0, off + RecLen(b, off)) == Entries(b, 0, off) + LiveAt(b, off)
  {
    RecordAlone(b, off);
    ChainJoin(b, 0, off, off + RecLen(b, off));
  }

  lemma {:induction false} ChainFrame(b1: Block, b2: Block, from: nat, upto: nat)
    requires Chain(b1, from, upto)
    requires forall i :: from <= i < upto ==> b1[i] == b2[i]
    ensures Chain(b2, from, upto) && Entries(b2, from, upto) == Entries(b1, from, upto)
    decreases upto - from
  {
    if from != upto {
      ChainBounds(b1, from + RecLen(b1, from), upto);
      assert RecordAt(b2, from) && LiveAt(b2, from) == LiveAt(b1, from) by {
        assert b2[from + HEADER..from + HEADER + NameLen(b1, from)] == b1[from + HEADER..from + HEADER + NameLen(b1, from)];
      }
      ChainFrame(b1, b2, from + RecLen(b1, from), upto);
    }
  }

  // ------------------------------------------------------------------ whole blocks

  ghost predicate Fresh(b: Block) { b == ZeroBlock() }

  ghost predicate DirBlock(b: Block) { Fresh(b) || Tiled(b) }

  ghost function BlockEntries(b: Block): seq<Entry>
    requires DirBlock(b)
  {
    if Fresh(b) then [] else Entries(b, 0, BLOCK_SIZE)
  }

  lemma FreshIsNotTiled(b: Block)
    requires Fresh(b)
    ensures RecIno(b, 0) == 0 && RecLen(b, 0) == 0 && !Tiled(b)
  {
  }

  // A record that fills the block is the only one in it.
  lemma SingleRecord(b: Block)
    requires RecLen(b, 0) == BLOCK_SIZE && NameLen(b, 0) <= MAX_NAME && RecIno(b, 0) != 0
    ensures Tiled(b) && !Fresh(b)
    ensures BlockEntries(b) == [Entry(b[HEADER..HEADER + NameLen(b, 0)], RecIno(b, 0), b[7])]
  {
    assert Chain(b, BLOCK_SIZE, BLOCK_SIZE);
    assert Chain(b, 0, BLOCK_SIZE);
    assert Entries(b, 0, BLOCK_SIZE) == LiveAt(b, 0) + Entries(b, BLOCK_SIZE, BLOCK_SIZE);
  }

  // Unlinking the first record: only its inode field is cleared.
  lemma KillFirstRecord(b1: Block, b2: Block, name: Bytes)
    requires Tiled(b1) && RecIno(b1, 0) != 0 && b1[HEADER..HEADER + NameLen(b1, 0)] == name
    requires RecIno(b2, 0) == 0 && forall i :: 4 <= i < BLOCK_SIZE ==> b2[i] == b1[i]
    ensures Tiled(b2) && !Fresh(b2) && BlockEntries(b2) == RemoveFirst(Entries(b1, 0, BLOCK_SIZE), name)
  {
    var nx := RecLen(b1, 0);
    ChainBounds(b1, nx, BLOCK_SIZE);
    assert RecordAt(b2, 0) && RecLen(b2, 0) == nx;
    ChainFrame(b1, b2, nx, BLOCK_SIZE);
    assert LiveAt(b2, 0) == [] && Entries(b2, 0, BLOCK_SIZE) == Entries(b2, nx, BLOCK_SIZE);
    assert LiveAt(b1, 0) + Entries(b1, nx, BLOCK_SIZE) == Entries(b1, 0, BLOCK_SIZE);
  }

  // A scan from the start of the block stands at off and has met no live record called name.
  ghost predicate Scanned(b: Block, off: nat, name: Bytes) {
    Chain(b, 0, off) && Chain(b, off, BLOCK_SIZE) && NoMatch(Entries(b, 0, off), name)
  }

  ghost predicate Matches(b: Block, off: nat, name: Bytes)
    requires RecordAt(b, off)
  {
    RecIno(b, off) != 0 && b[off + HEADER..off + HEADER + NameLen(b, off)] == name
  }

  // Behind the name of the record stands a NUL.
  ghost predicate NameEnds(b: Block, off: nat)
    requires RecordAt(b, off)
  {
    off + HEADER + NameLen(b, off) < BLOCK_SIZE && b[off + HEADER + NameLen(b, off)] == '\0'
  }

  // Blocks written by this code hold a single record that fills them.
  ghost predicate OneRecord(b: Block) {
    Fresh(b) || (RecLen(b, 0) == BLOCK_SIZE && RecordAt(b, 0) && NameEnds(b, 0))
  }

  // The kernel compares lengths modulo 256; a longer string is told apart by the NUL behind a name.
  ghost predicate Wanted(b: Block, name: Bytes) { |name| < 256 || ('\0' !in name && OneRecord(b)) }

  // In a block with one record a scan stands at its start until it is done.
  lemma ScanOfOne(b: Block, off: nat, name: Bytes)
    requires off < BLOCK_SIZE && Scanned(b, off, name) && OneRecord(b) && !Fresh(b)
    ensures off == 0 && RecordAt(b, 0) && NameEnds(b, 0)
  {
    if off > 0 {
      ChainBounds(b, RecLen(b, 0), off);
    }
  }

  lemma ScanStep(b: Block, off: nat, name: Bytes)
    requires off < BLOCK_SIZE && Scanned(b, off, name)
    ensures RecordAt(b, off) && (!Matches(b, off, name) ==> Scanned(b, off + RecLen(b, off), name))
  {
    ChainAdvance(b, off);
  }

  lemma ScanEnd(b: Block, name: Bytes)
    requires Scanned(b, BLOCK_SIZE, name)
    ensures Tiled(b) && !Fresh(b) && NoMatch(BlockEntries(b), name) && FirstMatch(BlockEntries(b), name) == NO_ENTRY
  {
    FreshOrNot(b);
    FirstMatchFound(BlockEntries(b), name);
  }

  // What a scan knows once it stands on a live record with the wanted name.
  lemma MatchAtCursor(b: Block, cur: nat, name: Bytes)
    requires cur < BLOCK_SIZE && Scanned(b, cur, name) && RecordAt(b, cur) && Matches(b, cur, name)
    ensures Tiled(b) && !Fresh(b) && Chain(b, cur + RecLen(b, cur), BLOCK_SIZE)
    ensures !NoMatch(BlockEntries(b), name) && FirstMatch(BlockEntries(b), name) == RecIno(b, cur)
    ensures RemoveFirst(BlockEntries(b), name) ==
            Entries(b, 0, cur) + Entries(b, cur + RecLen(b, cur), BLOCK_SIZE)
  {
    var nx := cur + RecLen(b, cur);
    ChainJoin(b, 0, cur, BLOCK_SIZE);
    FreshOrNot(b);
    var rest := Entries(b, cur, BLOCK_SIZE);
    assert rest == LiveAt(b, cur) + Entries(b, nx, BLOCK_SIZE);
    assert rest[0].name == name && rest[1..] == Entries(b, nx, BLOCK_SIZE);
    FirstMatchSkips(Entries(b, 0, cur), rest, name);
    FirstMatchFound(BlockEntries(b), name);
  }

  // Unlinking a later record: its predecessor swallows it, and the records still tile the block.
  lemma SwallowRecord(b1: Block, b2: Block, prev: nat, cur: nat)
    requires Chain(b1, 0, prev) && RecordAt(b1, prev) && prev + RecLen(b1, prev) == cur
    requires RecordAt(b1, cur) && Chain(b1, cur + RecLen(b1, cur), BLOCK_SIZE)
    requires RecLen(b2, prev) == RecLen(b1, prev) + RecLen(b1, cur)
    requires forall i :: 0 <= i < BLOCK_SIZE && !(prev + 4 <= i < prev + 6) ==> b2[i] == b1[i]
    ensures Tiled(b2) && Chain(b1, 0, cur)
    ensures Entries(b2, 0, BLOCK_SIZE) == Entries(b1, 0, cur) + Entries(b1, cur + RecLen(b1, cur), BLOCK_SIZE)
  {
    var nx := cur + RecLen(b1, cur);
    ChainBounds(b1, nx, BLOCK_SIZE);
    ChainBounds(b1, 0, prev);
    ChainFrame(b1, b2, 0, prev);
    ChainFrame(b1, b2, nx, BLOCK_SIZE);
    SwallowLocal(b1, b2, prev, cur);
    RecordAlone(b1, prev);
    RecordAlone(b2, prev);
    ChainJoin(b1, 0, prev, cur);
    ChainJoin(b2, 0, prev, nx);
    ChainJoin(b2, 0, nx, BLOCK_SIZE);
  }

  lemma RecordAlone(b: Block, off: nat)
    requires RecordAt(b, off)
    ensures Chain(b, off, off + RecLen(b, off)) && Entries(b, off, off + RecLen(b, off)) == LiveAt(b, off)
  {
    var nx := off + RecLen(b, off);
    assert Chain(b, nx, nx) && Entries(b, nx, nx) == [];
  }

  lemma SwallowLocal(b1: Block, b2: Block, prev: nat, cur: nat)
    requires RecordAt(b1, prev) && prev + RecLen(b1, prev) == cur && RecordAt(b1, cur)
    requires RecLen(b2, prev) == RecLen(b1, prev) + RecLen(b1, cur)
    requires forall i :: 0 <= i < BLOCK_SIZE && !(prev + 4 <= i < prev + 6) ==> b2[i] == b1[i]
    ensures RecordAt(b2, prev) && LiveAt(b2, prev) == LiveAt(b1, prev)
    ensures prev + RecLen(b2, prev) == cur + RecLen(b1, cur)
  {
    assert b2[prev + HEADER..prev + HEADER + NameLen(b1, prev)] == b1[prev + HEADER..prev + HEADER + NameLen(b1, prev)];
  }

  lemma FreshOrNot(b: Block)
    requires Tiled(b)
    ensures !Fresh(b)
  {
    if Fresh(b) {
      FreshIsNotTiled(b);
    }
  }
}
