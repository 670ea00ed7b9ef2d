/** kernel/memory.c: block headers in memory, linked by address. */
module KernelHeap {
  import opened Bytes
  import opened HeapModel

  const HEAP_MAGIC: U32 := 0xDEAD_BEEF
  const NULL := 0

  datatype Header = Header(magic: U32, size: nat, next: nat, free: bool)

  ghost function NextAddr(bs: seq<Blk>, k: nat): nat
    requires k < |bs|
  {
    if k + 1 < |bs| then bs[k + 1].addr else NULL
  }

  // The headers in memory link the blocks in order.
  ghost predicate Linked(mem: map<nat, Header>, bs: seq<Blk>) {
    forall k :: 0 <= k < |bs| ==> LinkOk(mem, bs, k)
  }

  // The header writes of kmalloc on block k.
  function Carved(mem: map<nat, Header>, at: nat, size: nat): map<nat, Header>
    requires at in mem && size <= mem[at].size
  {
    var h := mem[at];
    if h.size >= size + HEADER_SIZE + ALIGNMENT then
      var newBlock := at + HEADER_SIZE + size;
      mem[newBlock := Header(HEAP_MAGIC, h.size - size - HEADER_SIZE, h.next, true)]
         [at := Header(h.magic, size, newBlock, false)]
    else mem[at := h.(free := false)]
  }

  ghost predicate LinkOk(mem: map<nat, Header>, bs: seq<Blk>, k: nat)
    requires k < |bs|
  {
    bs[k].addr in mem && mem[bs[k].addr] == Header(HEAP_MAGIC, bs[k].size, NextAddr(bs, k), bs[k].free)
  }

  lemma AddrsApart(bs: seq<Blk>, at: nat, k: nat, j: nat)
    requires Tiles(bs, at) && k < |bs| && j < |bs| && j != k
    ensures bs[j].addr < bs[k].addr || After(bs[k]) <= bs[j].addr
  {
    if j < k {
      PayloadsApart(bs, at, j, k);
    } else {
      PayloadsApart(bs, at, k, j);
    }
  }

  lemma CarvedElsewhere(mem: map<nat, Header>, bs: seq<Blk>, at: nat, k: nat, size: nat, j: nat)
    requires Tiles(bs, at) && Linked(mem, bs) && k < |bs| && size <= bs[k].size && j < |bs| && j != k
    ensures bs[k].addr in mem && mem[bs[k].addr].size == bs[k].size
    ensures var m := Carved(mem, bs[k].addr, size);
            bs[j].addr in m && m[bs[j].addr] == Header(HEAP_MAGIC, bs[j].size, NextAddr(bs, j), bs[j].free)
  {
    assert LinkOk(mem, bs, k) && LinkOk(mem, bs, j);
    AddrsApart(bs, at, k, j);
  }

  lemma CarvedHere(mem: map<nat, Header>, bs: seq<Blk>, k: nat, size: nat)
    requires Linked(mem, bs) && k < |bs| && size <= bs[k].size && bs[k].free
    ensures bs[k].addr in mem && mem[bs[k].addr].size == bs[k].size
    ensures var m, out := Carved(mem, bs[k].addr, size), AllocAt(bs, k, size);
            LinkOk(m, out, k) && (Splits(bs[k], size) ==> LinkOk(m, out, k + 1))
  {
    assert LinkOk(mem, bs, k);
    var out := AllocAt(bs, k, size);
    assert out[k] == Taken(bs[k], size)[0];
    if Splits(bs[k], size) {
      assert out[k + 1] == Taken(bs[k], size)[1];
      assert k + 1 < |bs| ==> out[k + 2] == bs[k + 1];
    } else {
      assert k + 1 < |bs| ==> out[k + 1] == bs[k + 1];
    }
  }

  lemma AllocIndex(bs: seq<Blk>, k: nat, size: nat, i: nat)
    requires k < |bs| && size <= bs[k].size && i < |AllocAt(bs, k, size)|
    ensures var out, grown := AllocAt(bs, k, size), |Taken(bs[k], size)| - 1;
            && (i < k ==> out[i] == bs[i] && NextAddr(out, i) == NextAddr(bs, i))
            && (i > k + grown ==> out[i] == bs[i - grown] && NextAddr(out, i) == NextAddr(bs, i - grown))
  {
  }

  lemma LinkedAfterCarving(mem: map<nat, Header>, bs: seq<Blk>, at: nat, k: nat, size: nat)
    requires Tiles(bs, at) && Linked(mem, bs) && k < |bs| && size <= bs[k].size && bs[k].free
    ensures bs[k].addr in mem && mem[bs[k].addr].size == bs[k].size
    ensures Linked(Carved(mem, bs[k].addr, size), AllocAt(bs, k, size))
  {
    CarvedHere(mem, bs, k, size);
    var out, m := AllocAt(bs, k, size), Carved(mem, bs[k].addr, size);
    var grown := |Taken(bs[k], size)| - 1;
    forall i | 0 <= i < |out|
      ensures LinkOk(m, out, i)
    {
      hide Carved, AllocAt, Taken, NextAddr;
      AllocIndex(bs, k, size, i);
      if i < k {
        CarvedElsewhere(mem, bs, at, k, size, i);
      } else if i > k + grown {
        CarvedElsewhere(mem, bs, at, k, size, i - grown);
      }
    }
  }

  // The header writes of kfree.
  function Released(mem: map<nat, Header>, at: nat): map<nat, Header>
    requires at in mem
  {
    var h := mem[at].(free := true);
    if h.next != NULL && h.next in mem && mem[h.next].free
    then mem[at := h.(size := h.size + HEADER_SIZE + mem[h.next].size, next := mem[h.next].next)]
    else mem[at := h]
  }

  lemma ReleasedElsewhere(mem: map<nat, Header>, bs: seq<Blk>, at: nat, k: nat, j: nat)
    requires Tiles(bs, at) && Linked(mem, bs) && k < |bs| && j < |bs| && j != k
    ensures bs[k].addr in mem
    ensures var m := Released(mem, bs[k].addr);
            bs[j].addr in m && m[bs[j].addr] == Header(HEAP_MAGIC, bs[j].size, NextAddr(bs, j), bs[j].free)
  {
    assert LinkOk(mem, bs, k) && LinkOk(mem, bs, j);
    AddrsApart(bs, at, k, j);
  }

  lemma ReleasedHere(mem: map<nat, Header>, bs: seq<Blk>, at: nat, k: nat)
    requires Tiles(bs, at) && at > 0 && Linked(mem, bs) && k < |bs|
    ensures bs[k].addr in mem && LinkOk(Released(mem, bs[k].addr), FreeAt(bs, k), k)
  {
    assert LinkOk(mem, bs, k);
    TilesAt(bs, at, k);
    var out := FreeAt(bs, k);
    if k + 1 < |bs| {
      assert LinkOk(mem, bs, k + 1);
      if bs[k + 1].free {
        assert out[k] == Blk(bs[k].addr, bs[k].size + HEADER_SIZE + bs[k + 1].size, true);
        assert k + 2 < |bs| ==> out[k + 1] == bs[k + 2];
      }
    }
  }

  lemma FreeIndex(bs: seq<Blk>, k: nat, i: nat)
    requires k < |bs| && i < |FreeAt(bs, k)|
    ensures var out, lost := FreeAt(bs, k), |bs| - |FreeAt(bs, k)|;
            && 0 <= lost && i + lost < |bs|
            && (i < k ==> out[i] == bs[i] && NextAddr(out, i) == NextAddr(bs, i))
            && (i > k ==> out[i] == bs[i + lost] && NextAddr(out, i) == NextAddr(bs, i + lost))
  {
  }

  lemma LinkedAfterRelease(mem: map<nat, Header>, bs: seq<Blk>, at: nat, k: nat)
    requires Tiles(bs, at) && at > 0 && Linked(mem, bs) && k < |bs|
    ensures bs[k].addr in mem && Linked(Released(mem, bs[k].addr), FreeAt(bs, k))
  {
    ReleasedHere(mem, bs, at, k);
    var out, m := FreeAt(bs, k), Released(mem, bs[k].addr);
    forall i | 0 <= i < |out|
      ensures LinkOk(m, out, i)
    {
      hide Released, FreeAt, NextAddr;
      FreeIndex(bs, k, i);
      if i < k {
        ReleasedElsewhere(mem, bs, at, k, i);
      } else if i > k {
        ReleasedElsewhere(mem, bs, at, k, i + |bs| - |out|);
      }
    }
  }

  // What the header of block k tells, and the header it links to.
  lemma HeaderFacts(mem: map<nat, Header>, bs: seq<Blk>, at: nat, k: nat)
    requires Tiles(bs, at) && at > 0 && Linked(mem, bs) && k < |bs|
    ensures LinkOk(mem, bs, k) && bs[k].addr > 0
    ensures var next := mem[bs[k].addr].next;
            if k + 1 < |bs| then next == bs[k + 1].addr > bs[k].addr && LinkOk(mem, bs, k + 1) else next == NULL
  {
    assert LinkOk(mem, bs, k);
    TilesAt(bs, at, k);
    if k + 1 < |bs| {
      assert LinkOk(mem, bs, k + 1);
    }
  }

  // The block behind, as the header of block k links to it.
  lemma NextThere(mem: map<nat, Header>, bs: seq<Blk>, k: nat)
    requires k < |bs| && LinkOk(mem, bs, k) && (k + 1 < |bs| ==> LinkOk(mem, bs, k + 1) && bs[k + 1].addr != bs[k].addr)
    ensures var next := mem[bs[k].addr].next; next != NULL ==> next in mem && next != bs[k].addr
  {
  }

  lemma AllocNotEmpty(bs: seq<Blk>, size: nat)
    ensures bs != [] ==> Alloc(bs, size) != []
  {
  }

  class Heap {
    var mem: map<nat, Header>
    var heapStart: nat
    ghost var blocks: seq<Blk>

    ghost predicate Valid()
      reads this
    {
      heapStart != NULL ==>
        blocks != [] && heapStart % ALIGNMENT == 0 && Tiles(blocks, heapStart) && Linked(mem, blocks)
    }

    // mem_init (kernel/memory.c:25-39) behind a kernel image that ends at the given address.
    constructor Init(end: nat)
      requires 0 < end && end + HEADER_SIZE + 2 * ALIGNMENT <= MEMORY_END
      ensures Valid() && heapStart == AlignUp(end) >= end && blocks == Initial(heapStart)
      ensures heapStart < end + 8 && blocks == [Blk(heapStart, 0x200_0000 - heapStart - 16, true)]
    {
      var heapAddr := AlignUp(end);
      heapStart := heapAddr;
      mem := map[heapAddr := Header(HEAP_MAGIC, MEMORY_END - heapAddr - HEADER_SIZE, NULL, true)];
      blocks := Initial(heapAddr);
      new;
      AlignUpExact(end);
      assert blocks[1..] == [];
    }

    // Taking the block found, split if enough is left (kernel/memory.c:64-82).
    method Carve(current: nat, size: nat, ghost k: nat)
      requires Valid() && heapStart != NULL && size % ALIGNMENT == 0
      requires k == FirstFit(blocks, size) && current == blocks[k].addr
      modifies this
      ensures Valid() && heapStart == old(heapStart) && blocks == Alloc(old(blocks), size)
    {
      hide Tiles, NextAddr, AllocAt, BlkOk, LinkOk;
      AllocKeepsTiles(blocks, heapStart, size);
      LinkedAfterCarving(mem, blocks, heapStart, k, size);
      var header := mem[current];
      if header.size >= size + HEADER_SIZE + ALIGNMENT {
        var newBlock := current + HEADER_SIZE + size;
        mem := mem[newBlock := Header(HEAP_MAGIC, header.size - size - HEADER_SIZE, header.next, true)];
        header := header.(size := size, next := newBlock);
      }
      header := header.(free := false);
      mem := mem[current := header];
      assert mem == Carved(old(mem), current, size);
      AllocNotEmpty(blocks, size);
      blocks := Alloc(blocks, size);
    }

    // kmalloc (kernel/memory.c:48-99); a request above 2^32 - 8 is rounded to zero and served.
    method KMalloc(request: U32) returns (ptr: int)
      requires Valid()
      modifies this
      ensures Valid() && heapStart == old(heapStart)
      ensures request == 0 || heapStart == NULL ==> ptr == NULL && blocks == old(blocks)
      ensures request != 0 && heapStart != NULL ==>
                var k := FirstFit(old(blocks), AlignUp(request));
                && blocks == Alloc(old(blocks), AlignUp(request))
                && ptr == if k < 0 then NULL else Payload(old(blocks)[k])
      ensures request != 0 && heapStart != NULL ==> ptr >= 0 && Given(old(blocks), blocks, AlignUp(request), ptr)
    {
      if request == 0 || heapStart == NULL {
        return NULL;
      }
      hide Tiles, NextAddr, Alloc, AllocAt, AlignUp, BlkOk, Given, Linked;
      AlignUpAligned(request);
      var size := AlignUp(request);
      AllocGiven(blocks, size);
      var current := heapStart;
      ghost var k := 0;
      HeaderFacts(mem, blocks, heapStart, 0);
      while current != NULL
        invariant heapStart != NULL && Valid() && mem == old(mem) && blocks == old(blocks) && heapStart == old(heapStart)
        invariant k <= |blocks| && current == (if k < |blocks| then blocks[k].addr else NULL)
        invariant k < |blocks| ==> current != NULL
        invariant forall j :: 0 <= j < k ==> !(blocks[j].free && blocks[j].size >= size)
        decreases |blocks| - k
      {
        HeaderFacts(mem, blocks, heapStart, k);
        var header := mem[current];
        if header.magic != HEAP_MAGIC {
          return NULL;
        }
        if header.free && header.size >= size {
          assert FirstFit(blocks, size) == k;
          Carve(current, size, k);
          return current + HEADER_SIZE;
        }
        current := header.next;
        k := k + 1;
      }
      assert FirstFit(blocks, size) < 0;
      ptr := NULL;
    }

    // kfree (kernel/memory.c:101-123) of NULL or of a block, also one that is free already.
    method KFree(ptr: nat)
      requires Valid()
      requires ptr != NULL ==> heapStart != NULL && ptr >= HEADER_SIZE && IndexOf(blocks, ptr - HEADER_SIZE) >= 0
      modifies this
      ensures Valid() && heapStart == old(heapStart)
      ensures blocks == if ptr == NULL then old(blocks) else Free(old(blocks), ptr - HEADER_SIZE)
      ensures ptr != NULL ==> GivenBack(old(blocks), blocks, ptr - 16)
    {
      if ptr == NULL {
        return;
      }
      hide Tiles, Free, FreeAt, GivenBack;
      var block := ptr - HEADER_SIZE;
      FreeGivenBack(blocks, block);
      ghost var k := IndexOf(blocks, block);
      HeaderFacts(mem, blocks, heapStart, k);
      LinkedAfterRelease(mem, blocks, heapStart, k);
      FreeKeepsTiles(blocks, heapStart, k);
      var header := mem[block];
      if header.magic != HEAP_MAGIC {
        return;
      }
      NextThere(mem, blocks, k);
      Release(block);
      blocks := Free(blocks, block);
    }

    // The header writes of kfree (kernel/memory.c:111-122).
    method Release(block: nat)
      requires block in mem && (mem[block].next != NULL ==> mem[block].next in mem && mem[block].next != block)
      modifies `mem
      ensures mem == Released(old(mem), block)
    {
      var header := mem[block].(free := true);
      mem := mem[block := header];
      if header.next != NULL && mem[header.next].free {
        header := header.(size := header.size + HEADER_SIZE + mem[header.next].size, next := mem[header.next].next);
        mem := mem[block := header];
      }
      assert mem == Released(old(mem), block);
    }
  }
}
