/** The heap as a list of blocks in address order: first fit, splitting, forward coalescing (kernel/memory.c). */
module HeapModel {
  import opened Bytes

  const MEMORY_END := 0x200_0000
  const HEADER_SIZE := 16
  const ALIGNMENT := 8
  const MAX_REQUEST: int := 0x1_0000_0000 - ALIGNMENT

  datatype Blk = Blk(addr: nat, size: nat, free: bool)

  // align_up in 32-bit arithmetic (kernel/memory.c:21-23).
  function AlignUp(size: U32): U32 {
    (size + (ALIGNMENT - 1)) % 0x1_0000_0000 / ALIGNMENT * ALIGNMENT
  }

  // Rounding up works exactly for sizes up to 2^32 - 8; above that the sum wraps and the result is zero.
  lemma AlignUpExact(size: U32)
    ensures size <= MAX_REQUEST <==> size <= AlignUp(size)
    ensures size <= MAX_REQUEST ==> AlignUp(size) < size + ALIGNMENT && AlignUp(size) % ALIGNMENT == 0
    ensures size > MAX_REQUEST ==> AlignUp(size) == 0
  {
  }

  lemma AlignUpAligned(size: U32)
    ensures AlignUp(size) % ALIGNMENT == 0
  {
  }

  // ------------------------------------------------------------------ tiling

  // A block may be empty, after a request whose rounding wrapped: see SizesExact.
  ghost predicate BlkOk(b: Blk) { b.size % ALIGNMENT == 0 }

  function Payload(b: Blk): nat { b.addr + HEADER_SIZE }
  function After(b: Blk): nat { b.addr + HEADER_SIZE + b.size }

  // The blocks cover [at, MEMORY_END) without gap or overlap.
  ghost predicate Tiles(bs: seq<Blk>, at: nat) {
    if bs == [] then at == MEMORY_END
    else bs[0].addr == at && BlkOk(bs[0]) && Tiles(bs[1..], After(bs[0]))
  }

  lemma {:induction false} TilesAt(bs: seq<Blk>, at: nat, k: nat)
    requires Tiles(bs, at) && k < |bs|
    ensures BlkOk(bs[k]) && at <= bs[k].addr && After(bs[k]) <= MEMORY_END
    ensures if k + 1 < |bs| then bs[k + 1].addr == After(bs[k]) else After(bs[k]) == MEMORY_END
    ensures Tiles(bs[k..], bs[k].addr)
  {
    TilesEnd(bs[1..], After(bs[0]));
    if k > 0 {
      TilesAt(bs[1..], After(bs[0]), k - 1);
      assert bs[1..][k - 1..] == bs[k..];
    } else {
      assert bs[0..] == bs;
    }
  }

  lemma {:induction false} TilesEnd(bs: seq<Blk>, at: nat)
    requires Tiles(bs, at)
    ensures at <= MEMORY_END
  {
    if bs != [] {
      TilesEnd(bs[1..], After(bs[0]));
    }
  }

  // Earlier blocks end before later ones start, so payloads never overlap.
  lemma {:induction false} PayloadsApart(bs: seq<Blk>, at: nat, i: nat, j: nat)
    requires Tiles(bs, at) && i < j < |bs|
    ensures Payload(bs[i]) + bs[i].size <= bs[j].addr < Payload(bs[j])
    decreases j - i
  {
    TilesAt(bs, at, i);
    TilesAt(bs, at, j - 1);
    if i < j - 1 {
      PayloadsApart(bs, at, i, j - 1);
    }
    TilesAt(bs, at, j);
  }

  // ------------------------------------------------------------------ kmalloc and kfree

  // The lowest free block that is large enough, -1 when there is none.
  function FirstFit(bs: seq<Blk>, size: nat): (k: int)
    ensures -1 <= k < |bs|
    ensures k >= 0 ==> bs[k].free && bs[k].size >= size && forall j :: 0 <= j < k ==> !(bs[j].free && bs[j].size >= size)
    ensures k < 0 ==> forall j :: 0 <= j < |bs| ==> !(bs[j].free && bs[j].size >= size)
  {
    if bs == [] then -1
    else if bs[0].free && bs[0].size >= size then 0
    else
      var k := FirstFit(bs[1..], size);
      if k < 0 then -1 else k + 1
  }

  predicate Splits(b: Blk, size: nat) { b.size >= size + HEADER_SIZE + ALIGNMENT }

  // What block b turns into when size bytes of it are taken.
  function Taken(b: Blk, size: nat): seq<Blk>
    requires size <= b.size
  {
    if Splits(b, size)
    then [Blk(b.addr, size, false), Blk(b.addr + HEADER_SIZE + size, b.size - size - HEADER_SIZE, true)]
    else [Blk(b.addr, b.size, false)]
  }

  function AllocAt(bs: seq<Blk>, k: nat, size: nat): seq<Blk>
    requires k < |bs| && size <= bs[k].size
  {
    bs[..k] + Taken(bs[k], size) + bs[k + 1..]
  }

  // A request of size bytes, already aligned; the heap is unchanged when nothing fits.
  function Alloc(bs: seq<Blk>, size: nat): seq<Blk> {
    var k := FirstFit(bs, size);
    if k < 0 then bs else AllocAt(bs, k, size)
  }

  function FreeAt(bs: seq<Blk>, k: nat): seq<Blk>
    requires k < |bs|
  {
    var b := bs[k];
    if k + 1 < |bs| && bs[k + 1].free
    then bs[..k] + [Blk(b.addr, b.size + HEADER_SIZE + bs[k + 1].size, true)] + bs[k + 2..]
    else bs[k := b.(free := true)]
  }

  function IndexOf(bs: seq<Blk>, addr: nat): (k: int)
    ensures -1 <= k < |bs|
    ensures k >= 0 ==> bs[k].addr == addr && forall j :: 0 <= j < k ==> bs[j].addr != addr
    ensures k < 0 ==> forall j :: 0 <= j < |bs| ==> bs[j].addr != addr
  {
    if bs == [] then -1
    else if bs[0].addr == addr then 0
    else
      var k := IndexOf(bs[1..], addr);
      if k < 0 then -1 else k + 1
  }

  function Free(bs: seq<Blk>, addr: nat): seq<Blk> {
    var k := IndexOf(bs, addr);
    if k < 0 then bs else FreeAt(bs, k)
  }

  // ------------------------------------------------------------------ both keep the tiling

  // Replacing the middle of a tiling by blocks that tile the same stretch.
  lemma {:induction false} TilesReplace(bs: seq<Blk>, at: nat, k: nat, mid: seq<Blk>, rest: seq<Blk>)
    requires Tiles(bs, at) && k < |bs| && Tiles(mid + rest, bs[k].addr)
    ensures Tiles(bs[..k] + mid + rest, at)
  {
    var out := bs[..k] + mid + rest;
    if k == 0 {
      assert out == mid + rest;
    } else {
      TilesReplace(bs[1..], After(bs[0]), k - 1, mid, rest);
      assert out[1..] == bs[1..][..k - 1] + mid + rest;
    }
  }

  lemma TakenTiles(b: Blk, size: nat, rest: seq<Blk>)
    requires BlkOk(b) && size <= b.size && size % ALIGNMENT == 0 && Tiles(rest, After(b))
    ensures Tiles(Taken(b, size) + rest, b.addr)
  {
    var first := Taken(b, size)[0];
    if Splits(b, size) {
      var second := Taken(b, size)[1];
      TilesCons(second, rest);
      TilesCons(first, [second] + rest);
      assert Taken(b, size) + rest == [first] + ([second] + rest);
    } else {
      TilesCons(first, rest);
      assert Taken(b, size) + rest == [first] + rest;
    }
  }

  lemma TilesCons(b: Blk, rest: seq<Blk>)
    requires BlkOk(b) && Tiles(rest, After(b))
    ensures Tiles([b] + rest, b.addr)
  {
    assert ([b] + rest)[1..] == rest;
  }

  lemma AllocKeepsTiles(bs: seq<Blk>, at: nat, size: nat)
    requires Tiles(bs, at) && size % ALIGNMENT == 0
    ensures Tiles(Alloc(bs, size), at)
  {
    var k := FirstFit(bs, size);
    if k >= 0 {
      TilesAt(bs, at, k);
      assert bs[k..][1..] == bs[k + 1..];
      TakenTiles(bs[k], size, bs[k + 1..]);
      TilesReplace(bs, at, k, Taken(bs[k], size), bs[k + 1..]);
    }
  }

  lemma FreeKeepsTiles(bs: seq<Blk>, at: nat, k: nat)
    requires Tiles(bs, at) && k < |bs|
    ensures Tiles(FreeAt(bs, k), at)
  {
    hide Tiles;
    TilesAt(bs, at, k);
    if k + 1 < |bs| && bs[k + 1].free {
      TilesAt(bs, at, k + 1);
      TilesRest(bs, at, k + 2);
      var merged := Blk(bs[k].addr, bs[k].size + HEADER_SIZE + bs[k + 1].size, true);
      TilesCons(merged, bs[k + 2..]);
      TilesReplace(bs, at, k, [merged], bs[k + 2..]);
    } else {
      TilesRest(bs, at, k + 1);
      var freed := bs[k].(free := true);
      TilesCons(freed, bs[k + 1..]);
      TilesReplace(bs, at, k, [freed], bs[k + 1..]);
      assert FreeAt(bs, k) == bs[..k] + [freed] + bs[k + 1..];
    }
  }

  // What follows the first k blocks tiles what they leave.
  lemma TilesRest(bs: seq<Blk>, at: nat, k: nat)
    requires Tiles(bs, at) && 0 < k <= |bs|
    ensures Tiles(bs[k..], After(bs[k - 1]))
  {
    TilesAt(bs, at, k - 1);
    if k < |bs| {
      TilesAt(bs, at, k);
    } else {
      assert bs[k..] == [];
    }
  }

  // A request gets a block of its size or more exactly up to 2^32 - 8; beyond, rounding up gives zero and any free block serves.
  lemma ServedExactly(bs: seq<Blk>, at: nat, request: U32)
    requires Tiles(bs, at) && FirstFit(bs, AlignUp(request)) >= 0
    ensures var k, out := FirstFit(bs, AlignUp(request)), Alloc(bs, AlignUp(request));
            && out[k].addr == bs[k].addr && !out[k].free
            && (out[k].size >= request <==> request <= MAX_REQUEST)
  {
    AlignUpExact(request);
    var k := FirstFit(bs, AlignUp(request));
    TilesAt(bs, at, k);
    assert Alloc(bs, AlignUp(request))[k] == Taken(bs[k], AlignUp(request))[0];
  }

  ghost predicate NoneEmpty(bs: seq<Blk>) { forall k :: 0 <= k < |bs| ==> bs[k].size > 0 }

  // No block becomes empty exactly when the block taken is not split to nothing.
  lemma AllocNoneEmpty(bs: seq<Blk>, size: nat)
    requires NoneEmpty(bs) && FirstFit(bs, size) >= 0
    ensures NoneEmpty(Alloc(bs, size)) <==> size > 0 || !Splits(bs[FirstFit(bs, size)], size)
  {
    var k, out := FirstFit(bs, size), Alloc(bs, size);
    var taken := Taken(bs[k], size);
    assert out[k] == taken[0];
    forall j | 0 <= j < |out| && j != k
      ensures out[j].size > 0
    {
      if k < j < k + |taken| {
        assert out[j] == taken[1];
      } else if j >= k + |taken| {
        assert out[j] == bs[j - |taken| + 1];
      }
    }
  }

  // ------------------------------------------------------------------ live blocks keep their place and size

  ghost predicate Live(bs: seq<Blk>, addr: nat, size: nat) {
    exists k :: 0 <= k < |bs| && bs[k] == Blk(addr, size, false)
  }

  // A live pointer: the address of a block in use.
  ghost predicate InUse(bs: seq<Blk>, addr: nat) {
    exists k :: 0 <= k < |bs| && bs[k].addr == addr && !bs[k].free
  }

  lemma AllocLive(bs: seq<Blk>, size: nat, addr: nat, sz: nat)
    requires FirstFit(bs, size) >= 0
    ensures var b := bs[FirstFit(bs, size)];
            Live(Alloc(bs, size), addr, sz) <==>
            Live(bs, addr, sz) || (addr == b.addr && sz == if Splits(b, size) then size else b.size)
  {
    var k, out := FirstFit(bs, size), Alloc(bs, size);
    var grown := |Taken(bs[k], size)| - 1;
    assert out[k] == Taken(bs[k], size)[0];
    assert grown == 1 ==> out[k + 1] == Taken(bs[k], size)[1];
    if Live(out, addr, sz) {
      var j :| 0 <= j < |out| && out[j] == Blk(addr, sz, false);
      if j > k + grown {
        AllocRest(bs, k, size, j - grown);
      } else if j < k {
        AllocRest(bs, k, size, j);
      }
    }
    if Live(bs, addr, sz) {
      var j :| 0 <= j < |bs| && bs[j] == Blk(addr, sz, false);
      AllocRest(bs, k, size, j);
    }
  }

  // Everything around the block taken keeps its place in the list.
  lemma AllocRest(bs: seq<Blk>, k: nat, size: nat, j: nat)
    requires k < |bs| && size <= bs[k].size && j < |bs| && j != k
    ensures var out, grown := AllocAt(bs, k, size), |Taken(bs[k], size)| - 1;
            && 0 <= grown <= 1 && |out| == |bs| + grown
            && out[if j < k then j else j + grown] == bs[j]
  {
  }

  lemma OtherAddresses(bs: seq<Blk>, at: nat, k: nat)
    requires Tiles(bs, at) && k < |bs|
    ensures forall j :: 0 <= j < |bs| && j != k ==> bs[j].addr != bs[k].addr
  {
    hide Tiles;
    forall j | 0 <= j < |bs| && j != k
      ensures bs[j].addr != bs[k].addr
    {
      if j < k {
        PayloadsApart(bs, at, j, k);
      } else {
        PayloadsApart(bs, at, k, j);
      }
    }
  }

  lemma FreeLive(bs: seq<Blk>, at: nat, k: nat, addr: nat, sz: nat)
    requires Tiles(bs, at) && k < |bs| && !bs[k].free
    ensures Live(FreeAt(bs, k), addr, sz) <==> Live(bs, addr, sz) && addr != bs[k].addr
  {
    hide Tiles;
    var out := FreeAt(bs, k);
    var lost := |bs| - |out|;
    assert forall j :: 0 <= j < k ==> out[j] == bs[j];
    assert forall j :: k < j < |out| ==> out[j] == bs[j + lost];
    OtherAddresses(bs, at, k);
    if Live(bs, addr, sz) && addr != bs[k].addr {
      var j :| 0 <= j < |bs| && bs[j] == Blk(addr, sz, false);
      if j > k {
        assert out[j - lost] == bs[j];
      }
    }
  }

  // ------------------------------------------------------------------ giving back in stack order

  // No two neighbours are free.
  ghost predicate Coalesced(bs: seq<Blk>) {
    forall k :: 0 <= k < |bs| - 1 ==> !(bs[k].free && bs[k + 1].free)
  }

  lemma {:induction false} IndexAfterAlloc(bs: seq<Blk>, at: nat, k: nat, size: nat)
    requires Tiles(bs, at) && k < |bs| && size <= bs[k].size
    ensures IndexOf(AllocAt(bs, k, size), bs[k].addr) == k
  {
    var out := AllocAt(bs, k, size);
    assert out[k].addr == bs[k].addr;
    forall j | 0 <= j < k
      ensures out[j].addr != bs[k].addr
    {
      PayloadsApart(bs, at, j, k);
    }
  }

  // Giving a block straight back restores the heap exactly when it was split off or its successor is in use.
  lemma AllocFreeExact(bs: seq<Blk>, at: nat, size: nat)
    requires Tiles(bs, at) && FirstFit(bs, size) >= 0
    ensures var k := FirstFit(bs, size);
            Free(Alloc(bs, size), bs[k].addr) == bs <==>
            Splits(bs[k], size) || k + 1 == |bs| || !bs[k + 1].free
  {
    var k := FirstFit(bs, size);
    IndexAfterAlloc(bs, at, k, size);
    if Splits(bs[k], size) {
      BackToWhole(bs, k, size);
    } else {
      BackUnsplit(bs, k, size);
    }
  }

  lemma BackToWhole(bs: seq<Blk>, k: nat, size: nat)
    requires k < |bs| && bs[k].free && Splits(bs[k], size)
    ensures FreeAt(AllocAt(bs, k, size), k) == bs
  {
    var out := AllocAt(bs, k, size);
    var taken := Taken(bs[k], size);
    assert out[k] == taken[0] && out[k + 1] == taken[1];
    assert out[..k] == bs[..k] && out[k + 2..] == bs[k + 1..];
    assert bs == bs[..k] + [bs[k]] + bs[k + 1..];
  }

  lemma BackUnsplit(bs: seq<Blk>, k: nat, size: nat)
    requires k < |bs| && bs[k].free && size <= bs[k].size && !Splits(bs[k], size)
    ensures FreeAt(AllocAt(bs, k, size), k) == bs <==> k + 1 == |bs| || !bs[k + 1].free
  {
    var out := AllocAt(bs, k, size);
    assert out == bs[k := bs[k].(free := false)];
    if k + 1 < |bs| && bs[k + 1].free {
      assert |FreeAt(out, k)| == |bs| - 1;
    } else {
      assert FreeAt(out, k) == bs;
    }
  }

  lemma AllocCoalesced(bs: seq<Blk>, size: nat)
    requires Coalesced(bs) && FirstFit(bs, size) >= 0
    ensures Coalesced(Alloc(bs, size))
  {
    var k, out := FirstFit(bs, size), Alloc(bs, size);
    var grown := |Taken(bs[k], size)| - 1;
    assert out[k] == Taken(bs[k], size)[0];
    forall j | 0 <= j < |out| - 1
      ensures !(out[j].free && out[j + 1].free)
    {
      hide Alloc, AllocAt, Taken, FirstFit;
      if j + 1 < k {
        AllocRest(bs, k, size, j);
        AllocRest(bs, k, size, j + 1);
      } else if j > k + grown {
        AllocRest(bs, k, size, j - grown);
        AllocRest(bs, k, size, j + 1 - grown);
      } else if j == k + grown && j > k {
        AllocRest(bs, k, size, j);
      }
    }
  }

  // A properly nested run: each request frees what it got after the run inside it; kfree ignores NULL.
  datatype Nest = Done | Use(size: nat, inside: Nest, next: Nest)

  function Exec(bs: seq<Blk>, n: Nest): seq<Blk>
    decreases n
  {
    match n
    case Done => bs
    case Use(size, inside, next) =>
      var k := FirstFit(bs, size);
      if k < 0 then Exec(Exec(bs, inside), next)
      else Exec(Free(Exec(Alloc(bs, size), inside), bs[k].addr), next)
  }

  ghost predicate Aligned(n: Nest) {
    match n
    case Done => true
    case Use(size, inside, next) => size % ALIGNMENT == 0 && Aligned(inside) && Aligned(next)
  }

  // From any heap without free neighbours, every properly nested run leaves the heap exactly as it found it.
  lemma {:induction false} NestedRunRestores(bs: seq<Blk>, at: nat, n: Nest)
    requires Tiles(bs, at) && Coalesced(bs) && Aligned(n)
    ensures Exec(bs, n) == bs
    decreases n
  {
    match n
    case Done =>
    case Use(size, inside, next) =>
      var k := FirstFit(bs, size);
      if k < 0 {
        NestedRunRestores(bs, at, inside);
        NestedRunRestores(bs, at, next);
      } else {
        AllocKeepsTiles(bs, at, size);
        AllocCoalesced(bs, size);
        NestedRunRestores(Alloc(bs, size), at, inside);
        AllocFreeExact(bs, at, size);
        NestedRunRestores(bs, at, next);
      }
  }

  // The heap mem_init makes: one free block.
  function Initial(start: nat): seq<Blk>
    requires start + HEADER_SIZE <= MEMORY_END
  {
    [Blk(start, MEMORY_END - start - HEADER_SIZE, true)]
  }

  lemma StackOrderRestores(start: nat, n: Nest)
    requires start % ALIGNMENT == 0 && start + HEADER_SIZE < MEMORY_END && Aligned(n)
    ensures Exec(Initial(start), n) == Initial(start)
  {
    assert Initial(start)[1..] == [];
    NestedRunRestores(Initial(start), start, n);
  }

  // ------------------------------------------------------------------ any run on live pointers

  datatype Event = Get(size: nat) | Give(addr: nat)

  ghost predicate Allowed(bs: seq<Blk>, e: Event) {
    match e
    case Get(size) => size % ALIGNMENT == 0
    case Give(addr) => InUse(bs, addr)
  }

  function Apply(bs: seq<Blk>, e: Event): seq<Blk> {
    match e
    case Get(size) => Alloc(bs, size)
    case Give(addr) => Free(bs, addr)
  }

  ghost predicate AllowedRun(bs: seq<Blk>, es: seq<Event>)
    decreases |es|
  {
    es == [] || (Allowed(bs, es[0]) && AllowedRun(Apply(bs, es[0]), es[1..]))
  }

  function ApplyRun(bs: seq<Blk>, es: seq<Event>): seq<Blk>
    decreases |es|
  {
    if es == [] then bs else ApplyRun(Apply(bs, es[0]), es[1..])
  }

  lemma LiveIndex(bs: seq<Blk>, at: nat, addr: nat, size: nat)
    requires Tiles(bs, at) && Live(bs, addr, size)
    ensures var k := IndexOf(bs, addr); k >= 0 && bs[k] == Blk(addr, size, false)
  {
    var j :| 0 <= j < |bs| && bs[j] == Blk(addr, size, false);
    var k := IndexOf(bs, addr);
    if k < j {
      PayloadsApart(bs, at, k, j);
    }
  }

  lemma ApplyKeeps(bs: seq<Blk>, at: nat, e: Event, addr: nat, size: nat)
    requires Tiles(bs, at) && Allowed(bs, e)
    ensures Tiles(Apply(bs, e), at)
    ensures Live(bs, addr, size) && e != Give(addr) ==> Live(Apply(bs, e), addr, size)
  {
    match e
    case Get(n) =>
      AllocKeepsTiles(bs, at, n);
      if FirstFit(bs, n) >= 0 {
        AllocLive(bs, n, addr, size);
      }
    case Give(a) =>
      var j :| 0 <= j < |bs| && bs[j].addr == a && !bs[j].free;
      LiveIndex(bs, at, a, bs[j].size);
      FreeKeepsTiles(bs, at, IndexOf(bs, a));
      FreeLive(bs, at, IndexOf(bs, a), addr, size);
  }

  // In any run on live pointers the blocks tile the heap, a payload keeps its place and size until it is given back,
  // and no block becomes empty unless a request of size zero splits one.
  lemma {:induction false} RunKeeps(bs: seq<Blk>, at: nat, es: seq<Event>, addr: nat, size: nat)
    requires Tiles(bs, at) && AllowedRun(bs, es)
    ensures Tiles(ApplyRun(bs, es), at)
    ensures Live(bs, addr, size) && Give(addr) !in es ==> Live(ApplyRun(bs, es), addr, size)
    ensures NoneEmpty(bs) && NeverSplitsToNothing(bs, es) ==> NoneEmpty(ApplyRun(bs, es))
    decreases |es|
  {
    hide NoneEmpty;
    if es != [] {
      ApplyKeeps(bs, at, es[0], addr, size);
      if NoneEmpty(bs) {
        StepSizes(bs, es[0]);
      }
      RunKeeps(Apply(bs, es[0]), at, es[1..], addr, size);
    }
  }

  // ------------------------------------------------------------------ sizes over a run

  // A request of size zero whose first fit is large enough to be split.
  ghost predicate SplitsToNothing(bs: seq<Blk>, e: Event) {
    e == Get(0) && FirstFit(bs, 0) >= 0 && Splits(bs[FirstFit(bs, 0)], 0)
  }

  ghost predicate NeverSplitsToNothing(bs: seq<Blk>, es: seq<Event>)
    decreases |es|
  {
    es == [] || (!SplitsToNothing(bs, es[0]) && NeverSplitsToNothing(Apply(bs, es[0]), es[1..]))
  }

  // No block is empty, now and after every step.
  ghost predicate AlwaysNoneEmpty(bs: seq<Blk>, es: seq<Event>)
    decreases |es|
  {
    NoneEmpty(bs) && (es == [] || AlwaysNoneEmpty(Apply(bs, es[0]), es[1..]))
  }

  lemma FreeNoneEmpty(bs: seq<Blk>, k: nat)
    requires NoneEmpty(bs) && k < |bs|
    ensures NoneEmpty(FreeAt(bs, k))
  {
    var out := FreeAt(bs, k);
    var lost := |bs| - |out|;
    forall j | 0 <= j < |out| && j != k
      ensures out[j].size > 0
    {
      assert out[j] == bs[if j < k then j else j + lost];
    }
    assert out[k].size >= bs[k].size;
  }

  lemma StepSizes(bs: seq<Blk>, e: Event)
    requires NoneEmpty(bs)
    ensures NoneEmpty(Apply(bs, e)) <==> !SplitsToNothing(bs, e)
  {
    hide NoneEmpty;
    match e
    case Get(size) =>
      if FirstFit(bs, size) >= 0 {
        AllocNoneEmpty(bs, size);
      }
    case Give(addr) =>
      if IndexOf(bs, addr) >= 0 {
        FreeNoneEmpty(bs, IndexOf(bs, addr));
      }
  }

  // Over any run, sizes stay positive at every step exactly when no request splits a block to nothing.
  lemma {:induction false} SizesExact(bs: seq<Blk>, es: seq<Event>)
    requires NoneEmpty(bs)
    ensures AlwaysNoneEmpty(bs, es) <==> NeverSplitsToNothing(bs, es)
    decreases |es|
  {
    hide NoneEmpty, Apply, SplitsToNothing;
    if es != [] {
      StepSizes(bs, es[0]);
      if NoneEmpty(Apply(bs, es[0])) {
        SizesExact(Apply(bs, es[0]), es[1..]);
      }
    }
  }

  // What a call of kmalloc asks the list for.
  function Asked(request: U32): Event { Get(AlignUp(request)) }

  // It asks for nothing exactly when the rounding wrapped, or nothing was requested.
  lemma AskedNothing(request: U32)
    ensures Asked(request) == Get(0) <==> request == 0 || request > MAX_REQUEST
  {
    AlignUpExact(request);
  }

  // So a run without such requests keeps every size positive.
  lemma {:induction false} OrdinaryRunSizes(bs: seq<Blk>, es: seq<Event>)
    requires NoneEmpty(bs)
    requires forall i :: 0 <= i < |es| && es[i].Get? ==> exists request: U32 :: 0 < request <= MAX_REQUEST && es[i] == Asked(request)
    ensures NeverSplitsToNothing(bs, es) && AlwaysNoneEmpty(bs, es)
    decreases |es|
  {
    hide NoneEmpty, Apply, SplitsToNothing, Asked;
    if es != [] {
      if es[0].Get? {
        var request: U32 :| 0 < request <= MAX_REQUEST && es[0] == Asked(request);
        AskedNothing(request);
      }
      NotNothing(bs, es[0]);
      StepSizes(bs, es[0]);
      OrdinaryRunSizes(Apply(bs, es[0]), es[1..]);
    }
  }

  lemma NotNothing(bs: seq<Blk>, e: Event)
    requires e != Get(0)
    ensures !SplitsToNothing(bs, e)
  {
  }

  // A request of 2^32 - 1 bytes on the initial heap: a block of no bytes, and the rest free.
  lemma WrappedRequest(start: nat)
    requires start % ALIGNMENT == 0 && start + 100 < MEMORY_END
    ensures Asked(0xFFFF_FFFF) == Get(0)
    ensures Apply(Initial(start), Asked(0xFFFF_FFFF)) ==
            [Blk(start, 0, false), Blk(start + HEADER_SIZE, MEMORY_END - start - 2 * HEADER_SIZE, true)]
    ensures NoneEmpty(Initial(start)) && !NoneEmpty(Apply(Initial(start), Asked(0xFFFF_FFFF)))
  {
    AskedNothing(0xFFFF_FFFF);
    var out := Apply(Initial(start), Get(0));
    assert FirstFit(Initial(start), 0) == 0;
    assert out[0] == Blk(start, 0, false);
  }

  // ------------------------------------------------------------------ one call, block by block

  // The first free block of at least n bytes.
  ghost predicate FirstFree(bs: seq<Blk>, n: nat, k: nat) {
    k < |bs| && bs[k].free && bs[k].size >= n && forall j :: 0 <= j < k ==> !bs[j].free || bs[j].size < n
  }

  // The block is handed out whole when it has less than 24 bytes over, otherwise its first n bytes are, and the rest is
  // a free block right behind them.
  ghost predicate HandedOut(bs: seq<Blk>, out: seq<Blk>, n: nat, k: nat)
    requires k < |bs|
  {
    var b := bs[k];
    if b.size < n + 24 then |out| == |bs| && out[..k] == bs[..k] && out[k] == Blk(b.addr, b.size, false) && out[k + 1..] == bs[k + 1..]
    else
      && |out| == |bs| + 1 && out[..k] == bs[..k] && out[k] == Blk(b.addr, n, false) && b.size - n - 16 >= 8
      && out[k + 1] == Blk(b.addr + 16 + n, b.size - n - 16, true) && out[k + 2..] == bs[k + 1..]
  }

  // What a request for n bytes does: the payload begins 16 bytes into the first block that fits; none, no change.
  ghost predicate Given(bs: seq<Blk>, out: seq<Blk>, n: nat, ptr: nat) {
    || (exists k: nat :: FirstFree(bs, n, k) && ptr == bs[k].addr + 16 && HandedOut(bs, out, n, k))
    || (ptr == 0 && out == bs && forall k :: 0 <= k < |bs| ==> !bs[k].free || bs[k].size < n)
  }

  lemma AllocGiven(bs: seq<Blk>, n: nat)
    ensures var k := FirstFit(bs, n); Given(bs, Alloc(bs, n), n, if k < 0 then 0 else Payload(bs[k]))
  {
    var k := FirstFit(bs, n);
    if k >= 0 {
      TakenAsSaid(bs, k, n);
      assert FirstFree(bs, n, k);
    }
  }

  lemma TakenAsSaid(bs: seq<Blk>, k: nat, n: nat)
    requires k < |bs| && n <= bs[k].size
    ensures HandedOut(bs, AllocAt(bs, k, n), n, k)
  {
    var out, b := AllocAt(bs, k, n), bs[k];
    var taken := Taken(b, n);
    assert out[k] == taken[0] && out[..k] == bs[..k];
    if b.size < n + 24 {
      assert |taken| == 1 && out[k + 1..] == bs[k + 1..];
    } else {
      assert |taken| == 2 && out[k + 1] == taken[1] && out[k + 2..] == bs[k + 1..];
    }
  }

  // What giving the block at addr back does: it becomes free and takes in the block behind it, if that is free, with its header.
  ghost predicate GivenBack(bs: seq<Blk>, out: seq<Blk>, addr: nat) {
    exists k: nat :: k < |bs| && bs[k].addr == addr && (forall j :: 0 <= j < k ==> bs[j].addr != addr) && JoinedAt(bs, out, k)
  }

  ghost predicate JoinedAt(bs: seq<Blk>, out: seq<Blk>, k: nat)
    requires k < |bs|
  {
    if k + 1 < |bs| && bs[k + 1].free
    then |out| == |bs| - 1 && out[..k] == bs[..k] && out[k] == Blk(bs[k].addr, bs[k].size + 16 + bs[k + 1].size, true)
         && out[k + 1..] == bs[k + 2..]
    else |out| == |bs| && out[..k] == bs[..k] && out[k] == Blk(bs[k].addr, bs[k].size, true) && out[k + 1..] == bs[k + 1..]
  }

  lemma FreeGivenBack(bs: seq<Blk>, addr: nat)
    requires IndexOf(bs, addr) >= 0
    ensures GivenBack(bs, Free(bs, addr), addr)
  {
    var k := IndexOf(bs, addr);
    var out := FreeAt(bs, k);
    assert out[..k] == bs[..k];
    if k + 1 < |bs| && bs[k + 1].free {
      assert out[k + 1..] == bs[k + 2..];
    } else {
      assert out[k + 1..] == bs[k + 1..];
    }
    assert JoinedAt(bs, out, k);
  }

  // ------------------------------------------------------------------ no more than was asked for

  // Some request of the run asked for the block's size, or for up to 23 bytes less.
  ghost predicate AskedFor(es: seq<Event>, size: nat) {
    exists i :: 0 <= i < |es| && es[i].Get? && es[i].size <= size < es[i].size + 24
  }

  ghost predicate AllAskedFor(bs: seq<Blk>, es: seq<Event>) {
    forall k :: 0 <= k < |bs| && !bs[k].free ==> AskedFor(es, bs[k].size)
  }

  lemma MoreAsked(bs: seq<Blk>, es: seq<Event>, e: Event)
    requires AllAskedFor(bs, es)
    ensures AllAskedFor(bs, es + [e]) && e in es + [e]
  {
    assert (es + [e])[|es|] == e;
    forall k | 0 <= k < |bs| && !bs[k].free
      ensures AskedFor(es + [e], bs[k].size)
    {
      var i :| 0 <= i < |es| && es[i].Get? && es[i].size <= bs[k].size < es[i].size + 24;
      assert (es + [e])[i] == es[i];
    }
  }

  lemma StepAskedFor(bs: seq<Blk>, es: seq<Event>, e: Event)
    requires AllAskedFor(bs, es)
    ensures AllAskedFor(Apply(bs, e), es + [e])
  {
    hide AllAskedFor, HandedOut, AllocAt, FreeAt;
    MoreAsked(bs, es, e);
    match e
    case Get(n) =>
      var k := FirstFit(bs, n);
      if k >= 0 {
        TakenAsSaid(bs, k, n);
        UsedAfterGet(bs, AllocAt(bs, k, n), n, k, es + [e]);
      }
    case Give(addr) =>
      if IndexOf(bs, addr) >= 0 {
        UsedAfterGive(bs, IndexOf(bs, addr), es + [e]);
      }
  }

  lemma UsedAfterGive(bs: seq<Blk>, k: nat, es: seq<Event>)
    requires k < |bs| && AllAskedFor(bs, es)
    ensures AllAskedFor(FreeAt(bs, k), es)
  {
    hide AskedFor, FreeAt;
    FreedUsed(bs, k);
  }

  lemma UsedAfterGet(bs: seq<Blk>, out: seq<Blk>, n: nat, k: nat, es: seq<Event>)
    requires k < |bs| && n <= bs[k].size && HandedOut(bs, out, n, k) && Get(n) in es && AllAskedFor(bs, es)
    ensures AllAskedFor(out, es)
  {
    forall j | 0 <= j < |out| && !out[j].free
      ensures AskedFor(es, out[j].size)
    {
      if j < k {
        assert out[..k][j] == bs[..k][j];
      } else if j > k {
        var lag := |out| - |bs|;
        assert j > k + lag ==> out[k + lag + 1..][j - k - lag - 1] == bs[k + 1..][j - k - lag - 1];
      }
    }
  }

  lemma FreedUsed(bs: seq<Blk>, k: nat)
    requires k < |bs|
    ensures forall j :: 0 <= j < |FreeAt(bs, k)| && !FreeAt(bs, k)[j].free ==> FreeAt(bs, k)[j] in bs
  {
    var out := FreeAt(bs, k);
    var lost := |bs| - |out|;
    forall j | 0 <= j < |out| && !out[j].free
      ensures out[j] in bs
    {
      assert out[j] == bs[if j < k then j else j + lost];
    }
  }

  // Over any run, every block in use was asked for: it has the size of some request of the run, or at most 23 bytes more.
  lemma {:induction false} RunAskedFor(bs: seq<Blk>, before: seq<Event>, es: seq<Event>)
    requires AllAskedFor(bs, before)
    ensures AllAskedFor(ApplyRun(bs, es), before + es)
    decreases |es|
  {
    hide AllAskedFor, Apply;
    if es == [] {
      assert before + es == before;
    } else {
      StepAskedFor(bs, before, es[0]);
      RunAskedFor(Apply(bs, es[0]), before + [es[0]], es[1..]);
      assert before + [es[0]] + es[1..] == before + es;
    }
  }
}
