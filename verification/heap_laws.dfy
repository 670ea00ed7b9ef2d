/** Which orders of freeing give the heap back whole, coalescing being forward-only and one step deep (kernel/memory.c:101-123). */
module HeapLaws {
  import opened HeapModel

  // ------------------------------------------------------------------ one kfree

  // Freeing a block in use leaves no two free neighbours exactly when the block before it is in use.
  lemma FreeCoalescesExactly(bs: seq<Blk>, k: nat)
    requires Coalesced(bs) && k < |bs| && !bs[k].free
    ensures Coalesced(FreeAt(bs, k)) <==> k == 0 || !bs[k - 1].free
  {
    var out := FreeAt(bs, k);
    FreedList(bs, k);
    if k > 0 && bs[k - 1].free {
      assert out[k - 1].free && out[k].free;
    }
  }

  // The blocks before the freed one stay, those behind it move up when it took in its successor.
  lemma FreedList(bs: seq<Blk>, k: nat)
    requires k < |bs|
    ensures var out, lost := FreeAt(bs, k), |bs| - |FreeAt(bs, k)|;
            && lost == (if k + 1 < |bs| && bs[k + 1].free then 1 else 0)
            && out[k].free && (forall j :: 0 <= j < k ==> out[j] == bs[j])
            && (forall j :: k < j < |out| ==> out[j] == bs[j + lost])
  {
  }

  // Free neighbours are never joined by freeing another block.
  lemma FreeNeverJoins(bs: seq<Blk>, k: nat)
    requires !Coalesced(bs) && k < |bs| && !bs[k].free
    ensures !Coalesced(FreeAt(bs, k))
  {
    var out, lost := FreeAt(bs, k), |bs| - |FreeAt(bs, k)|;
    FreedList(bs, k);
    var j :| 0 <= j < |bs| - 1 && bs[j].free && bs[j + 1].free;
    if j + 1 < k {
      assert out[j].free && out[j + 1].free;
    } else {
      assert out[j - lost].free && out[j + 1 - lost].free;
    }
  }

  // ------------------------------------------------------------------ whole runs

  // A kfree with no free block right before the one given back.
  ghost predicate CleanGive(bs: seq<Blk>, addr: nat) {
    IndexOf(bs, addr) <= 0 || !bs[IndexOf(bs, addr) - 1].free
  }

  ghost predicate CleanRun(bs: seq<Blk>, es: seq<Event>)
    decreases |es|
  {
    es == [] || ((es[0].Give? ==> CleanGive(bs, es[0].addr)) && CleanRun(Apply(bs, es[0]), es[1..]))
  }

  // No two free neighbours, now and after every step.
  ghost predicate AlwaysCoalesced(bs: seq<Blk>, es: seq<Event>)
    decreases |es|
  {
    Coalesced(bs) && (es == [] || AlwaysCoalesced(Apply(bs, es[0]), es[1..]))
  }

  lemma InUseIndex(bs: seq<Blk>, at: nat, addr: nat)
    requires Tiles(bs, at) && InUse(bs, addr)
    ensures IndexOf(bs, addr) >= 0 && !bs[IndexOf(bs, addr)].free
  {
    var j :| 0 <= j < |bs| && bs[j].addr == addr && !bs[j].free;
    LiveIndex(bs, at, addr, bs[j].size);
  }

  lemma StepCoalesces(bs: seq<Blk>, at: nat, e: Event)
    requires Tiles(bs, at) && Coalesced(bs) && Allowed(bs, e)
    ensures Coalesced(Apply(bs, e)) <==> (e.Give? ==> CleanGive(bs, e.addr))
  {
    match e
    case Get(size) =>
      if FirstFit(bs, size) >= 0 {
        AllocCoalesced(bs, size);
      }
    case Give(addr) =>
      InUseIndex(bs, at, addr);
      FreeCoalescesExactly(bs, IndexOf(bs, addr));
  }

  lemma StepTiles(bs: seq<Blk>, at: nat, e: Event)
    requires Tiles(bs, at) && Allowed(bs, e)
    ensures Tiles(Apply(bs, e), at)
  {
    ApplyKeeps(bs, at, e, 0, 0);
  }

  // Along a whole run free neighbours never arise exactly when every kfree is clean.
  lemma {:induction false} CleanRunsCoalesce(bs: seq<Blk>, at: nat, es: seq<Event>)
    requires Tiles(bs, at) && Coalesced(bs) && AllowedRun(bs, es)
    ensures AlwaysCoalesced(bs, es) <==> CleanRun(bs, es)
    ensures CleanRun(bs, es) ==> Coalesced(ApplyRun(bs, es))
    decreases |es|
  {
    hide Apply, Coalesced, Tiles, CleanGive, Allowed;
    if es != [] {
      StepTiles(bs, at, es[0]);
      StepCoalesces(bs, at, es[0]);
      if Coalesced(Apply(bs, es[0])) {
        CleanRunsCoalesce(Apply(bs, es[0]), at, es[1..]);
      }
    }
  }

  ghost predicate OnlyGives(es: seq<Event>) { forall i :: 0 <= i < |es| ==> es[i].Give? }

  lemma {:induction false} GivesNeverJoin(bs: seq<Blk>, at: nat, es: seq<Event>)
    requires Tiles(bs, at) && !Coalesced(bs) && AllowedRun(bs, es) && OnlyGives(es)
    ensures !Coalesced(ApplyRun(bs, es))
    decreases |es|
  {
    hide Coalesced, Tiles;
    if es != [] {
      StepTiles(bs, at, es[0]);
      InUseIndex(bs, at, es[0].addr);
      FreeNeverJoins(bs, IndexOf(bs, es[0].addr));
      GivesNeverJoin(Apply(bs, es[0]), at, es[1..]);
    }
  }

  // While blocks are only given back, the outcome is exactly as clean as the order.
  lemma {:induction false} GivesCoalesceExactly(bs: seq<Blk>, at: nat, es: seq<Event>)
    requires Tiles(bs, at) && Coalesced(bs) && AllowedRun(bs, es) && OnlyGives(es)
    ensures Coalesced(ApplyRun(bs, es)) <==> CleanRun(bs, es)
    decreases |es|
  {
    hide Apply, Coalesced, Tiles, CleanGive, Allowed;
    if es != [] {
      StepTiles(bs, at, es[0]);
      StepCoalesces(bs, at, es[0]);
      if Coalesced(Apply(bs, es[0])) {
        GivesCoalesceExactly(Apply(bs, es[0]), at, es[1..]);
      } else {
        GivesNeverJoin(Apply(bs, es[0]), at, es[1..]);
      }
    }
  }

  // ------------------------------------------------------------------ giving everything back

  ghost predicate NothingInUse(bs: seq<Blk>) { forall k :: 0 <= k < |bs| ==> bs[k].free }

  // With nothing in use, no free neighbours means one block.
  lemma AllFreeIsOne(bs: seq<Blk>)
    requires bs != [] && NothingInUse(bs)
    ensures Coalesced(bs) <==> |bs| == 1
  {
    if |bs| > 1 {
      assert bs[0].free && bs[1].free;
    }
  }

  // A run from the initial heap that ends with nothing in use ends in the initial heap exactly when it ends without free neighbours.
  lemma DrainedRun(start: nat, es: seq<Event>)
    requires start % ALIGNMENT == 0 && start + HEADER_SIZE < MEMORY_END && AllowedRun(Initial(start), es)
    requires NothingInUse(ApplyRun(Initial(start), es))
    ensures ApplyRun(Initial(start), es) == Initial(start) <==> Coalesced(ApplyRun(Initial(start), es))
  {
    var bs := ApplyRun(Initial(start), es);
    InitialTiles(start);
    RunKeeps(Initial(start), start, es, 0, 0);
    AllFreeIsOne(bs);
    if |bs| == 1 {
      assert bs[1..] == [];
      assert bs[0] == Initial(start)[0];
      assert bs == [bs[0]];
    }
  }

  lemma InitialTiles(start: nat)
    requires start % ALIGNMENT == 0 && start + HEADER_SIZE < MEMORY_END
    ensures Tiles(Initial(start), start) && Coalesced(Initial(start))
  {
    assert Initial(start)[1..] == [];
  }

  // A caller who never gives back a block right behind a free one gets the whole heap back in the end.
  lemma CleanRunRestores(start: nat, es: seq<Event>)
    requires start % ALIGNMENT == 0 && start + HEADER_SIZE < MEMORY_END && AllowedRun(Initial(start), es)
    requires NothingInUse(ApplyRun(Initial(start), es)) && CleanRun(Initial(start), es)
    ensures ApplyRun(Initial(start), es) == Initial(start)
  {
    InitialTiles(start);
    CleanRunsCoalesce(Initial(start), start, es);
    DrainedRun(start, es);
  }

  // When the requests come first, the order of giving back restores the heap exactly when it is clean.
  lemma FreeingOrderExact(start: nat, gets: seq<Event>, gives: seq<Event>)
    requires start % ALIGNMENT == 0 && start + HEADER_SIZE < MEMORY_END && AllowedRun(Initial(start), gets + gives)
    requires (forall i :: 0 <= i < |gets| ==> gets[i].Get?) && OnlyGives(gives)
    requires NothingInUse(ApplyRun(Initial(start), gets + gives))
    ensures ApplyRun(Initial(start), gets + gives) == Initial(start)
      <==> CleanRun(ApplyRun(Initial(start), gets), gives)
  {
    var bs := ApplyRun(Initial(start), gets);
    InitialTiles(start);
    RunsJoin(Initial(start), gets, gives);
    GetsAreClean(Initial(start), gets);
    CleanRunsCoalesce(Initial(start), start, gets);
    RunKeeps(Initial(start), start, gets, 0, 0);
    GivesCoalesceExactly(bs, start, gives);
    DrainedRun(start, gets + gives);
  }

  lemma {:induction false} RunsJoin(bs: seq<Blk>, es: seq<Event>, fs: seq<Event>)
    ensures ApplyRun(bs, es + fs) == ApplyRun(ApplyRun(bs, es), fs)
    ensures AllowedRun(bs, es + fs) <==> AllowedRun(bs, es) && AllowedRun(ApplyRun(bs, es), fs)
    decreases |es|
  {
    hide Apply, Allowed;
    if es == [] {
      assert es + fs == fs;
    } else {
      assert (es + fs)[1..] == es[1..] + fs;
      RunsJoin(Apply(bs, es[0]), es[1..], fs);
    }
  }

  lemma {:induction false} GetsAreClean(bs: seq<Blk>, gets: seq<Event>)
    requires forall i :: 0 <= i < |gets| ==> gets[i].Get?
    ensures CleanRun(bs, gets)
    decreases |gets|
  {
    hide Apply;
    if gets != [] {
      GetsAreClean(Apply(bs, gets[0]), gets[1..]);
    }
  }

  // ------------------------------------------------------------------ counting free neighbours

  // The pairs of free neighbours.
  ghost function Seams(bs: seq<Blk>): nat {
    if |bs| < 2 then 0 else (if bs[0].free && bs[1].free then 1 else 0) + Seams(bs[1..])
  }

  ghost function Edge(left: seq<Blk>, right: seq<Blk>): nat {
    if left != [] && right != [] && left[|left| - 1].free && right[0].free then 1 else 0
  }

  lemma {:induction false} SeamsJoin(left: seq<Blk>, right: seq<Blk>)
    ensures Seams(left + right) == Seams(left) + Edge(left, right) + Seams(right)
    decreases |left|
  {
    if left == [] {
      assert left + right == right;
    } else {
      assert (left + right)[1..] == left[1..] + right;
      SeamsJoin(left[1..], right);
    }
  }

  lemma {:induction false} SeamlessIsCoalesced(bs: seq<Blk>)
    ensures Seams(bs) == 0 <==> Coalesced(bs)
  {
    if |bs| >= 2 {
      SeamlessIsCoalesced(bs[1..]);
      CoalescedTail(bs);
    }
  }

  lemma CoalescedTail(bs: seq<Blk>)
    requires |bs| >= 2
    ensures Coalesced(bs) <==> !(bs[0].free && bs[1].free) && Coalesced(bs[1..])
  {
    if !(bs[0].free && bs[1].free) && Coalesced(bs[1..]) {
      forall k | 0 <= k < |bs| - 1
        ensures !(bs[k].free && bs[k + 1].free)
      {
        assert k > 0 ==> bs[k] == bs[1..][k - 1] && bs[k + 1] == bs[1..][k];
      }
    }
    if Coalesced(bs) {
      forall k | 0 <= k < |bs[1..]| - 1
        ensures !(bs[1..][k].free && bs[1..][k + 1].free)
      {
        assert bs[1..][k] == bs[k + 1] && bs[1..][k + 1] == bs[k + 2];
      }
    }
  }

  // What a kfree adds: one pair when the block before is free.
  ghost function Made(bs: seq<Blk>, e: Event): nat {
    if e.Give? && !CleanGive(bs, e.addr) then 1 else 0
  }

  // What a kmalloc takes away: the pair in front of the block it takes, and the one behind when the block is not split.
  ghost function Mended(bs: seq<Blk>, e: Event): nat {
    if e.Give? || FirstFit(bs, e.size) < 0 then 0
    else
      var k := FirstFit(bs, e.size);
      Edge(bs[..k], bs[k..]) + if Splits(bs[k], e.size) then 0 else Edge(bs[..k + 1], bs[k + 1..])
  }

  lemma SeamsAround(bs: seq<Blk>, k: nat)
    requires k < |bs|
    ensures Seams(bs) == Seams(bs[..k]) + Edge(bs[..k], bs[k..]) + Edge(bs[..k + 1], bs[k + 1..]) + Seams(bs[k + 1..])
  {
    assert bs == bs[..k] + bs[k..] && bs[k..] == [bs[k]] + bs[k + 1..];
    SeamsJoin(bs[..k], bs[k..]);
    SeamsJoin([bs[k]], bs[k + 1..]);
  }

  lemma SeamsReplaced(left: seq<Blk>, mid: seq<Blk>, right: seq<Blk>)
    ensures Seams(left + mid + right) == Seams(left) + Edge(left, mid + right) + Seams(mid + right)
    ensures Seams(mid + right) == Seams(mid) + Edge(mid, right) + Seams(right)
  {
    assert left + mid + right == left + (mid + right);
    SeamsJoin(left, mid + right);
    SeamsJoin(mid, right);
  }

  lemma GetSeams(bs: seq<Blk>, size: nat)
    ensures Seams(Alloc(bs, size)) + Mended(bs, Get(size)) == Seams(bs)
  {
    hide Seams;
    var k := FirstFit(bs, size);
    if k >= 0 {
      var taken := Taken(bs[k], size);
      SeamsAround(bs, k);
      SeamsReplaced(bs[..k], taken, bs[k + 1..]);
      TakenSeams(bs[k], size);
    }
  }

  lemma TakenSeams(b: Blk, size: nat)
    requires size <= b.size
    ensures Seams(Taken(b, size)) == 0
  {
  }

  lemma GiveSeams(bs: seq<Blk>, k: nat)
    requires k < |bs| && !bs[k].free
    ensures Seams(FreeAt(bs, k)) == Seams(bs) + if k > 0 && bs[k - 1].free then 1 else 0
  {
    hide Seams;
    var out := FreeAt(bs, k);
    SeamsAround(bs, k);
    FreedList(bs, k);
    SeamsAround(out, k);
    assert out[..k] == bs[..k];
    if k + 1 < |bs| && bs[k + 1].free {
      assert out[k + 1..] == bs[k + 2..];
      SeamsAround(bs[k + 1..], 0);
      assert bs[k + 1..][1..] == bs[k + 2..] && bs[k + 1..][..0] == [];
      NoSeams(bs[k + 1..][..0]);
    } else {
      assert out[k + 1..] == bs[k + 1..];
    }
  }

  lemma NoSeams(bs: seq<Blk>)
    requires |bs| < 2
    ensures Seams(bs) == 0
  {
  }

  lemma StepSeams(bs: seq<Blk>, at: nat, e: Event)
    requires Tiles(bs, at) && Allowed(bs, e)
    ensures Seams(Apply(bs, e)) + Mended(bs, e) == Seams(bs) + Made(bs, e)
  {
    hide Seams, Edge, Tiles;
    match e
    case Get(size) =>
      GetSeams(bs, size);
    case Give(addr) =>
      InUseIndex(bs, at, addr);
      GiveSeams(bs, IndexOf(bs, addr));
  }

  ghost function MadeInAll(bs: seq<Blk>, es: seq<Event>): nat
    decreases |es|
  {
    if es == [] then 0 else Made(bs, es[0]) + MadeInAll(Apply(bs, es[0]), es[1..])
  }

  ghost function MendedInAll(bs: seq<Blk>, es: seq<Event>): nat
    decreases |es|
  {
    if es == [] then 0 else Mended(bs, es[0]) + MendedInAll(Apply(bs, es[0]), es[1..])
  }

  lemma {:induction false} RunSeams(bs: seq<Blk>, at: nat, es: seq<Event>)
    requires Tiles(bs, at) && AllowedRun(bs, es)
    ensures Seams(ApplyRun(bs, es)) + MendedInAll(bs, es) == Seams(bs) + MadeInAll(bs, es)
    decreases |es|
  {
    hide Apply, Seams, Made, Mended, Tiles, Allowed;
    if es != [] {
      StepTiles(bs, at, es[0]);
      StepSeams(bs, at, es[0]);
      RunSeams(Apply(bs, es[0]), at, es[1..]);
    }
  }

  // Any run that ends with nothing in use ends in the initial heap exactly when later requests took away
  // as many pairs of free neighbours as freeing had left.
  lemma RunRestoresExactly(start: nat, es: seq<Event>)
    requires start % ALIGNMENT == 0 && start + HEADER_SIZE < MEMORY_END && AllowedRun(Initial(start), es)
    requires NothingInUse(ApplyRun(Initial(start), es))
    ensures ApplyRun(Initial(start), es) == Initial(start)
      <==> MadeInAll(Initial(start), es) == MendedInAll(Initial(start), es)
  {
    hide Seams, ApplyRun, MadeInAll, MendedInAll;
    InitialTiles(start);
    SeamlessIsCoalesced(Initial(start));
    RunSeams(Initial(start), start, es);
    SeamlessIsCoalesced(ApplyRun(Initial(start), es));
    DrainedRun(start, es);
  }

  // Two requests given back in the order they were made: everything is free and the heap is in two pieces.
  lemma QueueOrderDoesNot(start: nat)
    requires start % ALIGNMENT == 0 && start + 100 < MEMORY_END
    ensures var es := [Get(8), Get(8), Give(start), Give(start + 24)];
            && AllowedRun(Initial(start), es) && NothingInUse(ApplyRun(Initial(start), es))
            && !CleanRun(Initial(start), es) && ApplyRun(Initial(start), es) != Initial(start)
  {
    var h0 := Initial(start);
    var rest := h0[0].size;
    var es := [Get(8), Get(8), Give(start), Give(start + 24)];
    var h1 := [Blk(start, 8, false), Blk(start + 24, rest - 24, true)];
    var h2 := [Blk(start, 8, false), Blk(start + 24, 8, false), Blk(start + 48, rest - 48, true)];
    var h3 := [Blk(start, 8, true), Blk(start + 24, 8, false), Blk(start + 48, rest - 48, true)];
    var h4 := [Blk(start, 8, true), Blk(start + 24, rest - 24, true)];
    assert Apply(h0, es[0]) == h1;
    assert FirstFit(h1, 8) == 1;
    assert Apply(h1, es[1]) == h2;
    assert Apply(h2, es[2]) == h3 && InUse(h2, start) by { assert h2[0].addr == start; }
    assert IndexOf(h3, start + 24) == 1;
    assert Apply(h3, es[3]) == h4 && InUse(h3, start + 24) by { assert h3[1].addr == start + 24; }
    QueueSteps(h0, h1, h2, h3, h4, es);
  }

  lemma QueueSteps(h0: seq<Blk>, h1: seq<Blk>, h2: seq<Blk>, h3: seq<Blk>, h4: seq<Blk>, es: seq<Event>)
    requires |es| == 4 && Allowed(h0, es[0]) && Allowed(h1, es[1]) && Allowed(h2, es[2]) && Allowed(h3, es[3])
    requires Apply(h0, es[0]) == h1 && Apply(h1, es[1]) == h2 && Apply(h2, es[2]) == h3 && Apply(h3, es[3]) == h4
    requires es[3].Give? && !CleanGive(h3, es[3].addr)
    ensures AllowedRun(h0, es) && ApplyRun(h0, es) == h4 && !CleanRun(h0, es)
  {
    hide Apply, Allowed, CleanGive;
    assert es[1..][1..] == es[2..] && es[2..][1..] == es[3..] && es[3..][1..] == [];
    assert es[1..][0] == es[1] && es[2..][0] == es[2] && es[3..][0] == es[3];
    NoSteps(h4);
    OneStep(h3, es[3..]);
    OneStep(h2, es[2..]);
    OneStep(h1, es[1..]);
    OneStep(h0, es);
  }

  lemma NoSteps(bs: seq<Blk>)
    ensures AllowedRun(bs, []) && ApplyRun(bs, []) == bs && CleanRun(bs, [])
  {
  }

  lemma OneStep(bs: seq<Blk>, es: seq<Event>)
    requires es != []
    ensures ApplyRun(bs, es) == ApplyRun(Apply(bs, es[0]), es[1..])
    ensures AllowedRun(bs, es) <==> Allowed(bs, es[0]) && AllowedRun(Apply(bs, es[0]), es[1..])
    ensures CleanRun(bs, es) <==> (es[0].Give? ==> CleanGive(bs, es[0].addr)) && CleanRun(Apply(bs, es[0]), es[1..])
  {
    hide Apply, Allowed, CleanGive;
  }
}
