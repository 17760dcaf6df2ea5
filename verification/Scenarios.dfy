/** Short runs that reach the states in which what the allocators and the hand-over promise fails. */
module Scenarios {
  import opened Bits
  import opened Blocks
  import opened BuddyTheory
  import opened BuddyMachine
  import opened BuddyRuns
  import opened Buddy
  import opened Wrappers
  import opened TlsfHeap
  import FreeList
  import Handover
  import Slab
  import SlabLayout
  import SlabMachine
  import Tlsf

  /** A pool of 1024 bytes at 64, three blocks allocated, the first two freed in order: the
      merge leaves the third block's back link at the second block's old header. */
  method StaleBackLink() returns (heap: Tlsf.TlsfInner)
    ensures heap.Valid()
    ensures heap.blocks == [Blk(64, 96, true), Blk(192, 32, false), Blk(256, 768, true)]
    ensures 192 in heap.headers && heap.headers[192].prevFree && heap.headers[192].prevPhys == 128
    ensures !LinkedBack(heap.headers, heap.blocks, 0)
  {
    hide Tlsf.TlsfInner.Valid, Tlsf.TlsfInner.Indexed, Tlsf.HeapOk, Tlsf.Classified, FreeList.Listed, PayloadsKept,
      TakenRow, FreedRow, TakenHeaders, FreedHeaders, AllLinkedBack, Live, Tlsf.PoolHeaders, FreeList.WritesIn;
    var headers := map a: nat | a < 1088 && InRange(a, 64, 1024) :: Header(0, false, false, FreeList.NIL);
    var words := map a: nat | a < 1088 && InRange(a, 64, 1024) :: FreeList.Node(FreeList.NIL, FreeList.NIL);
    heap := new Tlsf.TlsfInner(headers, words);
    var ok := heap.AddPool(64, 1024);
    AllocLast(heap, [], Blk(64, 960, true));
    AllocLast(heap, [Blk(64, 32, false)], Blk(128, 896, true));
    AllocLast(heap, [Blk(64, 32, false), Blk(128, 32, false)], Blk(192, 832, true));
    FreeFirst(heap);
    FreeSecond(heap);
  }

  /** Allocate 32 bytes out of the only free block, at the end of the row. */
  method AllocLast(heap: Tlsf.TlsfInner, ghost front: seq<Blk>, ghost last: Blk)
    requires heap.Valid() && AllLinkedBack(heap.headers, heap.blocks)
    requires heap.blocks == front + [last] && last.free && last.size >= 128
    requires forall b | b in front :: !b.free
    modifies heap, heap.slBitmap, heap.freeLists
    ensures heap.Valid() && AllLinkedBack(heap.headers, heap.blocks)
    ensures heap.blocks == front + [Blk(last.addr, 32, false), Blk(last.addr + 64, last.size - 64, true)]
  {
    hide Tlsf.TlsfInner.Valid, Tlsf.TlsfInner.Indexed, PayloadsKept, TakenRow, TakenHeaders, AllLinkedBack, Live;
    assert heap.blocks[|front|] == last && forall i | 0 <= i < |front| :: heap.blocks[i] == front[i];
    var r, k := heap.Alloc(32);
    TakenLast(front, last);
  }

  lemma TakenLast(front: seq<Blk>, last: Blk)
    requires last.size >= 128
    ensures TakenRow(front + [last], |front|, 32) ==
              front + [Blk(last.addr, 32, false), Blk(last.addr + 64, last.size - 64, true)]
  {
  }

  method FreeFirst(heap: Tlsf.TlsfInner)
    requires heap.Valid() && AllLinkedBack(heap.headers, heap.blocks)
    requires heap.blocks == [Blk(64, 32, false), Blk(128, 32, false), Blk(192, 32, false), Blk(256, 768, true)]
    modifies heap, heap.slBitmap, heap.freeLists
    ensures heap.Valid() && AllLinkedBack(heap.headers, heap.blocks)
    ensures heap.blocks == [Blk(64, 32, true), Blk(128, 32, false), Blk(192, 32, false), Blk(256, 768, true)]
  {
    hide Tlsf.TlsfInner.Valid, Tlsf.TlsfInner.Indexed, PayloadsKept, FreedHeaders, AllLinkedBack, LinkedBack, Live;
    heap.Dealloc(96, 0);
  }

  method FreeSecond(heap: Tlsf.TlsfInner)
    requires heap.Valid() && AllLinkedBack(heap.headers, heap.blocks)
    requires heap.blocks == [Blk(64, 32, true), Blk(128, 32, false), Blk(192, 32, false), Blk(256, 768, true)]
    modifies heap, heap.slBitmap, heap.freeLists
    ensures heap.Valid()
    ensures heap.blocks == [Blk(64, 96, true), Blk(192, 32, false), Blk(256, 768, true)]
    ensures 192 in heap.headers && heap.headers[192].prevFree && heap.headers[192].prevPhys == 128
  {
    hide Tlsf.TlsfInner.Indexed, Tlsf.HeapOk, Tlsf.Classified, FreeList.Listed, Tlsf.FreedReady, PayloadsKept,
      FreedHeaders, AllLinkedBack, LinkedBack, Live;
    SecondStale(heap.headers, heap.ram.Keys, FreeList.Listed(heap.lists), heap.blocks, heap.start, heap.end);
    heap.Dealloc(160, 1);
  }

  lemma SecondStale(h: Headers, nodes: set<int>, listed: set<nat>, blocks: seq<Blk>, start: nat, end: nat)
    requires Tlsf.HeapOk(h, nodes, listed, blocks, start, end) && AllLinkedBack(h, blocks)
    requires blocks == [Blk(64, 32, true), Blk(128, 32, false), Blk(192, 32, false), Blk(256, 768, true)]
    ensures LinkedBack(h, blocks, 0) && Tlsf.FreedReady(h, blocks, 1)
    ensures 192 in h && h[192].prevPhys == 128
    ensures var h' := FreedHeaders(h, blocks, 1);
      192 in h' && h'[192].prevFree && h'[192].prevPhys == 128
  {
    hide NoTwoFree, FreedHeaders;
    NextHeader(h, blocks, start, end, 0);
    NextHeader(h, blocks, start, end, 1);
    assert LinkedBack(h, blocks, 0) && LinkedBack(h, blocks, 1);
    assert Merged(blocks, 1) == Blk(64, 96, true);
    FreedWrites(h, blocks, 1);
  }

  /** Two regions of one page each, one page allocated and given back: the two free pages
      come back as one block of order one. */
  method MergedRoundTrip(maxOrder: nat) returns (pages: BuddyAllocator, ghost before: State)
    requires maxOrder > 1
    ensures pages.Valid()
    ensures before == State({Block(0, 0), Block(1, 0)}, {})
    ensures pages.Abs() == State({Block(0, 1)}, {})
  {
    hide BuddyAllocator.Valid, FreeSet, AllocStep, DeallocStep, PagesOf;
    pages := TwoRegions(maxOrder);
    before := pages.Abs();
    var got := pages.AllocPages(0);
    OneOfTwo(BlockAt(got, 4096, 0), pages.Abs());
    ghost var during := pages.Abs();
    pages.DeallocPages(got.value, 0);
    BackTogether(during, BlockAt(got, 4096, 0).value, pages.Abs(), maxOrder);
  }

  method TwoRegions(maxOrder: nat) returns (pages: BuddyAllocator)
    requires maxOrder > 1
    ensures pages.Valid() && fresh(pages) && fresh(pages.freeLists) && fresh(pages.bitmaps)
    ensures pages.maxOrder == maxOrder && pages.base == 4096
    ensures pages.Abs() == State({Block(0, 0), Block(1, 0)}, {})
  {
    hide BuddyAllocator.Valid, BuddyAllocator.PageLimit, BuddyAllocator.Abs, FreeSet, Range;
    var limit := BuddyAllocator.PageLimit(maxOrder);
    var ram := map p: nat | p < limit && InRange(p, 0, limit) :: FreeList.Node(FreeList.NIL, FreeList.NIL);
    pages := new BuddyAllocator(maxOrder, ram);
    pages.SetBase(4096);
    AddPage(pages, 0);
    AddPage(pages, 1);
  }

  method AddPage(pages: BuddyAllocator, page: nat)
    requires pages.Valid() && pages.maxOrder > 1 && pages.base == 4096 && page < 2 && page !in pages.owned
    modifies pages`ram, pages`lists, pages`owned, pages`totalPages, pages`stats, pages.freeLists, pages.bitmaps
    ensures pages.Valid() && pages.owned == old(pages.owned) + {page}
    ensures pages.Abs() == State(old(pages.Abs()).free + {Block(page, 0)}, old(pages.Abs()).live)
  {
    hide BuddyAllocator.Valid, BuddyAllocator.PageLimit, Cut, FreeSet, Range, PagesOf;
    TwoPages(pages.maxOrder);
    pages.AddRegion(4096 * (page + 1), 1);
  }

  /** A region of one page is cut into that page. */
  lemma TwoPages(m: nat)
    requires m > 1
    ensures BuddyAllocator.PageLimit(m) >= 2
    ensures Cut(0, 1, m) == {Block(0, 0)} && Cut(1, 1, m) == {Block(1, 0)}
    ensures Range(0, 1) == {0} && Range(1, 1) == {1}
  {
  }

  lemma OneOfTwo(got: Option<Block>, s: State)
    requires AllocStep(State({Block(0, 0), Block(1, 0)}, {}), 0, got, s)
    ensures || (got == Some(Block(0, 0)) && s == State({Block(1, 0)}, {Block(0, 0)}))
            || (got == Some(Block(1, 0)) && s == State({Block(0, 0)}, {Block(1, 0)}))
  {
  }

  lemma BackTogether(s: State, b: Block, s': State, m: nat)
    requires || (s == State({Block(1, 0)}, {Block(0, 0)}) && b == Block(0, 0))
             || (s == State({Block(0, 0)}, {Block(1, 0)}) && b == Block(1, 0))
    requires DeallocStep(s, b, s', m) && m > 1
    ensures s' == State({Block(0, 1)}, {})
  {
    assert Block(0, 0).Buddy() == Block(1, 0) && Block(1, 0).Buddy() == Block(0, 0);
    assert Block(0, 0).Parent() == Block(0, 1) && Block(1, 0).Parent() == Block(0, 1);
    assert s.free - {b.Buddy()} == {};
    assert Coalesce(s.free, b, m) == Coalesce({}, Block(0, 1), m);
  }

  /** Slots of 4000 bytes in slabs of one page, one slot allocated and freed: the slab stays with
      the cache, though nothing in it is live. */
  method OneSlotSlab(maxOrder: nat) returns (cache: Slab.SlabCacheInner)
    requires maxOrder > 1
    ensures cache.Valid() && cache.capacity == 1
    ensures cache.live == {} && |cache.slabs| == 1 && |cache.buddy.live| == 1
  {
    hide Slab.SlabCacheInner.Valid, BuddyAllocator.Valid, Backed, SlabMachine.AllocObj, SlabMachine.DeallocObj, FreeSet,
      Slab.LiveUntouched, Slab.StatsAfterFree, PagesOf, SlabLayout.Layout.Ok, SlabLayout.Layout.Capacity;
    var pages := TwoRegions(maxOrder);
    BigLayout();
    var layout := SlabLayout.Layout(4000, 8, 0);
    var headers := map a: nat | a < 12288 && InRange(a, 4096, 8192) :: Slab.SlabHeader(0, 0, 0);
    var words := map a: nat | a < 12288 && InRange(a, 4096, 8192) :: FreeList.Node(FreeList.NIL, FreeList.NIL);
    var links := map a: nat | a < 12288 && InRange(a, 4096, 8192) :: 0;
    TwoPagesBacked(pages, headers.Keys);
    TwoPagesBacked(pages, words.Keys);
    TwoPagesBacked(pages, links.Keys);
    cache := new Slab.SlabCacheInner(layout, pages, headers, words, links);
    ghost var c, s0 := cache.Conf(), cache.Abs();
    var r, o := cache.Alloc();
    ghost var s1 := cache.Abs();
    OneSlotTaken(c, s0, o, s1);
    cache.Dealloc(r.value, o.value);
    OneSlotFreed(c, s1, o.value, cache.Abs());
  }

  lemma BigLayout()
    ensures SlabLayout.Layout(4000, 8, 0).Ok() && SlabLayout.Layout(4000, 8, 0).Capacity() == 1
  {
    var l := SlabLayout.Layout(4000, 8, 0);
    assert Pow2(3) == 8 && 4000 % 8 == 0;
    assert l.Stride() == 32 && l.SlabBytes() == 4096;
  }

  lemma TwoPagesBacked(pages: BuddyAllocator, dom: set<int>)
    requires pages.Valid() && pages.base == 4096 && pages.Abs() == State({Block(0, 0), Block(1, 0)}, {})
    requires forall a: nat | a < 12288 && InRange(a, 4096, 8192) :: a in dom
    ensures Backed(dom, pages.base, pages.owned)
  {
    TwoPagesOwned(pages);
    hide BuddyAllocator.Valid, BuddyAllocator.Abs;
    forall a: nat | 4096 <= a && PageIndex(a, 4096) in pages.owned
      ensures a in dom
    {
      assert PageIndex(a, 4096) <= 1;
      assert a < 12288 && InRange(a, 4096, 8192);
    }
  }

  lemma TwoPagesOwned(pages: BuddyAllocator)
    requires pages.Valid() && pages.Abs() == State({Block(0, 0), Block(1, 0)}, {})
    ensures forall p | p in pages.owned :: p <= 1
  {
    hide BuddyAllocator.Linked, BuddyAllocator.StatsAgree, Inv, FreeSet;
  }

  lemma OneSlotTaken(c: SlabMachine.Config, s: SlabMachine.Cache, o: Option<SlabMachine.Obj>, s': SlabMachine.Cache)
    requires c == SlabMachine.Config(4096, 0, 1, c.maxOrder) && SlabMachine.CacheInv(c, s)
    requires s == SlabMachine.Cache(State({Block(0, 0), Block(1, 0)}, {}), map[]) && SlabMachine.AllocObj(c, s, o, s')
    ensures o.Some? && s'.slabs == map[o.value.slab := []] && |s'.buddy.live| == 1
  {
    hide SlabMachine.CacheInv, SlabMachine.GrowStep, Inv, PagesOf, Coalesced;
    var grown, mid :| SlabMachine.GrowStep(c, s, grown, mid) && SlabMachine.FirstSlot(grown, mid, o, s');
    assert Block(0, 0) in s.buddy.free;
    SlabMachine.GrowIff(c, s, grown, mid);
    SlabMachine.GrowKeeps(c, s, grown, mid);
    assert SlabMachine.AllSlots(1)[1..] == [];
  }

  lemma OneSlotFreed(c: SlabMachine.Config, s: SlabMachine.Cache, o: SlabMachine.Obj, s': SlabMachine.Cache)
    requires c.capacity == 1 && s.slabs == map[o.slab := []] && SlabMachine.DeallocObj(c, s, o, s')
    ensures |s'.slabs| == 1 && s'.buddy == s.buddy
  {
  }

  /** One usable page at 2 MiB and one reclaimable page at 1 MiB: the region passes the test
      against 1 MiB, and the hand-over panics on it, for it lies below the buddy's base. */
  method ReleaseBelowBase(maxOrder: nat) returns (released: bool)
    requires maxOrder > 1
    ensures !released
  {
    hide BuddyAllocator.Valid, BuddyAllocator.PageLimit, Handover.OwnsFed, Handover.Given, Handover.Unclaimed,
      Handover.Owns, FreeSet;
    var limit := BuddyAllocator.PageLimit(maxOrder);
    var ram := map p: nat | p < limit && InRange(p, 0, limit) :: FreeList.Node(FreeList.NIL, FreeList.NIL);
    var pages := new BuddyAllocator(maxOrder, ram);
    var regions := [Handover.MemoryRegion(0x20_0000, 4096, Handover.Usable),
                    Handover.MemoryRegion(0x10_0000, 4096, Handover.BootloaderReclaimable)];
    TwoPages(maxOrder);
    TwoKinds(regions, BuddyAllocator.PageLimit(maxOrder));
    var fed := Handover.Init(pages, regions, 0, 0, 4096);
    assert regions[0] in regions && fed;
    FedLeaves(regions, pages.owned);
    released := Handover.Release(pages, regions, 4096, 4096, 0x20_0000);
    assert regions[1] in regions;
  }

  lemma TwoKinds(regions: seq<Handover.MemoryRegion>, limit: nat)
    requires regions == [Handover.MemoryRegion(0x20_0000, 4096, Handover.Usable),
                         Handover.MemoryRegion(0x10_0000, 4096, Handover.BootloaderReclaimable)]
    requires limit > 0
    ensures Handover.Separate(regions) && Handover.LowestBase(regions) == Some(0x20_0000)
    ensures Handover.Indexable(regions, 0x20_0000, limit)
    ensures Handover.Released(regions[1], Handover.StackPage(4096, 4096)) && regions[1].AlignedBase() == 0x10_0000
  {
    assert regions[1..] == [regions[1]] && regions[1..][1..] == [];
    assert Handover.LowestBase(regions[1..]) == None;
    assert regions[0].AlignedBase() == 0x20_0000;
  }

  lemma FedLeaves(regions: seq<Handover.MemoryRegion>, owned: set<nat>)
    requires Handover.Separate(regions) && Handover.OwnsFed(owned, 512, regions, |regions|, 0, 0)
    ensures Handover.Unclaimed(regions, owned, 512)
  {
    Handover.FedLeavesRest(regions, 0, 0, owned, 512);
  }
}
