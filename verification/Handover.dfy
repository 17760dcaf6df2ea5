/** How boot memory reaches the buddy allocator: usable regions minus the kernel at heap
    initialisation, reclaimable regions once the boot structures are dead. */
module Handover {
  import opened Bits
  import opened Blocks
  import opened BuddyTheory
  import opened BuddyMachine
  import opened BuddyRuns
  import opened Buddy
  import opened FreeList
  import opened TlsfHeap
  import opened Tlsf
  import opened Wrappers

  const PAGE := 4096
  const ONE_MIB := 0x10_0000

  function AlignDown(a: nat): nat { a / PAGE * PAGE }

  function AlignUp(a: nat): nat { AlignDown(a + PAGE - 1) }

  datatype RegionType =
    | Usable | BootloaderReclaimable | AcpiReclaimable | AcpiNvs
    | ExecutableAndModules | Framebuffer | BadMemory | Reserved
  {
    predicate IsImmediatelyUsable() { Usable? }
    predicate IsReclaimable() { BootloaderReclaimable? || AcpiReclaimable? }
    predicate IsHandedOver() { IsImmediatelyUsable() || IsReclaimable() }
  }

  datatype MemoryRegion = MemoryRegion(base: nat, length: nat, kind: RegionType) {
    function End(): nat { base + length }
    function AlignedBase(): nat { AlignUp(base) }
    function AlignedEnd(): nat { AlignDown(End()) }
    predicate HasPages() { AlignedBase() < AlignedEnd() }

    /** Physical page `p` lies entirely inside. */
    predicate HasPage(p: nat) { base <= PAGE * p && PAGE * p + PAGE <= End() }
  }

  /** A page with at least one byte of the kernel image. */
  predicate KernelPage(kernelStart: nat, kernelEnd: nat, p: nat) {
    kernelStart < PAGE * p + PAGE && PAGE * p < kernelEnd
  }

  /** No byte is in two regions that are handed over; other regions may overlap anything. */
  ghost predicate Separate(regions: seq<MemoryRegion>) {
    forall i, j | 0 <= i < j < |regions| && regions[i].kind.IsHandedOver() && regions[j].kind.IsHandedOver() ::
      regions[i].End() <= regions[j].base || regions[j].End() <= regions[i].base
  }

  /** A page heap initialisation has to hand over. */
  ghost predicate Feeds(r: MemoryRegion, kernelStart: nat, kernelEnd: nat, p: nat) {
    r.kind.IsImmediatelyUsable() && r.HasPage(p) && !KernelPage(kernelStart, kernelEnd, p)
  }

  ghost predicate Fed(regions: seq<MemoryRegion>, n: nat, kernelStart: nat, kernelEnd: nat, p: nat) {
    exists i :: 0 <= i < n && i < |regions| && Feeds(regions[i], kernelStart, kernelEnd, p)
  }

  /** A page the boot code has to give back in the end. */
  ghost predicate Returns(r: MemoryRegion, p: nat) {
    && (r.kind.BootloaderReclaimable? || r.kind.AcpiReclaimable?)
    && r.AlignedBase() >= 0x10_0000 && r.HasPage(p)
  }

  ghost predicate Returned(regions: seq<MemoryRegion>, p: nat) {
    exists i :: 0 <= i < |regions| && Returns(regions[i], p)
  }

  /** The buddy, counting pages from physical page `first`, owns physical page `p`. */
  ghost predicate Owns(owned: set<nat>, first: nat, p: nat) {
    p >= first && p - first in owned
  }

  /** The buddy owns no page of the span from `lo` to `hi`. */
  ghost predicate SpanFree(owned: set<nat>, first: nat, lo: nat, hi: nat) {
    forall p: nat | lo <= PAGE * p < hi :: !Owns(owned, first, p)
  }

  /** The pages of the span are owned now, and nothing else has changed hands. */
  ghost predicate SpanAdded(owned: set<nat>, owned': set<nat>, first: nat, lo: nat, hi: nat) {
    forall p: nat :: Owns(owned', first, p) <==> Owns(owned, first, p) || lo <= PAGE * p < hi
  }

  /** The buddy owns exactly what the first `n` regions feed. */
  ghost predicate OwnsFed(owned: set<nat>, first: nat, regions: seq<MemoryRegion>, n: nat, kernelStart: nat,
                          kernelEnd: nat)
  {
    forall p: nat :: Owns(owned, first, p) <==> Fed(regions, n, kernelStart, kernelEnd, p)
  }

  /** The lowest aligned base of a usable region. */
  function LowestBase(regions: seq<MemoryRegion>): Option<nat> {
    if regions == [] then None
    else
      var rest := LowestBase(regions[1..]);
      if !regions[0].kind.IsImmediatelyUsable() then rest
      else if rest.None? || regions[0].AlignedBase() <= rest.value then Some(regions[0].AlignedBase())
      else rest
  }

  lemma {:induction false} LowestBaseLeast(regions: seq<MemoryRegion>)
    ensures LowestBase(regions).None? <==> forall r | r in regions :: !r.kind.IsImmediatelyUsable()
    ensures LowestBase(regions).Some? ==> LowestBase(regions).value % PAGE == 0
    ensures LowestBase(regions).Some? ==>
              forall r | r in regions && r.kind.IsImmediatelyUsable() :: LowestBase(regions).value <= r.AlignedBase()
    ensures LowestBase(regions).Some? ==>
              exists r :: r in regions && r.kind.IsImmediatelyUsable() && r.AlignedBase() == LowestBase(regions).value
  {
    hide MemoryRegion.AlignedBase;
    if regions != [] {
      LowestBaseLeast(regions[1..]);
      BaseAligned(regions[0]);
      assert regions == [regions[0]] + regions[1..];
    }
  }

  lemma BaseAligned(r: MemoryRegion)
    ensures r.AlignedBase() % PAGE == 0
  {
    RoundedInwards(r);
  }

  /** A region's ends are rounded to the nearest page borders inside it. */
  lemma RoundedInwards(r: MemoryRegion)
    ensures r.AlignedBase() % 4096 == 0 && r.base <= r.AlignedBase() < r.base + 4096
    ensures r.AlignedEnd() % 4096 == 0 && r.AlignedEnd() <= r.base + r.length < r.AlignedEnd() + 4096
  {
    var q := (r.base + PAGE - 1) / PAGE;
    assert r.AlignedBase() == q * PAGE;
  }

  /** Rounding a region inwards keeps exactly its whole pages. */
  lemma WholePages(r: MemoryRegion, p: nat)
    ensures r.HasPage(p) <==> r.AlignedBase() <= PAGE * p < r.AlignedEnd()
    ensures r.AlignedBase() % PAGE == 0 && r.AlignedEnd() % PAGE == 0
  {
  }

  /** The two spans a usable region is cut into hold exactly its pages outside the kernel. */
  lemma PunchedOut(r: MemoryRegion, kernelStart: nat, kernelEnd: nat, p: nat)
    requires kernelStart <= kernelEnd && r.kind.IsImmediatelyUsable() && r.HasPages()
    ensures var base, end, low, high := r.AlignedBase(), r.AlignedEnd(), AlignDown(kernelStart), AlignUp(kernelEnd);
      Feeds(r, kernelStart, kernelEnd, p) <==>
        (base < low && base <= PAGE * p < Smaller(end, low)) || (end > high && Larger(base, high) <= PAGE * p < end)
  {
    WholePages(r, p);
  }

  function Smaller(a: nat, b: nat): nat { if a <= b then a else b }

  function Larger(a: nat, b: nat): nat { if a >= b then a else b }

  /** List nodes have been written into owned pages that are not live, nowhere else. */
  ghost predicate NodesIn(was: Ram, now: Ram, owned: set<nat>, live: set<Block>) {
    WritesIn(was, now, owned - PagesOf(live))
  }

  lemma NodesNone(words: Ram, owned: set<nat>, live: set<Block>)
    ensures NodesIn(words, words, owned, live)
  {
  }

  lemma NodesThen(was: Ram, mid: Ram, now: Ram, owned: set<nat>, owned': set<nat>, live: set<Block>)
    requires NodesIn(was, mid, owned, live) && NodesIn(mid, now, owned', live) && owned <= owned'
    ensures NodesIn(was, now, owned', live)
  {
    hide PagesOf;
  }

  lemma NodesFree(buddy: BuddyAllocator, was: Ram)
    requires buddy.Valid() && WritesIn(was, buddy.ram, FreePages(buddy.Abs()))
    ensures NodesIn(was, buddy.ram, buddy.owned, buddy.live)
  {
    BuddyInv(buddy);
    LiveApart(buddy);
    hide BuddyAllocator.Valid, PagesOf, FreeSet;
  }

  // ---------------------------------------------------------------- feeding

  /** Hand the page-aligned physical bytes from `lo` to `hi` to the buddy. False stands for
      the panic on a region below the buddy's base. */
  method AddSpan(buddy: BuddyAllocator, hhdm: nat, lo: nat, hi: nat, ghost lowest: nat) returns (ok: bool)
    requires buddy.Valid() && buddy.base == hhdm + lowest && buddy.base > 0
    requires lo % PAGE == 0 && hi % PAGE == 0 && lowest % PAGE == 0 && lo <= hi
    requires hi <= lowest + PAGE * BuddyAllocator.PageLimit(buddy.maxOrder)
    requires SpanFree(buddy.owned, lowest / PAGE, lo, hi)
    modifies buddy`ram, buddy`lists, buddy`owned, buddy`totalPages, buddy`stats, buddy.freeLists, buddy.bitmaps
    ensures ok <==> lo >= lowest
    ensures buddy.Valid() && (!ok ==> buddy.owned == old(buddy.owned))
    ensures ok ==> SpanAdded(old(buddy.owned), buddy.owned, lowest / PAGE, lo, hi)
    ensures old(buddy.owned) <= buddy.owned && NodesIn(old(buddy.ram), buddy.ram, buddy.owned, buddy.live)
  {
    hide BuddyAllocator.Valid, BuddyAllocator.PageLimit, SpanFree, SpanAdded, Range, PageIndex, FreeSet, PagesOf, Cut,
      NodesIn, WritesIn;
    if hhdm + lo < buddy.base {
      NodesNone(buddy.ram, buddy.owned, buddy.live);
      return false;
    }
    LimitPositive(buddy);
    SpanIndex(hhdm, lo, hi, lowest, BuddyAllocator.PageLimit(buddy.maxOrder));
    SpanPages(hhdm, lo, hi, lowest, buddy.owned);
    buddy.AddRegion(hhdm + lo, (hi - lo) / PAGE);
    NodesFree(buddy, old(buddy.ram));
    return true;
  }

  /** Addresses, page indices and physical pages of one span name the same pages. */
  lemma SpanPages(hhdm: nat, lo: nat, hi: nat, lowest: nat, owned: set<nat>)
    requires lowest % PAGE == 0 && lo % PAGE == 0 && hi % PAGE == 0 && lowest <= lo <= hi
    ensures var r := Range(PageIndex(hhdm + lo, hhdm + lowest), (hi - lo) / PAGE);
      && SpanAdded(owned, owned + r, lowest / PAGE, lo, hi)
      && (SpanFree(owned, lowest / PAGE, lo, hi) ==> r !! owned)
  {
    SpanIndex(hhdm, lo, hi, lowest, (hi - lowest) / PAGE);
    hide PageIndex;
    var first := lowest / PAGE;
    var r := Range(lo / PAGE - first, (hi - lo) / PAGE);
    forall p: nat
      ensures Owns(r, first, p) <==> lo <= PAGE * p < hi
    {
      SpanPage(lo, hi, lowest, p);
    }
    hide Range;
    forall i | i in r && i in owned
      ensures Owns(owned, first, first + i) && Owns(r, first, first + i)
    {
    }
  }

  lemma SpanIndex(hhdm: nat, lo: nat, hi: nat, lowest: nat, limit: nat)
    requires lowest % PAGE == 0 && lo % PAGE == 0 && hi % PAGE == 0 && lowest <= lo <= hi <= lowest + PAGE * limit
    ensures PageIndex(hhdm + lo, hhdm + lowest) == lo / PAGE - lowest / PAGE
    ensures PageIndex(hhdm + lo, hhdm + lowest) + (hi - lo) / PAGE <= limit
  {
    var a, b, c := lo / PAGE, hi / PAGE, lowest / PAGE;
    assert hhdm + lo - (hhdm + lowest) == PAGE * (a - c) && hi - lo == PAGE * (b - a);
  }

  lemma SpanPage(lo: nat, hi: nat, lowest: nat, p: nat)
    requires lowest % PAGE == 0 && lo % PAGE == 0 && hi % PAGE == 0 && lowest <= lo <= hi
    ensures var r := Range(lo / PAGE - lowest / PAGE, (hi - lo) / PAGE);
      Owns(r, lowest / PAGE, p) <==> lo <= PAGE * p < hi
  {
    var a, b, c := lo / PAGE, hi / PAGE, lowest / PAGE;
    assert hi - lo == PAGE * (b - a);
    if p >= c {
      assert InRange(p - c, a - c, b - a) <==> lo <= PAGE * p < hi;
    }
  }

  lemma LimitPositive(buddy: BuddyAllocator)
    requires buddy.Valid()
    ensures buddy.maxOrder > 0
  {
    BuddyInv(buddy);
  }

  /** Every page of the regions counted has an index the buddy has room for. */
  ghost predicate Indexable(regions: seq<MemoryRegion>, lowest: nat, limit: nat) {
    forall r | r in regions && r.kind.IsHandedOver() ::
      r.AlignedEnd() <= lowest + PAGE * limit
  }

  /** Initialise the buddy from the memory map: its base is the lowest usable page, and it
      is given the usable pages outside the kernel. False stands for the panic when nothing
      is usable; no other assertion fires. */
  method Init(buddy: BuddyAllocator, regions: seq<MemoryRegion>, kernelStart: nat, kernelEnd: nat, hhdm: nat)
    returns (ok: bool)
    requires buddy.Valid() && buddy.totalPages == 0
    requires hhdm > 0 && hhdm % PAGE == 0 && kernelStart <= kernelEnd && Separate(regions)
    requires LowestBase(regions).Some? ==>
               Indexable(regions, LowestBase(regions).value, BuddyAllocator.PageLimit(buddy.maxOrder))
    modifies buddy`base, buddy`ram, buddy`lists, buddy`owned, buddy`totalPages, buddy`stats, buddy.freeLists,
      buddy.bitmaps
    ensures buddy.Valid()
    ensures ok <==> exists r :: r in regions && r.kind.IsImmediatelyUsable()
    ensures ok ==> LowestBase(regions).Some? && buddy.base == hhdm + LowestBase(regions).value
    ensures ok ==> OwnsFed(buddy.owned, LowestBase(regions).value / PAGE, regions, |regions|, kernelStart, kernelEnd)
    ensures old(buddy.owned) <= buddy.owned && NodesIn(old(buddy.ram), buddy.ram, buddy.owned, buddy.live)
  {
    hide BuddyAllocator.Valid, BuddyAllocator.PageLimit, OwnsFed, LowestBase, Indexable, Separate, NodesIn;
    NodesNone(buddy.ram, buddy.owned, buddy.live);
    LowestBaseLeast(regions);
    var min := LowestBase(regions);
    if min.None? {
      return false;
    }
    buddy.SetBase(hhdm + min.value);
    NothingFed(buddy, min.value / PAGE, regions, kernelStart, kernelEnd);
    for i := 0 to |regions|
      invariant buddy.Valid() && buddy.base == hhdm + min.value
      invariant OwnsFed(buddy.owned, min.value / PAGE, regions, i, kernelStart, kernelEnd)
      invariant old(buddy.owned) <= buddy.owned && NodesIn(old(buddy.ram), buddy.ram, buddy.owned, buddy.live)
      modifies buddy`ram, buddy`lists, buddy`owned, buddy`totalPages, buddy`stats, buddy.freeLists, buddy.bitmaps
    {
      ghost var owned, words := buddy.owned, buddy.ram;
      FeedRegion(buddy, regions, i, kernelStart, kernelEnd, hhdm, min.value);
      NodesThen(old(buddy.ram), words, buddy.ram, owned, buddy.owned, buddy.live);
    }
    return true;
  }

  /** Add one region of the memory map, less the kernel's pages. */
  method FeedRegion(buddy: BuddyAllocator, regions: seq<MemoryRegion>, i: nat, kernelStart: nat, kernelEnd: nat,
                    hhdm: nat, ghost lowest: nat)
    requires buddy.Valid() && buddy.base == hhdm + lowest && buddy.base > 0 && i < |regions|
    requires kernelStart <= kernelEnd && Separate(regions) && lowest % PAGE == 0
    requires forall r | r in regions && r.kind.IsImmediatelyUsable() :: lowest <= r.AlignedBase()
    requires Indexable(regions, lowest, BuddyAllocator.PageLimit(buddy.maxOrder))
    requires OwnsFed(buddy.owned, lowest / PAGE, regions, i, kernelStart, kernelEnd)
    modifies buddy`ram, buddy`lists, buddy`owned, buddy`totalPages, buddy`stats, buddy.freeLists, buddy.bitmaps
    ensures buddy.Valid()
    ensures OwnsFed(buddy.owned, lowest / PAGE, regions, i + 1, kernelStart, kernelEnd)
    ensures old(buddy.owned) <= buddy.owned && NodesIn(old(buddy.ram), buddy.ram, buddy.owned, buddy.live)
  {
    hide BuddyAllocator.Valid, BuddyAllocator.PageLimit, SpanFree, SpanAdded, OwnsFed, Separate, Indexable, NodesIn;
    NodesNone(buddy.ram, buddy.owned, buddy.live);
    var region := regions[i];
    var base, end := region.AlignedBase(), region.AlignedEnd();
    var low, high := AlignDown(kernelStart), AlignUp(kernelEnd);
    ghost var owned := buddy.owned;
    if region.kind != Usable || base >= end {
      FeedsNothing(regions, i, kernelStart, kernelEnd, owned, lowest / PAGE);
      return;
    }
    SpanEnds(region, kernelStart, kernelEnd);
    Roomy(buddy, regions, i, lowest);
    ghost var cut := if base < low then Smaller(end, low) else base;
    ghost var rest := if end > high then Larger(base, high) else end;
    hide MemoryRegion.AlignedBase, MemoryRegion.AlignedEnd, AlignDown, AlignUp;
    LowSpan(regions, i, kernelStart, kernelEnd, owned, lowest / PAGE, cut, rest);
    if base < low {
      var ok := AddSpan(buddy, hhdm, base, Smaller(end, low), lowest);
      assert ok;
    } else {
      EmptySpan(owned, lowest / PAGE, base);
    }
    HighSpan(regions, i, kernelStart, kernelEnd, owned, buddy.owned, lowest / PAGE, cut, rest);
    ghost var owned1, words1 := buddy.owned, buddy.ram;
    if end > high {
      var ok := AddSpan(buddy, hhdm, Larger(base, high), end, lowest);
      assert ok;
      NodesThen(old(buddy.ram), words1, buddy.ram, owned1, buddy.owned, buddy.live);
    } else {
      EmptySpan(owned1, lowest / PAGE, end);
    }
    BothSpans(regions, i, kernelStart, kernelEnd, owned, owned1, buddy.owned, lowest / PAGE, cut, rest);
  }

  lemma NothingFed(buddy: BuddyAllocator, first: nat, regions: seq<MemoryRegion>, kernelStart: nat, kernelEnd: nat)
    requires buddy.Valid() && buddy.totalPages == 0
    ensures OwnsFed(buddy.owned, first, regions, 0, kernelStart, kernelEnd)
  {
  }

  /** One more region feeds its own pages, none of which an earlier one fed. */
  lemma FedNext(regions: seq<MemoryRegion>, i: nat, kernelStart: nat, kernelEnd: nat)
    requires Separate(regions) && i < |regions|
    ensures forall p: nat :: Fed(regions, i + 1, kernelStart, kernelEnd, p) <==>
              Fed(regions, i, kernelStart, kernelEnd, p) || Feeds(regions[i], kernelStart, kernelEnd, p)
    ensures forall p: nat ::
              !(Fed(regions, i, kernelStart, kernelEnd, p) && Feeds(regions[i], kernelStart, kernelEnd, p))
    ensures !regions[i].HasPages() ==> forall p :: !Feeds(regions[i], kernelStart, kernelEnd, p)
  {
  }

  lemma FeedsNothing(regions: seq<MemoryRegion>, i: nat, kernelStart: nat, kernelEnd: nat, owned: set<nat>, first: nat)
    requires Separate(regions) && i < |regions| && OwnsFed(owned, first, regions, i, kernelStart, kernelEnd)
    requires regions[i].kind != Usable || !regions[i].HasPages()
    ensures OwnsFed(owned, first, regions, i + 1, kernelStart, kernelEnd)
  {
    FedNext(regions, i, kernelStart, kernelEnd);
    hide Separate, Fed, Owns;
  }

  /** Where the two spans of a region end and begin: on page borders inside it. */
  lemma SpanEnds(r: MemoryRegion, kernelStart: nat, kernelEnd: nat)
    requires kernelStart <= kernelEnd && r.HasPages()
    ensures var base, end, low, high := r.AlignedBase(), r.AlignedEnd(), AlignDown(kernelStart), AlignUp(kernelEnd);
      base % PAGE == 0 && end % PAGE == 0 && low % PAGE == 0 && high % PAGE == 0 && low <= high
  {
  }

  /** The pages of region `i` lie in the spans from its base to `cut` and from `rest` to its end. */
  ghost predicate CutAt(r: MemoryRegion, kernelStart: nat, kernelEnd: nat, cut: nat, rest: nat) {
    var base, end, low, high := r.AlignedBase(), r.AlignedEnd(), AlignDown(kernelStart), AlignUp(kernelEnd);
    && kernelStart <= kernelEnd && r.kind.IsImmediatelyUsable() && r.HasPages()
    && cut == (if base < low then Smaller(end, low) else base)
    && rest == (if end > high then Larger(base, high) else end)
  }

  /** The spans of a region hold the pages it feeds, none of them owned yet. */
  lemma RegionPage(regions: seq<MemoryRegion>, i: nat, kernelStart: nat, kernelEnd: nat, owned: set<nat>, first: nat,
                   cut: nat, rest: nat, p: nat)
    requires Separate(regions) && i < |regions| && OwnsFed(owned, first, regions, i, kernelStart, kernelEnd)
    requires CutAt(regions[i], kernelStart, kernelEnd, cut, rest)
    ensures var base, end := regions[i].AlignedBase(), regions[i].AlignedEnd();
      var taken := base <= PAGE * p < cut || rest <= PAGE * p < end;
      && cut <= rest
      && (taken ==> !Owns(owned, first, p))
      && (Fed(regions, i + 1, kernelStart, kernelEnd, p) <==> Owns(owned, first, p) || taken)
  {
    FedNext(regions, i, kernelStart, kernelEnd);
    SpanEnds(regions[i], kernelStart, kernelEnd);
    hide Separate, Fed, Owns, MemoryRegion.HasPage, MemoryRegion.AlignedBase, MemoryRegion.AlignedEnd, AlignDown,
      AlignUp;
    PunchedOut(regions[i], kernelStart, kernelEnd, p);
    assert Owns(owned, first, p) <==> Fed(regions, i, kernelStart, kernelEnd, p);
  }

  lemma LowSpan(regions: seq<MemoryRegion>, i: nat, kernelStart: nat, kernelEnd: nat, owned: set<nat>, first: nat,
                cut: nat, rest: nat)
    requires Separate(regions) && i < |regions| && OwnsFed(owned, first, regions, i, kernelStart, kernelEnd)
    requires CutAt(regions[i], kernelStart, kernelEnd, cut, rest)
    ensures SpanFree(owned, first, regions[i].AlignedBase(), cut)
  {
    hide Separate, OwnsFed, Owns, CutAt, Fed;
    forall p: nat | regions[i].AlignedBase() <= PAGE * p < cut
      ensures !Owns(owned, first, p)
    {
      RegionPage(regions, i, kernelStart, kernelEnd, owned, first, cut, rest, p);
    }
  }

  lemma HighSpan(regions: seq<MemoryRegion>, i: nat, kernelStart: nat, kernelEnd: nat, owned: set<nat>,
                 owned1: set<nat>,
                 first: nat, cut: nat, rest: nat)
    requires Separate(regions) && i < |regions| && OwnsFed(owned, first, regions, i, kernelStart, kernelEnd)
    requires CutAt(regions[i], kernelStart, kernelEnd, cut, rest)
    requires SpanAdded(owned, owned1, first, regions[i].AlignedBase(), cut)
    ensures SpanFree(owned1, first, rest, regions[i].AlignedEnd())
  {
    hide Separate, OwnsFed, Owns, CutAt, Fed;
    forall p: nat | rest <= PAGE * p < regions[i].AlignedEnd()
      ensures !Owns(owned1, first, p)
    {
      RegionPage(regions, i, kernelStart, kernelEnd, owned, first, cut, rest, p);
    }
  }

  lemma BothSpans(regions: seq<MemoryRegion>, i: nat, kernelStart: nat, kernelEnd: nat, owned: set<nat>,
                  owned1: set<nat>,
                  owned2: set<nat>, first: nat, cut: nat, rest: nat)
    requires Separate(regions) && i < |regions| && OwnsFed(owned, first, regions, i, kernelStart, kernelEnd)
    requires CutAt(regions[i], kernelStart, kernelEnd, cut, rest)
    requires SpanAdded(owned, owned1, first, regions[i].AlignedBase(), cut)
    requires SpanAdded(owned1, owned2, first, rest, regions[i].AlignedEnd())
    ensures OwnsFed(owned2, first, regions, i + 1, kernelStart, kernelEnd)
  {
    hide Separate, Owns, CutAt, Fed;
    forall p: nat
      ensures Owns(owned2, first, p) <==> Fed(regions, i + 1, kernelStart, kernelEnd, p)
    {
      RegionPage(regions, i, kernelStart, kernelEnd, owned, first, cut, rest, p);
    }
  }

  lemma EmptySpan(owned: set<nat>, first: nat, at: nat)
    ensures SpanAdded(owned, owned, first, at, at)
  {
  }

  // -------------------------------------------------------------- releasing

  /** Physical address of the page the stack pointer is in. */
  function StackPage(sp: nat, hhdm: nat): (page: nat)
    requires sp >= hhdm
    ensures page % 4096 == 0 && page <= sp - hhdm < page + 4096
  {
    AlignDown(sp - hhdm)
  }

  predicate HoldsStack(r: MemoryRegion, page: nat) { r.AlignedBase() <= page < r.AlignedEnd() }

  /** A region the release loop adds. */
  predicate Released(r: MemoryRegion, stack: nat) {
    r.kind.IsReclaimable() && r.HasPages() && r.AlignedBase() >= 0x10_0000 && !HoldsStack(r, stack)
  }

  /** The region the boot code sets aside for later. */
  predicate Deferred(r: MemoryRegion, stack: nat) {
    r.kind.IsReclaimable() && r.HasPages() && r.AlignedBase() >= 0x10_0000 && HoldsStack(r, stack)
  }

  ghost predicate Given(regions: seq<MemoryRegion>, n: nat, stack: nat, p: nat) {
    exists i :: 0 <= i < n && i < |regions| && Released(regions[i], stack) && regions[i].HasPage(p)
  }

  /** No page of a reclaimable region is owned. */
  ghost predicate Unclaimed(regions: seq<MemoryRegion>, owned: set<nat>, first: nat) {
    forall r, p: nat | r in regions && r.kind.IsReclaimable() && r.HasPage(p) :: !Owns(owned, first, p)
  }

  /** Give the buddy every reclaimable region but the one under the stack. False stands for
      the panic on a region below the buddy's base. */
  method Release(buddy: BuddyAllocator, regions: seq<MemoryRegion>, hhdm: nat, sp: nat, ghost lowest: nat)
    returns (ok: bool)
    requires buddy.Valid() && buddy.base == hhdm + lowest && buddy.base > 0 && lowest % PAGE == 0 && sp >= hhdm
    requires Separate(regions) && Unclaimed(regions, buddy.owned, lowest / PAGE)
    requires Indexable(regions, lowest, BuddyAllocator.PageLimit(buddy.maxOrder))
    modifies buddy`ram, buddy`lists, buddy`owned, buddy`totalPages, buddy`stats, buddy.freeLists, buddy.bitmaps
    ensures buddy.Valid()
    ensures ok <==> forall r | r in regions && Released(r, StackPage(sp, hhdm)) :: r.AlignedBase() >= lowest
    ensures ok ==> forall p: nat :: Owns(buddy.owned, lowest / PAGE, p) <==>
              Owns(old(buddy.owned), lowest / PAGE, p) || Given(regions, |regions|, StackPage(sp, hhdm), p)
    ensures ok ==> forall p: nat | PAGE * p <= sp - hhdm < PAGE * p + PAGE ::
              Owns(buddy.owned, lowest / PAGE, p) <==> Owns(old(buddy.owned), lowest / PAGE, p)
    ensures old(buddy.owned) <= buddy.owned && NodesIn(old(buddy.ram), buddy.ram, buddy.owned, buddy.live)
  {
    hide BuddyAllocator.Valid, BuddyAllocator.PageLimit, Owns, Given, Unclaimed, Indexable, Separate, StackPage,
      NodesIn;
    NodesNone(buddy.ram, buddy.owned, buddy.live);
    var stack := StackPage(sp, hhdm);
    GivenNone(regions, stack);
    for i := 0 to |regions|
      invariant buddy.Valid() && buddy.base == hhdm + lowest
      invariant forall j | 0 <= j < i && Released(regions[j], stack) :: regions[j].AlignedBase() >= lowest
      invariant forall p: nat :: Owns(buddy.owned, lowest / PAGE, p) <==>
                  Owns(old(buddy.owned), lowest / PAGE, p) || Given(regions, i, stack, p)
      invariant old(buddy.owned) <= buddy.owned && NodesIn(old(buddy.ram), buddy.ram, buddy.owned, buddy.live)
      modifies buddy`ram, buddy`lists, buddy`owned, buddy`totalPages, buddy`stats, buddy.freeLists, buddy.bitmaps
    {
      ghost var owned, words := buddy.owned, buddy.ram;
      var added := ReleaseRegion(buddy, regions, i, hhdm, stack, lowest, old(buddy.owned));
      NodesThen(old(buddy.ram), words, buddy.ram, owned, buddy.owned, buddy.live);
      if !added {
        return false;
      }
    }
    StackKept(regions, sp, hhdm);
    return true;
  }

  /** The page the stack pointer is in is not given away. */
  lemma StackKept(regions: seq<MemoryRegion>, sp: nat, hhdm: nat)
    requires sp >= hhdm
    ensures forall p: nat | PAGE * p <= sp - hhdm < PAGE * p + PAGE ::
              !Given(regions, |regions|, StackPage(sp, hhdm), p)
  {
    forall p: nat | PAGE * p <= sp - hhdm < PAGE * p + PAGE
      ensures !Given(regions, |regions|, StackPage(sp, hhdm), p)
    {
      var stack := StackPage(sp, hhdm);
      assert PAGE * p == stack;
      forall r: MemoryRegion
        ensures Released(r, stack) ==> !r.HasPage(p)
      {
        WholePages(r, p);
      }
    }
  }

  /** One turn of the release loop. */
  method ReleaseRegion(buddy: BuddyAllocator, regions: seq<MemoryRegion>, i: nat, hhdm: nat, stack: nat,
                       ghost lowest: nat,
                       ghost owned: set<nat>)
    returns (ok: bool)
    requires buddy.Valid() && buddy.base == hhdm + lowest && buddy.base > 0 && lowest % PAGE == 0 && i < |regions|
    requires Separate(regions) && Unclaimed(regions, owned, lowest / PAGE)
    requires Indexable(regions, lowest, BuddyAllocator.PageLimit(buddy.maxOrder))
    requires forall p: nat ::
               Owns(buddy.owned, lowest / PAGE, p) <==> Owns(owned, lowest / PAGE, p) || Given(regions, i, stack, p)
    modifies buddy`ram, buddy`lists, buddy`owned, buddy`totalPages, buddy`stats, buddy.freeLists, buddy.bitmaps
    ensures buddy.Valid()
    ensures ok <==> (Released(regions[i], stack) ==> regions[i].AlignedBase() >= lowest)
    ensures ok ==> forall p: nat ::
              Owns(buddy.owned, lowest / PAGE, p) <==> Owns(owned, lowest / PAGE, p) || Given(regions, i + 1, stack, p)
    ensures old(buddy.owned) <= buddy.owned && NodesIn(old(buddy.ram), buddy.ram, buddy.owned, buddy.live)
  {
    hide BuddyAllocator.Valid, BuddyAllocator.PageLimit, Owns, Given, Unclaimed, Indexable, Separate, NodesIn;
    NodesNone(buddy.ram, buddy.owned, buddy.live);
    var region := regions[i];
    GivenNext(regions, i, stack, owned, lowest / PAGE);
    if !region.kind.IsReclaimable() {
      return true;
    }
    var base, end := region.AlignedBase(), region.AlignedEnd();
    if base >= end {
      return true;
    }
    if base < ONE_MIB {
      return true;
    }
    if stack >= base && stack < end {
      return true;
    }
    Roomy(buddy, regions, i, lowest);
    PagesOfRegion(region);
    ok := AddSpan(buddy, hhdm, base, end, lowest);
  }

  lemma GivenNone(regions: seq<MemoryRegion>, stack: nat)
    ensures forall p: nat :: !Given(regions, 0, stack, p)
  {
  }

  lemma GivenNext(regions: seq<MemoryRegion>, i: nat, stack: nat, owned: set<nat>, first: nat)
    requires Separate(regions) && i < |regions| && Unclaimed(regions, owned, first)
    ensures forall p: nat :: Given(regions, i + 1, stack, p) <==>
              Given(regions, i, stack, p) || (Released(regions[i], stack) && regions[i].HasPage(p))
    ensures forall p: nat | Released(regions[i], stack) && regions[i].HasPage(p) ::
              !Given(regions, i, stack, p) && !Owns(owned, first, p)
  {
  }

  lemma Roomy(buddy: BuddyAllocator, regions: seq<MemoryRegion>, i: nat, lowest: nat)
    requires buddy.Valid() && Indexable(regions, lowest, BuddyAllocator.PageLimit(buddy.maxOrder))
    requires i < |regions| && regions[i].kind.IsHandedOver()
    ensures buddy.maxOrder > 0 && regions[i].AlignedEnd() <= lowest + PAGE * BuddyAllocator.PageLimit(buddy.maxOrder)
  {
    hide BuddyAllocator.PageLimit;
  }

  lemma PagesOfRegion(r: MemoryRegion)
    ensures forall p: nat :: r.HasPage(p) <==> r.AlignedBase() <= PAGE * p < r.AlignedEnd()
    ensures r.AlignedBase() % PAGE == 0 && r.AlignedEnd() % PAGE == 0
  {
  }

  /** The region set aside: address and page count of the one the stack is in. */
  method FindBootStack(regions: seq<MemoryRegion>, hhdm: nat, sp: nat)
    returns (found: Option<(nat, nat)>, ghost at: nat)
    requires sp >= hhdm
    ensures found.None? <==> forall r | r in regions :: !Deferred(r, StackPage(sp, hhdm))
    ensures found.Some? ==> at < |regions| && Deferred(regions[at], StackPage(sp, hhdm))
    ensures found.Some? ==> found.value == (hhdm + regions[at].AlignedBase(),
                                            (regions[at].AlignedEnd() - regions[at].AlignedBase()) / PAGE)
  {
    var stack := StackPage(sp, hhdm);
    for i := 0 to |regions|
      invariant forall j | 0 <= j < i :: !Deferred(regions[j], stack)
    {
      var r := regions[i];
      var base, end := r.AlignedBase(), r.AlignedEnd();
      if r.kind.IsReclaimable() && base >= ONE_MIB && base < end && stack >= base && stack < end {
        var pages := (end - base) / PAGE;
        PagesOfRegion(r);
        assert pages > 0 && r in regions && Deferred(r, stack);
        return Some((hhdm + base, pages)), i;
      }
    }
    return None, 0;
  }

  /** From the boot stack to the permanent one: note the region under the stack, release the
      others, and release that one after the switch. Every whole page of every reclaimable
      region based at or above 1 MiB is added once. `sp` is where the region is looked up,
      `spRelease` where the release loop looks at its own stack. */
  method Reclaim(buddy: BuddyAllocator, regions: seq<MemoryRegion>, hhdm: nat, sp: nat, spRelease: nat,
                 ghost lowest: nat)
    returns (ok: bool)
    requires buddy.Valid() && buddy.base == hhdm + lowest && buddy.base > 0 && lowest % PAGE == 0
    requires sp >= hhdm && spRelease >= hhdm
    requires forall r | r in regions && r.kind.IsReclaimable() ::
               HoldsStack(r, StackPage(sp, hhdm)) <==> HoldsStack(r, StackPage(spRelease, hhdm))
    requires Separate(regions) && Unclaimed(regions, buddy.owned, lowest / PAGE)
    requires Indexable(regions, lowest, BuddyAllocator.PageLimit(buddy.maxOrder))
    modifies buddy`ram, buddy`lists, buddy`owned, buddy`totalPages, buddy`stats, buddy.freeLists, buddy.bitmaps
    ensures buddy.Valid()
    ensures ok <==> forall r | r in regions && r.kind.IsReclaimable() && r.HasPages() && r.AlignedBase() >= 0x10_0000 ::
              r.AlignedBase() >= lowest
    ensures ok ==> forall p: nat ::
              Owns(buddy.owned, lowest / PAGE, p) <==> Owns(old(buddy.owned), lowest / PAGE, p) || Returned(regions, p)
    ensures old(buddy.owned) <= buddy.owned && NodesIn(old(buddy.ram), buddy.ram, buddy.owned, buddy.live)
  {
    hide BuddyAllocator.Valid, BuddyAllocator.PageLimit, Owns, Given, Unclaimed, Indexable, Separate, Returned,
      HoldsStack, NodesIn;
    ghost var stack := StackPage(spRelease, hhdm);
    var region, at := FindBootStack(regions, hhdm, sp);
    ReturnedSplit(regions, stack, region.Some?, at, buddy.owned, lowest / PAGE);
    var released := Release(buddy, regions, hhdm, spRelease, lowest);
    if !released {
      return false;
    }
    if region.Some? {
      Roomy(buddy, regions, at, lowest);
      PagesOfRegion(regions[at]);
      ghost var owned, words := buddy.owned, buddy.ram;
      var added := AddSpan(buddy, hhdm, region.value.0 - hhdm, region.value.0 - hhdm + PAGE * region.value.1, lowest);
      NodesThen(old(buddy.ram), words, buddy.ram, owned, buddy.owned, buddy.live);
      return added;
    }
    return true;
  }

  /** What has to come back is what the loop releases and the region set aside. */
  lemma ReturnedSplit(regions: seq<MemoryRegion>, stack: nat, aside: bool, at: nat, owned: set<nat>, first: nat)
    requires Separate(regions) && stack % PAGE == 0 && Unclaimed(regions, owned, first)
    requires aside ==> at < |regions| && Deferred(regions[at], stack)
    requires !aside ==> forall r | r in regions :: !Deferred(r, stack)
    ensures forall r | r in regions && r.kind.IsReclaimable() && r.HasPages() && r.AlignedBase() >= 0x10_0000 ::
              Released(r, stack) || (aside && r == regions[at])
    ensures aside ==> regions[at] in regions && !Released(regions[at], stack)
    ensures forall p: nat ::
              Returned(regions, p) <==> Given(regions, |regions|, stack, p) || (aside && regions[at].HasPage(p))
    ensures aside ==> forall p: nat | regions[at].HasPage(p) ::
              !Given(regions, |regions|, stack, p) && !Owns(owned, first, p)
  {
  }

  /** The whole hand-over of boot memory: afterwards the buddy owns exactly the usable pages
      outside the kernel and the reclaimable pages of regions based at or above 1 MiB, each
      counted once. It panics exactly when nothing is usable or when such a reclaimable
      region lies below the lowest usable one. */
  method HandOver(buddy: BuddyAllocator, regions: seq<MemoryRegion>, kernelStart: nat, kernelEnd: nat, hhdm: nat,
                  sp: nat, spRelease: nat) returns (ok: bool)
    requires buddy.Valid() && buddy.totalPages == 0
    requires hhdm > 0 && hhdm % PAGE == 0 && kernelStart <= kernelEnd && Separate(regions)
    requires sp >= hhdm && spRelease >= hhdm
    requires forall r | r in regions && r.kind.IsReclaimable() ::
               HoldsStack(r, StackPage(sp, hhdm)) <==> HoldsStack(r, StackPage(spRelease, hhdm))
    requires LowestBase(regions).Some? ==>
               Indexable(regions, LowestBase(regions).value, BuddyAllocator.PageLimit(buddy.maxOrder))
    modifies buddy`base, buddy`ram, buddy`lists, buddy`owned, buddy`totalPages, buddy`stats, buddy.freeLists,
      buddy.bitmaps
    ensures buddy.Valid()
    ensures ok <==>
              LowestBase(regions).Some? &&
              forall r | r in regions && r.kind.IsReclaimable() && r.HasPages() && r.AlignedBase() >= 0x10_0000 ::
                r.AlignedBase() >= LowestBase(regions).value
    ensures ok ==> forall p: nat :: Owns(buddy.owned, LowestBase(regions).value / PAGE, p) <==>
              Fed(regions, |regions|, kernelStart, kernelEnd, p) || Returned(regions, p)
    ensures ok ==> buddy.totalPages == |buddy.owned|
    ensures old(buddy.owned) <= buddy.owned && NodesIn(old(buddy.ram), buddy.ram, buddy.owned, buddy.live)
  {
    hide BuddyAllocator.Valid, BuddyAllocator.PageLimit, Owns, Fed, Returned, Indexable, Separate, Unclaimed,
      HoldsStack, StackPage, LowestBase, NodesIn;
    LowestBaseLeast(regions);
    var fed := Init(buddy, regions, kernelStart, kernelEnd, hhdm);
    if !fed {
      return false;
    }
    ghost var lowest := LowestBase(regions).value;
    FedLeavesRest(regions, kernelStart, kernelEnd, buddy.owned, lowest / PAGE);
    ghost var owned, words := buddy.owned, buddy.ram;
    ok := Reclaim(buddy, regions, hhdm, sp, spRelease, lowest);
    NodesThen(old(buddy.ram), words, buddy.ram, owned, buddy.owned, buddy.live);
    Counted(buddy);
  }

  lemma Counted(buddy: BuddyAllocator)
    requires buddy.Valid()
    ensures buddy.totalPages == |buddy.owned|
  {
    hide BuddyAllocator.Linked;
  }

  /** Heap initialisation claims no page of a reclaimable region. */
  lemma FedLeavesRest(regions: seq<MemoryRegion>, kernelStart: nat, kernelEnd: nat, owned: set<nat>, first: nat)
    requires Separate(regions)
    requires forall p: nat :: Owns(owned, first, p) <==> Fed(regions, |regions|, kernelStart, kernelEnd, p)
    ensures Unclaimed(regions, owned, first)
  {
  }

  // -------------------------------------------------------------- heap seed

  /** Carve 4 MiB from the buddy and give them to the byte-granular heap. False stands for
      the panic when the buddy has no such block. */
  method SeedHeap(buddy: BuddyAllocator, heap: TlsfInner) returns (ok: bool)
    requires buddy.Valid() && 10 < buddy.maxOrder && buddy.base > 0 && buddy.base % PAGE == 0
    requires {heap.slBitmap as object, heap.freeLists as object} !! {buddy.freeLists as object, buddy.bitmaps as object}
    requires heap.Indexed() && NoneListed(heap.lists) && heap.blocks == []
    requires Backed(heap.ram.Keys, buddy.base, buddy.owned) && Backed(heap.headers.Keys, buddy.base, buddy.owned)
    modifies buddy`ram, buddy`lists, buddy`live, buddy`stats, buddy.freeLists, buddy.bitmaps
    modifies heap`flBitmap, heap`headers, heap`ram, heap`lists, heap`blocks, heap`start, heap`end
    modifies heap.slBitmap, heap.freeLists
    ensures buddy.Valid()
    ensures !ok ==> buddy.Abs() == old(buddy.Abs()) && forall f | f in buddy.Free() :: f.order < 10
    ensures ok ==> heap.Valid() && heap.start >= buddy.base && heap.end == heap.start + PAGE * 1024
    ensures ok ==> Block(PageIndex(heap.start, buddy.base), 10) in buddy.live - old(buddy.live)
    ensures ok ==> heap.blocks == [Blk(heap.start, PAGE * 1024 - 64, true)] && AllLinkedBack(heap.headers, heap.blocks)
    ensures WritesIn(old(buddy.ram), buddy.ram, FreePages(old(buddy.Abs())))
    ensures ok ==> heap.headers == PoolHeaders(old(heap.headers), heap.start, PAGE * 1024, true)
    ensures ok ==> WritesIn(old(heap.ram), heap.ram, {heap.start, heap.end - 32})
  {
    hide BuddyAllocator.Valid, TlsfInner.Indexed, TlsfInner.Valid, NoneListed, AllLinkedBack, FreeSet, Backed, PoolRoom,
      PoolHeaders, PageIndex, WritesIn, PagesOf;
    var mem := TakeSeed(buddy);
    if mem.None? {
      return false;
    }
    SeedRoom(buddy, mem.value, heap.ram.Keys);
    SeedRoom(buddy, mem.value, heap.headers.Keys);
    SeedAligned(buddy.base, mem.value);
    ok := heap.AddPool(mem.value, PAGE * 1024);
  }

  method TakeSeed(buddy: BuddyAllocator) returns (mem: Option<nat>)
    requires buddy.Valid() && 10 < buddy.maxOrder
    modifies buddy`ram, buddy`lists, buddy`live, buddy`stats, buddy.freeLists, buddy.bitmaps
    ensures buddy.Valid()
    ensures mem.None? ==> buddy.Abs() == old(buddy.Abs()) && forall f | f in buddy.Free() :: f.order < 10
    ensures mem.Some? ==> mem.value >= buddy.base && PageAligned(mem.value - buddy.base)
    ensures mem.Some? ==> Block(PageIndex(mem.value, buddy.base), 10) in buddy.live - old(buddy.live)
    ensures WritesIn(old(buddy.ram), buddy.ram, FreePages(old(buddy.Abs())))
  {
    hide BuddyAllocator.Valid, AllocStep, FreeSet, PagesOf, Inv, Pow2, WritesIn;
    ghost var before := buddy.Abs();
    BuddyInv(buddy);
    mem := buddy.AllocPages(10);
    AllocGives(before, 10, BlockAt(mem, buddy.base, 10), buddy.Abs(), buddy.maxOrder);
  }

  lemma AllocGives(s: State, order: nat, got: Option<Block>, s': State, m: nat)
    requires Inv(s, m) && AllocStep(s, order, got, s')
    ensures got.None? ==> s' == s && forall f | f in s.free :: f.order < order
    ensures got.Some? ==> got.value in s'.live - s.live
  {
  }

  /** The 4 MiB of a live order-10 block are memory. */
  lemma SeedRoom(buddy: BuddyAllocator, mem: nat, dom: set<int>)
    requires Backed(dom, buddy.base, buddy.owned)
    requires buddy.Valid() && mem >= buddy.base && (mem - buddy.base) % PAGE == 0
    requires Block(PageIndex(mem, buddy.base), 10) in buddy.live
    ensures PoolRoom(dom, mem, PAGE * 1024)
  {
    hide BuddyAllocator.Valid, PagesOf, Block.Pages;
    BuddyInv(buddy);
    LiveBlockPages(buddy.Abs().live, Block(PageIndex(mem, buddy.base), 10));
    SeedPages(buddy.base, mem);
  }

  lemma SeedAligned(base: nat, mem: nat)
    requires base % PAGE == 0 && mem >= base && PageAligned(mem - base)
    ensures mem % 8 == 0
  {
    var q, r := base / PAGE, (mem - base) / PAGE;
    assert mem == (512 * (q + r)) * 8;
  }

  lemma SeedPages(base: nat, mem: nat)
    requires mem >= base && (mem - base) % PAGE == 0
    ensures forall a: nat | mem <= a < mem + PAGE * 1024 ::
              PageIndex(a, base) in Block(PageIndex(mem, base), 10).Pages()
  {
    assert Pow2(10) == 1024 by { Pow2Add(5, 5); assert Pow2(5) == 32; }
    hide Pow2;
    forall a: nat | mem <= a < mem + PAGE * 1024
      ensures PageIndex(a, base) in Block(PageIndex(mem, base), 10).Pages()
    {
      assert Block(PageIndex(mem, base), 10).Has(PageIndex(a, base));
    }
  }
}
