/** The binary buddy allocator in place: list heads, one exclusive-or bit per pair,
    and `FreeBlock` nodes stored in the free pages. */
module Buddy {
  import opened Bits
  import opened Blocks
  import opened BuddyTheory
  import opened BuddyMachine
  import opened BuddyRuns
  import opened FreeList
  import opened Wrappers

  /** `pages * PAGE_SIZE` */
  function Bytes(pages: nat): nat { pages * 4096 }

  /** Page index of an address, counted from `base`. */
  function PageIndex(addr: nat, base: nat): nat
    requires addr >= base
  {
    (addr - base) / 4096
  }

  predicate PageAligned(offset: nat) { offset % 4096 == 0 }

  const WORD_BITS := 64

  datatype AllocStats = AllocStats(
    totalBytes: nat, usedBytes: nat, freeBytes: nat,
    allocCount: nat, deallocCount: nat, peakBytes: nat)

  /** The counters `after` differ from `before` by one allocation of `bytes` bytes. */
  ghost predicate CountsAlloc(before: AllocStats, after: AllocStats, bytes: nat) {
    && after.totalBytes == before.totalBytes && after.deallocCount == before.deallocCount
    && after.usedBytes == before.usedBytes + bytes && after.freeBytes + bytes == before.freeBytes
    && after.allocCount == before.allocCount + 1
    && after.peakBytes >= before.peakBytes && after.peakBytes >= after.usedBytes
    && after.peakBytes in {before.peakBytes, after.usedBytes}
  }

  ghost predicate CountsDealloc(before: AllocStats, after: AllocStats, bytes: nat) {
    && after.totalBytes == before.totalBytes && after.allocCount == before.allocCount
    && after.usedBytes + bytes == before.usedBytes && after.freeBytes == before.freeBytes + bytes
    && after.deallocCount == before.deallocCount + 1 && after.peakBytes == before.peakBytes
  }

  /** The free blocks recorded by the lists: list `k` holds pages of order-`k` blocks. */
  ghost function FreeSet(lists: seq<seq<nat>>): set<Block> {
    set k, p | 0 <= k < |lists| && p in lists[k] :: Block(p, k)
  }

  lemma FreeSetPush(lists: seq<seq<nat>>, k: nat, p: nat)
    requires k < |lists|
    ensures FreeSet(lists[k := [p] + lists[k]]) == FreeSet(lists) + {Block(p, k)}
  {
  }

  lemma FreeSetUnlink(lists: seq<seq<nat>>, k: nat, i: nat)
    requires k < |lists| && i < |lists[k]| && NoDup(lists[k])
    ensures FreeSet(lists[k := Without(lists[k], i)]) == FreeSet(lists) - {Block(lists[k][i], k)}
  {
  }

  /** A page of a live block is on no list. */
  lemma LiveUnlisted(lists: seq<seq<nat>>, live: set<Block>, b: Block, p: nat, m: nat)
    requires Inv(State(FreeSet(lists), live), m) && b in live && p in b.Pages()
    ensures Unlisted(lists, p)
  {
  }

  lemma LivePagesUnlisted(lists: seq<seq<nat>>, live: set<Block>, m: nat)
    requires Inv(State(FreeSet(lists), live), m)
    ensures PagesOf(live) !! Listed(lists)
  {
  }

  /** Pages on a list are free. */
  lemma ListedFree(lists: seq<seq<nat>>)
    ensures Listed(lists) <= PagesOf(FreeSet(lists))
  {
    forall p | p in Listed(lists)
      ensures p in PagesOf(FreeSet(lists))
    {
      var k :| 0 <= k < |lists| && p in lists[k];
      var b := Block(p, k);
      WithinPages(b, b);
      PagesOfMember(FreeSet(lists), b, p);
    }
  }

  /** Words written in free pages only are not those of live ones. */
  lemma LiveSafe(ram: Ram, ram': Ram, free: set<nat>, live: set<nat>)
    requires WritesIn(ram, ram', free) && free !! live && forall p | p in live :: p in ram
    ensures WordsKept(ram, ram', live)
  {
  }

  /** While `f` is being split, the next upper half is aligned, off every list, and
      clear of the live blocks. */
  lemma SplitPieceFits(s: State, f: Block, c: nat, lists: seq<seq<nat>>, m: nat)
    requires Inv(s, m) && f in s.free && c < f.order
    requires FreeSet(lists) == s.free - {f} + Splits(f.page, c + 1, f.order)
    ensures var p := f.page + Pow2(c);
      && Block(p, c).IsAligned() && Unlisted(lists, p) && p in FreePages(s) && p !in LivePages(s)
    ensures Listed(lists) + {f.page + Pow2(c)} <= FreePages(s)
  {
    hide Splits, Unlisted, Laid, FreeSet, PagesOf, FlipBit, Shr, Aligned, Pow2;
    var (b, s') := AllocOf(s, c + 1, f);
    AllocEffect(s, c + 1, f, m);
    UpperHalf(b);
    var p := f.page + Pow2(c);
    assert s'.free == FreeSet(lists);
    LiveUnlisted(lists, s'.live, b, p, m);
    ListedFree(lists);
    PagesOfUnion(s.live, {b});
    PagesDisjoint(s.free, s.live, m);
  }

  lemma UpperHalf(b: Block)
    requires b.order > 0 && b.IsAligned()
    ensures b.Has(b.page + Pow2(b.order - 1)) && b.page + Pow2(b.order - 1) in b.Pages()
    ensures Block(b.page + Pow2(b.order - 1), b.order - 1).IsAligned()
  {
    hide FlipBit, Shr, Aligned;
    Halves(b);
    PairSymmetric(Block(b.page, b.order - 1));
    assert b.Has(b.page + Pow2(b.order - 1));
  }

  lemma PagesCount(b: Block)
    ensures |b.Pages()| == b.Size()
  {
    RangeCount(b.page, b.Size());
    forall p
      ensures p in b.Pages() <==> p in Range(b.page, b.Size())
    {
      if p >= 0 {
        assert b.Has(p) <==> InRange(p, b.page, b.Size());
      }
    }
    assert b.Pages() == Range(b.page, b.Size());
  }

  /** The books after an allocation: what the counters need to know. */
  lemma AllocBooks(s: State, order: nat, f: Block, owned: set<nat>, m: nat)
    requires Inv(s, m) && Taken(s, order, f) && FreePages(s) + LivePages(s) == owned
    ensures var (b, s') := AllocOf(s, order, f);
      && Inv(s', m) && AllocStep(s, order, Some(b), s')
      && FreePages(s') + LivePages(s') == owned
      && |LivePages(s')| == |LivePages(s)| + b.Size()
      && |LivePages(s')| <= |owned|
  {
    hide PagesOf, Splits, Laid;
    var (b, s') := AllocOf(s, order, f);
    AllocEffect(s, order, f, m);
    PagesCount(b);
    PagesDisjoint(s.free, s.live, m);
    assert LivePages(s) !! b.Pages();
    SubsetCount(LivePages(s'), owned);
  }

  /** The loop state of a deallocation: `b` is being returned, neither free nor live
      to anyone else. */
  ghost predicate Returning(free: set<Block>, rest: set<Block>, b: Block, owned: set<nat>, m: nat) {
    Inv(State(free, rest + {b}), m) && b !in rest && b.Pages() <= owned
    && PagesOf(free) <= owned
  }

  lemma ReturnBegins(s: State, b: Block, owned: set<nat>, m: nat)
    requires Inv(s, m) && b in s.live && FreePages(s) + LivePages(s) == owned
    ensures b.order < m && Returning(s.free, s.live - {b}, b, owned, m)
    ensures PagesOf(s.live - {b}) <= owned
  {
  }

  lemma MergeStep(free: set<Block>, rest: set<Block>, b: Block, owned: set<nat>, m: nat)
    requires Returning(free, rest, b, owned, m) && b.order + 1 < m && b.Buddy() in free
    ensures b.Buddy().IsAligned()
    ensures Inv(State(free, rest + {b}), m)
    ensures Returning(free - {b.Buddy()}, rest, b.Parent(), owned, m)
    ensures Coalesce(free, b, m) == Coalesce(free - {b.Buddy()}, b.Parent(), m)
  {
    var c, p := b.Buddy(), b.Parent();
    var all := free + (rest + {b});
    assert b in all && c in all;
    MergeCovers(b, m);
    PairCovers(b);
    ReplaceKeepsLayout(all, {b, c}, {p}, m);
    assert all - {b, c} + {p} == (free - {c}) + (rest + {p});
    assert p !in all - {b, c};
    PagesOfUnion({b}, {c});
    PagesOfOne(b);
    PagesOfOne(c);
    assert {b} + {c} == {b, c};
    assert c.Pages() <= PagesOf(free);
  }

  lemma CoalesceEnds(free: set<Block>, b: Block, m: nat)
    requires b.order + 1 >= m || b.Buddy() !in free
    ensures Coalesce(free, b, m) == free + {b}
  {
  }

  lemma ReturnFits(lists: seq<seq<nat>>, rest: set<Block>, b: Block, owned: set<nat>, m: nat)
    requires Returning(FreeSet(lists), rest, b, owned, m)
    ensures b.IsAligned() && b !in FreeSet(lists) && Unlisted(lists, b.page) && b.page in owned
    ensures Listed(lists) + {b.page} <= owned - PagesOf(rest)
  {
    assert b in FreeSet(lists) + (rest + {b});
    WithinPages(b, b);
    LiveUnlisted(lists, rest + {b}, b, b.page, m);
    LivePagesUnlisted(lists, rest + {b}, m);
    ListedFree(lists);
    PagesOfUnion(rest, {b});
    assert forall c | c in rest :: c in FreeSet(lists) + (rest + {b});
    PagesDisjoint(rest, {b}, m);
    PagesOfOne(b);
  }

  lemma LiveBlockPages(bs: set<Block>, b: Block)
    requires b in bs
    ensures b.Pages() <= PagesOf(bs)
  {
  }

  lemma PagesApart(s: State, m: nat)
    requires Inv(s, m)
    ensures FreePages(s) !! LivePages(s)
  {
    PagesDisjoint(s.free, s.live, m);
  }

  lemma DeallocBooks(s: State, b: Block, s': State, owned: set<nat>, m: nat)
    requires Inv(s, m) && DeallocStep(s, b, s', m) && FreePages(s) + LivePages(s) == owned
    ensures Inv(s', m) && FreePages(s') + LivePages(s') == owned && FreePages(s') !! LivePages(s')
    ensures |LivePages(s)| == |LivePages(s')| + b.Size()
  {
    hide PagesOf, Coalesce, Inv;
    LiveBlockPages(s.live, b);
    DeallocEffect(s, b, s', m);
    PagesCount(b);
    PagesApart(s', m);
    assert LivePages(s) == LivePages(s') + b.Pages();
  }

  /** `done` tiles the first `count` pages of the region being added to `s`. */
  ghost predicate AddedSoFar(s: State, done: set<Block>, first: nat, count: nat, m: nat) {
    && Inv(State(s.free + done, s.live), m)
    && PagesOf(done) == Range(first, count)
  }

  lemma AddBlockFits(s: State, done: set<Block>, first: nat, count: nat, b: Block, m: nat, lists: seq<seq<nat>>)
    requires AddedSoFar(s, done, first, count, m)
    requires b.page == first + count && b.IsAligned() && b.order < m
    requires b.Pages() !! FreePages(s) + LivePages(s)
    requires FreeSet(lists) == s.free + done
    ensures AddedSoFar(s, done + {b}, first, count + b.Size(), m)
    ensures Unlisted(lists, b.page) && b.page !in LivePages(s)
  {
    var all := s.free + done + s.live;
    PagesOfUnion(s.free, s.live);
    PagesOfUnion(s.free + s.live, done);
    assert s.free + s.live + done == all;
    WithinPages(b, b);
    assert b.Pages() !! PagesOf(all) by {
      forall p | p in b.Pages() ensures p !in PagesOf(done) {
        assert !InRange(p, first, count);
      }
    }
    AddToLayout(all, b, m);
    assert s.free + (done + {b}) + s.live == all + {b};
    PagesOfUnion(done, {b});
    PagesOfOne(b);
    assert Range(first, count) + b.Pages() == Range(first, count + b.Size()) by {
      assert forall p: nat :: InRange(p, first, count + b.Size()) <==> InRange(p, first, count) || b.Has(p);
    }
    forall k | 0 <= k < |lists|
      ensures b.page !in lists[k]
    {
      if b.page in lists[k] {
        var c := Block(b.page, k);
        WithinPages(c, c);
        PagesOfMember(all, c, b.page);
      }
    }
  }

  /** The pages listed so far, and the next one, are free or to be added. */
  lemma AddListed(s: State, done: set<Block>, first: nat, count: nat, m: nat, lists: seq<seq<nat>>, total: nat)
    requires AddedSoFar(s, done, first, count, m) && FreeSet(lists) == s.free + done && count < total
    ensures Listed(lists) + {first + count} <= FreePages(s) + Range(first, total)
  {
    hide Inv, PagesOf, FreeSet, Listed;
    ListedFree(lists);
    PagesOfUnion(s.free, done);
    RangeGrows(first, count, total);
    hide Range;
  }

  lemma RangeGrows(first: nat, count: nat, total: nat)
    requires count < total
    ensures Range(first, count) + {first + count} <= Range(first, total)
  {
    assert InRange(first + count, first, total);
    assert forall p: nat :: InRange(p, first, count) ==> InRange(p, first, total);
  }

  lemma PagesOfMember(bs: set<Block>, b: Block, p: nat)
    requires b in bs && p in b.Pages()
    ensures p in PagesOf(bs)
  {
  }

  lemma AddToLayout(bs: set<Block>, b: Block, m: nat)
    requires Laid(bs, m) && b.IsAligned() && b.order < m && b.Pages() !! PagesOf(bs)
    ensures Laid(bs + {b}, m) && b !in bs
  {
    WithinPages(b, b);
    forall c | c in bs
      ensures b.Disjoint(c) && c.Disjoint(b) && b != c
    {
      if !b.Disjoint(c) {
        SharedPage(b, c);
        var p := if b.page >= c.page then b.page else c.page;
        assert p in b.Pages() && b.Has(p) && c.Has(p);
        PagesOfMember(bs, c, p);
      }
    }
  }

  lemma CutStep(offset: nat, remaining: nat, m: nat, order: nat)
    requires m > 0 && remaining > 0 && order == GreedyOrder(offset, remaining, m)
    ensures Pow2(order) <= remaining
    ensures Cut(offset, remaining, m) ==
              {Block(offset, order)} + Cut(offset + Pow2(order), remaining - Pow2(order), m)
  {
    hide Log2, TrailingZeros, Min, Aligned;
    GreedyOrderLargest(offset, remaining, m, order);
  }

  lemma CutNothing(offset: nat, m: nat)
    requires m > 0
    ensures Cut(offset, 0, m) == {}
  {
  }

  lemma AddNothing(s: State, first: nat, m: nat)
    requires Inv(s, m)
    ensures AddedSoFar(s, {}, first, 0, m)
  {
  }

  lemma AddBooks(s: State, done: set<Block>, first: nat, count: nat, owned: set<nat>, m: nat)
    requires AddedSoFar(s, done, first, count, m)
    requires FreePages(s) + LivePages(s) == owned && Range(first, count) !! owned
    ensures var s' := State(s.free + done, s.live);
      && Inv(s', m)
      && FreePages(s') + LivePages(s') == owned + Range(first, count)
      && FreePages(s') == FreePages(s) + Range(first, count) && FreePages(s') !! LivePages(s')
    ensures |owned + Range(first, count)| == |owned| + count
    ensures |LivePages(s)| <= |owned|
  {
    hide Range, PagesOf;
    PagesOfUnion(s.free, done);
    PagesDisjoint(s.free + done, s.live, m);
    RangeCount(first, count);
    SubsetCount(LivePages(s), owned);
  }

  lemma RegionBlockFits(first: nat, count: nat, b: Block, remaining: nat, owned: set<nat>, m: nat)
    requires 0 < remaining <= count && m > 0 && Range(first, count) !! owned
    requires b == Block(first + count - remaining, GreedyOrder(first + count - remaining, remaining, m))
    ensures b.IsAligned() && b.order < m && b.Size() <= remaining
    ensures b.Pages() !! owned && b.page in Range(first, count)
  {
    GreedyOrderLargest(b.page, remaining, m, b.order);
    assert InRange(b.page, first, count);
    forall p | p in b.Pages() ensures p !in owned {
      assert InRange(p, first, count);
    }
  }

  class BuddyAllocator {
    const maxOrder: nat
    var base: nat
    var totalPages: nat
    const freeLists: array<int>
    const bitmaps: array2<nat>
    var stats: AllocStats
    /** The first words of every page, where a free block keeps its node. */
    var ram: Ram

    ghost var lists: seq<seq<nat>>
    ghost var live: set<Block>
    ghost var owned: set<nat>

    // ------------------------------------------------------------ invariant

    /** `u64` words in the bitmap of one order. */
    static function WordCount(m: nat): (n: nat)
      requires m > 0
    {
      Pow2(m - 1) / WORD_BITS + 1
    }

    /** Pages whose pair has a bit at every order. */
    static function PageLimit(m: nat): (n: nat)
      requires m > 0
      ensures Pow2(m) < n <= Pow2(m) + 128
    {
      2 * WORD_BITS * WordCount(m)
    }

    ghost predicate Shape()
      reads bitmaps
    {
      && maxOrder > 0
      && freeLists.Length == maxOrder
      && bitmaps.Length0 == maxOrder && bitmaps.Length1 == WordCount(maxOrder)
      && (forall k, w | 0 <= k < maxOrder && 0 <= w < bitmaps.Length1 :: bitmaps[k, w] < Pow2(WORD_BITS))
    }

    ghost predicate RamShape()
      reads this`ram
    {
      maxOrder > 0 && forall p :: p in ram <==> 0 <= p < PageLimit(maxOrder)
    }

    ghost predicate BitOf(k: nat, bit: nat)
      reads bitmaps
      requires k < bitmaps.Length0 && bit / WORD_BITS < bitmaps.Length1
    {
      TestBit(bitmaps[k, bit / WORD_BITS], bit % WORD_BITS)
    }

    ghost function Free(): set<Block>
      reads this`lists
    {
      FreeSet(lists)
    }

    ghost function Abs(): State
      reads this`lists, this`live
    {
      State(Free(), live)
    }

    /** The bit of every pair is (one half is free) xor (the other half is free). */
    ghost predicate BitsAgree(free: set<Block>)
      reads bitmaps
      requires Shape()
    {
      forall b: Block | b.IsAligned() && b.order < maxOrder && b.page < PageLimit(maxOrder) ::
        PairBit(b) == ((b in free) != (b.Buddy() in free))
    }

    ghost predicate PairBit(b: Block)
      reads bitmaps
      requires Shape() && b.order < maxOrder && b.page < PageLimit(maxOrder)
    {
      ShrShrinks(b.page, b.order);
      BitOf(b.order, b.PairIndex())
    }

    /** The lists are threaded correctly and the bits agree with them. */
    ghost predicate Linked()
      reads this`lists, this`ram, freeLists, bitmaps
    {
      && Shape() && RamShape()
      && AllThreaded(lists, freeLists[..], ram)
      && BitsAgree(Free())
    }

    ghost predicate StatsAgree()
      reads this`totalPages, this`stats, this`owned, this`lists, this`live
    {
      && totalPages == |owned|
      && stats.totalBytes == Bytes(totalPages)
      && stats.usedBytes == Bytes(|LivePages(Abs())|)
      && stats.usedBytes + stats.freeBytes == stats.totalBytes
      && stats.usedBytes <= stats.peakBytes
    }

    ghost predicate Valid()
      reads this`ram, this`lists, this`live, this`owned, this`totalPages, this`stats, freeLists, bitmaps
    {
      && Linked()
      && Inv(Abs(), maxOrder)
      && FreePages(Abs()) + LivePages(Abs()) == owned
      && (forall p | p in owned :: p < PageLimit(maxOrder))
      && StatsAgree()
    }

    lemma Facts()
      requires Valid()
      ensures maxOrder > 0 && freeLists.Length == maxOrder
      ensures forall b | b in Free() :: b.IsAligned() && b.order < maxOrder
      ensures forall p | p in owned :: p in ram
      ensures forall p | p in LivePages(Abs()) :: p in ram
      ensures FreePages(Abs()) !! LivePages(Abs())
    {
      assert forall b | b in Free() :: b in Free() + live;
      PagesDisjoint(Free(), live, maxOrder);
    }

    lemma RangeInRam(offset: nat, count: nat)
      requires Valid() && offset + count <= PageLimit(maxOrder)
      ensures maxOrder > 0
      ensures forall p | p in Range(offset, count) :: p in ram && p < PageLimit(maxOrder)
      ensures forall p | p in LivePages(Abs()) :: p in ram
    {
    }

    // --------------------------------------------------------- construction

    constructor (maxOrder: nat, ram: Ram)
      requires maxOrder > 0 && forall p :: p in ram <==> 0 <= p < PageLimit(maxOrder)
      ensures Valid() && fresh(freeLists) && fresh(bitmaps)
      ensures this.maxOrder == maxOrder && this.ram == ram
      ensures base == 0 && totalPages == 0 && Abs() == State({}, {}) && owned == {}
      ensures stats == AllocStats(0, 0, 0, 0, 0, 0)
    {
      this.maxOrder := maxOrder;
      base, totalPages := 0, 0;
      stats := AllocStats(0, 0, 0, 0, 0, 0);
      this.ram := ram;
      freeLists := new int[maxOrder](_ => NIL);
      bitmaps := new nat[maxOrder, WordCount(maxOrder)]((_, _) => 0);
      lists := seq(maxOrder, _ => []);
      live, owned := {}, {};
      new;
      EmptyState();
    }

    lemma EmptyState()
      requires maxOrder > 0 && freeLists.Length == maxOrder
      requires bitmaps.Length0 == maxOrder && bitmaps.Length1 == WordCount(maxOrder)
      requires forall k | 0 <= k < maxOrder :: freeLists[k] == NIL
      requires forall k, w | 0 <= k < maxOrder && 0 <= w < bitmaps.Length1 :: bitmaps[k, w] == 0
      requires RamShape()
      requires |lists| == maxOrder && forall k | 0 <= k < maxOrder :: lists[k] == []
      ensures Linked() && Free() == {}
    {
      assert Free() == {};
      hide Pow2, Shr, TestBit, Aligned;
      assert Shape() by { assert 0 < Pow2(WORD_BITS); }
      forall b: Block | b.IsAligned() && b.order < maxOrder && b.page < PageLimit(maxOrder)
        ensures !PairBit(b)
      {
        ShrShrinks(b.page, b.order);
        ZeroBits(b.PairIndex() % WORD_BITS);
      }
      assert forall k | 0 <= k < maxOrder :: freeLists[..][k] == NIL && Threaded(lists[k], NIL, ram);
    }

    // ----------------------------------------------------------------- bits

    /** `bitmaps[k].toggle(bit)` */
    method ToggleBit(k: nat, bit: nat)
      requires Shape() && k < maxOrder && bit / WORD_BITS < bitmaps.Length1
      modifies bitmaps
      ensures Shape()
      ensures forall j: nat, i: nat | j < maxOrder && i / WORD_BITS < bitmaps.Length1 ::
                BitOf(j, i) == (old(BitOf(j, i)) != (j == k && i == bit))
    {
      hide Shr, Pow2, FlipBit, WordCount;
      var w := bit / WORD_BITS;
      bitmaps[k, w] := FlipBit(bitmaps[k, w], bit % WORD_BITS);
      FlipBitWidth(old(bitmaps[k, w]), bit % WORD_BITS, WORD_BITS);
      forall j: nat, i: nat | j < maxOrder && i / WORD_BITS < bitmaps.Length1
        ensures BitOf(j, i) == (old(BitOf(j, i)) != (j == k && i == bit))
      {
        FlipBitTest(old(bitmaps[k, w]), bit % WORD_BITS, i % WORD_BITS);
      }
    }

    /** `bitmaps[k].test(bit)` */
    method ReadBit(k: nat, bit: nat) returns (r: bool)
      requires Shape() && k < maxOrder && bit / WORD_BITS < bitmaps.Length1
      ensures r == BitOf(k, bit)
    {
      r := TestBit(bitmaps[k, bit / WORD_BITS], bit % WORD_BITS);
    }

    /** Toggling the bit of the pair of `b` keeps the bits in agreement when `b` is
        what enters or leaves the free blocks. */
    method TogglePair(b: Block, ghost free: set<Block>, ghost free': set<Block>)
      requires Shape() && BitsAgree(free)
      requires b.IsAligned() && b.order < maxOrder && b.page < PageLimit(maxOrder)
      requires free' == free + {b} || free' == free - {b}
      requires (b in free) != (b in free')
      modifies bitmaps
      ensures Shape() && BitsAgree(free')
    {
      ShrShrinks(b.page, b.order);
      ToggleBit(b.order, Shr(b.page, b.order + 1));
      forall c: Block | c.IsAligned() && c.order < maxOrder && c.page < PageLimit(maxOrder)
        ensures PairBit(c) == ((c in free') != (c.Buddy() in free'))
      {
        ShrShrinks(c.page, c.order);
        PairXor(free, free', b, c);
        assert old(PairBit(c)) == ((c in free) != (c.Buddy() in free));
      }
    }

    // ---------------------------------------------------------------- lists

    lemma ListCount()
      requires Linked()
      ensures |lists| == maxOrder == freeLists.Length
    {
    }

    /** Push a block on the list of its order and toggle its pair. */
    method FreeBlock(page: nat, order: nat)
      requires Linked() && order < maxOrder && Block(page, order).IsAligned()
      requires page in ram && Unlisted(lists, page)
      modifies this`ram, this`lists, freeLists, bitmaps
      ensures Linked()
      ensures ram.Keys == old(ram.Keys)
      ensures Free() == old(Free()) + {Block(page, order)}
      ensures WritesIn(old(ram), ram, Listed(old(lists)) + {page})
    {
      hide AllThreaded, BitsAgree, PageLimit, Pow2, WordCount, Listed, WritesIn;
      ListCount();
      ghost var heads := freeLists[..];
      HeadInRam(lists, heads, ram, order);
      PushAll(lists, heads, ram, order, page);
      PushWrites(lists, heads, ram, order, page);
      FreeSetPush(lists, order, page);
      var head := freeLists[order];
      ram := ram[page := Node(NIL, head)];
      if head != NIL {
        ram := ram[head := ram[head].(prev := page)];
      }
      freeLists[order] := page;
      lists := lists[order := [page] + lists[order]];
      assert freeLists[..] == heads[order := page];
      TogglePair(Block(page, order), old(Free()), Free());
    }

    /** Unlink the node at `page`, the i-th of its list. */
    method Unlink(page: nat, order: nat, ghost i: nat)
      requires AllThreaded(lists, freeLists[..], ram)
      requires order < |lists| && i < |lists[order]| && lists[order][i] == page
      modifies this`ram, freeLists
      ensures ram.Keys == old(ram.Keys)
      ensures AllThreaded(lists[order := Without(lists[order], i)], freeLists[..], ram)
      ensures WritesIn(old(ram), ram, Listed(lists))
    {
      hide NoDup, AllThreaded, Listed, WritesIn;
      ghost var heads := freeLists[..];
      ghost var s := lists[order];
      ListThreaded(lists, heads, ram, order);
      Neighbours(s, heads[order], ram, i);
      UnlinkAll(lists, heads, ram, order, i);
      UnlinkWrites(lists, ram, order, i);
      var node := ram[page];
      if node.prev != NIL {
        ram := ram[node.prev := ram[node.prev].(next := node.next)];
      } else {
        freeLists[order] := node.next;
      }
      if node.next != NIL {
        ram := ram[node.next := ram[node.next].(prev := node.prev)];
      }
      assert freeLists[..] == heads[order := if i == 0 then At(s, 1) else heads[order]];
    }

    /** Take the block at `page` off the list of its order and toggle its pair. */
    method RemoveBlock(page: nat, order: nat)
      requires Linked() && order < maxOrder && Block(page, order).IsAligned()
      requires Block(page, order) in Free()
      modifies this`ram, this`lists, freeLists, bitmaps
      ensures Linked()
      ensures ram.Keys == old(ram.Keys)
      ensures Free() == old(Free()) - {Block(page, order)}
      ensures WritesIn(old(ram), ram, Listed(old(lists)))
    {
      hide AllThreaded, BitsAgree, PageLimit, Pow2, WordCount, Listed, WritesIn;
      ListCount();
      ghost var i :| 0 <= i < |lists[order]| && lists[order][i] == page;
      ListThreaded(lists, freeLists[..], ram, order);
      FreeSetUnlink(lists, order, i);
      Unlink(page, order, i);
      lists := lists[order := Without(lists[order], i)];
      TogglePair(Block(page, order), old(Free()), Free());
    }

    // ----------------------------------------------------------- operations

    /** Establish the base of the index space. */
    method SetBase(virtBase: nat)
      requires Valid() && totalPages == 0 && PageAligned(virtBase)
      modifies this`base
      ensures Valid() && base == virtBase
    {
      hide Linked, Inv, StatsAgree, FreeSet, PagesOf, PageLimit;
      base := virtBase;
    }

    /** The greedy loop of `AddRegion`: free `pageCount` pages block by block. */
    method CutRegion(first: nat, pageCount: nat)
      requires Linked() && Inv(Abs(), maxOrder) && maxOrder > 0
      requires Range(first, pageCount) !! FreePages(Abs()) + LivePages(Abs())
      requires forall p | p in Range(first, pageCount) :: p in ram
      requires forall p | p in LivePages(Abs()) :: p in ram
      modifies this`ram, this`lists, freeLists, bitmaps
      ensures Linked() && ram.Keys == old(ram.Keys)
      ensures Free() == old(Free()) + Cut(first, pageCount, maxOrder)
      ensures AddedSoFar(old(Abs()), Cut(first, pageCount, maxOrder), first, pageCount, maxOrder)
      ensures WritesIn(old(ram), ram, FreePages(old(Abs())) + Range(first, pageCount))
    {
      hide Linked, Inv, FreeSet, PagesOf, Pow2, Aligned, Unlisted, Listed, WritesIn, PageLimit, Range, Log2,
        TrailingZeros, AddedSoFar, Cut;
      var remaining: nat, offsetPages: nat := pageCount, first;
      ghost var s0, done: set<Block> := Abs(), {};
      AddNothing(s0, first, maxOrder);
      ghost var spare := FreePages(s0) + Range(first, pageCount);
      WritesNone(ram, spare);
      while remaining > 0
        modifies this`ram, this`lists, freeLists, bitmaps
        invariant first <= offsetPages && first + pageCount == offsetPages + remaining
        invariant Linked() && ram.Keys == old(ram.Keys)
        invariant Free() == s0.free + done
        invariant done + Cut(offsetPages, remaining, maxOrder) == Cut(first, pageCount, maxOrder)
        invariant AddedSoFar(s0, done, first, offsetPages - first, maxOrder)
        invariant WritesIn(old(ram), ram, spare)
      {
        var alignOrder := if offsetPages == 0 then maxOrder - 1 else TrailingZeros(offsetPages);
        alignOrder := Min(alignOrder, maxOrder - 1);
        var sizeOrder := Min(Log2(remaining), maxOrder - 1);
        var order := Min(alignOrder, sizeOrder);
        ghost var b := Block(offsetPages, order);
        CutStep(offsetPages, remaining, maxOrder, order);
        RegionBlockFits(first, pageCount, b, remaining, FreePages(s0) + LivePages(s0), maxOrder);
        AddBlockFits(s0, done, first, offsetPages - first, b, maxOrder, lists);

        ghost var words, written := ram, Listed(lists) + {offsetPages};
        AddListed(s0, done, first, offsetPages - first, maxOrder, lists, pageCount);
        FreeBlock(offsetPages, order);
        WritesThen(old(ram), words, ram, spare, written, spare);
        done := done + {b};
        offsetPages := offsetPages + Pow2(order);
        remaining := remaining - Pow2(order);
      }
      CutNothing(offsetPages, maxOrder);
      assert done == Cut(first, pageCount, maxOrder);
    }

    /** Register `pageCount` pages at `virtBase`, cut greedily into aligned blocks. */
    method AddRegion(virtBase: nat, pageCount: nat)
      requires Valid() && base != 0 && virtBase >= base
      requires PageIndex(virtBase, base) + pageCount <= PageLimit(maxOrder)
      requires Range(PageIndex(virtBase, base), pageCount) !! owned
      modifies this`ram, this`lists, this`owned, this`totalPages, this`stats, freeLists, bitmaps
      ensures Valid()
      ensures var offset := PageIndex(virtBase, base);
        && Abs() == State(old(Free()) + Cut(offset, pageCount, maxOrder), live)
        && owned == old(owned) + Range(offset, pageCount)
      ensures ram.Keys == old(ram.Keys)
      ensures WritesIn(old(ram), ram, FreePages(Abs())) && WordsKept(old(ram), ram, LivePages(Abs()))
      ensures stats == old(stats).(totalBytes := Bytes(|owned|),
                                   freeBytes := Bytes(|owned|) - old(stats).usedBytes)
    {
      hide Linked, Inv, FreeSet, PagesOf, AddedSoFar, Cut, Range, PageLimit, WordsKept, PageIndex, StatsAgree, WritesIn;
      var offsetPages: nat := PageIndex(virtBase, base);
      RangeInRam(offsetPages, pageCount);
      CutAndBook(offsetPages, pageCount);
      LiveSafe(old(ram), ram, FreePages(Abs()), LivePages(Abs()));
      CountRegion(offsetPages, pageCount);
    }

    /** The loop, and what it does to the books. */
    method CutAndBook(first: nat, pageCount: nat)
      requires Linked() && Inv(Abs(), maxOrder) && maxOrder > 0
      requires FreePages(Abs()) + LivePages(Abs()) == owned && Range(first, pageCount) !! owned
      requires forall p | p in Range(first, pageCount) :: p in ram
      requires forall p | p in LivePages(Abs()) :: p in ram
      modifies this`ram, this`lists, freeLists, bitmaps
      ensures Linked() && Inv(Abs(), maxOrder) && ram.Keys == old(ram.Keys)
      ensures Free() == old(Free()) + Cut(first, pageCount, maxOrder)
      ensures FreePages(Abs()) + LivePages(Abs()) == owned + Range(first, pageCount)
      ensures |owned + Range(first, pageCount)| == |owned| + pageCount && |LivePages(Abs())| <= |owned|
      ensures FreePages(Abs()) !! LivePages(Abs()) && WritesIn(old(ram), ram, FreePages(Abs()))
      ensures old(StatsAgree()) ==> StatsAgree()
    {
      hide Linked, Inv, FreeSet, PagesOf, AddedSoFar, Cut, Range, PageLimit, WritesIn;
      CutRegion(first, pageCount);
      AddBooks(old(Abs()), Cut(first, pageCount, maxOrder), first, pageCount, owned, maxOrder);
    }

    /** Count `pageCount` more pages as owned. */
    method CountRegion(offset: nat, pageCount: nat)
      requires StatsAgree() && |LivePages(Abs())| <= |owned|
      requires |owned + Range(offset, pageCount)| == |owned| + pageCount
      modifies this`owned, this`totalPages, this`stats
      ensures StatsAgree()
      ensures owned == old(owned) + Range(offset, pageCount)
      ensures totalPages == old(totalPages) + pageCount
      ensures stats == old(stats).(totalBytes := Bytes(|owned|),
                                   freeBytes := Bytes(|owned|) - old(stats).usedBytes)
    {
      hide FreeSet, PagesOf, Range;
      totalPages := totalPages + pageCount;
      stats := stats.(totalBytes := Bytes(totalPages));
      stats := stats.(freeBytes := stats.totalBytes - stats.usedBytes);
      owned := owned + Range(offset, pageCount);
    }

    /** Take the first block of list `order`. */
    method PopBlock(order: nat) returns (page: nat)
      requires Linked() && order < maxOrder && freeLists[order] != NIL
      requires forall b | b in Free() :: b.IsAligned()
      modifies this`ram, this`lists, freeLists, bitmaps
      ensures Linked()
      ensures Block(page, order) in old(Free())
      ensures Free() == old(Free()) - {Block(page, order)}
      ensures ram.Keys == old(ram.Keys)
      ensures WritesIn(old(ram), ram, Listed(old(lists)))
    {
      hide AllThreaded, BitsAgree, PageLimit, Pow2, WordCount, Listed, WritesIn;
      ListCount();
      HeadInRam(lists, freeLists[..], ram, order);
      ListThreaded(lists, freeLists[..], ram, order);
      page := freeLists[order];
      FreeSetUnlink(lists, order, 0);
      assert Block(page, order) in Free();
      PopHead(order);
      lists := lists[order := Without(lists[order], 0)];
      TogglePair(Block(page, order), old(Free()), Free());
    }

    /** Unlink the head of list `order`. */
    method PopHead(order: nat)
      requires AllThreaded(lists, freeLists[..], ram)
      requires order < |lists| && lists[order] != []
      modifies this`ram, freeLists
      ensures ram.Keys == old(ram.Keys)
      ensures AllThreaded(lists[order := Without(lists[order], 0)], freeLists[..], ram)
      ensures WritesIn(old(ram), ram, Listed(lists))
    {
      hide NoDup, AllThreaded, Listed, WritesIn;
      ghost var heads := freeLists[..];
      ghost var s := lists[order];
      ListThreaded(lists, heads, ram, order);
      HeadInRam(lists, heads, ram, order);
      Neighbours(s, heads[order], ram, 0);
      UnlinkAll(lists, heads, ram, order, 0);
      UnlinkWrites(lists, ram, order, 0);
      var block := ram[freeLists[order]];
      freeLists[order] := block.next;
      if block.next != NIL {
        ram := ram[block.next := ram[block.next].(prev := NIL)];
      }
      assert freeLists[..] == heads[order := At(s, 1)];
    }

    /** The least order not below `order` whose list is not empty. */
    method FindOrder(order: nat) returns (found: Option<nat>)
      requires Linked() && order < maxOrder
      ensures found.None? ==> forall f | f in Free() :: f.order < order
      ensures found.Some? ==>
        && order <= found.value < maxOrder && freeLists[found.value] != NIL
        && forall f | f in Free() && order <= f.order :: found.value <= f.order
    {
      var k := order;
      while k < maxOrder
        invariant order <= k <= maxOrder
        invariant forall f | f in Free() :: f.order < order || k <= f.order
      {
        HeadInRam(lists, freeLists[..], ram, k);
        if freeLists[k] != NIL {
          return Some(k);
        }
        k := k + 1;
      }
      return None;
    }

    /** Give back the upper halves of the block at `page` from order `found` down to `order`. */
    method SplitDown(page: nat, found: nat, order: nat, ghost s0: State)
      requires Linked() && order <= found < maxOrder
      requires Inv(s0, maxOrder) && Block(page, found) in s0.free
      requires Free() == s0.free - {Block(page, found)}
      requires forall p | p in FreePages(s0) + LivePages(s0) :: p in ram
      modifies this`ram, this`lists, freeLists, bitmaps
      ensures Linked() && ram.Keys == old(ram.Keys)
      ensures Free() == s0.free - {Block(page, found)} + Splits(page, order, found)
      ensures WritesIn(old(ram), ram, FreePages(s0))
    {
      hide Linked, Inv, FreeSet, PagesOf, Pow2, Aligned, Unlisted, Listed, WritesIn;
      WritesNone(ram, FreePages(s0));
      ghost var f := Block(page, found);
      var currentOrder := found;
      while currentOrder > order
        modifies this`ram, this`lists, freeLists, bitmaps
        invariant order <= currentOrder <= found
        invariant Linked() && ram.Keys == old(ram.Keys)
        invariant Free() == s0.free - {f} + Splits(page, currentOrder, found)
        invariant WritesIn(old(ram), ram, FreePages(s0))
      {
        currentOrder := currentOrder - 1;
        SplitPieceFits(s0, f, currentOrder, lists, maxOrder);
        ghost var words, written := ram, Listed(lists) + {page + Pow2(currentOrder)};
        FreeBlock(page + Pow2(currentOrder), currentOrder);
        WritesThen(old(ram), words, ram, FreePages(s0), written, FreePages(s0));
      }
    }

    /** The block part of `AllocPages`: find, pop, split down. */
    method TakeBlock(order: nat) returns (page: Option<nat>)
      requires Valid() && order < maxOrder
      modifies this`ram, this`lists, this`live, freeLists, bitmaps
      ensures Linked() && Inv(Abs(), maxOrder) && ram.Keys == old(ram.Keys)
      ensures AllocStep(old(Abs()), order, if page.None? then None else Some(Block(page.value, order)), Abs())
      ensures FreePages(Abs()) + LivePages(Abs()) == owned
      ensures page.None? ==> live == old(live)
      ensures page.Some? ==> |LivePages(Abs())| == |LivePages(old(Abs()))| + Pow2(order) <= |owned|
      ensures WritesIn(old(ram), ram, FreePages(old(Abs())))
    {
      hide Linked, Inv, FreeSet, PagesOf, Pow2, Aligned, Unlisted, PageLimit, Splits, AllocStep, Listed, WritesIn;
      Facts();
      var found := FindOrder(order);
      if found.None? {
        AllocNothing(Abs(), order);
        WritesNone(ram, FreePages(Abs()));
        return None;
      }
      ghost var s0 := Abs();
      ListedFree(lists);
      var pageIdx := PopBlock(found.value);
      ghost var words := ram;
      SplitDown(pageIdx, found.value, order, s0);
      WritesThen(old(ram), words, ram, Listed(old(lists)), FreePages(s0), FreePages(s0));
      AllocBooks(s0, order, Block(pageIdx, found.value), owned, maxOrder);
      live := live + {Block(pageIdx, order)};
      return Some(pageIdx);
    }

    /** Count an allocation of `bytes` bytes. */
    method CountAlloc(bytes: nat)
      requires bytes <= stats.freeBytes
      modifies this`stats
      ensures CountsAlloc(old(stats), stats, bytes)
    {
      stats := stats.(usedBytes := stats.usedBytes + bytes);
      stats := stats.(freeBytes := stats.freeBytes - bytes);
      stats := stats.(allocCount := stats.allocCount + 1);
      if stats.usedBytes > stats.peakBytes {
        stats := stats.(peakBytes := stats.usedBytes);
      }
    }

    /** Allocate `1 << order` contiguous pages; the address of the first, or none. */
    method AllocPages(order: nat) returns (r: Option<nat>)
      requires Valid() && order < maxOrder
      modifies this`ram, this`lists, this`live, this`stats, freeLists, bitmaps
      ensures Valid() && ram.Keys == old(ram.Keys)
      ensures r.Some? ==> r.value >= base && PageAligned(r.value - base)
      ensures AllocStep(old(Abs()), order, BlockAt(r, base, order), Abs())
      ensures r.None? ==> stats == old(stats)
      ensures r.Some? ==> CountsAlloc(old(stats), stats, 4096 * Pow2(order))
      ensures WritesIn(old(ram), ram, FreePages(old(Abs()))) && WordsKept(old(ram), ram, LivePages(old(Abs())))
    {
      hide Linked, Inv, FreeSet, PagesOf, Pow2, AllocStep, WritesIn, WordsKept;
      Facts();
      ghost var s := Abs();
      var page := TakeBlock(order);
      LiveSafe(old(ram), ram, FreePages(s), LivePages(s));
      if page.None? {
        return None;
      }
      CountAlloc(Bytes(Pow2(order)));
      AddressOfPage(base, page.value);
      return Some(base + Bytes(page.value));
    }

    /** The block part of `DeallocPages`: merge with the buddy while its bit says it is
        free, then put the result on its list. */
    method ReturnBlock(page: nat, order: nat)
      requires Valid() && Block(page, order) in live
      modifies this`ram, this`lists, this`live, freeLists, bitmaps
      ensures Linked() && Inv(Abs(), maxOrder) && ram.Keys == old(ram.Keys)
      ensures DeallocStep(old(Abs()), Block(page, order), Abs(), maxOrder)
      ensures FreePages(Abs()) + LivePages(Abs()) == owned
      ensures |LivePages(old(Abs()))| == |LivePages(Abs())| + Pow2(order)
      ensures FreePages(Abs()) !! LivePages(Abs()) && WritesIn(old(ram), ram, FreePages(Abs()))
    {
      hide Linked, Inv, FreeSet, PagesOf, Pow2, Shr, FlipBit, Aligned, Unlisted, PageLimit, Coalesce, Listed,
        WritesIn, Returning;
      Facts();
      ghost var s0, b0, rest := Abs(), Block(page, order), live - {Block(page, order)};
      ReturnBegins(s0, b0, owned, maxOrder);
      var pageIdx, ord := MergeUp(page, order, rest);
      ReturnFits(lists, rest, Block(pageIdx, ord), owned, maxOrder);
      ghost var words, spare := ram, owned - PagesOf(rest);
      ghost var written := Listed(lists) + {pageIdx};
      FreeBlock(pageIdx, ord);
      WritesThen(old(ram), words, ram, spare, written, spare);
      live := rest;
      DeallocBooks(s0, b0, Abs(), owned, maxOrder);
    }

    /** The merge loop: take the buddy off its list as long as its bit says that it is free. */
    method MergeUp(page: nat, order: nat, ghost rest: set<Block>) returns (pageIdx: nat, ord: nat)
      requires Linked() && order < maxOrder && Returning(Free(), rest, Block(page, order), owned, maxOrder)
      requires forall p | p in owned :: p in ram
      modifies this`ram, this`lists, freeLists, bitmaps
      ensures Linked() && ram.Keys == old(ram.Keys) && ord < maxOrder
      ensures Returning(Free(), rest, Block(pageIdx, ord), owned, maxOrder)
      ensures Free() + {Block(pageIdx, ord)} == Coalesce(old(Free()), Block(page, order), maxOrder)
      ensures WritesIn(old(ram), ram, owned - PagesOf(rest))
    {
      hide Linked, Inv, FreeSet, PagesOf, Pow2, Shr, FlipBit, Aligned, Unlisted, PageLimit, Coalesce, Listed,
        WritesIn, Returning;
      ghost var spare, free, b0 := owned - PagesOf(rest), Free(), Block(page, order);
      WritesNone(ram, spare);
      pageIdx, ord := page, order;
      while ord < maxOrder - 1
        modifies this`ram, this`lists, freeLists, bitmaps
        invariant ord < maxOrder && Linked() && ram.Keys == old(ram.Keys)
        invariant Returning(Free(), rest, Block(pageIdx, ord), owned, maxOrder)
        invariant Coalesce(Free(), Block(pageIdx, ord), maxOrder) == Coalesce(free, b0, maxOrder)
        invariant WritesIn(old(ram), ram, spare)
      {
        ghost var b := Block(pageIdx, ord);
        var buddyIdx := FlipBit(pageIdx, ord);
        var bit := TestPair(pageIdx, ord, rest);
        if !bit {
          break;
        }
        MergeStep(Free(), rest, b, owned, maxOrder);
        ReturnFits(lists, rest, b, owned, maxOrder);
        ghost var words, written := ram, Listed(lists);
        RemoveBlock(buddyIdx, ord);
        WritesThen(old(ram), words, ram, spare, written, spare);
        pageIdx := if pageIdx <= buddyIdx then pageIdx else buddyIdx;
        ord := ord + 1;
      }
      CoalesceEnds(Free(), Block(pageIdx, ord), maxOrder);
    }

    /** Test the bit of the pair of a block that is not free: its buddy's freedom. */
    method TestPair(page: nat, ord: nat, ghost rest: set<Block>) returns (bit: bool)
      requires Linked() && ord < maxOrder
      requires Returning(Free(), rest, Block(page, ord), owned, maxOrder)
      requires forall p | p in owned :: p in ram
      ensures bit <==> Block(page, ord).Buddy() in Free()
    {
      ghost var b := Block(page, ord);
      ReturnFits(lists, rest, b, owned, maxOrder);
      ShrShrinks(page, ord);
      bit := ReadBit(ord, Shr(page, ord + 1));
      assert PairBit(b) == ((b in Free()) != (b.Buddy() in Free()));
    }

    /** Count a deallocation of `bytes` bytes. */
    method CountDealloc(bytes: nat)
      requires bytes <= stats.usedBytes
      modifies this`stats
      ensures CountsDealloc(old(stats), stats, bytes)
    {
      stats := stats.(usedBytes := stats.usedBytes - bytes);
      stats := stats.(freeBytes := stats.freeBytes + bytes);
      stats := stats.(deallocCount := stats.deallocCount + 1);
    }

    /** Give a live block back at the order it was taken with. */
    method DeallocPages(addr: nat, order: nat)
      requires Valid()
      requires addr >= base && PageAligned(addr - base) && order < maxOrder
      requires Block(PageIndex(addr, base), order) in live
      modifies this`ram, this`lists, this`live, this`stats, freeLists, bitmaps
      ensures Valid() && ram.Keys == old(ram.Keys)
      ensures DeallocStep(old(Abs()), Block(PageIndex(addr, base), order), Abs(), maxOrder)
      ensures CountsDealloc(old(stats), stats, 4096 * Pow2(order))
      ensures WritesIn(old(ram), ram, FreePages(Abs())) && WordsKept(old(ram), ram, LivePages(Abs()))
    {
      hide Linked, Inv, FreeSet, PagesOf, Pow2, DeallocStep, PageLimit, WritesIn, WordsKept;
      Facts();
      ReturnBlock(PageIndex(addr, base), order);
      LiveSafe(old(ram), ram, FreePages(Abs()), LivePages(Abs()));
      CountDealloc(Bytes(Pow2(order)));
    }
  }

  /** What a client needs to know of a valid allocator. */
  lemma BuddyInv(b: BuddyAllocator)
    requires b.Valid()
    ensures b.maxOrder > 0 && Inv(b.Abs(), b.maxOrder)
    ensures LivePages(b.Abs()) <= b.owned && FreePages(b.Abs()) <= b.owned
  {
    hide Inv, PagesOf, AllThreaded, BuddyAllocator.BitsAgree, BuddyAllocator.RamShape, BuddyAllocator.StatsAgree;
  }

  /** Live pages are memory, and none of them is free. */
  lemma LiveApart(b: BuddyAllocator)
    requires b.Valid()
    ensures FreePages(b.Abs()) !! LivePages(b.Abs())
    ensures forall p | p in LivePages(b.Abs()) :: p in b.ram
  {
    b.Facts();
  }

  /** Every address in an owned page is in `dom`. */
  ghost predicate Backed(dom: set<int>, base: nat, owned: set<nat>) {
    forall a: nat | base <= a && PageIndex(a, base) in owned :: a in dom
  }

  lemma AddressOfPage(base: nat, page: nat)
    ensures PageIndex(base + Bytes(page), base) == page && PageAligned(Bytes(page))
  {
  }

  lemma AllocNothing(s: State, order: nat)
    requires forall f | f in s.free :: f.order < order
    ensures AllocStep(s, order, None, s)
  {
  }

  function Max(a: nat, b: nat): nat { if a >= b then a else b }

  /** The block an address returned for `order` names. */
  function BlockAt(r: Option<nat>, base: nat, order: nat): Option<Block>
    requires r.Some? ==> r.value >= base
  {
    if r.None? then None else Some(Block(PageIndex(r.value, base), order))
  }

  /** The exclusive or of a pair changes exactly when one of its halves does. */
  lemma PairXor(free: set<Block>, free': set<Block>, b: Block, c: Block)
    requires b.IsAligned() && c.IsAligned()
    requires free' == free + {b} || free' == free - {b}
    requires (b in free) != (b in free')
    ensures ((c in free') != (c.Buddy() in free')) ==
            (((c in free) != (c.Buddy() in free)) != (c.order == b.order && c.PairIndex() == b.PairIndex()))
  {
    PairSymmetric(b);
    PairSymmetric(c);
    if c.order == b.order && c.PairIndex() == b.PairIndex() {
      SamePair(b, c);
    }
  }

  lemma {:induction false} ShrShrinks(n: nat, k: nat)
    ensures Shr(n, k + 1) <= n / 2
  {
    if k > 0 {
      ShrShrinks(n / 2, k - 1);
    }
  }
}
