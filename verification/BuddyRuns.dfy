/** The greedy cut of a region into blocks, and whole runs of the buddy allocator
    that start from one region. */
module BuddyRuns {
  import opened Bits
  import opened Blocks
  import opened BuddyTheory
  import opened BuddyMachine
  import opened Wrappers

  // ----------------------------------------------------------- greedy cut

  /** The order `add_region` picks at page `offset` with `remaining` pages to go. */
  function GreedyOrder(offset: nat, remaining: nat, m: nat): nat
    requires remaining > 0 && m > 0
  {
    var align := if offset == 0 then m - 1 else Min(TrailingZeros(offset), m - 1);
    var size := Min(Log2(remaining), m - 1);
    Min(align, size)
  }

  function Min(a: nat, b: nat): nat { if a <= b then a else b }

  /** It is the largest order below `m` that is both aligned and small enough. */
  lemma GreedyOrderLargest(offset: nat, remaining: nat, m: nat, k: nat)
    requires remaining > 0 && m > 0
    ensures k <= GreedyOrder(offset, remaining, m) <==> k < m && Aligned(offset, k) && Pow2(k) <= remaining
  {
    if offset > 0 {
      TrailingZerosAligned(offset, k);
    } else {
      assert Aligned(0, k);
    }
    if k <= Log2(remaining) {
      Pow2Mono(k, Log2(remaining));
    } else {
      Pow2Mono(Log2(remaining) + 1, k);
    }
  }

  function Cut(offset: nat, remaining: nat, m: nat): set<Block>
    requires m > 0
    decreases remaining
  {
    if remaining == 0 then {}
    else
      var order := GreedyOrder(offset, remaining, m);
      GreedyOrderLargest(offset, remaining, m, order);
      {Block(offset, order)} + Cut(offset + Pow2(order), remaining - Pow2(order), m)
  }

  ghost function Range(offset: nat, count: nat): set<nat> {
    set p: nat | p < offset + count && InRange(p, offset, count)
  }

  predicate InRange(p: nat, offset: nat, count: nat) { offset <= p < offset + count }

  lemma {:induction false} RangeCount(offset: nat, count: nat)
    ensures |Range(offset, count)| == count
  {
    if count == 0 {
      assert Range(offset, count) == {};
    } else {
      RangeCount(offset, count - 1);
      var last := offset + count - 1;
      assert InRange(last, offset, count);
      forall p
        ensures p in Range(offset, count) <==> p in Range(offset, count - 1) + {last}
      {
        if p >= 0 {
          assert InRange(p, offset, count) <==> InRange(p, offset, count - 1) || p == last;
        }
      }
      assert Range(offset, count) == Range(offset, count - 1) + {last};
      assert last !in Range(offset, count - 1);
    }
  }

  lemma {:induction false} SubsetCount(a: set<nat>, b: set<nat>)
    requires a <= b
    ensures |a| <= |b|
  {
    assert b == a + (b - a);
  }

  /** `b` lies below page `end` and has the greedy order of its place. */
  ghost predicate GreedyPlaced(b: Block, end: nat, m: nat)
    requires m > 0
  {
    && b.IsAligned() && b.order < m && b.End() <= end
    && b.order == GreedyOrder(b.page, end - b.page, m)
  }

  lemma {:induction false} CutShape(offset: nat, remaining: nat, m: nat)
    requires m > 0
    ensures forall b | b in Cut(offset, remaining, m) :: offset <= b.page && GreedyPlaced(b, offset + remaining, m)
    decreases remaining
  {
    hide Log2, TrailingZeros, Pow2, Shr, FlipBit, Min;
    if remaining > 0 {
      var order := GreedyOrder(offset, remaining, m);
      var b := Block(offset, order);
      GreedyOrderLargest(offset, remaining, m, order);
      assert GreedyPlaced(b, offset + remaining, m);
      CutShape(b.End(), remaining - b.Size(), m);
      assert Cut(offset, remaining, m) == {b} + Cut(b.End(), remaining - b.Size(), m);
    }
  }

  /** The cut tiles the region exactly. */
  lemma {:induction false} CutTiles(offset: nat, remaining: nat, m: nat)
    requires m > 0
    ensures Laid(Cut(offset, remaining, m), m)
    ensures PagesOf(Cut(offset, remaining, m)) == Range(offset, remaining)
    decreases remaining
  {
    hide GreedyOrder, Pow2, PagesOf, Range, Laid;
    if remaining == 0 {
      assert Laid({}, m) && PagesOf({}) == {} == Range(offset, 0) by { NothingLaid(offset, m); }
    } else {
      var order := GreedyOrder(offset, remaining, m);
      var b := Block(offset, order);
      GreedyOrderLargest(offset, remaining, m, order);
      CutTiles(b.End(), remaining - b.Size(), m);
      CutShape(b.End(), remaining - b.Size(), m);
      TileStep(b, Cut(b.End(), remaining - b.Size(), m), remaining, m);
    }
  }

  lemma NothingLaid(offset: nat, m: nat)
    ensures Laid({}, m) && PagesOf({}) == {} == Range(offset, 0)
  {
  }

  /** A block in front of a tiling of what follows it. */
  lemma TileStep(b: Block, rest: set<Block>, count: nat, m: nat)
    requires b.IsAligned() && b.order < m && b.Size() <= count
    requires Laid(rest, m) && PagesOf(rest) == Range(b.End(), count - b.Size())
    requires forall c | c in rest :: b.End() <= c.page
    ensures Laid({b} + rest, m) && PagesOf({b} + rest) == Range(b.page, count)
  {
    hide Pow2, Range, PagesOf, Block.IsAligned;
    PagesOfUnion({b}, rest);
    PagesOfOne(b);
    RangeFrom(b, count);
  }

  lemma RangeFrom(b: Block, count: nat)
    requires b.Size() <= count
    ensures b.Pages() + Range(b.End(), count - b.Size()) == Range(b.page, count)
  {
  }

  /** No two blocks of a cut are buddies below the top order. */
  lemma CutCoalesced(offset: nat, count: nat, m: nat)
    requires m > 0
    ensures Coalesced(Cut(offset, count, m), m)
  {
    hide GreedyOrder, Cut, Pow2, FlipBit, Shr;
    var cut := Cut(offset, count, m);
    CutShape(offset, count, m);
    forall b | b in cut && b.order + 1 < m
      ensures b.Buddy() !in cut
    {
      PairShape(b);
      PairSymmetric(b);
      if b.Buddy() in cut {
        if TestBit(b.page, b.order) {
          CutPair(b.Buddy(), offset + count - b.Buddy().page, m);
        } else {
          CutPair(b, offset + count - b.page, m);
        }
      }
    }
  }

  /** A lower half with room for its upper half would have been cut one order higher. */
  lemma CutPair(l: Block, count: nat, m: nat)
    requires m > 0 && l.IsAligned() && l.Parent().page == l.page
    requires count > 0 && l.order == GreedyOrder(l.page, count, m)
    ensures l.order + 1 < m ==> count < 2 * l.Size()
  {
    ParentAligned(l);
    GreedyOrderLargest(l.page, count, m, l.order + 1);
  }

  // ------------------------------------------------------------ round trip

  /** Freeing what was just allocated climbs back through the split pieces. */
  lemma {:induction false} CoalesceUndoesSplit(free: set<Block>, f: Block, order: nat, m: nat)
    requires f.IsAligned() && order <= f.order < m
    requires forall c | c in free :: c.page != f.page || c.order >= f.order
    requires free !! Splits(f.page, order, f.order)
    ensures Coalesce(free + Splits(f.page, order, f.order), Block(f.page, order), m) == Coalesce(free, f, m)
    decreases f.order - order
  {
    if order < f.order {
      var b, c := Block(f.page, order), Block(f.page + Pow2(order), order);
      SplitBuddy(f, c);
      PairSymmetric(c);
      assert b.Buddy() == c && b.Parent() == Block(f.page, order + 1);
      SplitsShape(f.page, order + 1, f.order);
      var rest := free + Splits(f.page, order + 1, f.order);
      assert free + Splits(f.page, order, f.order) - {c} == rest;
      CoalesceUndoesSplit(free, f, order + 1, m);
    } else {
      assert free + Splits(f.page, order, f.order) == free;
    }
  }

  /** `alloc` then `dealloc` of the same block restores the free blocks exactly when
      the block that was taken had no free buddy to merge with. */
  lemma AllocDeallocRoundTrip(s: State, order: nat, f: Block, s2: State, m: nat)
    requires Inv(s, m) && Taken(s, order, f)
    requires var (b, s1) := AllocOf(s, order, f); DeallocStep(s1, b, s2, m)
    ensures s2.live == s.live && FreePages(s2) == FreePages(s)
    ensures s2.free == s.free <==> (f.order + 1 < m ==> f.Buddy() !in s.free)
  {
    var (b, s1) := AllocOf(s, order, f);
    var rest := s.free - {f};
    assert f in s.free + s.live;
    AllocEffect(s, order, f, m);
    DeallocEffect(s1, b, s2, m);
    SplitsShape(f.page, order, f.order);
    SplitsApart(s, order, f, m);
    CoalesceUndoesSplit(rest, f, order, m);
    PairSymmetric(f);
    if f.order + 1 < m && f.Buddy() in s.free {
      CoalesceDrops(rest - {f.Buddy()}, f.Parent(), m, f);
    } else {
      assert rest + {f} == s.free;
    }
  }

  lemma SplitsApart(s: State, order: nat, f: Block, m: nat)
    requires Inv(s, m) && f in s.free && order <= f.order
    ensures (s.free - {f}) !! Splits(f.page, order, f.order)
    ensures forall c | c in s.free - {f} :: c.page != f.page
  {
    assert f in s.free + s.live;
    SplitsTile(f, order, m);
    ReplaceKeepsLayout(s.free + s.live, {f}, Splits(f.page, order, f.order) + {Block(f.page, order)}, m);
    assert s.free - {f} <= s.free + s.live - {f};
    WithinPages(f, f);
    forall c | c in s.free - {f}
      ensures c.page != f.page
    {
      assert c in s.free + s.live && c.Disjoint(f);
    }
  }

  /** Coalescing from a block above `f` never yields `f` itself. */
  lemma {:induction false} CoalesceDrops(free: set<Block>, b: Block, m: nat, f: Block)
    requires f !in free && f.order < b.order
    ensures f !in Coalesce(free, b, m)
    decreases m - b.order
  {
    if b.order + 1 < m && b.Buddy() in free {
      CoalesceDrops(free - {b.Buddy()}, b.Parent(), m, f);
    }
  }

  // ------------------------------------------------------------------ runs

  datatype Event = Alloc(order: nat, got: Option<Block>) | Dealloc(block: Block)

  ghost predicate Step(s: State, e: Event, s': State, m: nat) {
    match e
    case Alloc(order, got) => order < m && AllocStep(s, order, got, s')
    case Dealloc(b) => DeallocStep(s, b, s', m)
  }

  /** `trace` lists the states of a run, `events` the calls between them. */
  ghost predicate Run(trace: seq<State>, events: seq<Event>, m: nat) {
    && |trace| == |events| + 1
    && forall i | 0 <= i < |events| :: Step(trace[i], events[i], trace[i + 1], m)
  }

  /** The state right after one `add_region` on an empty allocator. */
  ghost function OneRegion(offset: nat, count: nat, m: nat): State
    requires m > 0
  {
    State(Cut(offset, count, m), {})
  }

  /** Every step keeps the invariant, the set of owned pages and coalescedness. */
  lemma StepKeeps(s: State, e: Event, s': State, m: nat)
    requires Inv(s, m) && Step(s, e, s', m)
    ensures Inv(s', m)
    ensures FreePages(s') + LivePages(s') == FreePages(s) + LivePages(s)
    ensures FreePages(s') !! LivePages(s')
    ensures Coalesced(s.free, m) ==> Coalesced(s'.free, m)
  {
    PagesDisjoint(s.free, s.live, m);
    match e {
      case Dealloc(b) =>
        DeallocEffect(s, b, s', m);
        assert b.Pages() <= LivePages(s);
      case Alloc(order, got) =>
        if got.Some? {
          var f :| Taken(s, order, f) && AllocOf(s, order, f) == (got.value, s');
          AllocEffect(s, order, f, m);
          if Coalesced(s.free, m) {
            AllocKeepsCoalesced(s, order, f, m);
          }
        }
    }
    PagesDisjoint(s'.free, s'.live, m);
  }

  /** In every state of every run: free and live blocks are one layout over exactly
      the region's pages, and the free blocks are the maximal aligned runs of the free
      pages — nothing else about the history matters. */
  lemma {:induction false} RunsAreCanonical(trace: seq<State>, events: seq<Event>, offset: nat, count: nat, m: nat,
                                            i: nat)
    requires m > 0 && Run(trace, events, m) && trace[0] == OneRegion(offset, count, m)
    requires i < |trace|
    ensures Inv(trace[i], m) && Coalesced(trace[i].free, m)
    ensures FreePages(trace[i]) + LivePages(trace[i]) == Range(offset, count)
    ensures FreePages(trace[i]) !! LivePages(trace[i])
    ensures forall b :: b in trace[i].free <==> Maximal(b, FreePages(trace[i]), m)
  {
    if i == 0 {
      CutTiles(offset, count, m);
      CutCoalesced(offset, count, m);
      assert trace[0].free + trace[0].live == Cut(offset, count, m);
      PagesDisjoint(trace[0].free, trace[0].live, m);
    } else {
      RunsAreCanonical(trace, events, offset, count, m, i - 1);
      StepKeeps(trace[i - 1], events[i - 1], trace[i], m);
    }
    forall b ensures b in trace[i].free <==> Maximal(b, FreePages(trace[i]), m) {
      LaidFree(trace[i], m);
      CanonicalForm(trace[i].free, m, b);
    }
  }

  lemma LaidFree(s: State, m: nat)
    requires Inv(s, m)
    ensures Laid(s.free, m)
  {
  }

  /** Two runs, of any lengths and from the same region, that leave the same pages
      free leave the same free blocks. */
  lemma RunsAgree(trace1: seq<State>, events1: seq<Event>, trace2: seq<State>, events2: seq<Event>,
                  offset: nat, count: nat, m: nat)
    requires m > 0
    requires Run(trace1, events1, m) && trace1[0] == OneRegion(offset, count, m)
    requires Run(trace2, events2, m) && trace2[0] == OneRegion(offset, count, m)
    requires FreePages(trace1[|events1|]) == FreePages(trace2[|events2|])
    ensures trace1[|events1|].free == trace2[|events2|].free
  {
    RunsAreCanonical(trace1, events1, offset, count, m, |events1|);
    RunsAreCanonical(trace2, events2, offset, count, m, |events2|);
  }

  /** Freeing everything restores exactly the blocks `add_region` produced. */
  lemma FreeingAllRestores(trace: seq<State>, events: seq<Event>, offset: nat, count: nat, m: nat)
    requires m > 0 && Run(trace, events, m) && trace[0] == OneRegion(offset, count, m)
    requires trace[|events|].live == {}
    ensures trace[|events|] == OneRegion(offset, count, m)
  {
    RunsAreCanonical(trace, events, offset, count, m, |events|);
    RunsAreCanonical(trace, events, offset, count, m, 0);
    assert LivePages(trace[|events|]) == {} == LivePages(trace[0]);
    assert trace[|events|].free == trace[0].free;
  }

  /** In every state of every run, a request fails exactly when no aligned run of
      that many pages is free. */
  lemma RunsAllocComplete(trace: seq<State>, events: seq<Event>, offset: nat, count: nat, m: nat, i: nat)
    requires m > 0 && Run(trace, events, m) && trace[0] == OneRegion(offset, count, m)
    requires i < |events| && events[i].Alloc?
    ensures events[i].got.None? <==>
              forall b: Block | b.IsAligned() && b.order == events[i].order :: !Covered(b, FreePages(trace[i]))
    ensures events[i].got.None? ==> trace[i + 1] == trace[i]
  {
    RunsAreCanonical(trace, events, offset, count, m, i);
    AllocComplete(trace[i], events[i].order, events[i].got, trace[i + 1], m);
  }
}
