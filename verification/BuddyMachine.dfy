/** The buddy allocator as a state machine over sets of blocks, and what holds in
    every state a run can reach. */
module BuddyMachine {
  import opened Bits
  import opened Blocks
  import opened BuddyTheory
  import opened Wrappers

  datatype State = State(free: set<Block>, live: set<Block>)

  ghost function FreePages(s: State): set<nat> { PagesOf(s.free) }

  ghost function LivePages(s: State): set<nat> { PagesOf(s.live) }

  /** Free and live blocks together form one layout: aligned, below order `m`,
      pairwise disjoint. */
  ghost predicate Inv(s: State, m: nat) {
    Laid(s.free + s.live, m) && s.free !! s.live
  }

  // ------------------------------------------------------------ splitting

  /** The upper halves left behind when a block at `page` is split from order `hi`
      down to order `lo`. */
  function Splits(page: nat, lo: nat, hi: nat): set<Block>
    decreases hi - lo
  {
    if lo >= hi then {} else {Block(page + Pow2(lo), lo)} + Splits(page, lo + 1, hi)
  }

  lemma {:induction false} SplitsShape(page: nat, lo: nat, hi: nat)
    ensures forall b | b in Splits(page, lo, hi) :: lo <= b.order < hi && b.page == page + Pow2(b.order)
    decreases hi - lo
  {
    if lo < hi {
      SplitsShape(page, lo + 1, hi);
    }
  }

  /** The split pieces tile the block. */
  lemma {:induction false} SplitsTile(f: Block, lo: nat, m: nat)
    requires f.IsAligned() && lo <= f.order < m
    ensures var made := Splits(f.page, lo, f.order) + {Block(f.page, lo)};
      && Laid(made, m) && PagesOf(made) == PagesOf({f})
    decreases f.order - lo
  {
    hide Pow2, Shr, FlipBit;
    if lo == f.order {
      assert Splits(f.page, lo, f.order) + {Block(f.page, lo)} == {f};
    } else {
      var b := Block(f.page, lo + 1);
      var l := Block(f.page, lo);
      var made := Splits(f.page, lo + 1, f.order) + {b};
      SplitsTile(f, lo + 1, m);
      assert b in made;
      HalvesCover(b, m);
      ReplaceKeepsLayout(made, {b}, {l, l.Buddy()}, m);
      SplitsStep(f, lo);
    }
  }

  lemma SplitsStep(f: Block, lo: nat)
    requires lo < f.order && Block(f.page, lo + 1).IsAligned()
    ensures var b, l := Block(f.page, lo + 1), Block(f.page, lo);
      Splits(f.page, lo + 1, f.order) + {b} - {b} + {l, l.Buddy()} == Splits(f.page, lo, f.order) + {l}
  {
    var b, l := Block(f.page, lo + 1), Block(f.page, lo);
    Halves(b);
    SplitsShape(f.page, lo + 1, f.order);
    assert b !in Splits(f.page, lo + 1, f.order);
  }

  // ----------------------------------------------------------- coalescing

  /** Free blocks after returning `b`: while the buddy is free, the pair becomes one
      block of the next order. */
  function Coalesce(free: set<Block>, b: Block, m: nat): set<Block>
    decreases m - b.order
  {
    if b.order + 1 < m && b.Buddy() in free then
      Coalesce(free - {b.Buddy()}, b.Parent(), m)
    else
      free + {b}
  }

  lemma {:induction false} CoalesceKeepsLayout(free: set<Block>, live: set<Block>, b: Block, m: nat)
    requires Laid(free + live + {b}, m) && free !! live && b !in free + live
    ensures Laid(Coalesce(free, b, m) + live, m) && Coalesce(free, b, m) !! live
    ensures PagesOf(Coalesce(free, b, m)) == PagesOf(free) + b.Pages()
    decreases m - b.order
  {
    var all := free + live + {b};
    assert b in all;
    if b.order + 1 < m && b.Buddy() in free {
      var c, p := b.Buddy(), b.Parent();
      MergeCovers(b, m);
      PairCovers(b);
      ReplaceKeepsLayout(all, {b, c}, {p}, m);
      assert all - {b, c} + {p} == (free - {c}) + live + {p};
      CoalesceKeepsLayout(free - {c}, live, p, m);
      assert free == (free - {c}) + {c} && {b, c} == {b} + {c};
      PagesOfUnion(free - {c}, {c});
      PagesOfUnion({b}, {c});
      PagesOfOne(b);
    } else {
      PagesOfUnion(free, {b});
      PagesOfOne(b);
      assert Coalesce(free, b, m) + live == all;
    }
  }

  lemma PagesOfOne(b: Block)
    ensures PagesOf({b}) == b.Pages()
  {
  }

  lemma {:induction false} CoalesceCoalesces(free: set<Block>, b: Block, m: nat)
    requires Coalesced(free, m) && b.IsAligned()
    requires forall c | c in free :: c.IsAligned()
    ensures Coalesced(Coalesce(free, b, m), m)
    decreases m - b.order
  {
    PairSymmetric(b);
    if b.order + 1 < m && b.Buddy() in free {
      ParentAligned(b);
      CoalesceCoalesces(free - {b.Buddy()}, b.Parent(), m);
    } else {
      forall c | c in free + {b} && c.order + 1 < m
        ensures c.Buddy() !in free + {b}
      {
        if c.Buddy() == b {
          PairSymmetric(c);
        }
      }
    }
  }

  // ---------------------------------------------------------------- steps

  /** What `alloc_pages(order)` may do: take a free block of the least sufficient
      order and keep its first `1 << order` pages, or find none and change nothing. */
  ghost predicate AllocStep(s: State, order: nat, got: Option<Block>, s': State) {
    match got
    case None =>
      s' == s && forall f | f in s.free :: f.order < order
    case Some(b) =>
      exists f :: Taken(s, order, f) && AllocOf(s, order, f) == (b, s')
  }

  ghost predicate Taken(s: State, order: nat, f: Block) {
    f in s.free && order <= f.order && forall g | g in s.free && order <= g.order :: f.order <= g.order
  }

  function AllocOf(s: State, order: nat, f: Block): (Block, State) {
    var b := Block(f.page, order);
    (b, State(s.free - {f} + Splits(f.page, order, f.order), s.live + {b}))
  }

  /** What `dealloc_pages(b)` does to a live block. */
  ghost predicate DeallocStep(s: State, b: Block, s': State, m: nat) {
    b in s.live && s' == State(Coalesce(s.free, b, m), s.live - {b})
  }

  /** An allocation takes exactly its own pages out of the free pages. */
  lemma AllocEffect(s: State, order: nat, f: Block, m: nat)
    requires Inv(s, m) && f in s.free && order <= f.order
    ensures var (b, s') := AllocOf(s, order, f);
      && Inv(s', m)
      && b.IsAligned() && b !in s.live
      && b.Pages() <= FreePages(s)
      && FreePages(s') == FreePages(s) - b.Pages()
      && LivePages(s') == LivePages(s) + b.Pages()
  {
    var (b, s') := AllocOf(s, order, f);
    var all := s.free + s.live;
    var made := Splits(f.page, order, f.order) + {b};
    assert f in all;
    SplitsTile(f, order, m);
    SplitsShape(f.page, order, f.order);
    assert b in made;
    ReplaceKeepsLayout(all, {f}, made, m);
    assert all - {f} + made == s'.free + s'.live;
    PagesOfOne(b);
    PagesOfUnion(s.live, {b});
    PagesOfUnion(s.free, s.live);
    PagesOfUnion(s'.free, s'.live);
    PagesDisjoint(s.free, s.live, m);
    PagesDisjoint(s'.free, s'.live, m);
    PagesOfUnion(Splits(f.page, order, f.order), {b});
    PagesOfOne(f);
  }

  lemma AllocKeepsCoalesced(s: State, order: nat, f: Block, m: nat)
    requires Inv(s, m) && f in s.free && order <= f.order && Coalesced(s.free, m)
    ensures Coalesced(AllocOf(s, order, f).1.free, m)
  {
    var (b, s') := AllocOf(s, order, f);
    AllocEffect(s, order, f, m);
    SplitsShape(f.page, order, f.order);
    var made := Splits(f.page, order, f.order);
    forall c | c in s'.free && c.order + 1 < m
      ensures c.Buddy() !in s'.free
    {
      assert c in s'.free + s'.live;
      PairSymmetric(c);
      var d := c.Buddy();
      if d in s'.free {
        assert d in s'.free + s'.live;
        if c in made {
          SplitBuddyTaken(s', f, order, c, m);
        } else if d in made {
          SplitBuddyTaken(s', f, order, d, m);
        }
      }
    }
  }

  /** The buddy of a split piece covers the allocated block, so it is not free. */
  lemma SplitBuddyTaken(s: State, f: Block, order: nat, c: Block, m: nat)
    requires Inv(s, m) && Block(f.page, order) in s.live
    requires f.IsAligned() && c in Splits(f.page, order, f.order)
    ensures c.Buddy() !in s.free
  {
    SplitsShape(f.page, order, f.order);
    SplitBuddy(f, c);
    var b := Block(f.page, order);
    WithinPages(b, b);
    WithinPages(c.Buddy(), c.Buddy());
    if c.Buddy() in s.free {
      SameBlock(s.free + s.live, b, c.Buddy(), f.page, m);
    }
  }

  lemma {:induction false} SplitBuddy(f: Block, c: Block)
    requires f.IsAligned() && c.order < f.order && c.page == f.page + Pow2(c.order)
    ensures c.IsAligned() && c.Buddy() == Block(f.page, c.order) && c.Parent() == Block(f.page, c.order + 1)
    ensures c.Buddy().IsAligned()
    decreases f.order - c.order
  {
    if c.order + 1 < f.order {
      Halves(f);
      SplitBuddy(Block(f.page, f.order - 1), c);
    } else {
      Halves(f);
      PairSymmetric(Block(f.page, c.order));
    }
  }

  lemma DeallocEffect(s: State, b: Block, s': State, m: nat)
    requires Inv(s, m) && DeallocStep(s, b, s', m)
    ensures Inv(s', m)
    ensures FreePages(s') == FreePages(s) + b.Pages()
    ensures LivePages(s') == LivePages(s) - b.Pages()
    ensures b.Pages() !! FreePages(s)
    ensures Coalesced(s.free, m) ==> Coalesced(s'.free, m)
  {
    var rest := s.live - {b};
    assert s.free + rest + {b} == s.free + s.live && rest + {b} == s.live;
    assert b in s.free + s.live;
    CoalesceKeepsLayout(s.free, rest, b, m);
    PagesOfOne(b);
    PagesOfUnion(rest, {b});
    PagesDisjoint(s.free + rest, {b}, m);
    PagesOfUnion(s.free, rest);
    if Coalesced(s.free, m) {
      CoalesceCoalesces(s.free, b, m);
    }
  }

  // ----------------------------------------------------------- completeness

  /** In a coalesced state an allocation fails exactly when no aligned run of
      `1 << order` pages is entirely free. */
  lemma AllocComplete(s: State, order: nat, got: Option<Block>, s': State, m: nat)
    requires Inv(s, m) && Coalesced(s.free, m) && order < m
    requires AllocStep(s, order, got, s')
    ensures got.None? <==> forall b: Block | b.IsAligned() && b.order == order :: !Covered(b, FreePages(s))
    ensures got.None? ==> s' == s
  {
    assert forall b | b in s.free :: b in s.free + s.live;
    if got.None? {
      forall b: Block | b.IsAligned() && b.order == order
        ensures !Covered(b, FreePages(s))
      {
        if Covered(b, FreePages(s)) {
          var f := RunInsideBlock(s.free, m, b);
          WithinOrder(b, f);
        }
      }
    } else {
      var f :| Taken(s, order, f) && AllocOf(s, order, f) == (got.value, s');
      AllocEffect(s, order, f, m);
      assert Covered(got.value, FreePages(s));
    }
  }
}
