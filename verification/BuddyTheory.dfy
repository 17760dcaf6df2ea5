/** The buddy system on sets of blocks: what a layout is, what splitting and
    coalescing do to it, and why the free blocks of a fully coalesced layout are
    determined by the free pages alone. */
module BuddyTheory {
  import opened Bits
  import opened Blocks

  ghost function PagesOf(bs: set<Block>): set<nat> {
    set b, p | b in bs && p in b.Pages() :: p
  }

  /** Every block is aligned, below order `m`, and shares no page with another. */
  ghost predicate Laid(bs: set<Block>, m: nat) {
    && (forall b | b in bs :: b.IsAligned() && b.order < m)
    && (forall b, c | b in bs && c in bs && b != c :: b.Disjoint(c))
  }

  /** No pair that could be merged is entirely free. */
  ghost predicate Coalesced(free: set<Block>, m: nat) {
    forall b | b in free && b.order + 1 < m :: b.Buddy() !in free
  }

  ghost predicate Covered(b: Block, pages: set<nat>) {
    b.Pages() <= pages
  }

  /** `b` is an aligned run of `pages` that cannot be widened to its pair. */
  ghost predicate Maximal(b: Block, pages: set<nat>, m: nat) {
    && b.IsAligned() && b.order < m && Covered(b, pages)
    && (b.order + 1 < m ==> !Covered(b.Parent(), pages))
  }

  // ------------------------------------------------------- set plumbing

  lemma WithinOrder(b: Block, c: Block)
    requires b.Within(c)
    ensures b.order <= c.order
  {
    if c.order < b.order {
      Pow2Mono(c.order, b.order);
    }
  }

  lemma PagesOfUnion(a: set<Block>, b: set<Block>)
    ensures PagesOf(a + b) == PagesOf(a) + PagesOf(b)
  {
  }

  lemma SameBlock(bs: set<Block>, b: Block, c: Block, p: nat, m: nat)
    requires Laid(bs, m) && b in bs && c in bs && p in b.Pages() && p in c.Pages()
    ensures b == c
  {
  }

  lemma PagesDisjoint(a: set<Block>, b: set<Block>, m: nat)
    requires Laid(a + b, m) && a !! b
    ensures PagesOf(a) !! PagesOf(b)
  {
  }

  // ------------------------------------------------ splitting and merging

  /** Replacing some blocks of a layout by others over the same pages. */
  lemma ReplaceKeepsLayout(bs: set<Block>, gone: set<Block>, made: set<Block>, m: nat)
    requires Laid(bs, m) && gone <= bs
    requires Laid(made, m) && PagesOf(made) == PagesOf(gone)
    ensures Laid(bs - gone + made, m)
    ensures PagesOf(bs - gone + made) == PagesOf(bs)
    ensures (bs - gone) !! made
  {
    forall b, c | b in bs - gone && c in made
      ensures b.Disjoint(c) && c.Disjoint(b) && b != c
    {
      if !b.Disjoint(c) {
        SharedPage(b, c);
        var p := if b.page >= c.page then b.page else c.page;
        assert p in b.Pages() && p in c.Pages();
        assert p in PagesOf(gone);
        var d :| d in gone && p in d.Pages();
        SameBlock(bs, b, d, p, m);
      }
    }
    PagesOfUnion(bs - gone, made);
    PagesOfUnion(bs - gone, gone);
    assert bs - gone + gone == bs;
  }

  /** A block covers the same pages as its two halves. */
  lemma HalvesCover(b: Block, m: nat)
    requires b.IsAligned() && 0 < b.order < m
    ensures var l := Block(b.page, b.order - 1);
      && Laid({l, l.Buddy()}, m) && Laid({b}, m)
      && PagesOf({l, l.Buddy()}) == PagesOf({b}) == b.Pages()
  {
    var l := Block(b.page, b.order - 1);
    Halves(b);
    PairSymmetric(l);
    PairCovers(l);
  }

  lemma PairCovers(b: Block)
    requires b.IsAligned()
    ensures PagesOf({b, b.Buddy()}) == PagesOf({b.Parent()}) == b.Parent().Pages()
  {
    PairShape(b);
    assert b.Buddy().order == b.order;
    var l, r := if TestBit(b.page, b.order) then b.Buddy() else b, if TestBit(b.page, b.order) then b else b.Buddy();
    assert {b, b.Buddy()} == {l, r};
    TwoPages(l, r, b.Parent());
  }

  lemma TwoPages(l: Block, r: Block, b: Block)
    requires l.page == b.page && l.End() == r.page && r.End() == b.End()
    ensures PagesOf({l, r}) == PagesOf({b}) == b.Pages()
  {
    assert forall p :: p in l.Pages() || p in r.Pages() <==> p in b.Pages();
    assert l in {l, r} && r in {l, r};
    forall p | p in b.Pages() ensures p in PagesOf({l, r}) {
      assert p in l.Pages() || p in r.Pages();
    }
    assert b in {b};
  }

  lemma MergeCovers(b: Block, m: nat)
    requires b.IsAligned() && b.order + 1 < m
    ensures Laid({b.Parent()}, m)
    ensures PagesOf({b.Parent()}) == PagesOf({b, b.Buddy()})
  {
    ParentAligned(b);
    PairCovers(b);
  }

  // ------------------------------------------------------- canonical form

  /** In a coalesced layout an aligned run of free pages lies inside one block. */
  lemma {:induction false} RunInsideBlock(free: set<Block>, m: nat, b: Block) returns (f: Block)
    requires Laid(free, m) && Coalesced(free, m)
    requires b.IsAligned() && b.order < m && Covered(b, PagesOf(free))
    ensures f in free && b.Within(f)
    decreases b.order
  {
    WithinPages(b, b);
    if b.order == 0 {
      f :| f in free && b.page in f.Pages();
      Laminar(b, f, b.page);
    } else {
      Halves(b);
      var l := Block(b.page, b.order - 1);
      var r := l.Buddy();
      PairSymmetric(l);
      ParentAligned(l);
      WithinPages(l, b);
      WithinPages(r, b);
      var fl := RunInsideBlock(free, m, l);
      var fr := RunInsideBlock(free, m, r);
      f := JoinRuns(free, m, b, l, fl, fr);
    }
  }

  /** The two halves of a run cannot lie in two different blocks of a coalesced layout. */
  lemma JoinRuns(free: set<Block>, m: nat, b: Block, l: Block, fl: Block, fr: Block) returns (f: Block)
    requires Laid(free, m) && Coalesced(free, m)
    requires b.IsAligned() && l.IsAligned() && l.Buddy().IsAligned() && b.order < m
    requires l.Parent() == b && l.Within(b) && l.Buddy().Within(b)
    requires fl in free && fr in free && l.Within(fl) && l.Buddy().Within(fr)
    ensures f in free && b.Within(f)
  {
    WithinOrder(l, fl);
    WithinOrder(l.Buddy(), fr);
    if fl.order > l.order {
      Laminar(l, fl, l.page);
      f := fl;
    } else if fr.order > l.order {
      PairSymmetric(l);
      Laminar(l.Buddy(), fr, l.Buddy().page);
      f := fr;
    } else {
      SameOrderNested(l, fl, l.page);
      SameOrderNested(l.Buddy(), fr, l.Buddy().page);
      assert false;
    }
  }

  /** The free blocks of a coalesced layout are exactly the maximal aligned runs of
      its free pages. */
  lemma CanonicalForm(free: set<Block>, m: nat, b: Block)
    requires Laid(free, m) && Coalesced(free, m)
    ensures b in free <==> Maximal(b, PagesOf(free), m)
  {
    if b in free {
      BlockIsMaximal(free, m, b);
    }
    if Maximal(b, PagesOf(free), m) {
      MaximalIsBlock(free, m, b);
    }
  }

  lemma BlockIsMaximal(free: set<Block>, m: nat, b: Block)
    requires Laid(free, m) && Coalesced(free, m) && b in free
    ensures Maximal(b, PagesOf(free), m)
  {
    assert b.Pages() <= PagesOf(free);
    if b.order + 1 < m && Covered(b.Parent(), PagesOf(free)) {
      ParentAligned(b);
      var f := RunInsideBlock(free, m, b.Parent());
      WithinOrder(b.Parent(), f);
      WithinPages(b, f);
      SameBlock(free, b, f, b.page, m);
    }
  }

  lemma MaximalIsBlock(free: set<Block>, m: nat, b: Block)
    requires Laid(free, m) && Coalesced(free, m) && Maximal(b, PagesOf(free), m)
    ensures b in free
  {
    var f := RunInsideBlock(free, m, b);
    WithinOrder(b, f);
    if f.order == b.order {
      SameOrderNested(b, f, b.page);
    } else {
      Laminar(b, f, b.page);
      assert f.Pages() <= PagesOf(free);
      WithinPages(b.Parent(), f);
    }
  }

  /** Two coalesced layouts over the same free pages are the same layout. */
  lemma HistoryIndependence(free1: set<Block>, free2: set<Block>, m: nat)
    requires Laid(free1, m) && Coalesced(free1, m)
    requires Laid(free2, m) && Coalesced(free2, m)
    requires PagesOf(free1) == PagesOf(free2)
    ensures free1 == free2
  {
    forall b ensures b in free1 <==> b in free2 {
      CanonicalForm(free1, m, b);
      CanonicalForm(free2, m, b);
    }
  }

  /** Conversely the maximal aligned runs of any page set are such a layout: every
      page lies in one of them. */
  lemma {:induction false} MaximalAbove(b: Block, pages: set<nat>, m: nat) returns (f: Block)
    requires b.IsAligned() && b.order < m && Covered(b, pages)
    ensures b.Within(f) && Maximal(f, pages, m)
    decreases m - b.order
  {
    if b.order + 1 < m && Covered(b.Parent(), pages) {
      ParentAligned(b);
      f := MaximalAbove(b.Parent(), pages, m);
    } else {
      f := b;
    }
  }

  lemma MaximalRunsLaid(free: set<Block>, pages: set<nat>, m: nat)
    requires m > 0 && forall b :: b in free <==> Maximal(b, pages, m)
    ensures Laid(free, m) && Coalesced(free, m) && PagesOf(free) == pages
  {
    forall b, c | b in free && c in free && b != c
      ensures b.Disjoint(c)
    {
      if !b.Disjoint(c) {
        if b.order <= c.order {
          MaximalNotNested(b, c, pages, m);
        } else {
          MaximalNotNested(c, b, pages, m);
        }
      }
    }
    forall b | b in free && b.order + 1 < m
      ensures b.Buddy() !in free
    {
      if b.Buddy() in free {
        MaximalPair(b, pages, m);
      }
    }
    forall p | p in pages
      ensures p in PagesOf(free)
    {
      OnePage(p);
      var f := MaximalAbove(Block(p, 0), pages, m);
      WithinPages(Block(p, 0), f);
      assert f in free && p in f.Pages();
    }
  }

  lemma OnePage(p: nat)
    ensures Block(p, 0).IsAligned() && Block(p, 0).Pages() == {p}
  {
    var b := Block(p, 0);
    AlignedShr(p, 0);
    assert b.Has(p);
  }

  lemma MaximalPair(b: Block, pages: set<nat>, m: nat)
    requires Maximal(b, pages, m) && Maximal(b.Buddy(), pages, m)
    ensures b.order + 1 >= m
  {
    PairCovers(b);
    assert PagesOf({b, b.Buddy()}) <= pages;
  }

  lemma MaximalNotNested(b: Block, c: Block, pages: set<nat>, m: nat)
    requires Maximal(b, pages, m) && Maximal(c, pages, m) && !b.Disjoint(c)
    requires b.order <= c.order
    ensures b == c
  {
    SharedPage(b, c);
    var p := if b.page >= c.page then b.page else c.page;
    if b.order == c.order {
      SameOrderNested(b, c, p);
    } else {
      Laminar(b, c, p);
      WithinPages(b.Parent(), c);
    }
  }
}
