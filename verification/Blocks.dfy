/** Power-of-two blocks of pages, counted from the allocator's base. */
module Blocks {
  import opened Bits

  /** `1 << order` pages starting at page `page`. */
  datatype Block = Block(page: nat, order: nat) {

    function Size(): nat { Pow2(order) }

    function End(): nat { page + Size() }

    /** Aligned relative to the base, as every block handed out must be. */
    predicate IsAligned() { Aligned(page, order) }

    /** The other half of the pair `this` belongs to: `page ^ (1 << order)`. */
    function Buddy(): Block { Block(FlipBit(page, order), order) }

    /** The pair as one block: it starts at the smaller of the two pages. */
    function Parent(): Block {
      Block(if page <= Buddy().page then page else Buddy().page, order + 1)
    }

    /** Index of the pair in the bitmap of this order: `page >> (order + 1)`. */
    function PairIndex(): nat { Shr(page, order + 1) }

    predicate Has(p: nat) { page <= p < End() }

    function Pages(): set<nat> { set p: nat | p < End() && Has(p) }

    predicate Within(b: Block) { b.page <= page && End() <= b.End() }

    predicate Disjoint(b: Block) { End() <= b.page || b.End() <= page }
  }

  /** The two shapes a pair can have. */
  lemma PairShape(b: Block)
    requires b.IsAligned()
    ensures TestBit(b.page, b.order) ==>
              b.page >= Pow2(b.order) && b.Buddy().page == b.page - Pow2(b.order) == b.Parent().page
    ensures !TestBit(b.page, b.order) ==>
              b.Buddy().page == b.page + Pow2(b.order) && b.Parent().page == b.page
    ensures b.Parent().End() == b.Parent().page + 2 * Pow2(b.order)
  {
    FlipBitValue(b.page, b.order);
  }

  /** The buddy of a block is aligned, names the same pair, and has the block as
      its own buddy. */
  lemma PairSymmetric(b: Block)
    requires b.IsAligned()
    ensures b.Buddy().IsAligned() && b.Buddy() != b
    ensures b.Buddy().Buddy() == b
    ensures b.Buddy().Parent() == b.Parent()
    ensures b.Buddy().PairIndex() == b.PairIndex()
  {
    PairShape(b);
    FlipBitPair(b.page, b.order);
    PairShape(b.Buddy());
    ShrSucc(b.page, b.order);
    ShrSucc(b.Buddy().page, b.order);
  }

  lemma ParentAligned(b: Block)
    requires b.IsAligned()
    ensures b.Parent().IsAligned()
    ensures b.Within(b.Parent()) && b.Buddy().Within(b.Parent())
  {
    PairShape(b);
    LowerOfPairAligned(b.page, b.order);
  }

  /** Two aligned blocks of one order with the same pair index are equal or buddies. */
  lemma SamePair(b: Block, c: Block)
    requires b.IsAligned() && c.IsAligned() && b.order == c.order
    requires b.PairIndex() == c.PairIndex()
    ensures c == b || c == b.Buddy()
  {
    var k := b.order;
    ShrSucc(b.page, k);
    ShrSucc(c.page, k);
    FlipBitPair(b.page, k);
    if Shr(b.page, k) == Shr(c.page, k) {
      AlignedShrInjective(b.page, c.page, k);
    } else {
      AlignedShrInjective(b.Buddy().page, c.page, k);
    }
  }

  lemma WithinPages(b: Block, c: Block)
    requires b.Within(c)
    ensures b.Pages() <= c.Pages()
    ensures b.page in b.Pages()
  {
  }

  /** Blocks that are not disjoint share the larger of their first pages. */
  lemma SharedPage(b: Block, c: Block)
    requires !b.Disjoint(c)
    ensures var p := if b.page >= c.page then b.page else c.page; b.Has(p) && c.Has(p)
  {
  }

  lemma SameOrderNested(b: Block, c: Block, p: nat)
    requires b.IsAligned() && c.IsAligned() && b.order == c.order
    requires b.Has(p) && c.Has(p)
    ensures b == c
  {
    AlignedShr(b.page, b.order);
    AlignedShr(c.page, c.order);
    ShrUnique(p, b.order, Shr(b.page, b.order));
    ShrUnique(p, c.order, Shr(c.page, c.order));
  }

  /** Aligned blocks are laminar: two that share a page are nested; and a strictly
      larger one contains the whole pair of the smaller. */
  lemma {:induction false} Laminar(b: Block, c: Block, p: nat)
    requires b.IsAligned() && c.IsAligned() && b.order <= c.order
    requires b.Has(p) && c.Has(p)
    ensures b.Within(c)
    ensures b.order < c.order ==> b.Parent().Within(c)
    decreases c.order - b.order
  {
    if b.order == c.order {
      SameOrderNested(b, c, p);
    } else {
      ParentAligned(b);
      Laminar(b.Parent(), c, p);
    }
  }

  /** The lower half of a block, and its buddy, the upper half. */
  lemma Halves(b: Block)
    requires b.IsAligned() && b.order > 0
    ensures var l := Block(b.page, b.order - 1);
      && l.IsAligned() && l.Parent() == b
      && l.Buddy() == Block(b.page + Pow2(b.order - 1), b.order - 1)
  {
    AlignedDown(b.page, b.order - 1);
    PairShape(Block(b.page, b.order - 1));
  }
}
