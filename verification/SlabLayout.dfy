/** Where a slab keeps its header and its slots, and how both are found again from a
    slot's address. */
module SlabLayout {
  import opened Arith
  import opened Bits

  const PAGE_SIZE := 4096
  const HEADER_SIZE := 32
  const HEADER_ALIGN := 8
  /** `usize::MAX`: the end of an index chain. */
  const END_OF_CHAIN := 0xFFFF_FFFF_FFFF_FFFF

  /** A slot type and the order of the blocks behind it. */
  datatype Layout = Layout(size: nat, align: nat, order: nat) {

    /** What the constructor asserts, and what every Rust type guarantees: an alignment
        that is a power of two and divides the size. */
    ghost predicate Ok() {
      && size >= 8
      && exists j: nat :: j <= 12 && align == Pow2(j) && size % align == 0
    }

    function SlabBytes(): (r: nat)
      ensures r > 0
    { PAGE_SIZE * Pow2(order) }

    /** Offset of the first slot. */
    function Stride(): nat
    {
      var a := if align > HEADER_ALIGN then align else HEADER_ALIGN;
      RoundDown(HEADER_SIZE + a - 1, a)
    }

    function Capacity(): nat
    {
      if size == 0 || Stride() >= SlabBytes() then 0 else Quotient(SlabBytes() - Stride(), size)
    }

    function Slot(slab: nat, i: nat): nat
    {
      slab + Stride() + i * size
    }

    predicate InSlot(slab: nat, i: nat, p: nat)
    {
      Slot(slab, i) <= p < Slot(slab, i) + size
    }

    /** `p & !(slab_bytes - 1)` */
    function Mask(p: nat): nat { RoundDown(p, SlabBytes()) }

    function IndexOf(p: nat, slab: nat): nat
      requires size > 0 && p >= slab + Stride()
    {
      Quotient(p - (slab + Stride()), size)
    }
  }

  /** The first slot clears the header's 32 bytes, at the least offset aligned for both. */
  lemma StrideOk(l: Layout)
    requires l.Ok()
    ensures l.align > 0 && l.Stride() >= 32 && l.Stride() % l.align == 0 && l.Stride() % 8 == 0
    ensures l.Stride() < 32 + (if l.align > 8 then l.align else 8)
  {
    var j: nat :| j <= 12 && l.align == Pow2(j) && l.size % l.align == 0;
    assert Pow2(3) == 8;
    hide Pow2, Layout.Ok;
    var a := if l.align > HEADER_ALIGN then l.align else HEADER_ALIGN;
    Pow2Divides(3, j);
    RoundDownOk(HEADER_SIZE + a - 1, a);
    hide RoundDown;
    if j <= 3 {
      Pow2Mono(j, 3);
      Pow2Divides(j, 3);
      ModTrans(l.Stride(), HEADER_ALIGN, l.align);
    } else {
      Pow2Mono(3, j);
      ModTrans(l.Stride(), l.align, HEADER_ALIGN);
    }
  }

  lemma Pow2Divides(a: nat, b: nat)
    ensures a <= b ==> Pow2(b) % Pow2(a) == 0
  {
    if a <= b {
      Pow2Add(b - a, a);
      MultipleMod(Pow2(b - a), Pow2(a));
    }
  }

  /** The capacity is the number of slots that fit behind the header, no fewer and no more. */
  lemma CapacityExact(l: Layout, n: nat)
    requires l.Ok() && n > 0
    ensures (n <= l.Capacity() <==> l.Stride() + n * l.size <= l.SlabBytes())
  {
    StrideOk(l);
    hide Quotient, RoundDown, Layout.Stride, Layout.SlabBytes, Layout.Ok;
    if l.Stride() < l.SlabBytes() {
      QuotientExact(l.SlabBytes() - l.Stride(), l.size, n);
    } else {
      SizeAtLeast(n, l.size);
    }
  }

  lemma SizeAtLeast(n: nat, size: nat)
    requires n > 0
    ensures n * size >= size
  {
  }

  lemma QuotientExact(room: nat, size: nat, n: nat)
    requires size > 0
    ensures n <= Quotient(room, size) <==> n * size <= room
  {
    var c := Quotient(room, size);
    DivBounds(room, size);
    assert n <= c ==> n * size <= c * size;
    assert n >= c + 1 ==> n * size >= (c + 1) * size == c * size + size;
  }

  lemma SlotInside(l: Layout, slab: nat, i: nat)
    requires l.Ok() && i < l.Capacity()
    ensures slab + HEADER_SIZE <= l.Slot(slab, i) && l.Slot(slab, i) + l.size <= slab + l.SlabBytes()
  {
    StrideOk(l);
    CapacityExact(l, i + 1);
    assert (i + 1) * l.size == i * l.size + l.size;
  }

  /** Masking any byte of a slot gives the slab's header; dividing gives the slot's index. */
  lemma SlotFound(l: Layout, slab: nat, i: nat, p: nat)
    requires l.Ok() && i < l.Capacity() && slab % l.SlabBytes() == 0 && l.InSlot(slab, i, p)
    ensures l.Mask(p) == slab
    ensures p >= slab + l.Stride() && l.IndexOf(p, slab) == i
  {
    SlotInside(l, slab, i);
    hide Layout.Stride, Layout.SlabBytes, Layout.Capacity, Layout.Ok;
    BlockFound(slab, l.SlabBytes(), p);
    IndexFound(slab + l.Stride(), i, l.size, p);
  }

  lemma BlockFound(slab: nat, bytes: nat, p: nat)
    requires bytes > 0 && slab % bytes == 0 && slab <= p < slab + bytes
    ensures RoundDown(p, bytes) == slab
  {
    DivBounds(slab, bytes);
    DivUnique(p, slab / bytes, bytes, p - slab);
  }

  lemma IndexFound(first: nat, i: nat, size: nat, p: nat)
    requires first + i * size <= p < first + i * size + size
    ensures p >= first && Quotient(p - first, size) == i
  {
    assert i * size >= 0;
    DivUnique(p - first, i, size, p - first - i * size);
  }

  /** No byte is in two slots, of one slab or of two. */
  lemma SlotsDisjoint(l: Layout, slab1: nat, i: nat, slab2: nat, j: nat, p: nat)
    requires l.Ok() && i < l.Capacity() && j < l.Capacity()
    requires slab1 % l.SlabBytes() == 0 && slab2 % l.SlabBytes() == 0
    requires l.InSlot(slab1, i, p) && l.InSlot(slab2, j, p)
    ensures slab1 == slab2 && i == j
  {
    SlotFound(l, slab1, i, p);
    SlotFound(l, slab2, j, p);
  }

  lemma SlotsApart(l: Layout, slab1: nat, i: nat, slab2: nat, j: nat)
    requires l.Ok() && i < l.Capacity() && j < l.Capacity()
    requires slab1 % l.SlabBytes() == 0 && slab2 % l.SlabBytes() == 0
    ensures l.Slot(slab1, i) == l.Slot(slab2, j) <==> slab1 == slab2 && i == j
  {
    if l.Slot(slab1, i) == l.Slot(slab2, j) {
      SlotsDisjoint(l, slab1, i, slab2, j, l.Slot(slab1, i));
    }
  }

  /** Every slot is aligned for its type. */
  lemma SlotAligned(l: Layout, slab: nat, i: nat)
    requires l.Ok() && slab % l.SlabBytes() == 0
    ensures l.align > 0 && l.Slot(slab, i) % l.align == 0
  {
    var j: nat :| j <= 12 && l.align == Pow2(j) && l.size % l.align == 0;
    StrideOk(l);
    assert Pow2(12) == 4096 by { Pow2Add(6, 6); assert Pow2(6) == 64; }
    Pow2Divides(j, 12);
    assert Pow2(l.order) * PAGE_SIZE == l.SlabBytes();
    MultipleMod(Pow2(l.order), PAGE_SIZE);
    ModTrans(l.SlabBytes(), PAGE_SIZE, l.align);
    ModTrans(slab, l.SlabBytes(), l.align);
    MultipleMod(i, l.size);
    ModTrans(i * l.size, l.size, l.align);
    ModSum(slab, l.Stride(), l.align);
    ModSum(slab + l.Stride(), i * l.size, l.align);
  }
}
