/** 4-level page tables as values: entries, the walk, and what a write to one entry
    does to the translation of every address (Intel SDM Vol. 3A, section 4.5). */
module Paging {
  import opened Arith
  import opened Bits

  // -------------------------------------------------------------- addresses

  const ENTRIES := 512
  const PAGE := 0x1000
  const HUGE_2M := 0x20_0000
  const HUGE_1G := 0x4000_0000
  const GIB_512 := 0x80_0000_0000
  const ADDR_LIMIT := 0x10_0000_0000_0000 // 1 << 52

  /** Bytes mapped by one entry of a table at `depth` (0 is the PML4, 3 the page table). */
  function Span(depth: nat): nat
    requires depth < 4
  {
    if depth == 0 then 0x80_0000_0000 else if depth == 1 then 0x4000_0000
    else if depth == 2 then 0x20_0000 else 0x1000
  }

  /** `vaddr_pt_index(v, 4 - depth)` */
  function Index(v: nat, depth: nat): (i: nat)
    requires depth < 4
    ensures i < 512
  {
    v / Span(depth) % 512
  }

  /** Bits 63:47 are all equal. */
  predicate Canonical(v: nat) {
    v < 0x8000_0000_0000 || 0xFFFF_8000_0000_0000 <= v < 0x1_0000_0000_0000_0000
  }

  /** The indices `v` selects in the tables above `depth`. */
  function Path(v: nat, depth: nat): (p: seq<nat>)
    requires depth <= 4
    ensures |p| == depth
  {
    if depth == 0 then [] else Path(v, depth - 1) + [Index(v, depth - 1)]
  }

  /** The four indices and the offset in the page are the low 48 bits of the address, in order. */
  lemma IndexFields(v: nat)
    ensures v % 0x1_0000_0000_0000 ==
              (((Index(v, 0) * 512 + Index(v, 1)) * 512 + Index(v, 2)) * 512 + Index(v, 3)) * 0x1000 + v % 0x1000
  {
    var q0, q1, q2, q3 := v / Span(0), v / Span(1), v / Span(2), v / Span(3);
    SpanStep(v, 0);
    SpanStep(v, 1);
    SpanStep(v, 2);
    hide Span;
    var low := ((q0 % 512 * 512 + q1 % 512) * 512 + q2 % 512) * 512 + q3 % 512;
    assert q3 == q0 / 512 * 0x10_0000_0000 + low;
    DivUnique(v, q0 / 512, 0x1_0000_0000_0000, low * 0x1000 + v % 0x1000);
  }

  lemma SpanStep(v: nat, depth: nat)
    requires depth < 3
    ensures v / Span(depth) == v / Span(depth + 1) / 512
  {
  }

  lemma TopIndex(v: nat, w: nat)
    requires Canonical(v) && Canonical(w)
    ensures Index(v, 0) == Index(w, 0) <==> v / Span(0) == w / Span(0)
  {
    TopSlot(v);
    TopSlot(w);
    hide Index;
  }

  /** The lower half uses slots 0 to 255 of the PML4, the upper half slots 256 to 511. */
  lemma TopSlot(v: nat)
    requires Canonical(v)
    ensures Index(v, 0) == if v < 0x8000_0000_0000 then v / Span(0) else v / Span(0) - 0x1FF_FE00
    ensures (v < 0x8000_0000_0000 ==> v / Span(0) < 256) && (v >= 0x8000_0000_0000 ==> v / Span(0) >= 0x1FF_FF00)
  {
  }

  lemma PathStep(v: nat, w: nat, depth: nat)
    requires depth < 4
    ensures Path(v, depth + 1) == Path(w, depth + 1) <==>
              Path(v, depth) == Path(w, depth) && Index(v, depth) == Index(w, depth)
  {
    var p, q := Path(v, depth + 1), Path(w, depth + 1);
    assert p[..depth] == Path(v, depth) && q[..depth] == Path(w, depth);
    assert p[depth] == Index(v, depth) && q[depth] == Index(w, depth);
  }

  /** Canonical addresses have the same first indices exactly when they lie in the
      same span. */
  lemma {:induction false} SamePathSameSpan(v: nat, w: nat, depth: nat)
    requires depth < 4 && Canonical(v) && Canonical(w)
    ensures Path(v, depth + 1) == Path(w, depth + 1) <==> v / Span(depth) == w / Span(depth)
  {
    PathStep(v, w, depth);
    if depth == 0 {
      TopIndex(v, w);
    } else {
      SamePathSameSpan(v, w, depth - 1);
      SpanStep(v, depth - 1);
      SpanStep(w, depth - 1);
      hide Span, Path;
    }
  }

  // ---------------------------------------------------------------- entries

  const PRESENT := 1
  const WRITABLE := 2
  const WRITE_THROUGH := 8
  const CACHE_DISABLE := 16
  const HUGE_PAGE := 128 // the PAT bit in a 4 KiB leaf
  const GLOBAL := 256
  const NO_EXECUTE := 0x8000_0000_0000_0000

  predicate Present(e: nat) { e % 2 == 1 }

  predicate Huge(e: nat) { e / 128 % 2 == 1 }

  /** `pte_phys_addr(e, size)`: bits 51 down to the size of the page. */
  function Addr(e: nat, size: nat): nat
    requires size > 0
  {
    e % ADDR_LIMIT / size * size
  }

  /** Flag bits stay clear of the address field and of bit 0, which callers add. */
  predicate FlagsOk(flags: nat) {
    flags % ADDR_LIMIT < PAGE && flags % 2 == 0
  }

  /** A physical address an entry for a page of this size can hold. */
  predicate Mappable(phys: nat, size: nat)
    requires size > 0
  {
    phys % size == 0 && phys < ADDR_LIMIT
  }

  /** `pte_encode(phys, size, PRESENT | flags)`: no bit is set twice, so the union of
      the bits is their sum. */
  function Encode(phys: nat, size: nat, flags: nat): nat
    requires size > 0 && FlagsOk(flags)
  {
    Addr(phys, size) + flags + PRESENT
  }

  /** Decoding an entry gives back what was encoded, and bit by bit it is the address in its
      field, the flags outside, and bit 0. */
  lemma EncodeDecode(phys: nat, depth: nat, flags: nat)
    requires 1 <= depth < 4 && FlagsOk(flags) && Mappable(phys, Span(depth))
    ensures var e := Encode(phys, Span(depth), flags);
      && Present(e) && Addr(e, Span(depth)) == phys && Huge(e) == Huge(flags)
      && e == phys + flags + 1
      && (forall k: nat | 12 <= k < 52 :: TestBit(e, k) <==> TestBit(phys, k))
      && HasFlags(e, flags)
  {
    AddrOfAligned(phys, depth);
    LowBits(phys / 0x1000, flags);
    var fl := flags % ADDR_LIMIT;
    AlignedToPage(phys, depth);
    AddrIgnoresFlags(phys, fl + 1, depth);
    EncodedFlags(phys, flags);
  }

  /** Outside the address field an entry has the bits of `flags`, and bit 0. */
  ghost predicate HasFlags(e: nat, flags: nat) {
    forall k: nat | k < 12 || 52 <= k :: TestBit(e, k) <==> k == 0 || TestBit(flags, k)
  }

  lemma EncodedFlags(phys: nat, flags: nat)
    requires FlagsOk(flags) && phys % PAGE == 0 && phys < ADDR_LIMIT
    ensures HasFlags(phys + flags + 1, flags)
    ensures forall k: nat | 12 <= k < 52 :: TestBit(phys + flags + 1, k) <==> TestBit(phys, k)
  {
    hide TestBit, FlagsOk;
    forall k: nat
      ensures 12 <= k < 52 ==> (TestBit(phys + flags + 1, k) <==> TestBit(phys, k))
      ensures k < 12 || 52 <= k ==> (TestBit(phys + flags + 1, k) <==> k == 0 || TestBit(flags, k))
    {
      EncodedBit(phys, flags, k);
    }
  }

  lemma EncodedBit(phys: nat, flags: nat, k: nat)
    requires FlagsOk(flags) && phys % PAGE == 0 && phys < ADDR_LIMIT
    ensures 12 <= k < 52 ==> (TestBit(phys + flags + 1, k) <==> TestBit(phys, k))
    ensures k < 12 || 52 <= k ==> (TestBit(phys + flags + 1, k) <==> k == 0 || TestBit(flags, k))
  {
    hide TestBit;
    EvenLow(flags);
    ThreeFields(flags / ADDR_LIMIT, phys / PAGE, flags % ADDR_LIMIT, k);
  }

  /** An entry holds the high flags, the frame and the low flags side by side. */
  lemma ThreeFields(high: nat, frame: nat, low: nat, k: nat)
    requires low < PAGE - 1 && low % 2 == 0 && frame * PAGE < ADDR_LIMIT
    ensures var e := frame * PAGE + (high * ADDR_LIMIT + low) + 1;
      && (12 <= k < 52 ==> (TestBit(e, k) <==> TestBit(frame * PAGE, k)))
      && (k < 12 || 52 <= k ==> (TestBit(e, k) <==> k == 0 || TestBit(high * ADDR_LIMIT + low, k)))
  {
    hide TestBit;
    TwoFields(high, frame * PAGE + low + 1, k);
    TwoFields(high, low, k);
    FrameBit(frame, low, k);
  }

  /** What lies above bit 51 and what lies below. */
  lemma TwoFields(high: nat, low: nat, k: nat)
    requires low < ADDR_LIMIT
    ensures TestBit(high * ADDR_LIMIT + low, k) <==> if k < 52 then TestBit(low, k) else TestBit(high, k - 52)
  {
    FieldWidths();
    hide TestBit, Pow2;
    if k < 52 {
      FieldLow(high, low, 52, k);
    } else {
      FieldHigh(high, low, 52, k - 52);
    }
  }

  lemma FrameBit(frame: nat, low: nat, k: nat)
    requires low < PAGE - 1 && low % 2 == 0
    ensures 12 <= k ==> (TestBit(frame * PAGE + low + 1, k) <==> TestBit(frame * PAGE, k))
    ensures k < 12 ==> (TestBit(frame * PAGE + low + 1, k) <==> k == 0 || TestBit(low, k))
  {
    hide TestBit, Pow2;
    FieldWidths();
    if k >= 12 {
      FieldHigh(frame, low + 1, 12, k - 12);
      FieldHigh(frame, 0, 12, k - 12);
    } else {
      FieldLow(frame, low + 1, 12, k);
      LowestSet(low, k);
    }
  }

  lemma FieldWidths()
    ensures Pow2(12) == PAGE && Pow2(52) == ADDR_LIMIT
    ensures Pow2(63) == NO_EXECUTE
  {
    assert Pow2(3) == 8 && Pow2(4) == 16;
    hide Pow2;
    Product(4, 4, 16, 16);
    Product(8, 3, 256, 8);
    Product(8, 4, 256, 16);
    Product(12, 12, PAGE, PAGE);
    Product(24, 24, 0x100_0000, 0x100_0000);
    Product(48, 4, 0x1_0000_0000_0000, 16);
    Product(52, 11, ADDR_LIMIT, 2048);
  }

  lemma Product(a: nat, b: nat, x: nat, y: nat)
    requires Pow2(a) == x && Pow2(b) == y
    ensures Pow2(a + b) == x * y
  {
    Pow2Add(a, b);
  }

  lemma LowestSet(low: nat, k: nat)
    requires low % 2 == 0
    ensures TestBit(low + 1, k) <==> k == 0 || TestBit(low, k)
  {
    FlipBitTest(low, 0, k);
  }

  /** The flags of an entry, outside the address field, are exactly the given bits. */
  ghost predicate Flags(e: nat, bits: set<nat>) {
    forall k: nat | k < 12 || 52 <= k :: TestBit(e, k) <==> k in bits
  }

  /** A sum of distinct powers of two, each of them a flag. */
  lemma FlagSum(n: nat, bits: set<nat>, k: nat, power: nat, bits': set<nat>)
    requires HasBits(n, bits) && k !in bits && power == Pow2(k) && bits' == bits + {k}
    ensures HasBits(n + power, bits') && Flags(n + power, bits')
  {
    AddBit(n, bits, k);
    hide TestBit;
  }

  lemma FlagBits()
    ensures Pow2(1) == WRITABLE && Pow2(3) == WRITE_THROUGH && Pow2(4) == CACHE_DISABLE && Pow2(7) == HUGE_PAGE
    ensures Pow2(8) == GLOBAL && Pow2(63) == NO_EXECUTE
  {
    FieldWidths();
  }

  lemma WritableFlag()
    ensures Flags(WRITABLE, {1})
  {
    FlagBits();
    NoBit();
    FlagSum(0, {}, 1, WRITABLE, {1});
    hide Flags;
  }

  /** The three fields every reader of an entry looks at, bit by bit. */
  lemma EntryFields(e: nat, depth: nat, k: nat)
    requires 1 <= depth < 4
    ensures Present(e) <==> TestBit(e, 0)
    ensures Huge(e) <==> TestBit(e, 7)
    ensures TestBit(Addr(e, Span(depth)), k) <==> 12 + 9 * (3 - depth) <= k < 52 && TestBit(e, k)
  {
    hide Pow2, Shr;
    assert Shr(e, 0) == e by { ShrZero(e); }
    SpanIs(depth);
    ShrUnique(e, 7, e / 128);
    hide Span, TestBit;
    FieldWidths();
    DivBounds(e, ADDR_LIMIT);
    var width, high, low := 12 + 9 * (3 - depth), e / ADDR_LIMIT, e % ADDR_LIMIT;
    AddrBit(low, width, k);
    TwoFields(high, low, k);
    if k >= 52 {
      SmallBit(low, 52, k);
    }
  }

  lemma ShrZero(n: nat)
    ensures Shr(n, 0) == n
  {
  }

  lemma SpanIs(depth: nat)
    requires 1 <= depth < 4
    ensures Span(depth) == Pow2(12 + 9 * (3 - depth)) && Pow2(7) == 128
  {
    assert Pow2(3) == 8 && Pow2(4) == 16 && Pow2(5) == 32;
    hide Pow2;
    FieldWidths();
    Product(4, 3, 16, 8);
    Product(4, 5, 16, 32);
    Product(12, 9, PAGE, 512);
    Product(21, 9, HUGE_2M, 512);
    assert 12 + 9 * (3 - depth) == if depth == 1 then 30 else if depth == 2 then 21 else 12;
  }

  /** Rounding down to a power of two clears the bits below it. */
  lemma AddrBit(n: nat, width: nat, k: nat)
    ensures TestBit(RoundDown(n, Pow2(width)), k) <==> width <= k && TestBit(n, k)
  {
    hide TestBit, Pow2;
    var q, r := n / Pow2(width), n % Pow2(width);
    DivBounds(n, Pow2(width));
    if k < width {
      FieldLow(q, 0, width, k);
      ZeroBits(k);
    } else {
      FieldHigh(q, 0, width, k - width);
      FieldHigh(q, r, width, k - width);
    }
  }

  lemma SmallBit(n: nat, width: nat, k: nat)
    requires n < Pow2(width) && width <= k
    ensures !TestBit(n, k)
  {
    FieldHigh(0, n, width, k - width);
    ZeroBits(k - width);
  }

  lemma AlignedToPage(phys: nat, depth: nat)
    requires 1 <= depth < 4 && phys % Span(depth) == 0
    ensures phys % 0x1000 == 0
  {
    if depth == 1 {
      WholePages(phys / 0x4000_0000 * 0x4_0000);
    } else if depth == 2 {
      WholePages(phys / 0x20_0000 * 0x200);
    }
  }

  lemma WholePages(n: nat)
    ensures n * 0x1000 % 0x1000 == 0
  {
  }

  lemma AddrOfAligned(phys: nat, depth: nat)
    requires 1 <= depth < 4 && Mappable(phys, Span(depth))
    ensures Addr(phys, Span(depth)) == phys
  {
    if depth == 1 {
    } else if depth == 2 {
    }
  }

  lemma AddrIgnoresFlags(phys: nat, low: nat, depth: nat)
    requires 1 <= depth < 4 && Mappable(phys, Span(depth)) && low < 0x1000
    ensures (phys + low) / Span(depth) * Span(depth) == phys && phys + low < ADDR_LIMIT
  {
    if depth == 1 {
    } else if depth == 2 {
    }
  }

  lemma LowBits(frame: nat, flags: nat)
    requires FlagsOk(flags) && frame * 0x1000 < ADDR_LIMIT
    ensures var e := frame * 0x1000 + flags + 1;
      && Present(e) && Huge(e) == Huge(flags) && e % ADDR_LIMIT == frame * 0x1000 + flags % ADDR_LIMIT + 1
  {
    hide Huge;
    HugeBit(frame, flags);
    EvenLow(flags);
    LowField(frame, flags % ADDR_LIMIT, flags / ADDR_LIMIT, flags);
    DivUnique(frame * 0x1000 + flags + 1, frame * 0x800 + flags / 2, 2, 1);
  }

  lemma EvenLow(flags: nat)
    requires FlagsOk(flags)
    ensures flags % ADDR_LIMIT < 0xFFF
  {
    var low, high := flags % ADDR_LIMIT, flags / ADDR_LIMIT;
    DivUnique(flags, high * (ADDR_LIMIT / 2) + low / 2, 2, low % 2);
  }

  lemma LowField(frame: nat, low: nat, high: nat, flags: nat)
    requires flags == high * ADDR_LIMIT + low && low < 0xFFF && frame * 0x1000 < ADDR_LIMIT
    ensures (frame * 0x1000 + flags + 1) % ADDR_LIMIT == frame * 0x1000 + low + 1
  {
    DivUnique(frame * 0x1000 + flags + 1, high, ADDR_LIMIT, frame * 0x1000 + low + 1);
  }

  lemma HugeBit(frame: nat, flags: nat)
    requires flags % 2 == 0
    ensures Huge(frame * 0x1000 + flags + 1) == Huge(flags)
  {
    var h, r := flags / 128, flags % 128;
    DivUnique(frame * 0x1000 + flags + 1, frame * 32 + h, 128, r + 1);
    DivUnique(frame * 32 + h, frame * 16 + h / 2, 2, h % 2);
  }
}
