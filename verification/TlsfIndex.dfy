/** The two-level size classes of the TLSF heap and the bitmaps that index them. */
module TlsfIndex {
  import opened Bits

  const SL_INDEX_COUNT := 5
  const FL_INDEX_COUNT := 30
  const SL_COUNT := 32
  const LIST_COUNT := 960
  const BLOCK_MIN := 32

  // --------------------------------------------------------------- classes

  datatype Class = Class(fl: nat, sl: nat) {
    /** Smallest size of the class, and how many sizes it holds (from 32 bytes up). */
    function Floor(): nat
      requires fl >= SL_INDEX_COUNT
    {
      (SL_COUNT + sl) * Pow2(fl - SL_INDEX_COUNT)
    }

    function Width(): nat
      requires fl >= SL_INDEX_COUNT
    {
      Pow2(fl - SL_INDEX_COUNT)
    }

    predicate InRange() { fl < FL_INDEX_COUNT && sl < SL_COUNT }

    /** Row-major position in the table of list heads. */
    function Slot(): nat { fl * SL_COUNT + sl }

    /** Lexicographic order. */
    predicate AtMost(c: Class) { fl < c.fl || (fl == c.fl && sl <= c.sl) }
  }

  function Mapping(size: nat): Class
    requires size > 0
  {
    var fl := Log2(size);
    var sl := if fl < SL_INDEX_COUNT then size * Pow2(SL_INDEX_COUNT - fl) else Shr(size, fl - SL_INDEX_COUNT);
    Class(fl, sl % SL_COUNT)
  }

  /** What `mapping_search` adds before it maps. */
  function Round(size: nat): nat
    requires size > 0
  {
    if size >= Pow2(SL_INDEX_COUNT) then Pow2(Log2(size) - SL_INDEX_COUNT) - 1 else 0
  }

  function MappingSearch(size: nat): Class
    requires size > 0
  {
    Mapping(size + Round(size))
  }

  /** The class of a size, from 32 bytes up, is the one whose range holds it. */
  lemma MappingBounds(size: nat)
    requires size >= BLOCK_MIN
    ensures var c := Mapping(size);
      && c.fl >= SL_INDEX_COUNT && c.fl == Log2(size) && c.sl < SL_COUNT
      && c.Floor() <= size < c.Floor() + c.Width()
      && SL_COUNT * c.Width() <= size
  {
    hide Shr, Log2;
    assert Pow2(5) == 32;
    LogAtLeast(size, 5);
    LogSplit(size);
    ShrBounds(size, Log2(size) - 5);
    QuotientRange(Shr(size, Log2(size) - 5), Pow2(Log2(size) - 5), size);
  }

  lemma LogSplit(size: nat)
    requires size > 0 && Log2(size) >= 5
    ensures 32 * Pow2(Log2(size) - 5) <= size < 64 * Pow2(Log2(size) - 5)
  {
    assert Pow2(5) == 32;
    Pow2Add(5, Log2(size) - 5);
  }

  lemma QuotientRange(q: nat, g: nat, n: nat)
    requires 32 * g <= n < 64 * g && q * g <= n < q * g + g
    ensures q == 32 + q % 32 && (32 + q % 32) * g == q * g
  {
    if q <= 31 {
      Scale(31, q, g);
    } else if q >= 64 {
      Scale(q, 64, g);
    }
  }

  lemma LogAtLeast(n: nat, k: nat)
    requires n >= Pow2(k)
    ensures Log2(n) >= k
  {
    Pow2Less(k, Log2(n) + 1);
  }

  lemma Pow2Less(a: nat, b: nat)
    requires Pow2(a) < Pow2(b)
    ensures a < b
  {
    if b <= a {
      Pow2Mono(b, a);
    }
  }

  /** Classes in order have ranges in order. */
  lemma FloorOrder(c: Class, d: Class)
    requires SL_INDEX_COUNT <= c.fl && SL_INDEX_COUNT <= d.fl && c.sl < SL_COUNT && d.sl < SL_COUNT
    requires c.AtMost(d) && c != d
    ensures c.Floor() + c.Width() <= d.Floor()
  {
    var g := c.Width();
    assert (SL_COUNT + c.sl + 1) * g == c.Floor() + g;
    if c.fl == d.fl {
      Scale(SL_COUNT + d.sl, SL_COUNT + c.sl + 1, g);
    } else {
      Pow2Mono(c.fl - 5, d.fl - 5);
      Scale(64, SL_COUNT + c.sl + 1, g);
      Scale(SL_COUNT + d.sl, SL_COUNT, d.Width());
    }
  }

  /** A larger block is never in a smaller class. */
  lemma MappingMonotone(a: nat, b: nat)
    requires BLOCK_MIN <= a <= b
    ensures Mapping(a).AtMost(Mapping(b))
  {
    var c, d := Mapping(a), Mapping(b);
    MappingBounds(a);
    MappingBounds(b);
    if !c.AtMost(d) {
      FloorOrder(d, c);
    }
  }

  lemma RoundIs(size: nat)
    requires size >= BLOCK_MIN
    ensures Log2(size) >= 5 && Round(size) == Pow2(Log2(size) - 5) - 1
    ensures Mapping(size).fl == Log2(size) && Mapping(size).Width() == Round(size) + 1
  {
    assert Pow2(5) == 32;
    LogAtLeast(size, 5);
    MappingBounds(size);
  }

  /** The range of the search class starts at or above the request, by at most a 32nd of it. */
  lemma SearchRoundsUp(size: nat)
    requires size >= BLOCK_MIN
    ensures MappingSearch(size).fl >= SL_INDEX_COUNT
    ensures size <= MappingSearch(size).Floor() <= size + size / 32
  {
    hide Mapping, Class.Floor, Class.Width, Log2, Pow2, Round;
    var d, c := Mapping(size), MappingSearch(size);
    RoundIs(size);
    MappingBounds(size);
    MappingBounds(size + Round(size));
    MappingMonotone(size, size + Round(size));
    if c != d {
      FloorOrder(d, c);
    }
  }

  /** Good fit: a block whose class is not below the search class is large enough. */
  lemma SearchSound(size: nat, block: nat)
    requires size >= BLOCK_MIN && block >= BLOCK_MIN
    requires MappingSearch(size).AtMost(Mapping(block))
    ensures block >= size
  {
    hide Mapping, Class.Floor, Class.Width, Log2, Pow2, Round;
    SearchRoundsUp(size);
    MappingBounds(block);
    MappingBounds(size + Round(size));
    if MappingSearch(size) != Mapping(block) {
      FloorOrder(MappingSearch(size), Mapping(block));
    }
  }

  /** Good fit: a block with `1 / 32` to spare is never passed over. */
  lemma SearchComplete(size: nat, block: nat)
    requires size >= BLOCK_MIN && block >= size + size / 32
    ensures MappingSearch(size).AtMost(Mapping(block))
  {
    hide Mapping, Class.Floor, Class.Width, Log2, Pow2, Round;
    MappingBounds(size);
    RoundIs(size);
    MappingMonotone(size + Round(size), block);
  }

  /** Good fit: a block of the least class is no more than a 32nd larger than any of a class at or
      above it. */
  lemma GoodFit(chosen: nat, other: nat)
    requires chosen >= BLOCK_MIN && other >= BLOCK_MIN && Mapping(chosen).AtMost(Mapping(other))
    ensures chosen <= other + other / 32
  {
    hide Mapping, Class.Floor, Class.Width, Log2, Pow2;
    MappingBounds(chosen);
    MappingBounds(other);
    if Mapping(chosen) != Mapping(other) {
      FloorOrder(Mapping(chosen), Mapping(other));
    }
  }

  /** Requests up to this size, and no larger, search inside the table of lists. */
  const MAX_REQUEST := 0x3F00_0000 // (1 << 30) - (1 << 24)

  lemma SearchInRange(size: nat)
    requires size >= BLOCK_MIN
    ensures MappingSearch(size).InRange() <==> size <= MAX_REQUEST
    ensures MappingSearch(size).fl < 30 && MappingSearch(size).sl < 32 <==> size <= 0x4000_0000 - 0x100_0000
    ensures MappingSearch(size).fl >= SL_INDEX_COUNT && MappingSearch(size).sl < SL_COUNT
  {
    MappingBounds(size + Round(size));
    if size <= MAX_REQUEST {
      SmallRequest(size);
    } else {
      LargeRequest(size);
    }
  }

  lemma SmallRequest(size: nat)
    requires BLOCK_MIN <= size <= MAX_REQUEST
    ensures Log2(size + Round(size)) < 30
  {
    hide Log2, Pow2, Round;
    PowersUpTo30();
    RoundIs(size);
    Pow2Less(Log2(size), 30);
    Pow2Mono(Log2(size) - 5, 24);
    Pow2Less(Log2(size + Round(size)), 30);
  }

  lemma LargeRequest(size: nat)
    requires size > MAX_REQUEST
    ensures Log2(size + Round(size)) >= 30
  {
    hide Log2, Pow2, Round;
    PowersUpTo30();
    RoundIs(size);
    LogAtLeast(size, 29);
    Pow2Mono(24, Log2(size) - 5);
    LogAtLeast(size + Round(size), 30);
  }

  lemma PowersUpTo30()
    ensures Pow2(24) == 0x100_0000 && Pow2(29) == 0x2000_0000 && Pow2(30) == 0x4000_0000
  {
    assert Pow2(8) == 256;
    Pow2Add(8, 8);
    Pow2Add(16, 8);
    assert Pow2(5) == 32;
    Pow2Add(24, 5);
  }

  lemma MappingInRange(size: nat)
    requires BLOCK_MIN <= size < 0x4000_0000
    ensures Mapping(size).InRange() && Mapping(size).fl >= 5
  {
    PowersUpTo30();
    MappingBounds(size);
    Pow2Less(Log2(size), 30);
  }
}
