/** Machine-word bit operations, defined digit by digit on natural numbers.

    The allocators index pages and lists with shifts, masks and exclusive ors.
    Every one of them is written here as a function on `nat`, and the lemmas
    tie it to ordinary arithmetic. */
module Bits {

  /** `1 << k` */
  function Pow2(k: nat): (r: nat)
    ensures r >= 1
  {
    if k == 0 then 1 else 2 * Pow2(k - 1)
  }

  /** `n >> k` */
  function Shr(n: nat, k: nat): nat {
    if k == 0 then n else Shr(n / 2, k - 1)
  }

  /** `(n >> k) & 1 == 1` */
  predicate TestBit(n: nat, k: nat) {
    Shr(n, k) % 2 == 1
  }

  /** `n ^ (1 << k)` */
  function FlipBit(n: nat, k: nat): nat {
    if k == 0 then
      if n % 2 == 0 then n + 1 else n - 1
    else
      2 * FlipBit(n / 2, k - 1) + n % 2
  }

  /** `n` is a multiple of `1 << k`. */
  predicate Aligned(n: nat, k: nat) {
    n % Pow2(k) == 0
  }

  /** `usize::BITS - 1 - n.leading_zeros()` */
  function Log2(n: nat): (r: nat)
    requires n > 0
    ensures Pow2(r) <= n < Pow2(r + 1)
  {
    if n == 1 then 0 else 1 + Log2(n / 2)
  }

  /** `n.trailing_zeros()` */
  function TrailingZeros(n: nat): nat
    requires n > 0
  {
    if n % 2 == 1 then 0 else 1 + TrailingZeros(n / 2)
  }

  // ---------------------------------------------------------------- powers

  lemma {:induction false} Pow2Add(a: nat, b: nat)
    ensures Pow2(a + b) == Pow2(a) * Pow2(b)
  {
    if a > 0 {
      Pow2Add(a - 1, b);
      assert Pow2(a + b) == 2 * (Pow2(a - 1) * Pow2(b));
    }
  }

  lemma {:induction false} Pow2Mono(a: nat, b: nat)
    requires a <= b
    ensures Pow2(a) <= Pow2(b)
    ensures a < b ==> 2 * Pow2(a) <= Pow2(b)
  {
    if a < b {
      Pow2Mono(a, b - 1);
    }
  }

  // ---------------------------------------------------------------- shifts

  /** `Shr` is division by a power of two: its defining bounds. */
  lemma {:induction false} ShrBounds(n: nat, k: nat)
    ensures Shr(n, k) * Pow2(k) <= n < Shr(n, k) * Pow2(k) + Pow2(k)
  {
    if k > 0 {
      ShrBounds(n / 2, k - 1);
      BoundsDouble(n, Shr(n / 2, k - 1), Pow2(k - 1), Pow2(k));
    }
  }

  lemma BoundsDouble(n: nat, s: nat, p: nat, q: nat)
    requires s * p <= n / 2 < s * p + p && q == 2 * p
    ensures s * q <= n < s * q + q
  {
    assert s * q == 2 * (s * p);
  }

  lemma {:induction false} ShrUnique(n: nat, k: nat, q: nat)
    requires q * Pow2(k) <= n < q * Pow2(k) + Pow2(k)
    ensures Shr(n, k) == q
  {
    if k > 0 {
      assert q * Pow2(k) == 2 * (q * Pow2(k - 1));
      ShrUnique(n / 2, k - 1, q);
    }
  }

  lemma {:induction false} ShrSucc(n: nat, k: nat)
    ensures Shr(n, k + 1) == Shr(n, k) / 2
  {
    if k > 0 {
      ShrSucc(n / 2, k - 1);
    }
  }

  /** An aligned number is recovered from its shift. */
  lemma AlignedShr(n: nat, k: nat)
    ensures Aligned(n, k) <==> n == Shr(n, k) * Pow2(k)
  {
    ShrBounds(n, k);
    var s, p := Shr(n, k), Pow2(k);
    ModOfSum(s, p, n - s * p);
  }

  /** Alignment, digit by digit. */
  lemma AlignedHalf(n: nat, k: nat)
    requires k > 0
    ensures Aligned(n, k) <==> n % 2 == 0 && Aligned(n / 2, k - 1)
  {
    AlignedShr(n, k);
    AlignedShr(n / 2, k - 1);
    var s := Shr(n, k);
    assert s * Pow2(k) == 2 * (s * Pow2(k - 1));
  }

  lemma ModOfSum(q: nat, d: nat, r: nat)
    requires r < d
    ensures (q * d + r) % d == r
  {
    var e := (q * d + r) / d - q;
    assert e * d == ((q * d + r) / d) * d - q * d;
    if e >= 1 {
      Scale(e, 1, d);
    } else if e <= -1 {
      Scale(-1, e, d);
    }
  }

  lemma Scale(x: int, y: int, d: nat)
    requires x >= y
    ensures x * d >= y * d
  {
    assert (x - y) * d >= 0;
  }

  // -------------------------------------------------------- exclusive or

  /** Flipping bit k adds or subtracts `1 << k`, by the bit's old value. */
  lemma {:induction false} FlipBitValue(n: nat, k: nat)
    ensures TestBit(n, k) ==> n >= Pow2(k) && FlipBit(n, k) == n - Pow2(k)
    ensures !TestBit(n, k) ==> FlipBit(n, k) == n + Pow2(k)
  {
    if k > 0 {
      FlipBitValue(n / 2, k - 1);
    }
  }

  /** Flipping bit k changes that bit and no other. */
  lemma {:induction false} FlipBitTest(n: nat, k: nat, j: nat)
    ensures TestBit(FlipBit(n, k), j) == (TestBit(n, j) != (j == k))
  {
    if k == 0 {
      if j > 0 {
        assert FlipBit(n, k) / 2 == n / 2;
      }
    } else {
      assert FlipBit(n, k) / 2 == FlipBit(n / 2, k - 1);
      if j > 0 {
        FlipBitTest(n / 2, k - 1, j - 1);
      }
    }
  }

  /** Flipping bit k twice changes nothing; it only moves the index `n >> k` to its
      neighbour, and keeps the alignment to `1 << k`. */
  lemma {:induction false} FlipBitPair(n: nat, k: nat)
    ensures FlipBit(FlipBit(n, k), k) == n
    ensures Shr(FlipBit(n, k), k) == FlipBit(Shr(n, k), 0)
    ensures Aligned(n, k) ==> Aligned(FlipBit(n, k), k)
  {
    if k > 0 {
      FlipBitPair(n / 2, k - 1);
      assert FlipBit(n, k) / 2 == FlipBit(n / 2, k - 1);
      AlignedHalf(n, k);
      AlignedHalf(FlipBit(n, k), k);
    }
  }

  /** Numbers with equal shifts and alignment are equal. */
  lemma {:induction false} AlignedShrInjective(m: nat, n: nat, k: nat)
    requires Aligned(m, k) && Aligned(n, k) && Shr(m, k) == Shr(n, k)
    ensures m == n
  {
    if k > 0 {
      AlignedHalf(m, k);
      AlignedHalf(n, k);
      AlignedShrInjective(m / 2, n / 2, k - 1);
    }
  }

  /** A multiple of `1 << (k + 1)` is a multiple of `1 << k` with bit k clear. */
  lemma {:induction false} AlignedDown(n: nat, k: nat)
    requires Aligned(n, k + 1)
    ensures Aligned(n, k) && !TestBit(n, k)
  {
    AlignedHalf(n, k + 1);
    if k > 0 {
      AlignedHalf(n, k);
      AlignedDown(n / 2, k - 1);
    }
  }

  /** The smaller of `n` and `n ^ (1 << k)` is aligned one order higher. */
  lemma {:induction false} LowerOfPairAligned(n: nat, k: nat)
    requires Aligned(n, k)
    ensures var l := if TestBit(n, k) then FlipBit(n, k) else n;
      Aligned(l, k + 1)
  {
    hide Aligned;
    var l := if TestBit(n, k) then FlipBit(n, k) else n;
    if k == 0 {
      AlignedHalf(l, 1);
      AlignedZero(l / 2);
    } else {
      AlignedHalf(n, k);
      LowerOfPairAligned(n / 2, k - 1);
      assert l / 2 == if TestBit(n / 2, k - 1) then FlipBit(n / 2, k - 1) else n / 2;
      assert l % 2 == 0;
      AlignedHalf(l, k + 1);
    }
  }

  lemma AlignedZero(n: nat)
    ensures Aligned(n, 0)
  {
  }

  /** Flipping a bit below the width keeps a number within the width. */
  lemma {:induction false} FlipBitWidth(n: nat, k: nat, w: nat)
    requires n < Pow2(w) && k < w
    ensures FlipBit(n, k) < Pow2(w)
  {
    if k > 0 {
      FlipBitWidth(n / 2, k - 1, w - 1);
    } else {
      assert Pow2(w) == 2 * Pow2(w - 1);
    }
  }

  // -------------------------------------------------------- trailing zeros

  /** `TrailingZeros` is the largest order the number is aligned to. */
  lemma {:induction false} TrailingZerosAligned(n: nat, k: nat)
    requires n > 0
    ensures Aligned(n, k) <==> k <= TrailingZeros(n)
  {
    if k > 0 {
      AlignedHalf(n, k);
      if n % 2 == 0 {
        TrailingZerosAligned(n / 2, k - 1);
      }
    }
  }

  // ------------------------------------------------- bitmaps in one word

  /** `n | (1 << k)` */
  function SetBit(n: nat, k: nat): nat {
    if TestBit(n, k) then n else FlipBit(n, k)
  }

  /** `n & !(1 << k)` */
  function ClearBit(n: nat, k: nat): nat {
    if TestBit(n, k) then FlipBit(n, k) else n
  }

  lemma SetBitTest(n: nat, k: nat, j: nat)
    ensures TestBit(SetBit(n, k), j) == (j == k || TestBit(n, j))
  {
    FlipBitTest(n, k, j);
  }

  lemma ClearBitTest(n: nat, k: nat, j: nat)
    ensures TestBit(ClearBit(n, k), j) == (j != k && TestBit(n, j))
  {
    FlipBitTest(n, k, j);
  }

  lemma {:induction false} ShrAdd(n: nat, a: nat, b: nat)
    ensures Shr(Shr(n, a), b) == Shr(n, a + b)
  {
    if a > 0 {
      ShrAdd(n / 2, a - 1, b);
    }
  }

  lemma ShrTest(n: nat, a: nat, j: nat)
    ensures TestBit(Shr(n, a), j) == TestBit(n, a + j)
  {
    ShrAdd(n, a, j);
  }

  /** `trailing_zeros` is the lowest bit set. */
  lemma {:induction false} LowestBit(n: nat)
    requires n > 0
    ensures TestBit(n, TrailingZeros(n))
    ensures forall j: nat | j < TrailingZeros(n) :: !TestBit(n, j)
  {
    if n % 2 == 0 {
      LowestBit(n / 2);
      forall j: nat | j < TrailingZeros(n)
        ensures !TestBit(n, j)
      {
        if j > 0 {
          assert !TestBit(n / 2, j - 1);
        }
      }
    }
  }

  lemma NoBits(n: nat)
    ensures n == 0 <==> forall k: nat :: !TestBit(n, k)
  {
    if n > 0 {
      LowestBit(n);
    } else {
      forall k: nat ensures !TestBit(0, k) {
        ZeroBits(k);
      }
    }
  }

  lemma {:induction false} ZeroBits(k: nat)
    ensures !TestBit(0, k)
  {
    if k > 0 {
      ZeroBits(k - 1);
    }
  }

  /** The lowest bit at or above `a`, as `(n >> a).trailing_zeros() + a`. */
  lemma LowestBitFrom(n: nat, a: nat)
    requires Shr(n, a) != 0
    ensures var z := a + TrailingZeros(Shr(n, a));
      TestBit(n, z) && forall j: nat | a <= j < z :: !TestBit(n, j)
  {
    hide TestBit, TrailingZeros;
    var m := Shr(n, a);
    LowestBit(m);
    ShrTest(n, a, TrailingZeros(m));
    forall j: nat | a <= j < a + TrailingZeros(m)
      ensures !TestBit(n, j)
    {
      ShrTest(n, a, j - a);
    }
  }

  lemma NoBitsFrom(n: nat, a: nat, j: nat)
    requires Shr(n, a) == 0 && a <= j
    ensures !TestBit(n, j)
  {
    ShrTest(n, a, j - a);
    ZeroBits(j - a);
  }

  // ------------------------------------------------------ fields of a word

  /** The bits of `n` are exactly those of the set. */
  ghost predicate HasBits(n: nat, bits: set<nat>) {
    forall k: nat :: TestBit(n, k) <==> k in bits
  }

  lemma NoBit()
    ensures HasBits(0, {})
  {
    forall k: nat
      ensures !TestBit(0, k)
    {
      ZeroBits(k);
    }
  }

  /** Adding a power of two that is not there yet sets its bit. */
  lemma AddBit(n: nat, bits: set<nat>, k: nat)
    requires HasBits(n, bits) && k !in bits
    ensures HasBits(n + Pow2(k), bits + {k})
  {
    FlipBitValue(n, k);
    forall j: nat
      ensures TestBit(n + Pow2(k), j) <==> j in bits + {k}
    {
      FlipBitTest(n, k, j);
    }
  }

  /** The low field of a word keeps its bits. */
  lemma {:induction false} FieldLow(high: nat, low: nat, width: nat, k: nat)
    requires low < Pow2(width) && k < width
    ensures TestBit(high * Pow2(width) + low, k) == TestBit(low, k)
  {
    FieldHalf(high, low, width);
    if k > 0 {
      FieldLow(high, low / 2, width - 1, k - 1);
    }
  }

  lemma FieldHalf(high: nat, low: nat, width: nat)
    requires width > 0
    ensures (high * Pow2(width) + low) % 2 == low % 2
    ensures (high * Pow2(width) + low) / 2 == high * Pow2(width - 1) + low / 2
  {
    assert high * Pow2(width) == 2 * (high * Pow2(width - 1));
  }

  /** The bits of the high field follow those of the low one. */
  lemma FieldHigh(high: nat, low: nat, width: nat, k: nat)
    requires low < Pow2(width)
    ensures TestBit(high * Pow2(width) + low, width + k) == TestBit(high, k)
  {
    ShrUnique(high * Pow2(width) + low, width, high);
    ShrTest(high * Pow2(width) + low, width, k);
  }
}
