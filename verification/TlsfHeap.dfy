/** The pool of a TLSF heap as a row of blocks: what the boundary tags must say, and what
    splitting and merging do to the row. */
module TlsfHeap {
  import opened FreeList
  import opened TlsfIndex

  const HEADER := 32

  /** The tag words of a header; the links of free blocks are kept apart. */
  datatype Header = Header(size: nat, free: bool, prevFree: bool, prevPhys: int)

  /** One block of the pool: its header's address, its payload size, whether it is free. */
  datatype Blk = Blk(addr: nat, size: nat, free: bool) {
    function End(): nat { addr + HEADER + size }

    /** The bytes handed to the caller. */
    predicate InPayload(p: nat) { addr + HEADER <= p < End() }
  }

  type Headers = map<nat, Header>

  /** Blocks tile the pool from `start` up to the sentinel header at its very end. */
  ghost predicate Row(blocks: seq<Blk>, start: nat, end: nat) {
    && |blocks| > 0 && blocks[0].addr == start
    && (forall i | 0 <= i < |blocks| :: blocks[i].size >= BLOCK_MIN && blocks[i].size % 8 == 0)
    && (forall i | 0 < i < |blocks| :: blocks[i].addr == blocks[i - 1].End())
    && blocks[|blocks| - 1].End() + HEADER == end
  }

  ghost predicate NoTwoFree(blocks: seq<Blk>) {
    forall i | 0 < i < |blocks| :: !(blocks[i - 1].free && blocks[i].free)
  }

  /** The headers in memory describe the row; the sentinel's own flag is never kept. */
  ghost predicate Tagged(h: Headers, blocks: seq<Blk>, end: nat)
    requires end >= HEADER
  {
    && (forall i | 0 <= i < |blocks| :: TagOk(h, blocks, i))
    && end - HEADER in h && h[end - HEADER].size == 0 && !h[end - HEADER].free
  }

  ghost predicate TagOk(h: Headers, blocks: seq<Blk>, i: nat)
    requires i < |blocks|
  {
    TagIs(h, blocks[i], i > 0 && blocks[i - 1].free)
  }

  ghost predicate TagIs(h: Headers, b: Blk, prevFree: bool) {
    && b.addr in h
    && h[b.addr].size == b.size && h[b.addr].free == b.free && h[b.addr].prevFree == prevFree
  }

  /** The back link of the header that follows block `i` is true. */
  ghost predicate LinkedBack(h: Headers, blocks: seq<Blk>, i: nat)
    requires i < |blocks|
  {
    blocks[i].End() in h && h[blocks[i].End()].prevPhys == blocks[i].addr
  }

  ghost predicate AllLinkedBack(h: Headers, blocks: seq<Blk>) {
    forall i | 0 <= i < |blocks| :: LinkedBack(h, blocks, i)
  }

  ghost function FreeAddrs(blocks: seq<Blk>): set<nat> {
    set i | 0 <= i < |blocks| && blocks[i].free :: blocks[i].addr
  }

  /** Later blocks start at or after the end of earlier ones. */
  lemma {:induction false} RowOrder(blocks: seq<Blk>, start: nat, end: nat, i: nat, j: nat)
    requires Row(blocks, start, end) && i < j < |blocks|
    ensures blocks[i].End() <= blocks[j].addr
    decreases j - i
  {
    if i + 1 < j {
      RowOrder(blocks, start, end, i, j - 1);
    }
  }

  lemma {:induction false} RowInPool(blocks: seq<Blk>, start: nat, end: nat, i: nat)
    requires Row(blocks, start, end) && i < |blocks|
    ensures start <= blocks[i].addr && blocks[i].End() + HEADER <= end
    ensures (blocks[i].addr - start) % 8 == 0 && (blocks[i].End() - start) % 8 == 0
    ensures i + 1 < |blocks| ==> blocks[i].End() == blocks[i + 1].addr
  {
    if i > 0 {
      RowInPool(blocks, start, end, i - 1);
      assert blocks[i].addr == blocks[i - 1].End();
    }
    assert blocks[i].size % 8 == 0;
    OffsetMod(blocks[i].addr - start, blocks[i].size);
    RowEnds(blocks, start, end, i);
  }

  lemma OffsetMod(offset: int, size: nat)
    requires offset % 8 == 0 && size % 8 == 0
    ensures (offset + HEADER + size) % 8 == 0
  {
  }

  lemma RowEnds(blocks: seq<Blk>, start: nat, end: nat, i: nat)
    requires Row(blocks, start, end) && i < |blocks|
    ensures blocks[i].End() + HEADER <= end
  {
    if i + 1 < |blocks| {
      RowOrder(blocks, start, end, i, |blocks| - 1);
    }
  }

  /** Payloads of different blocks share no byte, and none reaches the sentinel. */
  lemma PayloadsDisjoint(blocks: seq<Blk>, start: nat, end: nat, i: nat, j: nat, p: nat)
    requires Row(blocks, start, end) && i < |blocks| && j < |blocks|
    requires blocks[i].InPayload(p) && blocks[j].InPayload(p)
    ensures i == j && start + HEADER <= p < end - HEADER
  {
    RowInPool(blocks, start, end, i);
    if i < j {
      RowOrder(blocks, start, end, i, j);
    } else if j < i {
      RowOrder(blocks, start, end, j, i);
    }
  }

  // -------------------------------------------------------------- splicing

  /** The row with blocks `lo` to `hi - 1` replaced. */
  function Splice(blocks: seq<Blk>, lo: nat, hi: nat, mid: seq<Blk>): (r: seq<Blk>)
    requires lo <= hi <= |blocks|
    ensures |r| == |blocks| - (hi - lo) + |mid|
  {
    blocks[..lo] + mid + blocks[hi..]
  }

  lemma SpliceAt(blocks: seq<Blk>, lo: nat, hi: nat, mid: seq<Blk>, i: nat)
    requires lo <= hi <= |blocks| && i < |Splice(blocks, lo, hi, mid)|
    ensures Splice(blocks, lo, hi, mid)[i] ==
              if i < lo then blocks[i] else if i < lo + |mid| then mid[i - lo] else blocks[i - |mid| + hi - lo]
  {
  }

  /** A chain of blocks over the same bytes. */
  ghost predicate Covers(mid: seq<Blk>, from: nat, to: nat) {
    && |mid| > 0 && mid[0].addr == from && mid[|mid| - 1].End() == to
    && (forall i | 0 <= i < |mid| :: mid[i].size >= BLOCK_MIN && mid[i].size % 8 == 0)
    && (forall i | 0 < i < |mid| :: mid[i].addr == mid[i - 1].End())
  }

  lemma SpliceRow(blocks: seq<Blk>, start: nat, end: nat, lo: nat, hi: nat, mid: seq<Blk>)
    requires Row(blocks, start, end) && lo < hi <= |blocks|
    requires Covers(mid, blocks[lo].addr, blocks[hi - 1].End())
    ensures Row(Splice(blocks, lo, hi, mid), start, end)
  {
    hide Splice;
    var row := Splice(blocks, lo, hi, mid);
    forall i | 0 <= i < |row|
      ensures row[i].size >= BLOCK_MIN && row[i].size % 8 == 0
      ensures i > 0 ==> row[i].addr == row[i - 1].End()
    {
      SpliceAt(blocks, lo, hi, mid, i);
      if i > 0 {
        SpliceAt(blocks, lo, hi, mid, i - 1);
      }
    }
    SpliceAt(blocks, lo, hi, mid, 0);
    SpliceAt(blocks, lo, hi, mid, |row| - 1);
  }

  lemma SpliceNoTwoFree(blocks: seq<Blk>, lo: nat, hi: nat, mid: seq<Blk>)
    requires NoTwoFree(blocks) && NoTwoFree(mid) && lo < hi <= |blocks| && |mid| > 0
    requires lo > 0 ==> !(blocks[lo - 1].free && mid[0].free)
    requires hi < |blocks| ==> !(mid[|mid| - 1].free && blocks[hi].free)
    ensures NoTwoFree(Splice(blocks, lo, hi, mid))
  {
  }

  // ------------------------------------------------------------- splitting

  /** Least surplus worth a block of its own: a header and the least payload. */
  const SPLIT_MIN := 64

  /** What block `b` becomes when `size` bytes of it are taken. */
  function TakenParts(b: Blk, size: nat): (mid: seq<Blk>)
    requires size <= b.size
    ensures 1 <= |mid| <= 2
  {
    if b.size - size >= SPLIT_MIN then
      [Blk(b.addr, size, false), Blk(b.addr + HEADER + size, b.size - size - HEADER, true)]
    else
      [Blk(b.addr, b.size, false)]
  }

  /** The row after block `k` is taken for `size` bytes. */
  function TakenRow(blocks: seq<Blk>, k: nat, size: nat): seq<Blk>
    requires k < |blocks| && size <= blocks[k].size
  {
    Splice(blocks, k, k + 1, TakenParts(blocks[k], size))
  }

  /** A block is handed out from its start with less than 64 bytes to spare; what is left becomes
      a block exactly when a header of 32 bytes and a payload of 32 fit into it. */
  lemma TakenSplit(blocks: seq<Blk>, k: nat, size: nat)
    requires k < |blocks| && size <= blocks[k].size
    ensures var row := TakenRow(blocks, k, size);
      && k < |row| && row[k].addr == blocks[k].addr && !row[k].free && size <= row[k].size < size + 64
      && |row| == |blocks| + (if blocks[k].size >= size + 64 then 1 else 0)
      && (blocks[k].size >= size + 64 ==> row[k].size == size)
      && (blocks[k].size < size + 64 ==> row[k] == blocks[k].(free := false))
  {
  }

  lemma TakenRowOk(blocks: seq<Blk>, start: nat, end: nat, k: nat, size: nat)
    requires Row(blocks, start, end) && NoTwoFree(blocks)
    requires k < |blocks| && blocks[k].free && BLOCK_MIN <= size <= blocks[k].size && size % 8 == 0
    ensures Row(TakenRow(blocks, k, size), start, end) && NoTwoFree(TakenRow(blocks, k, size))
  {
    hide Splice, TakenParts;
    PartsCover(blocks[k], size);
    SpliceRow(blocks, start, end, k, k + 1, TakenParts(blocks[k], size));
    SpliceNoTwoFree(blocks, k, k + 1, TakenParts(blocks[k], size));
  }

  /** The parts cover the block that was there: the first in use, what is left behind it free. */
  lemma PartsCover(b: Blk, size: nat)
    requires b.free && b.size % 8 == 0 && BLOCK_MIN <= size <= b.size && size % 8 == 0
    ensures Covers(TakenParts(b, size), b.addr, b.End()) && NoTwoFree(TakenParts(b, size))
    ensures !TakenParts(b, size)[0].free
  {
  }

  // --------------------------------------------------------------- merging

  /** First block of the run that becomes one when block `k` is freed, and the index
      after its last. */
  function Low(blocks: seq<Blk>, k: nat): nat
    requires k < |blocks|
  {
    if k > 0 && blocks[k - 1].free then k - 1 else k
  }

  function High(blocks: seq<Blk>, k: nat): nat
    requires k < |blocks|
  {
    if k + 1 < |blocks| && blocks[k + 1].free then k + 2 else k + 1
  }

  /** The block that freeing block `k` leaves behind. */
  function Merged(blocks: seq<Blk>, k: nat): Blk
    requires k < |blocks|
  {
    var lo, hi := Low(blocks, k), High(blocks, k);
    Blk(blocks[lo].addr,
        blocks[k].size + (if lo < k then HEADER + blocks[lo].size else 0)
        + (if k + 1 < hi then HEADER + blocks[k + 1].size else 0),
        true)
  }

  /** The row after block `k` is freed. */
  function FreedRow(blocks: seq<Blk>, k: nat): seq<Blk>
    requires k < |blocks|
  {
    Splice(blocks, Low(blocks, k), High(blocks, k), [Merged(blocks, k)])
  }

  lemma MergedSpan(blocks: seq<Blk>, start: nat, end: nat, k: nat)
    requires Row(blocks, start, end) && k < |blocks|
    ensures Merged(blocks, k).End() == blocks[High(blocks, k) - 1].End()
    ensures Merged(blocks, k).size % 8 == 0
  {
    var lo, hi := Low(blocks, k), High(blocks, k);
    var a := if lo < k then blocks[lo].size else 0;
    var b := if k + 1 < hi then blocks[k + 1].size else 0;
    Multiples(blocks[k].size, a, b);
    assert lo < k ==> blocks[k].addr == blocks[k - 1].End();
    assert k + 1 < hi ==> blocks[k + 1].addr == blocks[k].End();
  }

  lemma Multiples(s: nat, a: nat, b: nat)
    requires s % 8 == 0 && a % 8 == 0 && b % 8 == 0
    ensures (s + a + b) % 8 == 0 && (s + HEADER + a + b) % 8 == 0 && (s + HEADER + a + HEADER + b) % 8 == 0
  {
  }

  lemma FreedRowOk(blocks: seq<Blk>, start: nat, end: nat, k: nat)
    requires Row(blocks, start, end) && NoTwoFree(blocks) && k < |blocks| && !blocks[k].free
    ensures Row(FreedRow(blocks, k), start, end) && NoTwoFree(FreedRow(blocks, k))
  {
    hide Splice;
    MergedSpan(blocks, start, end, k);
    SpliceRow(blocks, start, end, Low(blocks, k), High(blocks, k), [Merged(blocks, k)]);
    SpliceNoTwoFree(blocks, Low(blocks, k), High(blocks, k), [Merged(blocks, k)]);
  }

  // ------------------------------------------------------------ round trip

  /** Freeing what was just taken restores the row. */
  lemma TakeThenFree(blocks: seq<Blk>, k: nat, size: nat)
    requires NoTwoFree(blocks)
    requires k < |blocks| && blocks[k].free && BLOCK_MIN <= size <= blocks[k].size
    ensures TakenRow(blocks, k, size)[k].addr == blocks[k].addr && !TakenRow(blocks, k, size)[k].free
    ensures k > 0 ==> !TakenRow(blocks, k, size)[k - 1].free
    ensures FreedRow(TakenRow(blocks, k, size), k) == blocks
  {
    var row, mid := TakenRow(blocks, k, size), TakenParts(blocks[k], size);
    SpliceAt(blocks, k, k + 1, mid, k);
    if k > 0 {
      SpliceAt(blocks, k, k + 1, mid, k - 1);
    }
    if k + 1 < |row| {
      SpliceAt(blocks, k, k + 1, mid, k + 1);
    }
    assert Low(row, k) == k && Merged(row, k) == blocks[k];
    assert row[..k] == blocks[..k] && row[High(row, k)..] == blocks[k + 1..];
  }

  // ----------------------------------------------------------- live blocks

  ghost function Live(blocks: seq<Blk>): set<Blk> {
    set b | b in blocks && !b.free
  }

  lemma InSplice(blocks: seq<Blk>, lo: nat, hi: nat, mid: seq<Blk>, b: Blk)
    requires lo <= hi <= |blocks|
    ensures b in Splice(blocks, lo, hi, mid) <==> b in blocks[..lo] || b in mid || b in blocks[hi..]
  {
  }

  lemma InParts(blocks: seq<Blk>, lo: nat, hi: nat, b: Blk)
    requires lo <= hi <= |blocks|
    ensures b in blocks <==> b in blocks[..lo] || b in blocks[lo..hi] || b in blocks[hi..]
  {
  }

  /** Taking a block adds it to the live ones and touches no other. */
  lemma TakenLive(blocks: seq<Blk>, k: nat, size: nat)
    requires k < |blocks| && blocks[k].free && size <= blocks[k].size
    ensures Live(TakenRow(blocks, k, size)) == Live(blocks) + {TakenParts(blocks[k], size)[0]}
  {
  }

  /** Freeing a block takes it from the live ones and touches no other. */
  lemma FreedLive(blocks: seq<Blk>, start: nat, end: nat, k: nat)
    requires Row(blocks, start, end) && k < |blocks| && !blocks[k].free
    ensures Live(FreedRow(blocks, k)) == Live(blocks) - {blocks[k]}
  {
    hide Splice, Merged, Row, FreedRow, Low, High;
    FreedRowIs(blocks, k);
    forall b: Blk
      ensures b in Live(FreedRow(blocks, k)) <==> b in Live(blocks) && b != blocks[k]
    {
      UsedInRun(blocks, k, b);
      InSplice(blocks, Low(blocks, k), High(blocks, k), [Merged(blocks, k)], b);
      InParts(blocks, Low(blocks, k), High(blocks, k), b);
      NotInRest(blocks, start, end, k);
    }
  }

  /** The only used block among those that become one is the one being freed. */
  lemma UsedInRun(blocks: seq<Blk>, k: nat, b: Blk)
    requires k < |blocks| && !blocks[k].free
    ensures Low(blocks, k) <= k < High(blocks, k) <= |blocks|
    ensures b in blocks[Low(blocks, k)..High(blocks, k)] && !b.free <==> b == blocks[k]
  {
    var lo, hi := Low(blocks, k), High(blocks, k);
    assert blocks[lo..hi][k - lo] == blocks[k];
    if b in blocks[lo..hi] && !b.free {
      var j :| 0 <= j < hi - lo && blocks[lo..hi][j] == b;
      assert lo + j == k;
    }
  }

  lemma NotInRest(blocks: seq<Blk>, start: nat, end: nat, k: nat)
    requires Row(blocks, start, end) && k < |blocks|
    ensures Low(blocks, k) <= High(blocks, k) <= |blocks|
    ensures blocks[k] !in blocks[..Low(blocks, k)] && blocks[k] !in blocks[High(blocks, k)..]
  {
    hide Row;
    forall j | 0 <= j < |blocks| && j != k
      ensures blocks[j] != blocks[k]
    {
      if j < k {
        RowOrder(blocks, start, end, j, k);
      } else {
        RowOrder(blocks, start, end, k, j);
      }
    }
  }

  // --------------------------------------------------- tags after each step

  /** Headers after block `b` is taken for `size` bytes: its own tag, the tag of a
      remainder, and the header that follows. */
  ghost function TakenHeaders(h: Headers, b: Blk, size: nat): Headers
    requires size <= b.size && b.addr in h && b.End() in h
  {
    if b.size - size >= SPLIT_MIN then
      var rest := b.addr + HEADER + size;
      h[b.addr := h[b.addr].(size := size, free := false)]
       [rest := Header(b.size - size - HEADER, true, false, b.addr)]
       [b.End() := h[b.End()].(prevPhys := rest)]
    else
      h[b.addr := h[b.addr].(free := false)][b.End() := h[b.End()].(prevFree := false)]
  }

  /** `h'` differs from `h` only at headers from `from` to `to`. */
  ghost predicate SameOutside(h: Headers, h': Headers, from: nat, to: nat) {
    forall a | a in h && !(from <= a <= to) :: a in h' && h'[a] == h[a]
  }

  /** Tags stay true when a run of blocks is replaced, the new parts and the header after
      them are tagged right, and nothing else is written. */
  lemma SpliceTags(h: Headers, h': Headers, blocks: seq<Blk>, start: nat, end: nat, lo: nat, hi: nat, mid: seq<Blk>,
                   before: bool)
    requires Row(blocks, start, end) && Tagged(h, blocks, end) && lo < hi <= |blocks| && |mid| > 0
    requires before == (lo > 0 && blocks[lo - 1].free)
    requires SameOutside(h, h', blocks[lo].addr, blocks[hi - 1].End())
    requires forall j | 0 <= j < |mid| :: PartTagged(h', mid, j, before)
    requires hi < |blocks| ==> TagIs(h', blocks[hi], mid[|mid| - 1].free)
    requires hi == |blocks| ==> end - HEADER in h' && h'[end - HEADER].size == 0 && !h'[end - HEADER].free
    ensures Tagged(h', Splice(blocks, lo, hi, mid), end)
  {
    hide Splice;
    var row := Splice(blocks, lo, hi, mid);
    forall i | 0 <= i < |row|
      ensures TagOk(h', row, i)
    {
      SpliceAt(blocks, lo, hi, mid, i);
      if i > 0 {
        SpliceAt(blocks, lo, hi, mid, i - 1);
      }
      if i < lo {
        Untouched(h, h', blocks, start, end, lo, hi, i);
      } else if i > lo + |mid| {
        Untouched(h, h', blocks, start, end, lo, hi, i - |mid| + hi - lo);
      } else if i < lo + |mid| {
        assert PartTagged(h', mid, i - lo, before);
      }
    }
    if hi < |blocks| {
      RowOrder(blocks, start, end, hi - 1, |blocks| - 1);
    }
  }

  ghost predicate PartTagged(h: Headers, mid: seq<Blk>, j: nat, before: bool)
    requires j < |mid|
  {
    TagIs(h, mid[j], if j > 0 then mid[j - 1].free else before)
  }

  lemma Untouched(h: Headers, h': Headers, blocks: seq<Blk>, start: nat, end: nat, lo: nat, hi: nat, i: nat)
    requires Row(blocks, start, end) && Tagged(h, blocks, end) && lo < hi <= |blocks|
    requires i < lo || hi < i < |blocks|
    requires SameOutside(h, h', blocks[lo].addr, blocks[hi - 1].End())
    ensures TagOk(h, blocks, i) && TagOk(h', blocks, i) && h'[blocks[i].addr] == h[blocks[i].addr]
  {
    assert TagOk(h, blocks, i);
    if i < lo {
      RowOrder(blocks, start, end, i, lo);
    } else {
      RowOrder(blocks, start, end, hi - 1, hi);
      RowOrder(blocks, start, end, hi, i);
    }
  }

  lemma NextHeader(h: Headers, blocks: seq<Blk>, start: nat, end: nat, k: nat)
    requires Row(blocks, start, end) && Tagged(h, blocks, end) && k < |blocks|
    ensures TagOk(h, blocks, k) && blocks[k].End() in h
    ensures k + 1 < |blocks| ==> blocks[k].End() == blocks[k + 1].addr && TagOk(h, blocks, k + 1)
    ensures k + 1 == |blocks| ==> blocks[k].End() == end - HEADER
  {
    assert TagOk(h, blocks, k);
    if k + 1 < |blocks| {
      assert TagOk(h, blocks, k + 1);
    }
  }

  lemma TakenTags(h: Headers, blocks: seq<Blk>, start: nat, end: nat, k: nat, size: nat)
    requires Row(blocks, start, end) && NoTwoFree(blocks) && Tagged(h, blocks, end)
    requires k < |blocks| && blocks[k].free && BLOCK_MIN <= size <= blocks[k].size
    ensures blocks[k].addr in h && blocks[k].End() in h
    ensures Tagged(TakenHeaders(h, blocks[k], size), TakenRow(blocks, k, size), end)
  {
    NextHeader(h, blocks, start, end, k);
    hide Splice;
    var h', mid, before := TakenHeaders(h, blocks[k], size), TakenParts(blocks[k], size), k > 0 && blocks[k - 1].free;
    assert PartTagged(h', mid, 0, before);
    assert |mid| == 2 ==> PartTagged(h', mid, 1, before);
    SpliceTags(h, h', blocks, start, end, k, k + 1, mid, before);
  }

  /** Headers after block `k` is freed: the merged block's tag, the tag of an absorbed
      successor, and the flag of the header that follows. */
  ghost function FreedHeaders(h: Headers, blocks: seq<Blk>, k: nat): Headers
    requires k < |blocks| && blocks[Low(blocks, k)].addr in h && Merged(blocks, k).End() in h
    requires k + 1 < |blocks| ==> blocks[k + 1].addr in h
  {
    var m := Merged(blocks, k);
    var h1 := if k + 1 < High(blocks, k) then h[blocks[k + 1].addr := h[blocks[k + 1].addr].(free := false)] else h;
    var h2 := h1[m.addr := h1[m.addr].(size := m.size, free := true)];
    h2[m.End() := h2[m.End()].(prevFree := true)]
  }

  lemma FreedTags(h: Headers, blocks: seq<Blk>, start: nat, end: nat, k: nat)
    requires Row(blocks, start, end) && NoTwoFree(blocks) && Tagged(h, blocks, end) && k < |blocks| && !blocks[k].free
    ensures blocks[Low(blocks, k)].addr in h && Merged(blocks, k).End() in h
    ensures k + 1 < |blocks| ==> blocks[k + 1].addr in h
    ensures Tagged(FreedHeaders(h, blocks, k), FreedRow(blocks, k), end)
  {
    var lo, hi := Low(blocks, k), High(blocks, k);
    MergedSpan(blocks, start, end, k);
    NextHeader(h, blocks, start, end, lo);
    NextHeader(h, blocks, start, end, k);
    NextHeader(h, blocks, start, end, hi - 1);
    FreedTag(h, blocks, start, end, k);
    hide Splice, FreedHeaders, Merged, TagIs;
    SpliceTags(h, FreedHeaders(h, blocks, k), blocks, start, end, lo, hi, [Merged(blocks, k)], false);
  }

  lemma FreedTag(h: Headers, blocks: seq<Blk>, start: nat, end: nat, k: nat)
    requires Row(blocks, start, end) && NoTwoFree(blocks) && Tagged(h, blocks, end) && k < |blocks| && !blocks[k].free
    requires blocks[Low(blocks, k)].addr in h && Merged(blocks, k).End() in h
    requires k + 1 < |blocks| ==> blocks[k + 1].addr in h
    ensures var lo, hi, m, h' := Low(blocks, k), High(blocks, k), Merged(blocks, k), FreedHeaders(h, blocks, k);
      && m.End() == blocks[hi - 1].End()
      && !(lo > 0 && blocks[lo - 1].free)
      && SameOutside(h, h', blocks[lo].addr, m.End())
      && PartTagged(h', [m], 0, false)
      && (hi < |blocks| ==> TagIs(h', blocks[hi], true))
      && (hi == |blocks| ==> end - HEADER in h' && h'[end - HEADER].size == 0 && !h'[end - HEADER].free)
  {
    hide FreedHeaders, Row, NoTwoFree, Merged;
    var lo, hi, m := Low(blocks, k), High(blocks, k), Merged(blocks, k);
    MergedSpan(blocks, start, end, k);
    MergedPlace(blocks, start, end, k);
    FreedWrites(h, blocks, k);
    NextHeader(h, blocks, start, end, lo);
    NextHeader(h, blocks, start, end, hi - 1);
    BeforeRun(blocks, k);
  }

  lemma BeforeRun(blocks: seq<Blk>, k: nat)
    requires NoTwoFree(blocks) && k < |blocks| && !blocks[k].free
    ensures !(Low(blocks, k) > 0 && blocks[Low(blocks, k) - 1].free)
    ensures High(blocks, k) < |blocks| ==> !blocks[High(blocks, k)].free
  {
    assert k > 1 ==> !(blocks[k - 2].free && blocks[k - 1].free);
    assert k + 2 < |blocks| ==> !(blocks[k + 1].free && blocks[k + 2].free);
  }

  /** The merged block starts where its run does, and an absorbed successor lies inside. */
  lemma MergedPlace(blocks: seq<Blk>, start: nat, end: nat, k: nat)
    requires Row(blocks, start, end) && k < |blocks|
    ensures var lo, hi, m := Low(blocks, k), High(blocks, k), Merged(blocks, k);
      && m.addr == blocks[lo].addr && m.free && m.addr < m.End()
      && (k + 1 < hi ==> m.addr < blocks[k + 1].addr < m.End())
  {
    MergedSpan(blocks, start, end, k);
    if k + 1 < High(blocks, k) {
      RowOrder(blocks, start, end, Low(blocks, k), k + 1);
    }
  }

  /** What `FreedHeaders` holds where it writes, and that it writes nowhere else. */
  lemma FreedWrites(h: Headers, blocks: seq<Blk>, k: nat)
    requires k < |blocks| && blocks[Low(blocks, k)].addr in h && Merged(blocks, k).End() in h
    requires k + 1 < |blocks| ==> blocks[k + 1].addr in h
    ensures var m, h' := Merged(blocks, k), FreedHeaders(h, blocks, k);
      && h'.Keys == h.Keys
      && h'[m.addr] == h[m.addr].(size := m.size, free := true)
      && (m.End() != m.addr && (k + 1 < High(blocks, k) ==> m.End() != blocks[k + 1].addr) ==>
            h'[m.End()] == h[m.End()].(prevFree := true))
      && (forall a | a in h && a != m.addr && a != m.End() && (k + 1 < High(blocks, k) ==> a != blocks[k + 1].addr) ::
            h'[a] == h[a])
  {
  }

  // -------------------------------------------------------- payloads of others

  /** No header and no list words that reach into the payload of `b` differ. */
  ghost predicate PayloadKept(h: Headers, h': Headers, ram: Ram, ram': Ram, b: Blk) {
    && (forall a: nat | b.addr < a < b.End() && a in h :: a in h' && h'[a] == h[a])
    && (forall a: nat | b.addr < a < b.End() && a in ram :: a in ram' && ram'[a] == ram[a])
  }

  ghost predicate PayloadsKept(h: Headers, h': Headers, ram: Ram, ram': Ram, live: set<Blk>) {
    forall b | b in live :: PayloadKept(h, h', ram, ram', b)
  }

  /** A block of the row begins or ends at `a`. */
  ghost predicate Border(blocks: seq<Blk>, a: int) {
    exists j | 0 <= j < |blocks| :: a == blocks[j].addr || a == blocks[j].End()
  }

  lemma BorderOutside(blocks: seq<Blk>, start: nat, end: nat, i: nat, a: int)
    requires Row(blocks, start, end) && i < |blocks| && Border(blocks, a)
    ensures !(blocks[i].addr < a < blocks[i].End())
  {
    var j :| 0 <= j < |blocks| && (a == blocks[j].addr || a == blocks[j].End());
    if i < j {
      RowOrder(blocks, start, end, i, j);
    } else if j < i {
      RowOrder(blocks, start, end, j, i);
    }
  }

  lemma FreeBorder(blocks: seq<Blk>, a: int)
    requires a in FreeAddrs(blocks)
    ensures Border(blocks, a)
  {
    var j :| 0 <= j < |blocks| && blocks[j].free && a == blocks[j].addr;
  }

  lemma TakenBorder(h: Headers, blocks: seq<Blk>, k: nat, size: nat, a: nat)
    requires k < |blocks| && size <= blocks[k].size && blocks[k].addr in h && blocks[k].End() in h && a in h
    ensures var h' := TakenHeaders(h, blocks[k], size);
      a in h' && (h'[a] != h[a] ==> Border(TakenRow(blocks, k, size), a))
  {
    hide Splice, Border;
    var mid := TakenParts(blocks[k], size);
    forall j | 0 <= j < |mid|
      ensures Border(TakenRow(blocks, k, size), mid[j].addr) && Border(TakenRow(blocks, k, size), mid[j].End())
    {
      SpliceAt(blocks, k, k + 1, mid, k + j);
      BorderAt(TakenRow(blocks, k, size), k + j);
    }
    assert mid[0].addr == blocks[k].addr && mid[|mid| - 1].End() == blocks[k].End();
  }

  lemma BorderAt(blocks: seq<Blk>, j: nat)
    requires j < |blocks|
    ensures Border(blocks, blocks[j].addr) && Border(blocks, blocks[j].End())
  {
  }

  lemma FreedBorder(h: Headers, blocks: seq<Blk>, start: nat, end: nat, k: nat, a: nat)
    requires Row(blocks, start, end) && k < |blocks| && a in h
    requires blocks[Low(blocks, k)].addr in h && Merged(blocks, k).End() in h
    requires k + 1 < |blocks| ==> blocks[k + 1].addr in h
    ensures var h' := FreedHeaders(h, blocks, k);
      a in h' && (h'[a] != h[a] ==> Border(blocks, a))
  {
    hide Splice, FreedHeaders, Row, Border;
    MergedSpan(blocks, start, end, k);
    FreedWrites(h, blocks, k);
    BorderAt(blocks, Low(blocks, k));
    BorderAt(blocks, High(blocks, k) - 1);
    if k + 1 < |blocks| {
      BorderAt(blocks, k + 1);
    }
  }

  /** Writes at the borders of two rows miss the payload of a block of both. */
  lemma BordersMiss(h: Headers, h': Headers, ram: Ram, ram': Ram, row: seq<Blk>, row': seq<Blk>, start: nat, end: nat,
                    b: Blk)
    requires Row(row, start, end) && Row(row', start, end) && b in row && b in row'
    requires forall a | a in h :: a in h' && (h'[a] != h[a] ==> Border(row, a) || Border(row', a))
    requires WritesIn(ram, ram', FreeAddrs(row) + FreeAddrs(row'))
    ensures PayloadKept(h, h', ram, ram', b)
  {
    hide Row, Border, FreeAddrs;
    var i :| 0 <= i < |row| && row[i] == b;
    var j :| 0 <= j < |row'| && row'[j] == b;
    forall a: nat | b.addr < a < b.End()
      ensures !Border(row, a) && !Border(row', a)
    {
      if Border(row, a) {
        BorderOutside(row, start, end, i, a);
      }
      if Border(row', a) {
        BorderOutside(row', start, end, j, a);
      }
    }
    forall a: nat | b.addr < a < b.End() && a in ram
      ensures a in ram' && ram'[a] == ram[a]
    {
      if a in FreeAddrs(row) {
        FreeBorder(row, a);
      }
      if a in FreeAddrs(row') {
        FreeBorder(row', a);
      }
    }
  }

  /** Taking a block writes into no payload handed out before. */
  lemma TakenKeeps(h: Headers, ram: Ram, ram': Ram, blocks: seq<Blk>, start: nat, end: nat, k: nat, size: nat)
    requires k < |blocks| && blocks[k].free && size <= blocks[k].size && blocks[k].addr in h && blocks[k].End() in h
    requires Row(blocks, start, end) && Row(TakenRow(blocks, k, size), start, end)
    requires WritesIn(ram, ram', FreeAddrs(blocks) + FreeAddrs(TakenRow(blocks, k, size)))
    ensures PayloadsKept(h, TakenHeaders(h, blocks[k], size), ram, ram', Live(blocks))
  {
    hide Row, Border, FreeAddrs, TakenHeaders, TakenRow, WritesIn, PayloadKept;
    TakenLive(blocks, k, size);
    forall b | b in Live(blocks)
      ensures PayloadKept(h, TakenHeaders(h, blocks[k], size), ram, ram', b)
    {
      assert b in Live(TakenRow(blocks, k, size));
      forall a | a in h
        ensures var h' := TakenHeaders(h, blocks[k], size);
          a in h' && (h'[a] != h[a] ==> Border(TakenRow(blocks, k, size), a))
      {
        TakenBorder(h, blocks, k, size, a);
      }
      BordersMiss(h, TakenHeaders(h, blocks[k], size), ram, ram', blocks, TakenRow(blocks, k, size), start, end, b);
    }
  }

  /** Freeing a block writes into no payload that stays handed out. */
  lemma FreedKeeps(h: Headers, ram: Ram, ram': Ram, blocks: seq<Blk>, start: nat, end: nat, k: nat)
    requires Row(blocks, start, end) && k < |blocks| && !blocks[k].free && Row(FreedRow(blocks, k), start, end)
    requires blocks[Low(blocks, k)].addr in h && Merged(blocks, k).End() in h
    requires k + 1 < |blocks| ==> blocks[k + 1].addr in h
    requires WritesIn(ram, ram', FreeAddrs(blocks) + FreeAddrs(FreedRow(blocks, k)))
    ensures PayloadsKept(h, FreedHeaders(h, blocks, k), ram, ram', Live(FreedRow(blocks, k)))
  {
    hide Row, Border, FreeAddrs, FreedHeaders, FreedRow, WritesIn, PayloadKept, Merged;
    FreedLive(blocks, start, end, k);
    forall b | b in Live(FreedRow(blocks, k))
      ensures PayloadKept(h, FreedHeaders(h, blocks, k), ram, ram', b)
    {
      assert b in Live(blocks);
      forall a | a in h
        ensures var h' := FreedHeaders(h, blocks, k);
          a in h' && (h'[a] != h[a] ==> Border(blocks, a))
      {
        FreedBorder(h, blocks, start, end, k, a);
      }
      BordersMiss(h, FreedHeaders(h, blocks, k), ram, ram', blocks, FreedRow(blocks, k), start, end, b);
    }
  }

  // ------------------------------------------------------------ back links

  /** Taking a block keeps every back link that was true, and makes those of a split true. */
  lemma TakenLinks(h: Headers, blocks: seq<Blk>, start: nat, end: nat, k: nat, size: nat, i: nat)
    requires Row(blocks, start, end) && Tagged(h, blocks, end)
    requires k < |blocks| && size <= blocks[k].size && i < |TakenRow(blocks, k, size)|
    requires blocks[k].addr in h && blocks[k].End() in h
    ensures var split := |TakenParts(blocks[k], size)| == 2;
      LinkedBack(TakenHeaders(h, blocks[k], size), TakenRow(blocks, k, size), i) ==
        if i < k then LinkedBack(h, blocks, i)
        else if !split then LinkedBack(h, blocks, i)
        else if i <= k + 1 then true
        else LinkedBack(h, blocks, i - 1)
  {
    hide Splice, TakenHeaders, Row, Tagged;
    var mid := TakenParts(blocks[k], size);
    SpliceAt(blocks, k, k + 1, mid, i);
    TakenWrites(h, blocks[k], size);
    if i < k {
      NextHeader(h, blocks, start, end, i);
      RowOrder(blocks, start, end, i, k);
      if i + 1 < k {
        RowOrder(blocks, start, end, i + 1, k);
      }
    } else if i >= k + |mid| {
      var j := i - |mid| + 1;
      NextHeader(h, blocks, start, end, j);
      RowOrder(blocks, start, end, k, j);
    }
  }

  /** The back links `TakenHeaders` writes. */
  lemma TakenWrites(h: Headers, b: Blk, size: nat)
    requires size <= b.size && b.addr in h && b.End() in h
    ensures var h' := TakenHeaders(h, b, size);
      && (forall a | a in h && !(b.addr < a <= b.End()) :: a in h' && h'[a].prevPhys == h[a].prevPhys)
      && b.End() in h'
      && (b.size - size < SPLIT_MIN ==> h'[b.End()].prevPhys == h[b.End()].prevPhys)
      && (b.size - size >= SPLIT_MIN ==>
            (var rest := b.addr + HEADER + size;
             rest in h' && h'[rest].prevPhys == b.addr && h'[b.End()].prevPhys == rest))
  {
  }

  lemma TakenAllLinked(h: Headers, blocks: seq<Blk>, start: nat, end: nat, k: nat, size: nat)
    requires Row(blocks, start, end) && Tagged(h, blocks, end) && AllLinkedBack(h, blocks)
    requires k < |blocks| && size <= blocks[k].size && blocks[k].addr in h && blocks[k].End() in h
    ensures AllLinkedBack(TakenHeaders(h, blocks[k], size), TakenRow(blocks, k, size))
  {
    forall i | 0 <= i < |TakenRow(blocks, k, size)|
      ensures LinkedBack(TakenHeaders(h, blocks[k], size), TakenRow(blocks, k, size), i)
    {
      TakenLinks(h, blocks, start, end, k, size, i);
    }
  }

  /** Freeing writes no back link: each one is true afterwards exactly when it was, and the
      one after the merged block only if it already named the merged block. */
  lemma FreedLinks(h: Headers, blocks: seq<Blk>, start: nat, end: nat, k: nat, i: nat)
    requires Row(blocks, start, end) && Tagged(h, blocks, end)
    requires k < |blocks| && i < |FreedRow(blocks, k)|
    requires blocks[Low(blocks, k)].addr in h && Merged(blocks, k).End() in h
    requires k + 1 < |blocks| ==> blocks[k + 1].addr in h
    ensures var lo, hi := Low(blocks, k), High(blocks, k);
      LinkedBack(FreedHeaders(h, blocks, k), FreedRow(blocks, k), i) ==
        if i < lo then LinkedBack(h, blocks, i)
        else if i == lo then h[blocks[hi - 1].End()].prevPhys == blocks[lo].addr
        else LinkedBack(h, blocks, i + (hi - lo) - 1)
  {
    var lo, hi := Low(blocks, k), High(blocks, k);
    MergedSpan(blocks, start, end, k);
    SpliceAt(blocks, lo, hi, [Merged(blocks, k)], i);
    FreedKeepsLinks(h, blocks, k);
    if i < lo {
      NextHeader(h, blocks, start, end, i);
    } else if i > lo {
      NextHeader(h, blocks, start, end, i + (hi - lo) - 1);
    }
    hide Splice, FreedHeaders, Merged;
  }

  lemma FreedKeepsLinks(h: Headers, blocks: seq<Blk>, k: nat)
    requires k < |blocks| && blocks[Low(blocks, k)].addr in h && Merged(blocks, k).End() in h
    requires k + 1 < |blocks| ==> blocks[k + 1].addr in h
    ensures var h' := FreedHeaders(h, blocks, k);
      forall a | a in h :: a in h' && h'[a].prevPhys == h[a].prevPhys
  {
  }

  /** Freeing a block of a heap whose back links are all true leaves them all true exactly
      when it merges with neither neighbour. */
  lemma FreedAllLinked(h: Headers, blocks: seq<Blk>, start: nat, end: nat, k: nat)
    requires Row(blocks, start, end) && Tagged(h, blocks, end) && AllLinkedBack(h, blocks)
    requires k < |blocks|
    requires blocks[Low(blocks, k)].addr in h && Merged(blocks, k).End() in h
    requires k + 1 < |blocks| ==> blocks[k + 1].addr in h
    ensures AllLinkedBack(FreedHeaders(h, blocks, k), FreedRow(blocks, k)) <==>
              (k > 0 ==> !blocks[k - 1].free) && (k + 1 < |blocks| ==> !blocks[k + 1].free)
    ensures forall i | 0 <= i < |FreedRow(blocks, k)| && i != Low(blocks, k) ::
              LinkedBack(FreedHeaders(h, blocks, k), FreedRow(blocks, k), i)
  {
    var lo, hi := Low(blocks, k), High(blocks, k);
    var h', row := FreedHeaders(h, blocks, k), FreedRow(blocks, k);
    forall i | 0 <= i < |row|
      ensures i != lo ==> LinkedBack(h', row, i)
      ensures i == lo ==> (LinkedBack(h', row, i) <==> lo + 1 == hi)
    {
      FreedLinks(h, blocks, start, end, k, i);
      if i == lo {
        assert LinkedBack(h, blocks, hi - 1);
        if lo < hi - 1 {
          RowOrder(blocks, start, end, lo, hi - 1);
        }
      }
    }
    assert LinkedBack(h', row, lo) <==> lo + 1 == hi;
    hide FreedHeaders, Merged, FreedRow;
  }

  /** So after any merge that is not at the end of the pool, the block behind it says its
      predecessor is free but names another address as that predecessor. */
  lemma MergeLeavesStaleLink(h: Headers, blocks: seq<Blk>, start: nat, end: nat, k: nat)
    requires Row(blocks, start, end) && NoTwoFree(blocks) && Tagged(h, blocks, end) && AllLinkedBack(h, blocks)
    requires k < |blocks| && !blocks[k].free && High(blocks, k) < |blocks|
    requires High(blocks, k) - Low(blocks, k) > 1
    requires blocks[Low(blocks, k)].addr in h && Merged(blocks, k).End() in h
    requires k + 1 < |blocks| ==> blocks[k + 1].addr in h
    ensures var h', row, i := FreedHeaders(h, blocks, k), FreedRow(blocks, k), Low(blocks, k) + 1;
      && i < |row| && row[i].addr in h' && !row[i].free
      && h'[row[i].addr].prevFree && h'[row[i].addr].prevPhys != row[i - 1].addr
  {
    var h', row, lo := FreedHeaders(h, blocks, k), FreedRow(blocks, k), Low(blocks, k);
    FreedAllLinked(h, blocks, start, end, k);
    FreedTags(h, blocks, start, end, k);
    FreedRowOk(blocks, start, end, k);
    hide FreedHeaders, FreedRow, Merged;
    assert AllLinkedBack(h', row) || !LinkedBack(h', row, lo);
    SpliceAt(blocks, lo, High(blocks, k), [Merged(blocks, k)], lo);
    SpliceAt(blocks, lo, High(blocks, k), [Merged(blocks, k)], lo + 1);
    FreedRowIs(blocks, k);
    NextHeader(h', row, start, end, lo);
  }

  lemma FreedRowIs(blocks: seq<Blk>, k: nat)
    requires k < |blocks|
    ensures FreedRow(blocks, k) == Splice(blocks, Low(blocks, k), High(blocks, k), [Merged(blocks, k)])
    ensures Merged(blocks, k).free && |FreedRow(blocks, k)| == |blocks| - (High(blocks, k) - Low(blocks, k)) + 1
  {
  }

  // --------------------------------------------------------- free addresses

  lemma SpliceFree(blocks: seq<Blk>, start: nat, end: nat, lo: nat, hi: nat, mid: seq<Blk>)
    requires Row(blocks, start, end) && lo <= hi <= |blocks|
    ensures FreeAddrs(Splice(blocks, lo, hi, mid)) == FreeAddrs(blocks) - FreeAddrs(blocks[lo..hi]) + FreeAddrs(mid)
  {
    var row := Splice(blocks, lo, hi, mid);
    forall i | 0 <= i < |row| && row[i].free
      ensures row[i].addr in FreeAddrs(blocks) - FreeAddrs(blocks[lo..hi]) + FreeAddrs(mid)
    {
      SpliceAt(blocks, lo, hi, mid, i);
      if i < lo {
        OutsideRun(blocks, start, end, lo, hi, i);
      } else if i >= lo + |mid| {
        OutsideRun(blocks, start, end, lo, hi, i - |mid| + hi - lo);
      }
    }
    forall i | 0 <= i < |blocks| && blocks[i].free && (i < lo || hi <= i)
      ensures blocks[i].addr in FreeAddrs(row)
    {
      SpliceAt(blocks, lo, hi, mid, if i < lo then i else i + |mid| - (hi - lo));
    }
    forall j | 0 <= j < |mid| && mid[j].free
      ensures mid[j].addr in FreeAddrs(row)
    {
      SpliceAt(blocks, lo, hi, mid, lo + j);
    }
    forall a | a in FreeAddrs(blocks) - FreeAddrs(blocks[lo..hi])
      ensures a in FreeAddrs(row)
    {
      var i :| 0 <= i < |blocks| && blocks[i].free && blocks[i].addr == a;
      if lo <= i < hi {
        InsideRun(blocks, lo, hi, i);
      }
    }
  }

  lemma InsideRun(blocks: seq<Blk>, lo: nat, hi: nat, i: nat)
    requires lo <= i < hi <= |blocks| && blocks[i].free
    ensures blocks[i].addr in FreeAddrs(blocks[lo..hi])
  {
  }

  lemma OutsideRun(blocks: seq<Blk>, start: nat, end: nat, lo: nat, hi: nat, i: nat)
    requires Row(blocks, start, end) && lo <= hi <= |blocks| && i < |blocks| && (i < lo || hi <= i)
    ensures blocks[i].addr !in FreeAddrs(blocks[lo..hi])
  {
    forall j | lo <= j < hi
      ensures blocks[j].addr != blocks[i].addr
    {
      if i < j {
        RowOrder(blocks, start, end, i, j);
      } else {
        RowOrder(blocks, start, end, j, i);
      }
    }
  }
}
