/** The TLSF heap in place: a table of list heads with two bitmap levels over blocks
    whose headers sit in the pool. */
module Tlsf {
  import opened Arith
  import opened Bits
  import opened FreeList
  import opened TlsfIndex
  import opened TlsfBitmaps
  import opened TlsfHeap
  import opened Wrappers

  /** Block sizes the table of lists has a class for. */
  const SIZE_LIMIT := 0x4000_0000

  /** Every listed block is free and sits on the list of its own class. */
  ghost predicate Classified(h: Headers, lists: seq<seq<nat>>) {
    forall k, a | 0 <= k < |lists| && a in lists[k] :: InClass(h, a, k)
  }

  ghost predicate InClass(h: Headers, a: nat, k: nat) {
    && a in h && h[a].free && BLOCK_MIN <= h[a].size < SIZE_LIMIT
    && Mapping(h[a].size).Slot() == k
  }

  /** The pool is a row of blocks with true tags, no two free blocks are neighbours, and the
      listed addresses are exactly those of the free blocks. */
  ghost predicate HeapOk(h: Headers, nodes: set<int>, listed: set<nat>, blocks: seq<Blk>, start: nat, end: nat) {
    && 0 < start && start % 8 == 0 && 2 * HEADER <= end - start < SIZE_LIMIT + 2 * HEADER
    && Row(blocks, start, end) && NoTwoFree(blocks) && Tagged(h, blocks, end)
    && listed == FreeAddrs(blocks)
    && (forall a: nat | start <= a < end && (a - start) % 8 == 0 :: a in nodes && a in h)
  }

  /** There is a word at every eighth byte of a pool. */
  ghost predicate PoolRoom(words: set<int>, mem: nat, size: nat) {
    forall a: nat | mem <= a < mem + size && (a - mem) % 8 == 0 :: a in words
  }

  class TlsfInner {
    var flBitmap: nat
    const slBitmap: array<nat>
    const freeLists: array<int>
    var headers: Headers
    var ram: Ram

    ghost var lists: seq<seq<nat>>
    ghost var blocks: seq<Blk>
    ghost var start: nat
    ghost var end: nat

    // ------------------------------------------------------------ invariant

    /** The lists are threaded and the bitmaps agree with them. */
    ghost predicate Indexed()
      reads this`flBitmap, this`ram, this`lists, slBitmap, freeLists
    {
      && slBitmap.Length == FL_INDEX_COUNT && freeLists.Length == LIST_COUNT
      && AllThreaded(lists, freeLists[..], ram)
      && Bitmaps(flBitmap, slBitmap[..], lists)
    }

    ghost predicate Valid()
      reads this`flBitmap, this`ram, this`lists, this`headers, this`blocks, this`start, this`end, slBitmap, freeLists
    {
      Indexed() && Classified(headers, lists) && HeapOk(headers, ram.Keys, Listed(lists), blocks, start, end)
    }

    /** An allocator without a pool, over memory holding anything. */
    constructor (memory: Headers, words: Ram)
      requires NIL !in words
      ensures Indexed() && NoneListed(lists) && blocks == []
      ensures headers == memory && ram == words && fresh(slBitmap) && fresh(freeLists)
    {
      flBitmap := 0;
      slBitmap := new nat[FL_INDEX_COUNT](_ => 0);
      freeLists := new int[LIST_COUNT](_ => NIL);
      headers := memory;
      ram := words;
      lists := seq(LIST_COUNT, _ => []);
      blocks := [];
      start := 0;
      end := 0;
      new;
      EmptyBitmaps(slBitmap[..], lists);
    }

    /** Give the allocator the pool of `size` bytes at `mem`. False stands for the panics: on
        a pool too small for one block, and on a block too large for the table of lists. */
    method AddPool(mem: nat, size: nat) returns (ok: bool)
      requires Indexed() && NoneListed(lists) && blocks == []
      requires 0 < mem && mem % 8 == 0 && size % 8 == 0
      requires PoolRoom(ram.Keys, mem, size) && PoolRoom(headers.Keys, mem, size)
      modifies this`flBitmap, this`headers, this`ram, this`lists, this`blocks, this`start, this`end, slBitmap, freeLists
      ensures ok <==> 2 * HEADER + BLOCK_MIN < size < SIZE_LIMIT + 2 * HEADER
      ensures ok ==> Valid() && start == mem && end == mem + size
      ensures ok ==> blocks == [Blk(mem, size - 2 * HEADER, true)] && AllLinkedBack(headers, blocks)
      ensures ok ==> headers == PoolHeaders(old(headers), mem, size, true)
      ensures ok ==> ram.Keys == old(ram.Keys) && WritesIn(old(ram), ram, {mem, mem + size - HEADER})
    {
      hide Indexed, HeapOk, AllLinkedBack, Classified, Listed, Unlisted, NoneListed, WritesIn, PoolHeaders;
      PoolEnds(ram.Keys, mem, size);
      PoolEnds(headers.Keys, mem, size);
      hide PoolRoom;
      if size <= 2 * HEADER + BLOCK_MIN {
        return false;
      }
      WritePool(mem, size);
      if size - 2 * HEADER >= SIZE_LIMIT {
        return false;
      }
      start, end, blocks := mem, mem + size, [Blk(mem, size - 2 * HEADER, true)];
      EmptyLists(headers, lists, mem);
      PoolMarked(old(headers), mem, size);
      ghost var words := ram;
      InsertFree(mem);
      PoolAdded(old(headers), old(ram), words, ram, mem, size);
      ok := true;
    }

    /** Write the headers of a pool: one block, and the sentinel at the very end. */
    method WritePool(mem: nat, size: nat)
      requires Indexed() && NoneListed(lists)
      requires size > 2 * HEADER + BLOCK_MIN && mem in headers && mem in ram
      requires mem + size - HEADER in headers && mem + size - HEADER in ram
      modifies this`headers, this`ram
      ensures Indexed() && ram.Keys == old(ram.Keys) && WritesIn(old(ram), ram, {mem, mem + size - HEADER})
      ensures headers == PoolHeaders(old(headers), mem, size, false)
    {
      hide Bitmaps, AllThreaded, NoneListed;
      var sentinel := mem + size - HEADER;
      headers := headers[sentinel := Header(0, false, false, NIL)];
      headers := headers[mem := Header(size - 2 * HEADER, false, false, NIL)];
      EmptyThreaded(lists, freeLists[..], ram, ram[sentinel := Node(NIL, NIL)][mem := Node(NIL, NIL)]);
      ram := ram[sentinel := Node(NIL, NIL)][mem := Node(NIL, NIL)];
      headers := headers[mem := headers[mem].(prevFree := false)];
      headers := headers[sentinel := headers[sentinel].(prevPhys := mem)];
    }

    // ---------------------------------------------------------------- lists

    /** Put a block on the list of its class and mark it free. */
    method InsertFree(block: nat)
      requires Indexed() && Classified(headers, lists)
      requires block in headers && block in ram && Unlisted(lists, block)
      requires BLOCK_MIN <= headers[block].size < SIZE_LIMIT
      modifies this`flBitmap, this`headers, this`ram, this`lists, slBitmap, freeLists
      ensures Indexed() && Classified(headers, lists)
      ensures headers == old(headers)[block := old(headers)[block].(free := true)]
      ensures ram.Keys == old(ram.Keys) && WritesIn(old(ram), ram, old(Listed(lists)) + {block})
      ensures Listed(lists) == old(Listed(lists)) + {block}
    {
      hide AllThreaded, Bitmaps, Listed, Mapping, SetBit, PushWords;
      ListCount(flBitmap, slBitmap[..], lists);
      var c := Mapping(headers[block].size);
      MappingInRange(headers[block].size);
      var k := c.fl * SL_COUNT + c.sl;
      ListedPush(lists, k, block);
      ClassifiedPush(headers, lists, k, block);
      PushNode(k, block);
      SetBits(c, [block] + lists[k]);
      headers := headers[block := headers[block].(free := true)];
      lists := lists[k := [block] + lists[k]];
    }

    /** Take a listed block off its list and mark it used. */
    method RemoveFree(block: nat)
      requires Indexed() && Classified(headers, lists) && block in Listed(lists)
      modifies this`flBitmap, this`headers, this`ram, this`lists, slBitmap, freeLists
      ensures Indexed() && Classified(headers, lists)
      ensures block in old(headers) && headers == old(headers)[block := old(headers)[block].(free := false)]
      ensures ram.Keys == old(ram.Keys) && WritesIn(old(ram), ram, old(Listed(lists)))
      ensures Listed(lists) == old(Listed(lists)) - {block} && Unlisted(lists, block)
    {
      hide AllThreaded, Bitmaps, Listed, Mapping, Unlisted, Classified, WritesIn, Without;
      ListCount(flBitmap, slBitmap[..], lists);
      ghost var k, i := PlaceOf(headers, lists, block);
      var c := Mapping(headers[block].size);
      MappingInRange(headers[block].size);
      ListedUnlink(lists, freeLists[..], ram, k, i);
      ClassifiedUnlink(headers, lists, freeLists[..], ram, k, i);
      var node := UnlinkNode(c.fl * SL_COUNT + c.sl, block, i);
      ClearBits(c, Without(lists[k], i));
      headers := headers[block := headers[block].(free := false)];
      lists := lists[k := Without(lists[k], i)];
    }

    /** Unlink the i-th node of list `k`. */
    method UnlinkNode(k: nat, block: nat, ghost i: nat) returns (node: Node)
      requires AllThreaded(lists, freeLists[..], ram)
      requires k < |lists| && i < |lists[k]| && lists[k][i] == block
      modifies this`ram, freeLists
      ensures AllThreaded(lists[k := Without(lists[k], i)], freeLists[..], ram)
      ensures ram.Keys == old(ram.Keys) && WritesIn(old(ram), ram, Listed(lists))
      ensures k < freeLists.Length && (freeLists[k] == NIL <==> Without(lists[k], i) == [])
    {
      ghost var heads := freeLists[..];
      ListThreaded(lists, heads, ram, k);
      Neighbours(lists[k], heads[k], ram, i);
      UnlinkAll(lists, heads, ram, k, i);
      UnlinkWrites(lists, ram, k, i);
      hide NoDup, AllThreaded, WritesIn, Listed;
      node := ram[block];
      if node.prev != NIL {
        ram := ram[node.prev := ram[node.prev].(next := node.next)];
      } else {
        freeLists[k] := node.next;
      }
      if node.next != NIL {
        ram := ram[node.next := ram[node.next].(prev := node.prev)];
      }
      assert freeLists[..] == heads[k := if i == 0 then At(lists[k], 1) else heads[k]];
      HeadInRam(lists[k := Without(lists[k], i)], freeLists[..], ram, k);
    }

    /** Clear the bit of a list that has become empty, and of its word with its last bit. */
    method ClearBits(c: Class, ghost list: seq<nat>)
      requires slBitmap.Length == FL_INDEX_COUNT && Bitmaps(flBitmap, slBitmap[..], lists)
      requires freeLists.Length == LIST_COUNT && c.InRange() && lists[c.Slot()] != []
      requires freeLists[c.Slot()] == NIL <==> list == []
      modifies this`flBitmap, slBitmap
      ensures Bitmaps(flBitmap, slBitmap[..], lists[c.Slot() := list])
    {
      ghost var words := slBitmap[..];
      SlotParts(c);
      if freeLists[c.fl * SL_COUNT + c.sl] == NIL {
        BitmapsClear(flBitmap, words, lists, c.Slot());
        hide Bitmaps, ClearBit;
        slBitmap[c.fl] := ClearBit(slBitmap[c.fl], c.sl);
        if slBitmap[c.fl] == 0 {
          flBitmap := ClearBit(flBitmap, c.fl);
        }
        assert slBitmap[..] == words[c.fl := ClearBit(words[c.fl], c.sl)];
      } else {
        BitmapsKeep(flBitmap, words, lists, c.Slot(), list);
      }
    }

    /** A listed block of the first non-empty class at or above the search class. */
    method FindFree(size: nat) returns (r: Option<nat>)
      requires Indexed() && Classified(headers, lists)
      requires BLOCK_MIN <= size <= MAX_REQUEST
      ensures r.Some? ==> r.value in Listed(lists) && r.value in headers && size <= headers[r.value].size < SIZE_LIMIT
      ensures r.Some? ==> forall a | a in Listed(lists) && a in headers && headers[a].size > 0 ::
                MappingSearch(size).AtMost(Mapping(headers[a].size)) ==>
                  Mapping(headers[r.value].size).AtMost(Mapping(headers[a].size))
      ensures r.Some? ==> forall a | a in Listed(lists) && a in headers && headers[a].size >= size + size / 32 ::
                headers[r.value].size <= headers[a].size + headers[a].size / 32
      ensures r.None? ==> forall a | a in Listed(lists) :: a in headers && headers[a].size < size + size / 32
    {
      hide Bitmaps, AllThreaded, Listed, Mapping, Shr, TrailingZeros, Round;
      ghost var words := slBitmap[..];
      var c := MappingSearch(size);
      SearchInRange(size);
      ListCount(flBitmap, words, lists);
      WordCount(flBitmap, words, lists);
      ScanWord(flBitmap, words, lists, c);
      var d: Class;
      var slMap := Shr(slBitmap[c.fl], c.sl);
      if slMap != 0 {
        d := Class(c.fl, c.sl + TrailingZeros(slMap));
      } else {
        ScanFirstLevel(flBitmap, words, lists, c);
        var flMap := Shr(flBitmap, c.fl + 1);
        if flMap == 0 {
          NoneFits(headers, lists, size);
          return None;
        }
        var fl := c.fl + 1 + TrailingZeros(flMap);
        d := Class(fl, TrailingZeros(slBitmap[fl]));
      }
      SlotParts(d);
      HeadInRam(lists, freeLists[..], ram, d.Slot());
      FirstFits(headers, lists, size, d, lists[d.Slot()][0]);
      return Some(freeLists[d.fl * SL_COUNT + d.sl]);
    }

    // ----------------------------------------------------------- operations

    /** Allocate at least `size` bytes; the payload's address, taken from block `k`. */
    method Alloc(size: nat) returns (r: Option<nat>, ghost k: nat)
      requires Valid() && Rounded(size) <= MAX_REQUEST
      modifies this`flBitmap, this`headers, this`ram, this`lists, this`blocks, slBitmap, freeLists
      ensures Valid()
      ensures r.None? ==> blocks == old(blocks) && headers == old(headers) && lists == old(lists) && ram == old(ram)
      ensures PayloadsKept(old(headers), headers, old(ram), ram, old(Live(blocks)))
      ensures r.None? ==> forall b | b in blocks && b.free :: b.size < Rounded(size) + Rounded(size) / 32
      ensures r.Some? ==> k < |old(blocks)| && old(blocks)[k].free && Rounded(size) <= old(blocks)[k].size
      ensures r.Some? ==> forall b | b in old(blocks) && b.free && b.size >= Rounded(size) + Rounded(size) / 32 ::
                old(blocks)[k].size <= b.size + b.size / 32
      ensures r.Some? ==> r.value == old(blocks)[k].addr + HEADER
      ensures r.Some? ==> blocks == TakenRow(old(blocks), k, Rounded(size))
      ensures r.Some? ==> old(blocks)[k].addr in old(headers) && old(blocks)[k].End() in old(headers)
      ensures r.Some? ==> headers == TakenHeaders(old(headers), old(blocks)[k], Rounded(size))
      ensures ram.Keys == old(ram.Keys) && WritesIn(old(ram), ram, old(FreeAddrs(blocks)) + FreeAddrs(blocks))
      ensures old(AllLinkedBack(headers, blocks)) ==> AllLinkedBack(headers, blocks)
    {
      hide Indexed, HeapOk, Classified, Mapping, Listed, Row, NoTwoFree, Tagged, TakenRow, TakenHeaders, AllLinkedBack,
        WritesIn, FreeAddrs, Live, PayloadsKept;
      k := 0;
      var need := if size >= BLOCK_MIN then size else BLOCK_MIN;
      need := (need + 7) / 8 * 8;
      var found := FindFree(need);
      if found.None? {
        NothingWritten(headers, ram, Live(blocks));
        ShortBlocks(headers, ram.Keys, Listed(lists), blocks, start, end, need + need / 32);
        WritesNone(ram, FreeAddrs(blocks) + FreeAddrs(blocks));
        return None, 0;
      }
      var block := found.value;
      k := FreeBlockAt(headers, ram.Keys, Listed(lists), blocks, start, end, block);
      FitAmong(headers, ram.Keys, Listed(lists), blocks, start, end, need + need / 32, headers[block].size);
      TakeBlock(block, need, k);
      HeapRow(old(headers), old(ram.Keys), old(Listed(lists)), old(blocks), start, end);
      HeapRow(headers, ram.Keys, Listed(lists), blocks, start, end);
      TakenKeeps(old(headers), old(ram), ram, old(blocks), start, end, k, need);
      if old(AllLinkedBack(headers, blocks)) {
        TakenAllLinked(old(headers), old(blocks), start, end, k, need);
      }
      return Some(block + HEADER), k;
    }

    /** The global allocator's entry: room for `size` bytes at a multiple of `align`. */
    method AllocLayout(size: nat, align: nat, ghost j: nat) returns (r: Option<nat>, ghost k: nat)
      requires Valid() && align == Pow2(j)
      requires Rounded(LayoutSize(size, align)) <= MAX_REQUEST
      modifies this`flBitmap, this`headers, this`ram, this`lists, this`blocks, slBitmap, freeLists
      ensures Valid()
      ensures r.None? ==> blocks == old(blocks) && headers == old(headers) && lists == old(lists) && ram == old(ram)
      ensures PayloadsKept(old(headers), headers, old(ram), ram, old(Live(blocks)))
      ensures r.None? ==> forall n: nat, b | EnoughFor(n, size, align) && b in blocks && b.free :: b.size < n + n / 32
      ensures r.Some? ==> k < |old(blocks)| && old(blocks)[k].free && k < |blocks| && !blocks[k].free
      ensures r.Some? ==> Rounded(LayoutSize(size, align)) <= old(blocks)[k].size
      ensures var need := (if size >= 32 then size else 32) + (if align > 8 then align - 1 else 0);
        && (r.Some? ==> need <= blocks[k].size < need + 72)
        && (r.Some? ==> |blocks| == |old(blocks)| + 1 || blocks[k].size == old(blocks)[k].size)
      ensures r.Some? ==> Live(blocks) == old(Live(blocks)) + {blocks[k]}
      ensures r.Some? ==> blocks == TakenRow(old(blocks), k, Rounded(LayoutSize(size, align)))
      ensures r.Some? ==> old(blocks)[k].addr in old(headers) && old(blocks)[k].End() in old(headers)
      ensures r.Some? ==> headers == TakenHeaders(old(headers), old(blocks)[k], Rounded(LayoutSize(size, align)))
      ensures ram.Keys == old(ram.Keys) && WritesIn(old(ram), ram, old(FreeAddrs(blocks)) + FreeAddrs(blocks))
      ensures old(AllLinkedBack(headers, blocks)) ==> AllLinkedBack(headers, blocks)
      ensures r.Some? ==> r.value % align == 0
      ensures r.Some? ==> blocks[k].addr + HEADER <= r.value && r.value + size <= blocks[k].End()
      ensures r.Some? ==> r.value < blocks[k].addr + HEADER + (if align > 8 then align else 1)
    {
      hide Indexed, Classified, HeapOk, Listed, TakenRow, TakenHeaders, Live, PayloadsKept, AllLinkedBack, WritesIn,
        FreeAddrs;
      var bytes := if size >= BLOCK_MIN then size else BLOCK_MIN;
      var extra := if align > 8 then align - 1 else 0;
      r, k := Alloc(bytes + extra);
      if r.None? {
        ShortOf(blocks, size, align, Rounded(bytes + extra));
        return;
      }
      TakenSplit(old(blocks), k, Rounded(bytes + extra));
      var ptr := r.value;
      TakenLive(old(blocks), k, Rounded(bytes + extra));
      TakenBlock(old(blocks), k, Rounded(bytes + extra));
      BlockAligned(headers, ram.Keys, Listed(lists), blocks, start, end, k);
      RoundedToAlign(ptr, align, j, extra);
      var aligned := (ptr + extra) / align * align;
      r := Some(aligned);
    }

    /** Take `size` bytes of the free block `k`, splitting off what is worth keeping. */
    method TakeBlock(block: nat, size: nat, ghost k: nat)
      requires Valid() && k < |blocks| && blocks[k].free && blocks[k].addr == block
      requires BLOCK_MIN <= size <= blocks[k].size && size % 8 == 0
      modifies this`flBitmap, this`headers, this`ram, this`lists, this`blocks, slBitmap, freeLists
      ensures Valid()
      ensures blocks == TakenRow(old(blocks), k, size)
      ensures old(blocks)[k].addr in old(headers) && old(blocks)[k].End() in old(headers)
      ensures headers == TakenHeaders(old(headers), old(blocks)[k], size)
      ensures ram.Keys == old(ram.Keys) && WritesIn(old(ram), ram, old(Listed(lists)) + Listed(lists))
    {
      hide Indexed, Row, NoTwoFree, Tagged, Classified, Listed, Unlisted, TakenRow, TakenHeaders, HeapOk, FreeAddrs,
        WritesIn;
      ghost var b, h0, ram0, listed := blocks[k], headers, ram, Listed(lists);
      FreeBlockFacts(headers, ram.Keys, Listed(lists), blocks, start, end, k, size);
      TakenOk(headers, ram.Keys, Listed(lists), blocks, start, end, k, size);
      RemoveFree(block);
      ghost var ram1, listed1 := ram, Listed(lists);
      TakenSteps(h0, b, size, if b.addr + HEADER + size in h0 then h0[b.addr + HEADER + size].free else false);
      var remainder := headers[block].size - size;
      if remainder >= SPLIT_MIN {
        SetSize(block, size);
        var rest := block + HEADER + size;
        UnlistedIff(lists, rest);
        WriteRest(rest, block, remainder - HEADER);
        InsertFree(rest);
        var after := rest + HEADER + headers[rest].size;
        SetBackLink(after, rest);
      } else {
        WritesNone(ram, listed1 + Listed(lists));
      }
      var next := block + HEADER + headers[block].size;
      SetPrevFree(next, false);
      WritesThen(ram0, ram1, ram, listed, listed1 + Listed(lists), listed + Listed(lists));
      blocks := TakenRow(blocks, k, size);
    }

    /** Free the payload at `ptr`, that of block `k`, joining it with free neighbours. A free
        predecessor is found through the block's back link, which has to be true. */
    method Dealloc(ptr: nat, ghost k: nat)
      requires Valid() && k < |blocks| && !blocks[k].free && ptr == blocks[k].addr + HEADER
      requires k > 0 && blocks[k - 1].free ==> LinkedBack(headers, blocks, k - 1)
      modifies this`flBitmap, this`headers, this`ram, this`lists, this`blocks, slBitmap, freeLists
      ensures Valid()
      ensures blocks == FreedRow(old(blocks), k)
      ensures FreedReady(old(headers), old(blocks), k) && headers == FreedHeaders(old(headers), old(blocks), k)
      ensures Live(blocks) == old(Live(blocks)) - {old(blocks)[k]}
      ensures ram.Keys == old(ram.Keys) && WritesIn(old(ram), ram, old(FreeAddrs(blocks)) + FreeAddrs(blocks))
      ensures PayloadsKept(old(headers), headers, old(ram), ram, Live(blocks))
      ensures old(AllLinkedBack(headers, blocks)) ==>
                (AllLinkedBack(headers, blocks) <==> Low(old(blocks), k) == k && High(old(blocks), k) == k + 1)
    {
      hide Indexed, Classified, Listed, FreedRow, FreedHeaders, HeapOk, LinkedBack, AllLinkedBack, Live, WritesIn,
        PayloadsKept, FreeAddrs, FreedReady;
      ghost var h0, listed := headers, Listed(lists);
      MergeAndInsert(ptr - HEADER, k);
      FreedEffect(h0, old(ram.Keys), listed, blocks, start, end, k);
      FreedPayloads(h0, old(ram.Keys), listed, blocks, start, end, k, old(ram), headers, ram, Listed(lists));
      blocks := FreedRow(blocks, k);
      HeapRow(h0, old(ram.Keys), listed, old(blocks), start, end);
      HeapRow(headers, ram.Keys, Listed(lists), blocks, start, end);
    }

    /** Join block `k` with its free neighbours and list the result. */
    method MergeAndInsert(block: nat, ghost k: nat)
      requires Valid() && k < |blocks| && !blocks[k].free && block == blocks[k].addr
      requires k > 0 && blocks[k - 1].free ==> LinkedBack(headers, blocks, k - 1)
      modifies this`flBitmap, this`headers, this`ram, this`lists, slBitmap, freeLists
      ensures Indexed() && Classified(headers, lists)
      ensures ram.Keys == old(ram.Keys) && WritesIn(old(ram), ram, old(Listed(lists)) + Listed(lists))
      ensures HeapOk(headers, ram.Keys, Listed(lists), FreedRow(blocks, k), start, end)
      ensures FreedReady(old(headers), blocks, k) && headers == FreedHeaders(old(headers), blocks, k)
    {
      hide Indexed, Row, NoTwoFree, Tagged, Classified, Listed, Unlisted, FreedRow, FreedHeaders, HeapOk, FreeAddrs,
        Merged, LinkedBack, WritesIn, StretchedBack, StretchedOn, MarkedFree, FreedFound;
      FreedFacts(headers, ram.Keys, Listed(lists), blocks, start, end, k);
      FreedOk(headers, ram.Keys, Listed(lists), blocks, start, end, k);
      ghost var h0, ram0, listed := headers, ram, Listed(lists);
      var merged := block;
      UnlistedIff(lists, block);
      WritesNone(ram0, listed);
      if headers[block].prevFree {
        var prev := headers[block].prevPhys;
        AbsorbPrev(prev, block);
        merged := prev;
      }
      FreedMiddle(h0, blocks, k, headers);
      ghost var h1 := headers;
      var next := merged + HEADER + headers[merged].size;
      if headers[next].free {
        UnlistedIff(lists, merged);
        ghost var ram1, listed1 := ram, Listed(lists);
        AbsorbNext(merged, next);
        WritesThen(ram0, ram1, ram, listed, listed1, listed);
      }
      UnlistedIff(lists, merged);
      FreedSteps(h0, blocks, k, h1, headers);
      ghost var ram2, listed2 := ram, Listed(lists);
      InsertMerged(merged);
      WritesThen(ram0, ram2, ram, listed, listed2 + {merged}, listed + Listed(lists));
      assert Listed(lists) == FreedListed(old(Listed(lists)), blocks, k);
    }

    /** List a block that has taken its full extent, and flag it in the header behind it. */
    method InsertMerged(merged: nat)
      requires Indexed() && Classified(headers, lists)
      requires merged in headers && merged in ram && Unlisted(lists, merged)
      requires BLOCK_MIN <= headers[merged].size < SIZE_LIMIT && merged + HEADER + headers[merged].size in headers
      modifies this`flBitmap, this`headers, this`ram, this`lists, slBitmap, freeLists
      ensures headers == MarkedFree(old(headers), merged)
      ensures Indexed() && Classified(headers, lists) && ram.Keys == old(ram.Keys)
      ensures WritesIn(old(ram), ram, old(Listed(lists)) + {merged})
      ensures Listed(lists) == old(Listed(lists)) + {merged}
    {
      hide Indexed, Classified, Listed, Unlisted, WritesIn;
      InsertFree(merged);
      var after := merged + HEADER + headers[merged].size;
      SetPrevFree(after, true);
    }

    /** Take the free block before `block` off its list and stretch it over `block`. */
    method AbsorbPrev(prev: nat, block: nat)
      requires Indexed() && Classified(headers, lists) && prev in Listed(lists) && block in headers && block != prev
      modifies this`flBitmap, this`headers, this`ram, this`lists, slBitmap, freeLists
      ensures Indexed() && Classified(headers, lists) && ram.Keys == old(ram.Keys)
      ensures WritesIn(old(ram), ram, old(Listed(lists)))
      ensures Listed(lists) == old(Listed(lists)) - {prev}
      ensures prev in old(headers) && headers == StretchedBack(old(headers), prev, block)
    {
      hide Indexed, Classified, Listed, Unlisted, WritesIn;
      RemoveFree(prev);
      var combined := headers[prev].size + HEADER + headers[block].size;
      SetSize(prev, combined);
    }

    /** Take the free block `next` off its list and stretch the unlisted `merged` over it. */
    method AbsorbNext(merged: nat, next: nat)
      requires Indexed() && Classified(headers, lists) && next in Listed(lists) && merged in headers && merged != next
      requires Unlisted(lists, merged)
      modifies this`flBitmap, this`headers, this`ram, this`lists, slBitmap, freeLists
      ensures Indexed() && Classified(headers, lists) && ram.Keys == old(ram.Keys)
      ensures WritesIn(old(ram), ram, old(Listed(lists)))
      ensures Listed(lists) == old(Listed(lists)) - {next}
      ensures next in old(headers) && headers == StretchedOn(old(headers), merged, next)
    {
      hide Indexed, Classified, Listed, Unlisted, WritesIn;
      UnlistedIff(lists, merged);
      RemoveFree(next);
      UnlistedIff(lists, merged);
      var combined := headers[merged].size + HEADER + headers[next].size;
      SetSize(merged, combined);
    }

    /** Write the tag words of a split-off block over whatever was there. */
    method WriteRest(rest: nat, block: nat, size: nat)
      requires rest in headers && Classified(headers, lists) && Unlisted(lists, rest)
      modifies this`headers
      ensures Classified(headers, lists)
      ensures headers == old(headers)[rest := Header(size, old(headers)[rest].free, false, block)]
    {
      headers := headers[rest := headers[rest].(size := size)];
      headers := headers[rest := headers[rest].(prevPhys := block)];
      headers := headers[rest := headers[rest].(prevFree := false)];
    }

    /** Resize a block that is on no list. */
    method SetSize(a: nat, size: nat)
      requires a in headers && Classified(headers, lists) && Unlisted(lists, a)
      modifies this`headers
      ensures headers == old(headers)[a := old(headers)[a].(size := size)] && Classified(headers, lists)
    {
      headers := headers[a := headers[a].(size := size)];
    }

    method SetBackLink(a: nat, prev: nat)
      requires a in headers && Classified(headers, lists)
      modifies this`headers
      ensures headers == old(headers)[a := old(headers)[a].(prevPhys := prev)] && Classified(headers, lists)
    {
      headers := headers[a := headers[a].(prevPhys := prev)];
    }

    method SetPrevFree(a: nat, f: bool)
      requires a in headers && Classified(headers, lists)
      modifies this`headers
      ensures headers == old(headers)[a := old(headers)[a].(prevFree := f)] && Classified(headers, lists)
    {
      headers := headers[a := headers[a].(prevFree := f)];
    }

    /** Link a block in front of list `k`. */
    method PushNode(k: nat, block: nat)
      requires AllThreaded(lists, freeLists[..], ram) && k < |lists|
      requires block in ram && Unlisted(lists, block)
      modifies this`ram, freeLists
      ensures AllThreaded(lists[k := [block] + lists[k]], freeLists[..], ram)
      ensures ram.Keys == old(ram.Keys) && WritesIn(old(ram), ram, Listed(lists) + {block})
    {
      ghost var heads := freeLists[..];
      HeadInRam(lists, heads, ram, k);
      PushAll(lists, heads, ram, k, block);
      PushWrites(lists, heads, ram, k, block);
      hide AllThreaded, WritesIn, Listed;
      var head := freeLists[k];
      ram := ram[block := Node(NIL, head)];
      if head != NIL {
        ram := ram[head := ram[head].(prev := block)];
      }
      freeLists[k] := block;
      assert freeLists[..] == heads[k := block];
    }

    /** Record in both bitmaps that the list of class `c` is not empty. */
    method SetBits(c: Class, ghost list: seq<nat>)
      requires slBitmap.Length == FL_INDEX_COUNT && Bitmaps(flBitmap, slBitmap[..], lists)
      requires c.InRange() && list != []
      modifies this`flBitmap, slBitmap
      ensures Bitmaps(flBitmap, slBitmap[..], lists[c.Slot() := list])
    {
      ghost var words := slBitmap[..];
      SlotParts(c);
      BitmapsSet(flBitmap, words, lists, c.Slot(), list);
      hide Bitmaps, SetBit;
      flBitmap := SetBit(flBitmap, c.fl);
      slBitmap[c.fl] := SetBit(slBitmap[c.fl], c.sl);
      assert slBitmap[..] == words[c.fl := SetBit(words[c.fl], c.sl)];
    }
  }

  /** The size a request is rounded up to. */
  function Rounded(size: nat): (r: nat)
    ensures r >= size && r >= 32 && r % 8 == 0 && (r < size + 8 || r == 32)
  {
    ((if size >= BLOCK_MIN then size else BLOCK_MIN) + 7) / 8 * 8
  }

  /** The bytes asked of the heap for a layout. */
  function LayoutSize(size: nat, align: nat): (r: nat)
    ensures r >= size
  {
    (if size >= BLOCK_MIN then size else BLOCK_MIN) + (if align > 8 then align - 1 else 0)
  }

  /** Multiples of 8 with room for `size` bytes, at least 32, at some multiple of `align`. */
  ghost predicate EnoughFor(n: nat, size: nat, align: nat) {
    n % 8 == 0 && n >= (if size >= 32 then size else 32) + (if align > 8 then align - 1 else 0)
  }

  /** No block has any such size and a 32nd to spare if none has the least. */
  lemma ShortOf(blocks: seq<Blk>, size: nat, align: nat, need: nat)
    requires forall b | b in blocks && b.free :: b.size < need + need / 32
    requires need == Rounded(LayoutSize(size, align))
    ensures forall n: nat, b | EnoughFor(n, size, align) && b in blocks && b.free :: b.size < n + n / 32
  {
    assert forall n: nat | EnoughFor(n, size, align) :: need <= n;
  }

  lemma EmptyThreaded(lists: seq<seq<nat>>, heads: seq<int>, ram: Ram, ram': Ram)
    requires AllThreaded(lists, heads, ram) && ram'.Keys == ram.Keys
    requires NoneListed(lists)
    ensures AllThreaded(lists, heads, ram')
  {
  }

  /** Headers with a pool of one block written over them. */
  ghost function PoolHeaders(h: Headers, mem: nat, size: nat, free: bool): Headers
    requires size > 2 * HEADER
  {
    h[mem + size - HEADER := Header(0, false, false, mem)][mem := Header(size - 2 * HEADER, free, false, NIL)]
  }

  lemma PoolMarked(h: Headers, mem: nat, size: nat)
    requires size > 2 * HEADER && mem in h && mem + size - HEADER in h
    ensures var h' := PoolHeaders(h, mem, size, false);
      && h'.Keys == h.Keys && h'[mem].size == size - 2 * HEADER
      && h'[mem := h'[mem].(free := true)] == PoolHeaders(h, mem, size, true)
  {
  }

  /** A new pool is a heap of one free block. */
  lemma PoolOk(h: Headers, nodes: set<int>, mem: nat, size: nat)
    requires 0 < mem && mem % 8 == 0 && size % 8 == 0 && 2 * HEADER + BLOCK_MIN < size < SIZE_LIMIT + 2 * HEADER
    requires PoolRoom(nodes, mem, size) && PoolRoom(h.Keys, mem, size)
    ensures var h', blocks := PoolHeaders(h, mem, size, true), [Blk(mem, size - 2 * HEADER, true)];
      HeapOk(h', nodes, {mem}, blocks, mem, mem + size) && AllLinkedBack(h', blocks)
  {
  }

  /** The block handed out by taking `size` bytes of block `k`. */
  lemma TakenBlock(blocks: seq<Blk>, k: nat, size: nat)
    requires k < |blocks| && size <= blocks[k].size
    ensures k < |TakenRow(blocks, k, size)| && TakenRow(blocks, k, size)[k] == TakenParts(blocks[k], size)[0]
  {
  }

  lemma BlockAligned(h: Headers, nodes: set<int>, listed: set<nat>, blocks: seq<Blk>, start: nat, end: nat, k: nat)
    requires HeapOk(h, nodes, listed, blocks, start, end) && k < |blocks|
    ensures (blocks[k].addr + HEADER) % 8 == 0
  {
    RowInPool(blocks, start, end, k);
  }

  lemma SmallPow2(j: nat)
    requires Pow2(j) <= 8
    ensures Pow2(j) == 1 || Pow2(j) == 2 || Pow2(j) == 4 || Pow2(j) == 8
  {
    if j >= 4 {
      Pow2Mono(4, j);
    }
    assert Pow2(1) == 2 && Pow2(2) == 4 && Pow2(3) == 8 && Pow2(4) == 16;
  }

  /** Rounding `ptr + extra` down to `align` lands on a multiple at or after `ptr`. */
  lemma RoundedToAlign(ptr: nat, align: nat, j: nat, extra: nat)
    requires align == Pow2(j) && ptr % 8 == 0 && extra == if align > 8 then align - 1 else 0
    ensures var p := (ptr + extra) / align * align; p % align == 0 && ptr <= p <= ptr + extra
  {
    hide Pow2;
    FloorOk(ptr + extra, align);
    if align <= 8 {
      SmallPow2(j);
      SmallAlign(ptr, align);
    }
  }

  lemma FloorOk(n: nat, d: nat)
    requires d > 0
    ensures n / d * d % d == 0 && n / d * d <= n < n / d * d + d
  {
    DivBounds(n, d);
    MultipleMod(n / d, d);
  }

  lemma SmallAlign(ptr: nat, align: nat)
    requires ptr % 8 == 0 && (align == 1 || align == 2 || align == 4 || align == 8)
    ensures ptr / align * align == ptr
  {
    ModTrans(ptr, 8, align);
    DivUnique(ptr, ptr / align, align, ptr % align);
  }

  lemma PoolEnds(words: set<int>, mem: nat, size: nat)
    requires PoolRoom(words, mem, size) && size % 8 == 0
    ensures size >= HEADER ==> mem in words && mem + size - HEADER in words
  {
  }

  lemma PoolAdded(h: Headers, ram0: Ram, ram1: Ram, ram2: Ram, mem: nat, size: nat)
    requires 0 < mem && mem % 8 == 0 && size % 8 == 0 && 2 * HEADER + BLOCK_MIN < size < SIZE_LIMIT + 2 * HEADER
    requires PoolRoom(ram0.Keys, mem, size) && PoolRoom(h.Keys, mem, size)
    requires ram1.Keys == ram0.Keys && ram2.Keys == ram0.Keys
    requires WritesIn(ram0, ram1, {mem, mem + size - HEADER}) && WritesIn(ram1, ram2, {} + {mem})
    ensures WritesIn(ram0, ram2, {mem, mem + size - HEADER})
    ensures var h', blocks := PoolHeaders(h, mem, size, true), [Blk(mem, size - 2 * HEADER, true)];
      HeapOk(h', ram2.Keys, {} + {mem}, blocks, mem, mem + size) && AllLinkedBack(h', blocks)
  {
    hide HeapOk, AllLinkedBack, WritesIn, PoolHeaders;
    WritesThen(ram0, ram1, ram2, {mem, mem + size - HEADER}, {} + {mem}, {mem, mem + size - HEADER});
    assert {} + {mem} == {mem};
    PoolOk(h, ram2.Keys, mem, size);
  }

  ghost predicate NoneListed(lists: seq<seq<nat>>) {
    forall k | 0 <= k < |lists| :: lists[k] == []
  }

  lemma EmptyLists(h: Headers, lists: seq<seq<nat>>, a: nat)
    requires NoneListed(lists)
    ensures Classified(h, lists) && Listed(lists) == {} && Unlisted(lists, a)
  {
  }

  lemma ListCount(flWord: nat, slWords: seq<nat>, lists: seq<seq<nat>>)
    requires Bitmaps(flWord, slWords, lists)
    ensures |lists| == LIST_COUNT
  {
  }

  lemma SlotParts(c: Class)
    requires c.InRange()
    ensures c.Slot() < LIST_COUNT && c.Slot() / 32 == c.fl && c.Slot() % 32 == c.sl
  {
  }

  lemma ClassifiedPush(h: Headers, lists: seq<seq<nat>>, k: nat, a: nat)
    requires Classified(h, lists) && k < |lists| && a in h && InClass(h[a := h[a].(free := true)], a, k)
    requires Unlisted(lists, a)
    ensures Classified(h[a := h[a].(free := true)], lists[k := [a] + lists[k]])
  {
  }

  lemma WordCount(flWord: nat, slWords: seq<nat>, lists: seq<seq<nat>>)
    requires Bitmaps(flWord, slWords, lists)
    ensures |slWords| == FL_INDEX_COUNT
  {
  }

  /** Where a listed block is: on the list of its class. */
  lemma PlaceOf(h: Headers, lists: seq<seq<nat>>, a: nat) returns (k: nat, i: nat)
    requires Classified(h, lists) && |lists| == LIST_COUNT && a in Listed(lists)
    ensures InClass(h, a, k) && k < |lists| && i < |lists[k]| && lists[k][i] == a
  {
    k :| 0 <= k < |lists| && a in lists[k];
    i :| 0 <= i < |lists[k]| && lists[k][i] == a;
  }

  lemma ClassifiedUnlink(h: Headers, lists: seq<seq<nat>>, heads: seq<int>, ram: Ram, k: nat, i: nat)
    requires Classified(h, lists) && AllThreaded(lists, heads, ram) && k < |lists| && i < |lists[k]|
    ensures lists[k][i] in h
    ensures Classified(h[lists[k][i] := h[lists[k][i]].(free := false)], lists[k := Without(lists[k], i)])
  {
    var a, lists' := lists[k][i], lists[k := Without(lists[k], i)];
    assert InClass(h, a, k);
    ListedUnlink(lists, heads, ram, k, i);
    WithoutSubset(lists[k], i);
    var h' := h[a := h[a].(free := false)];
    forall j, b | 0 <= j < |lists'| && b in lists'[j]
      ensures InClass(h', b, j)
    {
      assert b in lists[j] && InClass(h, b, j);
    }
  }

  /** A block at the head of the first non-empty list is large enough and of least class. */
  lemma FirstFits(h: Headers, lists: seq<seq<nat>>, size: nat, d: Class, a: nat)
    requires Classified(h, lists) && |lists| == LIST_COUNT && size >= BLOCK_MIN
    requires MappingSearch(size).fl >= SL_INDEX_COUNT && MappingSearch(size).sl < SL_COUNT
    requires FirstFrom(lists, MappingSearch(size), d) && lists[d.Slot()] != [] && a == lists[d.Slot()][0]
    ensures a in Listed(lists) && a in h && size <= h[a].size < SIZE_LIMIT
    ensures forall b | b in Listed(lists) && b in h && h[b].size > 0 ::
              MappingSearch(size).AtMost(Mapping(h[b].size)) ==> Mapping(h[a].size).AtMost(Mapping(h[b].size))
    ensures forall b | b in Listed(lists) && b in h && h[b].size >= size + size / 32 ::
              h[a].size <= h[b].size + h[b].size / 32
  {
    SlotParts(d);
    assert a in lists[d.Slot()] && InClass(h, a, d.Slot());
    ClassOfSlot(h[a].size, d);
    SearchSound(size, h[a].size);
    forall b | b in Listed(lists) && b in h && h[b].size > 0 && MappingSearch(size).AtMost(Mapping(h[b].size))
      ensures Mapping(h[a].size).AtMost(Mapping(h[b].size))
    {
      var k :| 0 <= k < |lists| && b in lists[k];
      assert InClass(h, b, k);
      MappingInRange(h[b].size);
    }
    forall b | b in Listed(lists) && b in h && h[b].size >= size + size / 32
      ensures h[a].size <= h[b].size + h[b].size / 32
    {
      SearchComplete(size, h[b].size);
      GoodFit(h[a].size, h[b].size);
    }
  }

  lemma ClassOfSlot(size: nat, d: Class)
    requires BLOCK_MIN <= size < SIZE_LIMIT && d.InRange() && Mapping(size).Slot() == d.Slot()
    ensures Mapping(size) == d
  {
    MappingInRange(size);
    SlotParts(d);
    SlotParts(Mapping(size));
  }

  /** When every list from the search class on is empty, every listed block is short. */
  lemma NoneFits(h: Headers, lists: seq<seq<nat>>, size: nat)
    requires Classified(h, lists) && |lists| == LIST_COUNT && size >= BLOCK_MIN
    requires NoneFrom(lists, MappingSearch(size))
    ensures forall a | a in Listed(lists) :: a in h && h[a].size < size + size / 32
  {
    forall a | a in Listed(lists)
      ensures a in h && h[a].size < size + size / 32
    {
      var k :| 0 <= k < |lists| && a in lists[k];
      assert InClass(h, a, k);
      MappingInRange(h[a].size);
      if h[a].size >= size + size / 32 {
        SearchComplete(size, h[a].size);
      }
    }
  }

  /** With nothing long enough listed, no free block has the request and `1 / 32` to spare. */
  lemma ShortBlocks(h: Headers, nodes: set<int>, listed: set<nat>, blocks: seq<Blk>, start: nat, end: nat, need: nat)
    requires HeapOk(h, nodes, listed, blocks, start, end)
    requires forall a | a in listed :: a in h && h[a].size < need
    ensures forall b | b in blocks && b.free :: b.size < need
  {
    forall b | b in blocks && b.free
      ensures b.size < need
    {
      var i :| 0 <= i < |blocks| && blocks[i] == b;
      assert TagOk(h, blocks, i);
      assert b.addr in listed;
    }
  }

  /** What holds of the listed blocks holds of the free ones. */
  lemma FitAmong(h: Headers, nodes: set<int>, listed: set<nat>, blocks: seq<Blk>, start: nat, end: nat, need: nat,
                 chosen: nat)
    requires HeapOk(h, nodes, listed, blocks, start, end)
    requires forall a | a in listed && a in h && h[a].size >= need :: chosen <= h[a].size + h[a].size / 32
    ensures forall b | b in blocks && b.free && b.size >= need :: chosen <= b.size + b.size / 32
  {
    forall b | b in blocks && b.free && b.size >= need
      ensures chosen <= b.size + b.size / 32
    {
      var i :| 0 <= i < |blocks| && blocks[i] == b;
      assert TagOk(h, blocks, i);
      assert b.addr in listed;
    }
  }

  lemma HeapRow(h: Headers, nodes: set<int>, listed: set<nat>, blocks: seq<Blk>, start: nat, end: nat)
    requires HeapOk(h, nodes, listed, blocks, start, end)
    ensures Row(blocks, start, end) && Tagged(h, blocks, end) && listed == FreeAddrs(blocks)
  {
  }

  lemma NothingWritten(h: Headers, ram: Ram, live: set<Blk>)
    ensures PayloadsKept(h, h, ram, ram, live)
  {
  }

  /** What freeing block `k` does to the live blocks and to the back links. */
  lemma FreedEffect(h: Headers, nodes: set<int>, listed: set<nat>, blocks: seq<Blk>, start: nat, end: nat, k: nat)
    requires HeapOk(h, nodes, listed, blocks, start, end)
    requires k < |blocks| && !blocks[k].free && FreedReady(h, blocks, k)
    ensures Live(FreedRow(blocks, k)) == Live(blocks) - {blocks[k]}
    ensures AllLinkedBack(h, blocks) ==>
              (AllLinkedBack(FreedHeaders(h, blocks, k), FreedRow(blocks, k)) <==>
                 Low(blocks, k) == k && High(blocks, k) == k + 1)
  {
    hide AllLinkedBack, Live, FreedRow, FreedHeaders, Merged, Row, Tagged;
    FreedLive(blocks, start, end, k);
    if AllLinkedBack(h, blocks) {
      FreedAllLinked(h, blocks, start, end, k);
    }
  }

  lemma FreedPayloads(h: Headers, nodes: set<int>, listed: set<nat>, blocks: seq<Blk>, start: nat, end: nat, k: nat,
                      ram: Ram, h': Headers, ram': Ram, listed': set<nat>)
    requires HeapOk(h, nodes, listed, blocks, start, end)
    requires k < |blocks| && !blocks[k].free && FreedReady(h, blocks, k) && h' == FreedHeaders(h, blocks, k)
    requires HeapOk(h', nodes, listed', FreedRow(blocks, k), start, end)
    requires WritesIn(ram, ram', listed + listed')
    ensures PayloadsKept(h, h', ram, ram', Live(FreedRow(blocks, k)))
  {
    hide Live, FreedRow, FreedHeaders, Merged, Row, Tagged, WritesIn, PayloadsKept, FreeAddrs;
    FreedKeeps(h, ram, ram', blocks, start, end, k);
  }

  /** The block of the row that a listed address names. */
  lemma FreeBlockAt(h: Headers, nodes: set<int>, listed: set<nat>, blocks: seq<Blk>, start: nat, end: nat, a: nat)
    returns (k: nat)
    requires HeapOk(h, nodes, listed, blocks, start, end) && a in listed && a in h
    ensures k < |blocks| && blocks[k].free && blocks[k].addr == a && blocks[k].size == h[a].size
  {
    k :| 0 <= k < |blocks| && blocks[k].free && blocks[k].addr == a;
    assert TagOk(h, blocks, k);
  }

  /** The header writes of taking a block, one after the other. */
  lemma TakenSteps(h: Headers, b: Blk, size: nat, f: bool)
    requires size <= b.size && b.addr in h && b.End() in h
    ensures b.size - size < SPLIT_MIN ==>
              (var h1 := h[b.addr := h[b.addr].(free := false)];
               h1[b.End() := h1[b.End()].(prevFree := false)] == TakenHeaders(h, b, size))
    ensures b.size - size >= SPLIT_MIN ==>
              (var rest := b.addr + HEADER + size;
               var h1 := h[b.addr := h[b.addr].(free := false)];
               var h2 := h1[b.addr := h1[b.addr].(size := size)];
               var h3 := h2[rest := Header(b.size - size - HEADER, f, false, b.addr)];
               var h4 := h3[rest := h3[rest].(free := true)];
               var h5 := h4[b.End() := h4[b.End()].(prevPhys := rest)];
               h5[rest := h5[rest].(prevFree := false)] == TakenHeaders(h, b, size))
  {
  }

  lemma FreeBlockFacts(h: Headers, nodes: set<int>, listed: set<nat>, blocks: seq<Blk>, start: nat, end: nat, k: nat,
                       size: nat)
    requires HeapOk(h, nodes, listed, blocks, start, end) && k < |blocks| && blocks[k].free
    requires BLOCK_MIN <= size <= blocks[k].size && size % 8 == 0
    ensures var b := blocks[k];
      && b.addr in listed && b.addr in h && h[b.addr].size == b.size && b.size < SIZE_LIMIT
      && b.End() in h && b.End() !in listed && b.End() > b.addr
      && (b.size - size >= SPLIT_MIN ==>
            (var rest := b.addr + HEADER + size; rest in h && rest in nodes && rest !in listed))
  {
    var b := blocks[k];
    NextHeader(h, blocks, start, end, k);
    RowInPool(blocks, start, end, k);
    forall j | 0 <= j < |blocks| && blocks[j].free
      ensures !(b.addr < blocks[j].addr <= b.End())
    {
      if j < k {
        RowOrder(blocks, start, end, j, k);
      } else if k < j {
        RowOrder(blocks, start, end, k, j);
        if k + 1 < j {
          RowOrder(blocks, start, end, k + 1, j);
        }
      }
    }
    OffsetMod(b.addr - start, size);
  }

  /** Taking a block, once its tags and list entries are written, leaves a heap. */
  lemma TakenOk(h: Headers, nodes: set<int>, listed: set<nat>, blocks: seq<Blk>, start: nat, end: nat, k: nat,
                size: nat)
    requires HeapOk(h, nodes, listed, blocks, start, end) && k < |blocks| && blocks[k].free
    requires BLOCK_MIN <= size <= blocks[k].size && size % 8 == 0
    ensures blocks[k].addr in h && blocks[k].End() in h
    ensures var b := blocks[k];
      HeapOk(TakenHeaders(h, b, size), nodes,
             if b.size - size >= SPLIT_MIN then listed - {b.addr} + {b.addr + HEADER + size} else listed - {b.addr},
             TakenRow(blocks, k, size), start, end)
  {
    var b := blocks[k];
    TakenRowOk(blocks, start, end, k, size);
    TakenTags(h, blocks, start, end, k, size);
    SpliceFree(blocks, start, end, k, k + 1, TakenParts(b, size));
    assert blocks[k..k + 1] == [b];
    FreeOfOne(b);
    FreeOfParts(b, size);
    hide Row, NoTwoFree, Tagged, FreeAddrs, Splice;
  }

  lemma FreeOfOne(b: Blk)
    ensures FreeAddrs([b]) == if b.free then {b.addr} else {}
  {
    assert [b][0] == b;
  }

  lemma FreeOfParts(b: Blk, size: nat)
    requires size <= b.size
    ensures FreeAddrs(TakenParts(b, size)) == if b.size - size >= SPLIT_MIN then {b.addr + HEADER + size} else {}
  {
    var mid := TakenParts(b, size);
    if b.size - size >= SPLIT_MIN {
      assert mid[1].free && mid[1].addr == b.addr + HEADER + size && !mid[0].free;
    }
  }

  /** Headers after the block at `prev`, off its list, has taken the extent of the one at `block`. */
  ghost function StretchedBack(h: Headers, prev: nat, block: nat): Headers
    requires prev in h && block in h
  {
    h[prev := h[prev].(size := h[prev].size + HEADER + h[block].size, free := false)]
  }

  /** Headers after the block at `a` has taken the extent of the one at `next`, off its list. */
  ghost function StretchedOn(h: Headers, a: nat, next: nat): Headers
    requires a in h && next in h
  {
    h[next := h[next].(free := false)][a := h[a].(size := h[a].size + HEADER + h[next].size)]
  }

  /** Headers after the block at `a` is marked free, in its own tag and in the one behind it. */
  ghost function MarkedFree(h: Headers, a: nat): Headers
    requires a in h && a + HEADER + h[a].size in h
  {
    var after := a + HEADER + h[a].size;
    h[a := h[a].(free := true)][after := h[after].(prevFree := true)]
  }

  /** The headers a free touches are there. */
  ghost predicate FreedReady(h: Headers, blocks: seq<Blk>, k: nat)
    requires k < |blocks|
  {
    && blocks[k].addr in h && blocks[k].End() in h && blocks[Low(blocks, k)].addr in h && Merged(blocks, k).End() in h
    && (k + 1 < |blocks| ==> blocks[k + 1].addr in h)
  }

  /** What the headers around block `k` say of the blocks it merges with. */
  ghost predicate FreedFound(h: Headers, blocks: seq<Blk>, k: nat)
    requires k < |blocks| && FreedReady(h, blocks, k)
  {
    var b, lo, hi, m := blocks[k], Low(blocks, k), High(blocks, k), Merged(blocks, k);
    && h[b.addr].size == b.size && m.addr == blocks[lo].addr && m.addr < b.End()
    && (lo < k ==> h[m.addr].size == blocks[lo].size && b.addr == blocks[lo].End())
    && h[b.End()].free == (k + 1 < hi)
    && (k + 1 < hi ==> b.End() == blocks[k + 1].addr && h[b.End()].size == blocks[k + 1].size && b.End() < m.End())
    && (k + 1 == hi ==> m.End() == b.End())
  }

  /** What freeing block `k` finds in the headers and on the lists. */
  lemma FreedFacts(h: Headers, nodes: set<int>, listed: set<nat>, blocks: seq<Blk>, start: nat, end: nat, k: nat)
    requires HeapOk(h, nodes, listed, blocks, start, end) && k < |blocks| && !blocks[k].free
    requires k > 0 && blocks[k - 1].free ==> LinkedBack(h, blocks, k - 1)
    ensures FreedReady(h, blocks, k)
    ensures FreedFound(h, blocks, k)
    ensures var b, lo, hi, m := blocks[k], Low(blocks, k), High(blocks, k), Merged(blocks, k);
      && b.addr !in listed && h[b.addr].prevFree == (lo < k)
      && m.addr in nodes && BLOCK_MIN <= m.size < SIZE_LIMIT && m.End() == m.addr + HEADER + m.size
      && (lo < k ==> h[b.addr].prevPhys == m.addr && m.addr in listed && b.addr != m.addr)
      && (lo == k ==> m.addr == b.addr)
      && b.End() != m.addr && (k + 1 < hi ==> b.End() in listed)
  {
    var lo, hi, m := Low(blocks, k), High(blocks, k), Merged(blocks, k);
    MergedSpan(blocks, start, end, k);
    NextHeader(h, blocks, start, end, lo);
    NextHeader(h, blocks, start, end, k);
    NextHeader(h, blocks, start, end, hi - 1);
    RowInPool(blocks, start, end, lo);
    RowInPool(blocks, start, end, hi - 1);
    UsedNotFree(blocks, start, end, k);
    hide NoTwoFree;
  }

  lemma UsedNotFree(blocks: seq<Blk>, start: nat, end: nat, k: nat)
    requires Row(blocks, start, end) && k < |blocks| && !blocks[k].free
    ensures blocks[k].addr !in FreeAddrs(blocks)
  {
    forall j | 0 <= j < |blocks| && blocks[j].free
      ensures blocks[j].addr != blocks[k].addr
    {
      if j < k {
        RowOrder(blocks, start, end, j, k);
      } else {
        RowOrder(blocks, start, end, k, j);
      }
    }
  }

  /** The addresses on the lists after block `k` is freed. */
  ghost function FreedListed(listed: set<nat>, blocks: seq<Blk>, k: nat): set<nat>
    requires k < |blocks|
  {
    var l1 := if Low(blocks, k) < k then listed - {Merged(blocks, k).addr} else listed;
    var l2 := if k + 1 < High(blocks, k) then l1 - {blocks[k].End()} else l1;
    l2 + {Merged(blocks, k).addr}
  }

  /** Freeing a block, once its tags and list entries are written, leaves a heap. */
  lemma FreedOk(h: Headers, nodes: set<int>, listed: set<nat>, blocks: seq<Blk>, start: nat, end: nat, k: nat)
    requires HeapOk(h, nodes, listed, blocks, start, end) && k < |blocks| && !blocks[k].free
    requires FreedReady(h, blocks, k)
    ensures HeapOk(FreedHeaders(h, blocks, k), nodes, FreedListed(listed, blocks, k), FreedRow(blocks, k), start, end)
  {
    var lo, hi, m := Low(blocks, k), High(blocks, k), Merged(blocks, k);
    FreedRowOk(blocks, start, end, k);
    FreedTags(h, blocks, start, end, k);
    SpliceFree(blocks, start, end, lo, hi, [m]);
    FreeOfOne(m);
    FreeOfRun(blocks, start, end, k);
    FreedRowIs(blocks, k);
    FreedWrites(h, blocks, k);
    hide Row, NoTwoFree, Tagged, FreeAddrs, Splice, FreedHeaders, FreedRow;
  }

  lemma FreeOfRun(blocks: seq<Blk>, start: nat, end: nat, k: nat)
    requires Row(blocks, start, end) && k < |blocks| && !blocks[k].free
    ensures FreeAddrs(blocks[Low(blocks, k)..High(blocks, k)]) ==
              (if Low(blocks, k) < k then {Merged(blocks, k).addr} else {}) +
              (if k + 1 < High(blocks, k) then {blocks[k].End()} else {})
  {
  }

  /** Between the two merges the block being freed ends where it did. */
  lemma FreedMiddle(h: Headers, blocks: seq<Blk>, k: nat, h1: Headers)
    requires k < |blocks| && FreedReady(h, blocks, k) && FreedFound(h, blocks, k)
    requires h1 == if Low(blocks, k) < k then StretchedBack(h, Merged(blocks, k).addr, blocks[k].addr) else h
    ensures var b, a := blocks[k], Merged(blocks, k).addr;
      && h1.Keys == h.Keys && a in h1 && a + HEADER + h1[a].size == b.End() && b.End() in h1
      && h1[b.End()].free == (k + 1 < High(blocks, k))
  {
    hide Merged;
  }

  /** The header writes of a free, one after the other. */
  lemma FreedSteps(h: Headers, blocks: seq<Blk>, k: nat, h1: Headers, h2: Headers)
    requires k < |blocks| && FreedReady(h, blocks, k) && FreedFound(h, blocks, k)
    requires h1 == if Low(blocks, k) < k then StretchedBack(h, Merged(blocks, k).addr, blocks[k].addr) else h
    requires blocks[k].End() in h1 && Merged(blocks, k).addr in h1
    requires h2 == if k + 1 < High(blocks, k) then StretchedOn(h1, Merged(blocks, k).addr, blocks[k].End()) else h1
    ensures var m := Merged(blocks, k);
      && m.addr in h2 && h2[m.addr].size == m.size && m.End() in h2
      && MarkedFree(h2, m.addr) == FreedHeaders(h, blocks, k)
  {
  }
}
