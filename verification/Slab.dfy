/** The slab cache in place: headers at the start of buddy blocks, index chains in the
    free slots, and a list of the slabs that have room. */
module Slab {
  import opened Bits
  import opened BuddyTheory
  import opened BuddyMachine
  import opened FreeList
  import opened SlabLayout
  import opened SlabMachine
  import opened Buddy
  import opened Wrappers

  /** The bookkeeping words of a slab; its list words are kept apart. */
  datatype SlabHeader = SlabHeader(freeHead: nat, inUse: nat, capacity: nat) {
    predicate IsFull() { inUse == capacity }
    predicate IsEmpty() { inUse == 0 }
  }

  type Headers = map<nat, SlabHeader>

  /** The first word at every address. */
  type Links = map<nat, nat>

  /** The link word that stands for position `i` of a chain. */
  ghost function LinkAt(chain: seq<nat>, i: nat): nat {
    if i < |chain| then chain[i] else END_OF_CHAIN
  }

  /** Header and slots of slab `a` hold the chain. */
  ghost predicate SlabHolds(l: Layout, h: Headers, links: Links, a: nat, chain: seq<nat>)
  {
    && a in h && h[a].capacity == l.Capacity() && h[a].inUse + |chain| == l.Capacity()
    && h[a].freeHead == LinkAt(chain, 0)
    && forall i: nat | i < |chain| ::
         l.Slot(a, chain[i]) in links && links[l.Slot(a, chain[i])] == LinkAt(chain, i + 1)
  }

  ghost predicate AllHold(l: Layout, h: Headers, links: Links, slabs: map<nat, seq<nat>>)
  {
    forall a | a in slabs :: SlabHolds(l, h, links, a, slabs[a])
  }

  /** Slabs sit at multiples of their size and chains stay inside them. */
  ghost predicate Placed(l: Layout, slabs: map<nat, seq<nat>>)
  {
    forall a | a in slabs :: a % l.SlabBytes() == 0 && ChainOk(slabs[a], l.Capacity())
  }

  /** The partial list is threaded and names exactly the slabs with room. */
  ghost predicate PartialOk(partials: seq<nat>, head: int, words: Ram, slabs: map<nat, seq<nat>>) {
    && NIL !in words && Threaded(partials, head, words)
    && forall a: nat :: a in partials <==> a in slabs && slabs[a] != []
  }

  /** All the words the cache may write. */
  datatype Words = Words(headers: Headers, words: Ram, links: Links)

  ghost predicate SameAt(m: Words, m': Words, q: nat) {
    && (q in m.headers ==> q in m'.headers && m'.headers[q] == m.headers[q])
    && (q in m.words ==> q in m'.words && m'.words[q] == m.words[q])
    && (q in m.links ==> q in m'.links && m'.links[q] == m.links[q])
  }

  /** No byte of a slot is written. */
  ghost predicate Untouched(l: Layout, m: Words, m': Words, o: Obj) {
    forall q | l.InSlot(o.slab, o.index, q) :: SameAt(m, m', q)
  }

  ghost predicate LiveUntouched(l: Layout, m: Words, m': Words, live: set<Obj>) {
    forall p | p in live :: Untouched(l, m, m', p)
  }

  /** `live` names exactly the slots off their slab's chain. */
  ghost predicate LiveAre(c: Config, slabs: map<nat, seq<nat>>, live: set<Obj>) {
    forall o :: o in live <==> LiveObj(c, slabs, o)
  }

  /** Header words change only at slabs in `at`. */
  ghost predicate OnlyHeaders(h: Headers, h': Headers, at: set<nat>) {
    forall a | a in h && a !in at :: a in h' && h'[a] == h[a]
  }

  /** Words within none of the slabs in `at` are unchanged. */
  ghost predicate OwnOnly(l: Layout, m: Words, m': Words, at: set<nat>) {
    forall q: nat | Apart(l, at, q) :: SameAt(m, m', q)
  }

  ghost predicate LinksIn(l: Layout, links: Links, links': Links, at: set<nat>) {
    forall q | q in links && Apart(l, at, q) :: q in links' && links'[q] == links[q]
  }

  /** The address lies in none of the slabs. */
  ghost predicate Apart(l: Layout, at: set<nat>, q: nat) {
    forall a | a in at :: !(a <= q < a + l.SlabBytes())
  }

  lemma OwnWritten(l: Layout, m: Words, m': Words, at: set<nat>)
    requires OnlyHeaders(m.headers, m'.headers, at) && WritesIn(m.words, m'.words, at)
    requires LinksIn(l, m.links, m'.links, at)
    ensures OwnOnly(l, m, m', at)
  {
    forall q: nat | Apart(l, at, q)
      ensures SameAt(m, m', q)
    {
      assert q !in at;
    }
  }

  lemma OneSlabWritten(l: Layout, links: Links, links': Links, at: set<nat>, a: nat)
    requires SameOutside(l, links, links', a) && a in at
    ensures LinksIn(l, links, links', at)
  {
  }

  lemma OneSlotWritten(l: Layout, links: Links, links': Links, at: set<nat>, a: nat, i: nat)
    requires l.Ok() && i < l.Capacity() && a in at && OnlyAt(links, links', l.Slot(a, i))
    ensures LinksIn(l, links, links', at)
  {
    SlotInside(l, a, i);
    hide Layout.Slot, Layout.SlabBytes, Layout.Ok, Layout.Capacity;
  }

  // ---------------------------------------------------------------- chains

  lemma PopHolds(l: Layout, h: Headers, links: Links, slabs: map<nat, seq<nat>>, a: nat)
    requires l.Ok() && AllHold(l, h, links, slabs) && a in slabs && slabs[a] != []
    ensures a in h && h[a].freeHead == slabs[a][0] && l.Slot(a, slabs[a][0]) in links
    ensures h[a].inUse + |slabs[a]| == h[a].capacity
    ensures var link := links[l.Slot(a, slabs[a][0])];
      AllHold(l, h[a := h[a].(freeHead := link, inUse := h[a].inUse + 1)], links, slabs[a := slabs[a][1..]])
  {
    var chain := slabs[a];
    assert SlabHolds(l, h, links, a, chain);
    var link := links[l.Slot(a, chain[0])];
    var h' := h[a := h[a].(freeHead := link, inUse := h[a].inUse + 1)];
    assert SlabHolds(l, h', links, a, chain[1..]);
    forall b | b in slabs && b != a
      ensures SlabHolds(l, h', links, b, slabs[b])
    {
      assert SlabHolds(l, h, links, b, slabs[b]);
    }
  }

  lemma PushHolds(l: Layout, h: Headers, links: Links, slabs: map<nat, seq<nat>>, a: nat, i: nat)
    requires l.Ok() && AllHold(l, h, links, slabs) && Placed(l, slabs)
    requires a in slabs && i < l.Capacity() && i !in slabs[a]
    ensures a in h && h[a].inUse > 0 && h[a].capacity == l.Capacity() && h[a].inUse + |slabs[a]| == l.Capacity()
    ensures AllHold(l, h[a := h[a].(freeHead := i, inUse := h[a].inUse - 1)], links[l.Slot(a, i) := h[a].freeHead],
                    slabs[a := [i] + slabs[a]])
  {
    var chain := slabs[a];
    assert SlabHolds(l, h, links, a, chain);
    PushOk(chain, l.Capacity(), i);
    var h' := h[a := h[a].(freeHead := i, inUse := h[a].inUse - 1)];
    var links' := links[l.Slot(a, i) := h[a].freeHead];
    WriteMisses(l, h, links, slabs, a, i, h[a].freeHead, a);
    forall j: nat | j < |chain| + 1
      ensures var c := [i] + chain; l.Slot(a, c[j]) in links' && links'[l.Slot(a, c[j])] == LinkAt(c, j + 1)
    {
      if j > 0 {
        assert ([i] + chain)[j] == chain[j - 1];
      }
    }
    forall b | b in slabs && b != a
      ensures SlabHolds(l, h', links', b, slabs[b])
    {
      assert SlabHolds(l, h, links, b, slabs[b]);
      WriteMisses(l, h, links, slabs, a, i, h[a].freeHead, b);
    }
  }

  /** Writing a slot that is on no chain disturbs no chain. */
  lemma WriteMisses(l: Layout, h: Headers, links: Links, slabs: map<nat, seq<nat>>, a: nat, i: nat, v: nat, b: nat)
    requires l.Ok() && Placed(l, slabs) && b in slabs && SlabHolds(l, h, links, b, slabs[b])
    requires a % l.SlabBytes() == 0 && i < l.Capacity() && (a == b ==> i !in slabs[b])
    ensures SlabHolds(l, h, links[l.Slot(a, i) := v], b, slabs[b])
  {
    forall j: nat | j < |slabs[b]|
      ensures l.Slot(b, slabs[b][j]) != l.Slot(a, i)
    {
      SlotsApart(l, b, slabs[b][j], a, i);
    }
  }

  /** Link words written by threading the first `n` slots of a fresh slab. */
  ghost predicate ThreadedTo(l: Layout, links: Links, links': Links, a: nat, n: nat)
  {
    && links'.Keys == links.Keys
    && (forall j: nat | j < n :: l.Slot(a, j) in links' &&
          links'[l.Slot(a, j)] == if j + 1 < l.Capacity() then j + 1 else END_OF_CHAIN)
    && SameOutside(l, links, links', a)
  }

  ghost predicate SameOutside(l: Layout, links: Links, links': Links, a: nat) {
    forall p | p in links && !(a <= p < a + l.SlabBytes()) :: p in links' && links'[p] == links[p]
  }

  lemma FreshHolds(l: Layout, h: Headers, links: Links, links': Links, slabs: map<nat, seq<nat>>, a: nat)
    requires l.Ok() && AllHold(l, h, links, slabs) && Placed(l, slabs) && a !in slabs
    requires a % l.SlabBytes() == 0 && ThreadedTo(l, links, links', a, l.Capacity()) && l.Capacity() > 0
    ensures AllHold(l, h[a := SlabHeader(0, 0, l.Capacity())], links', slabs[a := AllSlots(l.Capacity())])
  {
    var h' := h[a := SlabHeader(0, 0, l.Capacity())];
    assert SlabHolds(l, h', links', a, AllSlots(l.Capacity()));
    forall b | b in slabs
      ensures SlabHolds(l, h', links', b, slabs[b])
    {
      assert SlabHolds(l, h, links, b, slabs[b]);
      forall j: nat | j < |slabs[b]|
        ensures var p := l.Slot(b, slabs[b][j]); links'[p] == links[p]
      {
        SizePositive(l);
        OtherSlab(l, a, b, slabs[b][j], l.Slot(b, slabs[b][j]));
      }
    }
  }

  lemma SizePositive(l: Layout)
    requires l.Ok()
    ensures l.size > 0
  {
  }

  /** No byte of a slot is in another slab. */
  lemma OtherSlab(l: Layout, a: nat, b: nat, i: nat, q: nat)
    requires l.Ok() && i < l.Capacity() && a != b && l.InSlot(b, i, q)
    requires a % l.SlabBytes() == 0 && b % l.SlabBytes() == 0
    ensures !(a <= q < a + l.SlabBytes())
  {
    hide Layout.Ok, Layout.Capacity, Layout.SlabBytes;
    SlotFound(l, b, i, q);
    if a <= q < a + l.SlabBytes() {
      BlockFound(a, l.SlabBytes(), q);
    }
  }

  // ---------------------------------------------------------- partial list

  lemma PartialPush(partials: seq<nat>, head: int, words: Ram, slabs: map<nat, seq<nat>>, a: nat, chain: seq<nat>)
    requires PartialOk(partials, head, words, slabs) && a in words && a !in partials && chain != []
    ensures InRam(head, words) && (head == NIL || head in slabs.Keys)
    ensures WritesIn(words, PushWords(words, a, head), slabs.Keys + {a})
    ensures PartialOk([a] + partials, a, PushWords(words, a, head), slabs[a := chain])
  {
    hide Threaded, PushWords, WritesIn;
    HeadPartial(partials, head, words, slabs);
    PushThreaded(partials, head, words, a);
    PushWritten(words, a, head, slabs.Keys + {a});
    forall b: nat
      ensures b in [a] + partials <==> b in slabs[a := chain] && slabs[a := chain][b] != []
    {
      assert b in [a] + partials <==> b == a || b in partials;
    }
  }

  lemma HeadPartial(partials: seq<nat>, head: int, words: Ram, slabs: map<nat, seq<nat>>)
    requires PartialOk(partials, head, words, slabs)
    ensures InRam(head, words) && (head == NIL || head in slabs.Keys)
  {
    assert partials != [] ==> partials[0] in partials;
  }

  /** A slab without room leaves the list; so does one that is given back. */
  lemma PartialDrop(partials: seq<nat>, head: int, words: Ram, slabs: map<nat, seq<nat>>, i: nat, slabs': map<nat,
                    seq<nat>>)
    requires PartialOk(partials, head, words, slabs) && i < |partials|
    requires slabs' == slabs - {partials[i]} || slabs' == slabs[partials[i] := []]
    ensures InRam(At(partials, i - 1), words) && InRam(At(partials, i + 1), words)
    ensures WritesIn(words, JoinWords(words, At(partials, i - 1), At(partials, i + 1)), slabs.Keys)
    ensures partials[i] in words && words[partials[i]] == Node(At(partials, i - 1), At(partials, i + 1))
    ensures PartialOk(Without(partials, i), if i == 0 then At(partials, 1) else head,
                      JoinWords(words, At(partials, i - 1), At(partials, i + 1)), slabs')
  {
    hide Threaded, JoinWords, Without, WritesIn, NoDup, At;
    Neighbours(partials, head, words, i);
    UnlinkThreaded(partials, head, words, i);
    ListedPartial(partials, head, words, slabs, i - 1);
    ListedPartial(partials, head, words, slabs, i + 1);
    JoinWritten(words, At(partials, i - 1), At(partials, i + 1), slabs.Keys);
    OnceListed(partials, head, words);
    forall a: nat
      ensures a in Without(partials, i) <==> a in slabs' && slabs'[a] != []
    {
      WithoutMembers(partials, i, a);
    }
  }

  lemma OnceListed(partials: seq<nat>, head: int, words: Ram)
    requires Threaded(partials, head, words)
    ensures NoDup(partials)
  {
  }

  lemma ListedPartial(partials: seq<nat>, head: int, words: Ram, slabs: map<nat, seq<nat>>, j: int)
    requires PartialOk(partials, head, words, slabs)
    ensures At(partials, j) == NIL || At(partials, j) in slabs.Keys
  {
    assert 0 <= j < |partials| ==> partials[j] in partials;
  }

  /** A slab that stays partial stays on the list. */
  lemma PartialKeep(partials: seq<nat>, head: int, words: Ram, slabs: map<nat, seq<nat>>, a: nat, chain: seq<nat>)
    requires PartialOk(partials, head, words, slabs) && a in partials && chain != []
    ensures PartialOk(partials, head, words, slabs[a := chain])
  {
  }

  // ----------------------------------------------------------- bookkeeping

  /** The counters that are kept faithfully, and a bound that keeps the free-byte counter
      from running below zero. */
  ghost predicate StatsOk(l: Layout, st: AllocStats, slabCount: nat, liveCount: nat)
  {
    && st.totalBytes == slabCount * l.SlabBytes()
    && st.usedBytes == liveCount * l.size <= st.peakBytes
    && st.allocCount == st.deallocCount + liveCount
    && st.freeBytes >= slabCount * (l.Capacity() * l.size)
  }

  /** The counters after one more slab. */
  function WithSlab(l: Layout, st: AllocStats): AllocStats {
    st.(totalBytes := st.totalBytes + l.SlabBytes(), freeBytes := st.freeBytes + l.Capacity() * l.size)
  }

  lemma StatsGrown(l: Layout, st: AllocStats, slabCount: nat, liveCount: nat)
    requires StatsOk(l, st, slabCount, liveCount)
    ensures StatsOk(l, WithSlab(l, st), slabCount + 1, liveCount)
  {
    OneMore(slabCount, l.SlabBytes());
    OneMore(slabCount, l.Capacity() * l.size);
    hide Layout.SlabBytes, Layout.Capacity;
  }

  lemma OneMore(n: nat, unit: nat)
    ensures (n + 1) * unit == n * unit + unit
  {
  }

  predicate CountsSlab(l: Layout, st: AllocStats) {
    st.totalBytes >= l.SlabBytes() && st.freeBytes >= l.Capacity() * l.size
  }

  /** The counters after a slab has gone back. */
  function WithoutSlab(l: Layout, st: AllocStats): AllocStats
    requires CountsSlab(l, st)
  {
    st.(totalBytes := st.totalBytes - l.SlabBytes(), freeBytes := st.freeBytes - l.Capacity() * l.size)
  }

  lemma StatsReleased(l: Layout, st: AllocStats, slabCount: nat, liveCount: nat)
    requires StatsOk(l, st, slabCount + 1, liveCount)
    ensures CountsSlab(l, st)
    ensures StatsOk(l, WithoutSlab(l, st), slabCount, liveCount)
  {
    OneMore(slabCount, l.SlabBytes());
    OneMore(slabCount, l.Capacity() * l.size);
    hide Layout.SlabBytes, Layout.Capacity;
  }

  /** The counters after one more live slot. */
  function WithObj(l: Layout, st: AllocStats): AllocStats {
    st.(allocCount := st.allocCount + 1, usedBytes := st.usedBytes + l.size,
        peakBytes := Max(st.peakBytes, st.usedBytes + l.size))
  }

  lemma StatsTaken(l: Layout, st: AllocStats, slabCount: nat, liveCount: nat)
    requires StatsOk(l, st, slabCount, liveCount)
    ensures StatsOk(l, WithObj(l, st), slabCount, liveCount + 1)
  {
    OneMore(liveCount, l.size);
    hide Layout.SlabBytes, Layout.Capacity;
  }

  /** The counters after an allocation, with or without a new slab. */
  ghost predicate StatsAfterAlloc(l: Layout, st: AllocStats, grown: bool, st': AllocStats) {
    && st'.totalBytes == st.totalBytes + (if grown then 4096 * Pow2(l.order) else 0)
    && st'.freeBytes == st.freeBytes + (if grown then l.Capacity() * l.size else 0)
    && st'.usedBytes == st.usedBytes + l.size
    && st'.peakBytes >= st.peakBytes && st'.peakBytes >= st'.usedBytes
    && st'.peakBytes in {st.peakBytes, st'.usedBytes}
    && st'.allocCount == st.allocCount + 1 && st'.deallocCount == st.deallocCount
  }

  lemma SlotAddress(l: Layout, o: Obj)
    ensures l.Slot(o.slab, o.index) == o.slab + l.Stride() + o.index * l.size
  {
  }

  lemma AllocCounts(l: Layout, st: AllocStats)
    ensures StatsAfterAlloc(l, st, false, WithObj(l, st))
    ensures StatsAfterAlloc(l, st, true, WithObj(l, WithSlab(l, st)))
  {
    hide Layout.Capacity, Pow2;
  }

  /** The counters after one slot has been freed. */
  function WithoutObj(l: Layout, st: AllocStats): AllocStats
    requires st.usedBytes >= l.size
  {
    st.(deallocCount := st.deallocCount + 1, usedBytes := st.usedBytes - l.size, freeBytes := st.freeBytes + l.size)
  }

  /** The counters after a free, with or without its slab going back. */
  ghost predicate StatsAfterFree(l: Layout, st: AllocStats, released: bool, st': AllocStats) {
    && st'.totalBytes + (if released then 4096 * Pow2(l.order) else 0) == st.totalBytes
    && st'.freeBytes + (if released then l.Capacity() * l.size else 0) == st.freeBytes + l.size
    && st'.usedBytes + l.size == st.usedBytes && st'.peakBytes == st.peakBytes
    && st'.allocCount == st.allocCount && st'.deallocCount == st.deallocCount + 1
  }

  lemma FreeCounts(l: Layout, st: AllocStats, mid: AllocStats, released: bool)
    requires released ==> CountsSlab(l, st)
    requires mid == (if released then WithoutSlab(l, st) else st) && mid.usedBytes >= l.size
    ensures StatsAfterFree(l, st, released, WithoutObj(l, mid))
  {
    hide Layout.Capacity, Pow2;
  }

  lemma StatsFreed(l: Layout, st: AllocStats, slabCount: nat, liveCount: nat)
    requires StatsOk(l, st, slabCount, liveCount + 1)
    ensures st.usedBytes >= l.size
    ensures StatsOk(l, WithoutObj(l, st), slabCount, liveCount)
  {
    OneMore(liveCount, l.size);
    hide Layout.SlabBytes, Layout.Capacity;
  }

  // ---------------------------------------------------------------- memory

  /** The bytes of a live block of the cache's order are owned. */
  lemma SlabBacked(c: Config, s: State, owned: set<nat>, a: nat, dom: set<int>)
    requires c.SlabAt(a) && c.BlockOf(a) in s.live && LivePages(s) <= owned && Backed(dom, c.base, owned)
    ensures forall p: nat | a <= p < a + c.SlabBytes() :: p in dom
  {
    var b := c.BlockOf(a);
    LiveBlockPages(s.live, b);
    forall p: nat | a <= p < a + c.SlabBytes()
      ensures p in dom
    {
      assert b.Has(PageIndex(p, c.base));
      assert PageIndex(p, c.base) in b.Pages();
    }
  }

  class SlabCacheInner {
    const layout: Layout
    const capacity: nat
    const buddy: BuddyAllocator
    var partial: int
    var headers: Headers
    var words: Ram
    var links: Links
    var stats: AllocStats

    ghost var slabs: map<nat, seq<nat>>
    ghost var partials: seq<nat>
    ghost var live: set<Obj>

    // ------------------------------------------------------------ invariant

    ghost function Conf(): Config
      reads buddy`base
    {
      Config(buddy.base, layout.order, capacity, buddy.maxOrder)
    }

    ghost function Abs(): Cache
      reads this`slabs, buddy`lists, buddy`live
    {
      Cache(buddy.Abs(), slabs)
    }

    ghost function Mem(): Words
      reads this`headers, this`words, this`links
    {
      Words(headers, words, links)
    }

    /** Slots fit, their count fits the header's 32 bits, and the buddy serves the order. */
    ghost predicate Sized()
      reads buddy`base
    {
      && layout.Ok() && capacity == layout.Capacity() && 0 < capacity < 0x1_0000_0000
      && layout.order < buddy.maxOrder && buddy.base > 0
    }

    ghost predicate Memory()
      reads this`headers, this`words, this`links, buddy`base, buddy`owned
    {
      && NIL !in words
      && Backed(headers.Keys, buddy.base, buddy.owned) && Backed(words.Keys, buddy.base, buddy.owned)
      && Backed(links.Keys, buddy.base, buddy.owned)
    }

    /** What the cache's own fields say, wherever its slabs came from. */
    ghost predicate Held()
      reads this, buddy`base, buddy`owned
    {
      && Sized() && Memory()
      && AllHold(layout, headers, links, slabs) && PartialOk(partials, partial, words, slabs)
      && LiveAre(Conf(), slabs, live)
      && StatsOk(layout, stats, |slabs.Keys|, |live|)
    }

    /** Valid, except that the slab just grown has no live slot yet. */
    ghost predicate Shaped()
      reads this, buddy, buddy.freeLists, buddy.bitmaps
    {
      Held() && buddy.Valid() && CacheShape(Conf(), Abs())
    }

    ghost predicate Valid()
      reads this, buddy, buddy.freeLists, buddy.bitmaps
    {
      Shaped() && Busy(Conf(), slabs)
    }

    // --------------------------------------------------------- construction

    /** An empty cache for one slot type over a buddy allocator. */
    constructor (layout: Layout, buddy: BuddyAllocator, headers: Headers, words: Ram, links: Links)
      requires layout.Ok() && 0 < layout.Capacity() < 0x1_0000_0000
      requires buddy.Valid() && layout.order < buddy.maxOrder && buddy.base > 0 && NIL !in words
      requires Backed(headers.Keys, buddy.base, buddy.owned) && Backed(words.Keys, buddy.base, buddy.owned)
      requires Backed(links.Keys, buddy.base, buddy.owned)
      ensures Valid() && slabs == map[] && live == {} && stats == AllocStats(0, 0, 0, 0, 0, 0)
      ensures this.layout == layout && this.buddy == buddy && capacity == layout.Capacity()
    {
      hide AllHold, PartialOk, StatsOk, CacheShape, Busy, BuddyAllocator.Valid, Backed, Layout.Ok, Layout.Capacity,
        LiveObj;
      this.layout := layout;
      this.capacity := layout.Capacity();
      this.buddy := buddy;
      this.headers, this.words, this.links := headers, words, links;
      partial := NIL;
      stats := AllocStats(0, 0, 0, 0, 0, 0);
      slabs, partials, live := map[], [], {};
      new;
      EmptyShape(Conf(), buddy);
      EmptyHolds(layout, this.headers, this.words, this.links);
    }

    // --------------------------------------------------------- partial list

    method LinkPartial(slab: nat, ghost chain: seq<nat>)
      requires PartialOk(partials, partial, words, slabs) && slab in words && slab !in partials && chain != []
      modifies this`partial, this`words, this`partials
      ensures partials == [slab] + old(partials) && words.Keys == old(words.Keys)
      ensures WritesIn(old(words), words, slabs.Keys + {slab})
      ensures PartialOk(partials, partial, words, slabs[slab := chain])
    {
      hide PartialOk, WritesIn;
      PartialPush(partials, partial, words, slabs, slab, chain);
      words := words[slab := words[slab].(next := partial)];
      words := words[slab := words[slab].(prev := NIL)];
      assert words == old(words)[slab := Node(NIL, partial)];
      if partial != NIL {
        words := words[partial := words[partial].(prev := slab)];
      }
      partial := slab;
      partials := [slab] + partials;
    }

    method UnlinkPartial(slab: nat, ghost i: nat, ghost slabs': map<nat, seq<nat>>)
      requires PartialOk(partials, partial, words, slabs) && i < |partials| && partials[i] == slab
      requires slabs' == slabs - {slab} || slabs' == slabs[slab := []]
      modifies this`partial, this`words, this`partials
      ensures partials == Without(old(partials), i) && words.Keys == old(words.Keys)
      ensures WritesIn(old(words), words, slabs.Keys)
      ensures PartialOk(partials, partial, words, slabs')
    {
      hide PartialOk, WritesIn;
      PartialDrop(partials, partial, words, slabs, i, slabs');
      var node := words[slab];
      if node.prev != NIL {
        words := words[node.prev := words[node.prev].(next := node.next)];
      } else {
        partial := node.next;
      }
      if node.next != NIL {
        words := words[node.next := words[node.next].(prev := node.prev)];
      }
      partials := Without(partials, i);
    }

    // --------------------------------------------------------------- growing

    /** Chain all slots of a fresh slab in index order. */
    method ThreadSlots(slab: nat)
      requires layout.Ok() && capacity == layout.Capacity() && slab % layout.SlabBytes() == 0
      requires forall p: nat | slab <= p < slab + layout.SlabBytes() :: p in links
      modifies this`links
      ensures ThreadedTo(layout, old(links), links, slab, capacity)
    {
      var i := 0;
      while i < capacity
        invariant i <= capacity
        invariant ThreadedTo(layout, old(links), links, slab, i)
        modifies this`links
      {
        var next := if i + 1 < capacity then i + 1 else END_OF_CHAIN;
        ThreadNext(layout, old(links), links, slab, i, next);
        links := links[layout.Slot(slab, i) := next];
        i := i + 1;
      }
    }

    /** Make a cache slab of an aligned buddy block. */
    method Attach(slab: nat)
      requires Sized() && Placed(layout, slabs) && slab % layout.SlabBytes() == 0 && slab !in slabs
      requires AllHold(layout, headers, links, slabs) && PartialOk(partials, partial, words, slabs)
      requires slab in headers && slab in words && forall p: nat | slab <= p < slab + layout.SlabBytes() :: p in links
      modifies this`partial, this`headers, this`words, this`links, this`stats, this`slabs, this`partials
      ensures headers.Keys == old(headers.Keys) && words.Keys == old(words.Keys) && links.Keys == old(links.Keys)
      ensures slabs == old(slabs)[slab := AllSlots(capacity)] && partials == [slab] + old(partials)
      ensures AllHold(layout, headers, links, slabs) && PartialOk(partials, partial, words, slabs)
      ensures SameOutside(layout, old(links), links, slab)
      ensures OnlyHeaders(old(headers), headers, slabs.Keys) && WritesIn(old(words), words, slabs.Keys)
      ensures stats == WithSlab(layout, old(stats))
    {
      hide AllHold, PartialOk, Placed, WritesIn, Layout.Ok, Layout.Capacity, AllSlots, WithSlab, SameOutside;
      ThreadSlots(slab);
      FreshHolds(layout, headers, old(links), links, slabs, slab);
      headers := headers[slab := SlabHeader(0, 0, capacity % 0x1_0000_0000)];
      ListFresh(slab);
      assert (slabs[slab := AllSlots(capacity)]).Keys == slabs.Keys + {slab};
      slabs := slabs[slab := AllSlots(capacity)];
      CountAttached();
    }

    /** Put the header of a fresh slab on the list of slabs with room. */
    method ListFresh(slab: nat)
      requires PartialOk(partials, partial, words, slabs) && slab in words && slab !in slabs && capacity > 0
      modifies this`partial, this`words, this`partials
      ensures partials == [slab] + old(partials) && words.Keys == old(words.Keys)
      ensures WritesIn(old(words), words, slabs.Keys + {slab})
      ensures PartialOk(partials, partial, words, slabs[slab := AllSlots(capacity)])
    {
      hide PartialOk, WritesIn;
      NotPartial(partials, partial, words, slabs, slab);
      words := words[slab := Node(NIL, NIL)];
      WrittenOnce(old(words), slab, Node(NIL, NIL), slabs.Keys + {slab});
      ghost var mid := words;
      LinkPartial(slab, AllSlots(capacity));
      WritesThen(old(words), mid, words, slabs.Keys + {slab}, slabs.Keys + {slab}, slabs.Keys + {slab});
    }

    method CountAttached()
      requires capacity == layout.Capacity()
      modifies this`stats
      ensures stats == WithSlab(layout, old(stats))
    {
      hide Layout.Ok, Layout.SlabBytes, Layout.Capacity;
      stats := stats.(totalBytes := stats.totalBytes + layout.SlabBytes());
      stats := stats.(freeBytes := stats.freeBytes + capacity * layout.size);
    }

    /** Ask the buddy for a block; a block not aligned to its own size goes straight back. */
    method GetBlock() returns (r: Option<nat>)
      requires Valid()
      modifies buddy`ram, buddy`lists, buddy`live, buddy`stats, buddy.freeLists, buddy.bitmaps
      ensures buddy.Valid()
      ensures r.None? ==> Valid() && GrowStep(Conf(), old(Abs()), None, Abs())
      ensures r.Some? ==> GrowStep(Conf(), old(Abs()), r, Cache(buddy.Abs(), slabs[r.value := AllSlots(capacity)]))
      ensures r.Some? ==> Conf().SlabAt(r.value) && Conf().BlockOf(r.value) in buddy.live
      ensures WritesIn(old(buddy.ram), buddy.ram, FreePages(old(buddy.Abs())))
    {
      hide Held, CacheShape, Busy, BuddyAllocator.Valid, AllocStep, GrowStep, Layout.Mask, DeallocStep, WritesIn,
        PagesOf;
      SizedFact();
      ghost var c, s := Conf(), Abs();
      var raw := buddy.AllocPages(layout.order);
      ghost var mid := buddy.Abs();
      if raw.None? {
        GrowNone(c, s, mid);
        assert Abs() == s;
        return None;
      }
      var slab := raw.value;
      GrowAt(c, s, slab, mid);
      MaskFixed(layout, slab);
      if layout.Mask(slab) != slab {
        ghost var ram := buddy.ram;
        buddy.DeallocPages(slab, layout.order);
        GrowBack(c, s, slab, mid, Abs());
        SameLive(c, s, Abs());
        GrowKeeps(c, s, None, Abs());
        WritesThen(old(buddy.ram), ram, buddy.ram, FreePages(s.buddy), FreePages(s.buddy), FreePages(s.buddy));
        return None;
      }
      return Some(slab);
    }

    /** Get a slab from the buddy. False when the buddy has no block, and when the block is
        not aligned to its own size. */
    method Grow() returns (ok: bool, ghost grown: Option<nat>)
      requires Valid() && partials == []
      modifies this`partial, this`headers, this`words, this`links, this`stats, this`slabs, this`partials
      modifies buddy`ram, buddy`lists, buddy`live, buddy`stats, buddy.freeLists, buddy.bitmaps
      ensures Shaped() && GrowStep(Conf(), old(Abs()), grown, Abs()) && ok == grown.Some?
      ensures ok ==> partials == [grown.value]
      ensures !ok ==> Valid() && stats == old(stats)
      ensures ok ==> stats == WithSlab(layout, old(stats))
      ensures OnlyHeaders(old(headers), headers, slabs.Keys) && WritesIn(old(words), words, slabs.Keys)
      ensures LiveWords(layout, old(links), links, live) && LinksIn(layout, old(links), links, slabs.Keys)
      ensures WritesIn(old(buddy.ram), buddy.ram, FreePages(old(buddy.Abs())))
    {
      hide Held, CacheShape, Busy, BuddyAllocator.Valid, GrowStep, LiveWords, OnlyHeaders, WritesIn, PagesOf;
      ghost var c, s := Conf(), Abs();
      SameWordsSelf(layout, links, live);
      OnlySelf(headers, words, slabs.Keys);
      LinksSame(layout, links, slabs.Keys);
      var raw := GetBlock();
      if raw.None? {
        return false, None;
      }
      AddSlab(raw.value, c, s);
      return true, raw;
    }

    lemma SizedFact()
      requires Held()
      ensures Sized()
    {
    }

    /** Take the block the buddy has handed out into the cache. */
    method AddSlab(slab: nat, ghost c: Config, ghost s: Cache)
      requires Held() && buddy.Valid() && c == Conf() && CacheInv(c, s) && s.slabs == slabs && slab >= buddy.base
      requires c.SlabAt(slab) && c.BlockOf(slab) in buddy.live
      requires GrowStep(c, s, Some(slab), Cache(buddy.Abs(), slabs[slab := AllSlots(capacity)]))
      modifies this`partial, this`headers, this`words, this`links, this`stats, this`slabs, this`partials
      ensures Shaped() && Abs() == Cache(buddy.Abs(), old(slabs)[slab := AllSlots(capacity)])
      ensures partials == [slab] + old(partials) && stats == WithSlab(layout, old(stats))
      ensures OnlyHeaders(old(headers), headers, slabs.Keys) && WritesIn(old(words), words, slabs.Keys)
      ensures LiveWords(layout, old(links), links, live) && LinksIn(layout, old(links), links, slabs.Keys)
    {
      hide AllHold, PartialOk, StatsOk, CacheShape, BuddyAllocator.Valid, Backed, GrowStep, LiveObj, Layout.Ok,
        LiveWords, LinksIn, SameOutside, AllSlots, Config.BlockOf, Kept, PagesOf, FreeSet, WithSlab, Layout.Capacity,
        Pow2, Busy, Placed;
      ghost var mid := Cache(buddy.Abs(), slabs[slab := AllSlots(capacity)]);
      BlockFacts(c, s, buddy, slab);
      SlabBacked(c, buddy.Abs(), buddy.owned, slab, headers.Keys);
      SlabBacked(c, buddy.Abs(), buddy.owned, slab, words.Keys);
      SlabBacked(c, buddy.Abs(), buddy.owned, slab, links.Keys);
      AllPlaced(c, s, layout);
      StatsGrown(layout, stats, |slabs.Keys|, |live|);
      FreshSlab(c, s, mid, slab);
      GrowShape(c, s, Some(slab), mid);
      Attach(slab);
      WordsOutside(c, s, layout, old(links), links, slab, live);
      assert slabs.Keys == old(slabs.Keys) + {slab};
      OneSlabWritten(layout, old(links), links, slabs.Keys, slab);
    }

    // ------------------------------------------------------------- take, free

    /** Hand out the first free slot of the first slab with room. */
    method TakeFirst() returns (ptr: nat, ghost o: Obj)
      requires Shaped() && partials != []
      requires OthersBusy(capacity, slabs, partials[0])
      modifies this`partial, this`headers, this`words, this`stats, this`slabs, this`partials, this`live
      ensures Valid() && TakeSlot(old(Abs()), o, Abs()) && o.slab == old(partials)[0]
      ensures ptr == layout.Slot(o.slab, o.index)
      ensures o !in old(live) && live == old(live) + {o}
      ensures stats == WithObj(layout, old(stats))
      ensures OnlyHeaders(old(headers), headers, slabs.Keys) && WritesIn(old(words), words, slabs.Keys)
    {
      hide AllHold, PartialOk, StatsOk, CacheShape, Busy, BuddyAllocator.Valid, Backed, LiveObj, Layout.Ok, Kept,
        Layout.Slot, Layout.Capacity, WithObj, OthersBusy, OnlyHeaders, WritesIn, LiveAre;
      ghost var s := Abs();
      StatsTaken(layout, stats, |slabs.Keys|, |live|);
      ptr, o := PopFirst();
      CountTaken();
      TakeFirstKeeps(Conf(), s, o, Abs(), live);
      SameSlabs(s, o, Abs());
      live := live + {o};
    }

    /** Unchain the first free slot of the first slab with room. */
    method PopFirst() returns (ptr: nat, ghost o: Obj)
      requires Sized() && AllHold(layout, headers, links, slabs) && PartialOk(partials, partial, words, slabs)
      requires partials != []
      modifies this`partial, this`headers, this`words, this`slabs, this`partials
      ensures AllHold(layout, headers, links, slabs) && PartialOk(partials, partial, words, slabs)
      ensures headers.Keys == old(headers.Keys) && words.Keys == old(words.Keys)
      ensures o.slab == old(partials)[0] && o.slab in old(slabs) && old(slabs)[o.slab] != []
      ensures o.index == old(slabs)[o.slab][0] && slabs == old(slabs)[o.slab := old(slabs)[o.slab][1..]]
      ensures ptr == layout.Slot(o.slab, o.index)
      ensures OnlyHeaders(old(headers), headers, slabs.Keys) && WritesIn(old(words), words, slabs.Keys)
    {
      hide AllHold, PartialOk, Layout.Slot, Layout.Ok;
      FirstPartial(partials, partial, words, slabs);
      var header := partial;
      ghost var chain := slabs[header];
      PopHolds(layout, headers, links, slabs, header);
      var slot := headers[header].freeHead;
      o := Obj(header, slot);
      ptr := layout.Slot(header, slot);
      CountSlot(header, links[ptr]);
      Relist(header, chain);
      slabs := slabs[header := chain[1..]];
    }

    /** The header of a slab that hands out its first free slot. */
    method CountSlot(header: nat, link: nat)
      requires header in headers
      modifies this`headers
      ensures headers.Keys == old(headers.Keys)
      ensures headers == old(headers)
        [header := old(headers)[header].(freeHead := link, inUse := old(headers)[header].inUse + 1)]
    {
      headers := headers[header := headers[header].(freeHead := link)];
      headers := headers[header := headers[header].(inUse := headers[header].inUse + 1)];
    }

    /** A slab that has become full leaves the partial list. */
    method Relist(header: nat, ghost chain: seq<nat>)
      requires PartialOk(partials, partial, words, slabs) && partials != [] && partials[0] == header && chain != []
      requires header in slabs && slabs[header] == chain && header in headers
      requires headers[header].inUse + |chain| - 1 == headers[header].capacity
      modifies this`partial, this`words, this`partials
      ensures PartialOk(partials, partial, words, slabs[header := chain[1..]]) && words.Keys == old(words.Keys)
      ensures WritesIn(old(words), words, slabs.Keys)
    {
      hide PartialOk;
      if headers[header].IsFull() {
        UnlinkPartial(header, 0, slabs[header := []]);
        assert chain[1..] == [];
      } else {
        PartialKeep(partials, partial, words, slabs, header, chain[1..]);
      }
    }

    method CountTaken()
      modifies this`stats
      ensures stats == WithObj(layout, old(stats))
    {
      stats := stats.(allocCount := stats.allocCount + 1);
      stats := stats.(usedBytes := stats.usedBytes + layout.size);
      if stats.usedBytes > stats.peakBytes {
        stats := stats.(peakBytes := stats.usedBytes);
      }
    }

    /** Allocate a slot; its address. Without a slab that has room the cache grows first. */
    method Alloc() returns (r: Option<nat>, ghost o: Option<Obj>)
      requires Valid()
      modifies this`partial, this`headers, this`words, this`links, this`stats, this`slabs, this`partials, this`live
      modifies buddy`ram, buddy`lists, buddy`live, buddy`stats, buddy.freeLists, buddy.bitmaps
      ensures Valid() && AllocObj(Conf(), old(Abs()), o, Abs())
      ensures r.Some? == o.Some? && (r.Some? ==> r.value == layout.Slot(o.value.slab, o.value.index))
      ensures r.Some? ==> r.value == o.value.slab + layout.Stride() + o.value.index * layout.size
      ensures live == if o.Some? then old(live) + {o.value} else old(live)
      ensures o.Some? ==> o.value !in old(live)
      ensures r.None? ==> stats == old(stats)
      ensures r.Some? ==> StatsAfterAlloc(layout, old(stats), old(partials) == [], stats)
      ensures r.Some? && old(partials) != [] ==> o.value.slab == old(partials)[0]
      ensures LiveUntouched(layout, old(Mem()), Mem(), old(live)) && OwnOnly(layout, old(Mem()), Mem(), slabs.Keys)
      ensures WritesIn(old(buddy.ram), buddy.ram, FreePages(old(buddy.Abs())))
      ensures WordsKept(old(buddy.ram), buddy.ram, LivePages(old(buddy.Abs())))
    {
      hide Held, CacheShape, BuddyAllocator.Valid, GrowStep, LiveWords, TakeSlot, WithObj, WithSlab, HasRoom,
        Layout.Slot, LiveUntouched, OnlyHeaders, WritesIn, WordsKept, PagesOf, StatsAfterAlloc, LinksIn, OwnOnly;
      ghost var s := Abs();
      AllocCounts(layout, stats);
      LiveApart(buddy);
      WritesNone(buddy.ram, FreePages(s.buddy));
      PartialHead();
      RoomIff(partials, partial, words, s);
      ghost var grown: Option<nat> := None;
      if partial == NIL {
        var ok: bool;
        ok, grown := Grow();
        if !ok {
          assert FirstSlot(grown, Abs(), None, Abs());
          KeepUntouched(old(Mem()), old(live));
          OwnWritten(layout, old(Mem()), Mem(), slabs.Keys);
          LiveSafe(old(buddy.ram), buddy.ram, FreePages(s.buddy), LivePages(s.buddy));
          return None, None;
        }
        GrownFirst(Conf(), s, grown.value, Abs());
      } else {
        SameWordsSelf(layout, links, live);
        OnlySelf(headers, words, slabs.Keys);
        LinksSame(layout, links, slabs.Keys);
      }
      ghost var mid, m1 := Abs(), Mem();
      var ptr;
      ghost var got;
      ptr, got := TakeFirst();
      if grown.Some? {
        assert FirstSlot(grown, mid, Some(got), Abs());
      }
      SameSlabs(mid, got, Abs());
      OnlyTwice(old(Mem()), m1, Mem(), slabs.Keys);
      KeepUntouched(old(Mem()), old(live));
      OwnWritten(layout, old(Mem()), Mem(), slabs.Keys);
      LiveSafe(old(buddy.ram), buddy.ram, FreePages(s.buddy), LivePages(s.buddy));
      SlotAddress(layout, got);
      return Some(ptr), Some(got);
    }

    lemma KeepUntouched(m: Words, some: set<Obj>)
      requires Valid() && some <= live && LiveWords(layout, m.links, links, some)
      requires OnlyHeaders(m.headers, headers, slabs.Keys) && WritesIn(m.words, words, slabs.Keys)
      ensures LiveUntouched(layout, m, Mem(), some)
    {
      hide AllHold, PartialOk, StatsOk, BuddyAllocator.Valid, Backed, LiveObj, LiveWords, OnlyHeaders, WritesIn,
        LiveUntouched, Busy, Layout.Capacity, Placed;
      AllPlaced(Conf(), Abs(), layout);
      hide CacheShape, Layout.Ok;
      SlotsUntouched(layout, Conf(), slabs, m, Mem(), some);
    }

    lemma PartialHead()
      requires Held()
      ensures PartialOk(partials, partial, words, slabs)
    {
    }

    /** Free the slot at `ptr`: the header is found by masking, the index by division. */
    method Dealloc(ptr: nat, ghost o: Obj)
      requires Valid() && o in live && ptr == layout.Slot(o.slab, o.index)
      modifies this`partial, this`headers, this`words, this`links, this`stats, this`slabs, this`partials, this`live
      modifies buddy`ram, buddy`lists, buddy`live, buddy`stats, buddy.freeLists, buddy.bitmaps
      ensures Valid() && DeallocObj(Conf(), old(Abs()), o, Abs())
      ensures live == old(live) - {o}
      ensures StatsAfterFree(layout, old(stats), o.slab !in slabs, stats)
      ensures LiveUntouched(layout, old(Mem()), Mem(), live) && OwnOnly(layout, old(Mem()), Mem(), old(slabs.Keys))
      ensures WritesIn(old(buddy.ram), buddy.ram, FreePages(buddy.Abs()))
      ensures WordsKept(old(buddy.ram), buddy.ram, LivePages(buddy.Abs()))
    {
      hide AllHold, PartialOk, StatsOk, CacheShape, Busy, BuddyAllocator.Valid, Backed, LiveObj, Layout.Ok, Layout.Slot,
        Layout.Mask, Layout.IndexOf, LiveWords, LiveUntouched, Placed, DeallocObj, Config.SlabAt, Config.BlockOf,
        Layout.Capacity, Layout.SlabBytes, StatsAfterFree, OnlyHeaders, WritesIn, OnlyAt, WordsKept, PagesOf,
        LinksIn, OwnOnly;
      ghost var s := Abs();
      LiveFacts(o);
      FoundAgain(layout, o.slab, o.index, ptr);
      var slab := layout.Mask(ptr);
      var idx := layout.IndexOf(ptr, slab);
      var wasFull := PushSlot(ptr, slab, idx);
      WordsOfOthers(layout, old(links), links, Conf(), slabs, o, live);
      OneSlotWritten(layout, old(links), links, s.slabs.Keys, o.slab, o.index);
      EndLife(slab, wasFull, s, o);
      SlotsUntouched(layout, Conf(), s.slabs, old(Mem()), Mem(), live);
      OwnWritten(layout, old(Mem()), Mem(), s.slabs.Keys);
      LiveApart(buddy);
      LiveSafe(old(buddy.ram), buddy.ram, FreePages(buddy.Abs()), LivePages(buddy.Abs()));
    }

    /** What is left of a free once the slot is back on its slab's chain. */
    method EndLife(slab: nat, wasFull: bool, ghost s: Cache, ghost o: Obj)
      requires slab in slabs && slab in words && slab in headers && o.slab == slab && o in live
      requires wasFull == (slabs[slab] == []) && headers[slab].IsEmpty() == (|slabs[slab]| + 1 == capacity)
      requires Conf().SlabAt(slab) && Conf().BlockOf(slab) in buddy.live
      requires AllHold(layout, headers, links, slabs[slab := [o.index] + slabs[slab]])
      requires PartialOk(partials, partial, words, slabs)
      requires Sized() && Memory() && buddy.Valid() && s == Abs() && CacheInv(Conf(), s)
      requires LiveAre(Conf(), slabs, live) && LiveObj(Conf(), slabs, o)
      requires StatsOk(layout, stats, |slabs.Keys|, |live|)
      modifies this`partial, this`words, this`partials, this`slabs, this`stats, this`live
      modifies buddy`ram, buddy`lists, buddy`live, buddy`stats, buddy.freeLists, buddy.bitmaps
      ensures live == old(live) - {o}
      ensures StatsAfterFree(layout, old(stats), o.slab !in slabs, stats)
      ensures WritesIn(old(words), words, old(slabs.Keys))
      ensures DeallocObj(Conf(), s, o, Abs()) && Valid()
      ensures WritesIn(old(buddy.ram), buddy.ram, FreePages(buddy.Abs())) && buddy.ram.Keys == old(buddy.ram.Keys)
    {
      hide AllHold, PartialOk, StatsOk, CacheShape, Busy, BuddyAllocator.Valid, Backed, LiveObj, Layout.Ok, DeallocObj,
        Config.SlabAt, Config.BlockOf, Kept, Layout.Capacity, Layout.SlabBytes, WithoutObj, WithoutSlab, CountsSlab,
        WritesIn, LiveAre, PagesOf, StatsAfterFree;
      ghost var counts := stats;
      Settle(slab, wasFull, s, o);
      FreedOne(Conf(), s, o, Abs(), live);
      StatsFreed(layout, stats, |slabs.Keys|, |live| - 1);
      live := live - {o};
      FreeCounts(layout, counts, stats, slab !in slabs);
      CountFreed();
    }

    /** A slab that was full is listed again; one that is empty goes back to the buddy. */
    method Settle(slab: nat, wasFull: bool, ghost s: Cache, ghost o: Obj)
      requires Sized() && buddy.Valid() && s == Abs() && o.slab == slab && LiveObj(Conf(), slabs, o)
      requires Conf().SlabAt(slab) && Conf().BlockOf(slab) in buddy.live
      requires PartialOk(partials, partial, words, slabs) && slab in words
      requires AllHold(layout, headers, links, slabs[slab := [o.index] + slabs[slab]])
      requires wasFull == (slabs[slab] == [])
      requires slab in headers && headers[slab].IsEmpty() == (|slabs[slab]| + 1 == capacity)
      requires StatsOk(layout, stats, |slabs.Keys|, |live|)
      modifies this`partial, this`words, this`partials, this`slabs, this`stats
      modifies buddy`ram, buddy`lists, buddy`live, buddy`stats, buddy.freeLists, buddy.bitmaps
      ensures buddy.Valid() && DeallocObj(Conf(), s, o, Abs()) && words.Keys == old(words.Keys)
      ensures AllHold(layout, headers, links, slabs) && PartialOk(partials, partial, words, slabs)
      ensures StatsOk(layout, stats, |slabs.Keys|, |live|)
      ensures slab in slabs ==> stats == old(stats)
      ensures slab !in slabs ==> CountsSlab(layout, old(stats)) && stats == WithoutSlab(layout, old(stats))
      ensures WritesIn(old(words), words, old(slabs.Keys))
      ensures WritesIn(old(buddy.ram), buddy.ram, FreePages(buddy.Abs())) && buddy.ram.Keys == old(buddy.ram.Keys)
    {
      hide AllHold, PartialOk, StatsOk, BuddyAllocator.Valid, Layout.Ok, DeallocStep, WithoutSlab, CountsSlab,
        WritesIn, PagesOf;
      WritesNone(buddy.ram, FreePages(s.buddy));
      ghost var chain := [o.index] + slabs[slab];
      if !wasFull && headers[slab].IsEmpty() {
        DropHolds(layout, headers, links, slabs, slab, chain);
        assert slabs.Keys == (slabs - {slab}).Keys + {slab};
        StatsReleased(layout, stats, |slabs.Keys| - 1, |live|);
        ghost var i := InPartials(partials, partial, words, slabs, slab);
        ReleaseSlab(slab, i);
      } else {
        assert slabs[slab := chain].Keys == slabs.Keys;
        KeepSlab(slab, wasFull, chain);
      }
    }

    method CountFreed()
      requires stats.usedBytes >= layout.size
      modifies this`stats
      ensures stats == WithoutObj(layout, old(stats))
    {
      stats := stats.(deallocCount := stats.deallocCount + 1);
      stats := stats.(usedBytes := stats.usedBytes - layout.size);
      stats := stats.(freeBytes := stats.freeBytes + layout.size);
    }

    method CountReleased()
      requires Sized() && CountsSlab(layout, stats)
      modifies this`stats
      ensures stats == WithoutSlab(layout, old(stats))
    {
      stats := stats.(totalBytes := stats.totalBytes - layout.SlabBytes());
      stats := stats.(freeBytes := stats.freeBytes - capacity * layout.size);
    }

    lemma LiveFacts(o: Obj)
      requires Valid() && o in live
      ensures layout.Ok() && o.slab in slabs && o.index < capacity == layout.Capacity() && o.index !in slabs[o.slab]
      ensures o.slab % layout.SlabBytes() == 0 && Placed(layout, slabs)
      ensures Conf().SlabAt(o.slab) && Conf().BlockOf(o.slab) in buddy.live
      ensures layout.Slot(o.slab, o.index) in links && o.slab in words
    {
      BuddyInv(buddy);
      SlotInside(layout, o.slab, o.index);
      InBlocks(Conf(), slabs.Keys, o.slab);
      SlabBacked(Conf(), buddy.Abs(), buddy.owned, o.slab, links.Keys);
      SlabBacked(Conf(), buddy.Abs(), buddy.owned, o.slab, words.Keys);
      AllPlaced(Conf(), Abs(), layout);
      hide BuddyAllocator.Valid, AllHold, PartialOk, StatsOk, Inv, Backed, SlabBlocks, ChainOk;
    }

    /** Put a live slot in front of its slab's chain. */
    method PushSlot(ptr: nat, slab: nat, idx: nat) returns (wasFull: bool)
      requires Sized() && AllHold(layout, headers, links, slabs) && Placed(layout, slabs)
      requires slab in slabs && idx < capacity && idx !in slabs[slab] && ptr == layout.Slot(slab, idx) && ptr in links
      modifies this`headers, this`links
      ensures headers.Keys == old(headers.Keys) && links.Keys == old(links.Keys) && OnlyAt(old(links), links, ptr)
      ensures AllHold(layout, headers, links, slabs[slab := [idx] + slabs[slab]])
      ensures wasFull == (slabs[slab] == [])
      ensures slab in headers && headers[slab].IsEmpty() == (|slabs[slab]| + 1 == capacity)
      ensures OnlyHeaders(old(headers), headers, slabs.Keys)
    {
      hide AllHold, Placed, Layout.Ok, Layout.Slot, Layout.Capacity;
      PushHolds(layout, headers, links, slabs, slab, idx);
      ghost var h := headers;
      wasFull := headers[slab].IsFull();
      links := links[ptr := headers[slab].freeHead];
      headers := headers[slab := headers[slab].(freeHead := idx)];
      headers := headers[slab := headers[slab].(inUse := headers[slab].inUse - 1)];
      assert headers == h[slab := h[slab].(freeHead := idx, inUse := h[slab].inUse - 1)];
    }

    /** Keep a slab that has a free slot again. */
    method KeepSlab(slab: nat, wasFull: bool, ghost chain: seq<nat>)
      requires PartialOk(partials, partial, words, slabs) && slab in slabs && slab in words && chain != []
      requires wasFull == (slabs[slab] == [])
      modifies this`partial, this`words, this`partials, this`slabs
      ensures slabs == old(slabs)[slab := chain] && words.Keys == old(words.Keys)
      ensures PartialOk(partials, partial, words, slabs)
      ensures WritesIn(old(words), words, old(slabs.Keys))
    {
      hide PartialOk;
      ghost var i := InPartials(partials, partial, words, slabs, slab);
      if wasFull {
        LinkPartial(slab, chain);
      } else {
        PartialKeep(partials, partial, words, slabs, slab, chain);
      }
      slabs := slabs[slab := chain];
    }

    /** Give a slab without live slots back to the buddy. */
    method ReleaseSlab(slab: nat, ghost i: nat)
      requires PartialOk(partials, partial, words, slabs) && i < |partials| && partials[i] == slab && Sized()
      requires buddy.Valid() && Conf().SlabAt(slab) && Conf().BlockOf(slab) in buddy.live
      requires CountsSlab(layout, stats)
      modifies this`partial, this`words, this`partials, this`slabs, this`stats
      modifies buddy`ram, buddy`lists, buddy`live, buddy`stats, buddy.freeLists, buddy.bitmaps
      ensures slabs == old(slabs) - {slab} && words.Keys == old(words.Keys)
      ensures PartialOk(partials, partial, words, slabs) && buddy.Valid()
      ensures DeallocStep(old(buddy.Abs()), Conf().BlockOf(slab), buddy.Abs(), buddy.maxOrder)
      ensures stats == WithoutSlab(layout, old(stats))
      ensures WritesIn(old(words), words, old(slabs.Keys))
      ensures WritesIn(old(buddy.ram), buddy.ram, FreePages(buddy.Abs())) && buddy.ram.Keys == old(buddy.ram.Keys)
    {
      hide PartialOk, BuddyAllocator.Valid, DeallocStep, Layout.Ok, CountsSlab, WithoutSlab, PagesOf, FreeSet, Pow2,
        Config.SlabBytes, Layout.Capacity, Layout.SlabBytes, Without, WritesIn;
      UnlinkPartial(slab, i, slabs - {slab});
      slabs := slabs - {slab};
      buddy.DeallocPages(slab, layout.order);
      CountReleased();
    }
  }

  /** The list is empty exactly when no slab has room. */
  lemma RoomIff(partials: seq<nat>, head: int, words: Ram, s: Cache)
    requires PartialOk(partials, head, words, s.slabs)
    ensures head == NIL <==> partials == []
    ensures partials != [] <==> HasRoom(s)
  {
    assert partials != [] ==> partials[0] in partials && partials[0] in words;
  }

  lemma GrownFirst(c: Config, s: Cache, a: nat, s': Cache)
    requires CacheInv(c, s) && GrowStep(c, s, Some(a), s')
    ensures OthersBusy(c.capacity, s'.slabs, a)
  {
    GrowKeeps(c, s, Some(a), s');
    hide GrowStep, CacheShape;
  }

  /** Writing the word of one live slot leaves that of every other alone. */
  lemma WordsOfOthers(l: Layout, links: Links, links': Links, c: Config, slabs: map<nat, seq<nat>>, o: Obj,
                      live: set<Obj>)
    requires l.Ok() && Placed(l, slabs) && c.capacity == l.Capacity() && LiveObj(c, slabs, o)
    requires OnlyAt(links, links', l.Slot(o.slab, o.index)) && forall p | p in live :: LiveObj(c, slabs, p)
    ensures LiveWords(l, links, links', live - {o})
  {
    forall p, q | p in live - {o} && l.InSlot(p.slab, p.index, q) && q in links
      ensures q in links' && links'[q] == links[q]
    {
      assert LiveObj(c, slabs, p);
      NotTheWord(l, p.slab, p.index, o.slab, o.index, q);
    }
  }

  /** A byte of one slot is not the first of another. */
  lemma NotTheWord(l: Layout, a: nat, i: nat, b: nat, j: nat, q: nat)
    requires l.Ok() && i < l.Capacity() && j < l.Capacity() && (a != b || i != j)
    requires a % l.SlabBytes() == 0 && b % l.SlabBytes() == 0 && l.InSlot(a, i, q)
    ensures q != l.Slot(b, j)
  {
    SizePositive(l);
    if q == l.Slot(b, j) {
      SlotsDisjoint(l, a, i, b, j, q);
    }
  }

  ghost predicate OnlyAt(links: Links, links': Links, a: nat) {
    links'.Keys == links.Keys && forall p | p in links && p != a :: links'[p] == links[p]
  }

  lemma InPartials(partials: seq<nat>, head: int, words: Ram, slabs: map<nat, seq<nat>>, a: nat) returns (i: nat)
    requires PartialOk(partials, head, words, slabs) && a in slabs
    ensures a in partials <==> slabs[a] != []
    ensures a in partials ==> i < |partials| && partials[i] == a
  {
    i := 0;
    if a in partials {
      i :| 0 <= i < |partials| && partials[i] == a;
    }
  }

  lemma FoundAgain(l: Layout, slab: nat, i: nat, ptr: nat)
    requires l.Ok() && i < l.Capacity() && slab % l.SlabBytes() == 0 && ptr == l.Slot(slab, i)
    ensures l.size > 0 && l.Mask(ptr) == slab && ptr >= slab + l.Stride() && l.IndexOf(ptr, slab) == i
  {
    SlotFound(l, slab, i, ptr);
    hide Layout.Mask, Layout.IndexOf, Layout.Stride, Layout.Capacity;
  }

  lemma DropHolds(l: Layout, h: Headers, links: Links, slabs: map<nat, seq<nat>>, a: nat, chain: seq<nat>)
    requires AllHold(l, h, links, slabs[a := chain])
    ensures AllHold(l, h, links, slabs - {a})
  {
    var before := slabs[a := chain];
    forall b | b in slabs - {a}
      ensures SlabHolds(l, h, links, b, slabs[b])
    {
      assert b in before && before[b] == slabs[b];
    }
  }

  /** Every slab but one has a live slot. */
  ghost predicate OthersBusy(capacity: nat, slabs: map<nat, seq<nat>>, a: nat) {
    capacity >= 2 ==> forall b | b in slabs && b != a :: |slabs[b]| < capacity
  }

  lemma TakeFirstKeeps(c: Config, s: Cache, o: Obj, s': Cache, live: set<Obj>)
    requires CacheShape(c, s) && TakeSlot(s, o, s') && OthersBusy(c.capacity, s.slabs, o.slab)
    requires LiveAre(c, s.slabs, live)
    ensures CacheShape(c, s') && Busy(c, s'.slabs)
    ensures o !in live && LiveAre(c, s'.slabs, live + {o})
  {
    TakeSlotKeeps(c, s, o, s');
    hide CacheShape, Busy, LiveObj, Kept;
  }

  lemma FreedOne(c: Config, s: Cache, o: Obj, s': Cache, live: set<Obj>)
    requires CacheInv(c, s) && DeallocObj(c, s, o, s') && LiveAre(c, s.slabs, live)
    ensures CacheInv(c, s') && o in live && LiveAre(c, s'.slabs, live - {o})
  {
    hide CacheInv, DeallocObj, Kept, LiveObj;
    DeallocObjKeeps(c, s, o, s');
  }

  lemma FirstPartial(partials: seq<nat>, head: int, words: Ram, slabs: map<nat, seq<nat>>)
    requires PartialOk(partials, head, words, slabs) && partials != []
    ensures head == partials[0] && head in slabs && slabs[head] != []
  {
  }

  lemma EmptyShape(c: Config, b: BuddyAllocator)
    requires b.Valid() && c.base == b.base && c.maxOrder == b.maxOrder && c.order < c.maxOrder && c.capacity > 0
    ensures CacheShape(c, Cache(b.Abs(), map[])) && Busy(c, map[])
    ensures forall o :: !LiveObj(c, map[], o)
  {
    BuddyInv(b);
    NoBlocks(c);
    hide Inv, BuddyAllocator.Valid, SlabBlocks, SlabsAt;
  }

  lemma EmptyHolds(l: Layout, h: Headers, words: Ram, links: Links)
    requires NIL !in words
    ensures AllHold(l, h, links, map[]) && PartialOk([], NIL, words, map[])
    ensures StatsOk(l, AllocStats(0, 0, 0, 0, 0, 0), 0, 0)
  {
  }

  lemma NoBlocks(c: Config)
    ensures var none: map<nat, seq<nat>> := map[]; SlabsAt(c, none.Keys) && SlabBlocks(c, none.Keys) == {}
  {
  }

  /** Live slots whose words are the same are untouched: no header lies in a slot. */
  lemma SlotsUntouched(l: Layout, c: Config, slabs: map<nat, seq<nat>>, m: Words, m': Words, live: set<Obj>)
    requires l.Ok() && Placed(l, slabs) && c.capacity == l.Capacity() && forall o | o in live :: LiveObj(c, slabs, o)
    requires LiveWords(l, m.links, m'.links, live)
    requires OnlyHeaders(m.headers, m'.headers, slabs.Keys) && WritesIn(m.words, m'.words, slabs.Keys)
    ensures LiveUntouched(l, m, m', live)
  {
    forall o, q: nat | o in live && l.InSlot(o.slab, o.index, q)
      ensures SameAt(m, m', q)
    {
      assert LiveObj(c, slabs, o) && SameWords(l, m.links, m'.links, o);
      NoHeaderAt(l, o.slab, o.index, q);
    }
  }

  lemma NoHeaderAt(l: Layout, slab: nat, i: nat, q: nat)
    requires l.Ok() && i < l.Capacity() && slab % l.SlabBytes() == 0 && l.InSlot(slab, i, q)
    ensures q % l.SlabBytes() != 0
  {
    hide Layout.Ok, Layout.Capacity, Layout.SlabBytes;
    SlotInside(l, slab, i);
    SlotFound(l, slab, i, q);
    if q % l.SlabBytes() == 0 {
      BlockFound(q, l.SlabBytes(), q);
    }
  }

  lemma SameSlabs(s: Cache, o: Obj, s': Cache)
    requires TakeSlot(s, o, s')
    ensures s'.slabs.Keys == s.slabs.Keys
  {
  }

  lemma OnlySelf(h: Headers, words: Ram, at: set<nat>)
    ensures OnlyHeaders(h, h, at) && WritesIn(words, words, at)
  {
  }

  lemma LinksSame(l: Layout, links: Links, at: set<nat>)
    ensures LinksIn(l, links, links, at)
  {
  }

  lemma OnlyTwice(m0: Words, m1: Words, m2: Words, at: set<nat>)
    requires OnlyHeaders(m0.headers, m1.headers, at) && WritesIn(m0.words, m1.words, at)
    requires OnlyHeaders(m1.headers, m2.headers, at) && WritesIn(m1.words, m2.words, at)
    ensures OnlyHeaders(m0.headers, m2.headers, at) && WritesIn(m0.words, m2.words, at)
  {
  }

  lemma SameWordsSelf(l: Layout, links: Links, live: set<Obj>)
    ensures LiveWords(l, links, links, live)
  {
  }

  /** The buddy had nothing. */
  lemma GrowNone(c: Config, s: Cache, mid: State)
    requires AllocStep(s.buddy, c.order, None, mid)
    ensures GrowStep(c, s, None, s) && mid == s.buddy
  {
  }

  /** What is known of the block the buddy handed out at address `a`. */
  lemma GrowAt(c: Config, s: Cache, a: nat, mid: State)
    requires a >= c.base && (a - c.base) % PAGE_BYTES == 0
    requires AllocStep(s.buddy, c.order, Some(c.BlockOf(a)), mid)
    ensures c.AddressOf(c.BlockOf(a)) == a && c.BlockOf(a) in mid.live
    ensures a % c.SlabBytes() == 0 ==> GrowStep(c, s, Some(a), Cache(mid, s.slabs[a := AllSlots(c.capacity)]))
  {
  }

  /** A misaligned block goes straight back. */
  lemma GrowBack(c: Config, s: Cache, a: nat, mid: State, s': Cache)
    requires a >= c.base && (a - c.base) % PAGE_BYTES == 0 && a % c.SlabBytes() != 0
    requires AllocStep(s.buddy, c.order, Some(c.BlockOf(a)), mid)
    requires s'.slabs == s.slabs && DeallocStep(mid, c.BlockOf(a), s'.buddy, c.maxOrder)
    ensures GrowStep(c, s, None, s')
  {
  }

  /** A failed grow leaves the shape of the cache and the meaning of `live` alone. */
  lemma SameLive(c: Config, s: Cache, s': Cache)
    requires CacheInv(c, s) && GrowStep(c, s, None, s')
    ensures CacheShape(c, s') && s'.slabs == s.slabs && s'.buddy.live == s.buddy.live
    ensures forall o :: LiveObj(c, s'.slabs, o) <==> LiveObj(c, s.slabs, o)
  {
    GrowKeeps(c, s, None, s');
    GrowShape(c, s, None, s');
    hide CacheInv, CacheShape, GrowStep;
  }

  lemma BlockFacts(c: Config, s: Cache, b: BuddyAllocator, a: nat)
    requires b.Valid() && CacheInv(c, s)
    requires GrowStep(c, s, Some(a), Cache(b.Abs(), s.slabs[a := AllSlots(c.capacity)]))
    ensures LivePages(b.Abs()) <= b.owned && a !in s.slabs
  {
    GrowKeeps(c, s, Some(a), Cache(b.Abs(), s.slabs[a := AllSlots(c.capacity)]));
    hide GrowStep, CacheInv, PagesOf;
  }

  lemma AllPlaced(c: Config, s: Cache, l: Layout)
    requires CacheShape(c, s) && c.order == l.order && c.capacity == l.Capacity()
    ensures Placed(l, s.slabs)
  {
  }

  /** Words of live slots lie outside a fresh slab. */
  lemma WordsOutside(c: Config, s: Cache, l: Layout, links: Links, links': Links, a: nat, live: set<Obj>)
    requires CacheShape(c, s) && c.order == l.order && c.capacity == l.Capacity() && l.Ok()
    requires a !in s.slabs && a % l.SlabBytes() == 0
    requires SameOutside(l, links, links', a) && forall o | o in live :: LiveObj(c, s.slabs, o)
    ensures LiveWords(l, links, links', live)
  {
    AllPlaced(c, s, l);
    forall o, q | o in live && l.InSlot(o.slab, o.index, q) && q in links
      ensures q in links' && links'[q] == links[q]
    {
      assert LiveObj(c, s.slabs, o);
      OtherSlab(l, a, o.slab, o.index, q);
    }
  }

  lemma MaskFixed(l: Layout, a: nat)
    ensures l.Mask(a) == a <==> a % l.SlabBytes() == 0
  {
  }

  /** No word of a slot has changed. */
  ghost predicate SameWords(l: Layout, links: Links, links': Links, o: Obj)
  {
    forall q | l.InSlot(o.slab, o.index, q) && q in links :: q in links' && links'[q] == links[q]
  }

  ghost predicate LiveWords(l: Layout, links: Links, links': Links, live: set<Obj>) {
    forall p | p in live :: SameWords(l, links, links', p)
  }

  lemma NotPartial(partials: seq<nat>, head: int, words: Ram, slabs: map<nat, seq<nat>>, a: nat)
    requires PartialOk(partials, head, words, slabs) && a !in slabs && a in words
    ensures a !in partials && PartialOk(partials, head, words[a := Node(NIL, NIL)], slabs)
  {
  }

  lemma ThreadNext(l: Layout, links: Links, links': Links, a: nat, n: nat, next: nat)
    requires l.Ok() && n < l.Capacity() && a % l.SlabBytes() == 0
    requires forall p: nat | a <= p < a + l.SlabBytes() :: p in links
    requires ThreadedTo(l, links, links', a, n) && next == if n + 1 < l.Capacity() then n + 1 else END_OF_CHAIN
    ensures ThreadedTo(l, links, links'[l.Slot(a, n) := next], a, n + 1)
  {
    SlotInside(l, a, n);
    forall j: nat | j < n
      ensures l.Slot(a, j) != l.Slot(a, n)
    {
      SlotsApart(l, a, j, a, n);
    }
    hide Layout.Slot, Layout.SlabBytes, Layout.Capacity, Layout.Ok;
  }
}