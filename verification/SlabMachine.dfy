/** A slab cache over the buddy allocator as a state machine: which blocks the cache
    holds, which slots are live, and what every run of calls keeps. */
module SlabMachine {
  import opened Arith
  import opened Bits
  import opened Blocks
  import opened BuddyTheory
  import opened BuddyMachine
  import opened BuddyRuns
  import opened FreeList
  import opened Wrappers

  const PAGE_BYTES := 4096

  /** A slot: the address of its slab's header, and its index. */
  datatype Obj = Obj(slab: nat, index: nat)

  /** `slabs` gives each slab's chain of free slot indices. */
  datatype Cache = Cache(buddy: State, slabs: map<nat, seq<nat>>)

  datatype Config = Config(base: nat, order: nat, capacity: nat, maxOrder: nat) {

    function SlabBytes(): (r: nat)
      ensures r > 0
    {
      PAGE_BYTES * Pow2(order)
    }

    function BlockOf(slab: nat): Block
      requires slab >= base
    {
      Block((slab - base) / PAGE_BYTES, order)
    }

    function AddressOf(b: Block): nat { base + PAGE_BYTES * b.page }

    /** Where the header of a slab may be. */
    ghost predicate SlabAt(slab: nat) {
      slab >= base && (slab - base) % PAGE_BYTES == 0 && slab % SlabBytes() == 0
    }
  }

  /** An index chain visits each of its slots once and stays in the slab. */
  ghost predicate ChainOk(chain: seq<nat>, capacity: nat) {
    NoDup(chain) && forall i | 0 <= i < |chain| :: chain[i] < capacity
  }

  ghost predicate SlabsAt(c: Config, slabs: set<nat>) {
    forall a | a in slabs :: c.SlabAt(a)
  }

  ghost function SlabBlocks(c: Config, slabs: set<nat>): set<Block>
    requires SlabsAt(c, slabs)
  {
    set a | a in slabs :: c.BlockOf(a)
  }

  /** The cache's slabs are live buddy blocks with proper chains. */
  ghost predicate CacheShape(c: Config, s: Cache) {
    && Inv(s.buddy, c.maxOrder) && c.order < c.maxOrder && c.capacity > 0
    && SlabsAt(c, s.slabs.Keys)
    && SlabBlocks(c, s.slabs.Keys) <= s.buddy.live
    && (forall a | a in s.slabs :: ChainOk(s.slabs[a], c.capacity))
  }

  /** No slab is without a live slot, unless slabs have only one. */
  ghost predicate Busy(c: Config, slabs: map<nat, seq<nat>>) {
    c.capacity >= 2 ==> forall a | a in slabs :: |slabs[a]| < c.capacity
  }

  /** Between calls. */
  ghost predicate CacheInv(c: Config, s: Cache) {
    CacheShape(c, s) && Busy(c, s.slabs)
  }

  /** Live blocks that are not slabs of this cache. */
  ghost function Others(c: Config, s: Cache): set<Block>
    requires SlabsAt(c, s.slabs.Keys)
  {
    s.buddy.live - SlabBlocks(c, s.slabs.Keys)
  }

  ghost predicate LiveObj(c: Config, slabs: map<nat, seq<nat>>, o: Obj) {
    o.slab in slabs && o.index < c.capacity && o.index !in slabs[o.slab]
  }

  ghost predicate HasRoom(s: Cache) {
    exists a :: a in s.slabs && s.slabs[a] != []
  }

  /** The chain of a fresh slab: every index in order. */
  function AllSlots(capacity: nat): seq<nat> { seq(capacity, i requires 0 <= i < capacity => i) }

  // ------------------------------------------------------------------ steps

  /** Pop the head of a slab's chain. */
  ghost predicate TakeSlot(s: Cache, o: Obj, s': Cache) {
    && o.slab in s.slabs && s.slabs[o.slab] != [] && o.index == s.slabs[o.slab][0]
    && s' == s.(slabs := s.slabs[o.slab := s.slabs[o.slab][1..]])
  }

  /** Get one more slab from the buddy, unless there is none or it is not aligned to its
      own size; a misaligned one goes back. */
  ghost predicate GrowStep(c: Config, s: Cache, grown: Option<nat>, s': Cache) {
    exists got, mid :: AllocStep(s.buddy, c.order, got, mid) && GrowWith(c, s, got, mid, grown, s')
  }

  ghost predicate GrowWith(c: Config, s: Cache, got: Option<Block>, mid: State, grown: Option<nat>, s': Cache) {
    if got.None? then
      grown.None? && s' == s
    else if c.AddressOf(got.value) % c.SlabBytes() == 0 then
      grown == Some(c.AddressOf(got.value)) && s' == Cache(mid, s.slabs[c.AddressOf(got.value) := AllSlots(c.capacity)])
    else
      grown.None? && s'.slabs == s.slabs && DeallocStep(mid, got.value, s'.buddy, c.maxOrder)
  }

  ghost predicate AllocObj(c: Config, s: Cache, got: Option<Obj>, s': Cache) {
    if HasRoom(s) then
      got.Some? && TakeSlot(s, got.value, s')
    else
      exists grown, mid :: GrowStep(c, s, grown, mid) && FirstSlot(grown, mid, got, s')
  }

  ghost predicate FirstSlot(grown: Option<nat>, mid: Cache, got: Option<Obj>, s': Cache) {
    if grown.None? then got.None? && s' == mid
    else got.Some? && got.value.slab == grown.value && TakeSlot(mid, got.value, s')
  }

  /** Push a live slot on its slab's chain; a slab whose last live slot it was goes back,
      unless the slab was full. */
  ghost predicate DeallocObj(c: Config, s: Cache, o: Obj, s': Cache) {
    && LiveObj(c, s.slabs, o) && o.slab >= c.base
    && var chain := s.slabs[o.slab];
       if chain != [] && |chain| + 1 == c.capacity then
         s'.slabs == s.slabs - {o.slab} && DeallocStep(s.buddy, c.BlockOf(o.slab), s'.buddy, c.maxOrder)
       else
         s' == s.(slabs := s.slabs[o.slab := [o.index] + chain])
  }

  // ----------------------------------------------------------------- blocks

  lemma AddressBlock(c: Config, b: Block)
    requires b.order == c.order
    ensures c.AddressOf(b) >= c.base && c.BlockOf(c.AddressOf(b)) == b
    ensures (c.AddressOf(b) - c.base) % PAGE_BYTES == 0
  {
  }

  lemma InBlocks(c: Config, slabs: set<nat>, a: nat)
    requires SlabsAt(c, slabs)
    ensures a in slabs ==> c.BlockOf(a) in SlabBlocks(c, slabs)
  {
  }

  lemma BlocksPlus(c: Config, slabs: set<nat>, a: nat)
    requires SlabsAt(c, slabs) && c.SlabAt(a)
    ensures SlabsAt(c, slabs + {a}) && SlabBlocks(c, slabs + {a}) == SlabBlocks(c, slabs) + {c.BlockOf(a)}
  {
  }

  lemma BlocksMinus(c: Config, slabs: set<nat>, a: nat)
    requires SlabsAt(c, slabs) && a in slabs
    ensures SlabsAt(c, slabs - {a}) && SlabBlocks(c, slabs - {a}) == SlabBlocks(c, slabs) - {c.BlockOf(a)}
  {
  }

  // ------------------------------------------------------------ growing

  /** A block handed out by the buddy is aligned to its own size exactly when the buddy's
      base is. */
  lemma GrownAligned(c: Config, b: Block)
    requires b.IsAligned() && b.order == c.order
    ensures c.AddressOf(b) % c.SlabBytes() == 0 <==> c.base % c.SlabBytes() == 0
  {
    var bytes := c.SlabBytes();
    DivBounds(b.page, Pow2(c.order));
    var q := b.page / Pow2(c.order);
    assert PAGE_BYTES * b.page == q * bytes;
    MultipleMod(q, bytes);
    SumMod(c.base, PAGE_BYTES * b.page, bytes);
  }

  lemma SumMod(a: nat, b: nat, d: nat)
    requires d > 0 && b % d == 0
    ensures (a + b) % d == a % d
  {
    SumOf(a, b, d, a / d, a % d, b / d);
  }

  lemma SumOf(a: nat, b: nat, d: nat, q: nat, r: nat, e: nat)
    requires a == q * d + r && b == e * d && r < d
    ensures (a + b) % d == r
  {
    assert a + b == (q + e) * d + r;
    DivUnique(a + b, q + e, d, r);
  }

  /** Growing changes the live blocks by the new slab's block, or not at all. */
  lemma GrowKeeps(c: Config, s: Cache, grown: Option<nat>, s': Cache)
    requires CacheInv(c, s) && GrowStep(c, s, grown, s')
    ensures Inv(s'.buddy, c.maxOrder)
    ensures FreePages(s'.buddy) + LivePages(s'.buddy) == FreePages(s.buddy) + LivePages(s.buddy)
    ensures Coalesced(s.buddy.free, c.maxOrder) ==> Coalesced(s'.buddy.free, c.maxOrder)
    ensures grown.None? ==> s'.slabs == s.slabs && s'.buddy.live == s.buddy.live
                            && FreePages(s'.buddy) == FreePages(s.buddy)
    ensures grown.Some? ==>
              (var a := grown.value;
               && a !in s.slabs && c.SlabAt(a) && s'.slabs == s.slabs[a := AllSlots(c.capacity)]
               && c.BlockOf(a) !in s.buddy.live && s'.buddy.live == s.buddy.live + {c.BlockOf(a)})
  {
    var got, mid :| AllocStep(s.buddy, c.order, got, mid) && GrowWith(c, s, got, mid, grown, s');
    hide Inv, PagesOf, Coalesced, AllocStep, Taken, AllocOf, SlabBlocks, Laid;
    StepKeeps(s.buddy, Alloc(c.order, got), mid, c.maxOrder);
    if got.Some? {
      var f := TakenFrom(s.buddy, c.order, got.value, mid);
      AllocEffect(s.buddy, c.order, f, c.maxOrder);
      TakenShape(s.buddy, c.order, f);
      AddressBlock(c, got.value);
      if grown.None? {
        StepKeeps(mid, Dealloc(got.value), s'.buddy, c.maxOrder);
        AllocDeallocRoundTrip(s.buddy, c.order, f, s'.buddy, c.maxOrder);
      } else {
        InBlocks(c, s.slabs.Keys, grown.value);
      }
    }
  }

  lemma TakenFrom(s: State, order: nat, b: Block, s': State) returns (f: Block)
    requires AllocStep(s, order, Some(b), s')
    ensures Taken(s, order, f) && AllocOf(s, order, f) == (b, s')
    ensures f in s.free && order <= f.order
  {
    f :| Taken(s, order, f) && AllocOf(s, order, f) == (b, s');
  }

  lemma TakenShape(s: State, order: nat, f: Block)
    ensures AllocOf(s, order, f).0 == Block(f.page, order)
    ensures AllocOf(s, order, f).1.live == s.live + {Block(f.page, order)}
  {
  }

  /** The cache can grow exactly when the buddy has a large enough block and its base is
      aligned to the slab size. */
  lemma GrowIff(c: Config, s: Cache, grown: Option<nat>, s': Cache)
    requires CacheInv(c, s) && GrowStep(c, s, grown, s')
    ensures grown.Some? <==> (exists f :: f in s.buddy.free && f.order >= c.order) && c.base % c.SlabBytes() == 0
  {
    var got, mid :| AllocStep(s.buddy, c.order, got, mid) && GrowWith(c, s, got, mid, grown, s');
    if got.Some? {
      var f := TakenFrom(s.buddy, c.order, got.value, mid);
      AllocEffect(s.buddy, c.order, f, c.maxOrder);
      TakenShape(s.buddy, c.order, f);
      GrownAligned(c, got.value);
    }
  }

  /** On a buddy without mergeable pairs a failed grow leaves the very same free blocks. */
  lemma FailedGrow(c: Config, s: Cache, s': Cache)
    requires CacheInv(c, s) && GrowStep(c, s, None, s') && Coalesced(s.buddy.free, c.maxOrder)
    ensures s' == s
  {
    GrowKeeps(c, s, None, s');
    LaidFree(s.buddy, c.maxOrder);
    LaidFree(s'.buddy, c.maxOrder);
    HistoryIndependence(s.buddy.free, s'.buddy.free, c.maxOrder);
  }

  // ------------------------------------------------------------- each call

  lemma AllSlotsOk(capacity: nat)
    ensures ChainOk(AllSlots(capacity), capacity) && |AllSlots(capacity)| == capacity
  {
  }

  lemma TailOk(chain: seq<nat>, capacity: nat)
    requires ChainOk(chain, capacity) && chain != []
    ensures ChainOk(chain[1..], capacity) && chain[0] !in chain[1..] && chain[0] < capacity
  {
  }

  lemma PushOk(chain: seq<nat>, capacity: nat, i: nat)
    requires ChainOk(chain, capacity) && i < capacity && i !in chain
    ensures ChainOk([i] + chain, capacity) && |chain| < capacity
  {
    ChainCount([i] + chain, capacity);
  }

  ghost function Members(s: seq<nat>): set<nat> { set i | 0 <= i < |s| :: s[i] }

  /** A chain is no longer than the slab; a shorter one leaves out some slot. */
  lemma ChainCount(chain: seq<nat>, capacity: nat)
    requires ChainOk(chain, capacity)
    ensures |chain| <= capacity
    ensures |chain| < capacity ==> exists i: nat :: i < capacity && i !in chain
  {
    var members, all := Members(chain), Range(0, capacity);
    DistinctCount(chain);
    RangeCount(0, capacity);
    assert forall i | i in members :: InRange(i, 0, capacity);
    SubsetCount(members, all);
    if |chain| < capacity {
      var i :| i in all && i !in members by {
        assert all <= members ==> members == all;
      }
      assert i < capacity && i !in chain;
    }
  }

  lemma {:induction false} DistinctCount(s: seq<nat>)
    requires NoDup(s)
    ensures |Members(s)| == |s|
  {
    if s == [] {
      assert Members(s) == {};
    } else {
      var t := s[1..];
      assert forall i | 0 <= i < |t| :: t[i] == s[i + 1];
      DistinctCount(t);
      MembersStep(s);
      assert s[0] !in Members(t);
      hide NoDup, Members;
    }
  }

  lemma MembersStep(s: seq<nat>)
    requires s != []
    ensures Members(s) == {s[0]} + Members(s[1..])
  {
  }

  /** What every call keeps: the other clients' blocks, the pages the buddy owns, and
      whether it has mergeable pairs. */
  ghost predicate Kept(c: Config, s: Cache, s': Cache) {
    && SlabsAt(c, s.slabs.Keys) && SlabsAt(c, s'.slabs.Keys)
    && Others(c, s') == Others(c, s)
    && FreePages(s'.buddy) + LivePages(s'.buddy) == FreePages(s.buddy) + LivePages(s.buddy)
    && (Coalesced(s.buddy.free, c.maxOrder) ==> Coalesced(s'.buddy.free, c.maxOrder))
  }

  lemma GrowShape(c: Config, s: Cache, grown: Option<nat>, s': Cache)
    requires CacheInv(c, s) && GrowStep(c, s, grown, s')
    ensures CacheShape(c, s') && Kept(c, s, s')
  {
    GrowKeeps(c, s, grown, s');
    hide GrowStep, Coalesced, Inv, PagesOf, SlabBlocks, NoDup;
    if grown.Some? {
      BlocksPlus(c, s.slabs.Keys, grown.value);
      assert s'.slabs.Keys == s.slabs.Keys + {grown.value};
      AllSlotsOk(c.capacity);
    }
    hide Config.SlabAt;
  }

  /** Popping a chain makes exactly one slot live. */
  lemma TakeSlotKeeps(c: Config, s: Cache, o: Obj, s': Cache)
    requires CacheShape(c, s) && TakeSlot(s, o, s')
    requires c.capacity >= 2 ==> forall a | a in s.slabs && a != o.slab :: |s.slabs[a]| < c.capacity
    ensures CacheInv(c, s') && Kept(c, s, s') && s'.buddy == s.buddy
    ensures !LiveObj(c, s.slabs, o) && forall p :: LiveObj(c, s'.slabs, p) <==> LiveObj(c, s.slabs, p) || p == o
  {
    hide Coalesced, Inv, PagesOf, SlabBlocks, ChainOk, LiveObj, Config.SlabAt;
    var chain := s.slabs[o.slab];
    assert s'.slabs.Keys == s.slabs.Keys;
    TailOk(chain, c.capacity);
    ChainCount(chain, c.capacity);
    forall p
      ensures LiveObj(c, s'.slabs, p) <==> LiveObj(c, s.slabs, p) || p == o
      ensures !LiveObj(c, s.slabs, o)
    {
      TakenObj(c, s.slabs, o, p);
    }
  }

  /** Which slots are live once the head of a chain is popped. */
  lemma TakenObj(c: Config, slabs: map<nat, seq<nat>>, o: Obj, p: Obj)
    requires o.slab in slabs && slabs[o.slab] != [] && o.index == slabs[o.slab][0]
    requires ChainOk(slabs[o.slab], c.capacity)
    ensures !LiveObj(c, slabs, o)
    ensures LiveObj(c, slabs[o.slab := slabs[o.slab][1..]], p) <==> LiveObj(c, slabs, p) || p == o
  {
    var chain := slabs[o.slab];
    TailOk(chain, c.capacity);
    hide ChainOk;
    assert chain == [chain[0]] + chain[1..];
  }

  /** One allocation: it keeps what every call keeps, makes exactly the returned slot live,
      and without a slot leaves slabs, live blocks and free pages as they were. */
  lemma AllocObjKeeps(c: Config, s: Cache, got: Option<Obj>, s': Cache)
    requires CacheInv(c, s) && AllocObj(c, s, got, s')
    ensures CacheInv(c, s') && Kept(c, s, s')
    ensures got.None? ==> s'.slabs == s.slabs && s'.buddy.live == s.buddy.live
    ensures got.None? ==> FreePages(s'.buddy) == FreePages(s.buddy)
    ensures got.Some? ==> !LiveObj(c, s.slabs, got.value)
    ensures forall p :: LiveObj(c, s'.slabs, p) <==> LiveObj(c, s.slabs, p) || got == Some(p)
  {
    if HasRoom(s) {
      TakeSlotKeeps(c, s, got.value, s');
    } else {
      var grown, mid :| GrowStep(c, s, grown, mid) && FirstSlot(grown, mid, got, s');
      GrowKeeps(c, s, grown, mid);
      GrowShape(c, s, grown, mid);
      if grown.Some? {
        FreshSlab(c, s, mid, grown.value);
        TakeSlotKeeps(c, mid, got.value, s');
      }
    }
    hide GrowStep, Coalesced, Inv, PagesOf, SlabBlocks, NoDup, Config.SlabAt;
  }

  /** No slot of a fresh slab is live. */
  lemma FreshSlab(c: Config, s: Cache, mid: Cache, a: nat)
    requires a !in s.slabs && mid.slabs == s.slabs[a := AllSlots(c.capacity)]
    ensures forall p :: LiveObj(c, mid.slabs, p) <==> LiveObj(c, s.slabs, p)
  {
    forall p ensures LiveObj(c, mid.slabs, p) <==> LiveObj(c, s.slabs, p) {
      if p.slab == a && p.index < c.capacity {
        assert AllSlots(c.capacity)[p.index] == p.index;
      }
    }
  }

  /** One free: it keeps what every call keeps and ends exactly that slot's life. */
  lemma DeallocObjKeeps(c: Config, s: Cache, o: Obj, s': Cache)
    requires CacheInv(c, s) && DeallocObj(c, s, o, s')
    ensures CacheInv(c, s') && Kept(c, s, s')
    ensures LiveObj(c, s.slabs, o) && forall p :: LiveObj(c, s'.slabs, p) <==> LiveObj(c, s.slabs, p) && p != o
  {
    var chain := s.slabs[o.slab];
    PushOk(chain, c.capacity, o.index);
    if chain != [] && |chain| + 1 == c.capacity {
      ReleaseKeeps(c, s, o, s');
    } else {
      assert s'.slabs.Keys == s.slabs.Keys;
      hide Coalesced, Inv, PagesOf, SlabBlocks, NoDup, Config.SlabAt;
    }
  }

  lemma ReleaseKeeps(c: Config, s: Cache, o: Obj, s': Cache)
    requires CacheInv(c, s) && LiveObj(c, s.slabs, o) && |s.slabs[o.slab]| + 1 == c.capacity && o.slab >= c.base
    requires s'.slabs == s.slabs - {o.slab} && DeallocStep(s.buddy, c.BlockOf(o.slab), s'.buddy, c.maxOrder)
    ensures CacheInv(c, s') && Kept(c, s, s')
    ensures forall p :: LiveObj(c, s'.slabs, p) <==> LiveObj(c, s.slabs, p) && p != o
  {
    var b := c.BlockOf(o.slab);
    StepKeeps(s.buddy, Dealloc(b), s'.buddy, c.maxOrder);
    InBlocks(c, s.slabs.Keys, o.slab);
    BlocksMinus(c, s.slabs.Keys, o.slab);
    assert s'.slabs.Keys == s.slabs.Keys - {o.slab};
    forall p: Obj | p.slab == o.slab && LiveObj(c, s.slabs, p)
      ensures p == o
    {
      OnlyOneLeft(s.slabs[o.slab], c.capacity, o.index, p.index);
    }
    hide Coalesced, Inv, PagesOf, SlabBlocks, NoDup, Config.SlabAt, Coalesce;
  }

  /** When all but one of a slab's slots are on its chain, no two are live. */
  lemma OnlyOneLeft(chain: seq<nat>, capacity: nat, i: nat, j: nat)
    requires ChainOk(chain, capacity) && |chain| + 1 == capacity
    requires i < capacity && j < capacity && i !in chain && j !in chain
    ensures i == j
  {
    if i != j {
      PushOk(chain, capacity, i);
      ChainCount([j] + ([i] + chain), capacity);
    }
  }

  /** The last live slot of a slab takes the slab with it exactly when slabs have two slots
      or more: a one-slot slab is full before and empty after, and is only relinked. */
  lemma ReleasedIff(c: Config, s: Cache, o: Obj, s': Cache)
    requires CacheInv(c, s) && DeallocObj(c, s, o, s')
    ensures o.slab !in s'.slabs <==> |s.slabs[o.slab]| + 1 == c.capacity >= 2
    ensures |s.slabs[o.slab]| + 1 == c.capacity <==> forall p | LiveObj(c, s.slabs, p) && p.slab == o.slab :: p == o
  {
    var chain := s.slabs[o.slab];
    PushOk(chain, c.capacity, o.index);
    ChainCount([o.index] + chain, c.capacity);
    if |chain| + 1 == c.capacity {
      forall p | LiveObj(c, s.slabs, p) && p.slab == o.slab
        ensures p == o
      {
        OnlyOneLeft(chain, c.capacity, o.index, p.index);
      }
    } else {
      var i: nat :| i < c.capacity && i !in [o.index] + chain;
      assert i !in chain && LiveObj(c, s.slabs, Obj(o.slab, i));
    }
  }

  // ------------------------------------------------------------------ runs

  /** A call of the cache, or a call of the buddy by another of its clients. */
  datatype Call = AllocCall(got: Option<Obj>) | FreeCall(obj: Obj) | OtherCall(event: Event) {
    predicate IsOwn() { !OtherCall? }
  }

  ghost predicate CallStep(c: Config, s: Cache, e: Call, s': Cache) {
    match e
    case AllocCall(got) => AllocObj(c, s, got, s')
    case FreeCall(o) => DeallocObj(c, s, o, s')
    case OtherCall(event) => OtherStep(c, s, event, s')
  }

  /** Other clients may take any block and give back any of theirs. */
  ghost predicate OtherStep(c: Config, s: Cache, e: Event, s': Cache) {
    && s'.slabs == s.slabs && Step(s.buddy, e, s'.buddy, c.maxOrder)
    && (e.Dealloc? ==> SlabsAt(c, s.slabs.Keys) && e.block in Others(c, s))
  }

  ghost predicate CacheRun(c: Config, trace: seq<Cache>, calls: seq<Call>) {
    && |trace| == |calls| + 1
    && forall i | 0 <= i < |calls| :: CallStep(c, trace[i], calls[i], trace[i + 1])
  }

  /** The slots live after the first `i` calls of a run from an empty cache. */
  ghost function LiveAfter(calls: seq<Call>, i: nat): set<Obj>
    requires i <= |calls|
  {
    if i == 0 then {}
    else match calls[i - 1]
      case AllocCall(got) => LiveAfter(calls, i - 1) + (if got.Some? then {got.value} else {})
      case FreeCall(o) => LiveAfter(calls, i - 1) - {o}
      case OtherCall(_) => LiveAfter(calls, i - 1)
  }

  /** The blocks the other clients hold after the first `i` calls. */
  ghost function OthersAfter(first: set<Block>, calls: seq<Call>, i: nat): set<Block>
    requires i <= |calls|
  {
    if i == 0 then first else OthersNext(OthersAfter(first, calls, i - 1), calls[i - 1])
  }

  function OthersNext(others: set<Block>, e: Call): set<Block> {
    match e
    case AllocCall(_) => others
    case FreeCall(_) => others
    case OtherCall(Alloc(_, got)) => others + (if got.Some? then {got.value} else {})
    case OtherCall(Dealloc(b)) => others - {b}
  }

  /** The others hold `others`, and the buddy's pages and its lack of mergeable pairs are kept. */
  ghost predicate KeptFor(c: Config, s: Cache, s': Cache, others: set<Block>) {
    && SlabsAt(c, s'.slabs.Keys) && Others(c, s') == others
    && FreePages(s'.buddy) + LivePages(s'.buddy) == FreePages(s.buddy) + LivePages(s.buddy)
    && (Coalesced(s.buddy.free, c.maxOrder) ==> Coalesced(s'.buddy.free, c.maxOrder))
  }

  /** In every state of every run from an empty cache, whatever calls of other clients fall in
      between: the invariant holds, exactly the slots handed out and not freed are live, and the
      others hold exactly what they had, took and did not give back. */
  lemma {:induction false} CacheRunsKeep(c: Config, trace: seq<Cache>, calls: seq<Call>, i: nat)
    requires CacheRun(c, trace, calls) && CacheInv(c, trace[0]) && trace[0].slabs == map[] && i < |trace|
    ensures CacheInv(c, trace[i])
    ensures KeptFor(c, trace[0], trace[i], OthersAfter(trace[0].buddy.live, calls, i))
    ensures forall o :: LiveObj(c, trace[i].slabs, o) <==> o in LiveAfter(calls, i)
  {
    hide CallStep, CacheInv, KeptFor, OthersNext;
    if i > 0 {
      CacheRunsKeep(c, trace, calls, i - 1);
      assert CallStep(c, trace[i - 1], calls[i - 1], trace[i]);
      CallKeeps(c, trace[i - 1], calls[i - 1], trace[i]);
      OthersOf(c, trace[0], trace[i - 1], OthersAfter(trace[0].buddy.live, calls, i - 1));
      KeptOn(c, trace[0], trace[i - 1], trace[i], Others(c, trace[i - 1]),
             OthersNext(Others(c, trace[i - 1]), calls[i - 1]));
      hide LiveObj;
    } else {
      KeptAtFirst(c, trace[0]);
    }
  }

  lemma OthersOf(c: Config, s: Cache, s': Cache, others: set<Block>)
    requires KeptFor(c, s, s', others)
    ensures SlabsAt(c, s'.slabs.Keys) && Others(c, s') == others
  {
    hide Others, SlabsAt;
  }

  /** What one call of any kind keeps, and what it does to the live slots. */
  lemma CallKeeps(c: Config, s: Cache, e: Call, s': Cache)
    requires CacheInv(c, s) && CallStep(c, s, e, s')
    ensures CacheInv(c, s') && SlabsAt(c, s.slabs.Keys) && KeptFor(c, s, s', OthersNext(Others(c, s), e))
    ensures forall o :: LiveObj(c, s'.slabs, o) <==>
              match e
              case AllocCall(got) => LiveObj(c, s.slabs, o) || got == Some(o)
              case FreeCall(p) => LiveObj(c, s.slabs, o) && o != p
              case OtherCall(_) => LiveObj(c, s.slabs, o)
  {
    hide CacheInv, LiveObj, AllocObj, DeallocObj, OtherStep, SlabsAt, Others, Coalesced, PagesOf;
    match e {
      case AllocCall(got) => AllocObjKeeps(c, s, got, s');
      case FreeCall(p) => DeallocObjKeeps(c, s, p, s');
      case OtherCall(event) => OtherKeeps(c, s, event, s');
    }
  }

  /** A call of another client leaves the slabs alone, for their blocks are not its own. */
  lemma OtherKeeps(c: Config, s: Cache, e: Event, s': Cache)
    requires CacheInv(c, s) && OtherStep(c, s, e, s')
    ensures CacheInv(c, s') && s'.slabs == s.slabs && SlabsAt(c, s.slabs.Keys)
    ensures KeptFor(c, s, s', OthersNext(Others(c, s), OtherCall(e)))
  {
    hide Inv, Coalesced, PagesOf, SlabBlocks, ChainOk, AllocStep, SlabsAt, DeallocStep;
    StepKeeps(s.buddy, e, s'.buddy, c.maxOrder);
    StepLive(s.buddy, e, s'.buddy, c.maxOrder);
  }

  /** The live blocks after a call of the buddy. */
  lemma StepLive(s: State, e: Event, s': State, m: nat)
    requires Inv(s, m) && Step(s, e, s', m)
    ensures match e
      case Alloc(_, got) =>
        s'.live == s.live + (if got.Some? then {got.value} else {}) && (got.Some? ==> got.value !in s.live)
      case Dealloc(b) => s'.live == s.live - {b}
  {
    hide Inv, Coalesced, PagesOf;
    if e.Alloc? && e.got.Some? {
      var f := TakenFrom(s, e.order, e.got.value, s');
      AllocEffect(s, e.order, f, m);
    }
  }

  /** With slabs of two slots or more, a run that ends with no live slot leaves the buddy to the
      other clients: the live blocks are theirs and every other page is free. If they hold what
      they held at first, a buddy without mergeable pairs is back block for block. */
  lemma EmptiedCacheReturnsAll(c: Config, trace: seq<Cache>, calls: seq<Call>)
    requires CacheRun(c, trace, calls) && CacheInv(c, trace[0]) && trace[0].slabs == map[]
    requires c.capacity >= 2 && LiveAfter(calls, |calls|) == {}
    ensures var first, last, others := trace[0], trace[|calls|], OthersAfter(trace[0].buddy.live, calls, |calls|);
      && last.slabs == map[] && last.buddy.live == others
      && FreePages(last.buddy) == FreePages(first.buddy) + LivePages(first.buddy) - PagesOf(others)
      && (others == first.buddy.live && Coalesced(first.buddy.free, c.maxOrder) ==> last == first)
  {
    CacheRunsKeep(c, trace, calls, |calls|);
    NothingLive(c, trace[|calls|]);
    AllBack(c, trace[0], trace[|calls|], OthersAfter(trace[0].buddy.live, calls, |calls|));
  }

  /** A cache whose slabs have two slots or more holds none without a live slot. */
  lemma NothingLive(c: Config, s: Cache)
    requires CacheInv(c, s) && c.capacity >= 2 && forall o :: !LiveObj(c, s.slabs, o)
    ensures s.slabs == map[]
  {
    forall a | a in s.slabs
      ensures exists o :: LiveObj(c, s.slabs, o)
    {
      ChainCount(s.slabs[a], c.capacity);
      var i: nat :| i < c.capacity && i !in s.slabs[a];
      assert LiveObj(c, s.slabs, Obj(a, i));
    }
    assert s.slabs.Keys == {};
  }

  lemma AllBack(c: Config, s: Cache, s': Cache, others: set<Block>)
    requires CacheInv(c, s) && CacheInv(c, s') && KeptFor(c, s, s', others) && s.slabs == map[] && s'.slabs == map[]
    ensures s'.buddy.live == others
    ensures FreePages(s'.buddy) == FreePages(s.buddy) + LivePages(s.buddy) - PagesOf(others)
    ensures others == s.buddy.live && Coalesced(s.buddy.free, c.maxOrder) ==> s' == s
  {
    HoldsNothing(c, s);
    HoldsNothing(c, s');
    PagesApart(s'.buddy, c.maxOrder);
    if others == s.buddy.live {
      SameLiveSameFree(s.buddy, s'.buddy, c.maxOrder);
    }
    hide CacheInv, PagesOf, Coalesced, Inv, SlabBlocks, SlabsAt;
  }

  lemma PagesApart(s: State, m: nat)
    requires Inv(s, m)
    ensures FreePages(s) !! LivePages(s)
  {
    PagesDisjoint(s.free, s.live, m);
  }

  lemma HoldsNothing(c: Config, s: Cache)
    requires CacheInv(c, s) && s.slabs == map[]
    ensures Inv(s.buddy, c.maxOrder) && SlabsAt(c, s.slabs.Keys) && Others(c, s) == s.buddy.live
  {
  }

  /** Two states of one allocator with the same live blocks have the same free pages. */
  lemma SameLiveSameFree(s: State, s': State, m: nat)
    requires Inv(s, m) && Inv(s', m) && s'.live == s.live
    requires FreePages(s') + LivePages(s') == FreePages(s) + LivePages(s)
    ensures FreePages(s') == FreePages(s)
    ensures Coalesced(s.free, m) && Coalesced(s'.free, m) ==> s' == s
  {
    PagesDisjoint(s.free, s.live, m);
    PagesDisjoint(s'.free, s'.live, m);
    LaidFree(s, m);
    LaidFree(s', m);
    hide PagesOf, Laid, Coalesced, Inv;
    if Coalesced(s.free, m) && Coalesced(s'.free, m) {
      HistoryIndependence(s.free, s'.free, m);
    }
  }

  lemma KeptAtFirst(c: Config, s: Cache)
    requires CacheInv(c, s) && s.slabs == map[]
    ensures KeptFor(c, s, s, s.buddy.live)
  {
  }

  lemma KeptOn(c: Config, s: Cache, mid: Cache, s': Cache, others: set<Block>, others': set<Block>)
    requires KeptFor(c, s, mid, others) && KeptFor(c, mid, s', others')
    ensures KeptFor(c, s, s', others')
  {
  }

  /** In every state of every run the live blocks are the cache's slabs and what the others hold;
      with no other client, the slabs alone. */
  lemma SoleClient(c: Config, trace: seq<Cache>, calls: seq<Call>, i: nat)
    requires CacheRun(c, trace, calls) && CacheInv(c, trace[0]) && trace[0].slabs == map[] && i < |trace|
    ensures SlabsAt(c, trace[i].slabs.Keys)
    ensures var held, others := SlabBlocks(c, trace[i].slabs.Keys), OthersAfter(trace[0].buddy.live, calls, i);
      && trace[i].buddy.live == held + others && held !! others
      && (trace[0].buddy.live == {} && (forall e | e in calls :: e.IsOwn()) ==> trace[i].buddy.live == held)
  {
    var others := OthersAfter(trace[0].buddy.live, calls, i);
    CacheRunsKeep(c, trace, calls, i);
    OthersOf(c, trace[0], trace[i], others);
    HoldsLive(c, trace[i]);
    NothingBeside(trace[i].buddy.live, SlabBlocks(c, trace[i].slabs.Keys));
    if forall e | e in calls :: e.IsOwn() {
      OwnCalls(trace[0].buddy.live, calls, i);
    }
    hide CacheRun, CacheInv, LiveObj, LiveAfter, OthersAfter, Coalesced, PagesOf, Inv, SlabBlocks, SlabsAt;
  }

  lemma {:induction false} OwnCalls(first: set<Block>, calls: seq<Call>, i: nat)
    requires i <= |calls| && forall e | e in calls :: e.IsOwn()
    ensures OthersAfter(first, calls, i) == first
  {
    if i > 0 {
      OwnCalls(first, calls, i - 1);
      assert calls[i - 1] in calls;
    }
  }

  lemma NothingBeside(live: set<Block>, held: set<Block>)
    requires held <= live
    ensures live == held + (live - held) && held !! live - held
  {
  }

  lemma HoldsLive(c: Config, s: Cache)
    requires CacheInv(c, s)
    ensures SlabsAt(c, s.slabs.Keys) && SlabBlocks(c, s.slabs.Keys) <= s.buddy.live
  {
  }
}
