/** Building the kernel's own page tables at boot: the higher-half window in 2 MiB
    pages and the kernel image in 4 KiB pages. */
module BootTables {
  import opened Paging
  import opened Arith
  import Bits
  import opened Descent
  import opened PageTree
  import opened PhysMemory
  import opened Walker
  import opened Wrappers

  const HHDM_FLAGS := WRITABLE + NO_EXECUTE + HUGE_PAGE + GLOBAL

  /** A range of whole pages that stays in one half of the canonical address space. */
  predicate CanonicalRange(start: nat, bytes: nat) {
    start + bytes <= 0x8000_0000_0000 ||
    (0xFFFF_8000_0000_0000 <= start && start + bytes <= 0x1_0000_0000_0000_0000)
  }

  /** `(size + HUGE_2M - 1) / HUGE_2M` */
  function HugeCount(size: nat): (n: nat)
    ensures size <= n * HUGE_2M < size + HUGE_2M
  {
    (size + HUGE_2M - 1) / HUGE_2M
  }

  /** The tables being built: a tree of their own, with a pool that stays clear of it. */
  ghost predicate Building(phys: PhysMem, root: nat)
    reads phys.buddy, phys.buddy.freeLists, phys.buddy.bitmaps, phys.Arrays()
  {
    phys.Valid() && NonSharing(phys.Mem(), root) && Fresh(phys.Pool(), phys.Mem(), root)
  }

  /** Where `w` goes when the first `bytes` bytes above `start` map linearly to `target`. */
  function Linear(start: nat, bytes: nat, target: nat, w: nat, otherwise: Option<nat>): Option<nat> {
    if start <= w < start + bytes then Some(w - start + target) else otherwise
  }

  /** Since `start` only frames of `ours` have been written, where the tree and the frames to take
      lie, and the buddy has only handed out pages. */
  ghost predicate Kept(start: Snapshot, now: Snapshot, root: nat, pool: set<nat>, ours: set<nat>) {
    && Enclosed(start.mem, now.mem, root, pool, ours)
    && Served(start.pages, start.words, now.pages, now.words)
  }

  /** A table taken from the pool, or none, and linked where the tree has room. */
  lemma KeptStep(start: Snapshot, was: Snapshot, now: Snapshot, root: nat, pool: set<nat>, pool': set<nat>,
                 ours: set<nat>, g: nat)
    requires Kept(start, was, root, pool, ours) && Served(was.pages, was.words, now.pages, now.words)
    requires pool' <= pool && g in ours && TablesFrom(was.mem, now.mem, root, pool)
    requires KeptOutside(was.mem, now.mem, pool + {g})
    ensures Kept(start, now, root, pool', ours)
  {
    hide Reach, Served;
    ServedTwice(start.pages, start.words, was.pages, was.words, now.pages, now.words);
  }

  lemma KeptTable(start: Snapshot, now: Snapshot, root: nat, pool: set<nat>, ours: set<nat>, p: seq<nat>, g: nat)
    requires Kept(start, now, root, pool, ours) && Reach(now.mem, root, p) == Some(g)
    ensures g in ours
  {
    hide Reach, Served;
  }

  /** One more entry of the tree's own tables. */
  lemma KeptEntry(start: Snapshot, was: Snapshot, now: Snapshot, root: nat, pool: set<nat>, ours: set<nat>,
                  p: seq<nat>, g: nat, i: nat, e: nat)
    requires Kept(start, was, root, pool, ours) && Reach(was.mem, root, p) == Some(g)
    requires Table(was.mem, g) && i < ENTRIES && now == was.(mem := SetEntry(was.mem, g, i, e))
    requires forall q :: Reach(now.mem, root, q) == Reach(was.mem, root, q)
    ensures Kept(start, now, root, pool, ours)
  {
    hide Reach, Served;
  }

  // --------------------------------------------------------------- helpers

  /** A zeroed frame; none stands for the panic on exhaustion. */
  method AllocZeroFrame(phys: PhysMem) returns (r: Option<nat>)
    requires phys.Valid()
    modifies phys.buddy`ram, phys.buddy`lists, phys.buddy`live, phys.buddy`stats
    modifies phys.buddy.freeLists, phys.buddy.bitmaps, phys.Arrays()
    ensures phys.Valid()
    ensures r.None? ==> old(phys.Pool()) == {} == phys.Pool() && phys.Mem() == old(phys.Mem())
    ensures r.Some? ==> r.value in old(phys.Pool()) && phys.Pool() == old(phys.Pool()) - {r.value}
    ensures r.Some? ==> phys.Mem() == old(phys.Mem())[r.value := ZeroTable()]
    ensures Served(old(phys.buddy.Abs()), old(phys.buddy.ram), phys.buddy.Abs(), phys.buddy.ram)
  {
    r := phys.AllocTableFrame();
  }

  /** Resolve or create the table below `tablePhys` on the path of `vaddr`. */
  method DescendOrCreate(phys: PhysMem, ghost root: nat, tablePhys: nat, vaddr: nat, level: nat,
                         ghost start: Snapshot, ghost ours: set<nat>)
    returns (r: Option<nat>)
    requires Building(phys, root) && 2 <= level <= 4 && Kept(start, phys.Snap(), root, phys.Pool(), ours)
    requires Reach(phys.Mem(), root, Path(vaddr, 4 - level)) == Some(tablePhys) && NoHuge(phys.Mem(), root, 0, vaddr)
    modifies phys.buddy`ram, phys.buddy`lists, phys.buddy`live, phys.buddy`stats
    modifies phys.buddy.freeLists, phys.buddy.bitmaps, phys.Arrays()
    ensures r.Some? ==> Building(phys, root)
    ensures r.Some? ==> Reach(phys.Mem(), root, Path(vaddr, 5 - level)) == Some(r.value)
    ensures r.Some? ==> Extends(old(phys.Mem()), phys.Mem(), root, Path(vaddr, 5 - level))
    ensures r.Some? ==> |old(phys.Pool())| == |phys.Pool()| + Created(old(phys.Mem()), root, vaddr, 5 - level)
    ensures r.None? ==> old(phys.Pool()) == {} == phys.Pool() && Created(old(phys.Mem()), root, vaddr, 5 - level) == 1
    ensures Kept(start, phys.Snap(), root, phys.Pool(), ours)
  {
    hide PhysMem.Valid, PhysMem.Pool, Walk, NoHuge, NonSharing, Path, Reach, Encode, Addr, ZeroTable, Fresh, Extends,
      Linked, Mappable, Index, Kept, Served, TablesFrom;
    ghost var depth, m0, pool0, was := 4 - level, phys.Mem(), phys.Pool(), phys.Snap();
    KeptTable(start, was, root, pool0, ours, Path(vaddr, depth), tablePhys);
    assert 5 - level == depth + 1;
    PoolInRam(pool0, m0, root);
    PresentPoints(m0, root, vaddr, depth, tablePhys);
    AbsentStops(m0, root, vaddr, depth, tablePhys);
    var idx := Index(vaddr, 4 - level);
    var entry := phys.ReadEntry(tablePhys, idx);
    if Present(entry) {
      ExtendsSelf(m0, root, Path(vaddr, 5 - level));
      return Some(Addr(entry, PAGE));
    }
    var child := AllocZeroFrame(phys);
    if child.None? {
      NoTables(m0, root, pool0);
      KeptStep(start, was, phys.Snap(), root, pool0, phys.Pool(), ours, tablePhys);
      return None;
    }
    FreshHead(m0, root, pool0, child.value, vaddr, depth, tablePhys);
    PoolLess(pool0, child.value);
    phys.WriteEntry(tablePhys, idx, Encode(child.value, PAGE, WRITABLE));
    OneTableFrom(m0, phys.Mem(), root, Path(vaddr, depth + 1), pool0, child.value);
    LinkedOutside(m0, tablePhys, idx, child.value, pool0);
    KeptStep(start, was, phys.Snap(), root, pool0, phys.Pool(), ours, tablePhys);
    return child;
  }

  lemma NoTables(mem: Mem, root: nat, pool: set<nat>)
    ensures TablesFrom(mem, mem, root, pool)
  {
  }

  lemma LinkedOutside(mem: Mem, g: nat, i: nat, c: nat, pool: set<nat>)
    requires Table(mem, g) && i < ENTRIES && c in pool && c in mem
    ensures KeptOutside(mem, Linked(mem, g, i, c), pool + {g})
  {
    hide Encode, ZeroTable;
  }

  // ------------------------------------------------------------ the window

  /** Every entry that leads to a table is writable and forbids nothing. */
  ghost predicate TablesOpen(mem: Mem, root: nat) {
    forall p | p != [] && Points(Entry(mem, root, p), |p| - 1) :: LinksTable(Entry(mem, root, p))
  }

  /** The entries of the window's addresses: present, writable, huge, global, not executable. */
  ghost predicate WindowEntries(mem: Mem, root: nat, hhdm: nat, bytes: nat) {
    forall w: nat | Canonical(w) && hhdm <= w < hhdm + bytes :: Flags(Entry(mem, root, Path(w, 3)), {0, 1, 7, 8, 63})
  }

  /** The state of the window after its first `i` huge pages. */
  ghost predicate Window(mem: Mem, root: nat, hhdm: nat, i: nat) {
    && TablesOpen(mem, root) && WindowEntries(mem, root, hhdm, i * HUGE_2M)
    && (forall w: nat | Canonical(w) :: Walk(mem, root, 0, w) == Linear(hhdm, i * HUGE_2M, 0, w, None))
    && (forall w: nat | Canonical(w) && !(hhdm <= w < hhdm + i * HUGE_2M) :: NoHuge(mem, root, 0, w))
    && (forall p | |p| == 3 :: Reach(mem, root, p).None?)
  }

  /** Writing the i-th huge entry extends the window by 2 MiB. */
  lemma WindowGrows(mem: Mem, root: nat, hhdm: nat, i: nat, pd: nat, e: nat)
    requires NonSharing(mem, root) && Window(mem, root, hhdm, i)
    requires hhdm % HUGE_2M == 0 && CanonicalRange(hhdm, (i + 1) * HUGE_2M)
    requires Reach(mem, root, Path(hhdm + i * HUGE_2M, 2)) == Some(pd)
    requires Present(e) && Huge(e) && Addr(e, HUGE_2M) == i * HUGE_2M && Flags(e, {0, 1, 7, 8, 63})
    ensures Table(mem, pd)
    ensures var mem' := SetEntry(mem, pd, Index(hhdm + i * HUGE_2M, 2), e);
      && NonSharing(mem', root) && Window(mem', root, hhdm, i + 1)
      && forall p :: Reach(mem', root, p) == Reach(mem, root, p)
  {
    hide Walk, NoHuge, NonSharing, Reach, Path, Encode, Addr, EntrySet, TablesOpen, WindowEntries, Flags;
    var v := hhdm + i * HUGE_2M;
    NoTableBelow(mem, root, v, pd);
    LeafWrite(mem, root, v, 2, pd, e);
    var mem' := SetEntry(mem, pd, Index(v, 2), e);
    OpenWritten(mem, mem', root, Path(v, 3), e);
    WindowEntry(mem, mem', root, hhdm, i, e);
    hide Present, Huge;
    forall w: nat | Canonical(w)
      ensures Walk(mem', root, 0, w) == Linear(hhdm, (i + 1) * HUGE_2M, 0, w, None)
      ensures !(hhdm <= w < hhdm + (i + 1) * HUGE_2M) ==> NoHuge(mem', root, 0, w)
    {
      SamePathSameSpan(w, v, 2);
      SpanRange(hhdm, HUGE_2M, i, w);
      hide Canonical, Index, SetEntry;
    }
  }

  /** A huge entry leads to no table. */
  lemma OpenWritten(mem: Mem, mem': Mem, root: nat, p: seq<nat>, e: nat)
    requires TablesOpen(mem, root) && EntrySet(mem, mem', root, p, e) && p != [] && !Points(e, |p| - 1)
    ensures TablesOpen(mem', root)
  {
    hide Entry, Points, LinksTable;
  }

  lemma WindowEntry(mem: Mem, mem': Mem, root: nat, hhdm: nat, i: nat, e: nat)
    requires WindowEntries(mem, root, hhdm, i * HUGE_2M) && Flags(e, {0, 1, 7, 8, 63}) && hhdm % HUGE_2M == 0
    requires Canonical(hhdm + i * HUGE_2M) && EntrySet(mem, mem', root, Path(hhdm + i * HUGE_2M, 3), e)
    ensures WindowEntries(mem', root, hhdm, (i + 1) * HUGE_2M)
  {
    hide Entry, Path, Flags;
    forall w: nat | Canonical(w) && hhdm <= w < hhdm + (i + 1) * HUGE_2M
      ensures Flags(Entry(mem', root, Path(w, 3)), {0, 1, 7, 8, 63})
    {
      SamePathSameSpan(w, hhdm + i * HUGE_2M, 2);
      SpanRange(hhdm, HUGE_2M, i, w);
    }
  }

  lemma HugeEntry(i: nat)
    requires (i + 1) * HUGE_2M <= ADDR_LIMIT
    ensures FlagsOk(HHDM_FLAGS)
    ensures var e := Encode(i * HUGE_2M, HUGE_2M, HHDM_FLAGS);
      Present(e) && Huge(e) && Addr(e, HUGE_2M) == i * HUGE_2M && Flags(e, {0, 1, 7, 8, 63})
  {
    assert i * HUGE_2M % HUGE_2M == 0;
    EncodeDecode(i * HUGE_2M, 2, HHDM_FLAGS);
    WindowBits();
  }

  lemma WindowBits()
    ensures Flags(HHDM_FLAGS, {1, 7, 8, 63})
  {
    hide Flags, Bits.HasBits, Bits.Pow2;
    FlagBits();
    Bits.NoBit();
    FlagSum(0, {}, 1, WRITABLE, {1});
    FlagSum(WRITABLE, {1}, 63, NO_EXECUTE, {1, 63});
    FlagSum(WRITABLE + NO_EXECUTE, {1, 63}, 7, HUGE_PAGE, {1, 7, 63});
    FlagSum(WRITABLE + NO_EXECUTE + HUGE_PAGE, {1, 7, 63}, 8, GLOBAL, {1, 7, 8, 63});
  }

  /** Before the image is mapped no page table exists, so no directory entry leads to one. */
  lemma NoTableBelow(mem: Mem, root: nat, v: nat, pd: nat)
    requires NonSharing(mem, root) && Reach(mem, root, Path(v, 2)) == Some(pd)
    requires forall p | |p| == 3 :: Reach(mem, root, p).None?
    ensures Table(mem, pd) && !Points(mem[pd][Index(v, 2)], 2)
  {
    ReachSnoc(mem, root, Path(v, 2), Index(v, 2));
  }

  lemma SpanRange(start: nat, span: nat, i: nat, w: nat)
    requires span == PAGE || span == HUGE_2M || span == HUGE_1G || span == GIB_512
    requires start % span == 0
    ensures w / span == (start + i * span) / span <==> start + i * span <= w < start + (i + 1) * span
    ensures w / span == (start + i * span) / span ==> w % span == w - start - i * span
  {
    if span == PAGE {
      assert (start + i * PAGE) / PAGE == start / PAGE + i;
    } else if span == HUGE_2M {
      assert (start + i * HUGE_2M) / HUGE_2M == start / HUGE_2M + i;
    } else if span == HUGE_1G {
      assert (start + i * HUGE_1G) / HUGE_1G == start / HUGE_1G + i;
    } else {
      assert (start + i * GIB_512) / GIB_512 == start / GIB_512 + i;
    }
  }

  lemma WindowExtends(mem: Mem, mem': Mem, root: nat, hhdm: nat, i: nat, p: seq<nat>)
    requires Window(mem, root, hhdm, i) && Extends(mem, mem', root, p) && |p| < 3
    ensures Window(mem', root, hhdm, i)
  {
    hide Entry, Reach, Walk, NoHuge, Path, Canonical, Flags, Points, Present;
  }

  lemma EmptyWindow(mem: Mem, root: nat, hhdm: nat)
    requires root in mem && mem[root] == ZeroTable()
    ensures NonSharing(mem, root) && Window(mem, root, hhdm, 0)
    ensures FreshRoot(mem, root)
    ensures forall c | c != root :: Unreached(mem, root, c)
  {
    forall p | p != []
      ensures Reach(mem, root, p).None?
    {
      BelowZero(mem, root, [], root, p);
    }
    forall p
      ensures Entry(mem, root, p) == 0
    {
    }
    hide Entry;
    assert forall depth :: !Points(0, depth);
  }

  // ------------------------------------------------------- counting tables

  function Ceil(n: nat, d: nat): nat
    requires d > 0
  {
    (n + d - 1) / d
  }

  const PER_PD := 512
  const PER_PDPT := 262144 // 512 * 512

  function PerTable(depth: nat): (n: nat)
    ensures n > 0
  {
    if depth == 1 then PER_PDPT else PER_PD
  }

  lemma SlotOf(start: nat, i: nat, depth: nat)
    requires 1 <= depth <= 2 && start % Span(depth - 1) == 0
    ensures var per, v, span := PerTable(depth), start + i * HUGE_2M, Span(depth - 1);
      && v / span == start / span + i / per
      && Ceil(i + 1, per) == i / per + 1
      && Ceil(i, per) == if i % per == 0 then i / per else i / per + 1
  {
    SlotDiv(start, Span(depth - 1), i / PerTable(depth), i % PerTable(depth), PerTable(depth));
  }

  lemma SlotDiv(start: nat, span: nat, q: nat, r: nat, per: nat)
    requires span == per * HUGE_2M > 0 && start % span == 0 && r < per
    ensures (start + (q * per + r) * HUGE_2M) / span == start / span + q
  {
    var s := start / span;
    assert start == s * span && q * per * HUGE_2M == q * span;
    assert start + (q * per + r) * HUGE_2M == (s + q) * span + r * HUGE_2M;
    DivUnique(start + (q * per + r) * HUGE_2M, s + q, span, r * HUGE_2M);
  }

  /** From a 512 GiB boundary `n` huge pages lie below ceil(n / 512^2) PDPTs and ceil(n / 512)
      page directories. */
  lemma {:induction false} TableCount(start: nat, n: nat, depth: nat)
    requires 1 <= depth <= 2 && start % GIB_512 == 0 && CanonicalRange(start, n * HUGE_2M)
    ensures |TablesAt(start, HUGE_2M, n, depth)| == Ceil(n, PerTable(depth))
  {
    hide Path, Canonical, TablesAt, Ceil;
    if n == 0 {
      NothingCounted(start, HUGE_2M, depth);
    } else {
      TableCount(start, n - 1, depth);
      TablesGrow(start, HUGE_2M, n - 1, depth);
      NextTable(start, n - 1, depth);
      OneMoreTable(TablesAt(start, HUGE_2M, n - 1, depth), Path(start + (n - 1) * HUGE_2M, depth));
    }
  }

  lemma OneMoreTable(tables: set<seq<nat>>, p: seq<nat>)
    ensures |tables + {p}| == |tables| + (if p in tables then 0 else 1)
  {
    if p in tables {
      assert tables + {p} == tables;
    }
  }

  lemma NothingCounted(start: nat, step: nat, depth: nat)
    requires 1 <= depth <= 2
    ensures TablesAt(start, step, 0, depth) == {} && Ceil(0, PerTable(depth)) == 0
  {
  }

  /** The i-th huge page needs a new table at a depth exactly when it opens a new span. */
  lemma NextTable(start: nat, i: nat, depth: nat)
    requires 1 <= depth <= 2 && start % GIB_512 == 0 && CanonicalRange(start, (i + 1) * HUGE_2M)
    ensures var p := Path(start + i * HUGE_2M, depth);
      Ceil(i + 1, PerTable(depth)) ==
        Ceil(i, PerTable(depth)) + (if p in TablesAt(start, HUGE_2M, i, depth) then 0 else 1)
  {
    hide Path, Canonical, CanonicalRange, Ceil, PerTable, Span;
    var per, v := PerTable(depth), start + i * HUGE_2M;
    SpanDivides(start, depth);
    SlotOf(start, i, depth);
    forall j: nat | j < i
      ensures Path(start + j * HUGE_2M, depth) == Path(v, depth) <==> j / per == i / per
    {
      SameTable(start, i, j, depth);
    }
    if i % per != 0 {
      Predecessor(i, per);
      assert Path(start + (i - 1) * HUGE_2M, depth) in TablesAt(start, HUGE_2M, i, depth);
    } else {
      FirstOfSpan(i, per);
    }
  }

  lemma SpanDivides(start: nat, depth: nat)
    requires 1 <= depth <= 2 && start % GIB_512 == 0
    ensures Span(depth - 1) > 0 && start % Span(depth - 1) == 0
  {
    assert GIB_512 % HUGE_1G == 0;
    ModTrans(start, GIB_512, HUGE_1G);
  }

  lemma SameTable(start: nat, i: nat, j: nat, depth: nat)
    requires j < i && 1 <= depth <= 2 && CanonicalRange(start, (i + 1) * HUGE_2M)
    requires Span(depth - 1) > 0 && start % Span(depth - 1) == 0
    ensures var per := PerTable(depth);
      Path(start + j * HUGE_2M, depth) == Path(start + i * HUGE_2M, depth) <==> j / per == i / per
  {
    hide Path, Canonical, CanonicalRange, Ceil, PerTable, Span;
    InRange(start, i + 1, j);
    InRange(start, i + 1, i);
    SamePathSameSpan(start + j * HUGE_2M, start + i * HUGE_2M, depth - 1);
    SlotOf(start, i, depth);
    SlotOf(start, j, depth);
  }

  lemma InRange(start: nat, n: nat, j: nat)
    requires j < n && CanonicalRange(start, n * HUGE_2M)
    ensures Canonical(start + j * HUGE_2M)
  {
  }

  lemma Predecessor(i: nat, per: nat)
    requires per > 0 && i % per != 0
    ensures i > 0 && (i - 1) / per == i / per
  {
    DivBounds(i, per);
    DivUnique(i - 1, i / per, per, i % per - 1);
  }

  lemma FirstOfSpan(i: nat, per: nat)
    requires per > 0 && i % per == 0
    ensures forall j: nat | j < i :: j / per != i / per
  {
    forall j: nat | j < i
      ensures j / per != i / per
    {
      DivBounds(i, per);
      DivBounds(j, per);
    }
  }

  // ------------------------------------------------------------- builders

  /** Map `physMemSize` bytes of physical memory at `hhdm` in 2 MiB pages. The result is
      false where the source panics: when there are fewer frames than tables missing. */
  method MapHhdm2m(phys: PhysMem, hhdm: nat, pml4Phys: nat, physMemSize: nat, ghost start: Snapshot,
                   ghost ours: set<nat>)
    returns (ok: bool)
    requires Kept(start, phys.Snap(), pml4Phys, phys.Pool(), ours)
    requires Building(phys, pml4Phys) && Window(phys.Mem(), pml4Phys, hhdm, 0)
    requires hhdm % HUGE_2M == 0 && CanonicalRange(hhdm, HugeCount(physMemSize) * HUGE_2M)
    requires HugeCount(physMemSize) * HUGE_2M <= ADDR_LIMIT
    modifies phys.buddy`ram, phys.buddy`lists, phys.buddy`live, phys.buddy`stats
    modifies phys.buddy.freeLists, phys.buddy.bitmaps, phys.Arrays()
    ensures ok ==> Building(phys, pml4Phys) && Window(phys.Mem(), pml4Phys, hhdm, HugeCount(physMemSize))
    ensures var all := TablePaths(hhdm, HUGE_2M, HugeCount(physMemSize), 2);
      && (ok ==> Ledger(old(phys.Mem()), phys.Mem(), pml4Phys, all, |old(phys.Pool())|, |phys.Pool()|))
      && (ok <==> |old(phys.Pool())| >= |New(old(phys.Mem()), pml4Phys, all)|)
    ensures ok && hhdm % GIB_512 == 0 && FreshRoot(old(phys.Mem()), pml4Phys) ==>
              Counted(phys.Mem(), pml4Phys, hhdm, HugeCount(physMemSize), |old(phys.Pool())|, |phys.Pool()|)
    ensures Kept(start, phys.Snap(), pml4Phys, phys.Pool(), ours)
  {
    hide PhysMem.Valid, PhysMem.Pool, Walk, NoHuge, NonSharing, Path, Reach, Encode, Addr, Fresh, Window, Index,
      Canonical, Ledger, TablePaths, New, FreshRoot, Counted, Kept, PhysMem.Mem, PhysMem.Arrays, Table;
    var hugePages := HugeCount(physMemSize);
    var i: nat := 0;
    ghost var m0, before := phys.Mem(), |phys.Pool()|;
    LedgerOpens(m0, pml4Phys, before);
    NoPaths(hhdm, HUGE_2M, 2);
    while i < hugePages
      modifies phys.buddy`ram, phys.buddy`lists, phys.buddy`live, phys.buddy`stats
      modifies phys.buddy.freeLists, phys.buddy.bitmaps, phys.Arrays()
      invariant i <= hugePages && Building(phys, pml4Phys) && Window(phys.Mem(), pml4Phys, hhdm, i)
      invariant Kept(start, phys.Snap(), pml4Phys, phys.Pool(), ours)
      invariant Ledger(m0, phys.Mem(), pml4Phys, TablePaths(hhdm, HUGE_2M, i, 2), before, |phys.Pool()|)
    {
      ok := MapHugePage(phys, hhdm, pml4Phys, i, m0, before, start, ours);
      if !ok {
        PathsMore(hhdm, HUGE_2M, i + 1, hugePages, 2);
        NewMore(m0, pml4Phys, TablePaths(hhdm, HUGE_2M, i + 1, 2), TablePaths(hhdm, HUGE_2M, hugePages, 2));
        return false;
      }
      i := i + 1;
    }
    LedgerBalance(m0, phys.Mem(), pml4Phys, TablePaths(hhdm, HUGE_2M, i, 2), before, |phys.Pool()|);
    if hhdm % GIB_512 == 0 && FreshRoot(m0, pml4Phys) {
      CountsClose(m0, phys.Mem(), pml4Phys, hhdm, i, before, |phys.Pool()|);
    }
    return true;
  }

  lemma {:induction false} NoPaths(start: nat, step: nat, levels: nat)
    requires levels <= 4
    ensures TablePaths(start, step, 0, levels) == {}
  {
    hide Path;
    if levels > 0 {
      NoPaths(start, step, levels - 1);
    }
  }

  lemma LedgerBalance(m0: Mem, mem: Mem, root: nat, done: set<seq<nat>>, before: nat, after: nat)
    requires Ledger(m0, mem, root, done, before, after)
    ensures before == after + |New(m0, root, done)|
  {
  }

  /** Nothing lies below the root. */
  ghost predicate FreshRoot(mem: Mem, root: nat) {
    forall p | p != [] :: Reach(mem, root, p).None?
  }

  /** The tables below a new root are exactly those of `n` huge pages from `hhdm` on:
      ceil(n / 512^2) PDPTs and ceil(n / 512) page directories, a frame for each. */
  ghost predicate Counted(mem: Mem, root: nat, hhdm: nat, n: nat, before: nat, after: nat) {
    && (forall p | p != [] ::
          Reach(mem, root, p).Some? <==> p in TablesAt(hhdm, HUGE_2M, n, 1) || p in TablesAt(hhdm, HUGE_2M, n, 2))
    && |TablesAt(hhdm, HUGE_2M, n, 1)| == Ceil(n, PER_PDPT) && |TablesAt(hhdm, HUGE_2M, n, 2)| == Ceil(n, PER_PD)
    && before == after + Ceil(n, PER_PDPT) + Ceil(n, PER_PD)
  }

  lemma CountsClose(m0: Mem, mem: Mem, root: nat, hhdm: nat, n: nat, before: nat, after: nat)
    requires Ledger(m0, mem, root, TablePaths(hhdm, HUGE_2M, n, 2), before, after) && FreshRoot(m0, root)
    requires hhdm % GIB_512 == 0 && CanonicalRange(hhdm, n * HUGE_2M)
    ensures Counted(mem, root, hhdm, n, before, after)
  {
    hide Reach, Path, Ceil, TablesAt, CanonicalRange;
    TableCount(hhdm, n, 1);
    TableCount(hhdm, n, 2);
    TwoLevels(hhdm, HUGE_2M, n);
    AllNew(m0, root, TablePaths(hhdm, HUGE_2M, n, 2));
  }

  lemma TwoLevels(start: nat, step: nat, n: nat)
    ensures TablePaths(start, step, n, 2) == TablesAt(start, step, n, 1) + TablesAt(start, step, n, 2)
    ensures |TablePaths(start, step, n, 2)| == |TablesAt(start, step, n, 1)| + |TablesAt(start, step, n, 2)|
    ensures [] !in TablePaths(start, step, n, 2)
  {
    hide Path;
    assert TablePaths(start, step, n, 1) == TablesAt(start, step, n, 1);
    assert TablesAt(start, step, n, 1) !! TablesAt(start, step, n, 2) by {
      assert forall p | p in TablesAt(start, step, n, 1) :: |p| == 1;
      assert forall p | p in TablesAt(start, step, n, 2) :: |p| == 2;
    }
  }

  lemma AllNew(m0: Mem, root: nat, paths: set<seq<nat>>)
    requires FreshRoot(m0, root) && [] !in paths
    ensures New(m0, root, paths) == paths
  {
    hide Reach;
  }

  /** One turn of the loop: the tables the i-th huge page lacks, and its entry. */
  method MapHugePage(phys: PhysMem, hhdm: nat, pml4Phys: nat, i: nat, ghost first: Mem, ghost before: nat,
                     ghost start: Snapshot, ghost ours: set<nat>)
    returns (ok: bool)
    requires Kept(start, phys.Snap(), pml4Phys, phys.Pool(), ours)
    requires Building(phys, pml4Phys) && Window(phys.Mem(), pml4Phys, hhdm, i)
    requires hhdm % HUGE_2M == 0 && CanonicalRange(hhdm, (i + 1) * HUGE_2M)
    requires (i + 1) * HUGE_2M <= ADDR_LIMIT
    requires Ledger(first, phys.Mem(), pml4Phys, TablePaths(hhdm, HUGE_2M, i, 2), before, |phys.Pool()|)
    modifies phys.buddy`ram, phys.buddy`lists, phys.buddy`live, phys.buddy`stats
    modifies phys.buddy.freeLists, phys.buddy.bitmaps, phys.Arrays()
    ensures ok ==> Building(phys, pml4Phys) && Window(phys.Mem(), pml4Phys, hhdm, i + 1)
    ensures ok ==> Ledger(first, phys.Mem(), pml4Phys, TablePaths(hhdm, HUGE_2M, i + 1, 2), before, |phys.Pool()|)
    ensures !ok ==> before < |New(first, pml4Phys, TablePaths(hhdm, HUGE_2M, i + 1, 2))|
    ensures Kept(start, phys.Snap(), pml4Phys, phys.Pool(), ours)
  {
    hide PhysMem.Valid, PhysMem.Pool, Walk, NoHuge, NonSharing, Path, Reach, Encode, Addr, Fresh, Extends, Window,
      Index, Canonical, Ledger, TablePaths, New, Kept, PhysMem.Mem, PhysMem.Arrays, Table;
    ghost var m0, done := phys.Mem(), TablePaths(hhdm, HUGE_2M, i, 2);
    var physAddr := i * HUGE_2M;
    var virt := hhdm + physAddr;
    TwoMore(hhdm, HUGE_2M, i);
    RootReached(m0, pml4Phys, virt);
    NextUnmapped(m0, pml4Phys, hhdm, i);
    ghost var after := |phys.Pool()|;
    var pdpt := DescendOrCreate(phys, pml4Phys, pml4Phys, virt, 4, start, ours);
    if pdpt.None? {
      LedgerShort(first, m0, pml4Phys, done, Path(virt, 1), TablePaths(hhdm, HUGE_2M, i + 1, 2), before);
      return false;
    }
    ghost var m1 := phys.Mem();
    LedgerStep(first, m0, m1, pml4Phys, done, Path(virt, 1), before, after, |phys.Pool()|);
    WindowExtends(m0, m1, pml4Phys, hhdm, i, Path(virt, 1));
    NextUnmapped(m1, pml4Phys, hhdm, i);
    ghost var after1 := |phys.Pool()|;
    var pd := DescendOrCreate(phys, pml4Phys, pdpt.value, virt, 3, start, ours);
    if pd.None? {
      LedgerShort(first, m1, pml4Phys, done + {Path(virt, 1)}, Path(virt, 2), TablePaths(hhdm, HUGE_2M, i + 1, 2),
                  before);
      return false;
    }
    ghost var m2 := phys.Mem();
    LedgerStep(first, m1, m2, pml4Phys, done + {Path(virt, 1)}, Path(virt, 2), before, after1, |phys.Pool()|);
    WindowExtends(m1, m2, pml4Phys, hhdm, i, Path(virt, 2));
    WriteHugeEntry(phys, hhdm, pml4Phys, i, pd.value, start, ours);
    LedgerKept(first, m2, phys.Mem(), pml4Phys, TablePaths(hhdm, HUGE_2M, i + 1, 2), before, |phys.Pool()|);
    return true;
  }

  lemma TwoMore(start: nat, step: nat, i: nat)
    ensures TablePaths(start, step, i + 1, 2) ==
              TablePaths(start, step, i, 2) + {Path(start + i * step, 1)} + {Path(start + i * step, 2)}
  {
    hide Path;
    TablesGrow(start, step, i, 1);
    TablesGrow(start, step, i, 2);
    hide TablesAt;
    assert forall n :: TablePaths(start, step, n, 1) == TablesAt(start, step, n, 1);
  }

  lemma ThreeMore(start: nat, step: nat, i: nat)
    ensures TablePaths(start, step, i + 1, 3) ==
              TablePaths(start, step, i, 3) + {Path(start + i * step, 1)} + {Path(start + i * step, 2)}
              + {Path(start + i * step, 3)}
  {
    hide Path;
    TwoMore(start, step, i);
    TablesGrow(start, step, i, 3);
    hide TablesAt;
  }

  /** Writing a leaf changes no path. */
  lemma LedgerKept(m0: Mem, mem: Mem, mem': Mem, root: nat, done: set<seq<nat>>, before: nat, after: nat)
    requires Ledger(m0, mem, root, done, before, after)
    requires forall p :: Reach(mem', root, p) == Reach(mem, root, p)
    ensures Ledger(m0, mem', root, done, before, after)
  {
    hide Reach;
  }

  /** Write the i-th huge page's entry into its page directory. */
  method WriteHugeEntry(phys: PhysMem, hhdm: nat, ghost root: nat, i: nat, pd: nat, ghost start: Snapshot,
                        ghost ours: set<nat>)
    requires Kept(start, phys.Snap(), root, phys.Pool(), ours)
    requires Building(phys, root) && Window(phys.Mem(), root, hhdm, i)
    requires hhdm % HUGE_2M == 0 && CanonicalRange(hhdm, (i + 1) * HUGE_2M) && (i + 1) * HUGE_2M <= ADDR_LIMIT
    requires Reach(phys.Mem(), root, Path(hhdm + i * HUGE_2M, 2)) == Some(pd)
    modifies phys.Arrays()
    ensures Building(phys, root) && Window(phys.Mem(), root, hhdm, i + 1)
    ensures Kept(start, phys.Snap(), root, phys.Pool(), ours)
    ensures phys.Pool() == old(phys.Pool()) && forall p :: Reach(phys.Mem(), root, p) == Reach(old(phys.Mem()), root, p)
  {
    hide PhysMem.Valid, PhysMem.Pool, Walk, NoHuge, NonSharing, Path, Reach, Encode, Addr, Fresh, Window, Index, Flags,
      Kept;
    ghost var m0, was := phys.Mem(), phys.Snap();
    HugeEntry(i);
    WindowGrows(m0, root, hhdm, i, pd, Encode(i * HUGE_2M, HUGE_2M, HHDM_FLAGS));
    phys.WriteEntry(pd, Index(hhdm + i * HUGE_2M, 2), Encode(i * HUGE_2M, HUGE_2M, HHDM_FLAGS));
    FreshSame(phys.Pool(), m0, phys.Mem(), root);
    KeptEntry(start, was, phys.Snap(), root, phys.Pool(), ours, Path(hhdm + i * HUGE_2M, 2), pd,
              Index(hhdm + i * HUGE_2M, 2), Encode(i * HUGE_2M, HUGE_2M, HHDM_FLAGS));
  }

  lemma NextUnmapped(mem: Mem, root: nat, hhdm: nat, i: nat)
    requires Window(mem, root, hhdm, i) && CanonicalRange(hhdm, (i + 1) * HUGE_2M)
    ensures Canonical(hhdm + i * HUGE_2M) && NoHuge(mem, root, 0, hhdm + i * HUGE_2M)
  {
  }

  lemma FreshSame(pool: set<nat>, mem: Mem, mem': Mem, root: nat)
    requires Fresh(pool, mem, root) && mem'.Keys == mem.Keys
    requires forall p :: Reach(mem', root, p) == Reach(mem, root, p)
    ensures Fresh(pool, mem', root)
  {
  }

  // -------------------------------------------------------------- the image

  /** The tables after the first `i` pages of a 4 KiB mapping were added to `before`. */
  ghost predicate Image(before: Mem, mem: Mem, root: nat, start: nat, target: nat, prot: nat, i: nat) {
    && LeavesIn(before, mem, root, start, target, prot, i)
    && (forall w: nat | Canonical(w) ::
          Walk(mem, root, 0, w) == Linear(start, i * PAGE, target, w, Walk(before, root, 0, w)))
    && (forall w: nat :: NoHuge(mem, root, 0, w) == NoHuge(before, root, 0, w))
  }

  lemma ImageExtends(before: Mem, mem: Mem, mem': Mem, root: nat, start: nat, target: nat, prot: nat, i: nat,
                     p: seq<nat>)
    requires Image(before, mem, root, start, target, prot, i) && Extends(mem, mem', root, p) && |p| <= 3
    ensures Image(before, mem', root, start, target, prot, i)
  {
    hide Entry, Reach, Walk, NoHuge, Path, Canonical, LinksTable, Present;
    forall q | |q| <= 3
      ensures Entry(mem', root, q) == Entry(before, root, q) || NewLink(before, mem', root, q)
    {
      if NewLink(before, mem, root, q) {
        PresentLink(Entry(mem, root, q));
      }
    }
    forall w: nat | Canonical(w)
      ensures Entry(mem', root, Path(w, 4)) == LeafAfter(start, target, prot, i, w, Entry(before, root, Path(w, 4)))
    {
      assert |Path(w, 4)| == 4;
    }
  }

  lemma ImageBegins(mem: Mem, root: nat, start: nat, target: nat, prot: nat)
    ensures Image(mem, mem, root, start, target, prot, 0)
  {
    hide Walk, NoHuge, Entry, Path, Canonical, NewLink;
  }

  lemma ImageNoHuge(before: Mem, mem: Mem, root: nat, start: nat, target: nat, prot: nat, i: nat, v: nat)
    requires Image(before, mem, root, start, target, prot, i) && NoHuge(before, root, 0, v)
    ensures NoHuge(mem, root, 0, v)
  {
  }

  lemma ImageGrows(before: Mem, mem: Mem, root: nat, pool: set<nat>, start: nat, target: nat, prot: nat,
                   i: nat, pt: nat)
    requires NonSharing(mem, root) && Fresh(pool, mem, root) && Image(before, mem, root, start, target, prot, i)
    requires start % PAGE == 0 && target % PAGE == 0 && target + (i + 1) * PAGE <= ADDR_LIMIT && FlagsOk(prot)
    requires Canonical(start + i * PAGE) && Reach(mem, root, Path(start + i * PAGE, 3)) == Some(pt)
    ensures Table(mem, pt)
    ensures var mem' := SetEntry(mem, pt, Index(start + i * PAGE, 3), Encode(target + i * PAGE, PAGE, prot));
      && NonSharing(mem', root) && Fresh(pool, mem', root) && Image(before, mem', root, start, target, prot, i + 1)
      && forall p :: Reach(mem', root, p) == Reach(mem, root, p)
  {
    hide Walk, NoHuge, Reach, Path, NonSharing, Fresh, Encode, Addr, SetEntry, Index, Canonical, EntrySet, LeavesIn,
      LeafIs;
    var v := start + i * PAGE;
    assert (target + i * PAGE) % PAGE == 0;
    LeafReplaced(mem, root, pool, v, pt, Encode(target + i * PAGE, PAGE, prot));
    LeafMapped(target + i * PAGE, prot);
    hide LeafTranslation;
    var mem' := SetEntry(mem, pt, Index(v, 3), Encode(target + i * PAGE, PAGE, prot));
    LeafPut(mem, mem', root, v, target + i * PAGE + prot + 1);
    LeavesStep(before, mem, mem', root, start, target, prot, i);
    forall w: nat | Canonical(w)
      ensures Walk(mem', root, 0, w) == Linear(start, (i + 1) * PAGE, target, w, Walk(before, root, 0, w))
    {
      SpanRange(start, PAGE, i, w);
    }
  }

  lemma LeafPut(mem: Mem, mem': Mem, root: nat, v: nat, e: nat)
    requires EntrySet(mem, mem', root, Path(v, 4), e)
    ensures LeafIs(mem, mem', root, v, e)
  {
    hide Entry, Path;
  }

  /** Map a run of small pages one by one. False stands for the panic: when there are fewer
      frames than tables missing. */
  method MapRange4k(phys: PhysMem, pml4Phys: nat, virtStart: nat, physStart: nat, pages: nat, prot: nat,
                    ghost start: Snapshot, ghost ours: set<nat>)
    returns (ok: bool)
    requires Kept(start, phys.Snap(), pml4Phys, phys.Pool(), ours)
    requires Building(phys, pml4Phys) && FlagsOk(prot)
    requires virtStart % PAGE == 0 && physStart % PAGE == 0
    requires CanonicalRange(virtStart, pages * PAGE) && physStart + pages * PAGE <= ADDR_LIMIT
    requires forall i: nat | i < pages :: NoHuge(phys.Mem(), pml4Phys, 0, virtStart + i * PAGE)
    modifies phys.buddy`ram, phys.buddy`lists, phys.buddy`live, phys.buddy`stats
    modifies phys.buddy.freeLists, phys.buddy.bitmaps, phys.Arrays()
    ensures ok ==> Building(phys, pml4Phys)
    ensures ok ==> Image(old(phys.Mem()), phys.Mem(), pml4Phys, virtStart, physStart, prot, pages)
    ensures var all := TablePaths(virtStart, PAGE, pages, 3);
      && (ok ==> Ledger(old(phys.Mem()), phys.Mem(), pml4Phys, all, |old(phys.Pool())|, |phys.Pool()|))
      && (ok <==> |old(phys.Pool())| >= |New(old(phys.Mem()), pml4Phys, all)|)
    ensures Kept(start, phys.Snap(), pml4Phys, phys.Pool(), ours)
  {
    hide PhysMem.Valid, PhysMem.Pool, Walk, NoHuge, NonSharing, Path, Reach, Encode, Addr, Fresh, Index, Ledger,
      TablePaths, New, Kept, Image, PhysMem.Mem, PhysMem.Arrays, Table;
    ghost var first, before := phys.Mem(), |phys.Pool()|;
    var i: nat := 0;
    LedgerOpens(first, pml4Phys, before);
    ImageBegins(first, pml4Phys, virtStart, physStart, prot);
    NoPaths(virtStart, PAGE, 3);
    while i < pages
      modifies phys.buddy`ram, phys.buddy`lists, phys.buddy`live, phys.buddy`stats
      modifies phys.buddy.freeLists, phys.buddy.bitmaps, phys.Arrays()
      invariant i <= pages && Building(phys, pml4Phys)
      invariant Kept(start, phys.Snap(), pml4Phys, phys.Pool(), ours)
      invariant Image(first, phys.Mem(), pml4Phys, virtStart, physStart, prot, i)
      invariant Ledger(first, phys.Mem(), pml4Phys, TablePaths(virtStart, PAGE, i, 3), before, |phys.Pool()|)
    {
      ok := MapPage(phys, pml4Phys, virtStart, physStart, i, prot, first, before, start, ours);
      if !ok {
        PathsMore(virtStart, PAGE, i + 1, pages, 3);
        NewMore(first, pml4Phys, TablePaths(virtStart, PAGE, i + 1, 3), TablePaths(virtStart, PAGE, pages, 3));
        return false;
      }
      i := i + 1;
    }
    LedgerBalance(first, phys.Mem(), pml4Phys, TablePaths(virtStart, PAGE, i, 3), before, |phys.Pool()|);
    return true;
  }

  /** One turn of the loop: the tables the i-th page lacks, and its leaf. */
  method MapPage(phys: PhysMem, pml4Phys: nat, virtStart: nat, physStart: nat, i: nat, prot: nat, ghost first: Mem,
                 ghost before: nat, ghost start: Snapshot, ghost ours: set<nat>)
    returns (ok: bool)
    requires Kept(start, phys.Snap(), pml4Phys, phys.Pool(), ours)
    requires Building(phys, pml4Phys) && FlagsOk(prot)
    requires virtStart % PAGE == 0 && physStart % PAGE == 0
    requires Canonical(virtStart + i * PAGE) && physStart + (i + 1) * PAGE <= ADDR_LIMIT
    requires NoHuge(first, pml4Phys, 0, virtStart + i * PAGE)
    requires Image(first, phys.Mem(), pml4Phys, virtStart, physStart, prot, i)
    requires Ledger(first, phys.Mem(), pml4Phys, TablePaths(virtStart, PAGE, i, 3), before, |phys.Pool()|)
    modifies phys.buddy`ram, phys.buddy`lists, phys.buddy`live, phys.buddy`stats
    modifies phys.buddy.freeLists, phys.buddy.bitmaps, phys.Arrays()
    ensures ok ==> Building(phys, pml4Phys)
    ensures ok ==> Image(first, phys.Mem(), pml4Phys, virtStart, physStart, prot, i + 1)
    ensures ok ==> Ledger(first, phys.Mem(), pml4Phys, TablePaths(virtStart, PAGE, i + 1, 3), before, |phys.Pool()|)
    ensures !ok ==> before < |New(first, pml4Phys, TablePaths(virtStart, PAGE, i + 1, 3))|
    ensures Kept(start, phys.Snap(), pml4Phys, phys.Pool(), ours)
  {
    hide PhysMem.Valid, PhysMem.Pool, Walk, NoHuge, NonSharing, Path, Reach, Encode, Addr, Fresh, Index, Extends,
      Canonical, Image, Ledger, TablePaths, New, Kept, PhysMem.Mem, PhysMem.Arrays, Table;
    var virt := virtStart + i * PAGE;
    ghost var m0, d0, all := phys.Mem(), TablePaths(virtStart, PAGE, i, 3), TablePaths(virtStart, PAGE, i + 1, 3);
    ThreeMore(virtStart, PAGE, i);
    ImageNoHuge(first, m0, pml4Phys, virtStart, physStart, prot, i, virt);
    RootReached(m0, pml4Phys, virt);
    ghost var a0 := |phys.Pool()|;
    var pdpt := DescendOrCreate(phys, pml4Phys, pml4Phys, virt, 4, start, ours);
    if pdpt.None? {
      LedgerShort(first, m0, pml4Phys, d0, Path(virt, 1), all, before);
      return false;
    }
    ghost var m1, a1, d1 := phys.Mem(), |phys.Pool()|, d0 + {Path(virt, 1)};
    LedgerStep(first, m0, m1, pml4Phys, d0, Path(virt, 1), before, a0, a1);
    ImageExtends(first, m0, m1, pml4Phys, virtStart, physStart, prot, i, Path(virt, 1));
    ImageNoHuge(first, m1, pml4Phys, virtStart, physStart, prot, i, virt);
    var pd := DescendOrCreate(phys, pml4Phys, pdpt.value, virt, 3, start, ours);
    if pd.None? {
      LedgerShort(first, m1, pml4Phys, d1, Path(virt, 2), all, before);
      return false;
    }
    ghost var m2, a2, d2 := phys.Mem(), |phys.Pool()|, d1 + {Path(virt, 2)};
    LedgerStep(first, m1, m2, pml4Phys, d1, Path(virt, 2), before, a1, a2);
    ImageExtends(first, m1, m2, pml4Phys, virtStart, physStart, prot, i, Path(virt, 2));
    ImageNoHuge(first, m2, pml4Phys, virtStart, physStart, prot, i, virt);
    var pt := DescendOrCreate(phys, pml4Phys, pd.value, virt, 2, start, ours);
    if pt.None? {
      LedgerShort(first, m2, pml4Phys, d2, Path(virt, 3), all, before);
      return false;
    }
    ghost var m3 := phys.Mem();
    LedgerStep(first, m2, m3, pml4Phys, d2, Path(virt, 3), before, a2, |phys.Pool()|);
    ImageExtends(first, m2, m3, pml4Phys, virtStart, physStart, prot, i, Path(virt, 3));
    WriteImagePage(phys, pml4Phys, virtStart, physStart, i, pt.value, prot, first, start, ours);
    LedgerKept(first, m3, phys.Mem(), pml4Phys, all, before, |phys.Pool()|);
    return true;
  }

  /** Write the i-th page's leaf into its page table. */
  method WriteImagePage(phys: PhysMem, ghost root: nat, virtStart: nat, physStart: nat, i: nat, pt: nat, prot: nat,
                        ghost before: Mem, ghost start: Snapshot, ghost ours: set<nat>)
    requires Kept(start, phys.Snap(), root, phys.Pool(), ours)
    requires Building(phys, root) && FlagsOk(prot)
    requires virtStart % PAGE == 0 && physStart % PAGE == 0
    requires Canonical(virtStart + i * PAGE) && physStart + (i + 1) * PAGE <= ADDR_LIMIT
    requires Image(before, phys.Mem(), root, virtStart, physStart, prot, i)
    requires Reach(phys.Mem(), root, Path(virtStart + i * PAGE, 3)) == Some(pt)
    modifies phys.Arrays()
    ensures Building(phys, root) && Image(before, phys.Mem(), root, virtStart, physStart, prot, i + 1)
    ensures Kept(start, phys.Snap(), root, phys.Pool(), ours)
    ensures phys.Pool() == old(phys.Pool()) && forall p :: Reach(phys.Mem(), root, p) == Reach(old(phys.Mem()), root, p)
  {
    hide PhysMem.Valid, PhysMem.Pool, NonSharing, Path, Reach, Encode, Fresh, Index, Canonical, Image, Kept;
    ghost var was := phys.Snap();
    ImageGrows(before, phys.Mem(), root, phys.Pool(), virtStart, physStart, prot, i, pt);
    phys.WriteEntry(pt, Index(virtStart + i * PAGE, 3), Encode(physStart + i * PAGE, PAGE, prot));
    KeptEntry(start, was, phys.Snap(), root, phys.Pool(), ours, Path(virtStart + i * PAGE, 3), pt,
              Index(virtStart + i * PAGE, 3), Encode(physStart + i * PAGE, PAGE, prot));
  }

  // ---------------------------------------------------------------- install

  /** Where the finished tables send `w`. */
  function BootTranslation(hhdm: nat, windowBytes: nat, kernelVirt: nat, kernelBytes: nat, kernelPhys: nat, w: nat)
    : Option<nat>
  {
    Linear(kernelVirt, kernelBytes, kernelPhys, w, Linear(hhdm, windowBytes, 0, w, None))
  }

  /** Paths of all tables the boot map needs below its PML4. */
  ghost function BootPaths(hhdm: nat, hugePages: nat, kernelVirt: nat, kernelPages: nat): set<seq<nat>> {
    TablePaths(hhdm, HUGE_2M, hugePages, 2) + TablePaths(kernelVirt, PAGE, kernelPages, 3)
  }

  /** At the end of the walk of `w` the entry at `depth` has exactly the flags `bits`; the entries
      above it are writable and forbid nothing, so those flags decide. */
  ghost predicate Granted(mem: Mem, root: nat, w: nat, depth: nat, bits: set<nat>)
    requires depth < 4
  {
    && (forall d: nat | 1 <= d <= depth :: LinksTable(Entry(mem, root, Path(w, d))))
    && Flags(Entry(mem, root, Path(w, depth + 1)), bits)
  }

  /** The rights of both maps: the window is writable, huge, global and not executable, the image
      writable, executable and global. */
  ghost predicate BootRights(mem: Mem, root: nat, hhdm: nat, windowBytes: nat, kernelVirt: nat, kernelBytes: nat) {
    && (forall w: nat | Canonical(w) && hhdm <= w < hhdm + windowBytes :: Granted(mem, root, w, 2, {0, 1, 7, 8, 63}))
    && (forall w: nat | Canonical(w) && kernelVirt <= w < kernelVirt + kernelBytes ::
          Granted(mem, root, w, 3, {0, 1, 8}))
  }

  /** An entry that is there has writable entries all the way up. */
  lemma GrantedBy(mem: Mem, root: nat, w: nat, depth: nat, bits: set<nat>)
    requires TablesOpen(mem, root) && depth < 4 && 0 in bits && Flags(Entry(mem, root, Path(w, depth + 1)), bits)
    ensures Granted(mem, root, w, depth, bits)
  {
    hide Entry, Points, LinksTable, Reach, Path, Index, Flags, Present, TablesOpen;
    FlagsPresent(Entry(mem, root, Path(w, depth + 1)), bits);
    PathSnoc(w, depth);
    EntryHeld(mem, root, Path(w, depth), Index(w, depth));
    forall d: nat | 1 <= d <= depth
      ensures LinksTable(Entry(mem, root, Path(w, d)))
    {
      PathPrefix(w, d, depth);
      if Reach(mem, root, Path(w, d)).None? {
        ReachPrefix(mem, root, Path(w, d), Path(w, depth));
      }
      TableLinked(mem, root, Path(w, d));
    }
  }

  lemma EntryHeld(mem: Mem, root: nat, p: seq<nat>, i: nat)
    requires Present(Entry(mem, root, p + [i]))
    ensures Reach(mem, root, p).Some?
  {
    EntryOf(mem, root, p, i);
    hide Reach;
  }

  lemma TableLinked(mem: Mem, root: nat, p: seq<nat>)
    requires TablesOpen(mem, root) && p != [] && Reach(mem, root, p).Some?
    ensures LinksTable(Entry(mem, root, p))
  {
    EntryPoints(mem, root, p);
    hide Reach, Entry, Points, LinksTable;
  }

  lemma FlagsPresent(e: nat, bits: set<nat>)
    requires Flags(e, bits) && 0 in bits
    ensures Present(e)
  {
    EntryFields(e, 3, 0);
  }

  lemma RightsOk(window: Mem, mem: Mem, root: nat, hhdm: nat, hugePages: nat, kernelVirt: nat, kernelPhys: nat,
                 pages: nat)
    requires Window(window, root, hhdm, hugePages)
    requires Image(window, mem, root, kernelVirt, kernelPhys, KERNEL_RWX_BOOT, pages)
    requires kernelPhys % PAGE == 0 && kernelPhys + pages * PAGE <= ADDR_LIMIT
    ensures BootRights(mem, root, hhdm, hugePages * HUGE_2M, kernelVirt, pages * PAGE)
  {
    hide Walk, NoHuge, Reach, Path, Canonical, Entry, Flags, LinksTable, Granted, LeavesIn, WindowEntries, TablesOpen;
    StillOpen(window, mem, root, kernelVirt, kernelPhys, KERNEL_RWX_BOOT, pages);
    WindowStays(window, mem, root, kernelVirt, kernelPhys, KERNEL_RWX_BOOT, pages, hhdm, hugePages * HUGE_2M);
    ImageFlags(window, mem, root, kernelVirt, kernelPhys, pages);
    forall w: nat | Canonical(w) && hhdm <= w < hhdm + hugePages * HUGE_2M
      ensures Granted(mem, root, w, 2, {0, 1, 7, 8, 63})
    {
      WindowFlag(mem, root, hhdm, hugePages * HUGE_2M, w);
      GrantedBy(mem, root, w, 2, {0, 1, 7, 8, 63});
    }
    forall w: nat | Canonical(w) && kernelVirt <= w < kernelVirt + pages * PAGE
      ensures Granted(mem, root, w, 3, {0, 1, 8})
    {
      GrantedBy(mem, root, w, 3, {0, 1, 8});
    }
  }

  lemma WindowFlag(mem: Mem, root: nat, hhdm: nat, bytes: nat, w: nat)
    requires WindowEntries(mem, root, hhdm, bytes) && Canonical(w) && hhdm <= w < hhdm + bytes
    ensures Flags(Entry(mem, root, Path(w, 3)), {0, 1, 7, 8, 63})
  {
    hide Entry, Path, Flags, Canonical;
  }

  /** New leaves leave the tables open. */
  lemma StillOpen(before: Mem, mem: Mem, root: nat, start: nat, target: nat, prot: nat, i: nat)
    requires TablesOpen(before, root) && LeavesIn(before, mem, root, start, target, prot, i)
    ensures TablesOpen(mem, root)
  {
    hide Entry, Path, LinksTable, Present, Canonical, Huge;
  }

  /** Entries of the window are there, so linking tables replaces none of them. */
  lemma WindowStays(before: Mem, mem: Mem, root: nat, start: nat, target: nat, prot: nat, i: nat, hhdm: nat,
                    bytes: nat)
    requires WindowEntries(before, root, hhdm, bytes) && LeavesIn(before, mem, root, start, target, prot, i)
    ensures WindowEntries(mem, root, hhdm, bytes)
  {
    hide Entry, Path, LinksTable, Present, Canonical, Flags;
    forall w: nat | Canonical(w) && hhdm <= w < hhdm + bytes
      ensures Flags(Entry(mem, root, Path(w, 3)), {0, 1, 7, 8, 63})
    {
      FlagsPresent(Entry(before, root, Path(w, 3)), {0, 1, 7, 8, 63});
      assert |Path(w, 3)| == 3;
    }
  }

  lemma ImageFlags(before: Mem, mem: Mem, root: nat, start: nat, target: nat, i: nat)
    requires LeavesIn(before, mem, root, start, target, KERNEL_RWX_BOOT, i)
    requires target % PAGE == 0 && target + i * PAGE <= ADDR_LIMIT
    ensures forall w: nat | Canonical(w) && start <= w < start + i * PAGE ::
              Flags(Entry(mem, root, Path(w, 4)), {0, 1, 8})
  {
    ProtectionsOk();
    hide Entry, Path, Canonical, LeavesIn, Flags, HasFlags;
    LeafFlags(before, mem, root, start, target, KERNEL_RWX_BOOT, i);
    forall w: nat | Canonical(w) && start <= w < start + i * PAGE
      ensures Flags(Entry(mem, root, Path(w, 4)), {0, 1, 8})
    {
      FlagsOf(Entry(mem, root, Path(w, 4)), KERNEL_RWX_BOOT, {1, 8}, {0, 1, 8});
    }
  }

  lemma FlagsOf(e: nat, flags: nat, bits: set<nat>, all: set<nat>)
    requires HasFlags(e, flags) && Flags(flags, bits) && all == bits + {0}
    ensures Flags(e, all)
  {
  }

  /** Build the kernel's tables; the new CR3, or none where the source panics, which is when
      there are fewer frames than tables. */
  method InstallKernelPml4(phys: PhysMem, hhdm: nat, kernelVirtStart: nat, kernelVirtEnd: nat,
                           kernelPhysStart: nat, physMemSize: nat) returns (cr3: Option<nat>)
    requires phys.Valid()
    requires hhdm % HUGE_2M == 0 && CanonicalRange(hhdm, HugeCount(physMemSize) * HUGE_2M)
    requires HugeCount(physMemSize) * HUGE_2M <= ADDR_LIMIT
    requires kernelVirtStart <= kernelVirtEnd && kernelVirtStart % PAGE == 0 && kernelPhysStart % PAGE == 0
    requires CanonicalRange(kernelVirtStart, PageCount(kernelVirtEnd - kernelVirtStart) * PAGE)
    requires kernelPhysStart + PageCount(kernelVirtEnd - kernelVirtStart) * PAGE <= ADDR_LIMIT
    requires kernelVirtStart + PageCount(kernelVirtEnd - kernelVirtStart) * PAGE <= hhdm ||
             hhdm + HugeCount(physMemSize) * HUGE_2M <= kernelVirtStart
    modifies phys.buddy`ram, phys.buddy`lists, phys.buddy`live, phys.buddy`stats
    modifies phys.buddy.freeLists, phys.buddy.bitmaps, phys.Arrays()
    ensures cr3.Some? ==> Building(phys, cr3.value)
    ensures cr3.Some? ==> forall w: nat | Canonical(w) ::
              Walk(phys.Mem(), cr3.value, 0, w) ==
                BootTranslation(hhdm, HugeCount(physMemSize) * HUGE_2M, kernelVirtStart,
                                PageCount(kernelVirtEnd - kernelVirtStart) * PAGE, kernelPhysStart, w)
    ensures cr3.Some? ==>
              BootRights(phys.Mem(), cr3.value, hhdm, HugeCount(physMemSize) * HUGE_2M, kernelVirtStart,
                         PageCount(kernelVirtEnd - kernelVirtStart) * PAGE)
    ensures var needed := 1 + |BootPaths(hhdm, HugeCount(physMemSize), kernelVirtStart,
                                         PageCount(kernelVirtEnd - kernelVirtStart))|;
      && (cr3.Some? <==> |old(phys.Pool())| >= needed)
      && (cr3.Some? ==> |old(phys.Pool())| == |phys.Pool()| + needed)
    ensures KeptOutside(old(phys.Mem()), phys.Mem(), old(phys.Pool()))
    ensures Served(old(phys.buddy.Abs()), old(phys.buddy.ram), phys.buddy.Abs(), phys.buddy.ram)
  {
    hide PhysMem.Valid, PhysMem.Pool, Walk, NoHuge, NonSharing, Path, Reach, Encode, Addr, Index, Unreached, Ledger,
      Fresh, FreshRoot, Window, BootTranslation, BootPaths, CanonicalRange, Canonical, ZeroTable, HugeCount, PageCount,
      BootRights, Served;
    ghost var pool0, start := phys.Pool(), phys.Snap();
    var root := AllocZeroFrame(phys);
    if root.None? {
      return None;
    }
    PoolLess(pool0, root.value);
    EmptyWindow(phys.Mem(), root.value, hhdm);
    PoolIsFresh(phys, root.value);
    RootKept(start, phys.Snap(), root.value, pool0, phys.Pool());
    var ok := FillRoot(phys, root.value, hhdm, HugeCount(physMemSize), physMemSize, kernelVirtStart, kernelPhysStart,
                       PageCount(kernelVirtEnd - kernelVirtStart), start, pool0);
    return if ok then root else None;
  }

  /** The two maps of a new root, one after the other. */
  method FillRoot(phys: PhysMem, root: nat, hhdm: nat, ghost hugePages: nat, physMemSize: nat, kernelVirt: nat,
                  kernelPhys: nat, kernelPages: nat, ghost start: Snapshot, ghost ours: set<nat>) returns (ok: bool)
    requires Kept(start, phys.Snap(), root, phys.Pool(), ours)
    requires Building(phys, root) && Window(phys.Mem(), root, hhdm, 0) && FreshRoot(phys.Mem(), root)
    requires hugePages == HugeCount(physMemSize) && hugePages * HUGE_2M <= ADDR_LIMIT
    requires hhdm % HUGE_2M == 0 && CanonicalRange(hhdm, hugePages * HUGE_2M)
    requires kernelVirt % PAGE == 0 && kernelPhys % PAGE == 0 && kernelPhys + kernelPages * PAGE <= ADDR_LIMIT
    requires CanonicalRange(kernelVirt, kernelPages * PAGE)
    requires kernelVirt + kernelPages * PAGE <= hhdm || hhdm + hugePages * HUGE_2M <= kernelVirt
    modifies phys.buddy`ram, phys.buddy`lists, phys.buddy`live, phys.buddy`stats
    modifies phys.buddy.freeLists, phys.buddy.bitmaps, phys.Arrays()
    ensures ok ==> Building(phys, root)
    ensures ok ==> forall w: nat | Canonical(w) ::
              Walk(phys.Mem(), root, 0, w) ==
                BootTranslation(hhdm, hugePages * HUGE_2M, kernelVirt, kernelPages * PAGE, kernelPhys, w)
    ensures ok ==> BootRights(phys.Mem(), root, hhdm, hugePages * HUGE_2M, kernelVirt, kernelPages * PAGE)
    ensures ok <==> |old(phys.Pool())| >= |BootPaths(hhdm, hugePages, kernelVirt, kernelPages)|
    ensures ok ==> |old(phys.Pool())| == |phys.Pool()| + |BootPaths(hhdm, hugePages, kernelVirt, kernelPages)|
    ensures Kept(start, phys.Snap(), root, phys.Pool(), ours)
  {
    hide PhysMem.Valid, PhysMem.Pool, Walk, NoHuge, NonSharing, Path, Reach, Ledger, TablePaths, New, Fresh, FreshRoot,
      Counted, Window, Image, BootTranslation, CanonicalRange, Canonical, HugeCount, BootRights,
      Kept, PhysMem.Mem, PhysMem.Arrays, Table;
    ghost var m0, a0 := phys.Mem(), |phys.Pool()|;
    ghost var window, image := TablePaths(hhdm, HUGE_2M, hugePages, 2), TablePaths(kernelVirt, PAGE, kernelPages, 3);
    NoEmptyPath(hhdm, HUGE_2M, hugePages, 2);
    NoEmptyPath(kernelVirt, PAGE, kernelPages, 3);
    ok := MapHhdm2m(phys, hhdm, root, physMemSize, start, ours);
    ghost var m1, a1 := phys.Mem(), |phys.Pool()|;
    BootNeeds(m0, m1, root, window, image, ok, a0, a1);
    if !ok {
      return;
    }
    ImageOutside(m1, root, hhdm, hugePages, kernelVirt, kernelPages);
    ok := MapRange4k(phys, root, kernelVirt, kernelPhys, kernelPages, KERNEL_RWX_BOOT, start, ours);
    if ok {
      LedgerBalance(m1, phys.Mem(), root, image, a1, |phys.Pool()|);
      BootWalk(m1, phys.Mem(), root, hhdm, hugePages, kernelVirt, kernelPhys, kernelPages);
      RightsOk(m1, phys.Mem(), root, hhdm, hugePages, kernelVirt, kernelPhys, kernelPages);
    }
  }

  lemma BootWalk(window: Mem, mem: Mem, root: nat, hhdm: nat, hugePages: nat, kernelVirt: nat, kernelPhys: nat,
                 pages: nat)
    requires Window(window, root, hhdm, hugePages)
    requires Image(window, mem, root, kernelVirt, kernelPhys, KERNEL_RWX_BOOT, pages)
    ensures forall w: nat | Canonical(w) ::
              Walk(mem, root, 0, w) ==
                BootTranslation(hhdm, hugePages * HUGE_2M, kernelVirt, pages * PAGE, kernelPhys, w)
  {
    hide Walk, NoHuge, Reach, Canonical;
  }

  /** A zeroed root taken from the pool is all that has been written. */
  lemma RootKept(start: Snapshot, now: Snapshot, root: nat, pool: set<nat>, pool': set<nat>)
    requires Served(start.pages, start.words, now.pages, now.words) && root in pool && pool' <= pool
    requires root in start.mem && now.mem == start.mem[root := ZeroTable()]
    requires FreshRoot(now.mem, root)
    ensures Kept(start, now, root, pool', pool)
  {
    hide Served, ZeroTable;
    assert forall q | Reach(now.mem, root, q).Some? :: q == [];
  }

  /** Around a root no page of the buddy is in use. */
  lemma PoolIsFresh(phys: PhysMem, root: nat)
    requires phys.Valid() && root !in phys.Pool()
    requires forall c | c != root :: Unreached(phys.Mem(), root, c)
    ensures Fresh(phys.Pool(), phys.Mem(), root)
  {
    hide PhysMem.Valid, PhysMem.Pool, Unreached, Mappable;
    forall c | c in phys.Pool()
      ensures c in phys.Mem() && Mappable(c, PAGE)
    {
      phys.PoolFrame(c);
    }
  }

  lemma {:induction false} NoEmptyPath(start: nat, step: nat, n: nat, levels: nat)
    requires levels <= 4
    ensures [] !in TablePaths(start, step, n, levels)
  {
    hide Path;
    if levels > 0 {
      NoEmptyPath(start, step, n, levels - 1);
    }
  }

  /** From a 512 GiB boundary the boot map needs no more than the window's tables by the
      formula and three tables for each kernel page. */
  lemma BootBound(hhdm: nat, hugePages: nat, kernelVirt: nat, kernelPages: nat)
    requires hhdm % GIB_512 == 0 && CanonicalRange(hhdm, hugePages * HUGE_2M)
    ensures |BootPaths(hhdm, hugePages, kernelVirt, kernelPages)| <=
              Ceil(hugePages, PER_PDPT) + Ceil(hugePages, PER_PD) + 3 * kernelPages
  {
    hide Path, TablesAt, Ceil, CanonicalRange;
    TableCount(hhdm, hugePages, 1);
    TableCount(hhdm, hugePages, 2);
    TwoLevels(hhdm, HUGE_2M, hugePages);
    PathsBound(kernelVirt, PAGE, kernelPages, 3);
    UnionCount(TablePaths(hhdm, HUGE_2M, hugePages, 2), TablePaths(kernelVirt, PAGE, kernelPages, 3));
  }

  lemma {:induction false} PathsBound(start: nat, step: nat, n: nat, levels: nat)
    requires levels <= 4
    ensures |TablePaths(start, step, n, levels)| <= levels * n
  {
    hide Path, TablesAt;
    if levels > 0 {
      PathsBound(start, step, n, levels - 1);
      TablesBound(start, step, n, levels);
      UnionCount(TablePaths(start, step, n, levels - 1), TablesAt(start, step, n, levels));
    }
  }

  lemma {:induction false} TablesBound(start: nat, step: nat, n: nat, d: nat)
    requires d <= 4
    ensures |TablesAt(start, step, n, d)| <= n
  {
    hide Path;
    if n == 0 {
      assert TablesAt(start, step, 0, d) == {};
    } else {
      TablesBound(start, step, n - 1, d);
      TablesGrow(start, step, n - 1, d);
    }
  }

  lemma UnionCount(a: set<seq<nat>>, b: set<seq<nat>>)
    ensures |a + b| <= |a| + |b|
  {
  }

  /** From a new root, what two successive builders need is one frame for each path of either. */
  lemma BootNeeds(m0: Mem, m1: Mem, root: nat, a: set<seq<nat>>, b: set<seq<nat>>, ok: bool, before: nat, after: nat)
    requires FreshRoot(m0, root) && [] !in a && [] !in b
    requires ok ==> Ledger(m0, m1, root, a, before, after)
    ensures |New(m0, root, a)| <= |a + b|
    ensures ok ==> before == after + |New(m0, root, a)| && |a + b| == |New(m0, root, a)| + |New(m1, root, b)|
  {
    hide Reach;
    AllNew(m0, root, a);
    assert a + b == a + (b - a);
    if ok {
      assert New(m1, root, b) == b - a;
    }
  }

  lemma ImageOutside(mem: Mem, root: nat, hhdm: nat, hugePages: nat, start: nat, pages: nat)
    requires Window(mem, root, hhdm, hugePages) && CanonicalRange(start, pages * PAGE)
    requires start + pages * PAGE <= hhdm || hhdm + hugePages * HUGE_2M <= start
    ensures forall i: nat | i < pages :: NoHuge(mem, root, 0, start + i * PAGE)
  {
  }
}
