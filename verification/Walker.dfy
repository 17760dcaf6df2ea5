/** The page-table walker of the running kernel: `map`, `unmap`, `translate` and
    `map_mmio` on the active tables, next to a TLB that may cache at any moment. */
module Walker {
  import Bits
  import Buddy
  import BuddyMachine
  import BuddyTheory
  import FreeList
  import opened Descent
  import opened Paging
  import opened PageTree
  import opened PhysMemory
  import opened Wrappers

  datatype MapError = OutOfFrames | Misaligned

  datatype Result<+T> = Ok(value: T) | Err(error: MapError) {
    function Found(): Option<T> { if Ok? then Some(value) else None }
  }

  // Protection flags, as bits added to PRESENT.
  const KERNEL_RO := NO_EXECUTE + GLOBAL
  const KERNEL_RW := WRITABLE + NO_EXECUTE + GLOBAL
  const KERNEL_RX := GLOBAL
  const KERNEL_RWX_BOOT := WRITABLE + GLOBAL
  const MMIO_UC := WRITABLE + NO_EXECUTE + CACHE_DISABLE + WRITE_THROUGH
  const MMIO_WC := MMIO_UC + HUGE_PAGE

  /** Every protection leaves the address field and the present bit alone, and these are its
      bits: 1 to write, 3 and 4 for the cache, 7 for the memory type, 8 for global, 63 not to
      execute. */
  lemma ProtectionsOk()
    ensures FlagsOk(KERNEL_RO) && FlagsOk(KERNEL_RW) && FlagsOk(KERNEL_RX)
    ensures FlagsOk(KERNEL_RWX_BOOT) && FlagsOk(MMIO_UC) && FlagsOk(MMIO_WC)
    ensures Flags(KERNEL_RO, {8, 63}) && Flags(KERNEL_RW, {1, 8, 63}) && Flags(KERNEL_RX, {8})
    ensures Flags(KERNEL_RWX_BOOT, {1, 8}) && Flags(MMIO_UC, {1, 3, 4, 63}) && Flags(MMIO_WC, {1, 3, 4, 7, 63})
  {
    KernelBits();
    MmioBits();
    hide Flags;
  }

  lemma KernelBits()
    ensures Flags(KERNEL_RO, {8, 63}) && Flags(KERNEL_RW, {1, 8, 63})
    ensures Flags(KERNEL_RX, {8}) && Flags(KERNEL_RWX_BOOT, {1, 8})
  {
    hide Flags, Bits.HasBits, Bits.Pow2;
    FlagBits();
    Bits.NoBit();
    FlagSum(0, {}, 8, GLOBAL, {8});
    FlagSum(GLOBAL, {8}, 1, WRITABLE, {1, 8});
    FlagSum(GLOBAL, {8}, 63, NO_EXECUTE, {8, 63});
    FlagSum(KERNEL_RO, {8, 63}, 1, WRITABLE, {1, 8, 63});
  }

  lemma MmioBits()
    ensures Flags(MMIO_UC, {1, 3, 4, 63}) && Flags(MMIO_WC, {1, 3, 4, 7, 63})
  {
    hide Flags, Bits.HasBits, Bits.Pow2;
    FlagBits();
    Bits.NoBit();
    FlagSum(0, {}, 1, WRITABLE, {1});
    FlagSum(WRITABLE, {1}, 63, NO_EXECUTE, {1, 63});
    FlagSum(WRITABLE + NO_EXECUTE, {1, 63}, 4, CACHE_DISABLE, {1, 4, 63});
    FlagSum(WRITABLE + NO_EXECUTE + CACHE_DISABLE, {1, 4, 63}, 3, WRITE_THROUGH, {1, 3, 4, 63});
    FlagSum(MMIO_UC, {1, 3, 4, 63}, 7, HUGE_PAGE, {1, 3, 4, 7, 63});
  }

  /** Every cached translation is the one the tables in `mem` give. */
  ghost predicate Agrees(tlb: map<nat, nat>, mem: Mem, root: nat) {
    forall a | a in tlb :: Cacheable(a) && Walk(mem, root, 0, a) == Some(tlb[a])
  }

  predicate Cacheable(a: nat) { Canonical(a) && a % PAGE == 0 }

  /** The processor may drop entries and may cache any page as the tables are now. */
  ghost predicate Fills(tlb: map<nat, nat>, tlb': map<nat, nat>, mem: Mem, root: nat) {
    forall a | a in tlb' ::
      (a in tlb && tlb'[a] == tlb[a]) || (Cacheable(a) && Walk(mem, root, 0, a) == Some(tlb'[a]))
  }

  ghost predicate SameTranslations(mem: Mem, mem': Mem, root: nat) {
    forall w: nat :: Walk(mem', root, 0, w) == Walk(mem, root, 0, w)
  }

  lemma FillsAgree(tlb: map<nat, nat>, tlb': map<nat, nat>, mem: Mem, root: nat)
    requires Agrees(tlb, mem, root) && Fills(tlb, tlb', mem, root)
    ensures Agrees(tlb', mem, root)
  {
  }

  lemma AgreesSame(tlb: map<nat, nat>, mem: Mem, mem': Mem, root: nat)
    requires Agrees(tlb, mem, root)
    requires forall w: nat :: Walk(mem', root, 0, w) == Walk(mem, root, 0, w)
    ensures Agrees(tlb, mem', root)
  {
  }

  class PageTableWalker {
    const phys: PhysMem
    var cr3: nat
    ghost var tlb: map<nat, nat>

    ghost predicate Valid()
      reads this`cr3, phys.buddy, phys.buddy.freeLists, phys.buddy.bitmaps, phys.Arrays()
    {
      phys.Valid() && NonSharing(phys.Mem(), cr3) && Fresh(phys.Pool(), phys.Mem(), cr3)
    }

    /** What the processor translates `v` to. */
    ghost function Translation(v: nat): Option<nat>
      reads this`cr3, phys.Arrays()
    {
      Walk(phys.Mem(), cr3, 0, v)
    }

    /** No huge page lies on the path of `v`. */
    ghost predicate NoHugeOn(v: nat)
      reads this`cr3, phys.Arrays()
    {
      NoHuge(phys.Mem(), cr3, 0, v)
    }

    ghost predicate TlbAgrees()
      reads this`cr3, this`tlb, phys.Arrays()
    {
      Agrees(tlb, phys.Mem(), cr3)
    }

    ghost predicate Reaches(v: nat, depth: nat, f: nat)
      reads this`cr3, phys.Arrays()
      requires depth <= 4
    {
      Reach(phys.Mem(), cr3, Path(v, depth)) == Some(f)
    }

    constructor (phys: PhysMem, cr3: nat)
      ensures this.phys == phys && this.cr3 == cr3 && tlb == map[]
    {
      this.phys := phys;
      this.cr3 := cr3;
      tlb := map[];
    }

    // ------------------------------------------------------------ hardware

    /** The processor fills its TLB from the tables as they are. */
    ghost method Speculate()
      modifies this`tlb
      ensures phys.Mem() == old(phys.Mem())
      ensures Fills(old(tlb), tlb, phys.Mem(), cr3)
      ensures old(TlbAgrees()) ==> TlbAgrees()
    {
      hide Walk, Agrees;
      ghost var mem := phys.Mem();
      assert Fills(tlb, tlb, mem, cr3);
      hide Fills;
      var filled :| Fills(tlb, filled, mem, cr3);
      if Agrees(tlb, mem, cr3) {
        FillsAgree(tlb, filled, mem, cr3);
      }
      tlb := filled;
      phys.SameArrays(mem);
    }

    ghost method Invlpg(v: nat)
      modifies this`tlb
      ensures tlb == old(tlb) - {v} && phys.Mem() == old(phys.Mem())
    {
      ghost var mem := phys.Mem();
      tlb := tlb - {v};
      phys.SameArrays(mem);
    }

    // ------------------------------------------------------------- walking

    /** Resolve or create the table below `tablePhys` that `vaddr` selects. */
    method DescendOrCreate(tablePhys: nat, vaddr: nat, level: nat) returns (r: Result<nat>)
      requires phys.Valid() && 2 <= level <= 4 && Table(phys.Mem(), tablePhys)
      modifies this`tlb, phys.buddy`ram, phys.buddy`lists, phys.buddy`live, phys.buddy`stats
      modifies phys.buddy.freeLists, phys.buddy.bitmaps, phys.Arrays()
      ensures phys.Valid() && (r.Err? ==> r.error == OutOfFrames)
      ensures Descended(old(phys.Mem()), old(phys.Pool()), tablePhys, Index(vaddr, 4 - level), r.Found(),
                        phys.Mem(), phys.Pool())
      ensures old(TlbAgrees()) && Unseen(old(phys.Mem()), cr3, tablePhys, Index(vaddr, 4 - level), r.Found()) ==>
                TlbAgrees()
      ensures Served(old(phys.buddy.Abs()), old(phys.buddy.ram), phys.buddy.Abs(), phys.buddy.ram)
    {
      hide PhysMem.Valid, PhysMem.Pool, Walk, Addr, Agrees, Index, Linked, Unseen, Served;
      ServedNone(phys.buddy.Abs(), phys.buddy.ram);
      var idx := Index(vaddr, 4 - level);
      var entry := phys.ReadEntry(tablePhys, idx);
      if Present(entry) {
        return Ok(Addr(entry, PAGE));
      }
      var frame := CreateTable(tablePhys, idx);
      return if frame.None? then Err(OutOfFrames) else Ok(frame.value);
    }

    /** Allocate a table and link it below an absent entry. */
    method CreateTable(tablePhys: nat, idx: nat) returns (frame: Option<nat>)
      requires phys.Valid() && Table(phys.Mem(), tablePhys) && idx < ENTRIES
      requires !Present(phys.Mem()[tablePhys][idx])
      modifies this`tlb, phys.buddy`ram, phys.buddy`lists, phys.buddy`live, phys.buddy`stats
      modifies phys.buddy.freeLists, phys.buddy.bitmaps, phys.Arrays()
      ensures phys.Valid()
      ensures Descended(old(phys.Mem()), old(phys.Pool()), tablePhys, idx, frame, phys.Mem(), phys.Pool())
      ensures old(TlbAgrees()) && Unseen(old(phys.Mem()), cr3, tablePhys, idx, frame) ==> TlbAgrees()
      ensures Served(old(phys.buddy.Abs()), old(phys.buddy.ram), phys.buddy.Abs(), phys.buddy.ram)
    {
      hide PhysMem.Valid, PhysMem.Pool, Walk, Agrees, Encode, ZeroTable, Mappable, Unseen, SetEntry, Linked, Descended,
        Served;
      ghost var mem, pool := phys.Mem(), phys.Pool();
      frame := TakeFrame();
      LinkSeen(mem, pool, cr3, tablePhys, idx, frame);
      if frame.None? {
        return;
      }
      ghost var quiet := old(TlbAgrees()) && Unseen(mem, cr3, tablePhys, idx, frame);
      WriteQuietly(tablePhys, idx, Encode(frame.value, PAGE, WRITABLE), quiet);
    }

    /** Take a zeroed frame; if no walk can tell that it was zeroed the TLB still agrees. */
    method TakeFrame() returns (r: Option<nat>)
      requires phys.Valid()
      modifies this`tlb, phys.buddy`ram, phys.buddy`lists, phys.buddy`live, phys.buddy`stats
      modifies phys.buddy.freeLists, phys.buddy.bitmaps, phys.Arrays()
      ensures phys.Valid()
      ensures r.None? ==> old(phys.Pool()) == {} == phys.Pool() && phys.Mem() == old(phys.Mem()) && tlb == old(tlb)
      ensures r.Some? ==> r.value in old(phys.Pool()) && phys.Pool() == old(phys.Pool()) - {r.value}
      ensures r.Some? ==> phys.Mem() == old(phys.Mem())[r.value := ZeroTable()]
      ensures r.Some? && old(TlbAgrees()) && SameTranslations(old(phys.Mem()), phys.Mem(), cr3) ==> TlbAgrees()
      ensures Served(old(phys.buddy.Abs()), old(phys.buddy.ram), phys.buddy.Abs(), phys.buddy.ram)
    {
      hide PhysMem.Valid, PhysMem.Pool, Walk, Agrees, ZeroTable, Served;
      ghost var mem := phys.Mem();
      r := phys.AllocTableFrame();
      if r.Some? {
        Noticed(mem, old(TlbAgrees()) && SameTranslations(mem, phys.Mem(), cr3));
      }
    }

    /** Write an entry; if no walk can tell it from the old one the TLB still agrees. */
    method WriteQuietly(tablePhys: nat, idx: nat, entry: nat, ghost quiet: bool)
      requires phys.Valid() && Table(phys.Mem(), tablePhys) && idx < ENTRIES
      requires quiet ==> TlbAgrees() && forall w: nat ::
                 Walk(SetEntry(phys.Mem(), tablePhys, idx, entry), cr3, 0, w) == Walk(phys.Mem(), cr3, 0, w)
      modifies this`tlb, phys.Arrays()
      ensures phys.Valid() && phys.Pool() == old(phys.Pool()) && (quiet ==> TlbAgrees())
      ensures phys.Mem() == SetEntry(old(phys.Mem()), tablePhys, idx, entry)
    {
      hide PhysMem.Valid, PhysMem.Pool, Walk, Agrees, SetEntry;
      ghost var mem := phys.Mem();
      phys.WriteEntry(tablePhys, idx, entry);
      Noticed(mem, quiet);
    }

    /** After a write the processor may fill its TLB; if no walk can tell the write, all is well. */
    ghost method Noticed(mem: Mem, quiet: bool)
      requires quiet ==> Agrees(tlb, mem, cr3) && SameTranslations(mem, phys.Mem(), cr3)
      modifies this`tlb
      ensures phys.Mem() == old(phys.Mem()) && (quiet ==> TlbAgrees())
    {
      hide Walk, Agrees, Fills;
      if quiet {
        AgreesSame(tlb, mem, phys.Mem(), cr3);
      }
      Speculate();
    }

    /** One more descent on the way to the page table of `vaddr`. */
    method NextTable(vaddr: nat, level: nat, table: nat, ghost m0: Mem, ghost pool0: set<nat>) returns (r: Result<nat>)
      requires phys.Valid() && 2 <= level <= 4
      requires Fresh(pool0, m0, cr3) && Table(m0, Follow(m0, cr3, 0, vaddr).frame)
      requires Travel(m0, pool0, cr3, vaddr, phys.Mem(), phys.Pool(), table, 4 - level)
      requires NoHuge(m0, cr3, 0, vaddr) || Stray(m0, cr3, vaddr) ==> TlbAgrees()
      modifies this`tlb, phys.buddy`ram, phys.buddy`lists, phys.buddy`live, phys.buddy`stats
      modifies phys.buddy.freeLists, phys.buddy.bitmaps, phys.Arrays()
      ensures phys.Valid() && (NoHuge(m0, cr3, 0, vaddr) || Stray(m0, cr3, vaddr) ==> TlbAgrees())
      ensures r.Ok? ==> Travel(m0, pool0, cr3, vaddr, phys.Mem(), phys.Pool(), r.value, 5 - level)
      ensures r.Err? ==> r.error == OutOfFrames && Halted(m0, pool0, cr3, vaddr, phys.Mem(), phys.Pool())
      ensures Served(old(phys.buddy.Abs()), old(phys.buddy.ram), phys.buddy.Abs(), phys.buddy.ram)
    {
      hide PhysMem.Valid, PhysMem.Pool, Walk, NoHuge, NonSharing, Reach, Agrees, Fresh, Follow, Descended, Unseen,
        Stray, Travel, Halted, Index, Served, PhysMem.Mem, PhysMem.Arrays, Table;
      ghost var mem, pool := phys.Mem(), phys.Pool();
      TravelTable(m0, pool0, cr3, vaddr, mem, pool, table, 4 - level);
      r := DescendOrCreate(table, vaddr, level);
      assert 5 - level == 4 - level + 1;
      TravelStep(m0, pool0, cr3, vaddr, mem, pool, table, 4 - level, r.Found(), phys.Mem(), phys.Pool());
    }

    /** The three descents of `Map`: the frame at the level of page tables. */
    method LeafTable(vaddr: nat) returns (r: Result<nat>)
      requires Valid() && TlbAgrees()
      requires Table(phys.Mem(), Follow(phys.Mem(), cr3, 0, vaddr).frame)
      modifies this`tlb, phys.buddy`ram, phys.buddy`lists, phys.buddy`live, phys.buddy`stats
      modifies phys.buddy.freeLists, phys.buddy.bitmaps, phys.Arrays()
      ensures phys.Valid() && (old(NoHugeOn(vaddr) || Stray(phys.Mem(), cr3, vaddr)) ==> TlbAgrees())
      ensures r.Ok? ==> Travel(old(phys.Mem()), old(phys.Pool()), cr3, vaddr, phys.Mem(), phys.Pool(), r.value, 3)
      ensures r.Err? ==> r.error == OutOfFrames
      ensures r.Err? ==> Halted(old(phys.Mem()), old(phys.Pool()), cr3, vaddr, phys.Mem(), phys.Pool())
      ensures Served(old(phys.buddy.Abs()), old(phys.buddy.ram), phys.buddy.Abs(), phys.buddy.ram)
    {
      hide PhysMem.Valid, PhysMem.Pool, Walk, NoHuge, NonSharing, Reach, Agrees, Fresh, Follow, Descended, Unseen,
        Stray, Travel, Halted, Index, Unreached, Served, Buddy.BuddyAllocator.Abs, PhysMem.Mem, PhysMem.Arrays, Table;
      ghost var m0, pool0, s0, w0 := phys.Mem(), phys.Pool(), phys.buddy.Abs(), phys.buddy.ram;
      TravelBegins(m0, pool0, cr3, vaddr);
      r := NextTable(vaddr, 4, cr3, m0, pool0);
      if r.Err? {
        return;
      }
      ghost var s1, w1 := phys.buddy.Abs(), phys.buddy.ram;
      r := NextTable(vaddr, 3, r.value, m0, pool0);
      ServedTwice(s0, w0, s1, w1, phys.buddy.Abs(), phys.buddy.ram);
      if r.Err? {
        return;
      }
      ghost var s2, w2 := phys.buddy.Abs(), phys.buddy.ram;
      r := NextTable(vaddr, 2, r.value, m0, pool0);
      ServedTwice(s0, w0, s2, w2, phys.buddy.Abs(), phys.buddy.ram);
    }

    /** Map the page at `vaddr` to the frame at `physAddr`; the frame it replaces, if any. */
    method Map(vaddr: nat, physAddr: nat, prot: nat) returns (r: Result<Option<nat>>)
      requires Valid() && TlbAgrees()
      requires Canonical(vaddr) && physAddr < ADDR_LIMIT && FlagsOk(prot)
      requires Table(phys.Mem(), Follow(phys.Mem(), cr3, 0, vaddr).frame)
      modifies this`tlb, phys.buddy`ram, phys.buddy`lists, phys.buddy`live, phys.buddy`stats
      modifies phys.buddy.freeLists, phys.buddy.bitmaps, phys.Arrays()
      ensures vaddr % PAGE != 0 || physAddr % PAGE != 0 <==> r == Err(Misaligned)
      ensures old(NoHugeOn(vaddr) || Stray(phys.Mem(), cr3, vaddr)) ==> Valid() && TlbAgrees()
      ensures old(NoHugeOn(vaddr)) ==>
                MapMoves(old(phys.Mem()), old(phys.Pool()), cr3, vaddr, physAddr, prot, phys.Mem(), phys.Pool(), r)
      ensures old(Stray(phys.Mem(), cr3, vaddr)) ==> SameTree(old(phys.Mem()), phys.Mem(), cr3)
      ensures MapWrites(old(phys.Mem()), old(phys.Pool()), cr3, vaddr, Encode(physAddr, PAGE, prot), phys.Mem(),
                        phys.Pool(), r)
      ensures Served(old(phys.buddy.Abs()), old(phys.buddy.ram), phys.buddy.Abs(), phys.buddy.ram)
    {
      hide PhysMem.Valid, PhysMem.Pool, Walk, NoHuge, NonSharing, Path, Reach, Encode, Addr, Agrees, Fresh, Canonical,
        Follow, Confined, SameTree, SameWalks, Stray, Travel, Halted, Index, Ledger, New, TablePaths, SetEntry,
        Served, MapWrites, MapMoves, FlagsOk, Buddy.BuddyAllocator.Abs, PhysMem.Mem, PhysMem.Arrays, Table;
      ghost var m0, pool0 := phys.Mem(), phys.Pool();
      ServedNone(phys.buddy.Abs(), phys.buddy.ram);
      if vaddr % PAGE != 0 || physAddr % PAGE != 0 {
        NothingDone(m0, pool0, cr3, vaddr, physAddr, prot);
        return Err(Misaligned);
      }
      var pt := LeafTable(vaddr);
      if pt.Err? {
        HaltedShort(m0, pool0, cr3, vaddr, physAddr, prot, phys.Mem(), phys.Pool());
        return Err(pt.error);
      }
      r := PutLeaf(pt.value, vaddr, physAddr, prot, m0, pool0);
    }

    /** Write the leaf of `vaddr` at the end of the descents and flush its page. */
    method PutLeaf(pt: nat, vaddr: nat, physAddr: nat, prot: nat, ghost m0: Mem, ghost pool0: set<nat>)
      returns (r: Result<Option<nat>>)
      requires phys.Valid() && Fresh(pool0, m0, cr3) && Travel(m0, pool0, cr3, vaddr, phys.Mem(), phys.Pool(), pt, 3)
      requires NoHuge(m0, cr3, 0, vaddr) || Stray(m0, cr3, vaddr) ==> TlbAgrees()
      requires Cacheable(vaddr) && Mappable(physAddr, PAGE) && FlagsOk(prot)
      modifies this`tlb, phys.Arrays()
      ensures r.Ok?
      ensures NoHuge(m0, cr3, 0, vaddr) || Stray(m0, cr3, vaddr) ==> Valid() && TlbAgrees()
      ensures NoHuge(m0, cr3, 0, vaddr) ==>
                MapMoves(m0, pool0, cr3, vaddr, physAddr, prot, phys.Mem(), phys.Pool(), r)
      ensures Stray(m0, cr3, vaddr) ==> SameTree(m0, phys.Mem(), cr3)
      ensures MapWrites(m0, pool0, cr3, vaddr, Encode(physAddr, PAGE, prot), phys.Mem(), phys.Pool(), r)
    {
      hide PhysMem.Valid, PhysMem.Pool, Walk, NoHuge, NonSharing, Path, Reach, Encode, Addr, Agrees, Fresh, Canonical,
        Follow, Confined, SameTree, SameWalks, Stray, Travel, Halted, Index, Ledger, New, TablePaths, SetEntry,
        Remapped, Unreached, LeafTranslation, Replaced, Mapped, LandedNew, TablesFrom;
      ghost var m3, pool3, leaf := phys.Mem(), phys.Pool(), Encode(physAddr, PAGE, prot);
      TravelTable(m0, pool0, cr3, vaddr, m3, pool3, pt, 3);
      TravelEnds(m0, pool0, cr3, vaddr, m3, pool3, pt, leaf);
      if Follow(m0, cr3, 0, vaddr).depth < 3 {
        LandsNew(m3, pt, pool0, vaddr, leaf);
      }
      var replaced := WriteLeaf(pt, vaddr, Encode(physAddr, PAGE, prot));
      MapDone(m0, m3, phys.Mem(), cr3, vaddr, physAddr, prot, pool0, |pool0|, |pool3|);
      ReplacedIs(replaced, vaddr);
      return Ok(Replaced(replaced));
    }

    /** Replace the entry of `vaddr` in the frame `pt` and invalidate its TLB entry. */
    method WriteLeaf(pt: nat, vaddr: nat, leaf: nat) returns (replaced: nat)
      requires phys.Valid() && Table(phys.Mem(), pt) && Cacheable(vaddr)
      modifies this`tlb, phys.Arrays()
      ensures phys.Valid() && phys.Pool() == old(phys.Pool())
      ensures replaced == old(phys.Mem())[pt][Index(vaddr, 3)]
      ensures phys.Mem() == SetEntry(old(phys.Mem()), pt, Index(vaddr, 3), leaf)
      ensures old(Valid() && TlbAgrees() && Reaches(vaddr, 3, pt)) ==>
                Valid() && TlbAgrees() && Remapped(old(phys.Mem()), phys.Mem(), cr3, vaddr, leaf) &&
                old(Translation(vaddr)) == LeafTranslation(replaced, vaddr)
      ensures old(Valid() && TlbAgrees() && Unreached(phys.Mem(), cr3, pt)) ==>
                Valid() && TlbAgrees() && SameTree(old(phys.Mem()), phys.Mem(), cr3)
    {
      hide PhysMem.Valid, PhysMem.Pool, Walk, NoHuge, NonSharing, Path, Reach, Addr, Agrees, Fills, Fresh, Canonical,
        LeafTranslation, SetEntry, Remapped, Unreached, SameTree, Index;
      ghost var m0 := phys.Mem();
      ghost var reached := Valid() && TlbAgrees() && Reaches(vaddr, 3, pt);
      ghost var outside := Valid() && TlbAgrees() && Unreached(m0, cr3, pt);
      if reached {
        LeafReplaced(m0, cr3, phys.Pool(), vaddr, pt, leaf);
      }
      if outside {
        LeafOutside(m0, cr3, phys.Pool(), pt, Index(vaddr, 3), leaf);
      }
      var idx := Index(vaddr, 3);
      replaced := phys.ReadEntry(pt, idx);
      phys.WriteEntry(pt, idx, leaf);
      FlushPage(vaddr, m0, leaf, reached, outside);
    }

    /** The processor caches what it likes once a leaf entry is written, then `invlpg` drops the page. */
    ghost method FlushPage(vaddr: nat, mem: Mem, leaf: nat, reached: bool, outside: bool)
      requires Cacheable(vaddr)
      requires reached ==> Agrees(tlb, mem, cr3) && Remapped(mem, phys.Mem(), cr3, vaddr, leaf)
      requires outside ==> Agrees(tlb, mem, cr3) && SameTree(mem, phys.Mem(), cr3)
      modifies this`tlb
      ensures phys.Mem() == old(phys.Mem()) && (reached || outside ==> TlbAgrees())
    {
      hide Walk, NoHuge, Agrees, Fills, Remapped;
      ghost var mem', tlb0 := phys.Mem(), tlb;
      Speculate();
      Invlpg(vaddr);
      if reached {
        LeafTlb(tlb0, tlb, mem, mem', cr3, vaddr);
      }
      if outside {
        SameTlb(tlb0, tlb, mem, mem', cr3, vaddr);
      }
    }

    /** Follow an existing entry; nothing if it is absent or huge. */
    method WalkExisting(tablePhys: nat, vaddr: nat, level: nat) returns (r: Option<nat>)
      requires Valid() && 2 <= level <= 4 && Reaches(vaddr, 4 - level, tablePhys)
      ensures r.Some? ==> Reaches(vaddr, 5 - level, r.value)
      ensures Descends(phys.Mem(), tablePhys, 4 - level, vaddr) <==>
                r.Some? && Descends(phys.Mem(), r.value, 5 - level, vaddr)
    {
      hide PhysMem.Valid, PhysMem.Pool, Walk, NoHuge, NonSharing;
      ghost var depth, mem := 4 - level, phys.Mem();
      ExistingStep(mem, cr3, vaddr, depth, tablePhys);
      var idx := Index(vaddr, 4 - level);
      var entry := phys.ReadEntry(tablePhys, idx);
      assert 5 - level == depth + 1;
      if Present(entry) && !Huge(entry) {
        return Some(Addr(entry, PAGE));
      } else {
        return None;
      }
    }

    /** Unmap the page at `vaddr`, if 4 KiB tables lead to it. */
    method Unmap(vaddr: nat)
      requires Valid() && TlbAgrees() && Cacheable(vaddr)
      modifies this`tlb, phys.Arrays()
      ensures Valid() && TlbAgrees()
      ensures old(Descends(phys.Mem(), cr3, 0, vaddr)) ==> forall w: nat | Canonical(w) ::
                Translation(w) == if w / PAGE == vaddr / PAGE then None else old(Translation(w))
      ensures old(Descends(phys.Mem(), cr3, 0, vaddr)) ==>
                EntrySet(old(phys.Mem()), phys.Mem(), cr3, Path(vaddr, 4), 0)
      ensures KeptOutside(old(phys.Mem()), phys.Mem(), old(Ours(phys.Mem(), cr3, {})))
      ensures !old(Descends(phys.Mem(), cr3, 0, vaddr)) ==> phys.Mem() == old(phys.Mem()) && tlb == old(tlb)
    {
      hide PhysMem.Valid, PhysMem.Pool, Walk, NonSharing, Path, Reach, Agrees, Fresh, Canonical, Remapped, SetEntry,
        SameTree, Unreached, LeafTranslation, Descends, Ours;
      ghost var mem := phys.Mem();
      DescendsEnd(mem);
      RootReached(phys.Mem(), cr3, vaddr);
      var pdpt := WalkExisting(cr3, vaddr, 4);
      if pdpt.None? {
        return;
      }
      var pd := WalkExisting(pdpt.value, vaddr, 3);
      if pd.None? {
        return;
      }
      var pt := WalkExisting(pd.value, vaddr, 2);
      if pt.None? {
        return;
      }
      TableOn(phys.Mem(), cr3, Path(vaddr, 3), pt.value);
      var replaced := WriteLeaf(pt.value, vaddr, 0);
      LeafRemoved(mem, phys.Mem(), cr3, vaddr);
      OursWritten(mem, cr3, Path(vaddr, 3), pt.value, Index(vaddr, 3), 0);
    }

    /** Translate a virtual address through tables and huge pages. */
    method Translate(vaddr: nat) returns (r: Option<nat>)
      requires Valid()
      ensures r == Translation(vaddr)
    {
      hide PhysMem.Valid, PhysMem.Pool, NonSharing, Reach, Path, Addr, Walk;
      ghost var mem := phys.Mem();
      TableAt(mem, cr3, vaddr, 0, cr3);
      var pdptEntry := phys.ReadEntry(cr3, Index(vaddr, 0));
      if !Present(pdptEntry) {
        return None;
      }
      var pdptPhys := Addr(pdptEntry, PAGE);
      TableAt(mem, cr3, vaddr, 1, pdptPhys);
      var pdEntry := phys.ReadEntry(pdptPhys, Index(vaddr, 1));
      if !Present(pdEntry) {
        return None;
      }
      if Huge(pdEntry) {
        return Some(Addr(pdEntry, HUGE_1G) + vaddr % HUGE_1G);
      }
      var pdPhys := Addr(pdEntry, PAGE);
      TableAt(mem, cr3, vaddr, 2, pdPhys);
      var ptEntry := phys.ReadEntry(pdPhys, Index(vaddr, 2));
      if !Present(ptEntry) {
        return None;
      }
      if Huge(ptEntry) {
        return Some(Addr(ptEntry, HUGE_2M) + vaddr % HUGE_2M);
      }
      var ptPhys := Addr(ptEntry, PAGE);
      TableAt(mem, cr3, vaddr, 3, ptPhys);
      var leaf := phys.ReadEntry(ptPhys, Index(vaddr, 3));
      if !Present(leaf) {
        return None;
      }
      return Some(Addr(leaf, PAGE) + vaddr % PAGE);
    }

    /** Map `size` bytes of device memory page by page; `mapped` pages got done. */
    method MapMmio(virtStart: nat, physStart: nat, size: nat, prot: nat) returns (r: Result<()>, ghost mapped: nat)
      requires Valid() && TlbAgrees() && FlagsOk(prot)
      requires virtStart + PageCount(size) * PAGE <= 0x8000_0000_0000 ||
               (0xFFFF_8000_0000_0000 <= virtStart && virtStart + PageCount(size) * PAGE <= 0x1_0000_0000_0000_0000)
      requires physStart + PageCount(size) * PAGE <= ADDR_LIMIT
      requires forall i: nat | i < PageCount(size) :: NoHugeOn(virtStart + i * PAGE)
      modifies this`tlb, phys.buddy`ram, phys.buddy`lists, phys.buddy`live, phys.buddy`stats
      modifies phys.buddy.freeLists, phys.buddy.bitmaps, phys.Arrays()
      ensures Valid() && TlbAgrees()
      ensures mapped <= PageCount(size) && (r.Ok? <==> mapped == PageCount(size))
      ensures r == Err(Misaligned) <==> size > 0 && (virtStart % PAGE != 0 || physStart % PAGE != 0)
      ensures forall w: nat | Canonical(w) ::
                Translation(w) == MappedTo(virtStart, physStart, mapped, w, old(Translation(w)))
      ensures LeavesIn(old(phys.Mem()), phys.Mem(), cr3, virtStart, physStart, prot, mapped)
      ensures KeptOutside(old(phys.Mem()), phys.Mem(), old(Ours(phys.Mem(), cr3, phys.Pool())))
      ensures forall w: nat | Canonical(w) && virtStart <= w < virtStart + mapped * PAGE ::
                HasFlags(Entry(phys.Mem(), cr3, Path(w, 4)), prot)
      ensures var short := |old(phys.Pool())| < Frames(old(phys.Mem()), cr3, virtStart, PageCount(size));
        r == Err(OutOfFrames) <==> virtStart % PAGE == 0 && physStart % PAGE == 0 && short
      ensures |old(phys.Pool())| >= Frames(old(phys.Mem()), cr3, virtStart, mapped)
      ensures r == Err(OutOfFrames) ==> |old(phys.Pool())| < Frames(old(phys.Mem()), cr3, virtStart, mapped + 1)
      ensures r.Ok? ==> |old(phys.Pool())| == |phys.Pool()| + Frames(old(phys.Mem()), cr3, virtStart, mapped)
      ensures Served(old(phys.buddy.Abs()), old(phys.buddy.ram), phys.buddy.Abs(), phys.buddy.ram)
    {
      hide PhysMem.Valid, PhysMem.Pool, Walk, NoHuge, NonSharing, Reach, Agrees, Fresh, Progress, TablePaths, New,
        LeavesIn, HasFlags, Entry, Served, Ours, PhysMem.Mem, PhysMem.Arrays, Table;
      ghost var m0, before, s0, w0 := phys.Mem(), |phys.Pool()|, phys.buddy.Abs(), phys.buddy.ram;
      ghost var ours := Ours(m0, cr3, phys.Pool());
      ServedNone(s0, w0);
      EnclosedBegins(m0, cr3, phys.Pool());
      ProgressBegins(m0, cr3, virtStart, physStart, prot, before);
      var pages := PageCount(size);
      var i: nat := 0;
      mapped := 0;
      while i < pages
        modifies this`tlb, phys.buddy`ram, phys.buddy`lists, phys.buddy`live, phys.buddy`stats
        modifies phys.buddy.freeLists, phys.buddy.bitmaps, phys.Arrays()
        invariant mapped == i <= pages && Valid() && TlbAgrees()
        invariant i > 0 ==> virtStart % PAGE == 0 && physStart % PAGE == 0
        invariant Progress(m0, phys.Mem(), cr3, virtStart, physStart, prot, i, before, |phys.Pool()|)
        invariant Served(s0, w0, phys.buddy.Abs(), phys.buddy.ram)
        invariant Enclosed(m0, phys.Mem(), cr3, phys.Pool(), ours)
      {
        ghost var s1, w1 := phys.buddy.Abs(), phys.buddy.ram;
        var m := MmioPage(virtStart, physStart, i, prot, m0, before, ours);
        ServedTwice(s0, w0, s1, w1, phys.buddy.Abs(), phys.buddy.ram);
        if m.Err? {
          FramesMore(m0, cr3, virtStart, i + 1, pages);
          assert m.error == OutOfFrames ==> before < Frames(m0, cr3, virtStart, pages);
          assert m.error == Misaligned <==> virtStart % PAGE != 0 || physStart % PAGE != 0;
          MmioFlags(m0, phys.Mem(), cr3, virtStart, physStart, prot, i);
          return Err(m.error), i;
        }
        i := i + 1;
        mapped := i;
      }
      ProgressFrames(m0, phys.Mem(), cr3, virtStart, physStart, prot, pages, before, |phys.Pool()|);
      MmioFlags(m0, phys.Mem(), cr3, virtStart, physStart, prot, pages);
      return Ok(()), pages;
    }

    /** One turn of the loop: the i-th page. */
    method MmioPage(virtStart: nat, physStart: nat, i: nat, prot: nat, ghost m0: Mem, ghost before: nat,
                    ghost ours: set<nat>)
      returns (r: Result<Option<nat>>)
      requires Valid() && TlbAgrees() && FlagsOk(prot) && Canonical(virtStart + i * PAGE)
      requires physStart + (i + 1) * PAGE <= ADDR_LIMIT && NoHuge(m0, cr3, 0, virtStart + i * PAGE)
      requires Progress(m0, phys.Mem(), cr3, virtStart, physStart, prot, i, before, |phys.Pool()|)
      requires Enclosed(m0, phys.Mem(), cr3, phys.Pool(), ours)
      modifies this`tlb, phys.buddy`ram, phys.buddy`lists, phys.buddy`live, phys.buddy`stats
      modifies phys.buddy.freeLists, phys.buddy.bitmaps, phys.Arrays()
      ensures Valid() && TlbAgrees()
      ensures r == Err(Misaligned) <==> virtStart % PAGE != 0 || physStart % PAGE != 0
      ensures r.Ok? ==> Progress(m0, phys.Mem(), cr3, virtStart, physStart, prot, i + 1, before, |phys.Pool()|)
      ensures r.Err? ==> Covered(m0, phys.Mem(), cr3, virtStart, physStart, prot, i)
      ensures Enclosed(m0, phys.Mem(), cr3, phys.Pool(), ours)
      ensures before >= Frames(m0, cr3, virtStart, i)
      ensures r == Err(OutOfFrames) ==> before < Frames(m0, cr3, virtStart, i + 1)
      ensures Served(old(phys.buddy.Abs()), old(phys.buddy.ram), phys.buddy.Abs(), phys.buddy.ram)
    {
      hide PhysMem.Valid, PhysMem.Pool, Walk, NoHuge, NonSharing, Reach, Agrees, Fresh, Progress, Covered, TablePaths,
        New, Ledger, Follow, Stray, Confined, SameTree, Index, Encode, SetEntry, Mapped, SameWalks, Replaced,
        Served, MapWrites, Enclosed, TablesFrom, PhysMem.Mem, PhysMem.Arrays;
      ghost var mem, pool, frames := phys.Mem(), |phys.Pool()|, phys.Pool();
      PoolPages(phys);
      ProgressFrames(m0, mem, cr3, virtStart, physStart, prot, i, before, pool);
      FollowTable(mem, cr3, virtStart + i * PAGE);
      SameOffset(virtStart, i);
      SameOffset(physStart, i);
      r := Map(virtStart + i * PAGE, physStart + i * PAGE, prot);
      PoolShrinks(phys, frames, old(phys.buddy.Abs()), old(phys.buddy.ram));
      EnclosedStep(m0, mem, phys.Mem(), cr3, frames, phys.Pool(), ours, virtStart + i * PAGE,
                   Encode(physStart + i * PAGE, PAGE, prot), r);
      if r.Ok? {
        ProgressStep(m0, mem, phys.Mem(), cr3, virtStart, physStart, prot, i, before, pool, |phys.Pool()|);
      } else {
        ProgressStays(m0, mem, phys.Mem(), cr3, virtStart, physStart, prot, i);
        if r.error == OutOfFrames {
          ProgressLacks(m0, mem, cr3, virtStart, physStart, prot, i, before, pool);
        }
      }
    }
  }

  /** Frames it takes to have the tables of the first `pages` pages from `start`. */
  ghost function Frames(mem: Mem, root: nat, start: nat, pages: nat): nat {
    |New(mem, root, TablePaths(start, PAGE, pages, 3))|
  }

  /** The leaf of an address once the first `pages` pages of a linear mapping are in place. */
  function LeafAfter(virtStart: nat, physStart: nat, prot: nat, pages: nat, w: nat, before: nat): nat {
    if virtStart <= w < virtStart + pages * PAGE then (w - virtStart) / PAGE * PAGE + physStart + prot + 1 else before
  }

  /** The leaves of the first `i` pages of a linear mapping, all other leaves as they were, and
      above the leaves nothing but links to new tables. */
  ghost predicate LeavesIn(m0: Mem, mem: Mem, root: nat, virtStart: nat, physStart: nat, prot: nat, i: nat) {
    && (forall w: nat | Canonical(w) ::
          Entry(mem, root, Path(w, 4)) ==
            LeafAfter(virtStart, physStart, prot, i, w, Entry(m0, root, Path(w, 4))))
    && (forall q | |q| <= 3 :: Entry(mem, root, q) == Entry(m0, root, q) || NewLink(m0, mem, root, q))
  }

  /** The flags of such a leaf are those asked for. */
  lemma LeafFlags(m0: Mem, mem: Mem, root: nat, virtStart: nat, physStart: nat, prot: nat, i: nat)
    requires LeavesIn(m0, mem, root, virtStart, physStart, prot, i) && FlagsOk(prot)
    requires physStart % PAGE == 0 && physStart + i * PAGE <= ADDR_LIMIT
    ensures forall w: nat | Canonical(w) && virtStart <= w < virtStart + i * PAGE ::
              HasFlags(Entry(mem, root, Path(w, 4)), prot)
  {
    hide Entry, Path, Canonical, HasFlags;
    forall w: nat | Canonical(w) && virtStart <= w < virtStart + i * PAGE
      ensures HasFlags(Entry(mem, root, Path(w, 4)), prot)
    {
      var page := (w - virtStart) / PAGE;
      assert page < i && (page * PAGE + physStart) % PAGE == 0;
      EncodedFlags(page * PAGE + physStart, prot);
    }
  }

  lemma MmioFlags(m0: Mem, mem: Mem, root: nat, virtStart: nat, physStart: nat, prot: nat, i: nat)
    requires Covered(m0, mem, root, virtStart, physStart, prot, i) && FlagsOk(prot)
    requires (i > 0 ==> physStart % PAGE == 0) && physStart + i * PAGE <= ADDR_LIMIT
    ensures LeavesIn(m0, mem, root, virtStart, physStart, prot, i)
    ensures forall w: nat | Canonical(w) && virtStart <= w < virtStart + i * PAGE ::
              HasFlags(Entry(mem, root, Path(w, 4)), prot)
  {
    hide Walk, NoHuge, Entry, Path, Canonical, HasFlags, LeavesIn;
    if i > 0 {
      LeafFlags(m0, mem, root, virtStart, physStart, prot, i);
    }
  }

  /** The first `i` pages of a linear mapping are in place, and nothing else has changed. */
  ghost predicate Covered(m0: Mem, mem: Mem, root: nat, virtStart: nat, physStart: nat, prot: nat, i: nat) {
    && LeavesIn(m0, mem, root, virtStart, physStart, prot, i)
    && (forall w: nat :: NoHuge(mem, root, 0, w) == NoHuge(m0, root, 0, w))
    && (forall w: nat | Canonical(w) ::
          Walk(mem, root, 0, w) == MappedTo(virtStart, physStart, i, w, Walk(m0, root, 0, w)))
  }

  /** And its tables, and no others, have been paid for. */
  ghost predicate Progress(m0: Mem, mem: Mem, root: nat, virtStart: nat, physStart: nat, prot: nat, i: nat,
                           before: nat, after: nat) {
    Covered(m0, mem, root, virtStart, physStart, prot, i)
    && Ledger(m0, mem, root, TablePaths(virtStart, PAGE, i, 3), before, after)
  }

  /** The tree and the frames to take lie in `ours`, and nothing outside has been written. */
  ghost predicate Enclosed(m0: Mem, mem: Mem, root: nat, pool: set<nat>, ours: set<nat>) {
    pool <= ours && TablesIn(mem, root, ours) && KeptOutside(m0, mem, ours)
  }

  /** The frames a map may write: those of the tree and those to take. */
  ghost function Ours(mem: Mem, root: nat, pool: set<nat>): set<nat> {
    pool + set f | f in mem && !Unreached(mem, root, f)
  }

  lemma EnclosedBegins(mem: Mem, root: nat, pool: set<nat>)
    requires NonSharing(mem, root)
    ensures Enclosed(mem, mem, root, pool, Ours(mem, root, pool))
  {
    hide Reach;
    forall q | Reach(mem, root, q).Some?
      ensures Reach(mem, root, q).value in Ours(mem, root, pool)
    {
      assert Table(mem, Reach(mem, root, q).value);
    }
  }

  lemma EnclosedStep(m0: Mem, mem: Mem, mem': Mem, root: nat, pool: set<nat>, pool': set<nat>, ours: set<nat>, v: nat,
                     leaf: nat, r: Result<Option<nat>>)
    requires Enclosed(m0, mem, root, pool, ours) && pool' <= pool && NoHuge(mem, root, 0, v)
    requires MapWrites(mem, pool, root, v, leaf, mem', pool', r) && TablesFrom(mem, mem', root, pool)
    ensures Enclosed(m0, mem', root, pool', ours)
  {
    hide Reach, NoHuge, Follow, Index, Landed, LandedNew;
    RootReached(mem, root, v);
    FollowOnPath(mem, root, v, root, 0);
    forall f | f in m0 && f !in ours
      ensures mem'[f] == m0[f]
    {
      assert f in mem && f != Follow(mem, root, 0, v).frame;
      assert |mem'[f]| == |mem[f]| && forall k | 0 <= k < |mem[f]| :: mem'[f][k] == mem[f][k];
    }
  }

  lemma OursWritten(mem: Mem, root: nat, p: seq<nat>, g: nat, i: nat, e: nat)
    requires Reach(mem, root, p) == Some(g) && Table(mem, g) && i < ENTRIES
    ensures KeptOutside(mem, SetEntry(mem, g, i, e), Ours(mem, root, {}))
  {
    hide Reach;
  }

  lemma PoolPages(phys: PhysMem)
    ensures phys.Pool() == set p | p in BuddyMachine.FreePages(phys.buddy.Abs()) :: phys.Frame(p)
  {
    hide BuddyTheory.PagesOf;
  }

  /** Frames are only ever taken. */
  lemma PoolShrinks(phys: PhysMem, pool: set<nat>, s: BuddyMachine.State, ram: FreeList.Ram)
    requires Served(s, ram, phys.buddy.Abs(), phys.buddy.ram)
    requires pool == set p | p in BuddyMachine.FreePages(s) :: phys.Frame(p)
    ensures phys.Pool() <= pool
  {
    hide BuddyTheory.PagesOf;
  }

  lemma ProgressBegins(mem: Mem, root: nat, virtStart: nat, physStart: nat, prot: nat, before: nat)
    ensures Progress(mem, mem, root, virtStart, physStart, prot, 0, before, before)
    ensures Frames(mem, root, virtStart, 0) == 0
  {
    hide Walk, NoHuge, Reach, Path, Ledger;
    assert TablePaths(virtStart, PAGE, 0, 3) == {} by {
      PathsNone(virtStart);
    }
    LedgerOpens(mem, root, before);
  }

  lemma PathsNone(start: nat)
    ensures TablePaths(start, PAGE, 0, 3) == {}
  {
    hide Path;
    assert TablePaths(start, PAGE, 0, 1) == {} && TablePaths(start, PAGE, 0, 2) == {};
  }

  lemma ProgressFrames(m0: Mem, mem: Mem, root: nat, virtStart: nat, physStart: nat, prot: nat, i: nat, before: nat,
                       after: nat)
    requires Progress(m0, mem, root, virtStart, physStart, prot, i, before, after)
    ensures before == after + Frames(m0, root, virtStart, i) && Covered(m0, mem, root, virtStart, physStart, prot, i)
    ensures forall w: nat :: NoHuge(mem, root, 0, w) == NoHuge(m0, root, 0, w)
  {
    hide Walk, NoHuge, Reach, Path, New, TablePaths, Grown;
  }

  lemma ProgressStep(m0: Mem, mem: Mem, mem': Mem, root: nat, virtStart: nat, physStart: nat, prot: nat, i: nat,
                     before: nat, between: nat, after: nat)
    requires Progress(m0, mem, root, virtStart, physStart, prot, i, before, between) && virtStart % PAGE == 0
    requires Canonical(virtStart + i * PAGE)
    requires var v := virtStart + i * PAGE;
      && Ledger(mem, mem', root, TablePaths(v, PAGE, 1, 3), between, after)
      && Mapped(mem, mem', root, v, physStart + i * PAGE, prot)
    ensures Progress(m0, mem', root, virtStart, physStart, prot, i + 1, before, after)
  {
    hide Walk, NoHuge, Ledger, TablePaths, Canonical, LeavesIn, LeafIs, Path, Entry;
    LeavesStep(m0, mem, mem', root, virtStart, physStart, prot, i);
    LedgerJoin(m0, mem, mem', root, TablePaths(virtStart, PAGE, i, 3), TablePaths(virtStart + i * PAGE, PAGE, 1, 3),
               before, between, after);
    PathsNext(virtStart, PAGE, i, 3);
    NextPage(virtStart, physStart, i);
  }

  lemma LeavesStep(m0: Mem, mem: Mem, mem': Mem, root: nat, virtStart: nat, physStart: nat, prot: nat, i: nat)
    requires LeavesIn(m0, mem, root, virtStart, physStart, prot, i) && virtStart % PAGE == 0
    requires Canonical(virtStart + i * PAGE)
    requires LeafIs(mem, mem', root, virtStart + i * PAGE, physStart + i * PAGE + prot + 1)
    ensures LeavesIn(m0, mem', root, virtStart, physStart, prot, i + 1)
  {
    hide Entry, LinksTable, Present, Path, Index;
    var v := virtStart + i * PAGE;
    forall w: nat | Canonical(w)
      ensures Entry(mem', root, Path(w, 4)) ==
                LeafAfter(virtStart, physStart, prot, i + 1, w, Entry(m0, root, Path(w, 4)))
    {
      SamePathSameSpan(w, v, 3);
      PageRange(virtStart, i, w);
      PageOffset(virtStart, i, w);
      hide Canonical;
    }
    assert |Path(v, 4)| == 4;
    LinksKept(m0, mem, mem', root, Path(v, 4));
  }

  lemma PageOffset(virtStart: nat, i: nat, w: nat)
    requires virtStart % PAGE == 0
    ensures virtStart + i * PAGE <= w < virtStart + (i + 1) * PAGE ==> (w - virtStart) / PAGE == i
  {
  }

  lemma LinksKept(m0: Mem, mem: Mem, mem': Mem, root: nat, p: seq<nat>)
    requires |p| == 4
    requires forall q | |q| <= 3 :: Entry(mem, root, q) == Entry(m0, root, q) || NewLink(m0, mem, root, q)
    requires forall q | q != p :: Entry(mem', root, q) == Entry(mem, root, q) || NewLink(mem, mem', root, q)
    ensures forall q | |q| <= 3 :: Entry(mem', root, q) == Entry(m0, root, q) || NewLink(m0, mem', root, q)
  {
    hide Entry, LinksTable, Present;
    forall q | |q| <= 3
      ensures Entry(mem', root, q) == Entry(m0, root, q) || NewLink(m0, mem', root, q)
    {
      if NewLink(m0, mem, root, q) {
        PresentLink(Entry(mem, root, q));
      }
    }
  }

  lemma ProgressStays(m0: Mem, mem: Mem, mem': Mem, root: nat, virtStart: nat, physStart: nat, prot: nat, i: nat)
    requires Covered(m0, mem, root, virtStart, physStart, prot, i)
    requires SameWalks(mem, mem', root)
    ensures Covered(m0, mem', root, virtStart, physStart, prot, i)
  {
    hide Walk, NoHuge, Canonical, MappedTo;
  }

  lemma ProgressLacks(m0: Mem, mem: Mem, root: nat, virtStart: nat, physStart: nat, prot: nat, i: nat, before: nat,
                      between: nat)
    requires Progress(m0, mem, root, virtStart, physStart, prot, i, before, between)
    requires between < Missing(mem, root, virtStart + i * PAGE)
    ensures before < Frames(m0, root, virtStart, i + 1)
  {
    hide Walk, NoHuge, Ledger, TablePaths, New;
    LedgerLacks(m0, mem, root, TablePaths(virtStart, PAGE, i, 3), TablePaths(virtStart + i * PAGE, PAGE, 1, 3),
                before, between);
    PathsNext(virtStart, PAGE, i, 3);
  }

  lemma FramesMore(mem: Mem, root: nat, start: nat, a: nat, b: nat)
    requires a <= b
    ensures Frames(mem, root, start, a) <= Frames(mem, root, start, b)
  {
    hide TablePaths, New;
    PathsMore(start, PAGE, a, b, 3);
    NewMore(mem, root, TablePaths(start, PAGE, a, 3), TablePaths(start, PAGE, b, 3));
  }

  /** Pages covering `size` bytes: `(size + PAGE_SIZE - 1) / PAGE_SIZE` */
  function PageCount(size: nat): (n: nat)
    ensures size <= n * PAGE < size + PAGE
  {
    (size + PAGE - 1) / PAGE
  }

  /** Where `w` goes once the first `pages` pages of a linear mapping are in place. */
  function MappedTo(virtStart: nat, physStart: nat, pages: nat, w: nat, before: Option<nat>): Option<nat> {
    if virtStart <= w < virtStart + pages * PAGE then Some(w - virtStart + physStart) else before
  }

  lemma SameOffset(a: nat, i: nat)
    ensures (a + i * PAGE) % PAGE == a % PAGE
  {
  }

  lemma NextPage(virtStart: nat, physStart: nat, i: nat)
    requires virtStart % PAGE == 0
    ensures forall w: nat, before: Option<nat> ::
      MappedTo(virtStart, physStart, i + 1, w, before) ==
        if w / PAGE == (virtStart + i * PAGE) / PAGE then Some(physStart + i * PAGE + w % PAGE)
        else MappedTo(virtStart, physStart, i, w, before)
  {
    forall w: nat, before: Option<nat>
      ensures MappedTo(virtStart, physStart, i + 1, w, before) ==
        if w / PAGE == (virtStart + i * PAGE) / PAGE then Some(physStart + i * PAGE + w % PAGE)
        else MappedTo(virtStart, physStart, i, w, before)
    {
      PageRange(virtStart, i, w);
    }
  }

  lemma PageRange(virtStart: nat, i: nat, w: nat)
    requires virtStart % PAGE == 0
    ensures w / PAGE == (virtStart + i * PAGE) / PAGE <==> virtStart + i * PAGE <= w < virtStart + (i + 1) * PAGE
    ensures w / PAGE == (virtStart + i * PAGE) / PAGE ==> w % PAGE == w - virtStart - i * PAGE
  {
    var page := virtStart / PAGE + i;
    assert virtStart + i * PAGE == page * PAGE;
    assert (virtStart + i * PAGE) / PAGE == page;
  }

  /** Present, non-huge entries lead from `f` at `depth` to a page table. */
  predicate Descends(mem: Mem, f: nat, depth: nat, v: nat)
    requires depth <= 3
    decreases 3 - depth
  {
    depth == 3 || (Table(mem, f) &&
      var e := mem[f][Index(v, depth)];
      Present(e) && !Huge(e) && Descends(mem, Addr(e, PAGE), depth + 1, v))
  }

  lemma ExistingStep(mem: Mem, root: nat, v: nat, depth: nat, f: nat)
    requires NonSharing(mem, root) && depth < 3 && Reach(mem, root, Path(v, depth)) == Some(f)
    ensures Table(mem, f)
    ensures Present(mem[f][Index(v, depth)]) && !Huge(mem[f][Index(v, depth)]) ==>
              Reach(mem, root, Path(v, depth + 1)) == Some(Addr(mem[f][Index(v, depth)], PAGE))
  {
  }

  lemma TableAt(mem: Mem, root: nat, v: nat, depth: nat, f: nat)
    requires NonSharing(mem, root) && depth <= 3
    requires depth == 0 ==> f == root
    requires depth > 0 ==>
      (var up := Reach(mem, root, Path(v, depth - 1));
       up.Some? && Step(mem, up.value, depth - 1, Index(v, depth - 1)) == Some(f))
    ensures Reach(mem, root, Path(v, depth)) == Some(f) && Table(mem, f)
    ensures Walk(mem, f, depth, v) ==
              (var e := mem[f][Index(v, depth)];
               if !Present(e) then None
               else if Points(e, depth) then Walk(mem, Addr(e, PAGE), depth + 1, v)
               else Some(Addr(e, Span(depth)) + v % Span(depth)))
  {
  }

  /** An address that 4 KiB tables do not lead to, yet is translated, is under a present huge
      entry: the only translation `unmap` leaves in place. */
  lemma {:induction false} UnmapEffective(mem: Mem, root: nat, v: nat, f: nat, depth: nat)
    requires depth <= 3 && Reach(mem, root, Path(v, depth)) == Some(f) && NonSharing(mem, root)
    ensures !Descends(mem, f, depth, v) && Walk(mem, f, depth, v).Some? ==>
              exists d: nat, g: nat | depth <= d < 3 ::
                Reach(mem, root, Path(v, d)) == Some(g) && Table(mem, g) &&
                Present(mem[g][Index(v, d)]) && Huge(mem[g][Index(v, d)])
    decreases 3 - depth
  {
  }

  /** The frame a leaf entry held. */
  function Replaced(e: nat): Option<nat> { if Present(e) then Some(Addr(e, PAGE)) else None }

  /** The leaf `e` of `v` has replaced an entry of the frame `g`, and nothing else is written. */
  ghost predicate Landed(mem: Mem, mem': Mem, g: nat, v: nat, e: nat, r: Result<Option<nat>>) {
    && Table(mem, g) && mem' == SetEntry(mem, g, Index(v, 3), e)
    && r == Ok(Replaced(mem[g][Index(v, 3)]))
  }

  /** The leaf `e` of `v` lies in a frame just taken; what it replaces was absent there, or was the
      entry that linked the frame to itself. */
  ghost predicate LandedNew(mem: Mem, pool: set<nat>, v: nat, e: nat, r: Result<Option<nat>>) {
    exists pt :: pt in pool && Table(mem, pt) && mem[pt][Index(v, 3)] == e && (r == Ok(None) || r == Ok(Some(pt)))
  }

  lemma LandsNew(mem: Mem, pt: nat, pool: set<nat>, v: nat, e: nat)
    requires Table(mem, pt) && pt in pool
    requires Present(mem[pt][Index(v, 3)]) ==> Addr(mem[pt][Index(v, 3)], PAGE) == pt
    ensures LandedNew(SetEntry(mem, pt, Index(v, 3), e), pool, v, e, Ok(Replaced(mem[pt][Index(v, 3)])))
  {
    hide Addr, Index;
    var mem' := SetEntry(mem, pt, Index(v, 3), e);
    assert Table(mem', pt) && mem'[pt][Index(v, 3)] == e;
  }

  /** What a map writes, whether or not huge pages lie on the path: beside frames of the pool one
      entry of the frame the descent ends at, which is the leaf if it ends at the level of page
      tables; else the leaf lies in a frame just taken. */
  ghost predicate MapWrites(m0: Mem, pool0: set<nat>, root: nat, v: nat, leaf: nat, mem: Mem, pool: set<nat>,
                            r: Result<Option<nat>>)
  {
    var s := Follow(m0, root, 0, v);
    && Confined(m0, mem, pool0, s.frame, Index(v, s.depth))
    && (r.Ok? && s.depth == 3 ==> Landed(m0, mem, s.frame, v, leaf, r))
    && (r.Ok? && s.depth < 3 ==> LandedNew(mem, pool0, v, leaf, r))
    && (r == Err(OutOfFrames) ==> s.depth < 3 && pool == {})
  }

  /** What a map does where no huge page lies on the path: success maps the page and pays a frame
      for each missing table, failure means too few frames and changes no translation. */
  ghost predicate MapMoves(m0: Mem, pool0: set<nat>, root: nat, v: nat, physAddr: nat, prot: nat, mem: Mem,
                           pool: set<nat>, r: Result<Option<nat>>)
  {
    && TablesFrom(m0, mem, root, pool0)
    && (r == Err(OutOfFrames) <==> v % PAGE == 0 && physAddr % PAGE == 0 && |pool0| < Missing(m0, root, v))
    && (r.Err? ==> SameWalks(m0, mem, root))
    && (r.Ok? ==> r.value == Walk(m0, root, 0, v) && Mapped(m0, mem, root, v, physAddr, prot) &&
                  Ledger(m0, mem, root, TablePaths(v, PAGE, 1, 3), |pool0|, |pool|))
  }

  /** What a page-table entry makes of an address in its page. */
  function LeafTranslation(e: nat, v: nat): Option<nat> {
    if Present(e) then Some(Addr(e, PAGE) + v % PAGE) else None
  }

  /** The page of `v` is translated by the entry `e`, and every other page as before; no other
      entry is written. */
  ghost predicate Remapped(mem: Mem, mem': Mem, root: nat, v: nat, e: nat) {
    && EntrySet(mem, mem', root, Path(v, 4), e)
    && (forall p :: Reach(mem', root, p) == Reach(mem, root, p))
    && (forall w: nat :: NoHuge(mem', root, 0, w) == NoHuge(mem, root, 0, w))
    && (forall w: nat | Canonical(w) ::
          Walk(mem', root, 0, w) == if w / PAGE == v / PAGE then LeafTranslation(e, w) else Walk(mem, root, 0, w))
  }

  /** The leaf of `v` is `e`; every other entry is what it was, or is new and links a table. */
  ghost predicate LeafIs(mem: Mem, mem': Mem, root: nat, v: nat, e: nat) {
    && Entry(mem', root, Path(v, 4)) == e
    && forall q | q != Path(v, 4) :: Entry(mem', root, q) == Entry(mem, root, q) || NewLink(mem, mem', root, q)
  }

  /** The page of `v` goes to the frame at `physAddr` with the flags `prot`, and every other page
      where it went before. */
  ghost predicate Mapped(mem: Mem, mem': Mem, root: nat, v: nat, physAddr: nat, prot: nat) {
    && LeafIs(mem, mem', root, v, physAddr + prot + 1)
    && (forall w: nat :: NoHuge(mem', root, 0, w) == NoHuge(mem, root, 0, w))
    && (forall w: nat | Canonical(w) ::
          Walk(mem', root, 0, w) == if w / PAGE == v / PAGE then Some(physAddr + w % PAGE) else Walk(mem, root, 0, w))
  }

  /** Everything a leaf write does: the page of `v`, and only that page, is translated
      by the new entry; what it replaces was its translation before. */
  lemma LeafReplaced(mem: Mem, root: nat, pool: set<nat>, v: nat, g: nat, e: nat)
    requires NonSharing(mem, root) && Fresh(pool, mem, root) && Canonical(v)
    requires Reach(mem, root, Path(v, 3)) == Some(g)
    ensures Table(mem, g) && Walk(mem, root, 0, v) == LeafTranslation(mem[g][Index(v, 3)], v)
    ensures var mem' := SetEntry(mem, g, Index(v, 3), e);
      && NonSharing(mem', root) && Fresh(pool, mem', root)
      && Remapped(mem, mem', root, v, e)
  {
    hide Walk, NoHuge, Path, Reach, NonSharing, Addr, LeafTranslation, Canonical, EntrySet;
    LeafOf(mem, root, v, g);
    var mem' := SetEntry(mem, g, Index(v, 3), e);
    LeafWrite(mem, root, v, 3, g, e);
    LeafNoHuge(mem, mem', root, v);
    forall w: nat | Canonical(w)
      ensures Walk(mem', root, 0, w) == if w / PAGE == v / PAGE then LeafTranslation(e, w) else Walk(mem, root, 0, w)
    {
      SamePathSameSpan(w, v, 3);
      DecodeLeaf(e, w);
    }
  }

  /** An entry written outside the tree changes nothing. */
  lemma LeafOutside(mem: Mem, root: nat, pool: set<nat>, g: nat, i: nat, e: nat)
    requires NonSharing(mem, root) && Fresh(pool, mem, root) && Unreached(mem, root, g) && Table(mem, g) && i < ENTRIES
    ensures var mem' := SetEntry(mem, g, i, e);
      NonSharing(mem', root) && Fresh(pool, mem', root) && SameTree(mem, mem', root)
  {
    hide NonSharing, Reach, Walk, NoHuge;
    WriteUnreached(mem, root, g, mem[g][i := e]);
  }

  lemma SameTlb(tlb: map<nat, nat>, tlb': map<nat, nat>, mem: Mem, mem': Mem, root: nat, v: nat)
    requires Agrees(tlb, mem, root) && SameTree(mem, mem', root)
    requires exists filled :: Fills(tlb, filled, mem', root) && tlb' == filled - {v}
    ensures Agrees(tlb', mem', root)
  {
    hide Walk, Canonical, Reach, NoHuge;
  }

  lemma ReplacedIs(e: nat, v: nat)
    requires v % PAGE == 0
    ensures LeafTranslation(e, v) == Replaced(e)
  {
    hide Addr;
  }

  lemma LeafOf(mem: Mem, root: nat, v: nat, g: nat)
    requires NonSharing(mem, root) && Reach(mem, root, Path(v, 3)) == Some(g)
    ensures Table(mem, g) && Walk(mem, root, 0, v) == LeafTranslation(mem[g][Index(v, 3)], v)
  {
    WalkThrough(mem, root, v, 3);
    hide Path, Reach, Addr;
  }

  lemma DecodeLeaf(e: nat, w: nat)
    ensures LeafTranslation(e, w) == if Present(e) then Some(Addr(e, Span(3)) + w % Span(3)) else None
  {
  }

  /** Entries of a page table never count as huge. */
  lemma LeafNoHuge(mem: Mem, mem': Mem, root: nat, v: nat)
    requires Reach(mem, root, Path(v, 3)).Some? && Reach(mem', root, Path(v, 3)).Some?
    requires forall w: nat | Path(w, 4) != Path(v, 4) :: NoHuge(mem', root, 0, w) == NoHuge(mem, root, 0, w)
    ensures forall w: nat :: NoHuge(mem', root, 0, w) == NoHuge(mem, root, 0, w)
  {
    forall w: nat | Path(w, 4) == Path(v, 4)
      ensures NoHuge(mem', root, 0, w) == NoHuge(mem, root, 0, w)
    {
      PathStep(v, w, 3);
      NoHugeThrough(mem, root, w, 3);
      NoHugeThrough(mem', root, w, 3);
    }
  }

  /** A leaf write leaves at most one stale entry, which the invalidation drops. */
  lemma LeafTlb(tlb: map<nat, nat>, tlb': map<nat, nat>, mem: Mem, mem': Mem, root: nat, v: nat)
    requires Agrees(tlb, mem, root)
    requires exists filled :: Fills(tlb, filled, mem', root) && tlb' == filled - {v}
    requires (exists e :: Remapped(mem, mem', root, v, e)) && v % PAGE == 0
    ensures Agrees(tlb', mem', root)
  {
    hide Walk, Canonical;
  }

  lemma HaltedShort(m0: Mem, pool0: set<nat>, root: nat, v: nat, physAddr: nat, prot: nat, mem: Mem, pool: set<nat>)
    requires Halted(m0, pool0, root, v, mem, pool) && v % PAGE == 0 && physAddr % PAGE == 0
    ensures forall leaf :: MapWrites(m0, pool0, root, v, leaf, mem, pool, Err(OutOfFrames))
    ensures NoHuge(m0, root, 0, v) || Stray(m0, root, v) ==> NonSharing(mem, root) && Fresh(pool, mem, root)
    ensures NoHuge(m0, root, 0, v) ==> MapMoves(m0, pool0, root, v, physAddr, prot, mem, pool, Err(OutOfFrames))
    ensures Stray(m0, root, v) ==> SameTree(m0, mem, root)
  {
    hide Follow, NoHuge, NonSharing, Fresh, Walk, Stray, Confined, SameTree, SameWalks, New, TablesFrom;
  }

  lemma NothingDone(mem: Mem, pool: set<nat>, root: nat, v: nat, physAddr: nat, prot: nat)
    requires v % PAGE != 0 || physAddr % PAGE != 0
    ensures SameTree(mem, mem, root)
    ensures forall leaf :: MapWrites(mem, pool, root, v, leaf, mem, pool, Err(Misaligned))
    ensures MapMoves(mem, pool, root, v, physAddr, prot, mem, pool, Err(Misaligned))
  {
    hide Reach, Walk, NoHuge, Follow, Entry, Missing;
  }

  /** Tables made, leaf written: what both do together. */
  lemma MapDone(m0: Mem, mem: Mem, mem': Mem, root: nat, v: nat, physAddr: nat, prot: nat, pool: set<nat>, before: nat,
                after: nat)
    requires Mappable(physAddr, PAGE) && FlagsOk(prot)
    ensures var paths := TablePaths(v, PAGE, 1, 3);
      SameWalks(m0, mem, root) && TablesFrom(m0, mem, root, pool) && Ledger(m0, mem, root, paths, before, after) &&
      Remapped(mem, mem', root, v, Encode(physAddr, PAGE, prot)) ==>
        && Ledger(m0, mem', root, paths, before, after)
        && before >= |New(m0, root, paths)|
        && TablesFrom(m0, mem', root, pool)
        && Walk(mem, root, 0, v) == Walk(m0, root, 0, v)
        && Mapped(m0, mem', root, v, physAddr, prot)
    ensures SameTree(m0, mem, root) && SameTree(mem, mem', root) ==> SameTree(m0, mem', root)
  {
    hide Reach, Walk, NoHuge, Canonical, Encode, TablePaths, New, Mappable, LeafTranslation, EntrySet, Linking, LeafIs,
      SameEntries;
    LeafMapped(physAddr, prot);
    var leaf := Encode(physAddr, PAGE, prot);
    if Linking(m0, mem, root) && EntrySet(mem, mem', root, Path(v, 4), leaf) {
      LeafAfterLinks(m0, mem, mem', root, v, leaf);
    }
    if SameTree(m0, mem, root) && SameTree(mem, mem', root) {
      SameTwice(m0, mem, mem', root);
    }
  }

  lemma LeafAfterLinks(m0: Mem, mem: Mem, mem': Mem, root: nat, v: nat, e: nat)
    requires Linking(m0, mem, root) && EntrySet(mem, mem', root, Path(v, 4), e)
    ensures LeafIs(m0, mem', root, v, e)
  {
    hide Entry, Path, LinksTable, Present;
  }

  lemma LeafRemoved(mem: Mem, mem': Mem, root: nat, v: nat)
    requires Remapped(mem, mem', root, v, 0)
    ensures forall w: nat | Canonical(w) ::
              Walk(mem', root, 0, w) == if w / PAGE == v / PAGE then None else Walk(mem, root, 0, w)
    ensures EntrySet(mem, mem', root, Path(v, 4), 0)
  {
    hide Walk, NoHuge, Reach, Canonical, Addr, EntrySet;
  }

  lemma DescendsEnd(mem: Mem)
    ensures forall f, v :: Descends(mem, f, 3, v)
  {
  }

  lemma LeafMapped(physAddr: nat, prot: nat)
    requires Mappable(physAddr, PAGE) && FlagsOk(prot)
    ensures Encode(physAddr, PAGE, prot) == physAddr + prot + 1
    ensures forall w: nat :: LeafTranslation(Encode(physAddr, PAGE, prot), w) == Some(physAddr + w % PAGE)
  {
    EncodeDecode(physAddr, 3, prot);
  }
}
