/** Physical memory seen as page tables: every frame is one 512-entry array, reached
    through the higher-half window, and new tables are pages of the buddy allocator. */
module PhysMemory {
  import Blocks
  import Buddy
  import BuddyMachine
  import BuddyTheory
  import FreeList
  import opened Paging
  import opened PageTree
  import opened Wrappers

  /** A single level of the page-table hierarchy. */
  class PageTable {
    const entries: array<nat>

    constructor ()
      ensures fresh(entries) && entries.Length == ENTRIES
    {
      entries := new nat[ENTRIES](_ => 0);
    }

    method Read(index: nat) returns (value: nat)
      requires index < entries.Length
      ensures value == entries[index]
    {
      value := entries[index];
    }

    method Write(index: nat, value: nat)
      requires index < entries.Length
      modifies entries
      ensures entries[..] == old(entries[..])[index := value]
    {
      entries[index] := value;
    }

    method Zero()
      requires entries.Length == ENTRIES
      modifies entries
      ensures entries[..] == ZeroTable()
    {
      forall i | 0 <= i < entries.Length {
        entries[i] := 0;
      }
    }
  }

  /** Frames that can become tables: whole, in reach of an entry, no table of `root`'s tree. */
  ghost predicate Fresh(pool: set<nat>, mem: Mem, root: nat) {
    forall c | c in pool :: c in mem && Mappable(c, PAGE) && Unreached(mem, root, c)
  }

  /** The tables, the buddy's pages and the words of its list nodes at one moment. */
  datatype Snapshot = Snapshot(mem: Mem, pages: BuddyMachine.State, words: FreeList.Ram)

  /** Between the two states the buddy has only handed out pages: none was given back, and list
      nodes were written into pages that were free, nowhere else. */
  ghost predicate Served(s: BuddyMachine.State, ram: FreeList.Ram, s': BuddyMachine.State, ram': FreeList.Ram) {
    && s.live <= s'.live && BuddyMachine.FreePages(s') <= BuddyMachine.FreePages(s)
    && FreeList.WritesIn(ram, ram', BuddyMachine.FreePages(s))
  }

  lemma ServedNone(s: BuddyMachine.State, ram: FreeList.Ram)
    ensures Served(s, ram, s, ram)
  {
  }

  lemma ServedTwice(s0: BuddyMachine.State, ram0: FreeList.Ram, s1: BuddyMachine.State, ram1: FreeList.Ram,
                    s2: BuddyMachine.State, ram2: FreeList.Ram)
    requires Served(s0, ram0, s1, ram1) && Served(s1, ram1, s2, ram2)
    ensures Served(s0, ram0, s2, ram2)
  {
    hide BuddyTheory.PagesOf;
  }

  class PhysMem {
    const tables: map<nat, PageTable>
    const buddy: Buddy.BuddyAllocator
    /** Where the window starts, and the physical address of the buddy's first page. */
    const hhdm: nat
    const start: nat

    ghost function Arrays(): set<array<nat>> {
      set f | f in tables :: tables[f].entries
    }

    /** The frame of the buddy's page `p`. */
    function Frame(p: nat): nat { start + PAGE * p }

    /** Tables and the allocator's own arrays are all different memory. */
    ghost predicate Shape() {
      && (forall f | f in tables :: tables[f].entries.Length == ENTRIES)
      && (forall f, g | f in tables && g in tables && f != g :: tables[f].entries != tables[g].entries)
      && (forall f | f in tables ::
            tables[f].entries as object !in {buddy.freeLists as object, buddy.bitmaps as object})
    }

    ghost predicate Valid()
      reads buddy, buddy.freeLists, buddy.bitmaps
    {
      && Shape() && buddy.Valid() && buddy.base == hhdm + start && start % PAGE == 0
      && (forall p | p in buddy.owned :: Frame(p) in tables && Frame(p) < ADDR_LIMIT)
    }

    ghost function Mem(): Mem
      reads Arrays()
    {
      map f | f in tables :: tables[f].entries[..]
    }

    ghost function Snap(): Snapshot
      reads Arrays(), buddy`lists, buddy`live, buddy`ram
    {
      Snapshot(Mem(), buddy.Abs(), buddy.ram)
    }

    /** The frames of the buddy's free pages. */
    ghost function Pool(): set<nat>
      reads buddy`lists
    {
      set p | p in BuddyTheory.PagesOf(buddy.Free()) :: Frame(p)
    }

    /** A frame that can be taken is memory an entry can point to. */
    lemma PoolFrame(c: nat)
      requires Valid() && c in Pool()
      ensures c in tables && Mappable(c, PAGE)
    {
      hide Buddy.BuddyAllocator.Valid, BuddyTheory.PagesOf, BuddyMachine.Inv, Buddy.FreeSet;
      Buddy.BuddyInv(buddy);
      var p: nat :| p in BuddyTheory.PagesOf(buddy.Free()) && c == Frame(p);
      assert p in buddy.owned;
      FrameAligned(start, p);
    }

    /** Memory whose arrays still hold `mem` is `mem`. */
    lemma SameArrays(mem: Mem)
      requires mem.Keys == tables.Keys
      requires forall f | f in tables :: tables[f].entries[..] == mem[f]
      ensures Mem() == mem
    {
    }

    constructor (tables: map<nat, PageTable>, buddy: Buddy.BuddyAllocator, hhdm: nat, start: nat)
      ensures this.tables == tables && this.buddy == buddy && this.hhdm == hhdm && this.start == start
    {
      this.tables, this.buddy, this.hhdm, this.start := tables, buddy, hhdm, start;
    }

    method ReadEntry(f: nat, i: nat) returns (e: nat)
      requires Valid() && f in tables && i < ENTRIES
      ensures Mem() == old(Mem()) && Table(Mem(), f) && e == Mem()[f][i]
    {
      hide Buddy.BuddyAllocator.Valid;
      ghost var mem := Mem();
      e := tables[f].Read(i);
      SameArrays(mem);
    }

    method WriteEntry(f: nat, i: nat, e: nat)
      requires Valid() && f in tables && i < ENTRIES
      modifies Arrays()
      ensures Valid() && Pool() == old(Pool())
      ensures Table(old(Mem()), f) && Mem() == SetEntry(old(Mem()), f, i, e)
    {
      hide Buddy.BuddyAllocator.Valid;
      tables[f].Write(i, e);
      assert forall g | g in tables && g != f :: tables[g].entries[..] == old(tables[g].entries[..]);
    }

    /** Take a page from the buddy and zero it: a live block that was free. */
    method AllocTableFrame() returns (r: Option<nat>)
      requires Valid()
      modifies buddy`ram, buddy`lists, buddy`live, buddy`stats, buddy.freeLists, buddy.bitmaps, Arrays()
      ensures Valid()
      ensures r.None? ==> old(Pool()) == {} == Pool() && Mem() == old(Mem())
      ensures r.Some? ==> r.value in old(Pool()) && Pool() == old(Pool()) - {r.value}
      ensures r.Some? ==> Mem() == old(Mem())[r.value := ZeroTable()]
      ensures Served(old(buddy.Abs()), old(buddy.ram), buddy.Abs(), buddy.ram)
    {
      hide Buddy.BuddyAllocator.Valid, BuddyMachine.AllocStep, BuddyTheory.PagesOf, ZeroTable, FreeList.WritesIn,
        FreeList.WordsKept;
      ghost var s := buddy.Abs();
      Buddy.BuddyInv(buddy);
      var virt := buddy.AllocPages(0);
      PageTaken(s, Buddy.BlockAt(virt, buddy.base, 0), buddy.Abs(), buddy.maxOrder);
      if virt.None? {
        return None;
      }
      var frame := virt.value - hhdm;
      ZeroFrame(frame);
      return Some(frame);
    }

    method ZeroFrame(f: nat)
      requires Valid() && f in tables
      modifies Arrays()
      ensures Valid() && Mem() == old(Mem())[f := ZeroTable()]
    {
      hide Buddy.BuddyAllocator.Valid, ZeroTable;
      tables[f].Zero();
      assert forall g | g in tables && g != f :: tables[g].entries[..] == old(tables[g].entries[..]);
    }
  }

  /** A one-page allocation takes one free page, and fails only when there is none. */
  lemma PageTaken(s: BuddyMachine.State, got: Option<Blocks.Block>, s': BuddyMachine.State, m: nat)
    requires BuddyMachine.Inv(s, m) && BuddyMachine.AllocStep(s, 0, got, s')
    ensures got.None? ==> s' == s && BuddyMachine.FreePages(s) == {}
    ensures got.Some? ==> got.value.page in BuddyMachine.FreePages(s)
    ensures got.Some? ==> BuddyMachine.FreePages(s') == BuddyMachine.FreePages(s) - {got.value.page}
    ensures s.live <= s'.live
  {
    if got.Some? {
      var f :| BuddyMachine.Taken(s, 0, f) && BuddyMachine.AllocOf(s, 0, f) == (got.value, s');
      BuddyMachine.AllocEffect(s, 0, f, m);
      OnePageBlock(got.value);
    }
  }

  /** A table of the tree that lies in a page of the buddy is in a live one, so that no list
      node the buddy writes lands in it. */
  lemma ReachedLive(phys: PhysMem, root: nat, path: seq<nat>, p: nat)
    requires phys.Valid() && Fresh(phys.Pool(), phys.Mem(), root)
    requires p in phys.buddy.owned && Reach(phys.Mem(), root, path) == Some(phys.Frame(p))
    ensures p in BuddyMachine.LivePages(phys.buddy.Abs())
  {
    hide Buddy.BuddyAllocator.Linked, BuddyTheory.PagesOf, Buddy.FreeSet, Buddy.BuddyAllocator.StatsAgree, Reach;
    assert phys.Frame(p) !in phys.Pool();
    assert p !in BuddyMachine.FreePages(phys.buddy.Abs());
  }

  lemma FrameAligned(start: nat, p: nat)
    requires start % PAGE == 0
    ensures (start + PAGE * p) % PAGE == 0
  {
  }

  lemma OnePageBlock(b: Blocks.Block)
    requires b.order == 0
    ensures b.Pages() == {b.page}
  {
    assert b.Has(b.page);
  }

  /** There are as many frames to take as the buddy has free pages. */
  lemma PoolCount(phys: PhysMem)
    ensures |phys.Pool()| == |BuddyTheory.PagesOf(phys.buddy.Free())|
  {
    FrameCount(phys, BuddyTheory.PagesOf(phys.buddy.Free()));
  }

  lemma {:induction false} FrameCount(phys: PhysMem, pages: set<nat>)
    ensures |set p | p in pages :: phys.Frame(p)| == |pages|
  {
    if pages == {} {
      assert (set p: nat | p in pages :: phys.Frame(p)) == {};
    } else {
      var q :| q in pages;
      FrameCount(phys, pages - {q});
      assert (set p | p in pages :: phys.Frame(p)) == (set p | p in pages - {q} :: phys.Frame(p)) + {phys.Frame(q)};
    }
  }
}
