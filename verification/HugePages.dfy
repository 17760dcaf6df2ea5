/** Two trees with a huge page on the path of one address: below it a map writes a data page
    in the one, and the root of the tree itself in the other. */
module HugePages {
  import opened Descent
  import opened PageTree
  import opened Paging
  import opened Wrappers

  const ROOT := 0x20_0000
  const DATA := 0x40_0000

  /** The address looked at: it selects entries 256, 0, 1 and 256. */
  const ADDRESS := 0xFFFF_8000_0030_0000

  /** A root, a PDPT and a page directory that maps the 2 MiB from `target` on; the frame at
      `DATA` holds zeroes. */
  function Loader(target: nat): Mem {
    map[ROOT := ZeroTable()[256 := 0x1003], 0x1000 := ZeroTable()[0 := 0x2003],
        0x2000 := ZeroTable()[1 := target + 0x83], DATA := ZeroTable()]
  }

  lemma Indices()
    ensures Index(ADDRESS, 0) == 256 && Index(ADDRESS, 1) == 0 && Index(ADDRESS, 2) == 1 && Index(ADDRESS, 3) == 256
    ensures Path(ADDRESS, 1) == [256] && Path(ADDRESS, 2) == [256, 0] && Canonical(ADDRESS)
  {
  }

  lemma Entries(target: nat)
    requires target == ROOT || target == DATA
    ensures Present(0x1003) && !Huge(0x1003) && Addr(0x1003, PAGE) == 0x1000
    ensures Present(0x2003) && !Huge(0x2003) && Addr(0x2003, PAGE) == 0x2000
    ensures Present(target + 0x83) && Huge(target + 0x83) && Addr(target + 0x83, PAGE) == target
    ensures Addr(target + 0x83, HUGE_2M) == target && ADDRESS % HUGE_2M == 0x10_0000
    ensures !Present(0)
  {
  }

  /** The tree is the root and the two tables below it. */
  lemma {:induction false} LoaderReach(target: nat, p: seq<nat>)
    requires target == ROOT || target == DATA
    ensures Reach(Loader(target), ROOT, p) ==
              if p == [] then Some(ROOT) else if p == [256] then Some(0x1000) else if p == [256, 0] then Some(0x2000)
              else None
    decreases |p|
  {
    Entries(target);
    hide Addr, Present, Huge;
    if p != [] {
      LoaderReach(target, p[..|p| - 1]);
      assert p == p[..|p| - 1] + [p[|p| - 1]];
    }
  }

  lemma LoaderTree(target: nat)
    requires target == ROOT || target == DATA
    ensures NonSharing(Loader(target), ROOT)
  {
    var mem := Loader(target);
    forall p
      ensures Reach(mem, ROOT, p).Some? ==>
        && Reach(mem, ROOT, p).value in {ROOT, 0x1000, 0x2000} && p == PathTo(Reach(mem, ROOT, p).value)
    {
      LoaderReach(target, p);
    }
    hide Reach;
    assert Table(mem, ROOT) && Table(mem, 0x1000) && Table(mem, 0x2000);
  }

  function PathTo(f: nat): seq<nat> {
    if f == 0x1000 then [256] else if f == 0x2000 then [256, 0] else []
  }

  lemma LoaderWalk(target: nat)
    requires target == ROOT || target == DATA
    ensures !NoHuge(Loader(target), ROOT, 0, ADDRESS)
    ensures Follow(Loader(target), ROOT, 0, ADDRESS) == Stop(target, 3)
    ensures Walk(Loader(target), ROOT, 0, ADDRESS) == Some(target + 0x10_0000)
  {
    Indices();
    Entries(target);
    hide Index, Addr, Present, Huge, Path;
  }

  /** A data page below the huge page: whatever leaf a map writes there, the address keeps the
      translation of the huge page. */
  lemma DataPageWritten(e: nat)
    ensures var mem := Loader(DATA);
      && Stray(mem, ROOT, ADDRESS) && Follow(mem, ROOT, 0, ADDRESS) == Stop(DATA, 3)
      && Walk(SetEntry(mem, DATA, 256, e), ROOT, 0, ADDRESS) == Walk(mem, ROOT, 0, ADDRESS) == Some(0x50_0000)
  {
    var mem := Loader(DATA);
    LoaderTree(DATA);
    LoaderWalk(DATA);
    hide Walk, NoHuge, Follow, Index, Path;
    forall p
      ensures Reach(mem, ROOT, p) != Some(DATA)
    {
      LoaderReach(DATA, p);
    }
    hide Reach;
    WriteUnreached(mem, ROOT, DATA, mem[DATA][256 := e]);
  }

  /** The root below the huge page, as when a table has come to lie in a frame that is a multiple
      of 2 MiB: the leaf replaces the root's own entry, and the address loses its translation. */
  lemma RootOverwritten(physAddr: nat, prot: nat)
    requires Mappable(physAddr, PAGE) && FlagsOk(prot) && physAddr !in Loader(ROOT)
    ensures var mem := Loader(ROOT);
      && NonSharing(mem, ROOT) && Follow(mem, ROOT, 0, ADDRESS) == Stop(ROOT, 3)
      && Walk(mem, ROOT, 0, ADDRESS) == Some(0x30_0000)
      && Walk(SetEntry(mem, ROOT, 256, Encode(physAddr, PAGE, prot)), ROOT, 0, ADDRESS) == None
  {
    LoaderTree(ROOT);
    LoaderWalk(ROOT);
    Indices();
    EncodeDecode(physAddr, 3, prot);
    hide Index, Encode, Addr, Path, NoHuge, Follow, Reach;
  }
}
