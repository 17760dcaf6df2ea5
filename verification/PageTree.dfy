/** Trees of page tables in physical memory: which tables a root reaches, the hardware
    walk, and the effect of one entry write on both. */
module PageTree {
  import opened Paging
  import opened Wrappers

  /** The page-table view of physical memory: frame address to its 512 entries. */
  type Mem = map<nat, seq<nat>>

  predicate Table(mem: Mem, f: nat) { f in mem && |mem[f]| == ENTRIES }

  /** An entry that leads to another table; bit 7 means nothing in the PML4. */
  predicate Points(e: nat, depth: nat) {
    depth < 3 && Present(e) && (depth == 0 || !Huge(e))
  }

  function Step(mem: Mem, f: nat, depth: nat, i: nat): Option<nat> {
    if Table(mem, f) && i < ENTRIES && Points(mem[f][i], depth) then Some(Addr(mem[f][i], PAGE)) else None
  }

  /** The table found by following the indices `p` from `root`. */
  function Reach(mem: Mem, root: nat, p: seq<nat>): Option<nat>
    decreases |p|
  {
    if p == [] then Some(root)
    else
      var up := Reach(mem, root, p[..|p| - 1]);
      if up.None? then None else Step(mem, up.value, |p| - 1, p[|p| - 1])
  }

  /** Everything reached is a table, and no table is reached along two paths. */
  ghost predicate NonSharing(mem: Mem, root: nat) {
    && (forall p | Reach(mem, root, p).Some? :: Table(mem, Reach(mem, root, p).value))
    && (forall p, q | Reach(mem, root, p).Some? && Reach(mem, root, p) == Reach(mem, root, q) :: p == q)
  }

  ghost predicate Unreached(mem: Mem, root: nat, c: nat) {
    forall p :: Reach(mem, root, p) != Some(c)
  }

  /** The address translation of the processor, from table `f` at `depth` on. */
  function Walk(mem: Mem, f: nat, depth: nat, v: nat): Option<nat>
    requires depth < 4
    decreases 4 - depth
  {
    if !Table(mem, f) then None
    else
      var e := mem[f][Index(v, depth)];
      if !Present(e) then None
      else if Points(e, depth) then Walk(mem, Addr(e, PAGE), depth + 1, v)
      else Some(Addr(e, Span(depth)) + v % Span(depth))
  }

  /** No entry on the path of `v` below `f` maps a huge page. */
  predicate NoHuge(mem: Mem, f: nat, depth: nat, v: nat)
    requires depth < 4
    decreases 4 - depth
  {
    depth == 3 || !Table(mem, f) ||
    var e := mem[f][Index(v, depth)];
    Present(e) ==> Points(e, depth) && NoHuge(mem, Addr(e, PAGE), depth + 1, v)
  }

  function SetEntry(mem: Mem, g: nat, i: nat, e: nat): Mem
    requires Table(mem, g) && i < ENTRIES
  {
    var entries: seq<nat> := mem[g][i := e];
    mem[g := entries]
  }

  function ZeroTable(): (t: seq<nat>)
    ensures |t| == ENTRIES
  {
    seq(ENTRIES, _ => 0)
  }

  // -------------------------------------------------------------- entries

  /** The entry the indices `p` select; zero where there is no table to hold it. */
  function Entry(mem: Mem, root: nat, p: seq<nat>): nat {
    if p == [] then 0
    else
      var g := Reach(mem, root, p[..|p| - 1]);
      if g.Some? && Table(mem, g.value) && p[|p| - 1] < ENTRIES then mem[g.value][p[|p| - 1]] else 0
  }

  /** An entry that links a new table: present, writable, and no other flag. */
  ghost predicate LinksTable(e: nat) { Flags(e, {0, 1}) }

  ghost predicate SameEntries(mem: Mem, mem': Mem, root: nat) {
    forall q :: Entry(mem', root, q) == Entry(mem, root, q)
  }

  /** The entry at `p` is `e`, every other entry is what it was. */
  ghost predicate EntrySet(mem: Mem, mem': Mem, root: nat, p: seq<nat>, e: nat) {
    forall q :: Entry(mem', root, q) == if q == p then e else Entry(mem, root, q)
  }

  /** Every entry is what it was, but for entries above the leaves that were absent and now link
      a table. */
  ghost predicate Linking(mem: Mem, mem': Mem, root: nat) {
    forall q :: Entry(mem', root, q) == Entry(mem, root, q) || NewLink(mem, mem', root, q)
  }

  ghost predicate NewLink(mem: Mem, mem': Mem, root: nat, p: seq<nat>) {
    |p| <= 3 && !Present(Entry(mem, root, p)) && LinksTable(Entry(mem', root, p))
  }

  lemma EntryOf(mem: Mem, root: nat, p: seq<nat>, i: nat)
    ensures Entry(mem, root, p + [i]) ==
              var g := Reach(mem, root, p);
              if g.Some? && Table(mem, g.value) && i < ENTRIES then mem[g.value][i] else 0
  {
    assert (p + [i])[..|p + [i]| - 1] == p;
    hide Reach;
  }

  /** Where a table is found the entry selected leads to it. */
  lemma EntryPoints(mem: Mem, root: nat, p: seq<nat>)
    requires p != [] && Reach(mem, root, p).Some?
    ensures Points(Entry(mem, root, p), |p| - 1)
  {
  }

  /** One write to a table of the tree, as the entries show it, if it moves no table. */
  lemma EntryWritten(mem: Mem, root: nat, pg: seq<nat>, g: nat, i: nat, e: nat)
    requires NonSharing(mem, root) && Reach(mem, root, pg) == Some(g) && Table(mem, g) && i < ENTRIES
    requires forall p :: Reach(SetEntry(mem, g, i, e), root, p) == Reach(mem, root, p)
    ensures EntrySet(mem, SetEntry(mem, g, i, e), root, pg + [i], e)
  {
    hide Reach;
    var mem' := SetEntry(mem, g, i, e);
    forall q
      ensures Entry(mem', root, q) == if q == pg + [i] then e else Entry(mem, root, q)
    {
      if q != [] {
        assert q == q[..|q| - 1] + [q[|q| - 1]];
      }
      EntryOf(mem', root, pg, i);
    }
  }

  lemma LinkingTwice(mem0: Mem, mem1: Mem, mem2: Mem, root: nat)
    requires Linking(mem0, mem1, root) && Linking(mem1, mem2, root)
    ensures Linking(mem0, mem2, root)
  {
    hide Entry, Present;
    forall q
      ensures Entry(mem2, root, q) == Entry(mem0, root, q) || NewLink(mem0, mem2, root, q)
    {
      if NewLink(mem0, mem1, root, q) {
        PresentLink(Entry(mem1, root, q));
      }
    }
  }

  lemma PresentLink(e: nat)
    requires LinksTable(e)
    ensures Present(e)
  {
    EntryFields(e, 3, 0);
  }

  // ------------------------------------------------------------ following

  lemma ReachSnoc(mem: Mem, root: nat, p: seq<nat>, i: nat)
    ensures Reach(mem, root, p + [i]) ==
              if Reach(mem, root, p).None? then None else Step(mem, Reach(mem, root, p).value, |p|, i)
  {
  }

  lemma {:induction false} ReachPrefix(mem: Mem, root: nat, p: seq<nat>, q: seq<nat>)
    requires p <= q && Reach(mem, root, p).None?
    ensures Reach(mem, root, q).None?
    decreases |q|
  {
    if p != q {
      ReachPrefix(mem, root, p, q[..|q| - 1]);
    }
  }

  lemma PathPrefix(v: nat, depth: nat, d: nat)
    requires depth <= d <= 4
    ensures Path(v, depth) <= Path(v, d)
  {
  }

  /** The walk passes through every table on the path of the address. */
  lemma {:induction false} WalkThrough(mem: Mem, root: nat, v: nat, depth: nat)
    requires depth <= 3 && Reach(mem, root, Path(v, depth)).Some?
    ensures Walk(mem, root, 0, v) == Walk(mem, Reach(mem, root, Path(v, depth)).value, depth, v)
  {
    if depth > 0 {
      ReachSnoc(mem, root, Path(v, depth - 1), Index(v, depth - 1));
      WalkThrough(mem, root, v, depth - 1);
    }
  }

  // -------------------------------------------------------- one entry write

  /** A write to entry `i` of the table at `pg` is seen only along paths through it. */
  lemma {:induction false} ReachFrame(mem: Mem, root: nat, pg: seq<nat>, g: nat, i: nat, e: nat, p: seq<nat>)
    requires NonSharing(mem, root) && Reach(mem, root, pg) == Some(g) && i < ENTRIES
    requires !(pg + [i] <= p)
    ensures Reach(SetEntry(mem, g, i, e), root, p) == Reach(mem, root, p)
    decreases |p|
  {
    hide NonSharing;
    ReachedTable(mem, root, pg);
    if p != [] {
      var up, k := p[..|p| - 1], p[|p| - 1];
      assert p == up + [k];
      assert !(pg + [i] <= up);
      ReachFrame(mem, root, pg, g, i, e, up);
      if Reach(mem, root, up).Some? {
        OnlyPath(mem, root, up, pg);
        StepFrame(mem, g, i, e, Reach(mem, root, up).value, |up|, k);
      }
    }
  }

  lemma ReachedTable(mem: Mem, root: nat, p: seq<nat>)
    requires NonSharing(mem, root) && Reach(mem, root, p).Some?
    ensures Table(mem, Reach(mem, root, p).value)
  {
  }

  lemma OnlyPath(mem: Mem, root: nat, p: seq<nat>, q: seq<nat>)
    requires NonSharing(mem, root) && Reach(mem, root, p).Some?
    ensures Reach(mem, root, p) == Reach(mem, root, q) ==> p == q
  {
  }

  lemma StepFrame(mem: Mem, g: nat, i: nat, e: nat, f: nat, depth: nat, k: nat)
    requires Table(mem, g) && i < ENTRIES && !(f == g && k == i)
    ensures Step(SetEntry(mem, g, i, e), f, depth, k) == Step(mem, f, depth, k)
  {
  }

  lemma {:induction false} WalkFrame(mem: Mem, root: nat, pg: seq<nat>, g: nat, i: nat, e: nat, v: nat, f: nat,
                                     depth: nat)
    requires NonSharing(mem, root) && Reach(mem, root, pg) == Some(g) && i < ENTRIES
    requires !(pg + [i] <= Path(v, 4))
    requires depth < 4 && Reach(mem, root, Path(v, depth)) == Some(f)
    ensures Walk(SetEntry(mem, g, i, e), f, depth, v) == Walk(mem, f, depth, v)
    ensures NoHuge(SetEntry(mem, g, i, e), f, depth, v) == NoHuge(mem, f, depth, v)
    decreases 4 - depth
  {
    hide NonSharing, Path, Reach, Addr, Span;
    EntryUntouched(mem, root, pg, g, i, e, v, f, depth);
    var k := Index(v, depth);
    if Table(mem, f) && Points(mem[f][k], depth) {
      ReachSnoc(mem, root, Path(v, depth), k);
      PathSnoc(v, depth);
      WalkFrame(mem, root, pg, g, i, e, v, Addr(mem[f][k], PAGE), depth + 1);
    }
  }

  lemma PathSnoc(v: nat, depth: nat)
    requires depth < 4
    ensures Path(v, depth + 1) == Path(v, depth) + [Index(v, depth)]
  {
  }

  lemma EntryUntouched(mem: Mem, root: nat, pg: seq<nat>, g: nat, i: nat, e: nat, v: nat, f: nat, depth: nat)
    requires NonSharing(mem, root) && Reach(mem, root, pg) == Some(g) && i < ENTRIES
    requires !(pg + [i] <= Path(v, 4))
    requires depth < 4 && Reach(mem, root, Path(v, depth)) == Some(f)
    ensures var mem' := SetEntry(mem, g, i, e);
      Table(mem', f) && Table(mem, f) && mem'[f][Index(v, depth)] == mem[f][Index(v, depth)]
  {
  }

  /** Writing a leaf — neither the old nor the new entry leads to a table — keeps every
      path, and decides the walk exactly for the addresses that select the entry. */
  lemma LeafWrite(mem: Mem, root: nat, v: nat, depth: nat, g: nat, e: nat)
    requires NonSharing(mem, root) && depth < 4 && Reach(mem, root, Path(v, depth)) == Some(g)
    requires !Points(mem[g][Index(v, depth)], depth) && !Points(e, depth)
    ensures var mem' := SetEntry(mem, g, Index(v, depth), e);
      && NonSharing(mem', root)
      && (forall p :: Reach(mem', root, p) == Reach(mem, root, p))
      && (forall w: nat | Path(w, depth + 1) != Path(v, depth + 1) ::
            Walk(mem', root, 0, w) == Walk(mem, root, 0, w) && NoHuge(mem', root, 0, w) == NoHuge(mem, root, 0, w))
      && (forall w: nat | Path(w, depth + 1) == Path(v, depth + 1) ::
            Walk(mem', root, 0, w) == if Present(e) then Some(Addr(e, Span(depth)) + w % Span(depth)) else None)
      && EntrySet(mem, mem', root, Path(v, depth + 1), e)
  {
    hide Walk, NoHuge, NonSharing, Reach, Path, Addr, Points, EntrySet;
    var i, pg := Index(v, depth), Path(v, depth);
    TableOn(mem, root, pg, g);
    var mem' := SetEntry(mem, g, i, e);
    LeafStops(mem, root, pg, g, i, e);
    forall p
      ensures Reach(mem', root, p) == Reach(mem, root, p)
    {
      LeafReach(mem, root, pg, g, i, e, p);
    }
    SameReach(mem, mem', root);
    PathSnoc(v, depth);
    EntryWritten(mem, root, pg, g, i, e);
    forall w: nat | Path(w, depth + 1) != Path(v, depth + 1)
      ensures Walk(mem', root, 0, w) == Walk(mem, root, 0, w) && NoHuge(mem', root, 0, w) == NoHuge(mem, root, 0, w)
    {
      LeafOthers(mem, root, v, depth, g, e, w);
    }
    forall w: nat | Path(w, depth + 1) == Path(v, depth + 1)
      ensures Walk(mem', root, 0, w) == if Present(e) then Some(Addr(e, Span(depth)) + w % Span(depth)) else None
    {
      LeafOwn(mem', root, v, depth, g, e, w);
    }
  }

  lemma TableOn(mem: Mem, root: nat, p: seq<nat>, g: nat)
    requires NonSharing(mem, root) && Reach(mem, root, p) == Some(g)
    ensures Table(mem, g)
  {
  }

  /** Neither the old entry nor the new one leads anywhere. */
  lemma LeafStops(mem: Mem, root: nat, pg: seq<nat>, g: nat, i: nat, e: nat)
    requires NonSharing(mem, root) && Reach(mem, root, pg) == Some(g) && i < ENTRIES
    requires Table(mem, g) && !Points(mem[g][i], |pg|) && !Points(e, |pg|)
    ensures var mem' := SetEntry(mem, g, i, e);
      && Reach(mem', root, pg) == Some(g) && Reach(mem, root, pg + [i]).None? && Reach(mem', root, pg + [i]).None?
  {
    hide NonSharing, Points, Reach;
    ReachFrame(mem, root, pg, g, i, e, pg);
    ReachSnoc(mem, root, pg, i);
    ReachSnoc(SetEntry(mem, g, i, e), root, pg, i);
  }

  lemma LeafReach(mem: Mem, root: nat, pg: seq<nat>, g: nat, i: nat, e: nat, p: seq<nat>)
    requires NonSharing(mem, root) && Reach(mem, root, pg) == Some(g) && i < ENTRIES && Table(mem, g)
    requires var mem' := SetEntry(mem, g, i, e);
      Reach(mem, root, pg + [i]).None? && Reach(mem', root, pg + [i]).None?
    ensures Reach(SetEntry(mem, g, i, e), root, p) == Reach(mem, root, p)
  {
    hide Reach, NonSharing, SetEntry;
    if pg + [i] <= p {
      ReachPrefix(mem, root, pg + [i], p);
      ReachPrefix(SetEntry(mem, g, i, e), root, pg + [i], p);
    } else {
      ReachFrame(mem, root, pg, g, i, e, p);
    }
  }

  /** Memory with the same paths and the same tables shares no more than before. */
  lemma SameReach(mem: Mem, mem': Mem, root: nat)
    requires NonSharing(mem, root) && forall p :: Reach(mem', root, p) == Reach(mem, root, p)
    requires forall f | Table(mem, f) :: Table(mem', f)
    ensures NonSharing(mem', root)
  {
    hide Reach;
  }

  lemma LeafOthers(mem: Mem, root: nat, v: nat, depth: nat, g: nat, e: nat, w: nat)
    requires NonSharing(mem, root) && depth < 4 && Reach(mem, root, Path(v, depth)) == Some(g) && Table(mem, g)
    requires Path(w, depth + 1) != Path(v, depth + 1)
    ensures var mem' := SetEntry(mem, g, Index(v, depth), e);
      Walk(mem', root, 0, w) == Walk(mem, root, 0, w) && NoHuge(mem', root, 0, w) == NoHuge(mem, root, 0, w)
  {
    hide Walk, NoHuge, NonSharing, SetEntry, Index;
    PathSnoc(v, depth);
    PathPrefix(w, depth + 1, 4);
    assert Reach(mem, root, Path(w, 0)) == Some(root);
    hide Reach, Path;
    WalkFrame(mem, root, Path(v, depth), g, Index(v, depth), e, w, root, 0);
  }

  lemma LeafOwn(mem: Mem, root: nat, v: nat, depth: nat, g: nat, e: nat, w: nat)
    requires depth < 4 && Reach(mem, root, Path(v, depth)) == Some(g) && Path(w, depth + 1) == Path(v, depth + 1)
    requires Table(mem, g) && mem[g][Index(v, depth)] == e && !Points(e, depth)
    ensures Walk(mem, root, 0, w) == if Present(e) then Some(Addr(e, Span(depth)) + w % Span(depth)) else None
  {
    hide Reach, Path, Points, Addr, Span;
    PathStep(v, w, depth);
    WalkThrough(mem, root, w, depth);
  }

  /** From `mem` to `mem'` no table but the one at `p` has appeared or moved, every address is
      translated as before, and at most the entry at `p` has come to link a table. */
  ghost predicate Extends(mem: Mem, mem': Mem, root: nat, p: seq<nat>) {
    && (forall q | q != p :: Reach(mem', root, q) == Reach(mem, root, q))
    && (forall w: nat :: Walk(mem', root, 0, w) == Walk(mem, root, 0, w))
    && (forall w: nat :: NoHuge(mem', root, 0, w) == NoHuge(mem, root, 0, w))
    && LinkedAt(mem, mem', root, p)
  }

  ghost predicate LinkedAt(mem: Mem, mem': Mem, root: nat, p: seq<nat>) {
    && (forall q | q != p :: Entry(mem', root, q) == Entry(mem, root, q))
    && (Entry(mem', root, p) == Entry(mem, root, p) || NewLink(mem, mem', root, p))
  }

  lemma ExtendsSelf(mem: Mem, root: nat, p: seq<nat>)
    ensures Extends(mem, mem, root, p)
  {
  }

  lemma ExtendsLinks(mem: Mem, mem': Mem, root: nat, p: seq<nat>)
    requires Extends(mem, mem', root, p)
    ensures Linking(mem, mem', root)
  {
    hide Reach, Walk, NoHuge, Entry, NewLink;
  }

  /** No table has moved, and every table that is new lies in a frame of `pool`. */
  ghost predicate TablesFrom(mem: Mem, mem': Mem, root: nat, pool: set<nat>) {
    forall q :: Reach(mem', root, q) == Reach(mem, root, q) ||
                (Reach(mem, root, q).None? && Reach(mem', root, q).Some? && Reach(mem', root, q).value in pool)
  }

  lemma TablesFromTwice(mem0: Mem, mem1: Mem, mem2: Mem, root: nat, pool: set<nat>, pool': set<nat>)
    requires TablesFrom(mem0, mem1, root, pool) && TablesFrom(mem1, mem2, root, pool') && pool' <= pool
    ensures TablesFrom(mem0, mem2, root, pool)
  {
    hide Reach;
  }

  /** All tables of the tree lie in frames of `ours`. */
  ghost predicate TablesIn(mem: Mem, root: nat, ours: set<nat>) {
    forall q | Reach(mem, root, q).Some? :: Reach(mem, root, q).value in ours
  }

  /** No frame but those of `ours` has been written. */
  ghost predicate KeptOutside(mem: Mem, mem': Mem, ours: set<nat>) {
    mem'.Keys == mem.Keys && forall f | f in mem && f !in ours :: mem'[f] == mem[f]
  }

  /** Frames it takes to have a table at `depth` on the path of `v`. */
  ghost function Created(mem: Mem, root: nat, v: nat, depth: nat): (r: nat)
    requires depth <= 4
    ensures r <= 1
  {
    if Reach(mem, root, Path(v, depth)).None? then 1 else 0
  }

  // -------------------------------------------------------- counting tables

  /** Paths of the tables at depth `d` that translate the first `n` steps above `start`. */
  ghost function TablesAt(start: nat, step: nat, n: nat, d: nat): set<seq<nat>>
    requires d <= 4
  {
    set i: nat | i < n :: Path(start + i * step, d)
  }

  /** The same at depths 1 to `levels`. */
  ghost function TablePaths(start: nat, step: nat, n: nat, levels: nat): set<seq<nat>>
    requires levels <= 4
  {
    if levels == 0 then {} else TablePaths(start, step, n, levels - 1) + TablesAt(start, step, n, levels)
  }

  lemma TablesGrow(start: nat, step: nat, n: nat, d: nat)
    requires d <= 4
    ensures TablesAt(start, step, n + 1, d) == TablesAt(start, step, n, d) + {Path(start + n * step, d)}
  {
    hide Path;
  }

  /** The paths in a set that lead to no table yet. */
  ghost function New(mem: Mem, root: nat, paths: set<seq<nat>>): set<seq<nat>> {
    set p | p in paths && Reach(mem, root, p).None?
  }

  /** Frames it takes to have all three tables on the path of `v`. */
  ghost function Missing(mem: Mem, root: nat, v: nat): nat { |New(mem, root, TablePaths(v, PAGE, 1, 3))| }

  /** From `m0` to `mem` the paths in `done`, and no others, have got tables. */
  ghost predicate Grown(m0: Mem, mem: Mem, root: nat, done: set<seq<nat>>) {
    forall p :: Reach(mem, root, p).Some? <==> Reach(m0, root, p).Some? || p in done
  }

  /** The tables for the paths in `done` are there, and each new one has cost a frame. */
  ghost predicate Ledger(m0: Mem, mem: Mem, root: nat, done: set<seq<nat>>, before: nat, after: nat) {
    Grown(m0, mem, root, done) && before == after + |New(m0, root, done)|
  }

  lemma LedgerOpens(m0: Mem, root: nat, before: nat)
    ensures Ledger(m0, m0, root, {}, before, before)
  {
    assert New(m0, root, {}) == {};
  }

  lemma NewOne(m0: Mem, mem: Mem, root: nat, done: set<seq<nat>>, p: seq<nat>)
    requires Grown(m0, mem, root, done)
    ensures |New(m0, root, done + {p})| == |New(m0, root, done)| + (if Reach(mem, root, p).None? then 1 else 0)
  {
    hide Reach;
    if Reach(mem, root, p).None? {
      assert New(m0, root, done + {p}) == New(m0, root, done) + {p};
    } else {
      assert New(m0, root, done + {p}) == New(m0, root, done);
    }
  }

  lemma LedgerStep(m0: Mem, mem: Mem, mem': Mem, root: nat, done: set<seq<nat>>, p: seq<nat>,
                   before: nat, after: nat, after': nat)
    requires Ledger(m0, mem, root, done, before, after)
    requires Extends(mem, mem', root, p) && Reach(mem', root, p).Some?
    requires after == after' + (if Reach(mem, root, p).None? then 1 else 0)
    ensures Ledger(m0, mem', root, done + {p}, before, after')
  {
    hide Reach, Walk, NoHuge, New;
    NewOne(m0, mem, root, done, p);
  }

  /** With no frame left for a missing table there were too few from the start. */
  lemma LedgerShort(m0: Mem, mem: Mem, root: nat, done: set<seq<nat>>, p: seq<nat>, all: set<seq<nat>>, before: nat)
    requires Ledger(m0, mem, root, done, before, 0) && Reach(mem, root, p).None? && done + {p} <= all
    ensures before < |New(m0, root, all)|
  {
    hide Reach, Grown, New;
    NewOne(m0, mem, root, done, p);
    NewMore(m0, root, done + {p}, all);
  }

  lemma NewMore(m0: Mem, root: nat, a: set<seq<nat>>, b: set<seq<nat>>)
    requires a <= b
    ensures |New(m0, root, a)| <= |New(m0, root, b)|
  {
    hide Reach;
    assert New(m0, root, b) == New(m0, root, a) + (New(m0, root, b) - New(m0, root, a));
  }

  lemma {:induction false} PathsMore(start: nat, step: nat, a: nat, b: nat, levels: nat)
    requires a <= b && levels <= 4
    ensures TablePaths(start, step, a, levels) <= TablePaths(start, step, b, levels)
    decreases b
  {
    hide TablePaths;
    if a < b {
      PathsMore(start, step, a, b - 1, levels);
      PathsNext(start, step, b - 1, levels);
    }
  }

  /** The tables of one more step are those on its own path. */
  lemma {:induction false} PathsNext(start: nat, step: nat, n: nat, levels: nat)
    requires levels <= 4
    ensures TablePaths(start, step, n + 1, levels) ==
              TablePaths(start, step, n, levels) + TablePaths(start + n * step, step, 1, levels)
  {
    hide Path, TablesAt;
    if levels > 0 {
      PathsNext(start, step, n, levels - 1);
      TablesGrow(start, step, n, levels);
      OneStep(start + n * step, step, levels);
    }
  }

  lemma OneStep(v: nat, step: nat, depth: nat)
    requires depth <= 4
    ensures TablesAt(v, step, 1, depth) == {Path(v, depth)}
  {
    hide Path;
    TablesGrow(v, step, 0, depth);
    assert TablesAt(v, step, 0, depth) == {};
  }

  /** Two stretches of work on one account. */
  lemma LedgerJoin(m0: Mem, m1: Mem, m2: Mem, root: nat, done: set<seq<nat>>, more: set<seq<nat>>,
                   before: nat, between: nat, after: nat)
    requires Ledger(m0, m1, root, done, before, between) && Ledger(m1, m2, root, more, between, after)
    ensures Ledger(m0, m2, root, done + more, before, after)
  {
    hide Reach;
    NewJoin(m0, m1, root, done, more);
    hide New;
  }

  lemma LedgerLacks(m0: Mem, m1: Mem, root: nat, done: set<seq<nat>>, more: set<seq<nat>>, before: nat, between: nat)
    requires Ledger(m0, m1, root, done, before, between) && between < |New(m1, root, more)|
    ensures before < |New(m0, root, done + more)|
  {
    hide Reach;
    NewJoin(m0, m1, root, done, more);
    hide New;
  }

  lemma NewJoin(m0: Mem, m1: Mem, root: nat, done: set<seq<nat>>, more: set<seq<nat>>)
    requires Grown(m0, m1, root, done)
    ensures |New(m0, root, done + more)| == |New(m0, root, done)| + |New(m1, root, more)|
  {
    hide Reach;
    assert New(m0, root, done + more) == New(m0, root, done) + New(m1, root, more);
    assert New(m0, root, done) !! New(m1, root, more);
  }

  lemma {:induction false} NoHugeThrough(mem: Mem, root: nat, v: nat, depth: nat)
    requires depth <= 3 && Reach(mem, root, Path(v, depth)).Some?
    ensures NoHuge(mem, root, 0, v) == NoHuge(mem, Reach(mem, root, Path(v, depth)).value, depth, v)
  {
    if depth > 0 {
      ReachSnoc(mem, root, Path(v, depth - 1), Index(v, depth - 1));
      NoHugeThrough(mem, root, v, depth - 1);
    }
  }

  // ------------------------------------------------------ linking a table

  /** Same tables at the same paths, same translations. */
  ghost predicate SameTree(mem: Mem, mem': Mem, root: nat) {
    && (forall p :: Reach(mem', root, p) == Reach(mem, root, p))
    && (forall w: nat :: Walk(mem', root, 0, w) == Walk(mem, root, 0, w) &&
                         NoHuge(mem', root, 0, w) == NoHuge(mem, root, 0, w))
    && SameEntries(mem, mem', root)
  }

  lemma SameTwice(mem0: Mem, mem1: Mem, mem2: Mem, root: nat)
    requires SameTree(mem0, mem1, root) && SameTree(mem1, mem2, root)
    ensures SameTree(mem0, mem2, root)
  {
    hide Reach, Walk, NoHuge, Entry;
  }

  /** Whatever is written over a frame no path reaches changes nothing. */
  lemma WriteUnreached(mem: Mem, root: nat, c: nat, t: seq<nat>)
    requires NonSharing(mem, root) && Unreached(mem, root, c) && |t| == ENTRIES
    ensures NonSharing(mem[c := t], root) && SameTree(mem, mem[c := t], root)
  {
    var mem' := mem[c := t];
    forall p
      ensures Reach(mem', root, p) == Reach(mem, root, p)
    {
      ReachUnwritten(mem, root, c, t, p);
    }
    forall w: nat
      ensures Walk(mem', root, 0, w) == Walk(mem, root, 0, w) && NoHuge(mem', root, 0, w) == NoHuge(mem, root, 0, w)
    {
      WalkUnwritten(mem, root, c, t, w, root, 0);
    }
    forall q
      ensures Entry(mem', root, q) == Entry(mem, root, q)
    {
      if q != [] {
        assert Reach(mem, root, q[..|q| - 1]) != Some(c);
      }
    }
    hide Walk, NoHuge, Reach;
    SameReach(mem, mem', root);
  }

  lemma {:induction false} ReachUnwritten(mem: Mem, root: nat, c: nat, t: seq<nat>, p: seq<nat>)
    requires Unreached(mem, root, c)
    ensures Reach(mem[c := t], root, p) == Reach(mem, root, p)
    decreases |p|
  {
    if p != [] {
      ReachUnwritten(mem, root, c, t, p[..|p| - 1]);
    }
  }

  lemma {:induction false} WalkUnwritten(mem: Mem, root: nat, c: nat, t: seq<nat>, v: nat, f: nat, depth: nat)
    requires Unreached(mem, root, c) && depth < 4 && Reach(mem, root, Path(v, depth)) == Some(f)
    ensures Walk(mem[c := t], f, depth, v) == Walk(mem, f, depth, v)
    ensures NoHuge(mem[c := t], f, depth, v) == NoHuge(mem, f, depth, v)
    decreases 4 - depth
  {
    hide Reach, Path, Addr, Span;
    assert f != c;
    if Table(mem, f) && Points(mem[f][Index(v, depth)], depth) {
      ReachSnoc(mem, root, Path(v, depth), Index(v, depth));
      PathSnoc(v, depth);
      WalkUnwritten(mem, root, c, t, v, Addr(mem[f][Index(v, depth)], PAGE), depth + 1);
    }
  }

  /** The write that links the zeroed table `c` below an absent entry on `v`'s path. */
  ghost function Linked(mem: Mem, g: nat, i: nat, c: nat): (r: Mem)
    requires Table(mem, g) && i < ENTRIES
    ensures r.Keys == mem.Keys + {c}
  {
    SetEntry(mem[c := ZeroTable()], g, i, Encode(c, PAGE, WRITABLE))
  }

  /** Linking a fresh table adds one path and changes no translation. */
  lemma LinkTable(mem: Mem, root: nat, v: nat, depth: nat, g: nat, c: nat)
    requires NonSharing(mem, root) && Unreached(mem, root, c) && Mappable(c, PAGE)
    requires depth < 3 && Reach(mem, root, Path(v, depth)) == Some(g)
    requires !Present(mem[g][Index(v, depth)])
    ensures var mem' := Linked(mem, g, Index(v, depth), c);
      && NonSharing(mem', root)
      && Reach(mem', root, Path(v, depth + 1)) == Some(c)
      && Extends(mem, mem', root, Path(v, depth + 1))
  {
    hide Walk, NoHuge, Path, NonSharing, Reach, Encode, Addr, ZeroTable, LinkedAt;
    var mem1 := mem[c := ZeroTable()];
    TableOn(mem, root, Path(v, depth), g);
    WriteUnreached(mem, root, c, ZeroTable());
    assert g != c;
    TableEntry(c);
    LinkZeroTable(mem1, root, v, depth, g, c, Encode(c, PAGE, WRITABLE));
    LinkedAfter(mem, mem1, Linked(mem, g, Index(v, depth), c), root, Path(v, depth + 1));
  }

  lemma LinkedAfter(mem0: Mem, mem1: Mem, mem2: Mem, root: nat, p: seq<nat>)
    requires SameTree(mem0, mem1, root) && LinkedAt(mem1, mem2, root, p)
    ensures LinkedAt(mem0, mem2, root, p)
  {
    hide Reach, Walk, NoHuge, Entry;
  }

  /** The entry a new table is linked by. */
  lemma TableEntry(c: nat)
    requires Mappable(c, PAGE)
    ensures var e := Encode(c, PAGE, WRITABLE); Present(e) && !Huge(e) && Addr(e, PAGE) == c && LinksTable(e)
  {
    EncodeDecode(c, 3, WRITABLE);
    WritableFlag();
  }

  lemma LinkZeroTable(mem: Mem, root: nat, v: nat, depth: nat, g: nat, c: nat, e: nat)
    requires NonSharing(mem, root) && Unreached(mem, root, c) && c in mem && mem[c] == ZeroTable()
    requires depth < 3 && Reach(mem, root, Path(v, depth)) == Some(g)
    requires !Present(mem[g][Index(v, depth)]) && Points(e, depth) && Addr(e, PAGE) == c && LinksTable(e)
    ensures var mem' := SetEntry(mem, g, Index(v, depth), e);
      && NonSharing(mem', root)
      && Reach(mem', root, Path(v, depth + 1)) == Some(c)
      && Extends(mem, mem', root, Path(v, depth + 1))
  {
    hide NonSharing, Reach, LinksTable, LinkedAt, Addr, Walk, NoHuge, Path, Index, Points, Present;
    var i, pg := Index(v, depth), Path(v, depth);
    TableOn(mem, root, pg, g);
    var mem' := SetEntry(mem, g, i, e);
    PathSnoc(v, depth);
    LinkedReach(mem, root, pg, g, i, c, e);
    forall w: nat
      ensures Walk(mem', root, 0, w) == Walk(mem, root, 0, w) && NoHuge(mem', root, 0, w) == NoHuge(mem, root, 0, w)
    {
      LinkedWalk(mem, root, v, depth, g, c, e, w);
    }
    LinkedEntries(mem, root, pg, g, i, c, e);
  }

  /** Linking a table of zeroes adds its path and no other. */
  lemma LinkedReach(mem: Mem, root: nat, pg: seq<nat>, g: nat, i: nat, c: nat, e: nat)
    requires NonSharing(mem, root) && Unreached(mem, root, c) && c in mem && mem[c] == ZeroTable()
    requires Reach(mem, root, pg) == Some(g) && Table(mem, g) && i < ENTRIES && |pg| < 3
    requires !Present(mem[g][i]) && Points(e, |pg|) && Addr(e, PAGE) == c
    ensures var mem' := SetEntry(mem, g, i, e);
      && NonSharing(mem', root) && c != g
      && Reach(mem, root, pg + [i]).None? && Reach(mem', root, pg + [i]) == Some(c)
      && forall p | p != pg + [i] :: Reach(mem', root, p) == Reach(mem, root, p)
  {
    hide NonSharing, Addr, Reach;
    var mem', pc := SetEntry(mem, g, i, e), pg + [i];
    assert c != g;
    ReachSnoc(mem, root, pg, i);
    ReachFrame(mem, root, pg, g, i, e, pg);
    ReachSnoc(mem', root, pg, i);
    forall p | p != pc
      ensures Reach(mem', root, p) == Reach(mem, root, p)
    {
      if pc <= p {
        ReachPrefix(mem, root, pc, p);
        BelowZero(mem', root, pc, c, p);
      } else {
        ReachFrame(mem, root, pg, g, i, e, p);
      }
    }
    OneMoreReached(mem, mem', root, pc, c);
  }

  /** One new path to a table that no path led to shares nothing. */
  lemma OneMoreReached(mem: Mem, mem': Mem, root: nat, pc: seq<nat>, c: nat)
    requires NonSharing(mem, root) && Unreached(mem, root, c) && Table(mem', c)
    requires forall f | Table(mem, f) :: Table(mem', f)
    requires Reach(mem', root, pc) == Some(c) && forall p | p != pc :: Reach(mem', root, p) == Reach(mem, root, p)
    ensures NonSharing(mem', root)
  {
    hide Reach;
  }

  /** A table of zeroes adds entries that were as good as zero before. */
  lemma LinkedEntries(mem: Mem, root: nat, pg: seq<nat>, g: nat, i: nat, c: nat, e: nat)
    requires NonSharing(mem, root) && Reach(mem, root, pg) == Some(g) && Table(mem, g) && i < ENTRIES && |pg| < 3
    requires c in mem && mem[c] == ZeroTable() && c != g && Reach(mem, root, pg + [i]).None?
    requires !Present(mem[g][i]) && LinksTable(e)
    requires var mem' := SetEntry(mem, g, i, e);
      && Reach(mem', root, pg + [i]) == Some(c)
      && forall p | p != pg + [i] :: Reach(mem', root, p) == Reach(mem, root, p)
    ensures LinkedAt(mem, SetEntry(mem, g, i, e), root, pg + [i])
  {
    hide Reach, LinksTable, Present;
    var mem' := SetEntry(mem, g, i, e);
    EntryOf(mem, root, pg, i);
    EntryOf(mem', root, pg, i);
    forall q | q != pg + [i]
      ensures Entry(mem', root, q) == Entry(mem, root, q)
    {
      if q != [] {
        assert q == q[..|q| - 1] + [q[|q| - 1]];
      }
    }
  }

  lemma LinkedWalk(mem: Mem, root: nat, v: nat, depth: nat, g: nat, c: nat, e: nat, w: nat)
    requires NonSharing(mem, root) && c in mem && mem[c] == ZeroTable() && c != g
    requires depth < 3 && Reach(mem, root, Path(v, depth)) == Some(g)
    requires !Present(mem[g][Index(v, depth)]) && Points(e, depth) && Addr(e, PAGE) == c
    ensures var mem' := SetEntry(mem, g, Index(v, depth), e);
      Walk(mem', root, 0, w) == Walk(mem, root, 0, w) && NoHuge(mem', root, 0, w) == NoHuge(mem, root, 0, w)
  {
    hide Walk, NoHuge, NonSharing, Reach, Path, Addr, Index;
    TableOn(mem, root, Path(v, depth), g);
    if Path(w, depth + 1) == Path(v, depth + 1) {
      ReachFrame(mem, root, Path(v, depth), g, Index(v, depth), e, Path(v, depth));
      LinkedOwn(mem, root, v, depth, g, c, e, w);
    } else {
      LeafOthers(mem, root, v, depth, g, e, w);
    }
  }

  /** A zeroed table translates nothing, like the absent entry it replaces. */
  lemma LinkedOwn(mem: Mem, root: nat, v: nat, depth: nat, g: nat, c: nat, e: nat, w: nat)
    requires Table(mem, g) && c in mem && mem[c] == ZeroTable() && c != g && depth < 3
    requires Reach(mem, root, Path(v, depth)) == Some(g)
    requires Reach(SetEntry(mem, g, Index(v, depth), e), root, Path(v, depth)) == Some(g)
    requires !Present(mem[g][Index(v, depth)]) && Points(e, depth) && Addr(e, PAGE) == c
    requires Path(w, depth + 1) == Path(v, depth + 1)
    ensures var mem' := SetEntry(mem, g, Index(v, depth), e);
      Walk(mem', root, 0, w) == Walk(mem, root, 0, w) && NoHuge(mem', root, 0, w) == NoHuge(mem, root, 0, w)
  {
    hide Reach, Path, Addr;
    var mem' := SetEntry(mem, g, Index(v, depth), e);
    PathStep(v, w, depth);
    WalkThrough(mem, root, w, depth);
    WalkThrough(mem', root, w, depth);
    NoHugeThrough(mem, root, w, depth);
    NoHugeThrough(mem', root, w, depth);
  }

  lemma {:induction false} BelowZero(mem: Mem, root: nat, pc: seq<nat>, c: nat, p: seq<nat>)
    requires Reach(mem, root, pc) == Some(c) && c in mem && mem[c] == ZeroTable()
    requires pc < p
    ensures Reach(mem, root, p).None?
    decreases |p|
  {
    if |p| > |pc| + 1 {
      BelowZero(mem, root, pc, c, p[..|p| - 1]);
    } else {
      assert p[..|p| - 1] == pc;
    }
  }
}
