/** Descending through present entries without looking at their huge bit: where that leads,
    when it stays on the path of the address, and what it writes when it does not. */
module Descent {
  import opened Paging
  import opened PageTree
  import opened PhysMemory
  import opened Wrappers

  lemma PoolInRam(pool: set<nat>, mem: Mem, root: nat)
    requires Fresh(pool, mem, root)
    ensures forall c | c in pool :: c in mem
  {
  }

  lemma RootReached(mem: Mem, root: nat, v: nat)
    ensures Reach(mem, root, Path(v, 0)) == Some(root)
  {
  }

  /** On a path without huge pages a present entry leads to the next table. */
  lemma AbsentStops(mem: Mem, root: nat, v: nat, depth: nat, f: nat)
    requires NonSharing(mem, root) && depth < 3 && Reach(mem, root, Path(v, depth)) == Some(f)
    ensures Table(mem, f)
    ensures !Present(mem[f][Index(v, depth)]) ==> Reach(mem, root, Path(v, depth + 1)).None?
  {
  }

  lemma PresentPoints(mem: Mem, root: nat, v: nat, depth: nat, f: nat)
    requires NonSharing(mem, root) && depth < 3
    requires Reach(mem, root, Path(v, depth)) == Some(f) && NoHuge(mem, root, 0, v)
    ensures Table(mem, f)
    ensures Present(mem[f][Index(v, depth)]) ==>
              Reach(mem, root, Path(v, depth + 1)) == Some(Addr(mem[f][Index(v, depth)], PAGE))
  {
    NoHugeThrough(mem, root, v, depth);
    ReachSnoc(mem, root, Path(v, depth), Index(v, depth));
    PathSnoc(v, depth);
  }

  /** `descend_or_create` follows every present entry. What it returns is the next table of
      the path exactly when the entry maps no huge page; below a huge entry there is none. */
  lemma DescendFollows(mem: Mem, root: nat, v: nat, depth: nat, f: nat)
    requires NonSharing(mem, root) && depth < 3 && Reach(mem, root, Path(v, depth)) == Some(f)
    requires Table(mem, f) && Present(mem[f][Index(v, depth)])
    ensures var e := mem[f][Index(v, depth)];
      && (Reach(mem, root, Path(v, depth + 1)) == Some(Addr(e, PAGE)) <==> depth == 0 || !Huge(e))
      && (depth > 0 && Huge(e) ==> Reach(mem, root, Path(v, depth + 1)).None?)
  {
    hide Path, Index, Addr, NonSharing;
    PathSnoc(v, depth);
    ReachSnoc(mem, root, Path(v, depth), Index(v, depth));
    hide Reach;
  }

  lemma PoolLess(pool: set<nat>, c: nat)
    requires c in pool
    ensures |pool| == |pool - {c}| + 1
  {
  }

  /** Taking a fresh frame and linking it keeps the rest fresh and every translation as it
      was, at each of the two writes. */
  lemma FreshHead(mem: Mem, root: nat, pool: set<nat>, c: nat, v: nat, depth: nat, g: nat)
    requires NonSharing(mem, root) && c in pool && Fresh(pool, mem, root)
    requires depth < 3 && Reach(mem, root, Path(v, depth)) == Some(g) && Table(mem, g)
    requires !Present(mem[g][Index(v, depth)])
    ensures c != g && Mappable(c, PAGE) && FlagsOk(WRITABLE)
    ensures SetEntry(mem[c := ZeroTable()], g, Index(v, depth), Encode(c, PAGE, WRITABLE)) ==
              Linked(mem, g, Index(v, depth), c)
    ensures forall w :: Walk(mem[c := ZeroTable()], root, 0, w) == Walk(mem, root, 0, w)
    ensures var mem' := Linked(mem, g, Index(v, depth), c);
      && NonSharing(mem', root)
      && Reach(mem', root, Path(v, depth + 1)) == Some(c)
      && Extends(mem, mem', root, Path(v, depth + 1))
      && (forall w: nat ::
            Walk(mem', root, 0, w) == Walk(mem, root, 0, w) && NoHuge(mem', root, 0, w) == NoHuge(mem, root, 0, w))
      && Fresh(pool - {c}, mem', root)
      && (forall w: nat :: Walk(mem', root, 0, w) == Walk(mem[c := ZeroTable()], root, 0, w))
  {
    hide Walk, NoHuge, NonSharing, Path, Reach, ZeroTable, Index;
    WriteUnreached(mem, root, c, ZeroTable());
    LinkTable(mem, root, v, depth, g, c);
    forall d | d in pool - {c}
      ensures Unreached(Linked(mem, g, Index(v, depth), c), root, d)
    {
      assert Unreached(mem, root, d);
    }
  }

  // ------------------------------------------------- without the huge test

  datatype Stop = Stop(frame: nat, depth: nat)

  /** Where following every present entry of `v` ends: at an absent entry, at a frame that is
      no memory, or at the level of page tables. */
  function Follow(mem: Mem, f: nat, depth: nat, v: nat): (s: Stop)
    requires depth <= 3
    ensures depth <= s.depth <= 3
    decreases 3 - depth
  {
    if depth == 3 || !Table(mem, f) || !Present(mem[f][Index(v, depth)]) then Stop(f, depth)
    else Follow(mem, Addr(mem[f][Index(v, depth)], PAGE), depth + 1, v)
  }

  /** It ends on the path of `v`, at the table whose entry `v` selects, exactly when no huge
      page lies on that path. */
  lemma {:induction false} FollowOnPath(mem: Mem, root: nat, v: nat, f: nat, depth: nat)
    requires depth <= 3 && Reach(mem, root, Path(v, depth)) == Some(f)
    ensures var s := Follow(mem, f, depth, v);
      Reach(mem, root, Path(v, s.depth)) == Some(s.frame) <==> NoHuge(mem, f, depth, v)
    decreases 3 - depth
  {
    hide Path, Index, Addr, Reach, Step;
    if depth < 3 && Table(mem, f) && Present(mem[f][Index(v, depth)]) {
      var next := Addr(mem[f][Index(v, depth)], PAGE);
      StepOnPath(mem, root, v, f, depth);
      if Points(mem[f][Index(v, depth)], depth) {
        FollowOnPath(mem, root, v, next, depth + 1);
      } else {
        var s := Follow(mem, next, depth + 1, v);
        PathPrefix(v, depth + 1, s.depth);
        ReachPrefix(mem, root, Path(v, depth + 1), Path(v, s.depth));
      }
    }
  }

  lemma StepOnPath(mem: Mem, root: nat, v: nat, f: nat, depth: nat)
    requires depth < 3 && Reach(mem, root, Path(v, depth)) == Some(f) && Table(mem, f)
    ensures Reach(mem, root, Path(v, depth + 1)) ==
              var e := mem[f][Index(v, depth)]; if Points(e, depth) then Some(Addr(e, PAGE)) else None
  {
    PathSnoc(v, depth);
    ReachSnoc(mem, root, Path(v, depth), Index(v, depth));
    hide Path, Reach, Addr;
  }

  lemma FollowTable(mem: Mem, root: nat, v: nat)
    requires NonSharing(mem, root) && NoHuge(mem, root, 0, v)
    ensures Table(mem, Follow(mem, root, 0, v).frame)
  {
    RootReached(mem, root, v);
    FollowOnPath(mem, root, v, root, 0);
    hide Follow, NoHuge, Reach;
  }

  // ------------------------------------------------------------- one descent

  /** What one descent from the table `f` through its entry `i` does: it follows a present
      entry, and links a zeroed frame of the pool below an absent one. */
  ghost predicate Descended(mem: Mem, pool: set<nat>, f: nat, i: nat, got: Option<nat>, mem': Mem, pool': set<nat>)
    requires Table(mem, f) && i < ENTRIES
  {
    if Present(mem[f][i]) then got == Some(Addr(mem[f][i], PAGE)) && mem' == mem && pool' == pool
    else if got.None? then pool == {} && mem' == mem && pool' == pool
    else got.value in pool && pool' == pool - {got.value} && mem' == Linked(mem, f, i, got.value)
  }

  /** No address is translated differently after either write of a descent. */
  ghost predicate Unseen(mem: Mem, root: nat, f: nat, i: nat, got: Option<nat>)
    requires Table(mem, f) && i < ENTRIES
  {
    !Present(mem[f][i]) && got.Some? ==>
      && (forall w: nat :: Walk(mem[got.value := ZeroTable()], root, 0, w) == Walk(mem, root, 0, w))
      && (forall w: nat :: Walk(Linked(mem, f, i, got.value), root, 0, w) == Walk(mem, root, 0, w))
  }

  /** The two writes of a descent that links a table. */
  lemma LinkSeen(mem: Mem, pool: set<nat>, root: nat, f: nat, i: nat, got: Option<nat>)
    requires Table(mem, f) && i < ENTRIES && !Present(mem[f][i])
    requires if got.Some? then got.value in pool else pool == {}
    ensures got.None? ==> Descended(mem, pool, f, i, got, mem, pool)
    ensures got.Some? ==>
              var c := got.value;
              var mem1 := mem[c := ZeroTable()];
              && Table(mem1, f)
              && Descended(mem, pool, f, i, got, SetEntry(mem1, f, i, Encode(c, PAGE, WRITABLE)), pool - {c})
              && (Unseen(mem, root, f, i, got) ==>
                    && (forall w: nat :: Walk(mem1, root, 0, w) == Walk(mem, root, 0, w))
                    && (forall w: nat :: Walk(SetEntry(mem1, f, i, Encode(c, PAGE, WRITABLE)), root, 0, w) ==
                                           Walk(mem1, root, 0, w)))
  {
    hide Walk, Encode;
  }

  /** On a path without huge pages a descent reaches the next table, taking a frame exactly
      when there was none, and no translation changes. */
  lemma DescendOnPath(mem: Mem, pool: set<nat>, root: nat, v: nat, depth: nat, f: nat, got: Option<nat>, mem': Mem,
                      pool': set<nat>)
    requires NonSharing(mem, root) && Fresh(pool, mem, root) && NoHuge(mem, root, 0, v) && Table(mem, f)
    requires depth < 3 && Reach(mem, root, Path(v, depth)) == Some(f)
    requires Descended(mem, pool, f, Index(v, depth), got, mem', pool')
    ensures NonSharing(mem', root) && Fresh(pool', mem', root) && Unseen(mem, root, f, Index(v, depth), got)
    ensures got.Some? ==> Reach(mem', root, Path(v, depth + 1)) == got
    ensures got.Some? ==> Extends(mem, mem', root, Path(v, depth + 1))
    ensures got.Some? ==> |pool| == |pool'| + Created(mem, root, v, depth + 1)
    ensures TablesFrom(mem, mem', root, pool)
    ensures got.None? ==> mem' == mem && pool == {} && Created(mem, root, v, depth + 1) == 1
  {
    hide Walk, NoHuge, NonSharing, Path, Reach, Addr, ZeroTable, Fresh, Index, Linked, Extends, Encode, Mappable;
    PresentPoints(mem, root, v, depth, f);
    AbsentStops(mem, root, v, depth, f);
    if Present(mem[f][Index(v, depth)]) {
      ExtendsSelf(mem, root, Path(v, depth + 1));
    } else if got.Some? {
      FreshHead(mem, root, pool, got.value, v, depth, f);
      PoolLess(pool, got.value);
      OneTableFrom(mem, mem', root, Path(v, depth + 1), pool, got.value);
    }
  }

  lemma OneTableFrom(mem: Mem, mem': Mem, root: nat, p: seq<nat>, pool: set<nat>, c: nat)
    requires Extends(mem, mem', root, p) && Reach(mem, root, p).None? && Reach(mem', root, p) == Some(c) && c in pool
    ensures TablesFrom(mem, mem', root, pool)
  {
    hide Reach, Walk, NoHuge, LinkedAt;
  }

  /** A descent that reads, or that starts at a frame outside the tree, leaves the tree alone. */
  lemma DescendAstray(mem: Mem, pool: set<nat>, root: nat, f: nat, i: nat, got: Option<nat>, mem': Mem,
                      pool': set<nat>)
    requires NonSharing(mem, root) && Fresh(pool, mem, root) && Table(mem, f) && i < ENTRIES
    requires Present(mem[f][i]) || Unreached(mem, root, f)
    requires Descended(mem, pool, f, i, got, mem', pool')
    ensures NonSharing(mem', root) && Fresh(pool', mem', root) && SameTree(mem, mem', root)
    ensures Unseen(mem, root, f, i, got)
    ensures !Present(mem[f][i]) && got.Some? ==> Unreached(mem', root, got.value)
  {
    hide Walk, NoHuge, NonSharing, Reach, ZeroTable, Addr, Encode, Mappable;
    if !Present(mem[f][i]) && got.Some? {
      var c := got.value;
      var mem1 := mem[c := ZeroTable()];
      WriteUnreached(mem, root, c, ZeroTable());
      WriteUnreached(mem1, root, f, mem1[f][i := Encode(c, PAGE, WRITABLE)]);
      SameTwice(mem, mem1, mem', root);
    }
  }

  // ---------------------------------------------------------- several descents

  /** Present entries of `f` all lead back to `f`: a frame just zeroed, linked at most to itself. */
  ghost predicate Dead(mem: Mem, f: nat)
    requires Table(mem, f)
  {
    forall k | 0 <= k < ENTRIES && Present(mem[f][k]) :: Addr(mem[f][k], PAGE) == f
  }

  /** Outside the frames of the pool only entry `i` of the frame `g` has been written. */
  ghost predicate Confined(m0: Mem, mem: Mem, pool: set<nat>, g: nat, i: nat) {
    && mem.Keys == m0.Keys
    && (forall f | f in m0 && f !in pool ::
          |mem[f]| == |m0[f]| && forall k | 0 <= k < |m0[f]| && !(f == g && k == i) :: mem[f][k] == m0[f][k])
  }

  lemma ConfinedLink(m0: Mem, mem: Mem, pool: set<nat>, g: nat, i: nat, f: nat, k: nat, c: nat)
    requires Confined(m0, mem, pool, g, i) && Table(mem, f) && k < ENTRIES && c in pool && c in m0
    requires f in pool || (f == g && k == i)
    ensures Confined(m0, Linked(mem, f, k, c), pool, g, i)
  {
    hide Encode, ZeroTable;
  }

  lemma ConfinedWrite(m0: Mem, mem: Mem, pool: set<nat>, g: nat, i: nat, f: nat, k: nat, e: nat)
    requires Confined(m0, mem, pool, g, i) && Table(mem, f) && k < ENTRIES
    requires f in pool || (f == g && k == i)
    ensures Confined(m0, SetEntry(mem, f, k, e), pool, g, i)
  {
  }

  /** Descending for `v` has come to `f` at `depth`: still reading, or below a frame it took. */
  ghost predicate OnTheWay(m0: Mem, pool0: set<nat>, v: nat, s: Stop, mem: Mem, pool: set<nat>, f: nat, depth: nat) {
    && depth <= 3 && s.depth <= 3 && Table(mem, f) && pool <= pool0
    && Confined(m0, mem, pool0, s.frame, Index(v, s.depth))
    && ((mem == m0 && pool == pool0 && Follow(m0, f, depth, v) == s)
        || (f in pool0 && Dead(mem, f) && s.depth < depth))
  }

  lemma WayBegins(mem: Mem, pool: set<nat>, root: nat, v: nat)
    requires Table(mem, Follow(mem, root, 0, v).frame)
    ensures OnTheWay(mem, pool, v, Follow(mem, root, 0, v), mem, pool, root, 0)
  {
    FollowMemory(mem, root, 0, v);
    hide Follow;
  }

  lemma FollowMemory(mem: Mem, f: nat, depth: nat, v: nat)
    requires depth <= 3 && Table(mem, Follow(mem, f, depth, v).frame)
    ensures Table(mem, f)
  {
  }

  lemma WayStep(m0: Mem, pool0: set<nat>, v: nat, s: Stop, mem: Mem, pool: set<nat>, f: nat, depth: nat,
                got: Option<nat>, mem': Mem, pool': set<nat>)
    requires OnTheWay(m0, pool0, v, s, mem, pool, f, depth) && depth < 3 && Table(m0, s.frame)
    requires forall c | c in pool0 :: c in m0 && Mappable(c, PAGE)
    requires Descended(mem, pool, f, Index(v, depth), got, mem', pool')
    ensures Confined(m0, mem', pool0, s.frame, Index(v, s.depth)) && pool' <= pool0
    ensures got.Some? ==> OnTheWay(m0, pool0, v, s, mem', pool', got.value, depth + 1)
  {
    hide Index, Addr, ZeroTable, Confined, Encode, Mappable;
    var i := Index(v, depth);
    if Present(mem[f][i]) {
      if mem == m0 && pool == pool0 && Follow(m0, f, depth, v) == s {
        FollowMemory(m0, Addr(mem[f][i], PAGE), depth + 1, v);
      }
    } else if got.Some? {
      ConfinedLink(m0, mem, pool0, s.frame, Index(v, s.depth), f, i, got.value);
      LinkedDead(mem, f, i, got.value);
    }
  }

  lemma LinkedDead(mem: Mem, f: nat, i: nat, c: nat)
    requires Table(mem, f) && i < ENTRIES && Mappable(c, PAGE)
    ensures Table(Linked(mem, f, i, c), c) && Dead(Linked(mem, f, i, c), c)
  {
    EncodeDecode(c, 3, WRITABLE);
    hide Encode, Addr, Mappable;
  }

  /** So far on the path of `v`, which no huge page cuts short. */
  ghost predicate OnPath(m0: Mem, pool0: set<nat>, root: nat, v: nat, mem: Mem, pool: set<nat>, f: nat, depth: nat) {
    && depth <= 3 && NonSharing(mem, root) && Fresh(pool, mem, root) && Reach(mem, root, Path(v, depth)) == Some(f)
    && SameWalks(m0, mem, root) && NoHuge(mem, root, 0, v)
    && pool <= pool0 && TablesFrom(m0, mem, root, pool0)
    && Ledger(m0, mem, root, TablePaths(v, PAGE, 1, depth), |pool0|, |pool|)
  }

  /** Every address is translated as before, and what entries are new link tables. */
  ghost predicate SameWalks(mem: Mem, mem': Mem, root: nat) {
    && (forall w: nat :: Walk(mem', root, 0, w) == Walk(mem, root, 0, w))
    && (forall w: nat :: NoHuge(mem', root, 0, w) == NoHuge(mem, root, 0, w))
    && Linking(mem, mem', root)
  }

  lemma PathBegins(mem: Mem, pool: set<nat>, root: nat, v: nat)
    requires NonSharing(mem, root) && Fresh(pool, mem, root) && NoHuge(mem, root, 0, v)
    ensures OnPath(mem, pool, root, v, mem, pool, root, 0)
  {
    RootReached(mem, root, v);
    LedgerOpens(mem, root, |pool|);
    hide NonSharing, Fresh, NoHuge, Reach, Walk, Path, Ledger;
  }

  lemma PathStepped(m0: Mem, pool0: set<nat>, root: nat, v: nat, mem: Mem, pool: set<nat>, f: nat, depth: nat,
                    got: Option<nat>, mem': Mem, pool': set<nat>)
    requires OnPath(m0, pool0, root, v, mem, pool, f, depth) && depth < 3 && Table(mem, f)
    requires Descended(mem, pool, f, Index(v, depth), got, mem', pool')
    ensures Unseen(mem, root, f, Index(v, depth), got)
    ensures got.Some? ==> OnPath(m0, pool0, root, v, mem', pool', got.value, depth + 1)
    ensures got.None? ==> NonSharing(mem', root) && Fresh(pool', mem', root) && SameWalks(m0, mem', root)
    ensures got.None? ==> TablesFrom(m0, mem', root, pool0)
    ensures got.None? ==> |pool0| < |New(m0, root, TablePaths(v, PAGE, 1, 3))|
  {
    hide NonSharing, Fresh, NoHuge, Reach, Walk, Path, Ledger, Descended, Unseen, New, TablePaths, TablesFrom;
    DescendedPool(mem, pool, f, Index(v, depth), got, mem', pool');
    DescendOnPath(mem, pool, root, v, depth, f, got, mem', pool');
    OnePath(v, depth);
    var done := TablePaths(v, PAGE, 1, depth);
    if got.Some? {
      ExtendsLinks(mem, mem', root, Path(v, depth + 1));
      LinkingTwice(m0, mem, mem', root);
      TablesFromTwice(m0, mem, mem', root, pool0, pool);
      LedgerStep(m0, mem, mem', root, done, Path(v, depth + 1), |pool0|, |pool|, |pool'|);
    } else {
      LedgerShort(m0, mem, root, done, Path(v, depth + 1), TablePaths(v, PAGE, 1, 3), |pool0|);
    }
  }

  lemma DescendedPool(mem: Mem, pool: set<nat>, f: nat, i: nat, got: Option<nat>, mem': Mem, pool': set<nat>)
    requires Table(mem, f) && i < ENTRIES && Descended(mem, pool, f, i, got, mem', pool')
    ensures pool' <= pool && (got.None? ==> pool' == {})
  {
  }

  lemma OnePath(v: nat, depth: nat)
    requires depth < 3
    ensures TablePaths(v, PAGE, 1, depth + 1) == TablePaths(v, PAGE, 1, depth) + {Path(v, depth + 1)}
    ensures TablePaths(v, PAGE, 1, depth + 1) <= TablePaths(v, PAGE, 1, 3)
  {
    hide Path;
    OneStep(v, PAGE, 1);
    OneStep(v, PAGE, 2);
    OneStep(v, PAGE, 3);
    hide TablesAt;
    assert TablePaths(v, PAGE, 1, 2) == TablePaths(v, PAGE, 1, 1) + {Path(v, 2)};
    assert TablePaths(v, PAGE, 1, 3) == TablePaths(v, PAGE, 1, 2) + {Path(v, 3)};
  }

  /** So far without a write to the tree: still reading, or at a frame outside it. */
  ghost predicate Astray(m0: Mem, root: nat, mem: Mem, pool: set<nat>, f: nat) {
    && NonSharing(mem, root) && Fresh(pool, mem, root) && SameTree(m0, mem, root)
    && (mem == m0 || Unreached(mem, root, f))
  }

  lemma StrayStepped(m0: Mem, pool0: set<nat>, root: nat, v: nat, s: Stop, mem: Mem, pool: set<nat>, f: nat,
                     depth: nat, got: Option<nat>, mem': Mem, pool': set<nat>)
    requires OnTheWay(m0, pool0, v, s, mem, pool, f, depth) && depth < 3
    requires Astray(m0, root, mem, pool, f) && Unreached(m0, root, s.frame)
    requires Fresh(pool0, m0, root)
    requires Descended(mem, pool, f, Index(v, depth), got, mem', pool')
    ensures Unseen(mem, root, f, Index(v, depth), got)
    ensures got.Some? ==> Astray(m0, root, mem', pool', got.value)
    ensures got.None? ==> NonSharing(mem', root) && Fresh(pool', mem', root) && SameTree(m0, mem', root)
  {
    hide NonSharing, NoHuge, Reach, Walk, Path, Unseen, Confined, Index, Addr;
    StrayFrame(m0, pool0, root, v, s, mem, pool, f, depth);
    DescendAstray(mem, pool, root, f, Index(v, depth), got, mem', pool');
    SameTwice(m0, mem, mem', root);
  }

  /** Where an absent entry is met the frame lies outside the tree. */
  lemma StrayFrame(m0: Mem, pool0: set<nat>, root: nat, v: nat, s: Stop, mem: Mem, pool: set<nat>, f: nat, depth: nat)
    requires OnTheWay(m0, pool0, v, s, mem, pool, f, depth)
    requires Astray(m0, root, mem, pool, f) && Unreached(m0, root, s.frame) && Fresh(pool0, m0, root)
    ensures (depth < 3 && Present(mem[f][Index(v, depth)])) || Unreached(mem, root, f)
  {
    hide NonSharing, NoHuge, Reach, Walk, Path, Confined, Index, Addr;
  }

  /** No huge page on the path of `v`, but what lies below it is outside the tree. */
  ghost predicate Stray(mem: Mem, root: nat, v: nat) {
    !NoHuge(mem, root, 0, v) && Unreached(mem, root, Follow(mem, root, 0, v).frame)
  }

  /** Where descending for `v` has come, whether or not huge pages lie on its path. */
  ghost predicate Travel(m0: Mem, pool0: set<nat>, root: nat, v: nat, mem: Mem, pool: set<nat>, f: nat, depth: nat) {
    && OnTheWay(m0, pool0, v, Follow(m0, root, 0, v), mem, pool, f, depth)
    && (NoHuge(m0, root, 0, v) ==> OnPath(m0, pool0, root, v, mem, pool, f, depth))
    && (Stray(m0, root, v) ==> Astray(m0, root, mem, pool, f))
  }

  lemma TravelBegins(mem: Mem, pool: set<nat>, root: nat, v: nat)
    requires NonSharing(mem, root) && Fresh(pool, mem, root) && Table(mem, Follow(mem, root, 0, v).frame)
    ensures Travel(mem, pool, root, v, mem, pool, root, 0)
  {
    hide NonSharing, Fresh, NoHuge, Reach, Walk, Follow, OnTheWay, OnPath;
    WayBegins(mem, pool, root, v);
    if NoHuge(mem, root, 0, v) {
      PathBegins(mem, pool, root, v);
    }
  }

  /** What a descent that found no frame leaves behind. */
  ghost predicate Halted(m0: Mem, pool0: set<nat>, root: nat, v: nat, mem: Mem, pool: set<nat>) {
    var s := Follow(m0, root, 0, v);
    && s.depth < 3 && Confined(m0, mem, pool0, s.frame, Index(v, s.depth)) && pool == {}
    && (NoHuge(m0, root, 0, v) ==>
          NonSharing(mem, root) && Fresh(pool, mem, root) && SameWalks(m0, mem, root) &&
          TablesFrom(m0, mem, root, pool0) &&
          |pool0| < |New(m0, root, TablePaths(v, PAGE, 1, 3))|)
    && (Stray(m0, root, v) ==> NonSharing(mem, root) && Fresh(pool, mem, root) && SameTree(m0, mem, root))
  }

  lemma TravelStep(m0: Mem, pool0: set<nat>, root: nat, v: nat, mem: Mem, pool: set<nat>, f: nat, depth: nat,
                   got: Option<nat>, mem': Mem, pool': set<nat>)
    requires Fresh(pool0, m0, root) && Table(m0, Follow(m0, root, 0, v).frame)
    requires Travel(m0, pool0, root, v, mem, pool, f, depth) && depth < 3
    requires Table(mem, f) && Descended(mem, pool, f, Index(v, depth), got, mem', pool')
    ensures NoHuge(m0, root, 0, v) || Stray(m0, root, v) ==> Unseen(mem, root, f, Index(v, depth), got)
    ensures got.Some? ==> Travel(m0, pool0, root, v, mem', pool', got.value, depth + 1)
    ensures got.None? ==> Halted(m0, pool0, root, v, mem', pool')
  {
    hide NonSharing, NoHuge, Reach, Walk, Follow, OnTheWay, OnPath, Astray, Descended, Unseen, SameTree, SameWalks,
      TablesFrom, Unreached, Index, Mappable, Confined, New, TablePaths;
    var s := Follow(m0, root, 0, v);
    FreshFrames(pool0, m0, root);
    WayStep(m0, pool0, v, s, mem, pool, f, depth, got, mem', pool');
    WayShort(m0, pool0, v, s, mem, pool, f, depth, got, mem', pool');
    DescendedPool(mem, pool, f, Index(v, depth), got, mem', pool');
    if NoHuge(m0, root, 0, v) {
      PathStepped(m0, pool0, root, v, mem, pool, f, depth, got, mem', pool');
    } else if Stray(m0, root, v) {
      StrayStepped(m0, pool0, root, v, s, mem, pool, f, depth, got, mem', pool');
    }
  }

  lemma TravelTable(m0: Mem, pool0: set<nat>, root: nat, v: nat, mem: Mem, pool: set<nat>, f: nat, depth: nat)
    requires Travel(m0, pool0, root, v, mem, pool, f, depth)
    ensures Table(mem, f)
  {
    hide Follow, NoHuge, Stray, OnPath, Astray, Confined;
  }

  /** At the level of page tables: the table of `v`, or a frame outside the tree. */
  lemma TravelEnds(m0: Mem, pool0: set<nat>, root: nat, v: nat, mem: Mem, pool: set<nat>, pt: nat, leaf: nat)
    requires Fresh(pool0, m0, root) && Travel(m0, pool0, root, v, mem, pool, pt, 3) && Table(mem, pt)
    ensures NoHuge(m0, root, 0, v) ==>
              && NonSharing(mem, root) && Fresh(pool, mem, root) && Reach(mem, root, Path(v, 3)) == Some(pt)
              && SameWalks(m0, mem, root) && Ledger(m0, mem, root, TablePaths(v, PAGE, 1, 3), |pool0|, |pool|)
              && TablesFrom(m0, mem, root, pool0)
    ensures Stray(m0, root, v) ==>
              && NonSharing(mem, root) && Fresh(pool, mem, root)
              && SameTree(m0, mem, root) && Unreached(mem, root, pt)
    ensures var s := Follow(m0, root, 0, v);
      && Confined(m0, SetEntry(mem, pt, Index(v, 3), leaf), pool0, s.frame, Index(v, s.depth))
      && (s.depth == 3 ==> mem == m0 && pt == s.frame)
      && (s.depth < 3 ==> pt in pool0)
      && (s.depth < 3 && Present(mem[pt][Index(v, 3)]) ==> Addr(mem[pt][Index(v, 3)], PAGE) == pt)
  {
    hide NonSharing, NoHuge, Reach, Walk, Path, Index, Addr, Confined, Ledger, SameTree, SameWalks, Unreached, SetEntry,
      TablesFrom;
    var s := Follow(m0, root, 0, v);
    ConfinedWrite(m0, mem, pool0, s.frame, Index(v, s.depth), pt, Index(v, 3), leaf);
    if Stray(m0, root, v) {
      StrayFrame(m0, pool0, root, v, s, mem, pool, pt, 3);
    }
  }

  lemma FreshFrames(pool: set<nat>, mem: Mem, root: nat)
    requires Fresh(pool, mem, root)
    ensures forall c | c in pool :: c in mem && Mappable(c, PAGE)
  {
  }

  /** Only where an entry was absent from the start can a frame be wanting. */
  lemma WayShort(m0: Mem, pool0: set<nat>, v: nat, s: Stop, mem: Mem, pool: set<nat>, f: nat, depth: nat,
                 got: Option<nat>, mem': Mem, pool': set<nat>)
    requires OnTheWay(m0, pool0, v, s, mem, pool, f, depth) && depth < 3
    requires Table(mem, f) && Descended(mem, pool, f, Index(v, depth), got, mem', pool')
    ensures got.None? ==> s.depth < 3
  {
    hide Index, Addr, Confined, Linked, Dead;
  }

  // -------------------------------------------------------- the final write

  /** What an entry at `depth` makes of an address. */
  function Beyond(mem: Mem, e: nat, depth: nat, v: nat): Option<nat>
    requires depth < 4
  {
    if !Present(e) then None
    else if Points(e, depth) then Walk(mem, Addr(e, PAGE), depth + 1, v)
    else Some(Addr(e, Span(depth)) + v % Span(depth))
  }

  /** An entry written into a table of the tree decides the translation of exactly the addresses
      that select it there, whatever they are. */
  lemma TableHit(mem: Mem, root: nat, pg: seq<nat>, g: nat, i: nat, e: nat, w: nat)
    requires NonSharing(mem, root) && Reach(mem, root, pg) == Some(g) && Table(mem, g) && |pg| < 4 && i < ENTRIES
    ensures var mem' := SetEntry(mem, g, i, e);
      Walk(mem', root, 0, w) == if pg + [i] <= Path(w, 4) then Beyond(mem', e, |pg|, w) else Walk(mem, root, 0, w)
  {
    hide NonSharing, Path, Reach, Walk, Addr, Span;
    if pg + [i] <= Path(w, 4) {
      PathsAgree(w, pg, i);
      ReachFrame(mem, root, pg, g, i, e, pg);
      WalkThrough(SetEntry(mem, g, i, e), root, w, |pg|);
      EntryWalk(SetEntry(mem, g, i, e), g, |pg|, w);
    } else {
      RootReached(mem, root, w);
      WalkFrame(mem, root, pg, g, i, e, w, root, 0);
    }
  }

  lemma PathsAgree(w: nat, pg: seq<nat>, i: nat)
    requires |pg| < 4 && pg + [i] <= Path(w, 4)
    ensures Path(w, |pg|) == pg && Index(w, |pg|) == i
  {
    PathPrefix(w, |pg|, 4);
    PathPrefix(w, |pg| + 1, 4);
    PathSnoc(w, |pg|);
    hide Path, Index;
    assert Path(w, 4)[|pg|] == i;
  }

  lemma EntryWalk(mem: Mem, f: nat, depth: nat, v: nat)
    requires depth < 4 && Table(mem, f)
    ensures Walk(mem, f, depth, v) == Beyond(mem, mem[f][Index(v, depth)], depth, v)
  {
  }
}
