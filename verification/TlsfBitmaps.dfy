/** The two bitmap levels of the TLSF index against the lists they summarise. */
module TlsfBitmaps {
  import opened Bits
  import opened TlsfIndex

  /** Bit `sl` of word `fl` says list `(fl, sl)` is not empty; bit `fl` of the first level
      says word `fl` is not zero. No other bit is ever set. */
  ghost predicate Bitmaps(flWord: nat, slWords: seq<nat>, lists: seq<seq<nat>>) {
    && |slWords| == FL_INDEX_COUNT && |lists| == LIST_COUNT
    && (forall k: nat | k < LIST_COUNT :: TestBit(slWords[k / 32], k % 32) <==> lists[k] != [])
    && (forall f: nat, j: nat | f < FL_INDEX_COUNT && TestBit(slWords[f], j) :: j < SL_COUNT)
    && (forall f: nat | f < FL_INDEX_COUNT :: TestBit(flWord, f) <==> slWords[f] != 0)
    && (forall f: nat | TestBit(flWord, f) :: f < FL_INDEX_COUNT)
  }

  lemma EmptyBitmaps(slWords: seq<nat>, lists: seq<seq<nat>>)
    requires |slWords| == FL_INDEX_COUNT && |lists| == LIST_COUNT
    requires (forall f | 0 <= f < FL_INDEX_COUNT :: slWords[f] == 0) && forall k | 0 <= k < LIST_COUNT :: lists[k] == []
    ensures Bitmaps(0, slWords, lists)
  {
    NoBits(0);
  }

  /** Setting both bits of a list that is no longer empty. */
  lemma BitmapsSet(flWord: nat, slWords: seq<nat>, lists: seq<seq<nat>>, k: nat, list: seq<nat>)
    requires Bitmaps(flWord, slWords, lists) && k < LIST_COUNT && list != []
    ensures Bitmaps(SetBit(flWord, k / 32), slWords[k / 32 := SetBit(slWords[k / 32], k % 32)], lists[k := list])
  {
    hide TestBit, SetBit;
    var f0, w := k / 32, slWords[k / 32];
    var slWords' := slWords[f0 := SetBit(w, k % 32)];
    SetBitTest(w, k % 32, k % 32);
    NoBits(SetBit(w, k % 32));
    forall j: nat ensures TestBit(SetBit(w, k % 32), j) == (j == k % 32 || TestBit(w, j)) {
      SetBitTest(w, k % 32, j);
    }
    forall f: nat ensures TestBit(SetBit(flWord, f0), f) == (f == f0 || TestBit(flWord, f)) {
      SetBitTest(flWord, f0, f);
    }
    forall j: nat | j < LIST_COUNT
      ensures TestBit(slWords'[j / 32], j % 32) <==> lists[k := list][j] != []
    {
      assert j != k && j / 32 == f0 ==> j % 32 != k % 32;
    }
  }

  /** Clearing the bit of a list that has become empty, and the first-level bit with the
      last bit of its word. */
  lemma BitmapsClear(flWord: nat, slWords: seq<nat>, lists: seq<seq<nat>>, k: nat)
    requires Bitmaps(flWord, slWords, lists) && k < LIST_COUNT
    ensures var w := ClearBit(slWords[k / 32], k % 32);
      Bitmaps(if w == 0 then ClearBit(flWord, k / 32) else flWord, slWords[k / 32 := w], lists[k := []])
  {
    hide TestBit, ClearBit;
    var f0, w := k / 32, slWords[k / 32];
    var w' := ClearBit(w, k % 32);
    var slWords' := slWords[f0 := w'];
    NoBits(w);
    NoBits(w');
    forall j: nat ensures TestBit(w', j) == (j != k % 32 && TestBit(w, j)) {
      ClearBitTest(w, k % 32, j);
    }
    forall f: nat ensures TestBit(ClearBit(flWord, f0), f) == (f != f0 && TestBit(flWord, f)) {
      ClearBitTest(flWord, f0, f);
    }
    forall j: nat | j < LIST_COUNT
      ensures TestBit(slWords'[j / 32], j % 32) <==> lists[k := []][j] != []
    {
      assert j != k && j / 32 == f0 ==> j % 32 != k % 32;
    }
  }

  /** A list that stays non-empty needs no change of the bitmaps. */
  lemma BitmapsKeep(flWord: nat, slWords: seq<nat>, lists: seq<seq<nat>>, k: nat, list: seq<nat>)
    requires Bitmaps(flWord, slWords, lists) && k < LIST_COUNT && lists[k] != [] && list != []
    ensures Bitmaps(flWord, slWords, lists[k := list])
  {
  }

  // -------------------------------------------------------------- searching

  /** The first non-empty list at or after class `c`, found with two word scans. */
  ghost predicate FirstFrom(lists: seq<seq<nat>>, c: Class, d: Class)
    requires |lists| == LIST_COUNT
  {
    && c.AtMost(d) && d.InRange() && lists[d.Slot()] != []
    && forall e: Class | e.InRange() && c.AtMost(e) && lists[e.Slot()] != [] :: d.AtMost(e)
  }

  ghost predicate NoneFrom(lists: seq<seq<nat>>, c: Class)
    requires |lists| == LIST_COUNT
  {
    forall e: Class | e.InRange() && c.AtMost(e) :: lists[e.Slot()] == []
  }

  lemma ListBit(flWord: nat, slWords: seq<nat>, lists: seq<seq<nat>>, c: Class)
    requires Bitmaps(flWord, slWords, lists) && c.InRange()
    ensures TestBit(slWords[c.fl], c.sl) <==> lists[c.Slot()] != []
  {
    assert c.Slot() / 32 == c.fl && c.Slot() % 32 == c.sl;
  }

  /** The scan of the class's own word. */
  lemma ScanWord(flWord: nat, slWords: seq<nat>, lists: seq<seq<nat>>, c: Class)
    requires Bitmaps(flWord, slWords, lists) && c.InRange()
    ensures var m := Shr(slWords[c.fl], c.sl);
      && (m != 0 ==> FirstFrom(lists, c, Class(c.fl, c.sl + TrailingZeros(m))))
      && (m == 0 ==> forall e: Class | e.InRange() && c.AtMost(e) && e.fl == c.fl :: lists[e.Slot()] == [])
  {
    hide TestBit, TrailingZeros, Shr;
    var m := Shr(slWords[c.fl], c.sl);
    if m != 0 {
      LowestBitFrom(slWords[c.fl], c.sl);
      var d := Class(c.fl, c.sl + TrailingZeros(m));
      assert TestBit(slWords[c.fl], d.sl);
      ListBit(flWord, slWords, lists, d);
      forall e: Class | e.InRange() && c.AtMost(e) && lists[e.Slot()] != []
        ensures d.AtMost(e)
      {
        ListBit(flWord, slWords, lists, e);
      }
    } else {
      forall e: Class | e.InRange() && c.AtMost(e) && e.fl == c.fl
        ensures lists[e.Slot()] == []
      {
        ListBit(flWord, slWords, lists, e);
        NoBitsFrom(slWords[c.fl], c.sl, e.sl);
      }
    }
  }

  /** The scan of the first level once the class's own word is exhausted. */
  lemma ScanFirstLevel(flWord: nat, slWords: seq<nat>, lists: seq<seq<nat>>, c: Class)
    requires Bitmaps(flWord, slWords, lists) && c.InRange()
    requires forall e: Class | e.InRange() && c.AtMost(e) && e.fl == c.fl :: lists[e.Slot()] == []
    ensures var m := Shr(flWord, c.fl + 1);
      && (m == 0 ==> NoneFrom(lists, c))
      && (m != 0 ==> var f := c.fl + 1 + TrailingZeros(m);
                     && f < FL_INDEX_COUNT && slWords[f] != 0
                     && FirstFrom(lists, c, Class(f, TrailingZeros(slWords[f]))))
  {
    hide TestBit, TrailingZeros, Shr;
    var m := Shr(flWord, c.fl + 1);
    if m == 0 {
      forall e: Class | e.InRange() && c.AtMost(e)
        ensures lists[e.Slot()] == []
      {
        ListBit(flWord, slWords, lists, e);
        NoBits(slWords[e.fl]);
        if e.fl > c.fl {
          NoBitsFrom(flWord, c.fl + 1, e.fl);
        }
      }
    } else {
      LowestBitFrom(flWord, c.fl + 1);
      var f := c.fl + 1 + TrailingZeros(m);
      assert TestBit(flWord, f);
      LowestBit(slWords[f]);
      var d := Class(f, TrailingZeros(slWords[f]));
      ListBit(flWord, slWords, lists, d);
      forall e: Class | e.InRange() && c.AtMost(e) && lists[e.Slot()] != []
        ensures d.AtMost(e)
      {
        ListBit(flWord, slWords, lists, e);
        NoBits(slWords[e.fl]);
      }
    }
  }
}
