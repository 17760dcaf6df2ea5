/** Doubly linked free lists threaded through the free memory itself.

    A node lives at the place it describes, so a list is a head together with the
    `prev`/`next` words stored at its members; `NIL` is the null pointer. */
module FreeList {

  datatype Node = Node(prev: int, next: int)

  const NIL: int := -1

  /** The list words of every place a node can live at. */
  type Ram = map<int, Node>

  ghost function At(s: seq<nat>, i: int): int {
    if 0 <= i < |s| then s[i] else NIL
  }

  ghost predicate NoDup(s: seq<nat>) {
    forall i, j | 0 <= i < j < |s| :: s[i] != s[j]
  }

  /** `head` and the words in `ram` thread exactly the places of `s`, in order, with
      matching `prev` and `next`. */
  ghost predicate Threaded(s: seq<nat>, head: int, ram: Ram) {
    && head == At(s, 0)
    && NoDup(s)
    && forall i | 0 <= i < |s| :: s[i] in ram && ram[s[i]] == Node(At(s, i - 1), At(s, i + 1))
  }

  /** The words after a node at `p` is pushed in front of the list headed by `head`. */
  ghost function PushWords(ram: Ram, p: nat, head: int): (r: Ram)
    requires p in ram && InRam(head, ram)
    ensures r.Keys == ram.Keys
  {
    var ram1 := ram[p := Node(NIL, head)];
    if head == NIL then ram1 else ram1[head := ram1[head].(prev := p)]
  }

  /** The words after `prev` and `next` are made neighbours. */
  ghost function JoinWords(ram: Ram, prev: int, next: int): (r: Ram)
    requires InRam(prev, ram) && InRam(next, ram)
    ensures r.Keys == ram.Keys
  {
    var ram1 := if prev == NIL then ram else ram[prev := ram[prev].(next := next)];
    if next == NIL then ram1 else ram1[next := ram1[next].(prev := prev)]
  }

  /** The words differ at no place outside `places`. */
  ghost predicate WritesIn(ram: Ram, ram': Ram, places: set<int>) {
    forall p | p in ram && p !in places :: p in ram' && ram'[p] == ram[p]
  }

  lemma WritesThen(ram0: Ram, ram1: Ram, ram2: Ram, first: set<int>, second: set<int>, all: set<int>)
    requires WritesIn(ram0, ram1, first) && WritesIn(ram1, ram2, second) && first <= all && second <= all
    ensures WritesIn(ram0, ram2, all)
  {
  }

  /** The words at `places` are there and unchanged. */
  ghost predicate WordsKept(ram: Ram, ram': Ram, places: set<nat>) {
    forall p | p in places :: p in ram && p in ram' && ram'[p] == ram[p]
  }

  lemma WrittenOnce(ram: Ram, p: int, node: Node, places: set<int>)
    requires p in ram && p in places
    ensures WritesIn(ram, ram[p := node], places)
  {
  }

  lemma WritesNone(ram: Ram, places: set<int>)
    ensures WritesIn(ram, ram, places)
  {
  }

  ghost predicate InRam(p: int, ram: Ram) { p == NIL || p in ram }

  ghost function Without(s: seq<nat>, i: nat): (r: seq<nat>)
    requires i < |s|
    ensures |r| == |s| - 1
  {
    s[..i] + s[i + 1..]
  }

  /** Pushing a new place in front of a list threads the longer list. */
  lemma PushThreaded(s: seq<nat>, head: int, ram: Ram, p: nat)
    requires Threaded(s, head, ram) && InRam(head, ram) && p in ram && p !in s
    ensures Threaded([p] + s, p, PushWords(ram, p, head))
  {
  }

  lemma PushApart(s: seq<nat>, head: int, ram: Ram, p: nat, t: seq<nat>, h: int)
    requires Threaded(t, h, ram) && p !in t && p in ram
    requires InRam(head, ram) && head !in t
    ensures Threaded(t, h, PushWords(ram, p, head))
  {
  }

  lemma Neighbours(s: seq<nat>, head: int, ram: Ram, i: nat)
    requires Threaded(s, head, ram) && i < |s|
    ensures s[i] in ram && ram[s[i]] == Node(At(s, i - 1), At(s, i + 1))
    ensures InRam(At(s, i - 1), ram) && InRam(At(s, i + 1), ram)
  {
  }

  /** Where the members of a list go when the i-th is left out. */
  lemma WithoutAt(s: seq<nat>, i: nat, j: int)
    requires i < |s|
    ensures At(Without(s, i), j) == if j < i then At(s, j) else At(s, j + 1)
  {
  }

  lemma WithoutMembers(s: seq<nat>, i: nat, p: nat)
    requires NoDup(s) && i < |s|
    ensures p in Without(s, i) <==> p in s && p != s[i]
    ensures NoDup(Without(s, i))
  {
  }

  /** Joining the neighbours of the i-th member leaves a list of the others. */
  lemma UnlinkThreaded(s: seq<nat>, head: int, ram: Ram, i: nat)
    requires Threaded(s, head, ram) && i < |s|
    requires InRam(At(s, i - 1), ram) && InRam(At(s, i + 1), ram)
    ensures Threaded(Without(s, i), if i == 0 then At(s, 1) else head, JoinWords(ram, At(s, i - 1), At(s, i + 1)))
  {
    var s' := Without(s, i);
    var ram' := JoinWords(ram, At(s, i - 1), At(s, i + 1));
    WithoutMembers(s, i, 0);
    WithoutAt(s, i, 0);
    hide JoinWords, At, Without;
    forall j | 0 <= j < |s'|
      ensures s'[j] in ram' && ram'[s'[j]] == Node(At(s', j - 1), At(s', j + 1))
    {
      WithoutNode(s, head, ram, i, j);
    }
  }

  lemma WithoutNode(s: seq<nat>, head: int, ram: Ram, i: nat, j: nat)
    requires Threaded(s, head, ram) && i < |s| && j < |Without(s, i)|
    requires InRam(At(s, i - 1), ram) && InRam(At(s, i + 1), ram)
    ensures var s', ram' := Without(s, i), JoinWords(ram, At(s, i - 1), At(s, i + 1));
      s'[j] in ram' && ram'[s'[j]] == Node(At(s', j - 1), At(s', j + 1))
  {
    hide JoinWords, Without, Threaded, NoDup;
    var k := if j < i then j else j + 1;
    UnlinkedNode(s, head, ram, i, k);
    WithoutAt(s, i, j - 1);
    WithoutAt(s, i, j);
    WithoutAt(s, i, j + 1);
    assert Without(s, i)[j] == s[k];
  }

  lemma UnlinkedNode(s: seq<nat>, head: int, ram: Ram, i: nat, j: nat)
    requires Threaded(s, head, ram) && i < |s| && j < |s| && j != i
    requires InRam(At(s, i - 1), ram) && InRam(At(s, i + 1), ram)
    ensures s[j] in ram
    ensures JoinWords(ram, At(s, i - 1), At(s, i + 1))[s[j]] ==
              Node(if j == i + 1 then At(s, i - 1) else At(s, j - 1), if j + 1 == i then At(s, i + 1) else At(s, j + 1))
  {
  }

  lemma JoinApart(prev: int, next: int, ram: Ram, t: seq<nat>, h: int)
    requires Threaded(t, h, ram)
    requires InRam(prev, ram) && prev !in t && InRam(next, ram) && next !in t
    ensures Threaded(t, h, JoinWords(ram, prev, next))
  {
  }

  // --------------------------------------------------- families of lists

  ghost predicate Apart(s: seq<nat>, t: seq<nat>) {
    forall p | p in s :: p !in t
  }

  /** Several lists threaded through the same memory without sharing a place. */
  ghost predicate AllThreaded(lists: seq<seq<nat>>, heads: seq<int>, ram: Ram) {
    && |lists| == |heads|
    && NIL !in ram
    && (forall k | 0 <= k < |lists| :: Threaded(lists[k], heads[k], ram))
    && (forall j, k | 0 <= j < |lists| && 0 <= k < |lists| && j != k :: Apart(lists[j], lists[k]))
  }

  ghost predicate Unlisted(lists: seq<seq<nat>>, p: nat) {
    forall k | 0 <= k < |lists| :: p !in lists[k]
  }

  /** All places on some list. */
  ghost function Listed(lists: seq<seq<nat>>): set<nat> {
    set k, a | 0 <= k < |lists| && a in lists[k] :: a
  }

  lemma ListThreaded(lists: seq<seq<nat>>, heads: seq<int>, ram: Ram, k: nat)
    requires AllThreaded(lists, heads, ram) && k < |lists|
    ensures |lists| == |heads| && Threaded(lists[k], heads[k], ram) && NIL !in ram
  {
  }

  lemma HeadInRam(lists: seq<seq<nat>>, heads: seq<int>, ram: Ram, k: nat)
    requires AllThreaded(lists, heads, ram) && k < |lists|
    ensures InRam(heads[k], ram)
    ensures heads[k] == NIL <==> lists[k] == []
    ensures lists[k] != [] ==> heads[k] == lists[k][0]
  {
  }

  lemma PushAll(lists: seq<seq<nat>>, heads: seq<int>, ram: Ram, k: nat, p: nat)
    requires AllThreaded(lists, heads, ram) && k < |lists|
    requires p in ram && Unlisted(lists, p) && InRam(heads[k], ram)
    ensures AllThreaded(lists[k := [p] + lists[k]], heads[k := p], PushWords(ram, p, heads[k]))
  {
    var lists', heads', ram' := lists[k := [p] + lists[k]], heads[k := p], PushWords(ram, p, heads[k]);
    HeadInRam(lists, heads, ram, k);
    PushThreaded(lists[k], heads[k], ram, p);
    forall j | 0 <= j < |lists'|
      ensures Threaded(lists'[j], heads'[j], ram')
    {
      if j != k {
        assert Apart(lists[k], lists[j]);
        PushApart(lists[k], heads[k], ram, p, lists[j], heads[j]);
      }
    }
    forall i, j | 0 <= i < |lists'| && 0 <= j < |lists'| && i != j
      ensures Apart(lists'[i], lists'[j])
    {
      assert Apart(lists[i], lists[j]);
    }
  }

  lemma UnlinkAll(lists: seq<seq<nat>>, heads: seq<int>, ram: Ram, k: nat, i: nat)
    requires AllThreaded(lists, heads, ram) && k < |lists| && i < |lists[k]|
    ensures InRam(At(lists[k], i - 1), ram) && InRam(At(lists[k], i + 1), ram)
    ensures AllThreaded(lists[k := Without(lists[k], i)],
                        heads[k := if i == 0 then At(lists[k], 1) else heads[k]],
                        JoinWords(ram, At(lists[k], i - 1), At(lists[k], i + 1)))
  {
    var s := lists[k];
    assert Threaded(s, heads[k], ram);
    Neighbours(s, heads[k], ram, i);
    UnlinkThreaded(s, heads[k], ram, i);
    var lists' := lists[k := Without(s, i)];
    var heads' := heads[k := if i == 0 then At(s, 1) else heads[k]];
    var ram' := JoinWords(ram, At(s, i - 1), At(s, i + 1));
    forall j | 0 <= j < |lists'|
      ensures Threaded(lists'[j], heads'[j], ram')
    {
      if j != k {
        assert Apart(s, lists[j]);
        AtApart(s, lists[j], i - 1);
        AtApart(s, lists[j], i + 1);
        JoinApart(At(s, i - 1), At(s, i + 1), ram, lists[j], heads[j]);
      }
    }
    forall x, y | 0 <= x < |lists'| && 0 <= y < |lists'| && x != y
      ensures Apart(lists'[x], lists'[y])
    {
      assert Apart(lists[x], lists[y]);
      WithoutSubset(s, i);
    }
  }

  lemma AtApart(s: seq<nat>, t: seq<nat>, j: int)
    requires Apart(s, t)
    ensures At(s, j) !in t
  {
  }

  lemma WithoutSubset(s: seq<nat>, i: nat)
    requires i < |s|
    ensures forall p | p in Without(s, i) :: p in s
  {
  }

  lemma ListedPush(lists: seq<seq<nat>>, k: nat, a: nat)
    requires k < |lists|
    ensures Listed(lists[k := [a] + lists[k]]) == Listed(lists) + {a}
  {
    var lists' := lists[k := [a] + lists[k]];
    assert a in lists'[k];
    forall b | b in Listed(lists) ensures b in Listed(lists') {
      var j :| 0 <= j < |lists| && b in lists[j];
      assert b in lists'[j];
    }
  }

  lemma ListedUnlink(lists: seq<seq<nat>>, heads: seq<int>, ram: Ram, k: nat, i: nat)
    requires AllThreaded(lists, heads, ram) && k < |lists| && i < |lists[k]|
    ensures Listed(lists[k := Without(lists[k], i)]) == Listed(lists) - {lists[k][i]}
    ensures Unlisted(lists[k := Without(lists[k], i)], lists[k][i])
  {
    var a, lists' := lists[k][i], lists[k := Without(lists[k], i)];
    ListThreaded(lists, heads, ram, k);
    forall j | 0 <= j < |lists'|
      ensures a !in lists'[j]
      ensures forall b | b in lists[j] && b != a :: b in lists'[j]
      ensures forall b | b in lists'[j] :: b in lists[j]
    {
      if j == k {
        forall b: nat ensures b in lists'[k] <==> b in lists[k] && b != a {
          WithoutMembers(lists[k], i, b);
        }
      } else {
        assert Apart(lists[k], lists[j]);
      }
    }
  }

  lemma UnlistedIff(lists: seq<seq<nat>>, a: nat)
    ensures Unlisted(lists, a) <==> a !in Listed(lists)
  {
  }

  lemma PushWritten(ram: Ram, p: nat, head: int, places: set<int>)
    requires p in ram && InRam(head, ram) && p in places && (head == NIL || head in places)
    ensures WritesIn(ram, PushWords(ram, p, head), places)
  {
  }

  lemma JoinWritten(ram: Ram, prev: int, next: int, places: set<int>)
    requires InRam(prev, ram) && InRam(next, ram)
    requires (prev == NIL || prev in places) && (next == NIL || next in places)
    ensures WritesIn(ram, JoinWords(ram, prev, next), places)
  {
  }

  /** Pushing a place writes at the place and at listed places only. */
  lemma PushWrites(lists: seq<seq<nat>>, heads: seq<int>, ram: Ram, k: nat, p: nat)
    requires AllThreaded(lists, heads, ram) && k < |lists| && p in ram && InRam(heads[k], ram)
    ensures WritesIn(ram, PushWords(ram, p, heads[k]), Listed(lists) + {p})
  {
    HeadInRam(lists, heads, ram, k);
    hide AllThreaded;
    assert lists[k] != [] ==> lists[k][0] in lists[k];
  }

  /** Unlinking a place writes at listed places only. */
  lemma UnlinkWrites(lists: seq<seq<nat>>, ram: Ram, k: nat, i: nat)
    requires k < |lists| && i < |lists[k]|
    requires InRam(At(lists[k], i - 1), ram) && InRam(At(lists[k], i + 1), ram)
    ensures WritesIn(ram, JoinWords(ram, At(lists[k], i - 1), At(lists[k], i + 1)), Listed(lists))
  {
    forall j: int | At(lists[k], j) != NIL
      ensures At(lists[k], j) in Listed(lists)
    {
      assert lists[k][j] in lists[k];
    }
  }
}
