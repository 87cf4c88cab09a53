/** The lazily built DFA with a bounded cache (dfa1.c): states are kept in a search tree, thrown away all at once
    and recycled. */
module RegexDfa {
  import opened Basics
  import opened RegexLang
  import opened RegexNfa
  import opened RegexSim

  // ----- lists of states -----

  /** listcmp: first by length, then by members. */
  function Compare(a: seq<nat>, b: seq<nat>): (r: int)
    ensures r in {-1, 0, 1}
    ensures r == 0 <==> a == b
  {
    if |a| < |b| then -1 else if |a| > |b| then 1 else CompareFrom(a, b, 0)
  }

  function CompareFrom(a: seq<nat>, b: seq<nat>, i: nat): (r: int)
    requires i <= |a| == |b|
    ensures r in {-1, 0, 1}
    ensures r == 0 <==> a[i..] == b[i..]
    decreases |a| - i
  {
    if i == |a| then 0
    else if a[i] < b[i] then -1
    else if a[i] > b[i] then 1
    else
      assert a[i..] == [a[i]] + a[i + 1..] && b[i..] == [b[i]] + b[i + 1..];
      CompareFrom(a, b, i + 1)
  }

  /** A shorter list comes first, and of two lists of one length the one that is smaller where they first differ. */
  ghost predicate ComesFirst(a: seq<nat>, b: seq<nat>) {
    || |a| < |b|
    || (|a| == |b| && exists k :: 0 <= k < |a| && a[..k] == b[..k] && a[k] < b[k])
  }

  lemma {:induction false} CompareExactly(a: seq<nat>, b: seq<nat>)
    ensures Compare(a, b) == if ComesFirst(a, b) then -1 else if a == b then 0 else 1
  {
    if |a| == |b| {
      CompareFromExactly(a, b, 0);
    }
  }

  lemma {:induction false} CompareFromExactly(a: seq<nat>, b: seq<nat>, i: nat)
    requires i <= |a| == |b| && a[..i] == b[..i]
    ensures CompareFrom(a, b, i) == -1 <==> exists k :: 0 <= k < |a| && a[..k] == b[..k] && a[k] < b[k]
    decreases |a| - i
  {
    assert forall k :: 0 <= k < i ==> a[k] == a[..i][k] == b[..i][k] == b[k];
    if i < |a| {
      if a[i] == b[i] {
        assert a[..i + 1] == a[..i] + [a[i]] && b[..i + 1] == b[..i] + [b[i]];
        CompareFromExactly(a, b, i + 1);
      } else {
        forall k | 0 <= k < |a| && a[..k] == b[..k] && a[k] < b[k]
          ensures k == i
        {
          if k > i {
            PrefixAt(a, b, k, i);
          }
        }
      }
    }
  }

  lemma PrefixAt(a: seq<nat>, b: seq<nat>, k: nat, i: nat)
    requires i < k <= |a| && k <= |b| && a[..k] == b[..k]
    ensures a[i] == b[i]
  {
    assert a[..k][i] == b[..k][i];
  }

  lemma {:induction false} CompareFromSwap(a: seq<nat>, b: seq<nat>, i: nat)
    requires i <= |a| == |b|
    ensures CompareFrom(b, a, i) == -CompareFrom(a, b, i)
    decreases |a| - i
  {
    if i < |a| && a[i] == b[i] {
      CompareFromSwap(a, b, i + 1);
    }
  }

  lemma CompareSwap(a: seq<nat>, b: seq<nat>)
    ensures Compare(b, a) == -Compare(a, b)
  {
    if |a| == |b| {
      CompareFromSwap(a, b, 0);
    }
  }

  lemma {:induction false} CompareFromTrans(a: seq<nat>, b: seq<nat>, c: seq<nat>, i: nat)
    requires i <= |a| == |b| == |c| && CompareFrom(a, b, i) < 0 && CompareFrom(b, c, i) < 0
    ensures CompareFrom(a, c, i) < 0
    decreases |a| - i
  {
    if a[i] == b[i] == c[i] {
      CompareFromTrans(a, b, c, i + 1);
    }
  }

  lemma CompareTrans(a: seq<nat>, b: seq<nat>, c: seq<nat>)
    requires Compare(a, b) < 0 && Compare(b, c) < 0
    ensures Compare(a, c) < 0
  {
    if |a| == |c| {
      CompareFromTrans(a, b, c, 0);
    }
  }

  method ListCmp(l1: seq<nat>, l2: seq<nat>) returns (r: int)
    ensures r == Compare(l1, l2)
  {
    if |l1| < |l2| {
      return -1;
    }
    if |l1| > |l2| {
      return 1;
    }
    var i := 0;
    while i < |l1|
      invariant 0 <= i <= |l1|
      invariant CompareFrom(l1, l2, i) == CompareFrom(l1, l2, 0)
    {
      if l1[i] < l2[i] {
        return -1;
      } else if l1[i] > l2[i] {
        return 1;
      }
      i := i + 1;
    }
    r := 0;
  }

  /** What qsort does to the array of a list. As ptrcmp compares where two entries are and not what they hold, this
      is not sorting: how the entries come out depends on the library and on where the array is, and is a parameter of
      the model. */
  type Arrangement = seq<nat> -> seq<nat>

  ghost predicate Arranges(arrange: Arrangement) {
    forall l: seq<nat> :: multiset(arrange(l)) == multiset(l)
  }

  lemma {:induction false} OnceEach(l: seq<nat>, x: nat)
    requires Distinct(l)
    ensures multiset(l)[x] <= 1
    decreases |l|
  {
    if l != [] {
      var n := |l| - 1;
      OnceEach(l[..n], x);
      assert l == l[..n] + [l[n]];
      assert l[n] !in l[..n];
    }
  }

  /** A rearranged list has the same states, once each. */
  lemma Rearranged(l: seq<nat>, p: seq<nat>)
    requires Distinct(l) && multiset(p) == multiset(l)
    ensures Distinct(p) && Elems(p) == Elems(l)
  {
    forall i, j | 0 <= i < j < |p|
      ensures p[i] != p[j]
    {
      OnceEach(l, p[i]);
      assert p == p[..j] + p[j..];
      assert p[i] in p[..j] && p[j] in p[j..];
    }
    forall x: nat
      ensures x in p <==> x in l
    {
      assert x in multiset(p) <==> x in multiset(l);
    }
  }

  /** qsort(l->s, l->n, ..., ptrcmp). */
  method QSort(l: seq<nat>, arrange: Arrangement) returns (p: seq<nat>)
    requires Arranges(arrange) && Distinct(l)
    ensures p == arrange(l) && Distinct(p) && Elems(p) == Elems(l)
  {
    p := arrange(l);
    Rearranged(l, p);
  }

  // ----- the memory of DFA states -----

  /** A DState*. */
  datatype Ref = Nil | At(id: nat)

  datatype DState = DState(l: seq<nat>, next: seq<Ref>, left: Ref, right: Ref)

  /** DStates by address. */
  type Heap = seq<DState>

  /** No step is recorded. */
  function NoNext(): (next: seq<Ref>)
    ensures |next| == 256 && forall i :: 0 <= i < 256 ==> next[i] == Nil
  {
    seq(256, _ => Nil)
  }

  /** A DState**: where the pointer to a subtree is kept. */
  datatype Link = Root | LeftOf(id: nat) | RightOf(id: nat)

  /** The shape of the search tree. */
  datatype Tree = Leaf | Node(left: Tree, id: nat, right: Tree)

  function Ids(t: Tree): seq<nat> {
    match t
    case Leaf => []
    case Node(l, id, r) => Ids(l) + [id] + Ids(r)
  }

  ghost predicate IsTree(h: Heap, r: Ref, t: Tree)
    decreases t
  {
    match t
    case Leaf => r == Nil
    case Node(left, id, right) =>
      r == At(id) && id < |h| && IsTree(h, h[id].left, left) && IsTree(h, h[id].right, right)
  }

  /** The freelist, linked through left. */
  ghost predicate IsFreeList(h: Heap, r: Ref, free: seq<nat>)
    decreases |free|
  {
    if free == [] then r == Nil
    else r == At(free[0]) && free[0] < |h| && IsFreeList(h, h[free[0]].left, free[1..])
  }

  lemma {:induction false} TreeKept(h: Heap, h2: Heap, r: Ref, t: Tree)
    requires IsTree(h, r, t) && |h| <= |h2|
    requires forall id <- Ids(t) :: id < |h| ==> h2[id].left == h[id].left && h2[id].right == h[id].right
    ensures IsTree(h2, r, t)
    decreases t
  {
    if t.Node? {
      assert t.id in Ids(t);
      assert forall id <- Ids(t.left) :: id in Ids(t);
      assert forall id <- Ids(t.right) :: id in Ids(t);
      TreeKept(h, h2, h[t.id].left, t.left);
      TreeKept(h, h2, h[t.id].right, t.right);
    }
  }

  lemma {:induction false} FreeListKept(h: Heap, h2: Heap, r: Ref, free: seq<nat>)
    requires IsFreeList(h, r, free) && |h| <= |h2|
    requires forall id <- free :: id < |h| ==> h2[id].left == h[id].left
    ensures IsFreeList(h2, r, free)
    decreases |free|
  {
    if free != [] {
      assert free[0] in free;
      FreeListKept(h, h2, h[free[0]].left, free[1..]);
    }
  }

  // ----- a place in the search tree -----

  /** A tree with one subtree taken out. */
  datatype Place = Top | InLeft(up: Place, id: nat, right: Tree) | InRight(up: Place, left: Tree, id: nat)

  function Plug(p: Place, t: Tree): Tree {
    match p
    case Top => t
    case InLeft(up, id, right) => Plug(up, Node(t, id, right))
    case InRight(up, left, id) => Plug(up, Node(left, id, t))
  }

  /** The states before and after the place. */
  function Before(p: Place): seq<nat> {
    match p
    case Top => []
    case InLeft(up, id, right) => Before(up)
    case InRight(up, left, id) => Before(up) + Ids(left) + [id]
  }

  function Behind(p: Place): seq<nat> {
    match p
    case Top => []
    case InLeft(up, id, right) => [id] + Ids(right) + Behind(up)
    case InRight(up, left, id) => Behind(up)
  }

  lemma {:induction false} PlugIds(p: Place, t: Tree)
    ensures Ids(Plug(p, t)) == Before(p) + Ids(t) + Behind(p)
    decreases p
  {
    match p
    case Top =>
    case InLeft(up, id, right) => PlugIds(up, Node(t, id, right));
    case InRight(up, left, id) => PlugIds(up, Node(left, id, t));
  }

  /** In memory, the place has the root `root`, and the link at the place holds x. */
  ghost predicate IsPlace(h: Heap, p: Place, x: Ref, root: Ref) {
    match p
    case Top => root == x
    case InLeft(up, id, right) =>
      id < |h| && h[id].left == x && IsTree(h, h[id].right, right) && IsPlace(h, up, At(id), root)
    case InRight(up, left, id) =>
      id < |h| && h[id].right == x && IsTree(h, h[id].left, left) && IsPlace(h, up, At(id), root)
  }

  lemma {:induction false} PlugTree(h: Heap, p: Place, x: Ref, root: Ref, t: Tree)
    requires IsPlace(h, p, x, root) && IsTree(h, x, t)
    ensures IsTree(h, root, Plug(p, t))
    decreases p
  {
    match p
    case Top =>
    case InLeft(up, id, right) => PlugTree(h, up, At(id), root, Node(t, id, right));
    case InRight(up, left, id) => PlugTree(h, up, At(id), root, Node(left, id, t));
  }

  lemma {:induction false} PlaceKept(h: Heap, h2: Heap, p: Place, x: Ref, root: Ref)
    requires IsPlace(h, p, x, root) && |h| <= |h2|
    requires forall id <- Before(p) + Behind(p) :: id < |h| ==> h2[id].left == h[id].left && h2[id].right == h[id].right
    ensures IsPlace(h2, p, x, root)
    decreases p
  {
    match p
    case Top =>
    case InLeft(up, id, right) =>
      assert id in Behind(p);
      assert forall i <- Ids(right) :: i in Behind(p);
      assert forall i <- Before(up) + Behind(up) :: i in Before(p) + Behind(p);
      TreeKept(h, h2, h[id].right, right);
      PlaceKept(h, h2, up, At(id), root);
    case InRight(up, left, id) =>
      assert id in Before(p);
      assert forall i <- Ids(left) :: i in Before(p);
      assert forall i <- Before(up) + Behind(up) :: i in Before(p) + Behind(p);
      TreeKept(h, h2, h[id].left, left);
      PlaceKept(h, h2, up, At(id), root);
  }

  function LinkOf(p: Place): Link {
    match p
    case Top => Root
    case InLeft(_, id, _) => LeftOf(id)
    case InRight(_, _, id) => RightOf(id)
  }

  /** The heap after `*dp = x`. */
  function Stored(h: Heap, dp: Link, x: Ref): (h2: Heap)
    requires dp.Root? || dp.id < |h|
    ensures |h2| == |h|
  {
    match dp
    case Root => h
    case LeftOf(id) => h[id := h[id].(left := x)]
    case RightOf(id) => h[id := h[id].(right := x)]
  }

  /** Storing through the link of a place replaces what is there and nothing else. */
  lemma StorePlace(h: Heap, p: Place, x: Ref, root: Ref, y: Ref)
    requires IsPlace(h, p, x, root) && Distinct(Before(p) + Behind(p))
    ensures LinkOf(p).Root? || LinkOf(p).id < |h|
    ensures IsPlace(Stored(h, LinkOf(p), y), p, y, if p.Top? then y else root)
  {
    var h2 := Stored(h, LinkOf(p), y);
    match p
    case Top =>
    case InLeft(up, id, right) =>
      assert Before(p) + Behind(p) == Before(up) + [id] + (Ids(right) + Behind(up));
      DistinctParts(Before(up), id, Ids(right) + Behind(up));
      hide Distinct, Before, Behind;
      TreeKept(h, h2, h[id].right, right);
      PlaceKept(h, h2, up, At(id), root);
    case InRight(up, left, id) =>
      assert Before(p) + Behind(p) == (Before(up) + Ids(left)) + [id] + Behind(up);
      DistinctParts(Before(up) + Ids(left), id, Behind(up));
      hide Distinct, Before, Behind;
      TreeKept(h, h2, h[id].left, left);
      PlaceKept(h, h2, up, At(id), root);
  }

  // ----- recycling a tree -----

  /** The freelist that freeing a tree puts in front of the old one. */
  function FreeOrder(t: Tree): seq<nat> {
    match t
    case Leaf => []
    case Node(left, id, right) => [id] + FreeOrder(right) + FreeOrder(left)
  }

  lemma {:induction false} FreeOrderIds(t: Tree)
    ensures forall id :: id in FreeOrder(t) <==> id in Ids(t)
    ensures |FreeOrder(t)| == |Ids(t)|
    ensures Distinct(Ids(t)) ==> Distinct(FreeOrder(t))
  {
    match t
    case Leaf =>
    case Node(left, id, right) =>
      FreeOrderIds(left);
      FreeOrderIds(right);
      if Distinct(Ids(t)) {
        DistinctParts(Ids(left), id, Ids(right));
        DistinctAppend(FreeOrder(right), FreeOrder(left));
        DistinctAppend([id], FreeOrder(right) + FreeOrder(left));
        assert [id] + FreeOrder(right) + FreeOrder(left) == [id] + (FreeOrder(right) + FreeOrder(left));
      }
  }

  lemma DistinctParts(x: seq<nat>, id: nat, y: seq<nat>)
    requires Distinct(x + [id] + y)
    ensures Distinct(x) && Distinct(y) && id !in x && id !in y && forall i <- x :: i !in y
  {
    var all := x + [id] + y;
    assert all[|x|] == id;
    assert x == all[..|x|] && y == all[|x| + 1..];
    forall i <- x
      ensures i !in y && i != id
    {
      var k :| 0 <= k < |x| && x[k] == i;
      assert all[k] == i;
    }
    assert forall k :: 0 <= k < |y| ==> y[k] == all[|x| + 1 + k];
  }

  // ----- what the cache promises -----

  /** In the order of listcmp, so no two lists are equal. */
  ghost predicate Ordered(h: Heap, ids: seq<nat>) {
    && (forall i :: 0 <= i < |ids| ==> ids[i] < |h|)
    && forall i, j :: 0 <= i < j < |ids| ==> Compare(h[ids[i]].l, h[ids[j]].l) < 0
  }

  /** The list of a cached state has no duplicates and is that of some text. */
  ghost predicate GoodList(m: Memory, start: nat, l: seq<nat>) {
    Distinct(l) && exists w: Text :: Elems(l) == After(m, To(start), w)
  }

  /** The cached step of a state. */
  function Cached(h: Heap, id: nat, c: Byte): Ref
    requires id < |h| && |h[id].next| == 256
  {
    h[id].next[c as int]
  }

  /** l2 is the list that the state with list l gets for its step on c. */
  ghost predicate IsNext(m: Memory, arrange: Arrangement, l: seq<nat>, c: Byte, l2: seq<nat>) {
    l2 == arrange(NextList(m, l, c)) && Elems(l2) == StepSet(m, Elems(l), c)
  }

  /** Cached steps of a live state lead to live states with the arranged step of its list. */
  ghost predicate GoodNext(m: Memory, arrange: Arrangement, h: Heap, live: seq<nat>, id: nat)
    requires id < |h| && |h[id].next| == 256
  {
    forall c: Byte :: Cached(h, id, c).At? ==>
      var j := Cached(h, id, c).id;
      j in live && j < |h| && IsNext(m, arrange, h[id].l, c, h[j].l)
  }

  ghost predicate GoodStates(m: Memory, arrange: Arrangement, start: nat, h: Heap, live: seq<nat>) {
    forall id <- live ::
      id < |h| && |h[id].next| == 256 && GoodList(m, start, h[id].l) && GoodNext(m, arrange, h, live, id)
  }

  /** The lists of some states. */
  function ListsOf(h: Heap, ids: seq<nat>): set<seq<nat>>
    requires forall id <- ids :: id < |h|
  {
    set id | id in ids :: h[id].l
  }

  /** The steps recorded in some states. */
  function StepsOf(h: Heap, ids: seq<nat>): set<(seq<nat>, Byte)>
    requires forall id <- ids :: id < |h| && |h[id].next| == 256
  {
    set id, c: Byte | id in ids && Cached(h, id, c).At? :: (h[id].l, c)
  }

  /** The lists of ordered states are as many as the states. */
  lemma {:induction false} ListsCount(h: Heap, ids: seq<nat>)
    requires Ordered(h, ids)
    ensures |ListsOf(h, ids)| == |ids|
    decreases |ids|
  {
    hide CompareFrom;
    if ids != [] {
      var n := |ids| - 1;
      ListsCount(h, ids[..n]);
      assert forall id :: id in ids <==> id in ids[..n] || id == ids[n];
      assert ListsOf(h, ids) == ListsOf(h, ids[..n]) + {h[ids[n]].l};
      forall id <- ids[..n]
        ensures h[id].l != h[ids[n]].l
      {
        var i :| 0 <= i < n && ids[i] == id;
        assert Compare(h[ids[i]].l, h[ids[n]].l) < 0;
      }
      assert h[ids[n]].l !in ListsOf(h, ids[..n]);
    }
  }

  /** Live states and free ones are all states ever allocated, each in one place. */
  ghost predicate Partition(h: Heap, live: seq<nat>, free: seq<nat>) {
    && Distinct(live + free)
    && |live| + |free| == |h|
    && forall id <- live + free :: id < |h|
  }
}
