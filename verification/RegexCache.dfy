/** The operations of the bounded DFA cache, and matching with it (dfa1.c). */
module RegexCache {
  import opened Basics
  import opened RegexLang
  import opened RegexNfa
  import opened RegexSim
  import opened RegexDfa
  import opened RegexTwins
  import opened RegexMemo

  lemma {:induction false} LinkIsPlace(h: Heap, p: Place, x: Ref, root: Ref)
    requires IsPlace(h, p, x, root)
    ensures LinkOf(p).Root? || LinkOf(p).id < |h|
  {
  }

  lemma EmptyCache(m: Memory, arrange: Arrangement, start: nat)
    ensures Ids(Leaf) == [] && IsTree([], Nil, Leaf) && IsFreeList([], Nil, [])
    ensures Partition([], [], []) && Ordered([], []) && GoodStates(m, arrange, start, [], [])
  {
  }

  /** Of the given states the left links may have changed, and nothing else has. */
  ghost predicate Relinked(h: Heap, h2: Heap, ids: seq<nat>) {
    && |h2| == |h|
    && forall i :: 0 <= i < |h| ==> h2[i] == if i in ids then h[i].(left := h2[i].left) else h[i]
  }

  lemma RelinkedAll(h: Heap, h1: Heap, h2: Heap, h3: Heap, a: seq<nat>, id: nat, b: seq<nat>)
    requires |h3| == |h2| == |h| && id < |h| && Relinked(h, h1, a) && Relinked(h1, h2, b)
    requires h3 == h2[id := h2[id].(left := h3[id].left)]
    ensures Relinked(h, h3, a + [id] + b)
  {
    assert forall i :: i in a + [id] + b <==> i in a || i == id || i in b;
  }

  class Cache {
    const m: Memory
    ghost const r: Regex
    const start: nat
    const sim: Simulator
    const maxstates: int
    const arrange: Arrangement

    var heap: Heap
    var alldstates: Ref
    var freelist: Ref
    var nstates: nat

    ghost var tree: Tree
    ghost var free: seq<nat>

    /** The search tree and the freelist partition what was ever allocated; the tree is ordered; few states are
        allocated. */
    ghost predicate Structure()
      reads this
    {
      && IsTree(heap, alldstates, tree)
      && IsFreeList(heap, freelist, free)
      && Partition(heap, Ids(tree), free)
      && Ordered(heap, Ids(tree))
      && nstates == |Ids(tree)|
      && |heap| <= Max(maxstates, 1)
    }

    ghost predicate Engine()
      reads this, sim
    {
      sim.Valid() && sim.m == m && Finished(m, r, start) && Arranges(arrange)
    }

    ghost predicate Valid()
      reads this, sim
    {
      Engine() && Structure() && GoodStates(m, arrange, start, heap, Ids(tree))
    }

    /** The lists of the live states. */
    ghost function Lives(): set<seq<nat>>
      requires Structure()
      reads this
    {
      ListsOf(heap, Ids(tree))
    }

    /** What the cache remembers. */
    ghost function Remembered(): Memo
      requires Valid()
      reads this, sim
    {
      Memo(Lives(), StepsOf(heap, Ids(tree)), sim.listid)
    }

    constructor (m: Memory, ghost r: Regex, start: nat, maxstates: int, arrange: Arrangement)
      requires Finished(m, r, start) && Arranges(arrange)
      ensures Valid() && fresh(sim) && this.m == m && this.r == r && this.start == start
      ensures this.maxstates == maxstates && this.arrange == arrange
      ensures heap == [] && Lives() == {} && Remembered() == Memo({}, {}, 0)
    {
      hide Finished, Closed, Elems, IsTree, IsFreeList, Partition, Ordered, GoodStates;
      FinishedClosed(m, r, start);
      EmptyCache(m, arrange, start);
      this.m, this.r, this.start, this.maxstates, this.arrange := m, r, start, maxstates, arrange;
      sim := new Simulator(m);
      heap, alldstates, freelist, nstates := [], Nil, Nil, 0;
      tree, free := Leaf, [];
    }

    /** Frees a tree: each of its states is put on the freelist once, linked through the pointer that led to its
        left child. */
    method FreeStates(d: Ref, ghost t: Tree)
      requires IsTree(heap, d, t) && Distinct(Ids(t))
      requires IsFreeList(heap, freelist, free) && forall id <- Ids(t) :: id !in free
      modifies this`heap, this`freelist, this`free
      ensures free == FreeOrder(t) + old(free) && IsFreeList(heap, freelist, free)
      ensures Relinked(old(heap), heap, Ids(t))
      decreases t
    {
      hide IsFreeList, Distinct;
      if d == Nil {
        return;
      }
      DistinctParts(Ids(t.left), t.id, Ids(t.right));
      assert forall i <- Ids(t.left) :: i in Ids(t);
      assert forall i <- Ids(t.right) :: i in Ids(t);
      FreeOrderIds(t.left);
      FreeOrderIds(t.right);
      ghost var h0 := heap;
      FreeStates(heap[d.id].left, t.left);
      ghost var h1 := heap;
      TreeKept(h0, h1, h0[d.id].right, t.right);
      FreeStates(heap[d.id].right, t.right);
      ghost var h2 := heap;
      FreedTail(FreeOrder(t.right), FreeOrder(t.left), old(free), d.id);
      PushFree(d.id);
      RelinkedAll(h0, h1, h2, heap, Ids(t.left), d.id, Ids(t.right));
    }

    method PushFree(id: nat)
      requires id < |heap| && IsFreeList(heap, freelist, free) && id !in free
      modifies this`heap, this`freelist, this`free
      ensures heap == old(heap)[id := old(heap)[id].(left := old(freelist))]
      ensures free == [id] + old(free) && IsFreeList(heap, freelist, free)
    {
      ghost var h := heap;
      heap := heap[id := heap[id].(left := freelist)];
      FreeListKept(h, heap, freelist, free);
      freelist := At(id);
      free := [id] + free;
      assert free[1..] == old(free);
    }

    /** Throws the cache away; every state stays allocated. */
    method FreeCache()
      requires Structure()
      modifies this`heap, this`freelist, this`free, this`alldstates, this`tree, this`nstates
      ensures Structure() && tree == Leaf && |heap| == |old(heap)| && Lives() == {}
      ensures free == FreeOrder(old(tree)) + old(free)
    {
      ghost var live, free0 := Ids(tree), free;
      PartitionApart(heap, live, free0);
      FreeStates(alldstates, tree);
      FreeOrderIds(tree);
      DistinctAppend(FreeOrder(tree), free0);
      PartitionFreed(heap, live, FreeOrder(tree), free0);
      alldstates := Nil;
      nstates := 0;
      tree := Leaf;
      assert Ids(tree) == [];
    }

    /** A cleared state, recycled if one is free. */
    method AllocDState() returns (d: nat)
      requires Structure() && (free == [] ==> nstates < Max(maxstates, 1))
      modifies this`heap, this`freelist, this`free
      ensures d < |heap| && |old(heap)| <= |heap| <= Max(maxstates, 1)
      ensures heap[d].next == NoNext() && heap[d].left == Nil && heap[d].right == Nil
      ensures d !in Ids(tree) && forall id <- Ids(tree) :: id < |old(heap)| && heap[id] == old(heap)[id]
      ensures IsFreeList(heap, freelist, free)
      ensures if old(free) != [] then d == old(free)[0] && free == old(free)[1..] && |heap| == |old(heap)|
              else d == |old(heap)| && free == [] && |heap| == |old(heap)| + 1
      ensures d !in free && Partition(heap, Ids(tree) + [d], free)
    {
      ghost var h0, live := heap, Ids(tree);
      if freelist.At? {
        d := freelist.id;
        PartitionTake(heap, live, free);
        freelist := heap[d].left;
        free := free[1..];
      } else {
        d := |heap|;
        heap := heap + [DState([], NoNext(), Nil, Nil)];
        PartitionGrow(h0, heap, live);
      }
      ghost var h1 := heap;
      heap := heap[d := heap[d].(next := NoNext(), left := Nil, right := Nil)];
      FreeListKept(h0, h1, freelist, free);
      FreeListKept(h1, heap, freelist, free);
    }

    /** Walks down the search tree to a list, or to the place where it belongs. */
    method Search(l: seq<nat>) returns (dp: Link, d: Ref, ghost place: Place)
      requires Structure()
      ensures d.At? ==> d.id in Ids(tree) && d.id < |heap| && heap[d.id].l == l
      ensures d.Nil? ==> l !in Lives()
      ensures d.Nil? ==>
                && Plug(place, Leaf) == tree && IsPlace(heap, place, Nil, alldstates) && dp == LinkOf(place)
                && (forall id <- Before(place) :: id < |heap| && Compare(heap[id].l, l) < 0)
                && (forall id <- Behind(place) :: id < |heap| && Compare(l, heap[id].l) < 0)
    {
      hide Compare, IsFreeList, Partition, ListsOf;
      dp, d, place := Root, alldstates, Top;
      ghost var sub := tree;
      while d != Nil
        invariant Plug(place, sub) == tree && IsTree(heap, d, sub) && IsPlace(heap, place, d, alldstates)
        invariant dp == LinkOf(place)
        invariant forall id <- Before(place) :: id < |heap| && Compare(heap[id].l, l) < 0
        invariant forall id <- Behind(place) :: id < |heap| && Compare(l, heap[id].l) < 0
        decreases sub
      {
        PlugIds(place, sub);
        assert sub.id in Ids(sub);
        assert d.id in Ids(tree);
        var i := ListCmp(l, heap[d.id].l);
        if i < 0 {
          dp := LeftOf(d.id);
          GoLeft(heap, place, sub, l);
          place := InLeft(place, sub.id, sub.right);
          d := heap[d.id].left;
          sub := sub.left;
        } else if i > 0 {
          dp := RightOf(d.id);
          GoRight(heap, place, sub, l);
          place := InRight(place, sub.left, sub.id);
          d := heap[d.id].right;
          sub := sub.right;
        } else {
          return;
        }
      }
      Missing(l, place);
    }

    lemma Missing(l: seq<nat>, place: Place)
      requires Structure() && Plug(place, Leaf) == tree
      requires forall id <- Before(place) :: id < |heap| && Compare(heap[id].l, l) < 0
      requires forall id <- Behind(place) :: id < |heap| && Compare(l, heap[id].l) < 0
      ensures l !in Lives()
    {
      hide Compare, IsFreeList, Partition, IsTree, Plug;
      PlugIds(place, Leaf);
      assert Ids(tree) == Before(place) + Behind(place);
      NotListed(heap, Before(place), Behind(place), l);
    }

    /** Hangs a new state for list l at a place of the tree. */
    method Hang(l: seq<nat>, dp: Link, ghost place: Place) returns (d: nat)
      requires Structure() && nstates < Max(maxstates, 1)
      requires Plug(place, Leaf) == tree && IsPlace(heap, place, Nil, alldstates) && dp == LinkOf(place)
      requires forall id <- Before(place) :: id < |heap| && Compare(heap[id].l, l) < 0
      requires forall id <- Behind(place) :: id < |heap| && Compare(l, heap[id].l) < 0
      modifies this`heap, this`alldstates, this`freelist, this`nstates, this`tree, this`free
      ensures Structure() && Ids(tree) == Before(place) + [d] + Behind(place)
      ensures |old(heap)| <= |heap| && d < |heap| && heap[d].l == l && heap[d].next == NoNext() && d !in old(Ids(tree))
      ensures forall id <- old(Ids(tree)) ::
                id < |old(heap)| && heap[id].l == old(heap)[id].l && heap[id].next == old(heap)[id].next
    {
      hide IsPlace, IsTree, IsFreeList, Ordered, Partition, Stored, Plug;
      ghost var h0, root0 := heap, alldstates;
      PlugIds(place, Leaf);
      assert Ids(tree) == Before(place) + Behind(place);
      LinkIsPlace(heap, place, Nil, root0);
      d := AllocDState();
      ghost var h := heap;
      heap := heap[d := heap[d].(l := l)];
      ghost var h1 := heap;
      heap := Stored(heap, dp, At(d));
      if dp.Root? {
        alldstates := At(d);
      }
      nstates := nstates + 1;
      tree := Plug(place, Node(Leaf, d, Leaf));
      PlugIds(place, Node(Leaf, d, Leaf));
      assert Ids(Node(Leaf, d, Leaf)) == [d];
      HungStructure(h0, h, h1, heap, place, d, l, root0, alldstates, freelist, free);
    }

    /** Puts a new state for list l at a place of the tree and, unless the cache was flushed, records it as a step. */
    method Install(l: seq<nat>, dp: Link, nextp: Option<(nat, Byte)>, ghost place: Place) returns (d: nat)
      requires Valid() && nstates < Max(maxstates, 1)
      requires Plug(place, Leaf) == tree && IsPlace(heap, place, Nil, alldstates) && dp == LinkOf(place)
      requires forall id <- Before(place) :: id < |heap| && Compare(heap[id].l, l) < 0
      requires forall id <- Behind(place) :: id < |heap| && Compare(l, heap[id].l) < 0
      requires GoodList(m, start, l)
      requires nextp.Some? ==> IsStep(nextp.value.0, nextp.value.1, l)
      modifies this
      ensures Valid() && Lives() == old(Lives()) + {l}
      ensures d in Ids(tree) && d < |heap| && heap[d].l == l
      ensures Installed(old(heap), old(Ids(tree)), heap, Ids(tree), d, nextp)
    {
      hide Finished, GoodList, GoodStates, IsPlace, IsTree, IsFreeList, Ordered, Partition, Simulator.Valid, ListsOf,
           Compare, IsNext, Plug, Installed;
      ghost var h0, live0 := heap, Ids(tree);
      PlugIds(place, Leaf);
      assert live0 == Before(place) + Behind(place);
      ListRoom(l);
      d := Hang(l, dp, place);
      GoodPlaced(m, arrange, start, h0, heap, live0, Ids(tree), d, l);
      ListsPlaced(h0, heap, Before(place), d, Behind(place), l);
      InstalledNow(m, arrange, start, h0, heap, Before(place), d, Behind(place));
      if nextp.Some? {
        ghost var h := heap;
        Record(nextp.value.0, nextp.value.1, d);
        InstalledStep(h0, live0, h, heap, Ids(tree), d, nextp.value.0, nextp.value.1);
      }
    }

    /** `*nextp = d`. */
    method Record(id: nat, c: Byte, d: nat)
      requires Valid() && id in Ids(tree) && d in Ids(tree) && id < |heap| && d < |heap|
      requires IsNext(m, arrange, heap[id].l, c, heap[d].l)
      modifies this`heap
      ensures Valid() && Lives() == old(Lives())
      ensures |old(heap)[id].next| == 256
      ensures heap == old(heap)[id := old(heap)[id].(next := old(heap)[id].next[c as int := At(d)])]
    {
      hide Finished, IsTree, IsFreeList, Ordered, Partition, Simulator.Valid, IsNext, GoodStates;
      ghost var h := heap;
      GoodRecorded(m, arrange, start, heap, Ids(tree), id, c, d);
      heap := heap[id := heap[id].(next := heap[id].next[c as int := At(d)])];
      StructureKept(h, heap, alldstates, tree, freelist, free);
    }

    /** dstate: the cached state for a list, made if needed; the cache is flushed first when it is full. */
    method DStateOf(list: seq<nat>, nextp: Option<(nat, Byte)>) returns (d: nat)
      requires Valid() && Distinct(list) && exists w: Text :: Elems(list) == After(m, To(start), w)
      requires nextp.Some? ==> IsStep(nextp.value.0, nextp.value.1, arrange(list))
      modifies this
      ensures Valid() && Lives() == Requested(maxstates, old(Lives()), arrange(list))
      ensures d in Ids(tree) && d < |heap| && heap[d].l == arrange(list) && Elems(heap[d].l) == Elems(list)
      ensures arrange(list) in old(Lives()) ==> heap == old(heap) && tree == old(tree)
      ensures arrange(list) !in old(Lives()) && old(nstates) < maxstates ==>
                Installed(old(heap), old(Ids(tree)), heap, Ids(tree), d, nextp)
      ensures arrange(list) !in old(Lives()) && old(nstates) >= maxstates ==>
                Ids(tree) == [d] && heap[d].next == NoNext()
      ensures Remembered() == Ask(maxstates, old(Remembered()).(computed := old(sim.listid) - 1), old(From(nextp)),
                                  arrange(list))
    {
      hide Finished, IsPlace, IsTree, IsFreeList, Ordered, Partition, Simulator.Valid, GoodNext, After, IsNext,
           ListsOf, GoodStates, Arranges, Elems, Requested, Installed, StepsOf, Ask, NoNext;
      var l := QSort(list, arrange);
      RequestedCases(maxstates, Lives(), l);
      LivesCount();
      AskCases(maxstates, Remembered().(computed := sim.listid - 1), From(nextp), l);
      var dp, found, place := Search(l);
      if found.At? {
        LiveList(found.id);
        return found.id;
      }
      d := NewDState(l, dp, nextp, place);
    }

    /** A state for a list that has none. */
    method NewDState(l: seq<nat>, dp: Link, nextp: Option<(nat, Byte)>, ghost place: Place) returns (d: nat)
      requires Valid() && l !in Lives()
      requires Plug(place, Leaf) == tree && IsPlace(heap, place, Nil, alldstates) && dp == LinkOf(place)
      requires forall id <- Before(place) :: id < |heap| && Compare(heap[id].l, l) < 0
      requires forall id <- Behind(place) :: id < |heap| && Compare(l, heap[id].l) < 0
      requires GoodList(m, start, l)
      requires nextp.Some? ==> IsStep(nextp.value.0, nextp.value.1, l)
      modifies this
      ensures Valid() && d in Ids(tree) && d < |heap| && heap[d].l == l
      ensures Lives() == (if old(nstates) < maxstates then old(Lives()) else {}) + {l}
      ensures old(nstates) < maxstates ==> Installed(old(heap), old(Ids(tree)), heap, Ids(tree), d, nextp)
      ensures old(nstates) >= maxstates ==> Ids(tree) == [d] && heap[d].next == NoNext()
      ensures StepsOf(heap, Ids(tree)) ==
              if old(nstates) >= maxstates then {}
              else old(StepsOf(heap, Ids(tree))) + if nextp.Some? then {old(From(nextp)).value} else {}
    {
      hide Finished, IsPlace, IsTree, IsFreeList, Ordered, Partition, Simulator.Valid, GoodNext, GoodList, IsNext,
           ListsOf, GoodStates, Installed, StepsOf, Plug, Compare, NoNext;
      var dp', nextp' := dp, nextp;
      ghost var place' := place;
      ghost var h, ids, flush := heap, Ids(tree), nstates >= maxstates;
      Lengths();
      if nstates >= maxstates {
        FreeCache();
        NothingCached(m, arrange, start, heap, alldstates);
        dp', nextp', place' := Root, None, Top;
        h, ids := heap, [];
      }
      d := Install(l, dp', nextp', place');
      Lengths();
      if flush {
        LivesCount();
        assert |{} + {l}| == 1;
        StepsAlone(h, heap, Ids(tree), d);
      } else {
        StepsInstalled(h, ids, heap, Ids(tree), d, nextp);
      }
    }

    lemma Lengths()
      requires Valid()
      ensures forall id <- Ids(tree) :: id < |heap| && |heap[id].next| == 256
    {
    }

    /** The step given, by its list. */
    ghost function From(nextp: Option<(nat, Byte)>): Option<(seq<nat>, Byte)>
      requires nextp.Some? ==> nextp.value.0 < |heap|
      reads this
    {
      if nextp.None? then None else Some((heap[nextp.value.0].l, nextp.value.1))
    }

    lemma LivesCount()
      requires Structure()
      ensures |Lives()| == nstates
    {
      ListsCount(heap, Ids(tree));
    }

    lemma LiveList(id: nat)
      requires Structure() && id in Ids(tree)
      ensures id < |heap| && heap[id].l in Lives()
    {
    }

    method StartDState() returns (d: nat)
      requires Valid()
      modifies this, sim
      ensures Valid() && Lives() == Requested(maxstates, old(Lives()), Current(m, arrange, start, []))
      ensures d in Ids(tree) && d < |heap| && Elems(heap[d].l) == After(m, To(start), [])
      ensures heap[d].l == Current(m, arrange, start, [])
      ensures Remembered() == Ask(maxstates, old(Remembered()), None, Current(m, arrange, start, []))
    {
      hide Finished, IsPlace, IsTree, IsFreeList, Ordered, Partition, GoodNext, After;
      FinishedClosed(m, r, start);
      var l := sim.StartList(start);
      d := DStateOf(l, None);
    }

    method NextState(d: nat, c: Byte) returns (next: nat)
      requires Valid() && d in Ids(tree) && d < |heap|
      modifies this, sim
      ensures Valid() && Lives() == Requested(maxstates, old(Lives()), arrange(NextList(m, old(heap)[d].l, c)))
      ensures next in Ids(tree) && next < |heap| && IsNext(m, arrange, old(heap)[d].l, c, heap[next].l)
      ensures var l := arrange(NextList(m, old(heap)[d].l, c));
              if l in old(Lives()) then heap == old(heap) && tree == old(tree)
              else if old(nstates) < maxstates then
                Installed(old(heap), old(Ids(tree)), heap, Ids(tree), next, Some((d, c)))
              else Ids(tree) == [next] && heap[next].next == NoNext()
      ensures Remembered() == Ask(maxstates, old(Remembered()), Some((old(heap)[d].l, c)), heap[next].l)
    {
      hide Finished, IsPlace, IsTree, IsFreeList, Ordered, Partition, GoodNext, StepSet;
      ghost var w: Text :| Elems(heap[d].l) == After(m, To(start), w);
      assert forall q <- heap[d].l :: q in Elems(heap[d].l);
      hide After;
      var l := sim.Step(heap[d].l, c);
      AfterStep(m, To(start), w, c);
      Rearranged(l, arrange(l));
      next := DStateOf(l, Some((d, c)));
    }

    /** Running the DFA answers what the NFA does, whatever was cached, flushed and recycled before or in between.
        The live states are those of the lists requested on the way, as the bound lets them stay. */
    method Match(s: Text) returns (r: bool)
      requires Valid()
      modifies this, sim
      ensures Valid() && Lives() == Reading(m, arrange, start, maxstates, old(Lives()), s)
      ensures Remembered() == Remembers(m, arrange, start, maxstates, old(Remembered()), s)
      ensures r <==> Reaches(m, To(start), s, MATCH_ID)
    {
      hide Finished, ListsOf, Cache.Structure, Cache.Engine, GoodStates, Current, Reading, Elems, After, NextList,
           IsNext, Requested, Remembers, Take, Ask, StepsOf, Installed, NoNext;
      var d := StartDState();
      var i := 0;
      assert s[..0] == [];
      ReadingNone(m, arrange, start, maxstates, old(Lives()));
      RemembersNone(m, arrange, start, maxstates, old(Remembered()));
      while i < |s|
        invariant 0 <= i <= |s| && Valid()
        invariant d in Ids(tree) && d < |heap| && Elems(heap[d].l) == After(m, To(start), s[..i])
        invariant heap[d].l == Current(m, arrange, start, s[..i])
        invariant Lives() == Reading(m, arrange, start, maxstates, old(Lives()), s[..i])
        invariant Remembered() == Remembers(m, arrange, start, maxstates, old(Remembered()), s[..i])
      {
        var c := s[i];
        CachedStep(d, c);
        var next := heap[d].next[c as int];
        ghost var l := heap[d].l;
        assert s[..i + 1] == s[..i] + [c];
        ReadingMore(m, arrange, start, maxstates, old(Lives()), s[..i], c);
        RemembersMore(m, arrange, start, maxstates, old(Remembered()), s[..i], c);
        StepKnown(d, c);
        TakeCases(maxstates, Remembered(), l, c, Current(m, arrange, start, s[..i + 1]));
        if next == Nil {
          d := NextState(d, c);
        } else {
          RequestedCases(maxstates, Lives(), heap[next.id].l);
          d := next.id;
        }
        NextOf(l, heap[d].l, s[..i], c);
        i := i + 1;
      }
      assert s[..i] == s;
      r := sim.IsMatch(heap[d].l);
      Matching(heap[d].l, s);
    }

    /** No two live lists are for one set exactly when no two live states are. */
    lemma TwinStates()
      requires Structure()
      ensures NoTwins(Lives()) <==>
              forall i, j :: i in Ids(tree) && j in Ids(tree) && Elems(heap[i].l) == Elems(heap[j].l) ==> i == j
    {
      hide IsTree, IsFreeList, Partition, Elems, Compare;
      OrderedIds(heap, Ids(tree));
      hide Ordered;
      var ids := Ids(tree);
      forall i, j | i in ids && j in ids && heap[i].l == heap[j].l
        ensures i == j
      {
        var a :| 0 <= a < |ids| && ids[a] == i;
        var b :| 0 <= b < |ids| && ids[b] == j;
        if a != b {
          OrderedApart(heap, ids, a, b);
        }
      }
      if NoTwins(Lives()) {
        forall i, j | i in ids && j in ids && Elems(heap[i].l) == Elems(heap[j].l)
          ensures i == j
        {
          assert heap[i].l in Lives() && heap[j].l in Lives();
          assert !Twins(heap[i].l, heap[j].l);
        }
      }
    }

    /** The arranged step of the list of a text is the list of one character more. */
    lemma NextOf(l: seq<nat>, l2: seq<nat>, w: Text, c: Byte)
      requires l == Current(m, arrange, start, w) && Elems(l) == After(m, To(start), w)
      requires IsNext(m, arrange, l, c, l2)
      ensures l2 == Current(m, arrange, start, w + [c]) && Elems(l2) == After(m, To(start), w + [c])
    {
      hide Current, NextList, StepSet, After;
      AfterStep(m, To(start), w, c);
      ReadingMore(m, arrange, start, maxstates, {}, w, c);
    }

    /** What a cached step is good for. */
    lemma CachedStep(d: nat, c: Byte)
      requires Valid() && d in Ids(tree) && d < |heap|
      ensures |heap[d].next| == 256
      ensures var next := heap[d].next[c as int];
              next.At? ==>
                && next.id in Ids(tree) && next.id < |heap| && heap[next.id].l in Lives()
                && IsNext(m, arrange, heap[d].l, c, heap[next.id].l)
    {
      hide IsNext, Finished, IsTree, IsFreeList, Partition;
      assert heap[d].next[c as int] == Cached(heap, d, c);
    }

    /** A step is recorded in a state exactly if it is remembered for its list, because no other state has that list. */
    lemma StepKnown(d: nat, c: Byte)
      requires Valid() && d in Ids(tree) && d < |heap|
      ensures |heap[d].next| == 256
      ensures (heap[d].l, c) in Remembered().steps <==> heap[d].next[c as int] != Nil
    {
      hide GoodList, GoodNext, Finished, IsTree, IsFreeList, Partition, Compare, Simulator.Valid;
      var ids := Ids(tree);
      assert heap[d].next[c as int] == Cached(heap, d, c);
      forall id <- ids | heap[id].l == heap[d].l
        ensures id == d
      {
        var a :| 0 <= a < |ids| && ids[a] == id;
        var b :| 0 <= b < |ids| && ids[b] == d;
        if a != b {
          OrderedApart(heap, ids, a, b);
        }
      }
    }

    lemma Matching(l: seq<nat>, s: Text)
      requires Engine() && Elems(l) == After(m, To(start), s)
      ensures MATCH_ID in l <==> Reaches(m, To(start), s, MATCH_ID)
    {
      assert MATCH_ID in l <==> MATCH_ID in Elems(l);
    }

    ghost predicate IsStep(id: nat, c: Byte, l: seq<nat>)
      reads this
    {
      id in Ids(tree) && id < |heap| && IsNext(m, arrange, heap[id].l, c, l)
    }

    /** A list of a text fits the nstate entries allocated with a DState. */
    lemma ListRoom(l: seq<nat>)
      requires Engine() && GoodList(m, start, l)
      ensures |l| <= |m| - 1
    {
      var w: Text :| Elems(l) == After(m, To(start), w);
      ListFits(m, r, start, w, l);
    }
  }

  lemma OrderedIds(h: Heap, ids: seq<nat>)
    requires Ordered(h, ids)
    ensures forall id <- ids :: id < |h|
  {
  }

  lemma OrderedApart(h: Heap, ids: seq<nat>, a: nat, b: nat)
    requires Ordered(h, ids) && a < |ids| && b < |ids| && a != b
    ensures ids[a] < |h| && ids[b] < |h| && h[ids[a]].l != h[ids[b]].l
  {
    if a < b {
      assert Compare(h[ids[a]].l, h[ids[b]].l) < 0;
    } else {
      assert Compare(h[ids[b]].l, h[ids[a]].l) < 0;
    }
  }

  lemma FreedTail(x: seq<nat>, y: seq<nat>, z: seq<nat>, id: nat)
    requires id !in x && id !in y && id !in z
    ensures id !in x + (y + z)
    ensures [id] + (x + (y + z)) == [id] + x + y + z
  {
  }

  lemma GoLeft(h: Heap, place: Place, sub: Tree, l: seq<nat>)
    requires sub.Node? && Ordered(h, Ids(Plug(place, sub))) && sub.id < |h| && Compare(l, h[sub.id].l) < 0
    requires forall id <- Behind(place) :: id < |h| && Compare(l, h[id].l) < 0
    ensures forall id <- Behind(InLeft(place, sub.id, sub.right)) :: id < |h| && Compare(l, h[id].l) < 0
  {
    hide Compare, Plug, Before;
    PlugIds(place, sub);
    assert Ids(Plug(place, sub)) == (Before(place) + Ids(sub.left)) + [sub.id] + (Ids(sub.right) + Behind(place));
    OrderedAround(h, Before(place) + Ids(sub.left), sub.id, Ids(sub.right) + Behind(place));
    forall id <- Ids(sub.right)
      ensures id < |h| && Compare(l, h[id].l) < 0
    {
      assert id in Ids(sub.right) + Behind(place);
      CompareTrans(l, h[sub.id].l, h[id].l);
    }
  }

  lemma GoRight(h: Heap, place: Place, sub: Tree, l: seq<nat>)
    requires sub.Node? && Ordered(h, Ids(Plug(place, sub))) && sub.id < |h| && Compare(l, h[sub.id].l) > 0
    requires forall id <- Before(place) :: id < |h| && Compare(h[id].l, l) < 0
    ensures forall id <- Before(InRight(place, sub.left, sub.id)) :: id < |h| && Compare(h[id].l, l) < 0
  {
    hide Compare, Plug, Behind;
    PlugIds(place, sub);
    CompareSwap(l, h[sub.id].l);
    assert Ids(Plug(place, sub)) == (Before(place) + Ids(sub.left)) + [sub.id] + (Ids(sub.right) + Behind(place));
    OrderedAround(h, Before(place) + Ids(sub.left), sub.id, Ids(sub.right) + Behind(place));
    forall id <- Ids(sub.left)
      ensures id < |h| && Compare(h[id].l, l) < 0
    {
      assert id in Before(place) + Ids(sub.left);
      CompareTrans(h[id].l, h[sub.id].l, l);
    }
  }

  /** In ordered states, those before one of them have smaller lists and those after it greater ones. */
  lemma OrderedAround(h: Heap, a: seq<nat>, id: nat, b: seq<nat>)
    requires Ordered(h, a + [id] + b)
    ensures id < |h|
    ensures forall x <- a :: x < |h| && Compare(h[x].l, h[id].l) < 0
    ensures forall x <- b :: x < |h| && Compare(h[id].l, h[x].l) < 0
  {
    hide Compare;
    var all := a + [id] + b;
    assert all[|a|] == id;
    forall x <- a
      ensures x < |h| && Compare(h[x].l, h[id].l) < 0
    {
      var j :| 0 <= j < |a| && a[j] == x;
      assert all[j] == x;
    }
    forall x <- b
      ensures x < |h| && Compare(h[id].l, h[x].l) < 0
    {
      var j :| 0 <= j < |b| && b[j] == x;
      assert all[|a| + 1 + j] == x;
    }
  }

  lemma PartitionApart(h: Heap, live: seq<nat>, free: seq<nat>)
    requires Partition(h, live, free)
    ensures Distinct(live) && Distinct(free)
    ensures (forall id <- live :: id !in free && id < |h|) && forall id <- free :: id < |h|
  {
    var all := live + free;
    assert live == all[..|live|] && free == all[|live|..];
    assert forall i :: 0 <= i < |live| ==> all[i] == live[i];
    assert forall j :: 0 <= j < |free| ==> all[|live| + j] == free[j];
    forall id <- live
      ensures id !in free && id < |h|
    {
      assert id in all;
    }
    forall id <- free
      ensures id < |h|
    {
      assert id in all;
    }
  }

  lemma PartitionFreed(h: Heap, live: seq<nat>, freed: seq<nat>, free: seq<nat>)
    requires Partition(h, live, free) && Distinct(freed + free) && |freed| == |live| && forall id <- freed :: id in live
    ensures Partition(h, [], freed + free)
  {
    assert [] + (freed + free) == freed + free;
    forall id <- freed + free
      ensures id < |h|
    {
      assert id in live + free;
    }
  }

  lemma PartitionTake(h: Heap, live: seq<nat>, free: seq<nat>)
    requires Partition(h, live, free) && free != []
    ensures free[0] < |h| && free[0] !in live && free[0] !in free[1..]
    ensures Partition(h, live + [free[0]], free[1..])
  {
    PartitionApart(h, live, free);
    assert live + [free[0]] + free[1..] == live + free;
    assert free[0] in free;
    forall j | 1 <= j < |free|
      ensures free[j] != free[0]
    {
    }
  }

  lemma PartitionGrow(h: Heap, h2: Heap, live: seq<nat>)
    requires Partition(h, live, []) && |h2| == |h| + 1
    ensures |h| !in live && Partition(h2, live + [|h|], [])
  {
    assert live + [] == live;
    PartitionApart(h, live, []);
    DistinctAppend(live, [|h|]);
    assert live + [|h|] + [] == live + [|h|];
  }

  /** The new state hangs at its place. */
  lemma Hung(h1: Heap, h2: Heap, place: Place, d: nat, root: Ref, root2: Ref)
    requires IsPlace(h1, place, Nil, root) && Distinct(Before(place) + Behind(place))
    requires (LinkOf(place).Root? || LinkOf(place).id < |h1|) && h2 == Stored(h1, LinkOf(place), At(d))
    requires d < |h1| && h1[d].left == Nil && h1[d].right == Nil && d !in Before(place) + Behind(place)
    requires root2 == if place.Top? then At(d) else root
    ensures IsTree(h2, root2, Plug(place, Node(Leaf, d, Leaf)))
  {
    StorePlace(h1, place, Nil, root, At(d));
    if !place.Top? {
      LinkInPlace(place);
    }
    assert h2[d] == h1[d];
    PlugTree(h2, place, At(d), root2, Node(Leaf, d, Leaf));
  }

  /** Hanging a new state at its place keeps the whole structure. */
  lemma HungStructure(h0: Heap, h: Heap, h1: Heap, h2: Heap, place: Place, d: nat, l: seq<nat>, root: Ref, root2: Ref,
                      freelist: Ref, free: seq<nat>)
    requires IsPlace(h0, place, Nil, root) && Ordered(h0, Before(place) + Behind(place))
    requires forall id <- Before(place) :: id < |h0| && Compare(h0[id].l, l) < 0
    requires forall id <- Behind(place) :: id < |h0| && Compare(l, h0[id].l) < 0
    requires |h0| <= |h| && forall id <- Before(place) + Behind(place) :: id < |h0| && h[id] == h0[id]
    requires d < |h| && h[d].left == Nil && h[d].right == Nil && d !in free
    requires IsFreeList(h, freelist, free) && Partition(h, Before(place) + Behind(place) + [d], free)
    requires h1 == h[d := h[d].(l := l)]
    requires (LinkOf(place).Root? || LinkOf(place).id < |h1|) && h2 == Stored(h1, LinkOf(place), At(d))
    requires root2 == if place.Top? then At(d) else root
    ensures IsTree(h2, root2, Plug(place, Node(Leaf, d, Leaf))) && IsFreeList(h2, freelist, free)
    ensures Partition(h2, Before(place) + [d] + Behind(place), free)
    ensures Ordered(h2, Before(place) + [d] + Behind(place))
    ensures h2[d].l == l && h2[d].next == h[d].next
    ensures forall id <- Before(place) + Behind(place) :: h2[id].l == h0[id].l && h2[id].next == h0[id].next
  {
    hide IsPlace, IsTree, IsFreeList, Ordered, Partition, Before, Behind, Compare;
    var live := Before(place) + Behind(place);
    PartitionApart(h, live + [d], free);
    DistinctSplit(live, [d]);
    assert d !in live by {
      assert d in [d];
    }
    assert forall id <- live :: id in live + [d];
    FreeListKept(h, h1, freelist, free);
    PlaceKept(h0, h1, place, Nil, root);
    Hung(h1, h2, place, d, root, root2);
    FreeUntouched(h1, h2, freelist, free, live, place, d);
    PartitionPlaced(h, h2, Before(place), d, Behind(place), free);
    OrderedPlaced(h0, h2, Before(place), d, Behind(place), l);
  }

  lemma NotListed(h: Heap, before: seq<nat>, behind: seq<nat>, l: seq<nat>)
    requires forall id <- before + behind :: id < |h|
    requires forall id <- before :: id < |h| && Compare(h[id].l, l) < 0
    requires forall id <- behind :: id < |h| && Compare(l, h[id].l) < 0
    ensures l !in ListsOf(h, before + behind)
  {
  }

  lemma ListsPlaced(h0: Heap, h: Heap, before: seq<nat>, d: nat, behind: seq<nat>, l: seq<nat>)
    requires forall id <- before + behind :: id < |h0| && id < |h| && h[id].l == h0[id].l
    requires d < |h| && h[d].l == l && forall id <- before + [d] + behind :: id < |h|
    ensures ListsOf(h, before + [d] + behind) == ListsOf(h0, before + behind) + {l}
  {
    var was, now := before + behind, before + [d] + behind;
    assert forall id :: id in now <==> id in was || id == d;
  }

  lemma LinkInPlace(place: Place)
    requires !place.Top?
    ensures LinkOf(place).id in Before(place) + Behind(place)
  {
    if place.InLeft? {
      assert place.id in Behind(place);
    } else {
      assert place.id in Before(place);
    }
  }

  /** The freelist is not touched by changes to live states. */
  lemma FreeUntouched(h1: Heap, h2: Heap, freelist: Ref, free: seq<nat>, live: seq<nat>, place: Place, d: nat)
    requires IsFreeList(h1, freelist, free) && live == Before(place) + Behind(place)
    requires forall id <- live :: id !in free
    requires (LinkOf(place).Root? || LinkOf(place).id < |h1|) && h2 == Stored(h1, LinkOf(place), At(d))
    ensures IsFreeList(h2, freelist, free)
  {
    if !place.Top? {
      LinkInPlace(place);
    }
    FreeListKept(h1, h2, freelist, free);
  }

  lemma StructureKept(h: Heap, h2: Heap, alldstates: Ref, tree: Tree, freelist: Ref, free: seq<nat>)
    requires |h| == |h2|
    requires forall i :: 0 <= i < |h| ==> h2[i].l == h[i].l && h2[i].left == h[i].left && h2[i].right == h[i].right
    requires IsTree(h, alldstates, tree) && IsFreeList(h, freelist, free)
    requires Partition(h, Ids(tree), free) && Ordered(h, Ids(tree))
    ensures IsTree(h2, alldstates, tree) && IsFreeList(h2, freelist, free)
    ensures Partition(h2, Ids(tree), free) && Ordered(h2, Ids(tree))
  {
    TreeKept(h, h2, alldstates, tree);
    FreeListKept(h, h2, freelist, free);
  }

  lemma PartitionPlaced(h: Heap, h2: Heap, before: seq<nat>, d: nat, behind: seq<nat>, free: seq<nat>)
    requires Partition(h, before + behind + [d], free) && |h2| == |h|
    ensures Partition(h2, before + [d] + behind, free)
  {
    PartitionApart(h, before + behind + [d], free);
    var all := before + behind + [d];
    assert all[|all| - 1] == d && all[..|all| - 1] == before + behind;
    assert Distinct(before + behind) && d !in before + behind;
    DistinctSplit(before, behind);
    DistinctAppend([d], behind);
    DistinctAppend(before, [d] + behind);
    assert before + [d] + behind == before + ([d] + behind);
    DistinctAppend(before + [d] + behind, free);
    forall id <- before + [d] + behind + free
      ensures id < |h|
    {
      assert id in before + behind + [d] + free;
    }
  }

  lemma DistinctSplit(x: seq<nat>, y: seq<nat>)
    requires Distinct(x + y)
    ensures Distinct(x) && Distinct(y) && forall i <- x :: i !in y
  {
    var all := x + y;
    assert x == all[..|x|] && y == all[|x|..];
    forall i <- x
      ensures i !in y
    {
      var k :| 0 <= k < |x| && x[k] == i;
      assert all[k] == i;
      assert forall j :: 0 <= j < |y| ==> y[j] == all[|x| + j];
    }
  }

  lemma OrderedPlaced(h0: Heap, h: Heap, before: seq<nat>, d: nat, behind: seq<nat>, l: seq<nat>)
    requires Ordered(h0, before + behind) && d < |h| && h[d].l == l && |h0| <= |h|
    requires forall id <- before + behind :: id < |h0| && h[id].l == h0[id].l
    requires forall id <- before :: id < |h0| && Compare(h0[id].l, l) < 0
    requires forall id <- behind :: id < |h0| && Compare(l, h0[id].l) < 0
    ensures Ordered(h, before + [d] + behind)
  {
    var was, now := before + behind, before + [d] + behind;
    var k := |before|;
    forall i | 0 <= i < |now|
      ensures now[i] < |h|
    {
      assert i != k ==> now[i] in was;
    }
    forall i, j | 0 <= i < j < |now|
      ensures Compare(h[now[i]].l, h[now[j]].l) < 0
    {
      if i == k {
        assert now[j] == behind[j - k - 1] && now[j] in behind && now[j] in was;
      } else if j == k {
        assert now[i] == before[i] && now[i] in before && now[i] in was;
      } else {
        var i2, j2 := if i < k then i else i - 1, if j < k then j else j - 1;
        assert now[i] == was[i2] && now[j] == was[j2];
        assert was[i2] in was && was[j2] in was;
      }
    }
  }

  /** The cached steps stay right when a state is added. */
  lemma GoodPlaced(m: Memory, arrange: Arrangement, start: nat, h0: Heap, h: Heap, live0: seq<nat>, live: seq<nat>,
                   d: nat, l: seq<nat>)
    requires GoodStates(m, arrange, start, h0, live0) && |h0| <= |h| && d < |h|
    requires forall id :: id in live <==> id in live0 || id == d
    requires GoodList(m, start, l) && h[d].l == l && h[d].next == NoNext() && d !in live0
    requires forall id <- live0 :: id < |h0| && h[id].l == h0[id].l && h[id].next == h0[id].next
    ensures GoodStates(m, arrange, start, h, live)
  {
    hide GoodList, IsNext;
    forall id <- live
      ensures id < |h| && |h[id].next| == 256 && GoodList(m, start, h[id].l) && GoodNext(m, arrange, h, live, id)
    {
      if id != d {
        assert GoodNext(m, arrange, h0, live0, id);
        forall c: Byte | Cached(h, id, c).At?
          ensures var j := Cached(h, id, c).id;
                  j in live && j < |h| && IsNext(m, arrange, h[id].l, c, h[j].l)
        {
          assert Cached(h, id, c) == Cached(h0, id, c);
        }
      }
    }
  }

  /** They stay right when a step is recorded. */
  lemma GoodRecorded(m: Memory, arrange: Arrangement, start: nat, h: Heap, live: seq<nat>, id: nat, c: Byte, d: nat)
    requires GoodStates(m, arrange, start, h, live) && id in live && d in live && id < |h| && d < |h|
    requires IsNext(m, arrange, h[id].l, c, h[d].l)
    ensures |h[id].next| == 256
    ensures GoodStates(m, arrange, start, h[id := h[id].(next := h[id].next[c as int := At(d)])], live)
  {
    hide GoodList, IsNext;
    var h2 := h[id := h[id].(next := h[id].next[c as int := At(d)])];
    forall i <- live
      ensures i < |h2| && |h2[i].next| == 256 && GoodList(m, start, h2[i].l) && GoodNext(m, arrange, h2, live, i)
    {
      assert GoodNext(m, arrange, h, live, i);
      forall b: Byte | Cached(h2, i, b).At?
        ensures var j := Cached(h2, i, b).id;
                j in live && j < |h2| && IsNext(m, arrange, h2[i].l, b, h2[j].l)
      {
        if i != id || b != c {
          assert Cached(h2, i, b) == Cached(h, i, b);
        } else {
          assert Cached(h2, i, b) == At(d);
        }
      }
    }
  }

  /** A new state is among the live ones, without recorded steps; every other has the steps it had, and the one
      given has one more, to the new state. */
  ghost predicate Installed(h0: Heap, ids0: seq<nat>, h: Heap, ids: seq<nat>, d: nat, nextp: Option<(nat, Byte)>) {
    && d !in ids0 && d < |h| && h[d].next == NoNext()
    && (forall id :: id in ids <==> id in ids0 || id == d)
    && (forall id <- ids0 :: id < |h0| && id < |h| && |h0[id].next| == 256)
    && (forall id <- ids0 :: id < |h0| && id < |h| ==> h[id].l == h0[id].l)
    && (forall id <- ids0 :: id < |h0| && id < |h| ==> h[id].next == Stepped(h0[id].next, id, nextp, d))
  }

  /** The steps of a state after `*nextp = d`. */
  function Stepped(next: seq<Ref>, id: nat, nextp: Option<(nat, Byte)>, d: nat): seq<Ref> {
    if nextp.Some? && nextp.value.0 == id && nextp.value.1 as int < |next| then next[nextp.value.1 as int := At(d)]
    else next
  }

  lemma StepsInstalled(h0: Heap, ids0: seq<nat>, h: Heap, ids: seq<nat>, d: nat, nextp: Option<(nat, Byte)>)
    requires Installed(h0, ids0, h, ids, d, nextp) && (forall id <- ids :: id < |h| && |h[id].next| == 256)
    requires nextp.Some? ==> nextp.value.0 in ids0
    ensures forall id <- ids0 :: id < |h0| && |h0[id].next| == 256
    ensures StepsOf(h, ids) ==
            StepsOf(h0, ids0) + if nextp.Some? then {(h0[nextp.value.0].l, nextp.value.1)} else {}
  {
    var more := if nextp.Some? then {(h0[nextp.value.0].l, nextp.value.1)} else {};
    forall id, c: Byte | id in ids && Cached(h, id, c).At?
      ensures (h[id].l, c) in StepsOf(h0, ids0) + more
    {
      if nextp.None? || nextp.value != (id, c) {
        assert id in ids0 && Cached(h0, id, c) == Cached(h, id, c);
      }
    }
    forall id, c: Byte | id in ids0 && Cached(h0, id, c).At?
      ensures (h0[id].l, c) in StepsOf(h, ids)
    {
      assert id in ids && Cached(h, id, c).At?;
    }
    if nextp.Some? {
      var (id, c) := nextp.value;
      assert id in ids && Cached(h, id, c) == At(d);
    }
  }

  /** A single state without recorded steps. */
  lemma StepsAlone(h0: Heap, h: Heap, ids: seq<nat>, d: nat)
    requires |ids| == 1 && d in ids && Installed(h0, [], h, ids, d, None)
    ensures ids == [d] && d < |h| && h[d].next == NoNext() && StepsOf(h, ids) == {}
  {
    assert forall c: Byte :: Cached(h, d, c) == Nil;
  }

  lemma InstalledNow(m: Memory, arrange: Arrangement, start: nat, h0: Heap, h: Heap, before: seq<nat>, d: nat,
                     behind: seq<nat>)
    requires GoodStates(m, arrange, start, h0, before + behind)
    requires d !in before + behind && d < |h| && h[d].next == NoNext()
    requires forall id <- before + behind ::
               id < |h0| && id < |h| && h[id].l == h0[id].l && h[id].next == h0[id].next
    ensures Installed(h0, before + behind, h, before + [d] + behind, d, None)
  {
    hide GoodList, GoodNext;
    assert forall id :: id in before + [d] + behind <==> id in before + behind || id == d;
  }

  lemma InstalledStep(h0: Heap, ids0: seq<nat>, h: Heap, h2: Heap, ids: seq<nat>, d: nat, id: nat, c: Byte)
    requires Installed(h0, ids0, h, ids, d, None) && id in ids0 && id < |h| && |h[id].next| == 256
    requires h2 == h[id := h[id].(next := h[id].next[c as int := At(d)])]
    ensures Installed(h0, ids0, h2, ids, d, Some((id, c)))
  {
  }

  /** An empty cache promises nothing. */
  lemma NothingCached(m: Memory, arrange: Arrangement, start: nat, h: Heap, root: Ref)
    requires IsTree(h, root, Leaf)
    ensures GoodStates(m, arrange, start, h, Ids(Leaf))
    ensures Plug(Top, Leaf) == Leaf && IsPlace(h, Top, Nil, root) && LinkOf(Top) == Root
    ensures Before(Top) == [] && Behind(Top) == []
  {
  }
}
