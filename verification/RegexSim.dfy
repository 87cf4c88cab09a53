/** Running an NFA by marking the states of the current list (startlist, addstate, step, ismatch, match in nfa.c). */
module RegexSim {
  import opened Basics
  import opened RegexLang
  import opened RegexNfa

  ghost predicate ArrowOk(m: Memory, p: Ptr) {
    p.Null? || (p.To? && p.id < |m|)
  }

  /** No arrow that the simulation follows is dangling. */
  ghost predicate Closed(m: Memory) {
    && |m| > 0 && m[MATCH_ID] == MATCH_STATE
    && forall i :: 0 <= i < |m| ==> ArrowOk(m, m[i].out) && (m[i].c == SPLIT ==> ArrowOk(m, m[i].out1))
  }

  lemma {:induction false} PatchedClosed(m: Memory, r: Regex, lo: nat, x: Ptr, i: nat)
    requires Patched(m, r, lo, x) && x.To? && x.id < |m|
    requires lo <= i < lo + Size(r)
    ensures i < |m| && ArrowOk(m, m[i].out) && (m[i].c == SPLIT ==> ArrowOk(m, m[i].out1))
    ensures m[i].c != MATCH
    decreases r, 1
  {
    hide Patched, Fragment, Loop, Exits;
    match r
    case Lit(c) => PatchedLit(m, c, lo, x);
    case Cat(a, b) =>
      PatchedCat(m, a, b, lo, x);
      StartWithin(m, b, lo + Size(a), x);
      PairClosed(m, r, a, b, lo, To(StartOf(b, lo + Size(a))), x, i);
    case Alt(a, b) =>
      PatchedAlt(m, a, b, lo, x);
      StartWithin(m, a, lo, x);
      StartWithin(m, b, lo + Size(a), x);
      if i < lo + Size(a) + Size(b) {
        PairClosed(m, r, a, b, lo, x, x, i);
      }
    case Quest(a) =>
      PatchedQuest(m, a, lo, x);
      StartWithin(m, a, lo, x);
      if i < lo + Size(a) {
        PatchedClosed(m, a, lo, x, i);
      }
    case Star(a) =>
      PatchedStar(m, a, lo, x);
      LoopClosed(m, a, lo, StartOf(r, lo), x, i);
    case Plus(a) =>
      PatchedPlus(m, a, lo, x);
      LoopClosed(m, a, lo, lo + Size(a), x, i);
  }

  lemma {:induction false} PairClosed(m: Memory, r: Regex, a: Regex, b: Regex, lo: nat, x: Ptr, y: Ptr, i: nat)
    requires Patched(m, a, lo, x) && x.To? && x.id < |m|
    requires Patched(m, b, lo + Size(a), y) && y.To? && y.id < |m|
    requires r == Cat(a, b) || r == Alt(a, b)
    requires lo <= i < lo + Size(a) + Size(b)
    ensures i < |m| && ArrowOk(m, m[i].out) && (m[i].c == SPLIT ==> ArrowOk(m, m[i].out1))
    ensures m[i].c != MATCH
    decreases r, 0
  {
    if i < lo + Size(a) {
      PatchedClosed(m, a, lo, x, i);
    } else {
      PatchedClosed(m, b, lo + Size(a), y, i);
    }
  }

  lemma {:induction false} LoopClosed(m: Memory, a: Regex, lo: nat, s: nat, x: Ptr, i: nat)
    requires Loop(m, a, lo, s, x) && x.To? && x.id < |m|
    requires lo <= i <= s == lo + Size(a)
    ensures i < |m| && ArrowOk(m, m[i].out) && (m[i].c == SPLIT ==> ArrowOk(m, m[i].out1))
    ensures m[i].c != MATCH
    decreases a, 2
  {
    LoopPatched(m, a, lo, s, x);
    StartWithin(m, a, lo, To(s));
    if i < s {
      PatchedClosed(m, a, lo, To(s), i);
    }
  }

  lemma StartWithin(m: Memory, r: Regex, lo: nat, x: Ptr)
    requires Patched(m, r, lo, x)
    ensures StartOf(r, lo) < |m| && lo + Size(r) <= |m|
  {
  }

  lemma FinishedClosed(m: Memory, r: Regex, start: nat)
    requires Finished(m, r, start)
    ensures Closed(m) && start < |m|
  {
    hide Patched;
    forall i | 0 <= i < |m|
      ensures ArrowOk(m, m[i].out) && (m[i].c == SPLIT ==> ArrowOk(m, m[i].out1))
    {
      if i > 0 {
        PatchedClosed(m, r, 1, To(MATCH_ID), i);
      }
    }
  }

  // ----- sets of states -----

  /** The states on a list. */
  ghost function Elems(l: seq<nat>): set<nat> {
    set q | q in l
  }

  /** The states other than splits that reading w from p leads to. */
  ghost function After(m: Memory, p: Ptr, w: Text): set<nat> {
    set q: nat | q < |m| && m[q].c != SPLIT && Reaches(m, p, w, q)
  }

  /** The states other than splits to which states of s lead by an arrow labelled c and then unlabelled ones. */
  ghost function StepSet(m: Memory, s: set<nat>, c: Byte): set<nat> {
    set q: nat | q < |m| && m[q].c != SPLIT && exists p <- s :: StepReaches(m, p, c, q)
  }

  ghost predicate StepReaches(m: Memory, p: nat, c: Byte, q: nat) {
    p < |m| && m[p].c == c as int && Reaches(m, m[p].out, [], q)
  }

  lemma {:induction false} WalkThen(m: Memory, p: Ptr, u: Text, q: nat, n: nat, v: Text, x: nat, n2: nat)
    requires Walk(m, p, u, q, n) && Walk(m, To(q), v, x, n2)
    ensures Walk(m, p, u + v, x, n + n2)
    decreases n
  {
    if n == 0 {
      assert u + v == v;
    } else if m[p.id].c == SPLIT {
      if Walk(m, m[p.id].out, u, q, n - 1) {
        WalkThen(m, m[p.id].out, u, q, n - 1, v, x, n2);
      } else {
        WalkThen(m, m[p.id].out1, u, q, n - 1, v, x, n2);
      }
    } else {
      assert (u + v)[1..] == u[1..] + v;
      WalkThen(m, m[p.id].out, u[1..], q, n - 1, v, x, n2);
    }
  }

  /** A walk that reads w and one more character passes a state with that label. */
  lemma {:induction false} WalkLast(m: Memory, p: Ptr, w: Text, c: Byte, q: nat, n: nat) returns (s: nat)
    requires Walk(m, p, w + [c], q, n)
    ensures s < |m| && m[s].c != SPLIT && Reaches(m, p, w, s) && StepReaches(m, s, c, q)
    decreases n
  {
    if m[p.id].c == SPLIT {
      var next := if Walk(m, m[p.id].out, w + [c], q, n - 1) then m[p.id].out else m[p.id].out1;
      s := WalkLast(m, next, w, c, q, n - 1);
      var k: nat :| Walk(m, next, w, s, k);
      assert Walk(m, p, w, s, k + 1);
    } else if w == [] {
      s := p.id;
      assert (w + [c])[1..] == [];
      assert Walk(m, p, [], s, 0);
      assert Walk(m, m[s].out, [], q, n - 1);
    } else {
      assert (w + [c])[1..] == w[1..] + [c];
      s := WalkLast(m, m[p.id].out, w[1..], c, q, n - 1);
      var k: nat :| Walk(m, m[p.id].out, w[1..], s, k);
      assert Walk(m, p, w, s, k + 1);
    }
  }

  /** Stepping the states reached by w on c gives the states reached by w and c. */
  lemma {:induction false} AfterStep(m: Memory, p: Ptr, w: Text, c: Byte)
    ensures StepSet(m, After(m, p, w), c) == After(m, p, w + [c])
  {
    forall q: nat | q < |m| && m[q].c != SPLIT
      ensures q in StepSet(m, After(m, p, w), c) <==> q in After(m, p, w + [c])
    {
      if q in StepSet(m, After(m, p, w), c) {
        var s :| s in After(m, p, w) && StepReaches(m, s, c, q);
        var n: nat :| Walk(m, p, w, s, n);
        var n2: nat :| Walk(m, m[s].out, [], q, n2);
        assert [c][1..] == [];
        assert Walk(m, To(s), [c], q, n2 + 1);
        WalkThen(m, p, w, s, n, [c], q, n2 + 1);
      }
      if Reaches(m, p, w + [c], q) {
        var n: nat :| Walk(m, p, w + [c], q, n);
        var s := WalkLast(m, p, w, c, q, n);
        assert s in After(m, p, w);
      }
    }
  }

  // ----- how long a list gets -----

  lemma {:induction false} DistinctBound(l: seq<nat>, s: set<nat>)
    requires Distinct(l) && forall i :: 0 <= i < |l| ==> l[i] in s
    ensures |l| <= |s|
    decreases |l|
  {
    if l != [] {
      var last := l[|l| - 1];
      DistinctBound(l[..|l| - 1], s - {last});
    }
  }

  function Below(n: nat): (s: set<nat>)
    ensures |s| == n && forall i: nat :: i in s <==> i < n
  {
    if n == 0 then {} else Below(n - 1) + {n - 1}
  }

  ghost predicate NoSplits(m: Memory) {
    forall i :: 0 <= i < |m| ==> m[i].c != SPLIT
  }

  /** Without splits, a text leads to at most one state. */
  lemma {:induction false} NoSplitsUnique(m: Memory, p: Ptr, w: Text, q: nat, n: nat, q2: nat, n2: nat)
    requires NoSplits(m) && Walk(m, p, w, q, n) && Walk(m, p, w, q2, n2)
    ensures q == q2
    decreases n
  {
    if n > 0 && n2 > 0 {
      NoSplitsUnique(m, m[p.id].out, w[1..], q, n - 1, q2, n2 - 1);
    }
  }

  /** A list of the simulation has room in nstate entries, although the matching state is not counted in nstate:
      where a split exists it is never listed, and without splits a list has one entry at most. */
  lemma ListFits(m: Memory, r: Regex, start: nat, w: Text, l: seq<nat>)
    requires Finished(m, r, start) && Distinct(l) && Elems(l) == After(m, To(start), w)
    ensures |l| <= |m| - 1
  {
    forall i | 0 <= i < |l|
      ensures l[i] in After(m, To(start), w)
    {
      assert l[i] in Elems(l);
    }
    if NoSplits(m) {
      if |l| > 1 {
        var n: nat :| Walk(m, To(start), w, l[0], n);
        var n2: nat :| Walk(m, To(start), w, l[1], n2);
        NoSplitsUnique(m, To(start), w, l[0], n, l[1], n2);
        assert false;
      }
    } else {
      var s :| 0 <= s < |m| && m[s].c == SPLIT;
      DistinctBound(l, Below(|m|) - {s});
    }
  }

  // ----- marking -----

  /** Whatever is marked and a split has its successors marked, except in `open`. */
  ghost predicate MarkedClosed(m: Memory, marks: set<nat>, open: set<nat>) {
    forall q <- marks - open :: q < |m| && m[q].c == SPLIT ==>
      (m[q].out.To? ==> m[q].out.id in marks) && (m[q].out1.To? ==> m[q].out1.id in marks)
  }

  /** A closed set of marks holds all that unlabelled arrows reach. */
  lemma {:induction false} ClosedReaches(m: Memory, marks: set<nat>, p: nat, q: nat, n: nat)
    requires MarkedClosed(m, marks, {}) && p in marks && Walk(m, To(p), [], q, n)
    ensures q in marks
    decreases n
  {
    if n > 0 {
      assert p in marks - {};
      if Walk(m, m[p].out, [], q, n - 1) {
        ClosedReaches(m, marks, m[p].out.id, q, n - 1);
      } else {
        ClosedReaches(m, marks, m[p].out1.id, q, n - 1);
      }
    }
  }

  lemma ReachesSplit(m: Memory, p: nat, next: Ptr, q: nat)
    requires p < |m| && m[p].c == SPLIT && (next == m[p].out || next == m[p].out1) && Reaches(m, next, [], q)
    ensures Reaches(m, To(p), [], q)
  {
    var n: nat :| Walk(m, next, [], q, n);
    assert Walk(m, To(p), [], q, n + 1);
  }

  /** The list holds the marked states that are not splits, once each. */
  ghost predicate Lists(m: Memory, l: seq<nat>, marks: set<nat>) {
    && Distinct(l)
    && forall q :: q in l <==> q in marks && q < |m| && m[q].c != SPLIT
  }

  lemma ClosedAgain(m: Memory, marks: set<nat>, marks2: set<nat>)
    requires MarkedClosed(m, marks, {}) && MarkedClosed(m, marks2, marks) && marks <= marks2
    ensures MarkedClosed(m, marks2, {})
  {
    forall q <- marks2 - {}
      ensures q < |m| && m[q].c == SPLIT ==>
                (m[q].out.To? ==> m[q].out.id in marks2) && (m[q].out1.To? ==> m[q].out1.id in marks2)
    {
      if q in marks {
        assert q in marks - {};
      } else {
        assert q in marks2 - marks;
      }
    }
  }

  /** What is marked after the arrows labelled c of some states have been followed. */
  ghost predicate Stepped(m: Memory, done: seq<nat>, c: Byte, marks: set<nat>) {
    && (forall q <- marks :: exists p <- done :: StepReaches(m, p, c, q))
    && (forall p <- done :: p < |m| && m[p].c == c as int && m[p].out.To? ==> m[p].out.id in marks)
  }

  lemma SteppedMore(m: Memory, done: seq<nat>, s: nat, c: Byte, marks: set<nat>, marks2: set<nat>)
    requires Stepped(m, done, c, marks) && marks <= marks2 && s < |m|
    requires m[s].c != c as int ==> marks2 == marks
    requires m[s].c == c as int ==> forall q <- marks2 - marks :: Reaches(m, m[s].out, [], q)
    requires m[s].c == c as int && m[s].out.To? ==> m[s].out.id in marks2
    ensures Stepped(m, done + [s], c, marks2)
  {
    hide Reaches;
    forall q <- marks2
      ensures exists p <- done + [s] :: StepReaches(m, p, c, q)
    {
      if q in marks {
        var p :| p in done && StepReaches(m, p, c, q);
        assert p in done + [s];
      } else {
        assert q in marks2 - marks;
        assert s in done + [s] && StepReaches(m, s, c, q);
      }
    }
  }

  lemma SteppedAll(m: Memory, clist: seq<nat>, c: Byte, marks: set<nat>, nlist: seq<nat>)
    requires Closed(m) && Stepped(m, clist, c, marks) && MarkedClosed(m, marks, {}) && Lists(m, nlist, marks)
    ensures Elems(nlist) == StepSet(m, Elems(clist), c)
  {
    hide MarkedClosed;
    forall q: nat
      ensures q in nlist <==> q in StepSet(m, Elems(clist), c)
    {
      if q in StepSet(m, Elems(clist), c) {
        var p :| p in clist && StepReaches(m, p, c, q);
        var n: nat :| Walk(m, m[p].out, [], q, n);
        ClosedReaches(m, marks, m[p].out.id, q, n);
      }
      if q in nlist {
        var p :| p in clist && StepReaches(m, p, c, q);
        assert p in Elems(clist);
      }
    }
  }

  lemma NothingStepped(m: Memory, c: Byte)
    ensures Stepped(m, [], c, {}) && MarkedClosed(m, {}, {}) && Lists(m, [], {})
  {
  }

  lemma ArrowsOk(m: Memory, s: nat)
    requires Closed(m) && s < |m|
    ensures ArrowOk(m, m[s].out)
  {
  }

  lemma ListsDistinct(m: Memory, l: seq<nat>, marks: set<nat>)
    requires Lists(m, l, marks)
    ensures Distinct(l)
  {
  }

  // ----- the lists in their order -----

  datatype Marked = Marked(list: seq<nat>, marks: set<nat>)

  /** What addstate makes of a list and the marks: the states that are new are taken depth first, the first arrow of
      a split before the second. */
  function Added(m: Memory, p: Ptr, l: seq<nat>, marks: set<nat>): (r: Marked)
    ensures marks <= r.marks
    decreases Below(|m|) - marks
  {
    if !p.To? || p.id >= |m| || p.id in marks then Marked(l, marks)
    else
      var s, marks1 := p.id, marks + {p.id};
      assert s in Below(|m|) - marks;
      if m[s].c == SPLIT then
        var a := Added(m, m[s].out, l, marks1);
        Added(m, m[s].out1, a.list, a.marks)
      else Marked(l + [s], marks1)
  }

  /** The list that startlist produces. */
  function FirstList(m: Memory, start: nat): seq<nat> {
    Added(m, To(start), [], {}).list
  }

  function Followed(m: Memory, clist: seq<nat>, c: Byte): Marked {
    if clist == [] then Marked([], {})
    else
      var f, s := Followed(m, clist[..|clist| - 1], c), clist[|clist| - 1];
      if s < |m| && m[s].c == c as int then Added(m, m[s].out, f.list, f.marks) else f
  }

  /** The list that step produces. */
  function NextList(m: Memory, clist: seq<nat>, c: Byte): seq<nat> {
    Followed(m, clist, c).list
  }

  lemma FollowedMore(m: Memory, done: seq<nat>, s: nat, c: Byte)
    ensures Followed(m, done + [s], c) ==
            var f := Followed(m, done, c);
            if s < |m| && m[s].c == c as int then Added(m, m[s].out, f.list, f.marks) else f
  {
    assert (done + [s])[..|done|] == done;
  }

  class Simulator {
    const m: Memory
    var lastlist: seq<int>
    var listid: int

    ghost predicate Valid()
      reads this
    {
      && Closed(m)
      && |lastlist| == |m|
      && forall i :: 0 <= i < |m| ==> lastlist[i] <= listid
    }

    ghost function Marks(): set<nat>
      reads this
    {
      set i | 0 <= i < |lastlist| && lastlist[i] == listid
    }

    ghost function Unmarked(): set<nat>
      reads this
    {
      set i | 0 <= i < |lastlist| && lastlist[i] != listid
    }

    constructor (m: Memory)
      requires Closed(m)
      ensures Valid() && this.m == m && listid == 0
    {
      this.m := m;
      lastlist := seq(|m|, _ => 0);
      listid := 0;
    }

    /** Marks what unlabelled arrows reach from p, adding to the list what is new and not a split. */
    method AddState(l: seq<nat>, p: Ptr) returns (l2: seq<nat>)
      requires Valid() && ArrowOk(m, p)
      requires Lists(m, l, Marks())
      modifies this`lastlist
      ensures Valid()
      ensures old(Marks()) <= Marks()
      ensures p.To? ==> p.id in Marks()
      ensures forall q <- Marks() - old(Marks()) :: Reaches(m, p, [], q)
      ensures MarkedClosed(m, Marks(), old(Marks()))
      ensures Lists(m, l2, Marks()) && l <= l2
      ensures Added(m, p, l, old(Marks())) == Marked(l2, Marks())
      decreases Unmarked()
    {
      l2 := l;
      if p == Null || lastlist[p.id] == listid {
        return;
      }
      var s := p.id;
      ghost var marks0, unmarked0 := Marks(), Unmarked();
      assert s in unmarked0;
      lastlist := lastlist[s := listid];
      ghost var marks1 := Marks();
      assert marks1 == marks0 + {s};
      assert Unmarked() == unmarked0 - {s};
      assert Walk(m, p, [], s, 0);
      if m[s].c == SPLIT {
        l2 := AddState(l2, m[s].out);
        ghost var marks2 := Marks();
        forall i <- Unmarked()
          ensures i in unmarked0 - {s}
        {
          assert i !in marks2 && i !in marks1;
        }
        l2 := AddState(l2, m[s].out1);
        ghost var marks3 := Marks();
        forall q <- marks3 - marks0
          ensures Reaches(m, p, [], q)
        {
          if q in marks2 - marks1 {
            ReachesSplit(m, s, m[s].out, q);
          } else if q in marks3 - marks2 {
            ReachesSplit(m, s, m[s].out1, q);
          }
        }
      } else {
        l2 := l2 + [s];
      }
    }

    /** A fresh list: no state is marked. */
    method NewList()
      requires Valid()
      modifies this`listid
      ensures Valid() && Marks() == {} && listid == old(listid) + 1
    {
      listid := listid + 1;
    }

    method StartList(start: nat) returns (l: seq<nat>)
      requires Valid() && start < |m|
      modifies this`lastlist, this`listid
      ensures Valid()
      ensures Distinct(l) && Elems(l) == After(m, To(start), [])
      ensures l == FirstList(m, start) && listid == old(listid) + 1
    {
      NewList();
      l := AddState([], To(start));
      assert Marks() - {} == Marks();
      forall q: nat
        ensures q in l <==> q in After(m, To(start), [])
      {
        if q < |m| && Reaches(m, To(start), [], q) {
          var n: nat :| Walk(m, To(start), [], q, n);
          ClosedReaches(m, Marks(), start, q, n);
        }
      }
    }

    method Step(clist: seq<nat>, c: Byte) returns (nlist: seq<nat>)
      requires Valid() && forall q <- clist :: q < |m|
      modifies this`lastlist, this`listid
      ensures Valid()
      ensures Distinct(nlist) && Elems(nlist) == StepSet(m, Elems(clist), c)
      ensures nlist == NextList(m, clist, c) && listid == old(listid) + 1
    {
      hide Stepped, MarkedClosed, Lists, Closed, Reaches, Added;
      NewList();
      nlist := [];
      NothingStepped(m, c);
      var i := 0;
      while i < |clist|
        invariant 0 <= i <= |clist| && Valid()
        invariant Lists(m, nlist, Marks()) && MarkedClosed(m, Marks(), {}) && Stepped(m, clist[..i], c, Marks())
        invariant Followed(m, clist[..i], c) == Marked(nlist, Marks()) && listid == old(listid) + 1
      {
        var s := clist[i];
        assert s in clist;
        ghost var marks := Marks();
        if m[s].c == c as int {
          ArrowsOk(m, s);
          nlist := AddState(nlist, m[s].out);
          ClosedAgain(m, marks, Marks());
        }
        FollowedMore(m, clist[..i], s, c);
        SteppedMore(m, clist[..i], s, c, marks, Marks());
        assert clist[..i + 1] == clist[..i] + [s];
        i := i + 1;
      }
      assert clist[..i] == clist;
      SteppedAll(m, clist, c, Marks(), nlist);
      ListsDistinct(m, nlist, Marks());
    }

    method IsMatch(l: seq<nat>) returns (r: bool)
      ensures r <==> MATCH_ID in l
    {
      var i := 0;
      while i < |l|
        invariant 0 <= i <= |l|
        invariant MATCH_ID !in l[..i]
      {
        if l[i] == MATCH_ID {
          return true;
        }
        i := i + 1;
      }
      r := false;
    }

    /** The simulation answers yes exactly when the text leads from the start to the matching state. */
    method Match(start: nat, s: Text) returns (r: bool)
      requires Valid() && start < |m|
      modifies this`lastlist, this`listid
      ensures Valid()
      ensures r <==> Reaches(m, To(start), s, MATCH_ID)
    {
      var clist := StartList(start);
      var i := 0;
      while i < |s|
        invariant 0 <= i <= |s| && Valid()
        invariant Elems(clist) == After(m, To(start), s[..i])
      {
        assert forall q <- clist :: q in After(m, To(start), s[..i]);
        var nlist := Step(clist, s[i]);
        AfterStep(m, To(start), s[..i], s[i]);
        assert s[..i + 1] == s[..i] + [s[i]];
        clist := nlist;
        i := i + 1;
      }
      assert s[..i] == s;
      r := IsMatch(clist);
      assert MATCH_ID in clist <==> MATCH_ID in Elems(clist);
    }
  }
}
