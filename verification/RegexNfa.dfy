/** NFAs in memory and what Thompson's construction makes of an expression (nfa.c). */
module RegexNfa {
  import opened Basics
  import opened RegexLang

  const MATCH: int := 256
  const SPLIT: int := 257

  /** The address of one of the two arrows of a state: &s->out or &s->out1. */
  datatype Slot = Slot(id: nat, second: bool)

  /** The content of an arrow. An arrow not yet filled in holds the next element of a list of
      arrows instead of a state, as the union Ptrlist does. */
  datatype Ptr = Null | To(id: nat) | Link(slot: Slot)

  datatype State = State(c: int, out: Ptr, out1: Ptr)

  /** States by address; address 0 is the global matching state. */
  type Memory = seq<State>

  const MATCH_ID: nat := 0
  const MATCH_STATE := State(MATCH, Null, Null)

  /** The label that a literal gets: plain characters are signed. */
  function Label(c: Byte): (r: int)
    ensures -128 <= r <= 127 && (r - c as int) % 256 == 0
  {
    if c as int < 128 then c as int else c as int - 256
  }

  function Get(m: Memory, s: Slot): Ptr
    requires s.id < |m|
  {
    if s.second then m[s.id].out1 else m[s.id].out
  }

  function Set(m: Memory, s: Slot, p: Ptr): (r: Memory)
    requires s.id < |m|
    ensures |r| == |m|
    ensures forall t: Slot :: t.id < |m| ==> Get(r, t) == if t == s then p else Get(m, t)
    ensures forall i :: 0 <= i < |m| ==> r[i].c == m[i].c
  {
    m[s.id := if s.second then m[s.id].(out1 := p) else m[s.id].(out := p)]
  }

  // ----- walks -----

  /** From p, n arrows lead to state q while reading w. */
  ghost predicate Walk(m: Memory, p: Ptr, w: Text, q: nat, n: nat)
    decreases n
  {
    && p.To? && p.id < |m|
    && if n == 0 then w == [] && p.id == q
       else if m[p.id].c == SPLIT then Walk(m, m[p.id].out, w, q, n - 1) || Walk(m, m[p.id].out1, w, q, n - 1)
       else w != [] && m[p.id].c == w[0] as int && Walk(m, m[p.id].out, w[1..], q, n - 1)
  }

  ghost predicate Reaches(m: Memory, p: Ptr, w: Text, q: nat) {
    exists n: nat :: Walk(m, p, w, q, n)
  }

  // ----- the shape of a fragment -----

  function Size(r: Regex): (n: nat)
    ensures n > 0
  {
    match r
    case Lit(_) => 1
    case Cat(a, b) => Size(a) + Size(b)
    case Alt(a, b) => Size(a) + Size(b) + 1
    case _ => Size(r.a) + 1
  }

  /** The start state of the fragment of r whose states begin at lo. */
  function StartOf(r: Regex, lo: nat): (s: nat)
    ensures lo <= s < lo + Size(r)
  {
    match r
    case Lit(_) => lo
    case Cat(a, b) => StartOf(a, lo)
    case Plus(a) => StartOf(a, lo)
    case _ => lo + Size(r) - 1
  }

  /** The arrows that leave the fragment, in the order of its list. */
  function Exits(r: Regex, lo: nat): (e: seq<Slot>)
    ensures e != []
    ensures forall s <- e :: lo <= s.id < lo + Size(r)
  {
    match r
    case Lit(_) => [Slot(lo, false)]
    case Cat(a, b) => Exits(b, lo + Size(a))
    case Alt(a, b) => Exits(a, lo) + Exits(b, lo + Size(a))
    case Quest(a) => Exits(a, lo) + [Slot(lo + Size(a), true)]
    case Star(a) => [Slot(lo + Size(a), true)]
    case Plus(a) => [Slot(lo + Size(a), true)]
  }

  lemma CatShape(r1: Regex, r2: Regex, lo: nat)
    ensures var r, mid := Cat(r1, r2), lo + Size(r1);
            Size(r) == Size(r1) + Size(r2) && Exits(r, lo) == Exits(r2, mid) && StartOf(r, lo) == StartOf(r1, lo)
  {
  }

  lemma AltShape(r1: Regex, r2: Regex, lo: nat)
    ensures var r, mid := Alt(r1, r2), lo + Size(r1);
            && Size(r) == Size(r1) + Size(r2) + 1 && Exits(r, lo) == Exits(r1, lo) + Exits(r2, mid)
            && StartOf(r, lo) == mid + Size(r2)
  {
  }

  lemma {:induction false} ExitsDistinct(r: Regex, lo: nat)
    ensures Distinct(Exits(r, lo))
  {
    hide Size, Distinct;
    match r
    case Lit(_) => SingleDistinct(Slot(lo, false));
    case Cat(a, b) => ExitsDistinct(b, lo + Size(a));
    case Alt(a, b) =>
      ExitsDistinct(a, lo);
      ExitsDistinct(b, lo + Size(a));
      JoinedDistinct(a, lo, Exits(b, lo + Size(a)));
    case Quest(a) =>
      ExitsDistinct(a, lo);
      SingleDistinct(Slot(lo + Size(a), true));
      JoinedDistinct(a, lo, [Slot(lo + Size(a), true)]);
    case Star(a) => SingleDistinct(Slot(lo + Size(a), true));
    case Plus(a) => SingleDistinct(Slot(lo + Size(a), true));
  }

  lemma SingleDistinct(s: Slot)
    ensures Distinct([s])
  {
  }

  /** Exits of a fragment and arrows of states behind it. */
  lemma JoinedDistinct(a: Regex, lo: nat, slots: seq<Slot>)
    requires Distinct(Exits(a, lo)) && Distinct(slots) && forall s <- slots :: s.id >= lo + Size(a)
    ensures Distinct(Exits(a, lo) + slots)
  {
    hide Exits, Size, Distinct;
    DistinctAppend(Exits(a, lo), slots);
  }

  ghost predicate AllHold(m: Memory, slots: seq<Slot>, p: Ptr) {
    forall s <- slots :: s.id < |m| && Get(m, s) == p
  }

  /** The states from lo on are a fragment for r, whatever its exits hold. */
  ghost predicate Fragment(m: Memory, r: Regex, lo: nat) {
    && lo + Size(r) <= |m|
    && match r
       case Lit(c) => m[lo].c == Label(c)
       case Cat(a, b) =>
         && Fragment(m, a, lo) && Fragment(m, b, lo + Size(a))
         && AllHold(m, Exits(a, lo), To(StartOf(b, lo + Size(a))))
       case Alt(a, b) =>
         var s := m[lo + Size(a) + Size(b)];
         && Fragment(m, a, lo) && Fragment(m, b, lo + Size(a))
         && s == State(SPLIT, To(StartOf(a, lo)), To(StartOf(b, lo + Size(a))))
       case Quest(a) =>
         var s := m[lo + Size(a)];
         Fragment(m, a, lo) && s.c == SPLIT && s.out == To(StartOf(a, lo))
       case _ =>
         var s := m[lo + Size(r.a)];
         && Fragment(m, r.a, lo) && s.c == SPLIT && s.out == To(StartOf(r.a, lo))
         && AllHold(m, Exits(r.a, lo), To(lo + Size(r.a)))
  }

  /** The state at s is a split whose first arrow leads to p. */
  ghost predicate SplitTo(m: Memory, s: nat, p: Ptr) {
    s < |m| && m[s].c == SPLIT && m[s].out == p
  }

  /** One unfolding of Fragment. */
  lemma FragmentIs(m: Memory, r: Regex, lo: nat)
    ensures Fragment(m, r, lo) <==>
            match r
            case Lit(c) => lo < |m| && m[lo].c == Label(c)
            case Cat(a, b) =>
              && Fragment(m, a, lo) && Fragment(m, b, lo + Size(a))
              && AllHold(m, Exits(a, lo), To(StartOf(b, lo + Size(a))))
            case Alt(a, b) =>
              && Fragment(m, a, lo) && Fragment(m, b, lo + Size(a))
              && SplitTo(m, lo + Size(a) + Size(b), To(StartOf(a, lo)))
              && m[lo + Size(a) + Size(b)].out1 == To(StartOf(b, lo + Size(a)))
            case Quest(a) => Fragment(m, a, lo) && SplitTo(m, lo + Size(a), To(StartOf(a, lo)))
            case _ =>
              && Fragment(m, r.a, lo) && SplitTo(m, lo + Size(r.a), To(StartOf(r.a, lo)))
              && AllHold(m, Exits(r.a, lo), To(lo + Size(r.a)))
  {
  }

  /** From lo to hi the two memories hold the same, except in the given arrows. */
  ghost predicate SameBut(m: Memory, m2: Memory, lo: nat, hi: nat, slots: seq<Slot>) {
    && |m| <= |m2|
    && (forall i :: lo <= i < hi && i < |m| ==> m2[i].c == m[i].c)
    && (forall s: Slot :: lo <= s.id < hi && s.id < |m| && s !in slots ==> Get(m2, s) == Get(m, s))
  }

  /** A fragment depends only on its own states, and not on its exits. */
  lemma {:induction false} FragmentKept(m: Memory, m2: Memory, r: Regex, lo: nat)
    requires Fragment(m, r, lo) && SameBut(m, m2, lo, lo + Size(r), Exits(r, lo))
    ensures Fragment(m2, r, lo)
    decreases r, 2
  {
    if r.Lit? {
      assert m2[lo].c == m[lo].c;
    } else if r.Cat? {
      CatKept(m, m2, r, lo);
    } else if r.Alt? {
      AltKept(m, m2, r, lo);
    } else if r.Quest? {
      QuestKept(m, m2, r, lo);
    } else {
      LoopKept(m, m2, r, lo);
    }
  }

  lemma {:induction false} CatKept(m: Memory, m2: Memory, r: Regex, lo: nat)
    requires r.Cat?
    requires Fragment(m, r, lo) && SameBut(m, m2, lo, lo + Size(r), Exits(r, lo))
    ensures Fragment(m2, r, lo)
    decreases r, 1
  {
    FragmentIs(m, r, lo);
    FragmentIs(m2, r, lo);
    hide Fragment, AllHold, StartOf, SplitTo, Size, Exits;
    CatShape(r.a, r.b, lo);
    PartKept(m, m2, r.a, lo, r, lo);
    PartKept(m, m2, r.b, lo + Size(r.a), r, lo);
    ExitsKept(m, m2, r.a, lo, To(StartOf(r.b, lo + Size(r.a))), r, lo);
  }

  lemma {:induction false} AltKept(m: Memory, m2: Memory, r: Regex, lo: nat)
    requires r.Alt?
    requires Fragment(m, r, lo) && SameBut(m, m2, lo, lo + Size(r), Exits(r, lo))
    ensures Fragment(m2, r, lo)
    decreases r, 1
  {
    FragmentIs(m, r, lo);
    FragmentIs(m2, r, lo);
    hide Fragment, AllHold, StartOf, Size, Exits;
    AltShape(r.a, r.b, lo);
    PartKept(m, m2, r.a, lo, r, lo);
    PartKept(m, m2, r.b, lo + Size(r.a), r, lo);
    var s := lo + Size(r.a) + Size(r.b);
    SplitKept(m, m2, s, To(StartOf(r.a, lo)), r, lo);
    assert Get(m2, Slot(s, true)) == Get(m, Slot(s, true));
  }

  lemma {:induction false} QuestKept(m: Memory, m2: Memory, r: Regex, lo: nat)
    requires r.Quest?
    requires Fragment(m, r, lo) && SameBut(m, m2, lo, lo + Size(r), Exits(r, lo))
    ensures Fragment(m2, r, lo)
    decreases r, 1
  {
    FragmentIs(m, r, lo);
    FragmentIs(m2, r, lo);
    hide Fragment, AllHold, StartOf, SplitTo;
    PartKept(m, m2, r.a, lo, r, lo);
    SplitKept(m, m2, lo + Size(r.a), To(StartOf(r.a, lo)), r, lo);
  }

  lemma {:induction false} LoopKept(m: Memory, m2: Memory, r: Regex, lo: nat)
    requires r.Star? || r.Plus?
    requires Fragment(m, r, lo) && SameBut(m, m2, lo, lo + Size(r), Exits(r, lo))
    ensures Fragment(m2, r, lo)
    decreases r, 1
  {
    FragmentIs(m, r, lo);
    FragmentIs(m2, r, lo);
    hide Fragment, AllHold, StartOf, SplitTo;
    PartKept(m, m2, r.a, lo, r, lo);
    SplitKept(m, m2, lo + Size(r.a), To(StartOf(r.a, lo)), r, lo);
    ExitsKept(m, m2, r.a, lo, To(lo + Size(r.a)), r, lo);
  }

  lemma SplitKept(m: Memory, m2: Memory, s: nat, p: Ptr, r: Regex, lo: nat)
    requires SameBut(m, m2, lo, lo + Size(r), Exits(r, lo)) && SplitTo(m, s, p)
    requires lo <= s < lo + Size(r) && Slot(s, false) !in Exits(r, lo)
    ensures SplitTo(m2, s, p)
  {
    assert Get(m2, Slot(s, false)) == Get(m, Slot(s, false));
  }

  lemma ExitsKept(m: Memory, m2: Memory, a: Regex, lo2: nat, p: Ptr, r: Regex, lo: nat)
    requires SameBut(m, m2, lo, lo + Size(r), Exits(r, lo)) && AllHold(m, Exits(a, lo2), p)
    requires lo <= lo2 && lo2 + Size(a) <= lo + Size(r)
    requires forall s <- Exits(r, lo) :: s !in Exits(a, lo2)
    ensures AllHold(m2, Exits(a, lo2), p)
  {
    hide Exits, Size;
    forall s <- Exits(a, lo2)
      ensures s.id < |m2| && Get(m2, s) == p
    {
      assert s.id < |m| && Get(m, s) == p;
    }
  }

  lemma {:induction false} PartKept(m: Memory, m2: Memory, a: Regex, lo2: nat, r: Regex, lo: nat)
    requires a < r
    requires Fragment(m, a, lo2) && SameBut(m, m2, lo, lo + Size(r), Exits(r, lo))
    requires lo <= lo2 && lo2 + Size(a) <= lo + Size(r)
    requires forall s <- Exits(r, lo) :: lo2 <= s.id < lo2 + Size(a) ==> s in Exits(a, lo2)
    ensures Fragment(m2, a, lo2)
    decreases r, 0
  {
    hide Fragment;
    FragmentKept(m, m2, a, lo2);
  }

  // ----- a fragment reads the words of its expression -----

  /** The split state at s, after the fragment of a at lo, loops: it leads back into the fragment or on to x. */
  ghost predicate Loop(m: Memory, a: Regex, lo: nat, s: nat, x: Ptr) {
    && Fragment(m, a, lo) && s < |m|
    && m[s] == State(SPLIT, To(StartOf(a, lo)), x)
    && AllHold(m, Exits(a, lo), To(s))
  }

  /** A fragment whose exits all hold x. */
  ghost predicate Patched(m: Memory, r: Regex, lo: nat, x: Ptr) {
    Fragment(m, r, lo) && AllHold(m, Exits(r, lo), x)
  }

  lemma AllHoldAppend(m: Memory, s: seq<Slot>, t: seq<Slot>, p: Ptr)
    ensures AllHold(m, s + t, p) <==> AllHold(m, s, p) && AllHold(m, t, p)
  {
    assert forall i :: 0 <= i < |s| ==> s[i] == (s + t)[i];
    assert forall i :: 0 <= i < |t| ==> t[i] == (s + t)[|s| + i];
  }

  lemma AllHoldOne(m: Memory, s: Slot, p: Ptr)
    ensures AllHold(m, [s], p) <==> s.id < |m| && Get(m, s) == p
  {
    assert s in [s];
  }

  lemma PatchedLit(m: Memory, c: Byte, lo: nat, x: Ptr)
    requires Patched(m, Lit(c), lo, x)
    ensures lo < |m| && m[lo].c == Label(c) && m[lo].out == x
  {
    FragmentIs(m, Lit(c), lo);
    assert Slot(lo, false) in Exits(Lit(c), lo);
  }

  lemma PatchedCat(m: Memory, a: Regex, b: Regex, lo: nat, x: Ptr)
    requires Patched(m, Cat(a, b), lo, x)
    ensures Patched(m, a, lo, To(StartOf(b, lo + Size(a)))) && Patched(m, b, lo + Size(a), x)
  {
    FragmentIs(m, Cat(a, b), lo);
    hide Fragment, AllHold, StartOf, Size, Exits;
    CatShape(a, b, lo);
  }

  lemma PatchedAlt(m: Memory, a: Regex, b: Regex, lo: nat, x: Ptr)
    requires Patched(m, Alt(a, b), lo, x)
    ensures var s := StartOf(Alt(a, b), lo);
            && lo <= s < |m| && m[s] == State(SPLIT, To(StartOf(a, lo)), To(StartOf(b, lo + Size(a))))
            && Patched(m, a, lo, x) && Patched(m, b, lo + Size(a), x)
  {
    FragmentIs(m, Alt(a, b), lo);
    hide Fragment, AllHold, StartOf, Size, Exits;
    AltShape(a, b, lo);
    AllHoldAppend(m, Exits(a, lo), Exits(b, lo + Size(a)), x);
  }

  lemma PatchedQuest(m: Memory, a: Regex, lo: nat, x: Ptr)
    requires Patched(m, Quest(a), lo, x)
    ensures var s := StartOf(Quest(a), lo);
            && lo <= s < |m| && m[s] == State(SPLIT, To(StartOf(a, lo)), x)
            && Patched(m, a, lo, x)
  {
    FragmentIs(m, Quest(a), lo);
    hide Fragment, AllHold;
    AllHoldAppend(m, Exits(a, lo), [Slot(lo + Size(a), true)], x);
    AllHoldOne(m, Slot(lo + Size(a), true), x);
  }

  lemma PatchedStar(m: Memory, a: Regex, lo: nat, x: Ptr)
    requires Patched(m, Star(a), lo, x)
    ensures lo <= StartOf(Star(a), lo) && Loop(m, a, lo, StartOf(Star(a), lo), x)
  {
    FragmentIs(m, Star(a), lo);
    hide Fragment;
    assert Slot(lo + Size(a), true) in Exits(Star(a), lo);
  }

  lemma PatchedPlus(m: Memory, a: Regex, lo: nat, x: Ptr)
    requires Patched(m, Plus(a), lo, x)
    ensures Loop(m, a, lo, lo + Size(a), x)
  {
    FragmentIs(m, Plus(a), lo);
    hide Fragment;
    assert Slot(lo + Size(a), true) in Exits(Plus(a), lo);
  }

  /** Reading a word of r, the fragment leads from its start to where its exits point. */
  lemma {:induction false} FragmentReads(m: Memory, r: Regex, lo: nat, x: Ptr, u: Text, v: Text, q: nat, n: nat)
    returns (n2: nat)
    requires Patched(m, r, lo, x)
    requires Matches(r, u) && Ascii(u) && Walk(m, x, v, q, n)
    ensures Walk(m, To(StartOf(r, lo)), u + v, q, n2)
    decreases r, |u|, 2
  {
    hide Patched, Size, Loop, Walk, Exits;
    match r
    case Lit(c) => PatchedLit(m, c, lo, x); n2 := LitReads(m, c, lo, x, u, v, q, n);
    case Cat(a, b) => PatchedCat(m, a, b, lo, x); n2 := CatReads(m, a, b, lo, x, u, v, q, n);
    case Alt(a, b) => PatchedAlt(m, a, b, lo, x); n2 := AltReads(m, a, b, lo, StartOf(r, lo), x, u, v, q, n);
    case Quest(a) => PatchedQuest(m, a, lo, x); n2 := QuestReads(m, a, lo, StartOf(r, lo), x, u, v, q, n);
    case Star(a) => PatchedStar(m, a, lo, x); n2 := LoopReads(m, a, lo, StartOf(r, lo), x, u, v, q, n);
    case Plus(a) => PatchedPlus(m, a, lo, x); n2 := PlusReads(m, a, lo, lo + Size(a), x, u, v, q, n);
  }

  lemma LitReads(m: Memory, c: Byte, lo: nat, x: Ptr, u: Text, v: Text, q: nat, n: nat) returns (n2: nat)
    requires lo < |m| && m[lo].c == Label(c) && m[lo].out == x
    requires u == [c] && Ascii(u) && Walk(m, x, v, q, n)
    ensures Walk(m, To(lo), u + v, q, n2)
  {
    assert (u + v)[1..] == v;
    n2 := n + 1;
  }

  lemma {:induction false} AltReads(m: Memory, a: Regex, b: Regex, lo: nat, s: nat, x: Ptr, u: Text, v: Text, q: nat,
                                    n: nat)
    returns (n2: nat)
    requires Patched(m, a, lo, x) && Patched(m, b, lo + Size(a), x)
    requires s < |m| && m[s] == State(SPLIT, To(StartOf(a, lo)), To(StartOf(b, lo + Size(a))))
    requires Matches(Alt(a, b), u) && Ascii(u) && Walk(m, x, v, q, n)
    ensures Walk(m, To(s), u + v, q, n2)
    decreases Alt(a, b), |u|, 0
  {
    hide Patched, StartOf, Size;
    if Matches(a, u) {
      n2 := FragmentReads(m, a, lo, x, u, v, q, n);
    } else {
      n2 := FragmentReads(m, b, lo + Size(a), x, u, v, q, n);
    }
    n2 := n2 + 1;
  }

  lemma {:induction false} QuestReads(m: Memory, a: Regex, lo: nat, s: nat, x: Ptr, u: Text, v: Text, q: nat, n: nat)
    returns (n2: nat)
    requires Patched(m, a, lo, x) && s < |m| && m[s] == State(SPLIT, To(StartOf(a, lo)), x)
    requires Matches(Quest(a), u) && Ascii(u) && Walk(m, x, v, q, n)
    ensures Walk(m, To(s), u + v, q, n2)
    decreases Quest(a), |u|, 0
  {
    hide Patched, StartOf, Size;
    if u == [] {
      assert u + v == v;
      n2 := n + 1;
    } else {
      n2 := FragmentReads(m, a, lo, x, u, v, q, n);
      n2 := n2 + 1;
    }
  }

  lemma {:induction false} CatReads(m: Memory, a: Regex, b: Regex, lo: nat, x: Ptr, u: Text, v: Text, q: nat, n: nat)
    returns (n2: nat)
    requires Patched(m, a, lo, To(StartOf(b, lo + Size(a)))) && Patched(m, b, lo + Size(a), x)
    requires Matches(Cat(a, b), u) && Ascii(u) && Walk(m, x, v, q, n)
    ensures Walk(m, To(StartOf(a, lo)), u + v, q, n2)
    decreases Cat(a, b), |u|, 0
  {
    hide Patched, StartOf, Size, Walk;
    var k :| 0 <= k <= |u| && Matches(a, u[..k]) && Matches(b, u[k..]);
    hide Matches;
    var n1 := FragmentReads(m, b, lo + Size(a), x, u[k..], v, q, n);
    SplitWord(u, v, k);
    n2 := FragmentReads(m, a, lo, To(StartOf(b, lo + Size(a))), u[..k], u[k..] + v, q, n1);
  }

  lemma {:induction false} PlusReads(m: Memory, a: Regex, lo: nat, s: nat, x: Ptr, u: Text, v: Text, q: nat, n: nat)
    returns (n2: nat)
    requires Loop(m, a, lo, s, x)
    requires Matches(Plus(a), u) && Ascii(u) && Walk(m, x, v, q, n)
    ensures Walk(m, To(StartOf(a, lo)), u + v, q, n2)
    decreases Plus(a), |u|, 0
  {
    LoopPatched(m, a, lo, s, x);
    hide Patched, StartOf, Size, Walk, Loop;
    var k :| 0 <= k <= |u| && Matches(a, u[..k]) && MatchesStar(a, u[k..]);
    hide Matches, MatchesStar;
    var n1 := LoopReads(m, a, lo, s, x, u[k..], v, q, n);
    SplitWord(u, v, k);
    n2 := FragmentReads(m, a, lo, To(s), u[..k], u[k..] + v, q, n1);
  }

  lemma LoopPatched(m: Memory, a: Regex, lo: nat, s: nat, x: Ptr)
    requires Loop(m, a, lo, s, x)
    ensures Patched(m, a, lo, To(s)) && s < |m| && m[s] == State(SPLIT, To(StartOf(a, lo)), x)
  {
  }

  /** A loop reads any number of words. */
  lemma {:induction false} LoopReads(m: Memory, a: Regex, lo: nat, s: nat, x: Ptr, u: Text, v: Text, q: nat, n: nat)
    returns (n2: nat)
    requires Loop(m, a, lo, s, x)
    requires MatchesStar(a, u) && Ascii(u) && Walk(m, x, v, q, n)
    ensures Walk(m, To(s), u + v, q, n2)
    decreases a, |u|, 3
  {
    LoopPatched(m, a, lo, s, x);
    hide Patched, StartOf, Size, Loop, Matches;
    if u == [] {
      assert u + v == v;
      n2 := n + 1;
    } else {
      var k :| 0 < k <= |u| && Matches(a, u[..k]) && MatchesStar(a, u[k..]);
      var n1 := LoopReads(m, a, lo, s, x, u[k..], v, q, n);
      SplitWord(u, v, k);
      n2 := FragmentReads(m, a, lo, To(s), u[..k], u[k..] + v, q, n1);
      n2 := n2 + 1;
    }
  }

  /** Nothing else: a walk from the start to a state below the fragment first reads a word of r, and then goes on
      from the exits. */
  lemma {:induction false} FragmentReadsOnly(m: Memory, r: Regex, lo: nat, x: Ptr, w: Text, q: nat, n: nat)
    returns (k: nat, n2: nat)
    requires Patched(m, r, lo, x)
    requires q < lo && Walk(m, To(StartOf(r, lo)), w, q, n)
    ensures k <= |w| && n2 < n
    ensures Matches(r, w[..k]) && Ascii(w[..k]) && Walk(m, x, w[k..], q, n2)
    decreases n, r
  {
    hide Patched, Size, Loop, Exits, Walk;
    match r
    case Lit(c) => PatchedLit(m, c, lo, x); k, n2 := LitReadsOnly(m, c, lo, x, w, q, n);
    case Cat(a, b) => PatchedCat(m, a, b, lo, x); k, n2 := CatReadsOnly(m, a, b, lo, x, w, q, n);
    case Alt(a, b) => PatchedAlt(m, a, b, lo, x); k, n2 := AltReadsOnly(m, a, b, lo, StartOf(r, lo), x, w, q, n);
    case Quest(a) => PatchedQuest(m, a, lo, x); k, n2 := QuestReadsOnly(m, a, lo, StartOf(r, lo), x, w, q, n);
    case Star(a) => PatchedStar(m, a, lo, x); k, n2 := LoopReadsOnly(m, a, lo, StartOf(r, lo), x, w, q, n);
    case Plus(a) => PatchedPlus(m, a, lo, x); k, n2 := PlusReadsOnly(m, a, lo, lo + Size(a), x, w, q, n);
  }

  lemma LitReadsOnly(m: Memory, c: Byte, lo: nat, x: Ptr, w: Text, q: nat, n: nat) returns (k: nat, n2: nat)
    requires lo < |m| && m[lo].c == Label(c) && m[lo].out == x
    requires q < lo && Walk(m, To(lo), w, q, n)
    ensures k <= |w| && n2 < n
    ensures w[..k] == [c] && Ascii(w[..k]) && Walk(m, x, w[k..], q, n2)
  {
    k, n2 := 1, n - 1;
  }

  lemma {:induction false} AltReadsOnly(m: Memory, a: Regex, b: Regex, lo: nat, s: nat, x: Ptr, w: Text, q: nat, n: nat)
    returns (k: nat, n2: nat)
    requires Patched(m, a, lo, x) && Patched(m, b, lo + Size(a), x)
    requires s < |m| && m[s] == State(SPLIT, To(StartOf(a, lo)), To(StartOf(b, lo + Size(a))))
    requires q < lo <= s && Walk(m, To(s), w, q, n)
    ensures k <= |w| && n2 < n
    ensures Matches(Alt(a, b), w[..k]) && Ascii(w[..k]) && Walk(m, x, w[k..], q, n2)
    decreases n, Alt(a, b), 0
  {
    hide Patched, StartOf, Size;
    if Walk(m, To(StartOf(a, lo)), w, q, n - 1) {
      k, n2 := FragmentReadsOnly(m, a, lo, x, w, q, n - 1);
    } else {
      k, n2 := FragmentReadsOnly(m, b, lo + Size(a), x, w, q, n - 1);
    }
  }

  lemma {:induction false} QuestReadsOnly(m: Memory, a: Regex, lo: nat, s: nat, x: Ptr, w: Text, q: nat, n: nat)
    returns (k: nat, n2: nat)
    requires Patched(m, a, lo, x) && s < |m| && m[s] == State(SPLIT, To(StartOf(a, lo)), x)
    requires q < lo <= s && Walk(m, To(s), w, q, n)
    ensures k <= |w| && n2 < n
    ensures Matches(Quest(a), w[..k]) && Ascii(w[..k]) && Walk(m, x, w[k..], q, n2)
    decreases n, Quest(a), 0
  {
    hide Patched, StartOf, Size;
    if Walk(m, x, w, q, n - 1) {
      k, n2 := 0, n - 1;
    } else {
      k, n2 := FragmentReadsOnly(m, a, lo, x, w, q, n - 1);
    }
  }

  lemma {:induction false} CatReadsOnly(m: Memory, a: Regex, b: Regex, lo: nat, x: Ptr, w: Text, q: nat, n: nat)
    returns (k: nat, n2: nat)
    requires Patched(m, a, lo, To(StartOf(b, lo + Size(a)))) && Patched(m, b, lo + Size(a), x)
    requires q < lo && Walk(m, To(StartOf(a, lo)), w, q, n)
    ensures k <= |w| && n2 < n
    ensures Matches(Cat(a, b), w[..k]) && Ascii(w[..k]) && Walk(m, x, w[k..], q, n2)
    decreases n, Cat(a, b), 0
  {
    hide Patched, Walk, Matches, Ascii, Size, StartOf;
    var k1, n1 := FragmentReadsOnly(m, a, lo, To(StartOf(b, lo + Size(a))), w, q, n);
    var k2, m2 := FragmentReadsOnly(m, b, lo + Size(a), x, w[k1..], q, n1);
    k, n2 := k1 + k2, m2;
    JoinWords(w, k1, k2);
    CatOf(a, b, w[..k1], w[k1..][..k2]);
  }

  lemma {:induction false} PlusReadsOnly(m: Memory, a: Regex, lo: nat, s: nat, x: Ptr, w: Text, q: nat, n: nat)
    returns (k: nat, n2: nat)
    requires Loop(m, a, lo, s, x) && s >= lo
    requires q < lo && Walk(m, To(StartOf(a, lo)), w, q, n)
    ensures k <= |w| && n2 < n
    ensures Matches(Plus(a), w[..k]) && Ascii(w[..k]) && Walk(m, x, w[k..], q, n2)
    decreases n, Plus(a), 0
  {
    LoopPatched(m, a, lo, s, x);
    hide Patched, Loop, Walk, Matches, MatchesStar, Ascii, Size, StartOf;
    var k1, n1 := FragmentReadsOnly(m, a, lo, To(s), w, q, n);
    var k2, m2 := LoopReadsOnly(m, a, lo, s, x, w[k1..], q, n1);
    k, n2 := k1 + k2, m2;
    JoinWords(w, k1, k2);
    PlusOf(a, w[..k1], w[k1..][..k2]);
  }

  lemma {:induction false} LoopReadsOnly(m: Memory, a: Regex, lo: nat, s: nat, x: Ptr, w: Text, q: nat, n: nat)
    returns (k: nat, n2: nat)
    requires Loop(m, a, lo, s, x) && s >= lo
    requires q < lo && Walk(m, To(s), w, q, n)
    ensures k <= |w| && n2 < n
    ensures MatchesStar(a, w[..k]) && Ascii(w[..k]) && Walk(m, x, w[k..], q, n2)
    decreases n, a
  {
    LoopPatched(m, a, lo, s, x);
    hide Patched, Loop, Matches, Size, StartOf;
    if Walk(m, x, w, q, n - 1) {
      k, n2 := 0, n - 1;
    } else {
      var k1, n1 := FragmentReadsOnly(m, a, lo, To(s), w, q, n - 1);
      var k2, m2 := LoopReadsOnly(m, a, lo, s, x, w[k1..], q, n1);
      k, n2 := k1 + k2, m2;
      JoinWords(w, k1, k2);
      StarMore(a, w[..k1], w[k1..][..k2]);
    }
  }

  lemma SplitWord(u: Text, v: Text, k: nat)
    requires k <= |u|
    ensures u[..k] + (u[k..] + v) == u + v
    ensures Ascii(u) ==> Ascii(u[..k]) && Ascii(u[k..])
  {
  }

  lemma JoinWords(w: Text, k1: nat, k2: nat)
    requires k1 + k2 <= |w|
    ensures w[..k1 + k2] == w[..k1] + w[k1..][..k2]
    ensures w[k1..][k2..] == w[k1 + k2..]
    ensures Ascii(w[..k1]) && Ascii(w[k1..][..k2]) ==> Ascii(w[..k1 + k2])
  {
  }

  /** A finished NFA: a fragment whose exits lead to the matching state. */
  ghost predicate Finished(m: Memory, r: Regex, start: nat) {
    && |m| == 1 + Size(r)
    && m[MATCH_ID] == MATCH_STATE
    && Patched(m, r, 1, To(MATCH_ID))
    && start == StartOf(r, 1)
  }

  /** Thompson's construction is correct: the matching state is reached exactly by the words of the expression
      without bytes beyond 127. */
  lemma {:induction false} FinishedAccepts(m: Memory, r: Regex, start: nat, w: Text)
    requires Finished(m, r, start)
    ensures Reaches(m, To(start), w, MATCH_ID) <==> Matches(r, w) && Ascii(w)
  {
    if n: nat :| Walk(m, To(start), w, MATCH_ID, n) {
      var k, n2 := FragmentReadsOnly(m, r, 1, To(MATCH_ID), w, MATCH_ID, n);
      assert w[k..] == [];
      assert w[..k] == w;
    }
    if Matches(r, w) && Ascii(w) {
      assert Walk(m, To(MATCH_ID), [], MATCH_ID, 0);
      var n := FragmentReads(m, r, 1, To(MATCH_ID), w, [], MATCH_ID, 0);
      assert w + [] == w;
    }
  }
}
