/** From a postfix expression to an NFA (post2nfa in nfa.c). Lists of unfilled arrows are threaded through the
    arrows themselves. */
module RegexBuild {
  import opened Basics
  import opened RegexLang
  import opened RegexNfa

  // ----- what a postfix expression means -----

  /** The stack of expressions after one more symbol; none when the symbol lacks operands. */
  function Push(stack: seq<Regex>, c: Byte): Option<seq<Regex>> {
    var n := |stack|;
    if c == '.' || c == '|' then
      if n < 2 then None
      else
        var e1, e2 := stack[n - 2], stack[n - 1];
        Some(stack[..n - 2] + [if c == '.' then Cat(e1, e2) else Alt(e1, e2)])
    else if c == '?' || c == '*' || c == '+' then
      if n < 1 then None
      else
        var e := stack[n - 1];
        Some(stack[..n - 1] + [if c == '?' then Quest(e) else if c == '*' then Star(e) else Plus(e)])
    else Some(stack + [Lit(c)])
  }

  /** The stack of expressions that a postfix text leaves. */
  function Decode(post: Text): Option<seq<Regex>> {
    if post == [] then Some([])
    else
      var front := Decode(post[..|post| - 1]);
      if front.None? then None else Push(front.value, post[|post| - 1])
  }

  lemma {:induction false} DecodePrefix(post: Text, i: nat)
    requires i <= |post| && Decode(post).Some?
    ensures Decode(post[..i]).Some?
    decreases |post|
  {
    if i < |post| {
      assert post[..|post| - 1][..i] == post[..i];
      DecodePrefix(post[..|post| - 1], i);
    } else {
      assert post[..i] == post;
    }
  }

  const STACK_SIZE: nat := 1000

  /** No operator lacks operands, nor does the end, and there are never more operands than the stack holds. */
  ghost predicate FitsStack(post: Text) {
    && Decode(post).Some? && Decode(post).value != []
    && forall i :: 0 <= i <= |post| && Decode(post[..i]).Some? ==> |Decode(post[..i]).value| <= STACK_SIZE
  }

  // ----- lists of unfilled arrows -----

  /** The list at l runs through exactly these arrows and ends. */
  ghost predicate Threaded(m: Memory, l: Ptr, slots: seq<Slot>)
    decreases |slots|
  {
    if slots == [] then l == Null
    else l == Link(slots[0]) && slots[0].id < |m| && Threaded(m, Get(m, slots[0]), slots[1..])
  }

  lemma {:induction false} ThreadedKept(m: Memory, m2: Memory, l: Ptr, slots: seq<Slot>)
    requires Threaded(m, l, slots) && |m| <= |m2|
    requires forall s <- slots :: s.id < |m| ==> Get(m2, s) == Get(m, s)
    ensures Threaded(m2, l, slots)
    decreases |slots|
  {
    if slots != [] {
      assert slots[0] in slots;
      ThreadedKept(m, m2, Get(m, slots[0]), slots[1..]);
    }
  }

  /** Replacing the end of one list by another list joins them. */
  lemma {:induction false} ThreadedJoin(m: Memory, m2: Memory, l: Ptr, s1: seq<Slot>, l2: Ptr, s2: seq<Slot>)
    requires s1 != [] && Threaded(m, l, s1) && Distinct(s1) && |m| <= |m2|
    requires Threaded(m2, l2, s2)
    requires var last := s1[|s1| - 1];
             forall s <- s1 :: s.id < |m| ==> Get(m2, s) == if s == last then l2 else Get(m, s)
    ensures Threaded(m2, l, s1 + s2)
    decreases |s1|
  {
    assert s1[0] in s1;
    assert (s1 + s2)[1..] == s1[1..] + s2;
    if |s1| == 1 {
      assert s1[1..] + s2 == s2;
    } else {
      assert s1[1..][|s1| - 2] == s1[|s1| - 1];
      ThreadedJoin(m, m2, Get(m, s1[0]), s1[1..], l2, s2);
    }
  }

  datatype Frag = Frag(start: nat, out: Ptr)

  /** In memory, f is a fragment for r whose states begin at lo and whose list holds its exits. */
  ghost predicate Piece(m: Memory, f: Frag, r: Regex, lo: nat) {
    f.start == StartOf(r, lo) && Fragment(m, r, lo) && Threaded(m, f.out, Exits(r, lo))
  }

  lemma FragmentSize(m: Memory, r: Regex, lo: nat)
    requires Fragment(m, r, lo)
    ensures lo + Size(r) <= |m|
  {
  }

  lemma SameButPart(m: Memory, m2: Memory, lo: nat, hi: nat, slots: seq<Slot>, lo2: nat, hi2: nat, slots2: seq<Slot>)
    requires SameBut(m, m2, lo, hi, slots)
    requires lo <= lo2 && hi2 <= hi && forall s <- slots :: lo2 <= s.id < hi2 ==> s in slots2
    ensures SameBut(m, m2, lo2, hi2, slots2)
  {
  }

  lemma SameState(m: Memory, m2: Memory, slots: seq<Slot>, s: nat)
    requires SameBut(m, m2, 0, |m|, slots) && s < |m|
    requires forall slot <- slots :: slot.id != s
    ensures m2[s] == m[s]
  {
    assert Get(m2, Slot(s, false)) == Get(m, Slot(s, false)) && Get(m2, Slot(s, true)) == Get(m, Slot(s, true));
  }

  /** Patching the exits of the first fragment to the start of the second one concatenates them. */
  lemma CatPiece(m: Memory, m2: Memory, e1: Frag, e2: Frag, r1: Regex, r2: Regex, lo: nat)
    requires Piece(m, e1, r1, lo) && Piece(m, e2, r2, lo + Size(r1))
    requires SameBut(m, m2, 0, |m|, Exits(r1, lo)) && AllHold(m2, Exits(r1, lo), To(e2.start))
    ensures Piece(m2, Frag(e1.start, e2.out), Cat(r1, r2), lo)
  {
    var mid := lo + Size(r1);
    hide Fragment, AllHold, SameBut, Threaded, Exits, StartOf, Size;
    CatShape(r1, r2, lo);
    FragmentSize(m, r1, lo);
    FragmentSize(m, r2, mid);
    FragmentIs(m2, Cat(r1, r2), lo);
    SameButPart(m, m2, 0, |m|, Exits(r1, lo), lo, mid, Exits(r1, lo));
    SameButPart(m, m2, 0, |m|, Exits(r1, lo), mid, mid + Size(r2), []);
    FragmentKept(m, m2, r1, lo);
    PieceKept(m, m2, e2, r2, mid);
  }

  /** A new split state leading to both fragments, whose lists are joined, offers a choice. */
  lemma AltPiece(m: Memory, m2: Memory, e1: Frag, e2: Frag, out: Ptr, r1: Regex, r2: Regex, lo: nat)
    requires Piece(m, e1, r1, lo) && Piece(m, e2, r2, lo + Size(r1))
    requires |m| == |m2| == lo + Size(r1) + Size(r2) + 1
    requires SameBut(m, m2, 0, |m|, Exits(r1, lo))
    requires m[|m| - 1] == State(SPLIT, To(e1.start), To(e2.start))
    requires Threaded(m2, out, Exits(r1, lo) + Exits(r2, lo + Size(r1)))
    ensures Piece(m2, Frag(|m| - 1, out), Alt(r1, r2), lo)
  {
    var mid, s := lo + Size(r1), |m| - 1;
    hide Fragment, AllHold, SameBut, Threaded, Exits, StartOf, Size;
    AltShape(r1, r2, lo);
    SameState(m, m2, Exits(r1, lo), s);
    FragmentIs(m2, Alt(r1, r2), lo);
    SameButPart(m, m2, 0, |m|, Exits(r1, lo), lo, mid, Exits(r1, lo));
    SameButPart(m, m2, 0, |m|, Exits(r1, lo), mid, mid + Size(r2), []);
    FragmentKept(m, m2, r1, lo);
    PieceKept(m, m2, e2, r2, mid);
  }

  /** A new split state leading to the fragment or past it makes it optional. */
  lemma QuestPiece(m: Memory, m2: Memory, e: Frag, out: Ptr, r: Regex, lo: nat)
    requires Piece(m, e, r, lo) && |m| == |m2| == lo + Size(r) + 1
    requires SameBut(m, m2, 0, |m|, Exits(r, lo))
    requires m[|m| - 1].c == SPLIT && m[|m| - 1].out == To(e.start)
    requires Threaded(m2, out, Exits(r, lo) + [Slot(|m| - 1, true)])
    ensures Piece(m2, Frag(|m| - 1, out), Quest(r), lo)
  {
    var s := |m| - 1;
    FragmentIs(m2, Quest(r), lo);
    hide Fragment, AllHold, Threaded;
    assert Get(m2, Slot(s, false)) == Get(m, Slot(s, false));
    hide SameBut;
    SameButPart(m, m2, 0, |m|, Exits(r, lo), lo, s, Exits(r, lo));
    FragmentKept(m, m2, r, lo);
  }

  lemma PieceKept(m: Memory, m2: Memory, f: Frag, r: Regex, lo: nat)
    requires Piece(m, f, r, lo) && SameBut(m, m2, lo, lo + Size(r), [])
    ensures Piece(m2, f, r, lo)
  {
    hide Fragment, StartOf;
    assert SameBut(m, m2, lo, lo + Size(r), Exits(r, lo));
    FragmentKept(m, m2, r, lo);
    ThreadedKept(m, m2, f.out, Exits(r, lo));
  }

  /** Where the states of the j-th expression of a stack begin. */
  function Base(regs: seq<Regex>, j: nat): nat
    requires j <= |regs|
  {
    if j == 0 then 1 else Base(regs, j - 1) + Size(regs[j - 1])
  }

  lemma {:induction false} BaseKept(regs: seq<Regex>, regs2: seq<Regex>, j: nat)
    requires j <= |regs| && j <= |regs2| && regs[..j] == regs2[..j]
    ensures Base(regs, j) == Base(regs2, j)
    decreases j
  {
    if j > 0 {
      assert regs[j - 1] == regs[..j][j - 1] == regs2[j - 1];
      assert regs[..j - 1] == regs[..j][..j - 1] && regs2[..j - 1] == regs2[..j][..j - 1];
      BaseKept(regs, regs2, j - 1);
    }
  }

  lemma {:induction false} BaseGrows(regs: seq<Regex>, i: nat, j: nat)
    requires i < j <= |regs|
    ensures Base(regs, i) + Size(regs[i]) <= Base(regs, j)
    decreases j
  {
    if i < j - 1 {
      BaseGrows(regs, i, j - 1);
    }
  }

  /** The stack of fragments holds one fragment for each expression; together they own all states but the matching
      one. */
  ghost predicate Stacked(m: Memory, stack: seq<Frag>, regs: seq<Regex>) {
    && |stack| == |regs|
    && |m| == Base(regs, |regs|)
    && forall j :: 0 <= j < |regs| ==> Piece(m, stack[j], regs[j], Base(regs, j))
  }

  ghost predicate SameBelow(m: Memory, m2: Memory, lo: nat) {
    lo <= |m| <= |m2| && m2[..lo] == m[..lo]
  }

  lemma SameBelowFrom(m: Memory, m2: Memory, lo: nat, slots: seq<Slot>)
    requires SameBut(m, m2, 0, lo, slots) && lo <= |m|
    requires forall s <- slots :: s.id >= lo
    ensures SameBelow(m, m2, lo)
  {
    forall i | 0 <= i < lo
      ensures m2[i] == m[i]
    {
      assert Get(m2, Slot(i, false)) == Get(m, Slot(i, false)) && Get(m2, Slot(i, true)) == Get(m, Slot(i, true));
    }
  }

  lemma SameButFrom(m: Memory, m2: Memory, lo: nat, from: nat, to: nat)
    requires SameBelow(m, m2, lo) && to <= lo
    ensures SameBut(m, m2, from, to, [])
  {
    assert forall i :: 0 <= i < lo ==> m2[i] == m2[..lo][i] == m[i];
  }

  /** The fragments from the j-th one on are replaced by one fragment. */
  lemma Restacked(m: Memory, m2: Memory, stack: seq<Frag>, regs: seq<Regex>, j: nat, f: Frag, r: Regex)
    requires Stacked(m, stack, regs) && j <= |regs|
    requires SameBelow(m, m2, Base(regs, j))
    requires Piece(m2, f, r, Base(regs, j)) && |m2| == Base(regs, j) + Size(r)
    ensures Stacked(m2, stack[..j] + [f], regs[..j] + [r])
  {
    hide Piece, Size, Base, SameBelow;
    var stack2, regs2 := stack[..j] + [f], regs[..j] + [r];
    BasePrefix(regs, regs2, j, j);
    LastBase(regs2, r);
    forall i | 0 <= i < |regs2|
      ensures Piece(m2, stack2[i], regs2[i], Base(regs2, i))
    {
      if i < j {
        OneKept(m, m2, stack, regs, i, j);
        BasePrefix(regs, regs2, i, j);
      }
    }
  }

  lemma BasePrefix(regs: seq<Regex>, regs2: seq<Regex>, i: nat, j: nat)
    requires i <= j <= |regs| && j <= |regs2| && regs[..j] == regs2[..j]
    ensures Base(regs, i) == Base(regs2, i)
  {
    hide Base;
    assert regs[..i] == regs[..j][..i] && regs2[..i] == regs2[..j][..i];
    BaseKept(regs, regs2, i);
  }

  lemma LastBase(regs: seq<Regex>, r: Regex)
    requires |regs| > 0 && regs[|regs| - 1] == r
    ensures Base(regs, |regs|) == Base(regs, |regs| - 1) + Size(r)
  {
  }

  lemma OneKept(m: Memory, m2: Memory, stack: seq<Frag>, regs: seq<Regex>, i: nat, j: nat)
    requires Stacked(m, stack, regs) && i < j <= |regs|
    requires SameBelow(m, m2, Base(regs, j))
    ensures Piece(m2, stack[i], regs[i], Base(regs, i))
  {
    hide Piece, Base;
    BaseGrows(regs, i, j);
    SameButFrom(m, m2, Base(regs, j), Base(regs, i), Base(regs, i) + Size(regs[i]));
    PieceKept(m, m2, stack[i], regs[i], Base(regs, i));
  }

  class Builder {
    var states: Memory

    /** The number of allocated states; the matching state is not one of them. */
    ghost predicate Valid()
      reads this
    {
      |states| > 0 && states[MATCH_ID] == MATCH_STATE
    }

    constructor ()
      ensures Valid() && |states| == 1
    {
      states := [MATCH_STATE];
    }

    method NewState(c: int, out: Ptr, out1: Ptr) returns (s: nat)
      modifies this
      ensures s == |old(states)| && states == old(states) + [State(c, out, out1)]
    {
      s := |states|;
      states := states + [State(c, out, out1)];
    }

    method List1(outp: Slot) returns (l: Ptr)
      requires outp.id < |states|
      modifies this
      ensures l == Link(outp) && states == Set(old(states), outp, Null)
    {
      l := Link(outp);
      states := Set(states, outp, Null);
    }

    /** Every arrow of the list is filled in, each exactly once, and no other arrow changes. */
    method Patch(list: Ptr, s: nat, ghost slots: seq<Slot>)
      requires Threaded(states, list, slots) && Distinct(slots)
      modifies this
      ensures |states| == |old(states)|
      ensures AllHold(states, slots, To(s))
      ensures SameBut(old(states), states, 0, |states|, slots)
    {
      var l := list;
      ghost var k := 0;
      while l.Link?
        invariant k <= |slots| && |states| == |old(states)|
        invariant Threaded(states, l, slots[k..])
        invariant AllHold(states, slots[..k], To(s))
        invariant SameBut(old(states), states, 0, |states|, slots[..k])
        decreases |slots| - k
      {
        var slot := l.slot;
        assert slot == slots[k];
        var next := Get(states, slot);
        ghost var before := states;
        states := Set(states, slot, To(s));
        assert slots[k..][1..] == slots[k + 1..];
        assert slots[..k + 1] == slots[..k] + [slot];
        assert slot !in slots[k + 1..] && slot !in slots[..k];
        ThreadedKept(before, states, next, slots[k + 1..]);
        AllHoldAppend(states, slots[..k], [slot], To(s));
        AllHoldOne(states, slot, To(s));
        l := next;
        k := k + 1;
      }
      assert slots[k..] == [];
      assert slots[..k] == slots;
    }

    /** The two lists become one; only the end of the first one is changed. */
    method Append(l1: Ptr, l2: Ptr, ghost s1: seq<Slot>, ghost s2: seq<Slot>) returns (l: Ptr)
      requires s1 != [] && Threaded(states, l1, s1) && Threaded(states, l2, s2)
      requires Distinct(s1) && forall s <- s1 :: s !in s2
      modifies this
      ensures |states| == |old(states)|
      ensures Threaded(states, l, s1 + s2)
      ensures SameBut(old(states), states, 0, |states|, s1)
    {
      l := l1;
      var cur := l1;
      ghost var k := 0;
      while Get(states, cur.slot).Link?
        invariant k < |s1| && Threaded(states, cur, s1[k..])
        invariant cur.Link? && cur.slot.id < |states|
        decreases |s1| - k
      {
        assert s1[k..][1..] == s1[k + 1..];
        cur := Get(states, cur.slot);
        k := k + 1;
      }
      assert s1[k..][1..] == s1[k + 1..];
      assert k == |s1| - 1;
      assert cur.slot == s1[k] && cur.slot in s1;
      ghost var before := states;
      states := Set(states, cur.slot, l2);
      ThreadedKept(before, states, l2, s2);
      ThreadedJoin(before, states, l1, s1, l2, s2);
    }

    method Literal(c: Byte) returns (f: Frag)
      modifies this
      ensures |states| == |old(states)| + 1 && SameBelow(old(states), states, |old(states)|)
      ensures Piece(states, f, Lit(c), |old(states)|)
    {
      var s := NewState(Label(c), Null, Null);
      var out := List1(Slot(s, false));
      f := Frag(s, out);
      assert Exits(Lit(c), s) == [Slot(s, false)];
    }

    method Catenate(e1: Frag, e2: Frag, ghost r1: Regex, ghost r2: Regex, ghost lo: nat) returns (f: Frag)
      requires Piece(states, e1, r1, lo) && Piece(states, e2, r2, lo + Size(r1))
      requires |states| == lo + Size(r1) + Size(r2)
      modifies this
      ensures |states| == |old(states)| && SameBelow(old(states), states, lo)
      ensures Piece(states, f, Cat(r1, r2), lo)
    {
      hide Fragment, Threaded, AllHold, SameBut;
      ghost var m := states;
      ExitsDistinct(r1, lo);
      Patch(e1.out, e2.start, Exits(r1, lo));
      f := Frag(e1.start, e2.out);
      SameButPart(m, states, 0, |m|, Exits(r1, lo), 0, lo, Exits(r1, lo));
      SameBelowFrom(m, states, lo, Exits(r1, lo));
      CatPiece(m, states, e1, e2, r1, r2, lo);
    }

    method Alternate(e1: Frag, e2: Frag, ghost r1: Regex, ghost r2: Regex, ghost lo: nat) returns (f: Frag)
      requires Piece(states, e1, r1, lo) && Piece(states, e2, r2, lo + Size(r1))
      requires |states| == lo + Size(r1) + Size(r2)
      modifies this
      ensures |states| == |old(states)| + 1 && SameBelow(old(states), states, lo)
      ensures Piece(states, f, Alt(r1, r2), lo)
    {
      hide Fragment, Threaded, AllHold, SameBut;
      ghost var m, mid := states, lo + Size(r1);
      var s := NewState(SPLIT, To(e1.start), To(e2.start));
      ghost var m1 := states;
      SameButFrom(m, m1, s, lo, mid);
      SameButFrom(m, m1, s, mid, s);
      PieceKept(m, m1, e1, r1, lo);
      PieceKept(m, m1, e2, r2, mid);
      ExitsDistinct(r1, lo);
      var out := Append(e1.out, e2.out, Exits(r1, lo), Exits(r2, mid));
      f := Frag(s, out);
      SameButPart(m1, states, 0, |m1|, Exits(r1, lo), 0, lo, Exits(r1, lo));
      SameBelowFrom(m1, states, lo, Exits(r1, lo));
      AltPiece(m1, states, e1, e2, out, r1, r2, lo);
    }

    method ZeroOrOne(e: Frag, ghost r: Regex, ghost lo: nat) returns (f: Frag)
      requires Piece(states, e, r, lo) && |states| == lo + Size(r)
      modifies this
      ensures |states| == |old(states)| + 1 && SameBelow(old(states), states, lo)
      ensures Piece(states, f, Quest(r), lo)
    {
      ghost var m := states;
      var s := NewState(SPLIT, To(e.start), Null);
      var l := List1(Slot(s, true));
      ghost var m2 := states;
      assert m2 == m + [State(SPLIT, To(e.start), Null)];
      assert Threaded(m2, l, [Slot(s, true)]);
      hide Fragment, Threaded, AllHold, SameBut;
      SameButFrom(m, m2, s, lo, s);
      PieceKept(m, m2, e, r, lo);
      ExitsDistinct(r, lo);
      var out := Append(e.out, l, Exits(r, lo), [Slot(s, true)]);
      f := Frag(s, out);
      SameButPart(m2, states, 0, |m2|, Exits(r, lo), 0, lo, Exits(r, lo));
      SameBelowFrom(m2, states, lo, Exits(r, lo));
      QuestPiece(m2, states, e, out, r, lo);
    }

    /** The split state of a loop, with the exits of e patched to it. */
    method LoopBack(e: Frag, ghost r: Regex, ghost lo: nat) returns (s: nat, out: Ptr)
      requires Piece(states, e, r, lo) && |states| == lo + Size(r)
      modifies this
      ensures s == lo + Size(r)
      ensures |states| == |old(states)| + 1 && SameBelow(old(states), states, lo)
      ensures Fragment(states, r, lo) && AllHold(states, Exits(r, lo), To(s))
      ensures SplitTo(states, s, To(e.start))
      ensures Threaded(states, out, [Slot(s, true)])
    {
      ghost var m := states;
      s := NewState(SPLIT, To(e.start), Null);
      SameButFrom(m, states, s, lo, s);
      PieceKept(m, states, e, r, lo);
      ghost var m1 := states;
      ExitsDistinct(r, lo);
      Patch(e.out, s, Exits(r, lo));
      ghost var m2 := states;
      SameBelowFrom(m1, m2, lo, Exits(r, lo));
      FragmentKept(m1, m2, r, lo);
      assert Get(m2, Slot(s, false)) == To(e.start);
      out := List1(Slot(s, true));
      FragmentKept(m2, states, r, lo);
      assert Get(states, Slot(s, false)) == To(e.start);
    }

    method ZeroOrMore(e: Frag, ghost r: Regex, ghost lo: nat) returns (f: Frag)
      requires Piece(states, e, r, lo) && |states| == lo + Size(r)
      modifies this
      ensures |states| == |old(states)| + 1 && SameBelow(old(states), states, lo)
      ensures Piece(states, f, Star(r), lo)
    {
      var s, out := LoopBack(e, r, lo);
      f := Frag(s, out);
      FragmentIs(states, Star(r), lo);
    }

    method OneOrMore(e: Frag, ghost r: Regex, ghost lo: nat) returns (f: Frag)
      requires Piece(states, e, r, lo) && |states| == lo + Size(r)
      modifies this
      ensures |states| == |old(states)| + 1 && SameBelow(old(states), states, lo)
      ensures Piece(states, f, RegexLang.Plus(r), lo)
    {
      var s, out := LoopBack(e, r, lo);
      f := Frag(e.start, out);
      FragmentIs(states, RegexLang.Plus(r), lo);
    }

    /** One symbol of the postfix text. */
    method Symbol(c: Byte, stack: seq<Frag>, ghost regs: seq<Regex>) returns (stack2: seq<Frag>)
      requires Valid() && Stacked(states, stack, regs)
      requires Push(regs, c).Some?
      modifies this
      ensures Valid() && Stacked(states, stack2, Push(regs, c).value)
    {
      hide Piece, Threaded, Fragment, Stacked, Base;
      ghost var m := states;
      ghost var n := |regs|;
      StackedTop(m, stack, regs);
      BaseFirst(regs, n);
      var top := |stack|;
      match c {
        case '.' =>
          StackedNext(m, stack, regs);
          BaseFirst(regs, n - 2);
          var f := Catenate(stack[top - 2], stack[top - 1], regs[n - 2], regs[n - 1], Base(regs, n - 2));
          stack2 := stack[..top - 2] + [f];
          Restacked(m, states, stack, regs, n - 2, f, Cat(regs[n - 2], regs[n - 1]));
        case '|' =>
          StackedNext(m, stack, regs);
          BaseFirst(regs, n - 2);
          var f := Alternate(stack[top - 2], stack[top - 1], regs[n - 2], regs[n - 1], Base(regs, n - 2));
          stack2 := stack[..top - 2] + [f];
          Restacked(m, states, stack, regs, n - 2, f, Alt(regs[n - 2], regs[n - 1]));
        case '?' =>
          BaseFirst(regs, n - 1);
          var f := ZeroOrOne(stack[top - 1], regs[n - 1], Base(regs, n - 1));
          stack2 := stack[..top - 1] + [f];
          Restacked(m, states, stack, regs, n - 1, f, Quest(regs[n - 1]));
        case '*' =>
          BaseFirst(regs, n - 1);
          var f := ZeroOrMore(stack[top - 1], regs[n - 1], Base(regs, n - 1));
          stack2 := stack[..top - 1] + [f];
          Restacked(m, states, stack, regs, n - 1, f, Star(regs[n - 1]));
        case '+' =>
          BaseFirst(regs, n - 1);
          var f := OneOrMore(stack[top - 1], regs[n - 1], Base(regs, n - 1));
          stack2 := stack[..top - 1] + [f];
          Restacked(m, states, stack, regs, n - 1, f, RegexLang.Plus(regs[n - 1]));
        case _ =>
          var f := Literal(c);
          stack2 := stack + [f];
          assert stack[..n] == stack && regs[..n] == regs;
          Restacked(m, states, stack, regs, n, f, Lit(c));
      }
    }

    /** The NFA of a postfix text that leaves one expression; NULL when it leaves more. Running out of
        operands, or of the room for 1000 fragments, is undefined in C and excluded. */
    method Post2Nfa(postfix: Text) returns (start: Ptr)
      requires Valid() && |states| == 1
      requires FitsStack(postfix)
      modifies this
      ensures Valid()
      ensures |Decode(postfix).value| > 1 ==> start == Null
      ensures |Decode(postfix).value| == 1 ==> start.To? && Finished(states, Decode(postfix).value[0], start.id)
    {
      hide Stacked, Piece;
      StackedNone(states);
      var stack: seq<Frag> := [];
      ghost var regs: seq<Regex> := [];
      var i := 0;
      while i < |postfix|
        invariant 0 <= i <= |postfix|
        invariant Valid() && Decode(postfix[..i]) == Some(regs)
        invariant Stacked(states, stack, regs) && |stack| <= STACK_SIZE
      {
        assert postfix[..i + 1][..i] == postfix[..i];
        DecodePrefix(postfix, i + 1);
        stack := Symbol(postfix[i], stack, regs);
        regs := Push(regs, postfix[i]).value;
        StackedTop(states, stack, regs);
        i := i + 1;
      }
      assert postfix[..i] == postfix;
      StackedTop(states, stack, regs);
      var e := stack[|stack| - 1];
      if |stack| - 1 != 0 {
        return Null;
      }
      start := Finish(e, regs[0], stack, regs);
    }

    /** The list of the last fragment is patched to the matching state. */
    method Finish(e: Frag, ghost r: Regex, stack: seq<Frag>, ghost regs: seq<Regex>) returns (start: Ptr)
      requires Valid() && Stacked(states, stack, regs) && stack == [e] && regs == [r]
      modifies this
      ensures Valid() && start.To? && Finished(states, r, start.id)
    {
      ghost var m := states;
      assert Piece(m, e, r, Base(regs, 0));
      assert Base(regs, 1) == 1 + Size(r);
      ExitsDistinct(r, 1);
      Patch(e.out, MATCH_ID, Exits(r, 1));
      SameBelowFrom(m, states, 1, Exits(r, 1));
      FragmentKept(m, states, r, 1);
      assert states[0] == states[..1][0] == m[..1][0];
      start := To(e.start);
    }
  }

  lemma StackedNone(m: Memory)
    requires |m| == 1
    ensures Stacked(m, [], [])
  {
  }

  lemma StackedTop(m: Memory, stack: seq<Frag>, regs: seq<Regex>)
    requires Stacked(m, stack, regs)
    ensures |stack| == |regs| && |m| == Base(regs, |regs|)
    ensures var n := |regs|;
            n > 0 ==>
              && Piece(m, stack[n - 1], regs[n - 1], Base(regs, n - 1))
              && |m| == Base(regs, n - 1) + Size(regs[n - 1])
  {
  }

  lemma StackedNext(m: Memory, stack: seq<Frag>, regs: seq<Regex>)
    requires Stacked(m, stack, regs) && |regs| > 1
    ensures var n := |regs|;
            && Piece(m, stack[n - 2], regs[n - 2], Base(regs, n - 2))
            && Base(regs, n - 1) == Base(regs, n - 2) + Size(regs[n - 2])
  {
  }

  /** No fragment owns the matching state. */
  lemma {:induction false} BaseFirst(regs: seq<Regex>, j: nat)
    requires j <= |regs|
    ensures Base(regs, j) >= 1
    decreases j
  {
    if j > 0 {
      BaseFirst(regs, j - 1);
    }
  }
}
