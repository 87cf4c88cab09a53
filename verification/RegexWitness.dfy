/** Expressions for which the cache of dfa1.c holds two states for one set, and for which a small one hides it. */
module RegexWitness {
  import opened Basics
  import opened RegexLang
  import opened RegexNfa
  import opened RegexSim
  import opened RegexDfa
  import opened RegexBuild
  import opened RegexPostfix
  import opened RegexAccepted
  import opened RegexTwins
  import opened RegexCache
  import opened RegexStack
  import opened RegexMain

  /** A library whose qsort leaves the entries where they are, which a comparison of their positions asks for. */
  const AS_FOUND: Arrangement := (l: seq<nat>) => l

  lemma AsFoundArranges()
    ensures Arranges(AS_FOUND)
  {
  }

  /** One step of addstate. */
  lemma AddedLetter(m: Memory, s: nat, l: seq<nat>, marks: set<nat>)
    requires s < |m| && s !in marks && m[s].c != SPLIT
    ensures Added(m, To(s), l, marks) == Marked(l + [s], marks + {s})
  {
  }

  lemma AddedAgain(m: Memory, s: nat, l: seq<nat>, marks: set<nat>)
    requires s in marks
    ensures Added(m, To(s), l, marks) == Marked(l, marks)
  {
  }

  lemma AddedSplit(m: Memory, s: nat, l: seq<nat>, marks: set<nat>)
    requires s < |m| && s !in marks && m[s].c == SPLIT
    ensures Added(m, To(s), l, marks) ==
            var a := Added(m, m[s].out, l, marks + {s});
            Added(m, m[s].out1, a.list, a.marks)
  {
  }

  lemma FollowedOne(m: Memory, s: nat, c: Byte)
    ensures Followed(m, [s], c) ==
            if s < |m| && m[s].c == c as int then Added(m, m[s].out, [], {}) else Marked([], {})
  {
    FollowedMore(m, [], s, c);
    assert [] + [s] == [s];
  }

  lemma FollowedTwo(m: Memory, s: nat, t: nat, c: Byte)
    ensures var f := Followed(m, [s], c);
            Followed(m, [s, t], c) == if t < |m| && m[t].c == c as int then Added(m, m[t].out, f.list, f.marks) else f
  {
    FollowedMore(m, [s], t, c);
    assert [s] + [t] == [s, t];
  }

  // ----- b|b+ -----

  const TWIN_TEXT: Text := "b|b+"
  const TWIN_TREE := Or(One(Piece(Char('b'), [])), Just(One(Piece(Char('b'), ['+']))))
  const TWIN := Alt(Lit('b'), Plus(Lit('b')))

  lemma TwinMemory(m: Memory, start: nat)
    requires Finished(m, TWIN, start)
    ensures |m| == 5 && start == 4 && m[0] == State(256, Null, Null)
    ensures m[1].c == m[2].c == 'b' as int && m[1].out == To(0) && m[2].out == To(3)
    ensures m[3] == State(257, To(2), To(0)) && m[4] == State(257, To(1), To(2))
  {
    hide Patched, Loop;
    var b, p := Lit('b'), Plus(Lit('b'));
    assert Size(b) == 1 && Size(p) == 2 && StartOf(p, 2) == 2 && StartOf(TWIN, 1) == 4;
    PatchedAlt(m, b, p, 1, To(0));
    PatchedLit(m, 'b', 1, To(0));
    PatchedPlus(m, b, 2, To(0));
    LoopPatched(m, b, 2, 3, To(0));
    PatchedLit(m, 'b', 2, To(3));
  }

  /** The closures that the steps of this machine add. */
  lemma TwinClosures(m: Memory, start: nat)
    requires Finished(m, TWIN, start)
    ensures FirstList(m, start) == [1, 2]
    ensures Added(m, To(0), [], {}) == Marked([0], {0})
    ensures Added(m, To(3), [0], {0}).list == [0, 2] && Added(m, To(3), [], {}).list == [2, 0]
  {
    hide Finished, Added;
    TwinMemory(m, start);
    AddedSplit(m, 4, [], {});
    AddedLetter(m, 1, [], {4});
    AddedLetter(m, 2, [1], {4, 1});
    assert {} + {4} == {4} && {4} + {1} == {4, 1} && [] + [1] == [1] && [1] + [2] == [1, 2];
    AddedLetter(m, 0, [], {});
    assert [] + [0] == [0] && {} + {0} == {0};
    AddedSplit(m, 3, [0], {0});
    AddedLetter(m, 2, [0], {0, 3});
    AddedAgain(m, 0, [0, 2], {0, 3, 2});
    assert {0} + {3} == {0, 3} && [0] + [2] == [0, 2] && {0, 3} + {2} == {0, 3, 2};
    AddedSplit(m, 3, [], {});
    AddedLetter(m, 2, [], {3});
    AddedLetter(m, 0, [2], {3, 2});
    assert {} + {3} == {3} && {3} + {2} == {3, 2} && [] + [2] == [2] && [2] + [0] == [2, 0];
  }

  /** The list after b and the one after bb hold the same states in different orders. */
  lemma TwinLists(m: Memory, start: nat)
    requires Finished(m, TWIN, start)
    ensures Produced(m, AS_FOUND, start, "") == [1, 2]
    ensures Produced(m, AS_FOUND, start, "b") == [0, 2]
    ensures Produced(m, AS_FOUND, start, "bb") == [2, 0]
  {
    hide Finished, Added, Followed, FirstList;
    TwinMemory(m, start);
    TwinClosures(m, start);
    FollowedTwo(m, 1, 2, 'b');
    FollowedOne(m, 1, 'b');
    assert NextList(m, [1, 2], 'b') == [0, 2];
    FollowedTwo(m, 0, 2, 'b');
    FollowedOne(m, 0, 'b');
    assert NextList(m, [0, 2], 'b') == [2, 0];
    assert "bb"[..1] == "b" && "b"[..0] == "";
  }

  lemma SameStates(x: nat, y: nat)
    requires x != y
    ensures Twins([x, y], [y, x])
  {
    assert forall z :: z in [x, y] <==> z in [y, x];
    assert [x, y][0] != [y, x][0];
  }

  lemma TwinUsable()
    ensures Translate(TWIN_TEXT).Some? && Usable(TWIN_TEXT)
    ensures Grammatical(TWIN_TEXT, TWIN_TREE) && RegT(TWIN_TREE) == TWIN
  {
    TextOfTree(TWIN_TEXT, TWIN_TREE);
  }

  /** A short text of the grammar is usable if its expression is. */
  lemma TextOfTree(re: Text, t: Alternation)
    requires Grammatical(re, t) && |re| < BUF_SIZE / 2 && '.' !in re && Need(RegT(t)) <= STACK_SIZE
    ensures Translate(re).Some? && Usable(re)
  {
    hide Translate, Need;
    TranslatesGrammar(t);
    GrammarUsable(re, t);
    forall t2 | Grammatical(re, t2)
      ensures RegT(t2) == RegT(t)
    {
      OneMeaning(re, t, t2);
    }
  }

  /** What the programs make of the text. */
  method TwinNfa() returns (m: Memory, start: nat)
    ensures Finished(m, TWIN, start)
  {
    hide Finished, Translate, Grammatical, RegT;
    TwinUsable();
    var nfa, reg := Build(TWIN_TEXT);
    m, start := nfa.value.0, nfa.value.1;
    ghost var t :| Grammatical(TWIN_TEXT, t) && reg == RegT(t);
    OneMeaning(TWIN_TEXT, t, TWIN_TREE);
  }

  lemma TwinsNotUniform(m: Memory, start: nat)
    requires Finished(m, TWIN, start)
    ensures !Uniform(m, AS_FOUND, start)
  {
    hide Finished, Produced, Elems;
    TwinLists(m, start);
    SameStates(0, 2);
    assert !ArrangedAlike(AS_FOUND, Produced(m, AS_FOUND, start, "b"), Produced(m, AS_FOUND, start, "bb"));
  }

  /** After the calls of re2post, post2nfa and match on b|b+ and bb, with a qsort that leaves the order alone, the
      cache has two live states for one set of NFA states. */
  method HangTwins(maxstates: int) returns (cache: Cache)
    requires maxstates >= 3
    ensures fresh(cache) && cache.Valid() && cache.r == TWIN && cache.maxstates == maxstates
    ensures exists i, j :: i in Ids(cache.tree) && j in Ids(cache.tree) && i != j &&
                           Elems(cache.heap[i].l) == Elems(cache.heap[j].l)
  {
    hide Finished, Arranges, Current, Reading, LiveAfter, Cache.Engine, GoodStates, ListsOf;
    AsFoundArranges();
    var m, start := TwinNfa();
    cache := new Cache(m, TWIN, start, maxstates, AS_FOUND);
    var yes := cache.Match("bb");
    ThreeLists(m, start, maxstates);
    cache.TwinStates();
  }

  lemma ThreeLists(m: Memory, start: nat, maxstates: int)
    requires Finished(m, TWIN, start) && maxstates >= 3
    ensures !NoTwins(Reading(m, AS_FOUND, start, maxstates, {}, "bb"))
  {
    hide Finished, Produced, Reading, Twins;
    var along := Along(m, AS_FOUND, start, "bb");
    assert {} + along == along;
    ReadingRoom(m, AS_FOUND, start, maxstates, {}, "bb");
    TwinLists(m, start);
    SameStates(0, 2);
    assert "bb"[..1] == "b";
    assert Current(m, AS_FOUND, start, "b") == [0, 2] && Current(m, AS_FOUND, start, "bb") == [2, 0];
    assert [0, 2] in along && [2, 0] in along;
  }

  // ----- b|a?bd? -----

  const HIDDEN := Alt(Lit('b'), Cat(Cat(Quest(Lit('a')), Lit('b')), Quest(Lit('d'))))

  lemma HiddenMemory(m: Memory, start: nat)
    requires Finished(m, HIDDEN, start)
    ensures |m| == 8 && start == 7 && m[0] == MATCH_STATE
    ensures m[1].c == 'b' as int && m[1].out == To(0)
    ensures m[2].c == 'a' as int && m[2].out == To(4)
    ensures m[3] == State(SPLIT, To(2), To(4))
    ensures m[6] == State(SPLIT, To(5), To(0)) && m[7] == State(SPLIT, To(1), To(3))
    ensures m[4].c == 'b' as int && m[4].out == To(6)
    ensures m[5].c == 'd' as int && m[5].out == To(0)
  {
    hide Patched, Loop;
    var a, b, d := Lit('a'), Lit('b'), Lit('d');
    var aq, dq := Quest(a), Quest(d);
    var ab := Cat(aq, b);
    var abd := Cat(ab, dq);
    assert Size(aq) == 2 && Size(ab) == 3 && Size(dq) == 2 && Size(abd) == 5;
    assert StartOf(dq, 5) == 6 && StartOf(b, 4) == 4 && StartOf(aq, 2) == 3 && StartOf(abd, 2) == 3;
    PatchedAlt(m, b, abd, 1, To(0));
    PatchedLit(m, 'b', 1, To(0));
    PatchedCat(m, ab, dq, 2, To(0));
    PatchedCat(m, aq, b, 2, To(6));
    PatchedQuest(m, a, 2, To(4));
    PatchedLit(m, 'a', 2, To(4));
    PatchedLit(m, 'b', 4, To(6));
    PatchedQuest(m, d, 5, To(0));
    PatchedLit(m, 'd', 5, To(0));
  }

  lemma HiddenClosures(m: Memory, start: nat)
    requires Finished(m, HIDDEN, start)
    ensures FirstList(m, start) == [1, 2, 4]
    ensures Added(m, To(0), [], {}) == Marked([0], {0}) && Added(m, To(4), [], {}).list == [4]
    ensures Added(m, To(6), [0], {0}).list == [0, 5] && Added(m, To(6), [], {}).list == [5, 0]
  {
    hide Finished, Added;
    HiddenMemory(m, start);
    AddedSplit(m, 7, [], {});
    AddedLetter(m, 1, [], {7});
    AddedSplit(m, 3, [1], {7, 1});
    AddedLetter(m, 2, [1], {7, 1, 3});
    AddedLetter(m, 4, [1, 2], {7, 1, 3, 2});
    assert {} + {7} == {7} && {7} + {1} == {7, 1} && {7, 1} + {3} == {7, 1, 3} && {7, 1, 3} + {2} == {7, 1, 3, 2};
    assert [] + [1] == [1] && [1] + [2] == [1, 2] && [1, 2] + [4] == [1, 2, 4];
    AddedLetter(m, 0, [], {});
    AddedLetter(m, 4, [], {});
    assert [] + [0] == [0] && {} + {0} == {0} && [] + [4] == [4];
    AddedSplit(m, 6, [0], {0});
    AddedLetter(m, 5, [0], {0, 6});
    AddedAgain(m, 0, [0, 5], {0, 6, 5});
    assert {0} + {6} == {0, 6} && [0] + [5] == [0, 5] && {0, 6} + {5} == {0, 6, 5};
    AddedSplit(m, 6, [], {});
    AddedLetter(m, 5, [], {6});
    AddedLetter(m, 0, [5], {6, 5});
    assert {} + {6} == {6} && {6} + {5} == {6, 5} && [] + [5] == [5] && [5] + [0] == [5, 0];
  }

  /** The six lists of the machine and the steps between them. */
  function HiddenStep(l: seq<nat>, c: Byte): seq<nat> {
    if l == [1, 2, 4] && c == 'b' then [0, 5]
    else if l == [1, 2, 4] && c == 'a' then [4]
    else if l == [4] && c == 'b' then [5, 0]
    else if (l == [0, 5] || l == [5, 0]) && c == 'd' then [0]
    else []
  }

  lemma HiddenNext(m: Memory, start: nat, l: seq<nat>, c: Byte)
    requires Finished(m, HIDDEN, start) && l in [[1, 2, 4], [0, 5], [5, 0], [4], [0], []]
    ensures NextList(m, l, c) == HiddenStep(l, c)
  {
    hide Finished, Added, FirstList;
    HiddenMemory(m, start);
    HiddenClosures(m, start);
    hide Followed;
    if |l| == 3 {
      FollowedMore(m, [1, 2], 4, c);
      assert [1, 2] + [4] == [1, 2, 4];
      FollowedTwo(m, 1, 2, c);
      FollowedOne(m, 1, c);
    } else if |l| == 2 {
      FollowedTwo(m, l[0], l[1], c);
      FollowedOne(m, l[0], c);
    } else if |l| == 1 {
      FollowedOne(m, l[0], c);
    } else {
      FollowedNone(m, c);
    }
  }

  lemma FollowedNone(m: Memory, c: Byte)
    ensures Followed(m, [], c) == Marked([], {})
  {
  }

  lemma {:induction false} HiddenLists(m: Memory, start: nat, w: Text)
    requires Finished(m, HIDDEN, start)
    ensures Current(m, AS_FOUND, start, w) in [[1, 2, 4], [0, 5], [5, 0], [4], [0], []]
    ensures w == [] ==> Current(m, AS_FOUND, start, w) == [1, 2, 4]
    ensures w != [] ==>
              Current(m, AS_FOUND, start, w) == HiddenStep(Current(m, AS_FOUND, start, w[..|w| - 1]), w[|w| - 1])
    decreases |w|
  {
    hide Finished, FirstList, NextList;
    if w == [] {
      HiddenClosures(m, start);
    } else {
      HiddenLists(m, start, w[..|w| - 1]);
      HiddenNext(m, start, Current(m, AS_FOUND, start, w[..|w| - 1]), w[|w| - 1]);
    }
  }

  /** The arrangement of this machine is not uniform either, but a cache for two states never has twins. So a bound must
      be large enough, not just above one, for the twins to show. */
  lemma HiddenTwins(m: Memory, start: nat, texts: seq<Text>)
    requires Finished(m, HIDDEN, start)
    ensures !Uniform(m, AS_FOUND, start)
    ensures NoTwins(LiveAfter(m, AS_FOUND, start, 2, texts))
  {
    hide Finished, Produced, Elems, LiveAfter, Current, NoTwins;
    HiddenTwo(m, start);
    HiddenApart(m, start);
    TwoStatesNoTwins(m, AS_FOUND, start, texts);
  }

  lemma HiddenTwo(m: Memory, start: nat)
    requires Finished(m, HIDDEN, start)
    ensures !Uniform(m, AS_FOUND, start)
  {
    hide Finished, Produced, Elems;
    HiddenLists(m, start, "");
    HiddenLists(m, start, "a");
    HiddenLists(m, start, "b");
    HiddenLists(m, start, "ab");
    assert "a"[..0] == "" && "b"[..0] == "" && "ab"[..1] == "a";
    SameStates(0, 5);
    assert !ArrangedAlike(AS_FOUND, Produced(m, AS_FOUND, start, "b"), Produced(m, AS_FOUND, start, "ab"));
  }

  lemma HiddenApart(m: Memory, start: nat)
    requires Finished(m, HIDDEN, start)
    ensures NoTwinSteps(m, AS_FOUND, start)
  {
    hide Finished, Current;
    HiddenLists(m, start, []);
    forall w: Text, c: Byte
      ensures !TwinStep(m, AS_FOUND, start, w, c)
    {
      HiddenLists(m, start, w);
      HiddenLists(m, start, w + [c]);
      assert (w + [c])[..|w|] == w;
      HiddenStepApart(Current(m, AS_FOUND, start, w), c);
    }
    forall w: Text
      ensures !Twins(Current(m, AS_FOUND, start, w), Current(m, AS_FOUND, start, []))
    {
      HiddenLists(m, start, w);
      FirstApart(Current(m, AS_FOUND, start, w));
    }
  }

  lemma HiddenStepApart(l: seq<nat>, c: Byte)
    requires l in [[1, 2, 4], [0, 5], [5, 0], [4], [0], []]
    ensures !Twins(l, HiddenStep(l, c))
  {
    if l != [] {
      assert l[0] in Elems(l) && l[|l| - 1] in Elems(l);
    }
  }

  lemma FirstApart(l: seq<nat>)
    requires l in [[1, 2, 4], [0, 5], [5, 0], [4], [0], []]
    ensures !Twins(l, [1, 2, 4])
  {
    assert 1 in Elems([1, 2, 4]);
  }
}
