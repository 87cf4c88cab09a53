/** Which lists the cache of dfa1.c holds, and when it holds two states for one set of NFA states. */
module RegexTwins {
  import opened Basics
  import opened RegexLang
  import opened RegexNfa
  import opened RegexSim
  import opened RegexDfa

  // ----- the lists requested while a text is read -----

  /** The list of the DFA state after a text. */
  ghost function Current(m: Memory, arrange: Arrangement, start: nat, w: Text): seq<nat>
    decreases |w|, 1
  {
    arrange(Produced(m, arrange, start, w))
  }

  /** The list that startlist or step produces after a text, before it is arranged. */
  ghost function Produced(m: Memory, arrange: Arrangement, start: nat, w: Text): seq<nat>
    decreases |w|, 0
  {
    if w == [] then FirstList(m, start)
    else NextList(m, Current(m, arrange, start, w[..|w| - 1]), w[|w| - 1])
  }

  /** The live lists after dstate is asked for a list: a full cache is thrown away first. */
  function Requested(maxstates: int, live: set<seq<nat>>, l: seq<nat>): set<seq<nat>> {
    if l in live then live else if |live| >= maxstates then {l} else live + {l}
  }

  lemma RequestedCases(maxstates: int, live: set<seq<nat>>, l: seq<nat>)
    ensures l in live ==> Requested(maxstates, live, l) == live
    ensures l !in live && |live| >= maxstates ==> Requested(maxstates, live, l) == {} + {l}
    ensures l !in live && |live| < maxstates ==> Requested(maxstates, live, l) == live + {l}
  {
    assert {} + {l} == {l};
  }

  /** The live lists after match has read a text. While it reads, they are those after its prefixes. */
  ghost function Reading(m: Memory, arrange: Arrangement, start: nat, maxstates: int, live: set<seq<nat>>,
                         w: Text): set<seq<nat>>
    decreases |w|
  {
    Requested(maxstates, if w == [] then live else Reading(m, arrange, start, maxstates, live, w[..|w| - 1]),
              Current(m, arrange, start, w))
  }

  lemma ReadingNone(m: Memory, arrange: Arrangement, start: nat, maxstates: int, live: set<seq<nat>>)
    ensures Reading(m, arrange, start, maxstates, live, []) ==
            Requested(maxstates, live, Current(m, arrange, start, []))
  {
  }

  lemma ReadingMore(m: Memory, arrange: Arrangement, start: nat, maxstates: int, live: set<seq<nat>>, w: Text, c: Byte)
    ensures var l := arrange(NextList(m, Current(m, arrange, start, w), c));
            && Current(m, arrange, start, w + [c]) == l
            && Reading(m, arrange, start, maxstates, live, w + [c]) ==
               Requested(maxstates, Reading(m, arrange, start, maxstates, live, w), l)
  {
    assert (w + [c])[..|w|] == w;
  }

  /** The live lists of one cache after it has read some texts. */
  ghost function LiveAfter(m: Memory, arrange: Arrangement, start: nat, maxstates: int,
                           texts: seq<Text>): set<seq<nat>> {
    if texts == [] then {}
    else
      var n := |texts| - 1;
      Reading(m, arrange, start, maxstates, LiveAfter(m, arrange, start, maxstates, texts[..n]), texts[n])
  }

  // ----- two states for one set -----

  ghost predicate Twins(a: seq<nat>, b: seq<nat>) {
    a != b && Elems(a) == Elems(b)
  }

  ghost predicate NoTwins(live: set<seq<nat>>) {
    forall a, b :: a in live && b in live ==> !Twins(a, b)
  }

  /** Of the lists that startlist and step produce, those with the same states are arranged to the same list. */
  ghost predicate Uniform(m: Memory, arrange: Arrangement, start: nat) {
    forall v: Text, w: Text :: ArrangedAlike(arrange, Produced(m, arrange, start, v), Produced(m, arrange, start, w))
  }

  ghost predicate ArrangedAlike(arrange: Arrangement, k: seq<nat>, l: seq<nat>) {
    Elems(k) == Elems(l) ==> arrange(k) == arrange(l)
  }

  lemma ArrangedElems(arrange: Arrangement, l: seq<nat>)
    requires Arranges(arrange)
    ensures Elems(arrange(l)) == Elems(l)
  {
    forall x: nat
      ensures x in arrange(l) <==> x in l
    {
      assert x in multiset(arrange(l)) <==> x in multiset(l);
    }
  }

  /** Every live list is the list of some text. */
  ghost predicate AllCurrent(m: Memory, arrange: Arrangement, start: nat, live: set<seq<nat>>) {
    forall l <- live :: exists w: Text :: l == Current(m, arrange, start, w)
  }

  lemma {:induction false} ReadingCurrent(m: Memory, arrange: Arrangement, start: nat, maxstates: int,
                                          live: set<seq<nat>>, w: Text)
    requires AllCurrent(m, arrange, start, live)
    ensures AllCurrent(m, arrange, start, Reading(m, arrange, start, maxstates, live, w))
    decreases |w|
  {
    hide Current;
    if w != [] {
      ReadingCurrent(m, arrange, start, maxstates, live, w[..|w| - 1]);
    }
  }

  lemma {:induction false} LiveCurrent(m: Memory, arrange: Arrangement, start: nat, maxstates: int, texts: seq<Text>)
    ensures AllCurrent(m, arrange, start, LiveAfter(m, arrange, start, maxstates, texts))
    decreases |texts|
  {
    if texts != [] {
      var n := |texts| - 1;
      LiveCurrent(m, arrange, start, maxstates, texts[..n]);
      ReadingCurrent(m, arrange, start, maxstates, LiveAfter(m, arrange, start, maxstates, texts[..n]), texts[n]);
    }
  }

  /** With a uniform arrangement no run of a cache, whatever its bound, has two live states for one set. */
  lemma UniformNoTwins(m: Memory, arrange: Arrangement, start: nat, maxstates: int, texts: seq<Text>)
    requires Arranges(arrange) && Uniform(m, arrange, start)
    ensures NoTwins(LiveAfter(m, arrange, start, maxstates, texts))
  {
    hide Produced, Elems, LiveAfter;
    var live := LiveAfter(m, arrange, start, maxstates, texts);
    LiveCurrent(m, arrange, start, maxstates, texts);
    forall a, b | a in live && b in live
      ensures !Twins(a, b)
    {
      var v: Text :| a == Current(m, arrange, start, v);
      var w: Text :| b == Current(m, arrange, start, w);
      var k, l := Produced(m, arrange, start, v), Produced(m, arrange, start, w);
      ArrangedElems(arrange, k);
      ArrangedElems(arrange, l);
      assert ArrangedAlike(arrange, k, l);
    }
  }

  /** The lists met on the way through a text. */
  ghost function Along(m: Memory, arrange: Arrangement, start: nat, w: Text): (s: set<seq<nat>>)
    ensures |s| <= |w| + 1
    decreases |w|
  {
    (if w == [] then {} else Along(m, arrange, start, w[..|w| - 1])) + {Current(m, arrange, start, w)}
  }

  /** As long as there is room, reading a text adds the lists met on the way. */
  lemma {:induction false} ReadingRoom(m: Memory, arrange: Arrangement, start: nat, maxstates: int, live: set<seq<nat>>,
                                       w: Text)
    requires |live + Along(m, arrange, start, w)| <= maxstates
    ensures Reading(m, arrange, start, maxstates, live, w) == live + Along(m, arrange, start, w)
    decreases |w|
  {
    hide Current;
    var along, l := Along(m, arrange, start, w), Current(m, arrange, start, w);
    var before, rest := live, if w == [] then {} else Along(m, arrange, start, w[..|w| - 1]);
    assert along == rest + {l};
    if w != [] {
      Smaller(live + rest, live + along);
      ReadingRoom(m, arrange, start, maxstates, live, w[..|w| - 1]);
      before := live + rest;
    }
    assert before == live + rest;
    assert live + along == before + {l};
    assert l !in before ==> |before + {l}| == |before| + 1;
  }

  lemma Smaller(a: set<seq<nat>>, b: set<seq<nat>>)
    requires a <= b
    ensures |a| <= |b|
  {
    assert b == a + (b - a);
  }

  /** A cache with room for the lists of two texts keeps the states of both. */
  lemma BothLive(m: Memory, arrange: Arrangement, start: nat, maxstates: int, v: Text, w: Text)
    requires |Along(m, arrange, start, v) + Along(m, arrange, start, w)| <= maxstates
    ensures var live := LiveAfter(m, arrange, start, maxstates, [v, w]);
            Current(m, arrange, start, v) in live && Current(m, arrange, start, w) in live
  {
    hide Current, Reading;
    var a, b := Along(m, arrange, start, v), Along(m, arrange, start, w);
    assert [v][..0] == [] && [v, w][..1] == [v];
    assert LiveAfter(m, arrange, start, maxstates, []) == {};
    Smaller(a, a + b);
    assert {} + a == a;
    ReadingRoom(m, arrange, start, maxstates, {}, v);
    assert LiveAfter(m, arrange, start, maxstates, [v]) == a;
    ReadingRoom(m, arrange, start, maxstates, a, w);
  }

  /** If two texts have lists that are not arranged alike, every cache with room for their lists has two live states
      for one set after reading them. */
  lemma RoomShowsTwins(m: Memory, arrange: Arrangement, start: nat, maxstates: int, v: Text, w: Text)
    requires Arranges(arrange)
    requires !ArrangedAlike(arrange, Produced(m, arrange, start, v), Produced(m, arrange, start, w))
    requires |Along(m, arrange, start, v) + Along(m, arrange, start, w)| <= maxstates
    ensures !NoTwins(LiveAfter(m, arrange, start, maxstates, [v, w]))
  {
    hide Produced, Elems, LiveAfter, Along;
    BothLive(m, arrange, start, maxstates, v, w);
    ArrangedElems(arrange, Produced(m, arrange, start, v));
    ArrangedElems(arrange, Produced(m, arrange, start, w));
    assert Twins(Current(m, arrange, start, v), Current(m, arrange, start, w));
  }

  /** No run of a cache has two live states for one set, if and only if the arrangement is uniform. */
  lemma NoTwinsExactly(m: Memory, arrange: Arrangement, start: nat)
    requires Arranges(arrange)
    ensures Uniform(m, arrange, start) <==>
            forall maxstates: int, texts: seq<Text> :: NoTwins(LiveAfter(m, arrange, start, maxstates, texts))
  {
    hide Produced, LiveAfter, NoTwins, ArrangedAlike, Along;
    if Uniform(m, arrange, start) {
      forall maxstates: int, texts: seq<Text>
        ensures NoTwins(LiveAfter(m, arrange, start, maxstates, texts))
      {
        UniformNoTwins(m, arrange, start, maxstates, texts);
      }
    } else {
      var v: Text, w: Text :| !ArrangedAlike(arrange, Produced(m, arrange, start, v), Produced(m, arrange, start, w));
      var room := |Along(m, arrange, start, v) + Along(m, arrange, start, w)|;
      RoomShowsTwins(m, arrange, start, room, v, w);
    }
  }

  /** With a bound that lets every list of the machine live, the arrangement need be looked at for that bound alone. */
  lemma NoTwinsWithRoom(m: Memory, arrange: Arrangement, start: nat, lists: set<seq<nat>>, maxstates: int)
    requires Arranges(arrange) && |lists| <= maxstates
    requires forall w: Text :: Current(m, arrange, start, w) in lists
    ensures Uniform(m, arrange, start) <==>
            forall texts: seq<Text> :: NoTwins(LiveAfter(m, arrange, start, maxstates, texts))
  {
    hide Produced, LiveAfter, NoTwins, ArrangedAlike, Along, Current;
    if Uniform(m, arrange, start) {
      forall texts: seq<Text>
        ensures NoTwins(LiveAfter(m, arrange, start, maxstates, texts))
      {
        UniformNoTwins(m, arrange, start, maxstates, texts);
      }
    } else {
      var v: Text, w: Text :| !ArrangedAlike(arrange, Produced(m, arrange, start, v), Produced(m, arrange, start, w));
      AlongWithin(m, arrange, start, lists, v);
      AlongWithin(m, arrange, start, lists, w);
      Smaller(Along(m, arrange, start, v) + Along(m, arrange, start, w), lists);
      RoomShowsTwins(m, arrange, start, maxstates, v, w);
    }
  }

  lemma {:induction false} AlongWithin(m: Memory, arrange: Arrangement, start: nat, lists: set<seq<nat>>, w: Text)
    requires forall v: Text :: Current(m, arrange, start, v) in lists
    ensures Along(m, arrange, start, w) <= lists
    decreases |w|
  {
    hide Current;
    if w != [] {
      AlongWithin(m, arrange, start, lists, w[..|w| - 1]);
    }
  }

  // ----- a comparison of what the entries hold -----

  ghost predicate Ascending(l: seq<nat>) {
    forall i, j :: 0 <= i < j < |l| ==> l[i] <= l[j]
  }

  lemma {:induction false} AddedLists(m: Memory, p: Ptr, l: seq<nat>, marks: set<nat>)
    requires Lists(m, l, marks)
    ensures var a := Added(m, p, l, marks); Lists(m, a.list, a.marks)
    decreases Below(|m|) - marks
  {
    if p.To? && p.id < |m| && p.id !in marks {
      var s := p.id;
      assert s in Below(|m|) - marks;
      if m[s].c == SPLIT {
        AddedLists(m, m[s].out, l, marks + {s});
        var a := Added(m, m[s].out, l, marks + {s});
        AddedLists(m, m[s].out1, a.list, a.marks);
      }
    }
  }

  lemma {:induction false} FollowedLists(m: Memory, clist: seq<nat>, c: Byte)
    ensures var f := Followed(m, clist, c); Lists(m, f.list, f.marks)
    decreases |clist|
  {
    hide Added;
    if clist != [] {
      var f, s := Followed(m, clist[..|clist| - 1], c), clist[|clist| - 1];
      FollowedLists(m, clist[..|clist| - 1], c);
      if s < |m| {
        AddedLists(m, m[s].out, f.list, f.marks);
      }
    }
  }

  lemma ProducedDistinct(m: Memory, arrange: Arrangement, start: nat, w: Text)
    ensures Distinct(Produced(m, arrange, start, w))
  {
    hide Added, Followed, Current;
    if w == [] {
      AddedLists(m, To(start), [], {});
    } else {
      FollowedLists(m, Current(m, arrange, start, w[..|w| - 1]), w[|w| - 1]);
    }
  }

  lemma {:induction false} AscendingOnce(a: seq<nat>, b: seq<nat>)
    requires Ascending(a) && Distinct(a) && Ascending(b) && Distinct(b) && Elems(a) == Elems(b)
    ensures a == b
    decreases |a|
  {
    NoElems(a);
    NoElems(b);
    if a != [] {
      var i, j := |a| - 1, |b| - 1;
      assert a[i] in Elems(b) && b[j] in Elems(a);
      assert a[i] == b[j];
      FrontElems(a);
      FrontElems(b);
      AscendingOnce(a[..i], b[..j]);
      assert a == a[..i] + [a[i]] && b == b[..j] + [b[j]];
    }
  }

  lemma NoElems(a: seq<nat>)
    ensures Elems(a) == {} <==> a == []
  {
    if a != [] {
      assert a[0] in Elems(a);
    }
  }

  lemma FrontElems(a: seq<nat>)
    requires a != [] && Distinct(a)
    ensures var i := |a| - 1; Elems(a[..i]) == Elems(a) - {a[i]}
  {
    var i := |a| - 1;
    assert forall x <- a[..i] :: x != a[i];
    assert forall x <- a :: x == a[i] || x in a[..i];
  }

  /** Were the entries compared by what they hold, as the comment on ptrcmp has it, no set would ever have two
      states. */
  lemma SortingIsUniform(m: Memory, arrange: Arrangement, start: nat)
    requires Arranges(arrange) && forall l: seq<nat> :: Ascending(arrange(l))
    ensures Uniform(m, arrange, start)
  {
    hide Produced, Elems, Distinct, Ascending;
    forall v: Text, w: Text
      ensures ArrangedAlike(arrange, Produced(m, arrange, start, v), Produced(m, arrange, start, w))
    {
      var k, l := Produced(m, arrange, start, v), Produced(m, arrange, start, w);
      if Elems(k) == Elems(l) {
        ProducedDistinct(m, arrange, start, v);
        ProducedDistinct(m, arrange, start, w);
        Rearranged(k, arrange(k));
        Rearranged(l, arrange(l));
        AscendingOnce(arrange(k), arrange(l));
      }
    }
  }

  // ----- a bound of two -----

  /** No list steps to one with the same states in another order, nor is one such for the list at the start. */
  ghost predicate NoTwinSteps(m: Memory, arrange: Arrangement, start: nat) {
    && (forall w: Text, c: Byte :: !TwinStep(m, arrange, start, w, c))
    && (forall w: Text :: !Twins(Current(m, arrange, start, w), Current(m, arrange, start, [])))
  }

  ghost predicate TwinStep(m: Memory, arrange: Arrangement, start: nat, w: Text, c: Byte) {
    Twins(Current(m, arrange, start, w), Current(m, arrange, start, w + [c]))
  }

  /** A cache for two states holds twins only next to each other in a run, so it may have none although the arrangement
      is not uniform. */
  lemma {:induction false} ReadingTwo(m: Memory, arrange: Arrangement, start: nat, live: set<seq<nat>>, w: Text)
    requires NoTwinSteps(m, arrange, start) && AllCurrent(m, arrange, start, live) && NoTwins(live) && |live| <= 2
    ensures var live2 := Reading(m, arrange, start, 2, live, w);
            NoTwins(live2) && |live2| <= 2 && Current(m, arrange, start, w) in live2
    decreases |w|
  {
    hide Current, Twins;
    var l := Current(m, arrange, start, w);
    if w == [] {
      forall a <- live
        ensures !Twins(a, l) && !Twins(l, a)
      {
        var v: Text :| a == Current(m, arrange, start, v);
        TwinsSwap(a, l);
      }
      OneMore(live, l);
    } else {
      var n := |w| - 1;
      var before := Reading(m, arrange, start, 2, live, w[..n]);
      ReadingTwo(m, arrange, start, live, w[..n]);
      assert w[..n] + [w[n]] == w;
      assert !TwinStep(m, arrange, start, w[..n], w[n]);
      var p := Current(m, arrange, start, w[..n]);
      TwinsSwap(p, l);
      if l !in before && |before| < 2 {
        assert before == {p} by {
          Alone(before, p);
        }
        OneMore(before, l);
      } else {
        Single(l);
      }
    }
  }

  lemma Alone(s: set<seq<nat>>, p: seq<nat>)
    requires |s| < 2 && p in s
    ensures s == {p}
  {
    assert |s - {p}| == 0;
  }

  lemma Single(l: seq<nat>)
    ensures NoTwins({l})
  {
  }

  lemma TwinsSwap(a: seq<nat>, b: seq<nat>)
    ensures Twins(a, b) <==> Twins(b, a)
    ensures !Twins(a, a)
  {
  }

  lemma OneMore(live: set<seq<nat>>, l: seq<nat>)
    requires NoTwins(live) && forall a <- live :: !Twins(a, l) && !Twins(l, a)
    ensures NoTwins(Requested(2, live, l)) && l in Requested(2, live, l)
    ensures |live| <= 2 ==> |Requested(2, live, l)| <= 2
  {
    TwinsSwap(l, l);
    hide Twins;
  }

  lemma {:induction false} TwoStatesNoTwins(m: Memory, arrange: Arrangement, start: nat, texts: seq<Text>)
    requires NoTwinSteps(m, arrange, start)
    ensures var live := LiveAfter(m, arrange, start, 2, texts); NoTwins(live) && |live| <= 2
    decreases |texts|
  {
    hide NoTwinSteps, NoTwins;
    if texts == [] {
      Nothing();
    } else {
      var n := |texts| - 1;
      TwoStatesNoTwins(m, arrange, start, texts[..n]);
      LiveCurrent(m, arrange, start, 2, texts[..n]);
      ReadingTwo(m, arrange, start, LiveAfter(m, arrange, start, 2, texts[..n]), texts[n]);
    }
  }

  lemma Nothing()
    ensures NoTwins({})
  {
  }
}
