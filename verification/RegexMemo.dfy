/** What the cache of dfa1.c remembers: which lists have a state, which steps are recorded, and how many lists it
    took. */
module RegexMemo {
  import opened Basics
  import opened RegexLang
  import opened RegexNfa
  import opened RegexSim
  import opened RegexDfa
  import opened RegexTwins

  /** The live lists, the steps recorded between them, and the number of lists that startlist and step have computed. */
  datatype Memo = Memo(live: set<seq<nat>>, steps: set<(seq<nat>, Byte)>, computed: int)

  /** dstate is asked for a list that has just been computed, as the step `from` or as the first one. Only a list
      that is new, in a cache that is not full, has its step recorded. */
  function Ask(maxstates: int, memo: Memo, from: Option<(seq<nat>, Byte)>, l: seq<nat>): Memo {
    var n := memo.computed + 1;
    if l in memo.live then Memo(memo.live, memo.steps, n)
    else if |memo.live| >= maxstates then Memo({l}, {}, n)
    else Memo(memo.live + {l}, memo.steps + (if from.Some? then {from.value} else {}), n)
  }

  lemma AskCases(maxstates: int, memo: Memo, from: Option<(seq<nat>, Byte)>, l: seq<nat>)
    ensures l in memo.live ==>
              Ask(maxstates, memo, from, l) == Memo(memo.live, memo.steps, memo.computed + 1)
    ensures l !in memo.live && |memo.live| >= maxstates ==>
              Ask(maxstates, memo, from, l) == Memo({} + {l}, {}, memo.computed + 1)
    ensures l !in memo.live && |memo.live| < maxstates ==>
              Ask(maxstates, memo, from, l) ==
              Memo(memo.live + {l}, memo.steps + (if from.Some? then {from.value} else {}), memo.computed + 1)
  {
    assert {} + {l} == {l};
  }

  /** A step from list l to list l2: it is computed unless it is recorded. */
  function Take(maxstates: int, memo: Memo, l: seq<nat>, c: Byte, l2: seq<nat>): Memo {
    if (l, c) in memo.steps then memo else Ask(maxstates, memo, Some((l, c)), l2)
  }

  lemma TakeCases(maxstates: int, memo: Memo, l: seq<nat>, c: Byte, l2: seq<nat>)
    ensures (l, c) in memo.steps ==> Take(maxstates, memo, l, c, l2) == memo
    ensures (l, c) !in memo.steps ==> Take(maxstates, memo, l, c, l2) == Ask(maxstates, memo, Some((l, c)), l2)
  {
  }

  lemma RemembersNone(m: Memory, arrange: Arrangement, start: nat, maxstates: int, memo: Memo)
    ensures Remembers(m, arrange, start, maxstates, memo, []) ==
            Ask(maxstates, memo, None, Current(m, arrange, start, []))
  {
  }

  /** What is remembered after match has read a text. */
  ghost function Remembers(m: Memory, arrange: Arrangement, start: nat, maxstates: int, memo: Memo, w: Text): Memo
    decreases |w|
  {
    if w == [] then Ask(maxstates, memo, None, Current(m, arrange, start, []))
    else
      var v := w[..|w| - 1];
      Take(maxstates, Remembers(m, arrange, start, maxstates, memo, v), Current(m, arrange, start, v), w[|w| - 1],
           Current(m, arrange, start, w))
  }

  lemma RemembersMore(m: Memory, arrange: Arrangement, start: nat, maxstates: int, memo: Memo, w: Text, c: Byte)
    ensures Remembers(m, arrange, start, maxstates, memo, w + [c]) ==
            Take(maxstates, Remembers(m, arrange, start, maxstates, memo, w), Current(m, arrange, start, w), c,
                 Current(m, arrange, start, w + [c]))
  {
    hide Current;
    assert (w + [c])[..|w|] == w;
  }

  /** Whether some step on the way through a text was recorded when it was due. */
  ghost predicate Recalled(m: Memory, arrange: Arrangement, start: nat, maxstates: int, memo: Memo, w: Text)
    decreases |w|
  {
    w != [] &&
    var v := w[..|w| - 1];
    || Recalled(m, arrange, start, maxstates, memo, v)
    || (Current(m, arrange, start, v), w[|w| - 1]) in Remembers(m, arrange, start, maxstates, memo, v).steps
  }

  /** Reading a text never takes more lists than the NFA does, one and one for each character, and it takes less
      exactly if some step was recorded. */
  lemma {:induction false} ListsSaved(m: Memory, arrange: Arrangement, start: nat, maxstates: int, memo: Memo, w: Text)
    ensures var saved := memo.computed + 1 + |w| - Remembers(m, arrange, start, maxstates, memo, w).computed;
            saved >= 0 && (saved > 0 <==> Recalled(m, arrange, start, maxstates, memo, w))
    decreases |w|
  {
    hide Current;
    if w != [] {
      ListsSaved(m, arrange, start, maxstates, memo, w[..|w| - 1]);
    }
  }

  /** Steps are recorded only from live lists to live lists. */
  ghost predicate Kept(m: Memory, arrange: Arrangement, memo: Memo) {
    forall l, c :: (l, c) in memo.steps ==> l in memo.live && arrange(NextList(m, l, c)) in memo.live
  }

  /** Which lists are live does not depend on which steps are recorded. */
  lemma {:induction false} RemembersLive(m: Memory, arrange: Arrangement, start: nat, maxstates: int, memo: Memo,
                                         w: Text)
    requires Kept(m, arrange, memo)
    ensures var after := Remembers(m, arrange, start, maxstates, memo, w);
            && Kept(m, arrange, after) && Current(m, arrange, start, w) in after.live
            && after.live == Reading(m, arrange, start, maxstates, memo.live, w)
    decreases |w|
  {
    hide NextList, Current, Reading;
    if w == [] {
      ReadingNone(m, arrange, start, maxstates, memo.live);
    } else {
      var v, c := w[..|w| - 1], w[|w| - 1];
      RemembersLive(m, arrange, start, maxstates, memo, v);
      assert v + [c] == w;
      ReadingMore(m, arrange, start, maxstates, memo.live, v, c);
    }
  }
}
