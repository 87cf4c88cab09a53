/** The two programs: an expression and texts in, the matching texts out (main in nfa.c and dfa1.c). */
module RegexMain {
  import opened Basics
  import opened RegexLang
  import opened RegexNfa
  import opened RegexBuild
  import opened RegexSim
  import opened RegexPostfix
  import opened RegexAccepted
  import opened RegexStack
  import opened RegexDfa
  import opened RegexCache

  /** The texts in the language of the expression, in order, without those that have bytes beyond 127. */
  ghost function Selected(r: Regex, texts: seq<Text>): seq<Text> {
    if texts == [] then []
    else
      var last := texts[|texts| - 1];
      Selected(r, texts[..|texts| - 1]) + if Matches(r, last) && Ascii(last) then [last] else []
  }

  lemma SelectedNext(r: Regex, texts: seq<Text>, i: nat)
    requires i < |texts|
    ensures Selected(r, texts[..i + 1]) ==
            Selected(r, texts[..i]) + if Matches(r, texts[i]) && Ascii(texts[i]) then [texts[i]] else []
  {
    assert texts[..i + 1][..i] == texts[..i];
  }

  method Build(re: Text) returns (nfa: Option<(Memory, nat)>, ghost reg: Regex)
    requires Usable(re)
    ensures nfa.None? <==> Translate(re).None?
    ensures nfa.Some? ==> (exists t :: Grammatical(re, t) && reg == RegT(t)) && Finished(nfa.value.0, reg, nfa.value.1)
  {
    reg := Lit('a');
    var post := Re2Post(re);
    if post.None? {
      return None, reg;
    }
    StackExactly(re, post.value);
    var b := new Builder();
    var start := b.Post2Nfa(post.value);
    reg := Decode(post.value).value[0];
    nfa := Some((b.states, start.id));
  }

  /** nfa.c: prints the texts in the language of the expression, or reports a bad one. */
  method NfaMain(re: Text, texts: seq<Text>) returns (r: Option<seq<Text>>)
    requires Usable(re)
    ensures r.None? <==> Translate(re).None?
    ensures r.Some? ==> exists t :: Grammatical(re, t) && r.value == Selected(RegT(t), texts)
  {
    var nfa, reg := Build(re);
    if nfa.None? {
      return None;
    }
    var (m, start) := nfa.value;
    FinishedClosed(m, reg, start);
    var sim := new Simulator(m);
    var out: seq<Text> := [];
    var i := 0;
    while i < |texts|
      invariant 0 <= i <= |texts| && sim.Valid() && sim.m == m
      invariant out == Selected(reg, texts[..i])
    {
      var yes := sim.Match(start, texts[i]);
      FinishedAccepts(m, reg, start, texts[i]);
      SelectedNext(reg, texts, i);
      if yes {
        out := out + [texts[i]];
      }
      i := i + 1;
    }
    assert texts[..i] == texts;
    r := Some(out);
  }

  /** dfa1.c: prints the same, for every bound on the cache and whatever qsort does, with one cache for all texts. */
  method DfaMain(re: Text, texts: seq<Text>, maxstates: int, arrange: Arrangement) returns (r: Option<seq<Text>>)
    requires Usable(re) && Arranges(arrange)
    ensures r.None? <==> Translate(re).None?
    ensures r.Some? ==> exists t :: Grammatical(re, t) && r.value == Selected(RegT(t), texts)
  {
    hide Finished, Cache.Valid;
    var nfa, reg := Build(re);
    if nfa.None? {
      return None;
    }
    var (m, start) := nfa.value;
    var cache := new Cache(m, reg, start, maxstates, arrange);
    var out: seq<Text> := [];
    var i := 0;
    while i < |texts|
      invariant 0 <= i <= |texts| && cache.Valid() && fresh(cache) && fresh(cache.sim)
      invariant cache.m == m && cache.start == start && cache.r == reg
      invariant out == Selected(reg, texts[..i])
    {
      var yes := cache.Match(texts[i]);
      FinishedAccepts(m, reg, start, texts[i]);
      SelectedNext(reg, texts, i);
      if yes {
        out := out + [texts[i]];
      }
      i := i + 1;
    }
    assert texts[..i] == texts;
    r := Some(out);
  }
}
