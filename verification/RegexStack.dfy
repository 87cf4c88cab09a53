/** When the stack of 1000 fragments in post2nfa is enough. */
module RegexStack {
  import opened Basics
  import opened RegexLang
  import opened RegexBuild
  import opened RegexPostfix
  import opened RegexAccepted

  /** How many fragments building r needs at once. */
  function Need(r: Regex): (n: nat)
    ensures n > 0
  {
    match r
    case Lit(_) => 1
    case Cat(a, b) => Max(Need(a), 1 + Need(b))
    case Alt(a, b) => Max(Need(a), 1 + Need(b))
    case _ => Need(r.a)
  }

  lemma {:induction false} DecodeNeeds(stack: seq<Regex>, r: Regex, k: nat)
    requires PlainLiterals(r) && k <= |Post(r)|
    ensures var s := DecodeFrom(stack, Post(r)[..k]);
            s.Some? && |s.value| <= |stack| + Need(r)
    decreases r, 1
  {
    if r.Lit? {
      if k == 1 {
        assert Post(r)[..1] == Post(r);
        DecodePost(stack, r);
      }
    } else if r.Cat? || r.Alt? {
      if k == |Post(r)| {
        assert Post(r)[..k] == Post(r);
        DecodePost(stack, r);
      } else {
        DecodeNeedsTwo(stack, r, k);
        assert Post(r)[..k] == (Post(r.a) + Post(r.b))[..k];
      }
    } else {
      if k == |Post(r)| {
        assert Post(r)[..k] == Post(r);
        DecodePost(stack, r);
      } else {
        DecodeNeeds(stack, r.a, k);
        assert Post(r)[..k] == Post(r.a)[..k];
      }
    }
  }

  lemma {:induction false} DecodeNeedsTwo(stack: seq<Regex>, r: Regex, k: nat)
    requires r.Cat? || r.Alt?
    requires PlainLiterals(r) && k <= |Post(r.a)| + |Post(r.b)|
    ensures var s := DecodeFrom(stack, (Post(r.a) + Post(r.b))[..k]);
            s.Some? && |s.value| <= |stack| + Need(r)
    decreases r, 0
  {
    var x, y := Post(r.a), Post(r.b);
    if k <= |x| {
      assert (x + y)[..k] == x[..k];
      DecodeNeeds(stack, r.a, k);
    } else {
      var j := k - |x|;
      assert (x + y)[..k] == x + y[..j];
      DecodeFromAppend(stack, x, y[..j]);
      DecodePost(stack, r.a);
      DecodeNeeds(stack + [r.a], r.b, j);
    }
  }

  /** The stack does get as high. */
  lemma {:induction false} NeedReached(stack: seq<Regex>, r: Regex) returns (k: nat)
    requires PlainLiterals(r)
    ensures k <= |Post(r)|
    ensures var s := DecodeFrom(stack, Post(r)[..k]);
            s.Some? && |s.value| == |stack| + Need(r)
    decreases r
  {
    if r.Lit? {
      k := 1;
      assert Post(r)[..1] == Post(r);
      DecodePost(stack, r);
    } else if r.Cat? || r.Alt? {
      var x, y := Post(r.a), Post(r.b);
      if Need(r.a) >= 1 + Need(r.b) {
        k := NeedReached(stack, r.a);
        assert Post(r)[..k] == x[..k];
      } else {
        var j := NeedReached(stack + [r.a], r.b);
        k := |x| + j;
        assert Post(r)[..k] == x + y[..j];
        DecodeFromAppend(stack, x, y[..j]);
        DecodePost(stack, r.a);
      }
    } else {
      k := NeedReached(stack, r.a);
      assert Post(r)[..k] == Post(r.a)[..k];
    }
  }

  /** The postfix text of r fits the stack if and only if r needs no more than its size. */
  lemma FitsExactly(r: Regex)
    requires PlainLiterals(r)
    ensures FitsStack(Post(r)) <==> Need(r) <= 1000
  {
    hide Decode, DecodeFrom, Post, Need, PlainLiterals;
    var post := Post(r);
    DecodeExactly(r);
    if Need(r) <= STACK_SIZE {
      forall i | 0 <= i <= |post| && Decode(post[..i]).Some?
        ensures |Decode(post[..i]).value| <= STACK_SIZE
      {
        DecodeIsFrom(post[..i]);
        DecodeNeeds([], r, i);
      }
    } else {
      var k := NeedReached([], r);
      DecodeIsFrom(post[..k]);
    }
  }

  /** What the programs may be given. If re2post accepts it, it has no internal sign of concatenation, no end that
      leaves an operator without operands, and an expression that needs no more than the stack holds. */
  ghost predicate Usable(re: Text) {
    Translate(re).Some? ==>
      && '.' !in re
      && re != [] && re[|re| - 1] != '|'
      && forall t | Grammatical(re, t) :: Need(RegT(t)) <= 1000
  }

  /** post2nfa keeps to its stack if and only if the text is usable. */
  lemma StackExactly(re: Text, post: Text)
    requires Translate(re) == Some(post)
    ensures FitsStack(post) <==> Usable(re)
    ensures FitsStack(post) ==> exists t :: Grammatical(re, t) && Decode(post) == Some([RegT(t)])
  {
    hide Decode, Post, Need, Translate, PlainLiterals;
    UsableExactly(re, post);
    AcceptedOnly(re, post);
    if t :| Grammatical(re, t) && post == Post(RegT(t)) {
      GrammarUsable(re, t);
      if '.' in re {
        assert Decode(post).None?;
      } else {
        PlainT(t);
        FitsExactly(RegT(t));
        forall t2 | Grammatical(re, t2)
          ensures RegT(t2) == RegT(t)
        {
          OneMeaning(re, t, t2);
        }
      }
    }
  }

  // ----- expressions with few bars, and with many -----

  lemma BarsOf(a: Text, b: Text, c: Text)
    ensures multiset(a + b + c)['|'] == multiset(a)['|'] + multiset(b)['|'] + multiset(c)['|']
  {
  }

  /** The stack grows by one for each bar and each group at most. */
  lemma {:induction false} NeedT(t: Alternation)
    ensures Need(RegT(t)) <= multiset(ShowT(t))['|'] + DepthT(t) + 2
    decreases t, 1
  {
    match t
    case Just(b) => NeedB(b);
    case Or(b, rest) =>
      NeedB(b);
      NeedT(rest);
      BarsOf(ShowB(b), "|", ShowT(rest));
  }

  lemma {:induction false} NeedB(b: Branch)
    ensures Need(RegB(b)) <= multiset(ShowB(b))['|'] + DepthB(b) + 2
    decreases b, 1
  {
    match b
    case One(p) => NeedP(p);
    case More(front, p) =>
      NeedB(front);
      NeedP(p);
      BarsOf(ShowB(front), [], ShowP(p));
      assert ShowB(front) + [] == ShowB(front);
  }

  lemma {:induction false} NeedP(p: Piece)
    ensures Need(RegP(p)) <= multiset(ShowP(p))['|'] + DepthA(p.atom) + 1
    decreases p, 0
  {
    NeedApplied(RegA(p.atom), p.ops);
    BarsOf(ShowA(p.atom), p.ops, []);
    assert ShowP(p) + [] == ShowP(p);
    if p.atom.Group? {
      NeedT(p.atom.t);
      BarsOf("(", ShowT(p.atom.t), ")");
    }
  }

  lemma {:induction false} NeedApplied(r: Regex, ops: Text)
    ensures Need(Applied(r, ops)) == Need(r)
    decreases |ops|
  {
    if ops != [] {
      NeedApplied(r, ops[..|ops| - 1]);
    }
  }

  /** Texts with no more than 898 bars never need more than the stack holds. */
  lemma FewBars(re: Text, t: Alternation)
    requires Grammatical(re, t) && multiset(re)['|'] <= 898
    ensures Need(RegT(t)) <= 1000
  {
    NeedT(t);
  }

  /** a|a|...|a with n bars. */
  function Many(n: nat): Alternation {
    var a := One(Piece(Char('a'), []));
    if n == 0 then Just(a) else Or(a, Many(n - 1))
  }

  lemma {:induction false} ManyNeeds(n: nat)
    ensures ValidT(Many(n)) && DepthT(Many(n)) == 0 && PlainLiterals(RegT(Many(n)))
    ensures |ShowT(Many(n))| == 2 * n + 1 && Need(RegT(Many(n))) == n + 1
  {
    if n > 0 {
      ManyNeeds(n - 1);
    }
  }

  /** With 1000 bars such a text overflows the stack, although it is not much longer than half of what re2post
      accepts. */
  lemma ManyOverflow(n: nat)
    requires 2 * n + 1 < 4000
    ensures var post := Translate(ShowT(Many(n)));
            post.Some? && (FitsStack(post.value) <==> n < 1000)
  {
    hide Translate, Post, FitsStack, Need;
    ManyNeeds(n);
    TranslatesGrammar(Many(n));
    FitsExactly(RegT(Many(n)));
  }
}
