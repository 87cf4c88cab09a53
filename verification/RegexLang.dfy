/** Regular expressions and the languages they denote. */
module RegexLang {

  /** A character of a C string. */
  type Byte = c: char | 0 < c as int < 256 witness 'a'
  type Text = seq<Byte>

  datatype Regex =
    | Lit(c: Byte)
    | Cat(a: Regex, b: Regex)
    | Alt(a: Regex, b: Regex)
    | Star(a: Regex)
    | Plus(a: Regex)
    | Quest(a: Regex)

  ghost predicate Matches(r: Regex, s: Text)
    decreases r, |s|, 0
  {
    match r
    case Lit(c) => s == [c]
    case Cat(a, b) => exists k | 0 <= k <= |s| :: Matches(a, s[..k]) && Matches(b, s[k..])
    case Alt(a, b) => Matches(a, s) || Matches(b, s)
    case Star(a) => MatchesStar(a, s)
    case Plus(a) => exists k | 0 <= k <= |s| :: Matches(a, s[..k]) && MatchesStar(a, s[k..])
    case Quest(a) => s == [] || Matches(a, s)
  }

  /** s is empty, or a nonempty word of a followed by more. */
  ghost predicate MatchesStar(a: Regex, s: Text)
    decreases a, |s|, 1
  {
    s == [] || exists k | 0 < k <= |s| :: Matches(a, s[..k]) && MatchesStar(a, s[k..])
  }

  lemma StarMore(a: Regex, u: Text, v: Text)
    requires Matches(a, u) && MatchesStar(a, v)
    ensures MatchesStar(a, u + v)
  {
    var s := u + v;
    assert s[..|u|] == u && s[|u|..] == v;
    if u == [] {
      assert s == v;
    }
  }

  lemma CatOf(a: Regex, b: Regex, u: Text, v: Text)
    requires Matches(a, u) && Matches(b, v)
    ensures Matches(Cat(a, b), u + v)
  {
    var s := u + v;
    assert s[..|u|] == u && s[|u|..] == v;
  }

  lemma PlusOf(a: Regex, u: Text, v: Text)
    requires Matches(a, u) && MatchesStar(a, v)
    ensures Matches(Plus(a), u + v)
  {
    var s := u + v;
    assert s[..|u|] == u && s[|u|..] == v;
  }

  /** A word of a+ is a word of a*. */
  lemma PlusIsStar(a: Regex, s: Text)
    requires Matches(Plus(a), s)
    ensures MatchesStar(a, s)
  {
    var k :| 0 <= k <= |s| && Matches(a, s[..k]) && MatchesStar(a, s[k..]);
    StarMore(a, s[..k], s[k..]);
    assert s[..k] + s[k..] == s;
  }

  // ----- bytes beyond 127 -----

  predicate Ascii(s: Text) {
    forall i :: 0 <= i < |s| ==> s[i] as int < 128
  }

  function Literals(r: Regex): set<Byte> {
    match r
    case Lit(c) => {c}
    case Cat(a, b) => Literals(a) + Literals(b)
    case Alt(a, b) => Literals(a) + Literals(b)
    case Star(a) => Literals(a)
    case Plus(a) => Literals(a)
    case Quest(a) => Literals(a)
  }

  /** Every word is made of the literals of its expression. */
  lemma {:induction false} WordsUseLiterals(r: Regex, s: Text)
    requires Matches(r, s)
    ensures forall i :: 0 <= i < |s| ==> s[i] in Literals(r)
    decreases r, |s|, 0
  {
    match r
    case Lit(c) =>
    case Cat(a, b) =>
      var k :| 0 <= k <= |s| && Matches(a, s[..k]) && Matches(b, s[k..]);
      WordsUseLiterals(a, s[..k]);
      WordsUseLiterals(b, s[k..]);
      assert s == s[..k] + s[k..];
    case Alt(a, b) =>
      if Matches(a, s) { WordsUseLiterals(a, s); } else { WordsUseLiterals(b, s); }
    case Star(a) => StarWordsUseLiterals(a, s);
    case Plus(a) => PlusIsStar(a, s); StarWordsUseLiterals(a, s);
    case Quest(a) => if s != [] { WordsUseLiterals(a, s); }
  }

  lemma {:induction false} StarWordsUseLiterals(a: Regex, s: Text)
    requires MatchesStar(a, s)
    ensures forall i :: 0 <= i < |s| ==> s[i] in Literals(a)
    decreases a, |s|, 1
  {
    if s != [] {
      var k :| 0 < k <= |s| && Matches(a, s[..k]) && MatchesStar(a, s[k..]);
      WordsUseLiterals(a, s[..k]);
      StarWordsUseLiterals(a, s[k..]);
      assert s == s[..k] + s[k..];
    }
  }

  /** Every expression has a word. */
  function Sample(r: Regex): (s: Text) {
    match r
    case Lit(c) => [c]
    case Cat(a, b) => Sample(a) + Sample(b)
    case Alt(a, b) => Sample(a)
    case Star(a) => []
    case Plus(a) => Sample(a)
    case Quest(a) => []
  }

  lemma {:induction false} SampleMatches(r: Regex)
    ensures Matches(r, Sample(r))
  {
    match r
    case Lit(c) =>
    case Cat(a, b) => SampleMatches(a); SampleMatches(b); CatOf(a, b, Sample(a), Sample(b));
    case Alt(a, b) => SampleMatches(a);
    case Star(a) =>
    case Plus(a) => SampleMatches(a); PlusOf(a, Sample(a), []); assert Sample(a) + [] == Sample(a);
    case Quest(a) =>
  }

  /** Every literal is used by some word. */
  lemma {:induction false} LiteralUsed(r: Regex, c: Byte) returns (s: Text)
    requires c in Literals(r)
    ensures Matches(r, s) && c in s
  {
    match r
    case Lit(_) => s := [c];
    case Cat(a, b) =>
      if c in Literals(a) {
        s := LiteralUsed(a, c);
        SampleMatches(b);
        CatOf(a, b, s, Sample(b));
        s := s + Sample(b);
      } else {
        s := LiteralUsed(b, c);
        SampleMatches(a);
        CatOf(a, b, Sample(a), s);
        s := Sample(a) + s;
      }
    case Alt(a, b) =>
      if c in Literals(a) { s := LiteralUsed(a, c); } else { s := LiteralUsed(b, c); }
    case Star(a) => s := LiteralUsed(a, c); StarMore(a, s, []); assert s + [] == s;
    case Plus(a) => s := LiteralUsed(a, c); PlusOf(a, s, []); assert s + [] == s;
    case Quest(a) => s := LiteralUsed(a, c);
  }

  predicate AsciiLiterals(r: Regex) {
    forall c <- Literals(r) :: c as int < 128
  }

  /** Keeping only the words without bytes beyond 127 loses nothing exactly when the expression has no such byte. */
  lemma AsciiExact(r: Regex)
    ensures AsciiLiterals(r) <==> forall s: Text | Matches(r, s) :: Ascii(s)
  {
    if AsciiLiterals(r) {
      forall s: Text | Matches(r, s)
        ensures Ascii(s)
      {
        WordsUseLiterals(r, s);
      }
    } else {
      var c :| c in Literals(r) && c as int >= 128;
      var s := LiteralUsed(r, c);
      assert Matches(r, s) && !Ascii(s);
    }
  }
}
