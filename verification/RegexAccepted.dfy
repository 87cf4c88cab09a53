/** Which texts re2post accepts: those of the grammar, and besides them only the empty text and those that end in a
    bar outside all groups. */
module RegexAccepted {
  import opened Basics
  import opened RegexLang
  import opened RegexBuild
  import opened RegexPostfix

  /** What a group has read so far: finished alternatives and the branch being read. */
  datatype Level = Level(done: seq<Branch>, cur: Option<Branch>)

  function DoneText(done: seq<Branch>): Text {
    if done == [] then [] else DoneText(done[..|done| - 1]) + ShowB(done[|done| - 1]) + "|"
  }

  function DonePost(done: seq<Branch>): Text {
    if done == [] then [] else DonePost(done[..|done| - 1]) + Post(RegB(done[|done| - 1]))
  }

  function LevelText(l: Level): Text {
    DoneText(l.done) + if l.cur.Some? then ShowB(l.cur.value) else []
  }

  function LevelPending(l: Level): Text {
    DonePost(l.done) + if l.cur.Some? then Pending(l.cur.value) else []
  }

  function LevelPost(l: Level): Text {
    DonePost(l.done) + if l.cur.Some? then Post(RegB(l.cur.value)) else []
  }

  function LevelAtoms(l: Level): nat { if l.cur.Some? then Atoms(l.cur.value) else 0 }

  ghost predicate ValidLevel(l: Level, room: int) {
    && room >= 0
    && (forall i :: 0 <= i < |l.done| ==> ValidB(l.done[i]) && DepthB(l.done[i]) <= room)
    && (l.cur.Some? ==> ValidB(l.cur.value) && DepthB(l.cur.value) <= room)
  }

  function OuterText(ls: seq<Level>): Text {
    if ls == [] then [] else OuterText(ls[..|ls| - 1]) + LevelText(ls[|ls| - 1]) + "("
  }

  function OuterPost(ls: seq<Level>): Text {
    if ls == [] then [] else OuterPost(ls[..|ls| - 1]) + LevelPost(ls[|ls| - 1])
  }

  function OuterParen(ls: seq<Level>): (p: seq<Paren>)
    ensures |p| == |ls|
  {
    if ls == [] then []
    else
      var l := ls[|ls| - 1];
      OuterParen(ls[..|ls| - 1]) + [Paren(|l.done|, if l.cur.Some? then 1 else 0)]
  }

  ghost predicate ValidOuter(ls: seq<Level>) {
    forall i :: 0 <= i < |ls| ==> ValidLevel(ls[i], MAX_DEPTH - i)
  }

  /** The state of the scan is that of a partial parse of the text. */
  ghost predicate Explains(ls: seq<Level>, l: Level, re: Text, st: St) {
    && re == OuterText(ls) + LevelText(l)
    && st == St(OuterPost(ls) + LevelPending(l), |l.done|, LevelAtoms(l), OuterParen(ls))
    && ValidOuter(ls) && ValidLevel(l, MAX_DEPTH - |ls|)
  }

  lemma OuterPush(ls: seq<Level>, l: Level)
    ensures OuterText(ls + [l]) == OuterText(ls) + LevelText(l) + "("
    ensures OuterPost(ls + [l]) == OuterPost(ls) + LevelPost(l)
    ensures OuterParen(ls + [l]) == OuterParen(ls) + [Paren(|l.done|, if l.cur.Some? then 1 else 0)]
  {
    assert (ls + [l])[..|ls|] == ls;
  }

  lemma DonePush(done: seq<Branch>, b: Branch)
    ensures DoneText(done + [b]) == DoneText(done) + ShowB(b) + "|"
    ensures DonePost(done + [b]) == DonePost(done) + Post(RegB(b))
  {
    assert (done + [b])[..|done|] == done;
  }

  /** Releasing the concatenation that waits completes the current branch. */
  lemma LevelBegin(ls: seq<Level>, l: Level, re: Text, st: St)
    requires Explains(ls, l, re, st)
    ensures Begin(st) == St(OuterPost(ls) + LevelPost(l), |l.done|, if l.cur.Some? then 1 else 0, OuterParen(ls))
  {
    hide Post, OuterPost, OuterParen, DonePost;
    if l.cur.Some? {
      var b := l.cur.value;
      PendingDots(b);
      if b.More? {
        assert Dots(2) == Repeat('.', 0) + ['.'];
        assert OuterPost(ls) + (DonePost(l.done) + Pending(b)) + ['.']
            == OuterPost(ls) + (DonePost(l.done) + (Pending(b) + ['.']));
      }
    }
  }

  /** A piece is added to the current branch. */
  function Extend(cur: Option<Branch>, p: Piece): Branch {
    if cur.Some? then More(cur.value, p) else One(p)
  }

  lemma ExplainPiece(ls: seq<Level>, l: Level, p: Piece, re: Text, dst: Text)
    requires ValidOuter(ls) && ValidLevel(l, MAX_DEPTH - |ls|)
    requires ValidP(p) && DepthA(p.atom) <= MAX_DEPTH - |ls|
    requires re == OuterText(ls) + LevelText(l) + ShowP(p)
    requires dst == OuterPost(ls) + LevelPost(l) + Post(RegP(p))
    ensures var l2 := l.(cur := Some(Extend(l.cur, p)));
            Explains(ls, l2, re, St(dst, |l.done|, if l.cur.Some? then 2 else 1, OuterParen(ls)))
  {
    hide Post, OuterPost, OuterParen, OuterText, DonePost, DoneText, ShowP, RegP, ValidP;
    var l2 := l.(cur := Some(Extend(l.cur, p)));
    ExtendText(l, p);
    ExtendPending(l, p);
    hide LevelText, LevelPost, LevelPending;
    assert re == OuterText(ls) + LevelText(l2);
    assert dst == OuterPost(ls) + LevelPending(l2);
  }

  lemma ExtendText(l: Level, p: Piece)
    ensures LevelText(l.(cur := Some(Extend(l.cur, p)))) == LevelText(l) + ShowP(p)
  {
    hide ShowP, DoneText;
  }

  lemma ExtendPending(l: Level, p: Piece)
    ensures LevelPending(l.(cur := Some(Extend(l.cur, p)))) == LevelPost(l) + Post(RegP(p))
  {
    hide Post, RegP, DonePost;
  }

  /** The alternation of finished alternatives and a last branch. */
  function Alternatives(done: seq<Branch>, b: Branch): Alternation {
    if done == [] then Just(b) else Or(done[0], Alternatives(done[1..], b))
  }

  lemma {:induction false} DoneFirst(done: seq<Branch>)
    requires done != []
    ensures DoneText(done) == ShowB(done[0]) + "|" + DoneText(done[1..])
    ensures DonePost(done) == Post(RegB(done[0])) + DonePost(done[1..])
    decreases |done|
  {
    hide Post;
    var n := |done| - 1;
    if n > 0 {
      assert done[..n][1..] == done[1..][..n - 1];
      DoneFirst(done[..n]);
    } else {
      assert done[..0] == [] && done[1..] == [];
    }
  }

  lemma DoneNone()
    ensures DoneText([]) == [] && DonePost([]) == []
  {
  }

  lemma {:induction false} AlternativesMeaning(done: seq<Branch>, b: Branch, room: nat)
    requires ValidLevel(Level(done, Some(b)), room)
    ensures var t := Alternatives(done, b);
            && ValidT(t) && DepthT(t) <= room
            && ShowT(t) == DoneText(done) + ShowB(b)
            && Body(t) == DonePost(done) + Post(RegB(b))
            && Bars(t) == |done|
    decreases |done|
  {
    hide Post, ShowB, DoneText, DonePost, ValidB, DepthB;
    DoneNone();
    if done == [] {
      assert [] + ShowB(b) == ShowB(b) && [] + Post(RegB(b)) == Post(RegB(b));
    } else {
      DoneFirst(done);
      AlternativesMeaning(done[1..], b, room);
      assert ShowB(done[0]) + "|" + (DoneText(done[1..]) + ShowB(b)) == DoneText(done) + ShowB(b);
      assert Post(RegB(done[0])) + (DonePost(done[1..]) + Post(RegB(b))) == DonePost(done) + Post(RegB(b));
    }
  }

  // ----- one character -----

  lemma ExplainOpen(ls: seq<Level>, l: Level, re: Text, st: St)
    requires Explains(ls, l, re, st) && Scan1(st, '(').Some?
    ensures Explains(ls + [l], Level([], None), re + "(", Scan1(st, '(').value)
  {
    hide Post;
    LevelBegin(ls, l, re, st);
    OuterPush(ls, l);
  }

  lemma ExplainBar(ls: seq<Level>, l: Level, re: Text, st: St)
    requires Explains(ls, l, re, st) && Scan1(st, '|').Some?
    ensures Explains(ls, Level(l.done + [l.cur.value], None), re + "|", Scan1(st, '|').value)
  {
    hide Post, OuterText, OuterPost, OuterParen, ShowB;
    var b := l.cur.value;
    PendingDots(b);
    DonePush(l.done, b);
    var l2 := Level(l.done + [b], None);
    assert re + "|" == OuterText(ls) + LevelText(l2);
    assert st.dst + Dots(st.natom) == OuterPost(ls) + (DonePost(l.done) + (Pending(b) + Dots(Atoms(b))));
    assert st.dst + Dots(st.natom) == OuterPost(ls) + LevelPending(l2);
  }

  /** The text and the output of a group that is closed. */
  lemma CloseGroup(l: Level, room: int) returns (t: Alternation)
    requires ValidLevel(l, room) && l.cur.Some?
    ensures ValidT(t) && DepthT(t) <= room
    ensures ShowT(t) == LevelText(l)
    ensures Post(RegT(t)) == LevelPending(l) + Dots(LevelAtoms(l)) + Repeat('|', |l.done|)
  {
    hide Post, ShowB, Repeat;
    var b := l.cur.value;
    t := Alternatives(l.done, b);
    AlternativesMeaning(l.done, b, room);
    BodyBars(t);
    PendingDots(b);
    assert LevelPending(l) + Dots(Atoms(b)) == DonePost(l.done) + (Pending(b) + Dots(Atoms(b)));
  }

  lemma OuterPop(ls: seq<Level>) returns (ls2: seq<Level>, outer: Level)
    requires ls != [] && ValidOuter(ls)
    ensures ls == ls2 + [outer] && ValidOuter(ls2) && ValidLevel(outer, MAX_DEPTH - |ls2|)
    ensures OuterText(ls) == OuterText(ls2) + LevelText(outer) + "("
    ensures OuterPost(ls) == OuterPost(ls2) + LevelPost(outer)
    ensures OuterParen(ls) == OuterParen(ls2) + [Paren(|outer.done|, if outer.cur.Some? then 1 else 0)]
  {
    ls2, outer := ls[..|ls| - 1], ls[|ls| - 1];
  }

  lemma Associate(a: Text, b: Text, c: Text, d: Text, e: Text)
    ensures a + b + c + d + e == a + (b + c + d + e)
    ensures a + b + c + d == a + (b + c + d)
  {
  }

  lemma ExplainClose(ls: seq<Level>, l: Level, re: Text, st: St) returns (ls2: seq<Level>, l2: Level)
    requires Explains(ls, l, re, st) && Scan1(st, ')').Some?
    ensures Explains(ls2, l2, re + ")", Scan1(st, ')').value)
  {
    hide ValidLevel, ValidOuter, LevelText, LevelPending, LevelPost, Dots, Repeat, OuterText, OuterPost;
    var outer: Level;
    ls2, outer := OuterPop(ls);
    var t := CloseGroup(l, MAX_DEPTH - |ls|);
    hide OuterParen;
    var p := Piece(Group(t), []);
    l2 := outer.(cur := Some(Extend(outer.cur, p)));
    ClosedPiece(t, p);
    var dst := st.dst + Dots(st.natom) + Repeat('|', st.nalt);
    Associate(OuterText(ls2) + LevelText(outer), "(", LevelText(l), ")", []);
    Associate(OuterPost(ls2) + LevelPost(outer), LevelPending(l), Dots(st.natom), Repeat('|', st.nalt), []);
    ExplainPiece(ls2, outer, p, re + ")", dst);
  }

  lemma ClosedPiece(t: Alternation, p: Piece)
    requires p == Piece(Group(t), [])
    ensures RegP(p) == RegT(t) && ShowP(p) == "(" + ShowT(t) + ")"
    ensures ValidT(t) ==> ValidP(p)
    ensures DepthA(p.atom) == 1 + DepthT(t)
  {
  }

  /** The branch with one more repetition on its last piece. */
  function Repeated(b: Branch, c: Byte): Branch {
    if b.One? then One(b.p.(ops := b.p.ops + [c])) else More(b.front, b.p.(ops := b.p.ops + [c]))
  }

  lemma RepeatedMeaning(b: Branch, c: Byte)
    requires ValidB(b) && IsOp(c)
    ensures var b2 := Repeated(b, c);
            && ValidB(b2) && DepthB(b2) == DepthB(b) && Atoms(b2) == Atoms(b)
            && ShowB(b2) == ShowB(b) + [c] && Pending(b2) == Pending(b) + [c]
  {
    hide Post;
    var p := b.p;
    assert ValidP(p);
    var p2 := p.(ops := p.ops + [c]);
    PostApplied(RegA(p.atom), p.ops);
    PostApplied(RegA(p.atom), p2.ops);
    assert Post(RegP(p2)) == Post(RegP(p)) + [c];
    assert ShowP(p2) == ShowP(p) + [c];
  }

  lemma ExplainOp(ls: seq<Level>, l: Level, re: Text, st: St, c: Byte) returns (l2: Level)
    requires Explains(ls, l, re, st) && IsOp(c) && Scan1(st, c).Some?
    ensures Explains(ls, l2, re + [c], Scan1(st, c).value)
  {
    hide OuterText, OuterPost, OuterParen, DoneText, DonePost, Post, ShowB, Pending;
    var b := l.cur.value;
    RepeatedMeaning(b, c);
    l2 := l.(cur := Some(Repeated(b, c)));
    assert re + [c] == OuterText(ls) + LevelText(l2);
    assert st.dst + [c] == OuterPost(ls) + LevelPending(l2);
  }

  lemma CharPiece(c: Byte)
    requires IsPlain(c)
    ensures var p := Piece(Char(c), []);
            ShowP(p) == [c] && RegP(p) == Lit(c) && Post(RegP(p)) == [c] && ValidP(p) && DepthA(p.atom) == 0
  {
  }

  lemma ExplainChar(ls: seq<Level>, l: Level, re: Text, st: St, c: Byte) returns (l2: Level)
    requires Explains(ls, l, re, st) && IsPlain(c)
    ensures Scan1(st, c).Some? && Explains(ls, l2, re + [c], Scan1(st, c).value)
  {
    LevelBegin(ls, l, re, st);
    var p := Piece(Char(c), []);
    CharPiece(c);
    hide ShowP, RegP;
    l2 := l.(cur := Some(Extend(l.cur, p)));
    ExplainPiece(ls, l, p, re + [c], Begin(st).dst + [c]);
  }

  lemma {:induction false} ScanExplained(re: Text) returns (ls: seq<Level>, l: Level)
    requires Scan(INITIAL, re).Some?
    ensures Explains(ls, l, re, Scan(INITIAL, re).value)
    decreases |re|
  {
    if re == [] {
      ls, l := [], Level([], None);
    } else {
      hide Explains, Scan1;
      var front, c := re[..|re| - 1], re[|re| - 1];
      assert re == front + [c];
      ls, l := ScanExplained(front);
      var st := Scan(INITIAL, front).value;
      if c == '(' {
        ExplainOpen(ls, l, front, st);
        ls, l := ls + [l], Level([], None);
      } else if c == '|' {
        ExplainBar(ls, l, front, st);
        l := Level(l.done + [l.cur.value], None);
      } else if c == ')' {
        ls, l := ExplainClose(ls, l, front, st);
      } else if IsOp(c) {
        l := ExplainOp(ls, l, front, st, c);
      } else {
        l := ExplainChar(ls, l, front, st, c);
      }
    }
  }

  // ----- accepted texts -----

  ghost predicate Grammatical(re: Text, t: Alternation) {
    ValidT(t) && DepthT(t) <= 100 && re == ShowT(t)
  }

  /** Empty, or alternatives each followed by a bar. */
  ghost predicate Trailing(re: Text, done: seq<Branch>) {
    ValidLevel(Level(done, None), MAX_DEPTH) && re == DoneText(done)
  }

  lemma {:induction false} ScanDone(done: seq<Branch>)
    requires ValidLevel(Level(done, None), MAX_DEPTH)
    ensures Scan(INITIAL, DoneText(done)) == Some(St(DonePost(done), |done|, 0, []))
    decreases |done|
  {
    if done != [] {
      hide Scan, Scan1, Post, ShowB, Pending, Dots, DoneText, DonePost;
      var front, b := done[..|done| - 1], done[|done| - 1];
      assert done == front + [b];
      DonePush(front, b);
      ScanDone(front);
      var s := St(DonePost(front), |front|, 0, []);
      ScanBranch(s, b);
      PendingDots(b);
      ScanAppend(INITIAL, DoneText(front), ShowB(b));
      ScanAppend(INITIAL, DoneText(front) + ShowB(b), "|");
      var s2 := s.(dst := s.dst + Pending(b), natom := Atoms(b));
      ScanOne(s2, '|');
      ScanBar(s2);
      assert DonePost(front) + Pending(b) + Dots(Atoms(b)) == DonePost(front) + (Pending(b) + Dots(Atoms(b)));
    }
  }

  lemma ScanBar(s: St)
    requires s.natom > 0
    ensures Scan1(s, '|') == Some(St(s.dst + Dots(s.natom), s.nalt + 1, 0, s.paren))
  {
  }

  /** re2post accepts exactly the short texts of the grammar, with the postfix text of their expression, and those
      that stop after a bar or before anything, with operators that lack an operand. */
  lemma AcceptedExactly(re: Text, post: Text)
    ensures Translate(re) == Some(post) <==>
            && |re| < 4000
            && ((exists t :: Grammatical(re, t) && post == Post(RegT(t)))
                || (exists done :: Trailing(re, done) && post == DonePost(done) + Repeat('|', |done|)))
  {
    if Translate(re) == Some(post) {
      AcceptedOnly(re, post);
    }
    if t :| Grammatical(re, t) && post == Post(RegT(t)) && |re| < BUF_SIZE / 2 {
      TranslatesGrammar(t);
    }
    if done :| Trailing(re, done) && post == DonePost(done) + Repeat('|', |done|) && |re| < BUF_SIZE / 2 {
      ScanDone(done);
      assert DonePost(done) + Dots(0) == DonePost(done);
    }
  }

  lemma AcceptedOnly(re: Text, post: Text)
    requires Translate(re) == Some(post)
    ensures (exists t :: Grammatical(re, t) && post == Post(RegT(t)))
            || (exists done :: Trailing(re, done) && post == DonePost(done) + Repeat('|', |done|))
  {
    hide Post, Scan, Repeat;
    var ls, l := ScanExplained(re);
    assert ls == [];
    assert OuterText([]) + LevelText(l) == LevelText(l);
    assert OuterPost([]) + LevelPending(l) == LevelPending(l);
    if l.cur.Some? {
      var b := l.cur.value;
      AlternativesMeaning(l.done, b, MAX_DEPTH);
      var t := Alternatives(l.done, b);
      BodyBars(t);
      PendingDots(b);
      assert DonePost(l.done) + Pending(b) + Dots(Atoms(b)) == DonePost(l.done) + (Pending(b) + Dots(Atoms(b)));
      assert Grammatical(re, t) && post == Post(RegT(t));
    } else {
      assert DonePost(l.done) + [] == DonePost(l.done) && DoneText(l.done) + [] == DoneText(l.done);
      NoDots();
      assert DonePost(l.done) + Dots(0) == DonePost(l.done);
      assert Trailing(re, l.done);
    }
  }

  lemma NoDots()
    ensures Dots(0) == []
  {
  }

  // ----- which accepted texts post2nfa may be given -----

  /** How many expressions more there are on the stack after a symbol. */
  function Change(c: Byte): int {
    if c == '.' || c == '|' then -1 else if IsOp(c) then 0 else 1
  }

  function Weight(post: Text): int {
    if post == [] then 0 else Weight(post[..|post| - 1]) + Change(post[|post| - 1])
  }

  lemma {:induction false} WeightAppend(a: Text, b: Text)
    ensures Weight(a + b) == Weight(a) + Weight(b)
    decreases |b|
  {
    if b == [] {
      assert a + b == a;
    } else {
      assert (a + b)[..|a + b| - 1] == a + b[..|b| - 1];
      WeightAppend(a, b[..|b| - 1]);
    }
  }

  /** A text that is decoded leaves as many expressions as its weight says, and one at least unless it is empty. */
  lemma {:induction false} DecodeWeight(post: Text)
    requires Decode(post).Some?
    ensures |Decode(post).value| == Weight(post) && (post != [] ==> Weight(post) > 0)
    decreases |post|
  {
    if post != [] {
      DecodeWeight(post[..|post| - 1]);
    }
  }

  /** The postfix text of an expression leaves one expression exactly if no literal is taken for an operator. */
  lemma {:induction false} PostWeight(r: Regex)
    ensures Post(r) != [] && Weight(Post(r)) <= 1
    ensures Weight(Post(r)) == 1 <==> PlainLiterals(r)
    decreases r, 0
  {
    match r
    case Lit(c) => WeightOne(c);
    case Cat(a, b) =>
      PostWeight(a);
      PostWeight(b);
      WeightAppend(Post(a) + Post(b), ".");
      WeightAppend(Post(a), Post(b));
      WeightOne('.');
    case Alt(a, b) =>
      PostWeight(a);
      PostWeight(b);
      WeightAppend(Post(a) + Post(b), "|");
      WeightAppend(Post(a), Post(b));
      WeightOne('|');
    case Star(a) => OpWeight(a, '*');
    case Plus(a) => OpWeight(a, '+');
    case Quest(a) => OpWeight(a, '?');
  }

  lemma {:induction false} OpWeight(a: Regex, c: Byte)
    requires IsOp(c)
    ensures Post(a) + [c] != [] && Weight(Post(a) + [c]) <= 1
    ensures Weight(Post(a) + [c]) == 1 <==> PlainLiterals(a)
    decreases a, 1
  {
    PostWeight(a);
    WeightAppend(Post(a), [c]);
    WeightOne(c);
  }

  lemma WeightOne(c: Byte)
    ensures Weight([c]) == Change(c)
  {
    assert [c][..0] == [];
    assert Weight([]) == 0;
  }

  /** Reading the postfix text of an expression gives it back exactly if no literal is taken for an operator. */
  lemma DecodeExactly(r: Regex)
    ensures Decode(Post(r)) == Some([r]) <==> PlainLiterals(r)
    ensures !PlainLiterals(r) ==> Decode(Post(r)) == None
  {
    hide Decode, Post, PlainLiterals;
    PostWeight(r);
    DecodeIsFrom(Post(r));
    if PlainLiterals(r) {
      DecodePost([], r);
      assert [] + [r] == [r];
    } else if Decode(Post(r)).Some? {
      DecodeWeight(Post(r));
      assert false;
    }
  }

  /** The expression of a text has a literal that is taken for an operator exactly if the text has the internal sign of
      concatenation. */
  lemma {:induction false} PlainT(t: Alternation)
    requires ValidT(t)
    ensures PlainLiterals(RegT(t)) <==> '.' !in ShowT(t)
    decreases t, 1
  {
    match t
    case Just(b) => PlainB(b);
    case Or(b, rest) =>
      PlainB(b);
      PlainT(rest);
      assert '.' in ShowT(t) <==> '.' in ShowB(b) || '.' in "|" || '.' in ShowT(rest);
  }

  lemma {:induction false} PlainB(b: Branch)
    requires ValidB(b)
    ensures PlainLiterals(RegB(b)) <==> '.' !in ShowB(b)
    decreases b, 1
  {
    match b
    case One(p) => PlainP(p);
    case More(front, p) =>
      PlainB(front);
      PlainP(p);
  }

  lemma {:induction false} PlainP(p: Piece)
    requires ValidP(p)
    ensures PlainLiterals(RegP(p)) <==> '.' !in ShowP(p)
    decreases p, 0
  {
    if p.atom.Group? {
      PlainT(p.atom.t);
      assert '.' in ShowA(p.atom) <==> '.' in "(" || '.' in ShowT(p.atom.t) || '.' in ")";
    }
    assert '.' !in p.ops;
    PlainApplied(RegA(p.atom), p.ops);
  }

  lemma {:induction false} PlainApplied(r: Regex, ops: Text)
    ensures PlainLiterals(Applied(r, ops)) <==> PlainLiterals(r)
    decreases |ops|
  {
    if ops != [] {
      PlainApplied(r, ops[..|ops| - 1]);
    }
  }

  /** No text of the grammar is empty or ends in a bar. */
  lemma {:induction false} GrammarEnd(t: Alternation)
    requires ValidT(t)
    ensures ShowT(t) != [] && ShowT(t)[|ShowT(t)| - 1] != '|'
    decreases t
  {
    match t
    case Just(b) => BranchEnd(b);
    case Or(b, rest) => GrammarEnd(rest);
  }

  lemma {:induction false} BranchEnd(b: Branch)
    requires ValidB(b)
    ensures ShowB(b) != [] && ShowB(b)[|ShowB(b)| - 1] != '|'
  {
    assert ValidP(b.p) && ShowP(b.p) != [];
    assert ShowB(b)[|ShowB(b)| - 1] == ShowP(b.p)[|ShowP(b.p)| - 1];
  }

  lemma {:induction false} DoneWeight(done: seq<Branch>)
    ensures Weight(DonePost(done)) <= |done|
    decreases |done|
  {
    if done != [] {
      var front, b := done[..|done| - 1], done[|done| - 1];
      DoneWeight(front);
      PostWeight(RegB(b));
      WeightAppend(DonePost(front), Post(RegB(b)));
    }
  }

  lemma {:induction false} BarsWeight(n: nat)
    ensures Weight(Repeat('|', n)) == 0 - n
    decreases n
  {
    if n > 0 {
      BarsWeight(n - 1);
      WeightAppend(Repeat('|', n - 1), "|");
      WeightOne('|');
    }
  }

  /** The output for an accepted text is the postfix text of one expression exactly when the text has no '.', is not
      empty and does not end in a bar; otherwise, but for the empty text, post2nfa would take operands off an empty
      stack. */
  lemma UsableExactly(re: Text, post: Text)
    requires Translate(re) == Some(post)
    ensures (Decode(post).Some? && |Decode(post).value| == 1) <==> '.' !in re && re != [] && re[|re| - 1] != '|'
    ensures (exists t :: Grammatical(re, t) && Decode(post) == Some([RegT(t)]))
            || Decode(post) == if re == [] then Some([]) else None
  {
    hide Decode, Post;
    AcceptedOnly(re, post);
    if t :| Grammatical(re, t) && post == Post(RegT(t)) {
      GrammarUsable(re, t);
    } else {
      var done :| Trailing(re, done) && post == DonePost(done) + Repeat('|', |done|);
      TrailingUnusable(re, done);
    }
  }

  lemma GrammarUsable(re: Text, t: Alternation)
    requires Grammatical(re, t)
    ensures re != [] && re[|re| - 1] != '|'
    ensures Decode(Post(RegT(t))) == if '.' in re then None else Some([RegT(t)])
  {
    GrammarEnd(t);
    PlainT(t);
    DecodeExactly(RegT(t));
  }

  lemma TrailingUnusable(re: Text, done: seq<Branch>)
    requires Trailing(re, done)
    ensures re == [] || re[|re| - 1] == '|'
    ensures Decode(DonePost(done) + Repeat('|', |done|)) == if re == [] then Some([]) else None
  {
    var post := DonePost(done) + Repeat('|', |done|);
    if done == [] {
      assert post == [];
    } else {
      DoneWeight(done);
      BarsWeight(|done|);
      WeightAppend(DonePost(done), Repeat('|', |done|));
      if Decode(post).Some? {
        DecodeWeight(post);
        assert false;
      }
    }
  }

  /** All trees of an accepted text without '.' denote the same expression. */
  lemma OneMeaning(re: Text, t: Alternation, t2: Alternation)
    requires Translate(re).Some? && '.' !in re && Grammatical(re, t) && Grammatical(re, t2)
    ensures RegT(t) == RegT(t2)
  {
    hide Decode, Post;
    TranslatesGrammar(t);
    TranslatesGrammar(t2);
    GrammarUsable(re, t);
    GrammarUsable(re, t2);
  }
}
