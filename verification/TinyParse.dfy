/** The recursive descent parser (parse.c). */
module TinyParse {
  import opened TinyTree

  datatype Token =
    | ENDFILE | ERROR
    | IF | THEN | ELSE | END | REPEAT | UNTIL | READ | WRITE
    | ID(name: string) | NUM(val: int)
    | ASSIGN | OP(op: Op) | LPAREN | RPAREN | SEMI
  {
    predicate IsMulOp() { OP? && (op.TIMES? || op.OVER?) }
    predicate IsAddOp() { OP? && (op.PLUS? || op.MINUS?) }
    predicate IsComparison() { OP? && (op.LT? || op.EQ?) }
    predicate EndsSequence() { ENDFILE? || END? || ELSE? || UNTIL? }
  }

  // ----- the grammar -----

  datatype FactorForm = Number(val: int) | Name(name: string) | Paren(exp: ExpForm)

  datatype TermForm = OneFactor(f: FactorForm) | Times(t: TermForm, over: bool, f: FactorForm)

  datatype SimpleForm = OneTerm(t: TermForm) | Plus(s: SimpleForm, minus: bool, t: TermForm)

  datatype ExpForm = OneSimple(s: SimpleForm) | Compare(l: SimpleForm, equal: bool, r: SimpleForm)

  datatype StmtForm =
    | If(test: ExpForm, body: SequenceForm)
    | IfElse(test: ExpForm, body: SequenceForm, other: SequenceForm)
    | Repeat(body: SequenceForm, test: ExpForm)
    | Assign(name: string, exp: ExpForm)
    | Read(name: string)
    | Write(exp: ExpForm)

  datatype SequenceForm = OneStmt(s: StmtForm) | Then(front: SequenceForm, s: StmtForm)

  function MulOp(over: bool): Op { if over then OVER else TIMES }

  function AddOp(minus: bool): Op { if minus then MINUS else PLUS }

  function Comparison(equal: bool): Op { if equal then EQ else LT }

  /** The tokens of a form. */
  function ShowFactor(c: FactorForm): (ts: seq<Token>)
    ensures ts != []
  {
    match c
    case Number(v) => [NUM(v)]
    case Name(x) => [ID(x)]
    case Paren(e) => [LPAREN] + ShowExp(e) + [RPAREN]
  }

  function ShowTerm(c: TermForm): (ts: seq<Token>)
    ensures ts != []
  {
    match c
    case OneFactor(f) => ShowFactor(f)
    case Times(t, over, f) => ShowTerm(t) + [OP(MulOp(over))] + ShowFactor(f)
  }

  function ShowSimple(c: SimpleForm): (ts: seq<Token>)
    ensures ts != []
  {
    match c
    case OneTerm(t) => ShowTerm(t)
    case Plus(s, minus, t) => ShowSimple(s) + [OP(AddOp(minus))] + ShowTerm(t)
  }

  function ShowExp(c: ExpForm): (ts: seq<Token>)
    ensures ts != []
  {
    match c
    case OneSimple(s) => ShowSimple(s)
    case Compare(l, equal, r) => ShowSimple(l) + [OP(Comparison(equal))] + ShowSimple(r)
  }

  function ShowStmt(c: StmtForm): (ts: seq<Token>)
    ensures ts != []
  {
    match c
    case If(e, s) => [IF] + ShowExp(e) + [THEN] + ShowSequence(s) + [END]
    case IfElse(e, s, s2) => [IF] + ShowExp(e) + [THEN] + ShowSequence(s) + [ELSE] + ShowSequence(s2) + [END]
    case Repeat(s, e) => [REPEAT] + ShowSequence(s) + [UNTIL] + ShowExp(e)
    case Assign(x, e) => [ID(x), ASSIGN] + ShowExp(e)
    case Read(x) => [READ, ID(x)]
    case Write(e) => [WRITE] + ShowExp(e)
  }

  function ShowSequence(c: SequenceForm): (ts: seq<Token>)
    ensures ts != []
  {
    match c
    case OneStmt(s) => ShowStmt(s)
    case Then(front, s) => ShowSequence(front) + [SEMI] + ShowStmt(s)
  }

  /** The tree of a form: operators of equal strength associate to the left, statements are siblings. */
  function FactorTree(c: FactorForm): Tree {
    match c
    case Number(v) => Leaf(ConstK(v))
    case Name(x) => Leaf(IdK(x))
    case Paren(e) => ExpTree(e)
  }

  function TermTree(c: TermForm): Tree {
    match c
    case OneFactor(f) => FactorTree(f)
    case Times(t, over, f) => BinOp(MulOp(over), TermTree(t), FactorTree(f))
  }

  function SimpleTree(c: SimpleForm): Tree {
    match c
    case OneTerm(t) => TermTree(t)
    case Plus(s, minus, t) => BinOp(AddOp(minus), SimpleTree(s), TermTree(t))
  }

  function ExpTree(c: ExpForm): Tree {
    match c
    case OneSimple(s) => SimpleTree(s)
    case Compare(l, equal, r) => BinOp(Comparison(equal), SimpleTree(l), SimpleTree(r))
  }

  function StmtTree(c: StmtForm): Tree {
    match c
    case If(e, s) => Node(IfK, ExpTree(e), SequenceTree(s), Null, Null)
    case IfElse(e, s, s2) => Node(IfK, ExpTree(e), SequenceTree(s), SequenceTree(s2), Null)
    case Repeat(s, e) => Node(RepeatK, SequenceTree(s), ExpTree(e), Null, Null)
    case Assign(x, e) => Node(AssignK(x), ExpTree(e), Null, Null, Null)
    case Read(x) => Leaf(ReadK(x))
    case Write(e) => Node(WriteK, ExpTree(e), Null, Null, Null)
  }

  function SequenceTree(c: SequenceForm): Tree {
    match c
    case OneStmt(s) => StmtTree(s)
    case Then(front, s) => Linked(SequenceTree(front), StmtTree(s))
  }

  /** The tree q linked in as the last sibling of t. */
  function Linked(t: Tree, q: Tree): Tree {
    if t.Null? then q else t.(sibling := Linked(t.sibling, q))
  }

  /** The token sequences of the language. */
  ghost predicate Grammatical(ts: seq<Token>) {
    exists c: SequenceForm :: ShowSequence(c) == ts
  }

  // ----- what each parsing function computes from the tokens that remain -----

  /** The tree, the tokens left, and whether an error was reported. */
  datatype Parsed = Parsed(tree: Tree, rest: seq<Token>, err: bool)

  function Cur(ts: seq<Token>): Token {
    if ts == [] then ENDFILE else ts[0]
  }

  function Advance(ts: seq<Token>): seq<Token> {
    if ts == [] then ts else ts[1..]
  }

  /** The token types are equal. */
  predicate Same(a: Token, b: Token) {
    a == b || (a.ID? && b.ID?) || (a.NUM? && b.NUM?)
  }

  function Matched(ts: seq<Token>, expected: Token): seq<Token> {
    if Same(Cur(ts), expected) then Advance(ts) else ts
  }

  function ParseFactor(ts: seq<Token>): (r: Parsed)
    ensures if ts == [] then r.rest == [] && r.err else |r.rest| < |ts|
    decreases |ts|, 0
  {
    match Cur(ts)
    case NUM(v) => Parsed(Leaf(ConstK(v)), ts[1..], false)
    case ID(x) => Parsed(Leaf(IdK(x)), ts[1..], false)
    case LPAREN =>
      var e := ParseExp(ts[1..]);
      Parsed(e.tree, Matched(e.rest, RPAREN), e.err || Cur(e.rest) != RPAREN)
    case _ => Parsed(Null, Advance(ts), true)
  }

  function ParseTerms(t: Tree, ts: seq<Token>, err: bool): (r: Parsed)
    ensures |r.rest| <= |ts| && (err ==> r.err)
    decreases |ts|, 1
  {
    if Cur(ts).IsMulOp() then
      var f := ParseFactor(ts[1..]);
      ParseTerms(BinOp(ts[0].op, t, f.tree), f.rest, err || f.err)
    else Parsed(t, ts, err)
  }

  function ParseTerm(ts: seq<Token>): (r: Parsed)
    ensures if ts == [] then r.rest == [] && r.err else |r.rest| < |ts|
    decreases |ts|, 2
  {
    var f := ParseFactor(ts);
    ParseTerms(f.tree, f.rest, f.err)
  }

  function ParseSimples(t: Tree, ts: seq<Token>, err: bool): (r: Parsed)
    ensures |r.rest| <= |ts| && (err ==> r.err)
    decreases |ts|, 3
  {
    if Cur(ts).IsAddOp() then
      var f := ParseTerm(ts[1..]);
      ParseSimples(BinOp(ts[0].op, t, f.tree), f.rest, err || f.err)
    else Parsed(t, ts, err)
  }

  function ParseSimple(ts: seq<Token>): (r: Parsed)
    ensures if ts == [] then r.rest == [] && r.err else |r.rest| < |ts|
    decreases |ts|, 4
  {
    var f := ParseTerm(ts);
    ParseSimples(f.tree, f.rest, f.err)
  }

  function ParseExp(ts: seq<Token>): (r: Parsed)
    ensures if ts == [] then r.rest == [] && r.err else |r.rest| < |ts|
    decreases |ts|, 5
  {
    var l := ParseSimple(ts);
    if Cur(l.rest).IsComparison() then
      var r := ParseSimple(l.rest[1..]);
      Parsed(BinOp(l.rest[0].op, l.tree, r.tree), r.rest, l.err || r.err)
    else l
  }

  function ParseIf(ts: seq<Token>): (r: Parsed)
    requires Cur(ts) == IF
    ensures |r.rest| < |ts|
    decreases |ts|, 6
  {
    var e := ParseExp(ts[1..]);
    var s := ParseSequence(Matched(e.rest, THEN));
    var err := e.err || Cur(e.rest) != THEN || s.err;
    if Cur(s.rest) == ELSE then
      var s2 := ParseSequence(s.rest[1..]);
      Parsed(Node(IfK, e.tree, s.tree, s2.tree, Null), Matched(s2.rest, END), err || s2.err || Cur(s2.rest) != END)
    else
      Parsed(Node(IfK, e.tree, s.tree, Null, Null), Matched(s.rest, END), err || Cur(s.rest) != END)
  }

  function ParseRepeat(ts: seq<Token>): (r: Parsed)
    requires Cur(ts) == REPEAT
    ensures |r.rest| < |ts|
    decreases |ts|, 6
  {
    var s := ParseSequence(ts[1..]);
    var e := ParseExp(Matched(s.rest, UNTIL));
    Parsed(Node(RepeatK, s.tree, e.tree, Null, Null), e.rest, s.err || Cur(s.rest) != UNTIL || e.err)
  }

  function ParseAssign(ts: seq<Token>): (r: Parsed)
    requires Cur(ts).ID?
    ensures |r.rest| < |ts|
  {
    var e := ParseExp(Matched(ts[1..], ASSIGN));
    Parsed(Node(AssignK(ts[0].name), e.tree, Null, Null, Null), e.rest, Cur(ts[1..]) != ASSIGN || e.err)
  }

  /** A missing name leaves the name field unset. */
  function ParseRead(ts: seq<Token>): (r: Parsed)
    requires Cur(ts) == READ
    ensures |r.rest| < |ts|
  {
    var cur := Cur(ts[1..]);
    Parsed(Leaf(ReadK(if cur.ID? then cur.name else "")), Matched(ts[1..], ID("")), !cur.ID?)
  }

  function ParseWrite(ts: seq<Token>): (r: Parsed)
    requires Cur(ts) == WRITE
    ensures |r.rest| < |ts|
  {
    var e := ParseExp(ts[1..]);
    Parsed(Node(WriteK, e.tree, Null, Null, Null), e.rest, e.err)
  }

  function ParseStmt(ts: seq<Token>): (r: Parsed)
    ensures if ts == [] then r.rest == [] && r.err else |r.rest| < |ts|
    decreases |ts|, 7
  {
    match Cur(ts)
    case IF => ParseIf(ts)
    case REPEAT => ParseRepeat(ts)
    case ID(_) => ParseAssign(ts)
    case READ => ParseRead(ts)
    case WRITE => ParseWrite(ts)
    case _ => Parsed(Null, Advance(ts), true)
  }

  function ParseStmts(t: Tree, ts: seq<Token>, err: bool): (r: Parsed)
    ensures |r.rest| <= |ts| && (err ==> r.err)
    decreases |ts|, 8
  {
    if Cur(ts).EndsSequence() then Parsed(t, ts, err)
    else
      var q := ParseStmt(Matched(ts, SEMI));
      ParseStmts(Linked(t, q.tree), q.rest, err || Cur(ts) != SEMI || q.err)
  }

  function ParseSequence(ts: seq<Token>): (r: Parsed)
    ensures |r.rest| <= |ts|
    decreases |ts|, 9
  {
    var s := ParseStmt(ts);
    ParseStmts(s.tree, s.rest, s.err)
  }

  function ParseProgram(ts: seq<Token>): Parsed {
    var s := ParseSequence(ts);
    Parsed(s.tree, s.rest, s.err || Cur(s.rest) != ENDFILE)
  }

  // ----- every form is parsed to its tree -----

  lemma {:induction false} FactorParsed(c: FactorForm, rest: seq<Token>)
    ensures ParseFactor(ShowFactor(c) + rest) == Parsed(FactorTree(c), rest, false)
    decreases c, 0
  {
    var ts := ShowFactor(c) + rest;
    if c.Paren? {
      var after := [RPAREN] + rest;
      assert ts[1..] == ShowExp(c.exp) + after;
      ExpParsed(c.exp, after);
      assert after[1..] == rest;
    } else {
      assert ts[1..] == rest;
    }
  }

  /** Reading a term and going on is going on from its tree. */
  lemma {:induction false} TermParsed(c: TermForm, rest: seq<Token>)
    ensures ParseTerm(ShowTerm(c) + rest) == ParseTerms(TermTree(c), rest, false)
    decreases c, 1
  {
    match c
    case OneFactor(f) =>
      FactorParsed(f, rest);
    case Times(t, over, f) =>
      var more := [OP(MulOp(over))] + ShowFactor(f) + rest;
      assert ShowTerm(c) + rest == ShowTerm(t) + more;
      TermParsed(t, more);
      assert more[1..] == ShowFactor(f) + rest;
      FactorParsed(f, rest);
  }

  lemma {:induction false} SimpleParsed(c: SimpleForm, rest: seq<Token>)
    requires !Cur(rest).IsMulOp()
    ensures ParseSimple(ShowSimple(c) + rest) == ParseSimples(SimpleTree(c), rest, false)
    decreases c, 2
  {
    match c
    case OneTerm(t) =>
      TermParsed(t, rest);
    case Plus(s, minus, t) =>
      var more := [OP(AddOp(minus))] + ShowTerm(t) + rest;
      assert ShowSimple(c) + rest == ShowSimple(s) + more;
      SimpleParsed(s, more);
      assert more[1..] == ShowTerm(t) + rest;
      TermParsed(t, rest);
  }

  lemma {:induction false} ExpParsed(c: ExpForm, rest: seq<Token>)
    requires !Cur(rest).OP?
    ensures ParseExp(ShowExp(c) + rest) == Parsed(ExpTree(c), rest, false)
    decreases c, 3
  {
    match c
    case OneSimple(s) =>
      SimpleParsed(s, rest);
    case Compare(l, equal, r) =>
      var more := [OP(Comparison(equal))] + ShowSimple(r) + rest;
      assert ShowExp(c) + rest == ShowSimple(l) + more;
      SimpleParsed(l, more);
      assert more[1..] == ShowSimple(r) + rest;
      SimpleParsed(r, rest);
  }

  lemma Bracketed(a: Token, x: seq<Token>, b: Token, y: seq<Token>, c: Token, rest: seq<Token>)
    ensures var r2 := [c] + rest;
            var r1 := [b] + y + r2;
            ([a] + x + [b] + y + [c] + rest)[1..] == x + r1 && r1[1..] == y + r2 && r2[1..] == rest
  {
    assert [a] + x + [b] + y + [c] + rest == [a] + (x + ([b] + y + ([c] + rest)));
  }

  lemma {:induction false} IfParsed(c: StmtForm, rest: seq<Token>)
    requires c.If?
    ensures ParseStmt(ShowStmt(c) + rest) == Parsed(StmtTree(c), rest, false)
    decreases c, 3
  {
    hide ParseExp, ParseSequence, ShowExp, ShowSequence, ExpTree, SequenceTree;
    var ts := ShowStmt(c) + rest;
    var r2 := [END] + rest;
    var r1 := [THEN] + ShowSequence(c.body) + r2;
    Bracketed(IF, ShowExp(c.test), THEN, ShowSequence(c.body), END, rest);
    ExpParsed(c.test, r1);
    SequenceParsed(c.body, r2);
    assert ParseStmt(ts) == ParseIf(ts);
  }

  lemma {:induction false} IfElseParsed(c: StmtForm, rest: seq<Token>)
    requires c.IfElse?
    ensures ParseStmt(ShowStmt(c) + rest) == Parsed(StmtTree(c), rest, false)
    decreases c, 3
  {
    hide ParseExp, ParseSequence, ShowExp, ShowSequence, ExpTree, SequenceTree;
    var ts := ShowStmt(c) + rest;
    var r3 := [END] + rest;
    var r2 := [ELSE] + ShowSequence(c.other) + r3;
    var r1 := [THEN] + ShowSequence(c.body) + r2;
    assert ts[1..] == ShowExp(c.test) + r1 && r1[1..] == ShowSequence(c.body) + r2;
    assert r2[1..] == ShowSequence(c.other) + r3 && r3[1..] == rest;
    ExpParsed(c.test, r1);
    SequenceParsed(c.body, r2);
    SequenceParsed(c.other, r3);
  }

  lemma {:induction false} RepeatParsed(c: StmtForm, rest: seq<Token>)
    requires c.Repeat? && !Cur(rest).OP?
    ensures ParseStmt(ShowStmt(c) + rest) == Parsed(StmtTree(c), rest, false)
    decreases c, 3
  {
    hide ParseExp, ParseSequence, ShowExp, ShowSequence, ExpTree, SequenceTree;
    var ts := ShowStmt(c) + rest;
    var r1 := [UNTIL] + ShowExp(c.test) + rest;
    assert ts[1..] == ShowSequence(c.body) + r1 && r1[1..] == ShowExp(c.test) + rest;
    SequenceParsed(c.body, r1);
    ExpParsed(c.test, rest);
  }

  lemma {:induction false} StmtParsed(c: StmtForm, rest: seq<Token>)
    requires !Cur(rest).OP?
    ensures ParseStmt(ShowStmt(c) + rest) == Parsed(StmtTree(c), rest, false)
    decreases c, 4
  {
    hide ParseExp, ParseSequence, ParseIf, ParseRepeat, ShowExp, ShowSequence, ExpTree, SequenceTree;
    var ts := ShowStmt(c) + rest;
    match c
    case If(_, _) =>
      IfParsed(c, rest);
    case IfElse(_, _, _) =>
      IfElseParsed(c, rest);
    case Repeat(_, _) =>
      RepeatParsed(c, rest);
    case Assign(x, e) =>
      assert ts[1..] == [ASSIGN] + ShowExp(e) + rest && ts[1..][1..] == ShowExp(e) + rest;
      ExpParsed(e, rest);
    case Read(x) =>
      assert ts[1..] == [ID(x)] + rest && ts[1..][1..] == rest;
    case Write(e) =>
      assert ts[1..] == ShowExp(e) + rest;
      ExpParsed(e, rest);
  }

  lemma {:induction false} StmtsParsed(c: SequenceForm, rest: seq<Token>)
    requires !Cur(rest).OP?
    ensures ParseSequence(ShowSequence(c) + rest) == ParseStmts(SequenceTree(c), rest, false)
    decreases c, 5
  {
    hide ParseStmt, ShowStmt, StmtTree;
    match c
    case OneStmt(s) =>
      StmtParsed(s, rest);
    case Then(front, s) =>
      var more := [SEMI] + ShowStmt(s) + rest;
      assert ShowSequence(c) + rest == ShowSequence(front) + more;
      StmtsParsed(front, more);
      assert more[1..] == ShowStmt(s) + rest;
      StmtParsed(s, rest);
  }

  lemma {:induction false} SequenceParsed(c: SequenceForm, rest: seq<Token>)
    requires Cur(rest).EndsSequence()
    ensures ParseSequence(ShowSequence(c) + rest) == Parsed(SequenceTree(c), rest, false)
    decreases c, 6
  {
    StmtsParsed(c, rest);
  }

  // ----- whatever is parsed without an error is a form -----

  lemma {:induction false} FactorExplained(ts: seq<Token>) returns (c: FactorForm)
    requires !ParseFactor(ts).err
    ensures ts == ShowFactor(c) + ParseFactor(ts).rest && ParseFactor(ts).tree == FactorTree(c)
    decreases |ts|, 0
  {
    match ts[0]
    case NUM(v) => c := Number(v);
    case ID(x) => c := Name(x);
    case LPAREN =>
      var e := ExpExplained(ts[1..]);
      c := Paren(e);
      assert ts == [LPAREN] + (ShowExp(e) + ([RPAREN] + ParseFactor(ts).rest));
  }

  /** Going on from the tree of a term reads a longer term. */
  lemma {:induction false} TermsExplained(c: TermForm, ts: seq<Token>) returns (c2: TermForm)
    requires !ParseTerms(TermTree(c), ts, false).err
    ensures var r := ParseTerms(TermTree(c), ts, false);
            ShowTerm(c) + ts == ShowTerm(c2) + r.rest && r.tree == TermTree(c2)
    decreases |ts|, 1
  {
    hide ParseFactor, ShowFactor, FactorTree;
    if Cur(ts).IsMulOp() {
      var over := ts[0].op == OVER;
      var p := ParseFactor(ts[1..]);
      var f := FactorExplained(ts[1..]);
      c2 := TermsExplained(Times(c, over, f), p.rest);
      assert ShowTerm(c) + ts == ShowTerm(Times(c, over, f)) + p.rest;
    } else {
      c2 := c;
    }
  }

  lemma {:induction false} TermExplained(ts: seq<Token>) returns (c: TermForm)
    requires !ParseTerm(ts).err
    ensures ts == ShowTerm(c) + ParseTerm(ts).rest && ParseTerm(ts).tree == TermTree(c)
    decreases |ts|, 2
  {
    var f := FactorExplained(ts);
    c := TermsExplained(OneFactor(f), ParseFactor(ts).rest);
  }

  lemma {:induction false} SimplesExplained(c: SimpleForm, ts: seq<Token>) returns (c2: SimpleForm)
    requires !ParseSimples(SimpleTree(c), ts, false).err
    ensures var r := ParseSimples(SimpleTree(c), ts, false);
            ShowSimple(c) + ts == ShowSimple(c2) + r.rest && r.tree == SimpleTree(c2)
    decreases |ts|, 3
  {
    hide ParseTerm, ShowTerm, TermTree;
    if Cur(ts).IsAddOp() {
      var minus := ts[0].op == MINUS;
      var p := ParseTerm(ts[1..]);
      var t := TermExplained(ts[1..]);
      c2 := SimplesExplained(Plus(c, minus, t), p.rest);
      assert ShowSimple(c) + ts == ShowSimple(Plus(c, minus, t)) + p.rest;
    } else {
      c2 := c;
    }
  }

  lemma {:induction false} SimpleExplained(ts: seq<Token>) returns (c: SimpleForm)
    requires !ParseSimple(ts).err
    ensures ts == ShowSimple(c) + ParseSimple(ts).rest && ParseSimple(ts).tree == SimpleTree(c)
    decreases |ts|, 4
  {
    var t := TermExplained(ts);
    c := SimplesExplained(OneTerm(t), ParseTerm(ts).rest);
  }

  lemma {:induction false} ExpExplained(ts: seq<Token>) returns (c: ExpForm)
    requires !ParseExp(ts).err
    ensures ts == ShowExp(c) + ParseExp(ts).rest && ParseExp(ts).tree == ExpTree(c)
    decreases |ts|, 5
  {
    hide ParseSimple, ShowSimple, SimpleTree;
    var l := SimpleExplained(ts);
    var p := ParseSimple(ts).rest;
    if Cur(p).IsComparison() {
      var r := SimpleExplained(p[1..]);
      c := Compare(l, p[0].op == EQ, r);
      assert p == [p[0]] + (ShowSimple(r) + ParseExp(ts).rest);
    } else {
      c := OneSimple(l);
    }
  }

  lemma {:induction false} IfExplained(ts: seq<Token>) returns (c: StmtForm)
    requires Cur(ts) == IF && !ParseIf(ts).err
    ensures ts == ShowStmt(c) + ParseIf(ts).rest && ParseIf(ts).tree == StmtTree(c)
    decreases |ts|, 6
  {
    hide ParseExp, ParseSequence, ShowExp, ShowSequence, ExpTree, SequenceTree;
    var e := ExpExplained(ts[1..]);
    var r1 := ParseExp(ts[1..]).rest;
    var s := SequenceExplained(r1[1..]);
    var r2 := ParseSequence(r1[1..]).rest;
    assert ts == [IF] + (ShowExp(e) + ([THEN] + (ShowSequence(s) + r2)));
    if Cur(r2) == ELSE {
      var s2 := SequenceExplained(r2[1..]);
      c := IfElse(e, s, s2);
      assert r2 == [ELSE] + (ShowSequence(s2) + ([END] + ParseIf(ts).rest));
    } else {
      c := If(e, s);
      assert r2 == [END] + ParseIf(ts).rest;
    }
  }

  lemma {:induction false} RepeatExplained(ts: seq<Token>) returns (c: StmtForm)
    requires Cur(ts) == REPEAT && !ParseRepeat(ts).err
    ensures ts == ShowStmt(c) + ParseRepeat(ts).rest && ParseRepeat(ts).tree == StmtTree(c)
    decreases |ts|, 6
  {
    hide ParseExp, ParseSequence, ShowExp, ShowSequence, ExpTree, SequenceTree;
    var s := SequenceExplained(ts[1..]);
    var r1 := ParseSequence(ts[1..]).rest;
    var e := ExpExplained(r1[1..]);
    c := Repeat(s, e);
    assert ts == [REPEAT] + (ShowSequence(s) + ([UNTIL] + (ShowExp(e) + ParseRepeat(ts).rest)));
  }

  lemma {:induction false} StmtExplained(ts: seq<Token>) returns (c: StmtForm)
    requires !ParseStmt(ts).err
    ensures ts == ShowStmt(c) + ParseStmt(ts).rest && ParseStmt(ts).tree == StmtTree(c)
    decreases |ts|, 7
  {
    hide ParseExp, ParseSequence, ParseIf, ParseRepeat, ShowExp, ShowSequence, ExpTree;
    match ts[0]
    case IF =>
      c := IfExplained(ts);
    case REPEAT =>
      c := RepeatExplained(ts);
    case ID(x) =>
      var e := ExpExplained(ts[1..][1..]);
      c := Assign(x, e);
      assert ts == [ID(x)] + ([ASSIGN] + (ShowExp(e) + ParseStmt(ts).rest));
    case READ =>
      c := Read(ts[1].name);
      assert ts == [READ] + ([ts[1]] + ParseStmt(ts).rest);
    case WRITE =>
      var e := ExpExplained(ts[1..]);
      c := Write(e);
      assert ts == [WRITE] + (ShowExp(e) + ParseStmt(ts).rest);
  }

  lemma {:induction false} StmtsExplained(c: SequenceForm, ts: seq<Token>) returns (c2: SequenceForm)
    requires !ParseStmts(SequenceTree(c), ts, false).err
    ensures var r := ParseStmts(SequenceTree(c), ts, false);
            && ShowSequence(c) + ts == ShowSequence(c2) + r.rest
            && r.tree == SequenceTree(c2) && Cur(r.rest).EndsSequence()
    decreases |ts|, 8
  {
    hide ParseStmt, ShowStmt, StmtTree;
    if Cur(ts).EndsSequence() {
      c2 := c;
    } else {
      var p := ParseStmt(ts[1..]);
      var s := StmtExplained(ts[1..]);
      c2 := StmtsExplained(Then(c, s), p.rest);
      assert ts == [SEMI] + (ShowStmt(s) + p.rest);
      assert ShowSequence(c) + ts == ShowSequence(Then(c, s)) + p.rest;
    }
  }

  lemma {:induction false} SequenceExplained(ts: seq<Token>) returns (c: SequenceForm)
    requires !ParseSequence(ts).err
    ensures ts == ShowSequence(c) + ParseSequence(ts).rest && ParseSequence(ts).tree == SequenceTree(c)
    ensures Cur(ParseSequence(ts).rest).EndsSequence()
    decreases |ts|, 9
  {
    var s := StmtExplained(ts);
    c := StmtsExplained(OneStmt(s), ParseStmt(ts).rest);
  }

  /** The parser reports no error exactly on the language, and there it builds the tree of the form. */
  lemma {:induction false} ParsesExactly(ts: seq<Token>)
    requires ENDFILE !in ts
    ensures !ParseProgram(ts).err <==> Grammatical(ts)
    ensures forall c: SequenceForm :: ShowSequence(c) == ts ==> ParseProgram(ts) == Parsed(SequenceTree(c), [], false)
  {
    hide ParseSequence, ShowSequence, SequenceTree;
    forall c: SequenceForm | ShowSequence(c) == ts
      ensures ParseProgram(ts) == Parsed(SequenceTree(c), [], false)
    {
      SequenceParsed(c, []);
      assert ShowSequence(c) + [] == ts;
    }
    if !ParseProgram(ts).err {
      var c := SequenceExplained(ts);
      var rest := ParseSequence(ts).rest;
      forall x <- rest
        ensures x in ts
      {
      }
      assert ts == ShowSequence(c);
    }
  }

  // ----- the trees of programs -----

  /** Every child that the later passes dereference is present, and no statement sequence is empty. */
  predicate Complete(t: Tree)
  {
    IsStmts(t) && Filled(t)
  }

  predicate Filled(t: Tree) {
    t.Node? ==>
      && (t.kind.IfK? ==> t.c1.Node? && Filled(t.c1) && Filled(t.c2))
      && (t.kind.RepeatK? ==> t.c0.Node? && Filled(t.c0))
      && Filled(t.sibling)
  }

  lemma {:induction false} FactorComplete(c: FactorForm)
    ensures IsExp(FactorTree(c))
  {
    if c.Paren? {
      ExpComplete(c.exp);
    }
  }

  lemma {:induction false} TermComplete(c: TermForm)
    ensures IsExp(TermTree(c))
  {
    FactorComplete(c.f);
    if c.Times? {
      TermComplete(c.t);
    }
  }

  lemma {:induction false} SimpleComplete(c: SimpleForm)
    ensures IsExp(SimpleTree(c))
  {
    TermComplete(c.t);
    if c.Plus? {
      SimpleComplete(c.s);
    }
  }

  lemma {:induction false} ExpComplete(c: ExpForm)
    ensures IsExp(ExpTree(c))
  {
    if c.OneSimple? {
      SimpleComplete(c.s);
    } else {
      SimpleComplete(c.l);
      SimpleComplete(c.r);
    }
  }

  lemma {:induction false} StmtComplete(c: StmtForm)
    ensures StmtTree(c).Node? && Complete(StmtTree(c))
  {
    hide ExpTree, SequenceTree;
    match c {
      case If(e, s) => ExpComplete(e); SequenceComplete(s);
      case IfElse(e, s, s2) => ExpComplete(e); SequenceComplete(s); SequenceComplete(s2);
      case Repeat(s, e) => ExpComplete(e); SequenceComplete(s);
      case Assign(_, e) => ExpComplete(e);
      case Read(_) =>
      case Write(e) => ExpComplete(e);
    }
    NodeComplete(StmtTree(c));
  }

  lemma NodeComplete(t: Tree)
    requires IsStmt(t) && t.sibling.Null?
    requires t.kind.IfK? ==> t.c1.Node? && Filled(t.c1) && Filled(t.c2)
    requires t.kind.RepeatK? ==> t.c0.Node? && Filled(t.c0)
    ensures Complete(t)
  {
    assert IsStmts(t.sibling) && Filled(t.sibling);
  }

  lemma {:induction false} SequenceComplete(c: SequenceForm)
    ensures SequenceTree(c).Node? && Complete(SequenceTree(c))
  {
    hide StmtTree;
    StmtComplete(c.s);
    if c.Then? {
      SequenceComplete(c.front);
      LinkedComplete(SequenceTree(c.front), StmtTree(c.s));
    }
  }

  lemma {:induction false} LinkedComplete(t: Tree, q: Tree)
    requires Complete(t) && Complete(q)
    ensures Complete(Linked(t, q))
  {
    if t.Node? {
      LinkedComplete(t.sibling, q);
      var l := Linked(t, q);
      assert IsStmt(l) <==> IsStmt(t);
      assert IsStmts(l) && Filled(l);
    }
  }

  // ----- printing a tree -----

  /** How tightly the root of an expression binds: comparison, sum, product, leaf. */
  function Strength(t: Tree): nat {
    if !t.Node? || !t.kind.OpK? then 3
    else match t.kind.op
      case LT => 0
      case EQ => 0
      case PLUS => 1
      case MINUS => 1
      case TIMES => 2
      case OVER => 2
  }

  /** Parentheses go around an operator that its place does not admit. */
  function FactorOf(t: Tree): FactorForm
    requires IsExp(t)
    decreases t, (Strength(t) - 3) % 4
  {
    if t.kind.ConstK? then Number(t.kind.val)
    else if t.kind.IdK? then Name(t.kind.name)
    else Paren(ExpOf(t))
  }

  function TermOf(t: Tree): TermForm
    requires IsExp(t)
    decreases t, (Strength(t) - 2) % 4
  {
    if Strength(t) == 2 then Times(TermOf(t.c0), t.kind.op.OVER?, FactorOf(t.c1)) else OneFactor(FactorOf(t))
  }

  function SimpleOf(t: Tree): SimpleForm
    requires IsExp(t)
    decreases t, (Strength(t) - 1) % 4
  {
    if Strength(t) == 1 then Plus(SimpleOf(t.c0), t.kind.op.MINUS?, TermOf(t.c1)) else OneTerm(TermOf(t))
  }

  function ExpOf(t: Tree): ExpForm
    requires IsExp(t)
    decreases t, Strength(t) % 4
  {
    if Strength(t) == 0 then Compare(SimpleOf(t.c0), t.kind.op.EQ?, SimpleOf(t.c1)) else OneSimple(SimpleOf(t))
  }

  function StmtOf(t: Tree): StmtForm
    requires IsStmt(t) && Filled(t)
    decreases t, 0
  {
    match t.kind
    case IfK =>
      if t.c2.Null? then If(ExpOf(t.c0), SequenceOf(t.c1)) else IfElse(ExpOf(t.c0), SequenceOf(t.c1), SequenceOf(t.c2))
    case RepeatK => Repeat(SequenceOf(t.c0), ExpOf(t.c1))
    case AssignK(x) => Assign(x, ExpOf(t.c0))
    case ReadK(x) => Read(x)
    case WriteK => Write(ExpOf(t.c0))
  }

  function SequenceOf(t: Tree): SequenceForm
    requires t.Node? && Complete(t)
    decreases t, 1
  {
    SequenceFrom(OneStmt(StmtOf(t)), t.sibling)
  }

  function SequenceFrom(front: SequenceForm, t: Tree): SequenceForm
    requires Complete(t)
    decreases t, 1
  {
    if t.Null? then front else SequenceFrom(Then(front, StmtOf(t)), t.sibling)
  }

  function Print(t: Tree): seq<Token>
    requires t.Node? && Complete(t)
  {
    ShowSequence(SequenceOf(t))
  }

  lemma {:induction false} FactorOfTree(t: Tree)
    requires IsExp(t)
    ensures FactorTree(FactorOf(t)) == t
    decreases t, (Strength(t) - 3) % 4
  {
    if t.kind.OpK? {
      ExpOfTree(t);
    }
  }

  lemma {:induction false} TermOfTree(t: Tree)
    requires IsExp(t)
    ensures TermTree(TermOf(t)) == t
    decreases t, (Strength(t) - 2) % 4
  {
    if Strength(t) == 2 {
      TermOfTree(t.c0);
      FactorOfTree(t.c1);
    } else {
      FactorOfTree(t);
    }
  }

  lemma {:induction false} SimpleOfTree(t: Tree)
    requires IsExp(t)
    ensures SimpleTree(SimpleOf(t)) == t
    decreases t, (Strength(t) - 1) % 4
  {
    if Strength(t) == 1 {
      SimpleOfTree(t.c0);
      TermOfTree(t.c1);
    } else {
      TermOfTree(t);
    }
  }

  lemma {:induction false} ExpOfTree(t: Tree)
    requires IsExp(t)
    ensures ExpTree(ExpOf(t)) == t
    decreases t, Strength(t) % 4
  {
    if Strength(t) == 0 {
      SimpleOfTree(t.c0);
      SimpleOfTree(t.c1);
    } else {
      SimpleOfTree(t);
    }
  }

  lemma {:induction false} StmtOfTree(t: Tree)
    requires IsStmt(t) && Filled(t)
    ensures StmtTree(StmtOf(t)) == t.(sibling := Null)
    decreases t, 0
  {
    hide ExpOf, SequenceOf, ExpTree, SequenceTree;
    match t.kind
    case IfK =>
      ExpOfTree(t.c0);
      SequenceOfTree(t.c1);
      if t.c2.Node? {
        SequenceOfTree(t.c2);
      }
    case RepeatK =>
      SequenceOfTree(t.c0);
      ExpOfTree(t.c1);
    case AssignK(_) => ExpOfTree(t.c0);
    case ReadK(_) =>
    case WriteK => ExpOfTree(t.c0);
  }

  lemma {:induction false} SequenceOfTree(t: Tree)
    requires t.Node? && Complete(t)
    ensures SequenceTree(SequenceOf(t)) == t
    decreases t, 1
  {
    StmtOfTree(t);
    SequenceFromTree(OneStmt(StmtOf(t)), t.sibling);
    assert Linked(t.(sibling := Null), t.sibling) == t;
  }

  lemma {:induction false} SequenceFromTree(front: SequenceForm, t: Tree)
    requires Complete(t)
    ensures SequenceTree(SequenceFrom(front, t)) == Linked(SequenceTree(front), t)
    decreases t, 1
  {
    var f := SequenceTree(front);
    if t.Null? {
      LinkedNull(f);
    } else {
      StmtOfTree(t);
      SequenceFromTree(Then(front, StmtOf(t)), t.sibling);
      LinkedAgain(f, t.(sibling := Null), t.sibling);
    }
  }

  lemma {:induction false} LinkedAgain(a: Tree, b: Tree, c: Tree)
    ensures Linked(Linked(a, b), c) == Linked(a, Linked(b, c))
  {
    if a.Node? {
      LinkedAgain(a.sibling, b, c);
    }
  }

  lemma {:induction t} LinkedNull(t: Tree)
    ensures Linked(t, Null) == t
  {
  }

  /** Printing a tree and parsing the tokens gives the tree back, and exactly these trees come out of programs. */
  lemma {:induction false} PrintParse(t: Tree)
    requires t.Node? && Complete(t)
    ensures ParseProgram(Print(t)) == Parsed(t, [], false)
  {
    hide ParseSequence, ShowSequence, SequenceTree, SequenceOf;
    SequenceOfTree(t);
    SequenceParsed(SequenceOf(t), []);
    assert Print(t) + [] == Print(t);
  }

  // ----- the parser as it runs -----

  class Parser {
    /** What the scanner has yet to return. */
    var input: seq<Token>
    var token: Token
    var error: bool

    ghost predicate Valid()
      reads this
    {
      ENDFILE !in input && (token.ENDFILE? ==> input == [])
    }

    /** The tokens that remain, the current one first. */
    ghost function Rest(): seq<Token>
      reads this
    {
      if token.ENDFILE? then [] else [token] + input
    }

    /** A parsing function that returns t leaves the parser with this result. */
    ghost predicate Leaves(r: Parsed, before: bool, t: Tree)
      reads this
    {
      Valid() && t == r.tree && Rest() == r.rest && error == (before || r.err)
    }

    constructor (ts: seq<Token>)
      ensures input == ts && !error
    {
      input, token, error := ts, ENDFILE, false;
    }

    /** After the last token the scanner returns ENDFILE for ever. */
    method GetToken()
      requires ENDFILE !in input
      modifies this`input, this`token
      ensures Valid() && Rest() == old(input)
    {
      if input == [] {
        token := ENDFILE;
      } else {
        token, input := input[0], input[1..];
      }
    }

    method SyntaxError()
      modifies this`error
      ensures error
    {
      error := true;
    }

    method Match(expected: Token)
      requires Valid()
      modifies this
      ensures Valid() && Rest() == Matched(old(Rest()), expected)
      ensures error == (old(error) || !Same(Cur(old(Rest())), expected))
    {
      if Same(token, expected) {
        GetToken();
      } else {
        SyntaxError();
      }
    }

    /** Linking at the end of the chain is what the source's tail pointer p is for. */
    method StmtSequence() returns (t: Tree)
      requires Valid()
      modifies this
      ensures Leaves(ParseSequence(old(Rest())), old(error), t)
      decreases |Rest()|, 8
    {
      hide ParseStmt;
      t := Statement();
      ghost var e := ParseStmt(old(Rest())).err;
      while !token.ENDFILE? && !token.END? && !token.ELSE? && !token.UNTIL?
        invariant Valid() && |Rest()| <= |old(Rest())|
        invariant error == (old(error) || e)
        invariant ParseStmts(t, Rest(), e) == ParseSequence(old(Rest()))
        decreases |Rest()|
      {
        ghost var ts := Rest();
        Match(SEMI);
        var q := Statement();
        e := e || Cur(ts) != SEMI || ParseStmt(Matched(ts, SEMI)).err;
        LinkedNull(t);
        if q.Node? {
          if t.Null? {
            t := q;
          } else {
            t := Linked(t, q);
          }
        }
      }
    }

    method Statement() returns (t: Tree)
      requires Valid()
      modifies this
      ensures Leaves(ParseStmt(old(Rest())), old(error), t)
      decreases |Rest()|, 7
    {
      hide ParseIf, ParseRepeat, ParseAssign, ParseRead, ParseWrite;
      match token {
        case IF => t := IfStmt();
        case REPEAT => t := RepeatStmt();
        case ID(_) => t := AssignStmt();
        case READ => t := ReadStmt();
        case WRITE => t := WriteStmt();
        case _ =>
          t := Null;
          SyntaxError();
          GetToken();
      }
    }

    method IfStmt() returns (t: Tree)
      requires Valid() && token == IF
      modifies this
      ensures Leaves(ParseIf(old(Rest())), old(error), t)
      decreases |Rest()|, 6
    {
      hide ParseExp, ParseSequence;
      t := Leaf(IfK);
      Match(IF);
      var e := Exp();
      t := t.(c0 := e);
      Match(THEN);
      var s := StmtSequence();
      t := t.(c1 := s);
      if token == ELSE {
        Match(ELSE);
        var s2 := StmtSequence();
        t := t.(c2 := s2);
      }
      Match(END);
    }

    method RepeatStmt() returns (t: Tree)
      requires Valid() && token == REPEAT
      modifies this
      ensures Leaves(ParseRepeat(old(Rest())), old(error), t)
      decreases |Rest()|, 6
    {
      hide ParseExp, ParseSequence;
      t := Leaf(RepeatK);
      Match(REPEAT);
      var s := StmtSequence();
      t := t.(c0 := s);
      Match(UNTIL);
      var e := Exp();
      t := t.(c1 := e);
    }

    method AssignStmt() returns (t: Tree)
      requires Valid() && token.ID?
      modifies this
      ensures Leaves(ParseAssign(old(Rest())), old(error), t)
      decreases |Rest()|, 6
    {
      hide ParseExp;
      t := Leaf(AssignK(token.name));
      Match(ID(""));
      Match(ASSIGN);
      var e := Exp();
      t := t.(c0 := e);
    }

    method ReadStmt() returns (t: Tree)
      requires Valid() && token == READ
      modifies this
      ensures Leaves(ParseRead(old(Rest())), old(error), t)
    {
      t := Leaf(ReadK(""));
      Match(READ);
      if token.ID? {
        t := Leaf(ReadK(token.name));
      }
      Match(ID(""));
    }

    method WriteStmt() returns (t: Tree)
      requires Valid() && token == WRITE
      modifies this
      ensures Leaves(ParseWrite(old(Rest())), old(error), t)
      decreases |Rest()|, 6
    {
      hide ParseExp;
      t := Leaf(WriteK);
      Match(WRITE);
      var e := Exp();
      t := t.(c0 := e);
    }

    method Exp() returns (t: Tree)
      requires Valid()
      modifies this
      ensures Leaves(ParseExp(old(Rest())), old(error), t)
      decreases |Rest()|, 5
    {
      hide ParseSimple;
      t := SimpleExp();
      if token == OP(LT) || token == OP(EQ) {
        t := BinOp(token.op, t, Null);
        Match(token);
        var r := SimpleExp();
        t := t.(c1 := r);
      }
    }

    method SimpleExp() returns (t: Tree)
      requires Valid()
      modifies this
      ensures Leaves(ParseSimple(old(Rest())), old(error), t)
      decreases |Rest()|, 4
    {
      hide ParseTerm;
      t := Term();
      ghost var e := ParseTerm(old(Rest())).err;
      while token == OP(PLUS) || token == OP(MINUS)
        invariant Valid() && |Rest()| <= |old(Rest())|
        invariant error == (old(error) || e)
        invariant ParseSimples(t, Rest(), e) == ParseSimple(old(Rest()))
        decreases |Rest()|
      {
        ghost var ts := Rest();
        t := BinOp(token.op, t, Null);
        Match(token);
        var r := Term();
        t := t.(c1 := r);
        e := e || ParseTerm(ts[1..]).err;
      }
    }

    method Term() returns (t: Tree)
      requires Valid()
      modifies this
      ensures Leaves(ParseTerm(old(Rest())), old(error), t)
      decreases |Rest()|, 2
    {
      hide ParseFactor;
      t := Factor();
      ghost var e := ParseFactor(old(Rest())).err;
      while token == OP(TIMES) || token == OP(OVER)
        invariant Valid() && |Rest()| <= |old(Rest())|
        invariant error == (old(error) || e)
        invariant ParseTerms(t, Rest(), e) == ParseTerm(old(Rest()))
        decreases |Rest()|
      {
        ghost var ts := Rest();
        t := BinOp(token.op, t, Null);
        Match(token);
        var r := Factor();
        t := t.(c1 := r);
        e := e || ParseFactor(ts[1..]).err;
      }
    }

    method Factor() returns (t: Tree)
      requires Valid()
      modifies this
      ensures Leaves(ParseFactor(old(Rest())), old(error), t)
      decreases |Rest()|, 0
    {
      hide ParseExp;
      t := Null;
      match token {
        case NUM(v) =>
          t := Leaf(ConstK(v));
          Match(NUM(0));
        case ID(x) =>
          t := Leaf(IdK(x));
          Match(ID(""));
        case LPAREN =>
          Match(LPAREN);
          t := Exp();
          Match(RPAREN);
        case _ =>
          SyntaxError();
          GetToken();
      }
    }

    /** On any token stream the parser stops; it reports an error exactly when the stream is not a program
        of the language, and otherwise returns the tree of the program. */
    method Parse() returns (t: Tree)
      requires ENDFILE !in input && !error
      modifies this
      ensures error <==> !Grammatical(old(input))
      ensures forall c: SequenceForm :: ShowSequence(c) == old(input) ==> t == SequenceTree(c)
      ensures !error ==> t.Node? && Complete(t)
    {
      hide ParseSequence, ShowSequence, SequenceTree, Complete;
      ParsesExactly(input);
      GetToken();
      t := StmtSequence();
      if token != ENDFILE {
        SyntaxError();
      }
      if !error {
        ghost var c :| ShowSequence(c) == old(input);
        SequenceComplete(c);
      }
    }
  }
}
