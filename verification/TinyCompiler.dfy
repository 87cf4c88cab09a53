/** The compiler driver (main.c): from tokens to a code file, and what running the file means. */
module TinyCompiler {
  import opened TinyTree
  import opened TinyMachine
  import opened TinyCode
  import opened TinySymtab
  import opened TinyCgen
  import opened TinyCorrect
  import Analyze = TinyAnalyze
  import Parse = TinyParse

  /** The tree of a program text. */
  ghost function TreeOf(c: Parse.SequenceForm): (t: Tree)
    ensures t.Node? && Parse.Complete(t)
  {
    Parse.SequenceComplete(c);
    Parse.SequenceTree(c)
  }

  /** The variables in the order of their first occurrence, at 0, 1, ... */
  ghost function Allocated(t: Tree): Addresses {
    Analyze.Assign(Analyze.Order(t), map[])
  }

  ghost predicate Legal(ts: seq<Parse.Token>) {
    exists c: Parse.SequenceForm :: Parse.ShowSequence(c) == ts && Analyze.WellTyped(TreeOf(c))
  }

  /** How many instructions a tree is compiled to, wherever its variables are. */
  function CodeSize(t: Tree): nat {
    match t
    case Null => 0
    case Node(kind, c0, c1, c2, sibling) =>
      CodeSize(sibling) +
      match kind
      case IfK => CodeSize(c0) + CodeSize(c1) + CodeSize(c2) + 2
      case RepeatK => CodeSize(c0) + CodeSize(c1) + 1
      case AssignK(_) => CodeSize(c0) + 1
      case ReadK(_) => 2
      case WriteK => CodeSize(c0) + 1
      case OpK(op) => CodeSize(c0) + CodeSize(c1) + (if op.LT? || op.EQ? then 7 else 3)
      case _ => 1
  }

  lemma {:induction false} CodeHasSize(t: Tree, addr: Addresses, k: int)
    ensures |Code(t, addr, k)| == CodeSize(t)
  {
    if t.Node? {
      CodeHasSize(t.c0, addr, k);
      CodeHasSize(t.c1, addr, if t.kind.OpK? then k - 1 else k);
      CodeHasSize(t.c2, addr, k);
      CodeHasSize(t.sibling, addr, k);
    }
  }

  /** The program fits the machine: its code, and its variables with the temporaries. */
  ghost predicate Small(t: Tree) {
    && CodeSize(t) + 3 <= IADDR_SIZE
    && |Names(t)| + Depth(t) <= DADDR_SIZE
  }

  // ----- where the variables are -----

  /** The identifiers among the tokens, in their order. */
  function TokenNames(ts: seq<Parse.Token>): seq<string> {
    if ts == [] then [] else (if ts[0].ID? then [ts[0].name] else []) + TokenNames(ts[1..])
  }

  lemma {:induction false} TokenNamesAppend(a: seq<Parse.Token>, b: seq<Parse.Token>)
    ensures TokenNames(a + b) == TokenNames(a) + TokenNames(b)
    decreases |a|
  {
    if a == [] {
      assert a + b == b;
    } else {
      assert (a + b)[1..] == a[1..] + b;
      TokenNamesAppend(a[1..], b);
    }
  }

  lemma TokenNamesNone()
    ensures TokenNames([]) == []
  {
  }

  lemma TokenNamesOne(t: Parse.Token)
    ensures TokenNames([t]) == if t.ID? then [t.name] else []
  {
  }

  /** Two parts of a text with a token between them that is no identifier. */
  lemma TokenNamesBetween(a: seq<Parse.Token>, t: Parse.Token, b: seq<Parse.Token>)
    requires !t.ID?
    ensures TokenNames(a + [t] + b) == TokenNames(a) + TokenNames(b)
  {
    TokenNamesOne(t);
    TokenNamesAppend(a + [t], b);
    TokenNamesAppend(a, [t]);
  }

  /** A keyword, a part of a text, a keyword and another part. */
  lemma TokenNamesTwo(k: Parse.Token, a: seq<Parse.Token>, t: Parse.Token, b: seq<Parse.Token>)
    requires !k.ID? && !t.ID?
    ensures TokenNames([k] + a + [t] + b) == TokenNames(a) + TokenNames(b)
  {
    hide TokenNames;
    TokenNamesNone();
    TokenNamesBetween([k] + a, t, b);
    TokenNamesBetween([], k, a);
    assert [] + [k] + a == [k] + a;
  }

  /** A text with a keyword behind it. */
  lemma TokenNamesLast(a: seq<Parse.Token>, t: Parse.Token)
    requires !t.ID?
    ensures TokenNames(a + [t]) == TokenNames(a)
  {
    TokenNamesBetween(a, t, []);
    assert a + [t] + [] == a + [t];
  }

  /** One unfolding of Order at a node that is the last of its siblings. */
  lemma OrderNode(kind: Kind, c0: Tree, c1: Tree, c2: Tree)
    ensures Analyze.Order(Node(kind, c0, c1, c2, Null)) ==
            Analyze.NameOf(kind) + Analyze.Order(c0) + Analyze.Order(c1) + Analyze.Order(c2)
    ensures Analyze.Order(Null) == []
  {
  }

  lemma {:induction false} FactorNames(c: Parse.FactorForm)
    ensures TokenNames(Parse.ShowFactor(c)) == Analyze.Order(Parse.FactorTree(c))
    decreases c
  {
    hide Analyze.Order, TokenNames;
    match c
    case Number(v) =>
      TokenNamesOne(Parse.NUM(v));
      OrderNode(ConstK(v), Null, Null, Null);
    case Name(x) =>
      TokenNamesOne(Parse.ID(x));
      OrderNode(IdK(x), Null, Null, Null);
    case Paren(e) =>
      ExpNames(e);
      TokenNamesNone();
      assert Parse.ShowFactor(c) == [] + [Parse.LPAREN] + Parse.ShowExp(e) + [Parse.RPAREN] + [];
      TokenNamesBetween([] + [Parse.LPAREN] + Parse.ShowExp(e), Parse.RPAREN, []);
      TokenNamesBetween([], Parse.LPAREN, Parse.ShowExp(e));
  }

  lemma {:induction false} TermNames(c: Parse.TermForm)
    ensures TokenNames(Parse.ShowTerm(c)) == Analyze.Order(Parse.TermTree(c))
    decreases c
  {
    hide Analyze.Order, TokenNames;
    match c
    case OneFactor(f) => FactorNames(f);
    case Times(t, over, f) =>
      TermNames(t);
      FactorNames(f);
      OrderNode(OpK(Parse.MulOp(over)), Parse.TermTree(t), Parse.FactorTree(f), Null);
      TokenNamesBetween(Parse.ShowTerm(t), Parse.OP(Parse.MulOp(over)), Parse.ShowFactor(f));
  }

  lemma {:induction false} SimpleNames(c: Parse.SimpleForm)
    ensures TokenNames(Parse.ShowSimple(c)) == Analyze.Order(Parse.SimpleTree(c))
    decreases c
  {
    hide Analyze.Order, TokenNames;
    match c
    case OneTerm(t) => TermNames(t);
    case Plus(s, minus, t) =>
      SimpleNames(s);
      TermNames(t);
      OrderNode(OpK(Parse.AddOp(minus)), Parse.SimpleTree(s), Parse.TermTree(t), Null);
      TokenNamesBetween(Parse.ShowSimple(s), Parse.OP(Parse.AddOp(minus)), Parse.ShowTerm(t));
  }

  lemma {:induction false} ExpNames(c: Parse.ExpForm)
    ensures TokenNames(Parse.ShowExp(c)) == Analyze.Order(Parse.ExpTree(c))
    decreases c
  {
    hide Analyze.Order, TokenNames;
    match c
    case OneSimple(s) => SimpleNames(s);
    case Compare(l, equal, r) =>
      SimpleNames(l);
      SimpleNames(r);
      OrderNode(OpK(Parse.Comparison(equal)), Parse.SimpleTree(l), Parse.SimpleTree(r), Null);
      TokenNamesBetween(Parse.ShowSimple(l), Parse.OP(Parse.Comparison(equal)), Parse.ShowSimple(r));
  }

  lemma IfNames(e: Parse.ExpForm, s: Parse.SequenceForm)
    requires TokenNames(Parse.ShowExp(e)) == Analyze.Order(Parse.ExpTree(e))
    requires TokenNames(Parse.ShowSequence(s)) == Analyze.Order(Parse.SequenceTree(s))
    ensures TokenNames(Parse.ShowStmt(Parse.If(e, s))) == Analyze.Order(Parse.StmtTree(Parse.If(e, s)))
  {
    hide Analyze.Order, TokenNames, Parse.ShowExp, Parse.ShowSequence, Parse.ExpTree, Parse.SequenceTree;
    OrderNode(IfK, Parse.ExpTree(e), Parse.SequenceTree(s), Null);
    TokenNamesTwo(Parse.IF, Parse.ShowExp(e), Parse.THEN, Parse.ShowSequence(s));
    TokenNamesLast([Parse.IF] + Parse.ShowExp(e) + [Parse.THEN] + Parse.ShowSequence(s), Parse.END);
  }

  lemma IfElseNames(e: Parse.ExpForm, s: Parse.SequenceForm, s2: Parse.SequenceForm)
    requires TokenNames(Parse.ShowExp(e)) == Analyze.Order(Parse.ExpTree(e))
    requires TokenNames(Parse.ShowSequence(s)) == Analyze.Order(Parse.SequenceTree(s))
    requires TokenNames(Parse.ShowSequence(s2)) == Analyze.Order(Parse.SequenceTree(s2))
    ensures TokenNames(Parse.ShowStmt(Parse.IfElse(e, s, s2))) == Analyze.Order(Parse.StmtTree(Parse.IfElse(e, s, s2)))
  {
    hide Analyze.Order, TokenNames, Parse.ShowExp, Parse.ShowSequence, Parse.ExpTree, Parse.SequenceTree;
    OrderNode(IfK, Parse.ExpTree(e), Parse.SequenceTree(s), Parse.SequenceTree(s2));
    var front := [Parse.IF] + Parse.ShowExp(e) + [Parse.THEN] + Parse.ShowSequence(s);
    TokenNamesTwo(Parse.IF, Parse.ShowExp(e), Parse.THEN, Parse.ShowSequence(s));
    TokenNamesBetween(front, Parse.ELSE, Parse.ShowSequence(s2));
    TokenNamesLast(front + [Parse.ELSE] + Parse.ShowSequence(s2), Parse.END);
  }

  lemma RepeatNames(s: Parse.SequenceForm, e: Parse.ExpForm)
    requires TokenNames(Parse.ShowExp(e)) == Analyze.Order(Parse.ExpTree(e))
    requires TokenNames(Parse.ShowSequence(s)) == Analyze.Order(Parse.SequenceTree(s))
    ensures TokenNames(Parse.ShowStmt(Parse.Repeat(s, e))) == Analyze.Order(Parse.StmtTree(Parse.Repeat(s, e)))
  {
    hide Analyze.Order, TokenNames, Parse.ShowExp, Parse.ShowSequence, Parse.ExpTree, Parse.SequenceTree;
    OrderNode(RepeatK, Parse.SequenceTree(s), Parse.ExpTree(e), Null);
    TokenNamesTwo(Parse.REPEAT, Parse.ShowSequence(s), Parse.UNTIL, Parse.ShowExp(e));
  }

  lemma {:induction false} StmtNames(c: Parse.StmtForm)
    ensures TokenNames(Parse.ShowStmt(c)) == Analyze.Order(Parse.StmtTree(c))
    decreases c
  {
    hide Analyze.Order, TokenNames;
    TokenNamesNone();
    match c
    case If(e, s) =>
      ExpNames(e);
      SequenceNames(s);
      IfNames(e, s);
    case IfElse(e, s, s2) =>
      ExpNames(e);
      SequenceNames(s);
      SequenceNames(s2);
      IfElseNames(e, s, s2);
    case Repeat(s, e) =>
      SequenceNames(s);
      ExpNames(e);
      RepeatNames(s, e);
    case Assign(x, e) =>
      OrderNode(AssignK(x), Parse.ExpTree(e), Null, Null);
      ExpNames(e);
      assert Parse.ShowStmt(c) == [Parse.ID(x)] + [Parse.ASSIGN] + Parse.ShowExp(e);
      TokenNamesBetween([Parse.ID(x)], Parse.ASSIGN, Parse.ShowExp(e));
      TokenNamesOne(Parse.ID(x));
    case Read(x) =>
      OrderNode(ReadK(x), Null, Null, Null);
      assert Parse.ShowStmt(c) == [] + [Parse.READ] + [Parse.ID(x)];
      TokenNamesBetween([], Parse.READ, [Parse.ID(x)]);
      TokenNamesOne(Parse.ID(x));
    case Write(e) =>
      OrderNode(WriteK, Parse.ExpTree(e), Null, Null);
      ExpNames(e);
      assert Parse.ShowStmt(c) == [] + [Parse.WRITE] + Parse.ShowExp(e);
      TokenNamesBetween([], Parse.WRITE, Parse.ShowExp(e));
  }

  /** The traversal meets the names of a program in the order of its text. */
  lemma {:induction false} SequenceNames(c: Parse.SequenceForm)
    ensures TokenNames(Parse.ShowSequence(c)) == Analyze.Order(Parse.SequenceTree(c))
    decreases c
  {
    match c
    case OneStmt(s) => StmtNames(s);
    case Then(front, s) =>
      SequenceNames(front);
      StmtNames(s);
      LinkedOrder(Parse.SequenceTree(front), Parse.StmtTree(s));
      TokenNamesBetween(Parse.ShowSequence(front), Parse.SEMI, Parse.ShowStmt(s));
  }

  lemma {:induction false} LinkedOrder(t: Tree, q: Tree)
    ensures Analyze.Order(Parse.Linked(t, q)) == Analyze.Order(t) + Analyze.Order(q)
    decreases t
  {
    hide Analyze.Order;
    if t.Node? {
      LinkedOrder(t.sibling, q);
      OrderSibling(t, t.sibling);
      OrderSibling(t, Parse.Linked(t.sibling, q));
      var head := Analyze.Order(t.(sibling := Null));
      assert head + Analyze.Order(t.sibling) + Analyze.Order(q) == head + (Analyze.Order(t.sibling) + Analyze.Order(q));
    } else {
      OrderNode(IfK, Null, Null, Null);
    }
  }

  /** The names of a node come before those of its siblings. */
  lemma OrderSibling(t: Tree, x: Tree)
    requires t.Node?
    ensures Analyze.Order(t.(sibling := x)) == Analyze.Order(t.(sibling := Null)) + Analyze.Order(x)
  {
  }

  /** The address of a variable is the number of other variables that occur in the program text before it first does. */
  lemma VariablesInText(c: Parse.SequenceForm, x: string)
    requires x in TokenNames(Parse.ShowSequence(c))
    ensures var names, addr := TokenNames(Parse.ShowSequence(c)), Allocated(TreeOf(c));
            var k := Analyze.First(names, x);
            && k < |names| && names[k] == x && x !in Analyze.Among(names, k)
            && x in addr && addr[x] == |Analyze.Among(names, k)|
  {
    SequenceNames(c);
    Analyze.AssignFirst(TokenNames(Parse.ShowSequence(c)), x);
  }

  /** The compiler reports an error exactly when the tokens are not a well-typed program;
      otherwise it writes the program's code, each location exactly once. */
  method Compile(ts: seq<Parse.Token>) returns (error: bool, lines: seq<Line>)
    requires Parse.ENDFILE !in ts
    ensures !error <==> Legal(ts)
    ensures error ==> lines == []
    ensures !error ==> forall c: Parse.SequenceForm :: Parse.ShowSequence(c) == ts ==>
              Laid(multiset{}, multiset(lines), 0, Program(TreeOf(c), Allocated(TreeOf(c))))
  {
    var parser := new Parse.Parser(ts);
    var syntaxTree := parser.Parse();
    error, lines := parser.error, [];
    var analyzer := new Analyze.Analyzer();
    if !error {
      analyzer.BuildSymtab(syntaxTree);
      analyzer.TypeCheck(syntaxTree);
      error := analyzer.error;
    }
    if !error {
      var code := new CodeFile();
      var generator := new CodeGenerator(code, analyzer.table);
      generator.CodeGen(syntaxTree, Allocated(syntaxTree));
      lines := code.lines;
    }
  }

  lemma {:induction false} AllocatedFits(t: Tree)
    requires |Names(t)| + Depth(t) <= DADDR_SIZE
    ensures Fits(t, Allocated(t), |Names(t)|)
  {
    Analyze.AssignDense(Analyze.Order(t), map[]);
    forall x
      ensures x in Allocated(t) <==> x in Names(t)
    {
      Analyze.OrderNames(t, x);
    }
    assert Allocated(t).Keys == Names(t);
  }

  lemma {:induction false} LoadedProgram(t: Tree, lines: seq<Line>)
    requires Small(t)
    requires Laid(multiset{}, multiset(lines), 0, Program(t, Allocated(t)))
    ensures forall line <- lines :: Loadable(line)
    ensures Compiled(LoadLines(lines), t, Allocated(t))
  {
    hide Code;
    var code := Program(t, Allocated(t));
    CodeHasSize(t, Allocated(t), 0);
    CodeValid(t, Allocated(t), 0);
    LoadLaid(lines, code);
  }

  /** From tokens to the machine: the loaded code file of a program that fits does what the program means. It
      stops exactly when the program does, for the same reason and with the same values read, printed and stored. */
  lemma {:induction false} EndToEnd(c: Parse.SequenceForm, lines: seq<Line>, input: Input)
    requires Small(TreeOf(c))
    requires Laid(multiset{}, multiset(lines), 0, Program(TreeOf(c), Allocated(TreeOf(c))))
    ensures forall line <- lines :: Loadable(line)
    ensures var iMem, t, nvars := LoadLines(lines), TreeOf(c), |Names(TreeOf(c))|;
            && Booted(iMem).Valid()
            && (forall n: nat :: SourceExplains(t, Allocated(t), nvars, iMem, input, n))
            && (forall fuel: nat :: MachineFollows(t, Allocated(t), nvars, iMem, input, fuel))
            && (Terminates(t, input) <==> exists n: nat :: !GoesOn(Booted(iMem), input, n))
  {
    hide Compiled, Fits, Booted, Program;
    var t, nvars := TreeOf(c), |Names(TreeOf(c))|;
    AllocatedFits(t);
    LoadedProgram(t, lines);
    CompilerCorrect(t, Allocated(t), nvars, LoadLines(lines), input);
    RunsForever(t, Allocated(t), nvars, LoadLines(lines), input);
  }
}
