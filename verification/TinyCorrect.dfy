/** The code generator preserves meaning: machine runs of the generated code follow the source program. */
module TinyCorrect {
  import opened Basics
  import opened TinyTree
  import opened TinyMachine
  import opened TinyCode
  import opened TinySymtab
  import opened TinyCgen

  // ----- where the code and the variables are -----

  ghost predicate CodeAt(iMem: seq<Instr>, base: int, code: seq<Instr>) {
    && 0 <= base && base + |code| < |iMem|
    && iMem[base..base + |code|] == code
  }

  lemma CodeAtAppend(iMem: seq<Instr>, base: int, a: seq<Instr>, b: seq<Instr>)
    requires CodeAt(iMem, base, a + b)
    ensures CodeAt(iMem, base, a) && CodeAt(iMem, base + |a|, b)
  {
    var all := iMem[base..base + |a + b|];
    assert all[..|a|] == a && all[|a|..] == b;
    assert iMem[base..base + |a|] == all[..|a|];
    assert iMem[base + |a|..base + |a| + |b|] == all[|a|..];
  }

  /** The cells nvars..DADDR_SIZE-1 are left to temporaries. */
  ghost predicate VarsAt(m: TM, vars: Vars, addr: Addresses, nvars: nat) {
    && nvars <= |m.dMem|
    && (forall name <- addr :: 0 <= addr[name] < nvars)
    && (forall name <- addr :: m.dMem[addr[name]] == Lookup(vars, name))
  }

  ghost predicate Injective(addr: Addresses) {
    forall x, y :: x in addr && y in addr && addr[x] == addr[y] ==> x == y
  }

  /** The machine is about to run the instruction at `base`. */
  ghost predicate Ready(m: TM, base: int) {
    && m.Valid()
    && m.reg[PC] == base
    && m.reg[GP] == 0
    && m.reg[MP] == DADDR_SIZE - 1
  }

  /** Nothing changed but registers ac, ac1 and pc and the cells between the variables and offset k from mp. */
  ghost predicate Kept(m: TM, m2: TM, nvars: nat, k: int) {
    && m.Valid() && m2.Valid()
    && m2.iMem == m.iMem
    && m2.reg[GP] == m.reg[GP] && m2.reg[MP] == m.reg[MP]
    && m2.pos == m.pos && m2.output == m.output
    && forall j :: 0 <= j < DADDR_SIZE && (j < nvars || j > DADDR_SIZE - 1 + k) ==> m2.dMem[j] == m.dMem[j]
  }

  /** How many temporaries evaluating the tree needs at once. */
  function Depth(t: Tree): nat {
    match t
    case Null => 0
    case Node(kind, c0, c1, c2, sibling) =>
      Max(Max(Depth(c0), if kind.OpK? then 1 + Depth(c1) else Depth(c1)), Max(Depth(c2), Depth(sibling)))
  }

  // ----- single steps -----

  /** One step, put in front of a run. */
  lemma RunStep(m: TM, input: Input, m1: TM, n: nat)
    requires m.Valid() && Defined(m)
    requires Step(m, input) == (m1, Okay)
    ensures Run(m, input, n + 1) == Run(m1, input, n)
  {
  }

  lemma RunNone(m: TM, input: Input)
    requires m.Valid()
    ensures Run(m, input, 0) == Some((m, Okay))
  {
  }

  // ----- expressions -----

  lemma {:induction false} RunExp(t: Tree, addr: Addresses, k: int, nvars: nat, vars: Vars, m: TM, base: int,
                                  input: Input)
    returns (n: nat, m2: TM)
    requires IsExp(t) && Names(t) <= addr.Keys
    requires Ready(m, base) && CodeAt(m.iMem, base, Code(t, addr, k))
    requires VarsAt(m, vars, addr, nvars)
    requires k <= 0 && nvars + Depth(t) <= DADDR_SIZE + k
    ensures Kept(m, m2, nvars, k)
    ensures Eval(t, vars).None? ==> Run(m, input, n) == Some((m2, ZeroDivide))
    ensures Eval(t, vars).Some? ==>
              && Run(m, input, n) == Some((m2, Okay))
              && Ready(m2, base + |Code(t, addr, k)|)
              && m2.reg[AC] == Eval(t, vars).value
    decreases t, 2
  {
    assert Code(t, addr, k) == ExpCode(t, addr, k);
    hide Code, ExpCode, Step, Run, Eval;
    if t.kind.OpK? {
      n, m2 := RunOp(t, addr, k, nvars, vars, m, base, input);
    } else {
      n := 1;
      m2 := RunLeaf(t, addr, k, nvars, vars, m, base, input);
    }
  }

  /** A constant or a variable is loaded into ac. */
  lemma RunLeaf(t: Tree, addr: Addresses, k: int, nvars: nat, vars: Vars, m: TM, base: int, input: Input)
    returns (m2: TM)
    requires IsExp(t) && !t.kind.OpK? && Names(t) <= addr.Keys
    requires Ready(m, base) && CodeAt(m.iMem, base, ExpCode(t, addr, k)) && VarsAt(m, vars, addr, nvars)
    requires nvars <= DADDR_SIZE
    ensures Kept(m, m2, nvars, k) && Eval(t, vars).Some?
    ensures Run(m, input, 1) == Some((m2, Okay))
    ensures Ready(m2, base + |ExpCode(t, addr, k)|) && m2.reg[AC] == Eval(t, vars).value
  {
    assert m.iMem[base] == ExpCode(t, addr, k)[0];
    m2 := Step(m, input).0;
    RunStep(m, input, m2, 0);
  }

  lemma {:induction false} RunOp(t: Tree, addr: Addresses, k: int, nvars: nat, vars: Vars, m: TM, base: int,
                                 input: Input)
    returns (n: nat, m2: TM)
    requires IsExp(t) && t.kind.OpK? && Names(t) <= addr.Keys
    requires Ready(m, base) && CodeAt(m.iMem, base, ExpCode(t, addr, k))
    requires VarsAt(m, vars, addr, nvars)
    requires k <= 0 && nvars + Depth(t) <= DADDR_SIZE + k
    ensures Kept(m, m2, nvars, k)
    ensures Eval(t, vars).None? ==> Run(m, input, n) == Some((m2, ZeroDivide))
    ensures Eval(t, vars).Some? ==>
              && Run(m, input, n) == Some((m2, Okay))
              && Ready(m2, base + |ExpCode(t, addr, k)|)
              && m2.reg[AC] == Eval(t, vars).value
    decreases t, 1
  {
    hide Code, ExpCode, OpCodes, Step, Run, CodeAt, Quot;
    var op := t.kind.op;
    OpParts(t, addr, k, m.iMem, base);
    var x, y := |Code(t.c0, addr, k)|, |Code(t.c1, addr, k - 1)|;
    n, m2 := RunOperands(t, addr, k, nvars, vars, m, base, input);
    if Eval(t.c0, vars).Some? && Eval(t.c1, vars).Some? {
      var n5, m5 := RunOperator(op, m2, base + x + 1 + y + 1, nvars, k, input);
      RunTwice(m, input, n, n5);
      n, m2 := n + n5, m5;
    }
  }

  /** The left operand ends up in ac1 and the right one in ac. */
  lemma {:induction false} RunOperands(t: Tree, addr: Addresses, k: int, nvars: nat, vars: Vars, m: TM, base: int,
                                       input: Input)
    returns (n: nat, m2: TM)
    requires IsExp(t) && t.kind.OpK? && Names(t) <= addr.Keys
    requires Ready(m, base) && CodeAt(m.iMem, base, ExpCode(t, addr, k))
    requires VarsAt(m, vars, addr, nvars)
    requires k <= 0 && nvars + Depth(t) <= DADDR_SIZE + k
    ensures Kept(m, m2, nvars, k)
    ensures var a, b := Eval(t.c0, vars), Eval(t.c1, vars);
            && (a.None? || b.None? ==> Run(m, input, n) == Some((m2, ZeroDivide)))
            && (a.Some? && b.Some? ==>
                  && Run(m, input, n) == Some((m2, Okay))
                  && Ready(m2, base + |Code(t.c0, addr, k)| + 1 + |Code(t.c1, addr, k - 1)| + 1)
                  && m2.reg[AC1] == a.value && m2.reg[AC] == b.value)
    decreases t, 0
  {
    hide Code, ExpCode, OpCodes, Step, Run, CodeAt, Quot, Eval;
    OpParts(t, addr, k, m.iMem, base);
    var x, y := |Code(t.c0, addr, k)|, |Code(t.c1, addr, k - 1)|;
    n, m2 := RunExp(t.c0, addr, k, nvars, vars, m, base, input);
    if Eval(t.c0, vars).Some? {
      var m1 := Pushed(m2, k, base + x, nvars, input);
      RunTwice(m, input, n, 1);
      n := n + 1;
      var n3, m3 := RunExp(t.c1, addr, k - 1, nvars, vars, m1, base + x + 1, input);
      RunTwice(m, input, n, n3);
      n, m2 := n + n3, m3;
      if Eval(t.c1, vars).Some? {
        m2 := Popped(m3, k, base + x + 1 + y, nvars, input);
        RunTwice(m, input, n, 1);
        n := n + 1;
      }
    }
  }

  lemma OpParts(t: Tree, addr: Addresses, k: int, iMem: seq<Instr>, base: int)
    requires t.Node? && t.kind.OpK? && CodeAt(iMem, base, ExpCode(t, addr, k))
    ensures var x, y, z := |Code(t.c0, addr, k)|, |Code(t.c1, addr, k - 1)|, |OpCodes(t.kind.op)|;
            && |ExpCode(t, addr, k)| == x + 1 + y + 1 + z
            && CodeAt(iMem, base, Code(t.c0, addr, k))
            && CodeAt(iMem, base + x, [Instr(ST, AC, k, MP)])
            && CodeAt(iMem, base + x + 1, Code(t.c1, addr, k - 1))
            && CodeAt(iMem, base + x + 1 + y, [Instr(LD, AC1, k, MP)])
            && CodeAt(iMem, base + x + 1 + y + 1, OpCodes(t.kind.op))
  {
    hide Code, OpCodes, CodeAt;
    var x, y, z := Code(t.c0, addr, k), Code(t.c1, addr, k - 1), OpCodes(t.kind.op);
    var st, ld := Instr(ST, AC, k, MP), Instr(LD, AC1, k, MP);
    CodeAtAppend(iMem, base, x + [st] + y + [ld], z);
    CodeAtAppend(iMem, base, x + [st] + y, [ld]);
    CodeAtAppend(iMem, base, x + [st], y);
    CodeAtAppend(iMem, base, x, [st]);
  }

  lemma Pushed(m: TM, k: int, base: int, nvars: nat, input: Input) returns (m2: TM)
    requires Ready(m, base) && CodeAt(m.iMem, base, [Instr(ST, AC, k, MP)])
    requires k <= 0 && nvars <= DADDR_SIZE - 1 + k
    ensures Run(m, input, 1) == Some((m2, Okay))
    ensures Ready(m2, base + 1) && Kept(m, m2, nvars, k)
    ensures m2.dMem[DADDR_SIZE - 1 + k] == m.reg[AC]
  {
    m2 := Step(m, input).0;
    RunStep(m, input, m2, 0);
  }

  lemma Popped(m: TM, k: int, base: int, nvars: nat, input: Input) returns (m2: TM)
    requires Ready(m, base) && CodeAt(m.iMem, base, [Instr(LD, AC1, k, MP)])
    requires k <= 0 && nvars <= DADDR_SIZE - 1 + k
    ensures Run(m, input, 1) == Some((m2, Okay))
    ensures Ready(m2, base + 1) && Kept(m, m2, nvars, k)
    ensures m2.reg[AC1] == m.dMem[DADDR_SIZE - 1 + k] && m2.reg[AC] == m.reg[AC]
  {
    m2 := Step(m, input).0;
    RunStep(m, input, m2, 0);
  }

  lemma RunOperator(op: Op, m: TM, base: int, nvars: nat, k: int, input: Input) returns (n: nat, m2: TM)
    requires Ready(m, base) && CodeAt(m.iMem, base, OpCodes(op))
    ensures Kept(m, m2, nvars, k)
    ensures var v := Apply(op, m.reg[AC1], m.reg[AC]);
            && (v.None? ==> Run(m, input, n) == Some((m2, ZeroDivide)))
            && (v.Some? ==>
                  && Run(m, input, n) == Some((m2, Okay))
                  && Ready(m2, base + |OpCodes(op)|)
                  && m2.reg[AC] == v.value)
  {
    if op.LT? {
      n, m2 := RunComparison(JLT, m, base, nvars, k, input);
    } else if op.EQ? {
      n, m2 := RunComparison(JEQ, m, base, nvars, k, input);
    } else {
      n, m2 := 1, Step(m, input).0;
      assert m.iMem[base] == OpCodes(op)[0];
      if Step(m, input).1.Okay? {
        RunStep(m, input, m2, 0);
      }
    }
  }

  lemma RunComparison(jump: OpCode, m: TM, base: int, nvars: nat, k: int, input: Input) returns (n: nat, m2: TM)
    requires jump.JLT? || jump.JEQ?
    requires Ready(m, base) && CodeAt(m.iMem, base, Comparison(jump))
    ensures Kept(m, m2, nvars, k)
    ensures Run(m, input, n) == Some((m2, Okay))
    ensures Ready(m2, base + 5)
    ensures m2.reg[AC] == if Jumps(jump, m.reg[AC1] - m.reg[AC]) then 1 else 0
  {
    hide Run;
    var code := Comparison(jump);
    forall i | 0 <= i < 5
      ensures m.iMem[base + i] == code[i]
    {
      assert m.iMem[base + i] == m.iMem[base..base + 5][i];
    }
    assert code[0] == m.iMem[base] && code[1] == m.iMem[base + 1] && code[2] == m.iMem[base + 2];
    assert code[3] == m.iMem[base + 3] && code[4] == m.iMem[base + 4];
    var d := m.reg[AC1] - m.reg[AC];
    var a := Subtracted(m, base, nvars, k, input);
    var b := Branched(jump, a, base + 1, nvars, k, input);
    RunTwice(m, input, 1, 1);
    if Jumps(jump, d) {
      m2 := Loaded(1, b, base + 4, nvars, k, input);
      RunTwice(m, input, 2, 1);
      n := 3;
    } else {
      var c := Loaded(0, b, base + 2, nvars, k, input);
      RunTwice(m, input, 2, 1);
      m2 := Skipped(c, base + 3, nvars, k, input);
      RunTwice(m, input, 3, 1);
      n := 4;
    }
  }

  lemma Subtracted(m: TM, base: int, nvars: nat, k: int, input: Input) returns (m2: TM)
    requires Ready(m, base) && 0 <= base < IADDR_SIZE && m.iMem[base] == Instr(SUB, AC, AC1, AC)
    ensures Run(m, input, 1) == Some((m2, Okay))
    ensures Ready(m2, base + 1) && Kept(m, m2, nvars, k) && m2.reg[AC] == m.reg[AC1] - m.reg[AC]
  {
    m2 := Step(m, input).0;
    RunStep(m, input, m2, 0);
  }

  /** A conditional jump on ac, forward or backward. */
  lemma Branched(jump: OpCode, m: TM, base: int, nvars: nat, k: int, input: Input) returns (m2: TM)
    requires Ready(m, base) && 0 <= base < IADDR_SIZE
    requires jump.JLT? || jump.JEQ?
    requires m.iMem[base].op == jump && m.iMem[base].arg1 == AC && m.iMem[base].arg3 == PC
    ensures Run(m, input, 1) == Some((m2, Okay))
    ensures Ready(m2, base + 1 + if Jumps(jump, m.reg[AC]) then m.iMem[base].arg2 else 0)
    ensures Kept(m, m2, nvars, k) && m2.reg[AC] == m.reg[AC]
  {
    m2 := Step(m, input).0;
    RunStep(m, input, m2, 0);
  }

  lemma Loaded(v: int, m: TM, base: int, nvars: nat, k: int, input: Input) returns (m2: TM)
    requires Ready(m, base) && 0 <= base < IADDR_SIZE
    requires m.iMem[base] == Instr(LDC, AC, v, AC)
    ensures Run(m, input, 1) == Some((m2, Okay))
    ensures Ready(m2, base + 1) && Kept(m, m2, nvars, k) && m2.reg[AC] == v
  {
    m2 := Step(m, input).0;
    RunStep(m, input, m2, 0);
  }

  /** An unconditional jump. */
  lemma Skipped(m: TM, base: int, nvars: nat, k: int, input: Input) returns (m2: TM)
    requires Ready(m, base) && 0 <= base < IADDR_SIZE
    requires m.iMem[base].op == LDA && m.iMem[base].arg1 == PC && m.iMem[base].arg3 == PC
    ensures Run(m, input, 1) == Some((m2, Okay))
    ensures Ready(m2, base + 1 + m.iMem[base].arg2) && Kept(m, m2, nvars, k) && m2.reg[AC] == m.reg[AC]
  {
    m2 := Step(m, input).0;
    RunStep(m, input, m2, 0);
  }

  // ----- statements -----

  /** The machine holds the store: variables in memory, values read, values printed. */
  ghost predicate Holds(m: TM, st: Store, addr: Addresses, nvars: nat) {
    VarsAt(m, st.vars, addr, nvars) && m.pos == st.pos && m.output == st.output
  }

  /** A run of n steps from m to m2 that matches an outcome of the source program; when the fuel runs out it is at
      least as long as the fuel. */
  ghost predicate Follows(m: TM, input: Input, n: nat, m2: TM, o: Outcome, addr: Addresses, nvars: nat, end: int,
                          fuel: nat)
    requires m.Valid()
  {
    match o
    case Done(st) => Run(m, input, n) == Some((m2, Okay)) && Ready(m2, end) && Holds(m2, st, addr, nvars)
    case DivZero(st) => Run(m, input, n) == Some((m2, ZeroDivide)) && Holds(m2, st, addr, nvars)
    case Timeout(st) => Run(m, input, n) == Some((m2, Okay)) && n >= fuel && Holds(m2, st, addr, nvars)
  }

  /** A run that goes on from the end of another one. */
  lemma FollowsThen(m: TM, input: Input, n: nat, m1: TM, n2: nat, m2: TM, o: Outcome,
                    addr: Addresses, nvars: nat, end: int, fuel: nat)
    requires m.Valid() && m1.Valid()
    requires Run(m, input, n) == Some((m1, Okay))
    requires Follows(m1, input, n2, m2, o, addr, nvars, end, fuel)
             || (n > 0 && fuel > 0 && Follows(m1, input, n2, m2, o, addr, nvars, end, fuel - 1))
    ensures Follows(m, input, n + n2, m2, o, addr, nvars, end, fuel)
  {
    RunTwice(m, input, n, n2);
  }

  lemma FollowsDone(m: TM, input: Input, n: nat, m2: TM, o: Outcome, addr: Addresses, nvars: nat, end: int, fuel: nat)
    requires m.Valid() && o.Done?
    ensures Follows(m, input, n, m2, o, addr, nvars, end, fuel) <==>
            Run(m, input, n) == Some((m2, Okay)) && Ready(m2, end) && Holds(m2, o.store, addr, nvars)
  {
  }

  lemma FollowsDivZero(m: TM, input: Input, n: nat, m2: TM, o: Outcome, addr: Addresses, nvars: nat, end: int,
                       fuel: nat)
    requires m.Valid() && o.DivZero?
    ensures Follows(m, input, n, m2, o, addr, nvars, end, fuel) <==>
            Run(m, input, n) == Some((m2, ZeroDivide)) && Holds(m2, o.store, addr, nvars)
  {
  }

  lemma FollowsTimeout(m: TM, input: Input, n: nat, m2: TM, o: Outcome, addr: Addresses, nvars: nat, end: int,
                       fuel: nat)
    requires m.Valid() && o.Timeout?
    ensures Follows(m, input, n, m2, o, addr, nvars, end, fuel) <==>
            Run(m, input, n) == Some((m2, Okay)) && n >= fuel && Holds(m2, o.store, addr, nvars)
  {
  }

  lemma FollowsElsewhere(m: TM, input: Input, n: nat, m2: TM, o: Outcome, addr: Addresses, nvars: nat, end: int,
                         end2: int, fuel: nat)
    requires m.Valid() && !o.Done?
    requires Follows(m, input, n, m2, o, addr, nvars, end, fuel)
    ensures Follows(m, input, n, m2, o, addr, nvars, end2, fuel)
  {
  }

  /** Every name of the tree has a cell of its own, and the temporaries fit above the variables. */
  ghost predicate Located(t: Tree, addr: Addresses, nvars: nat) {
    Names(t) <= addr.Keys && Injective(addr) && nvars + Depth(t) <= DADDR_SIZE
  }

  lemma LocatedParts(t: Tree, addr: Addresses, nvars: nat)
    requires t.Node? && Located(t, addr, nvars)
    ensures Located(t.c0, addr, nvars) && Located(t.c1, addr, nvars)
    ensures Located(t.c2, addr, nvars) && Located(t.sibling, addr, nvars)
  {
  }

  /** A test and the conditional jump after it. */
  lemma RunTest(e: Tree, addr: Addresses, nvars: nat, st: Store, m: TM, base: int, d: int, input: Input)
    returns (n: nat, m2: TM)
    requires IsExp(e) && Located(e, addr, nvars)
    requires Ready(m, base) && CodeAt(m.iMem, base, Code(e, addr, 0)) && Holds(m, st, addr, nvars)
    requires CodeAt(m.iMem, base + |Code(e, addr, 0)|, [Instr(JEQ, AC, d, PC)])
    ensures m2.Valid() && m2.iMem == m.iMem && Holds(m2, st, addr, nvars)
    ensures Eval(e, st.vars).None? ==> Run(m, input, n) == Some((m2, ZeroDivide))
    ensures Eval(e, st.vars).Some? ==>
              && n > 0
              && Run(m, input, n) == Some((m2, Okay))
              && Ready(m2, base + |Code(e, addr, 0)| + 1 + if Eval(e, st.vars).value == 0 then d else 0)
  {
    hide Code, Step, Run, Quot, Eval;
    n, m2 := RunExp(e, addr, 0, nvars, st.vars, m, base, input);
    if Eval(e, st.vars).Some? {
      var m1 := Branched(JEQ, m2, base + |Code(e, addr, 0)|, nvars, 0, input);
      RunTwice(m, input, n, 1);
      n, m2 := n + 1, m1;
    }
  }

  lemma {:induction false} RunStmts(t: Tree, addr: Addresses, nvars: nat, st: Store, m: TM, base: int, input: Input,
                                    fuel: nat)
    returns (n: nat, m2: TM)
    requires IsStmts(t) && Located(t, addr, nvars)
    requires Ready(m, base) && CodeAt(m.iMem, base, Code(t, addr, 0)) && Holds(m, st, addr, nvars)
    ensures Follows(m, input, n, m2, Exec(t, st, input, fuel), addr, nvars, base + |Code(t, addr, 0)|, fuel)
    decreases fuel, t, 4
  {
    if t.Null? {
      RunNone(m, input);
      n, m2 := 0, m;
      FollowsDone(m, input, n, m2, Done(st), addr, nvars, base, fuel);
    } else {
      ExecStmts(t, st, input, fuel);
      n, m2 := RunHead(t, addr, nvars, st, m, base, input, fuel);
    }
  }

  lemma {:induction false} RunHead(t: Tree, addr: Addresses, nvars: nat, st: Store, m: TM, base: int, input: Input,
                                   fuel: nat)
    returns (n: nat, m2: TM)
    requires t.Node? && IsStmt(t) && IsStmts(t.sibling) && Located(t, addr, nvars)
    requires Ready(m, base) && CodeAt(m.iMem, base, StmtCode(t, addr, 0) + Code(t.sibling, addr, 0))
    requires Holds(m, st, addr, nvars)
    ensures var r := ExecStmt(t, st, input, fuel);
            Follows(m, input, n, m2, if r.Done? then Exec(t.sibling, r.store, input, fuel) else r,
                    addr, nvars, base + |StmtCode(t, addr, 0)| + |Code(t.sibling, addr, 0)|, fuel)
    decreases fuel, t, 3
  {
    hide Follows, Run, Step, Code, StmtCode, ExecStmt, Exec, IsStmt, IsStmts, Located, CodeAt, Holds;
    var x := |StmtCode(t, addr, 0)|;
    var end := base + x + |Code(t.sibling, addr, 0)|;
    CodeAtAppend(m.iMem, base, StmtCode(t, addr, 0), Code(t.sibling, addr, 0));
    LocatedParts(t, addr, nvars);
    n, m2 := RunStmt(t, addr, nvars, st, m, base, input, fuel);
    var r := ExecStmt(t, st, input, fuel);
    if r.Done? {
      FollowsDone(m, input, n, m2, r, addr, nvars, base + x, fuel);
      var n2, m3 := RunStmts(t.sibling, addr, nvars, r.store, m2, base + x, input, fuel);
      FollowsThen(m, input, n, m2, n2, m3, Exec(t.sibling, r.store, input, fuel), addr, nvars, end, fuel);
      n, m2 := n + n2, m3;
    } else {
      FollowsElsewhere(m, input, n, m2, r, addr, nvars, base + x, end, fuel);
    }
  }

  lemma ExecStmts(t: Tree, st: Store, input: Input, fuel: nat)
    requires IsStmts(t)
    ensures Exec(t, st, input, fuel) ==
            if t.Null? then Done(st)
            else if !ExecStmt(t, st, input, fuel).Done? then ExecStmt(t, st, input, fuel)
            else Exec(t.sibling, ExecStmt(t, st, input, fuel).store, input, fuel)
  {
  }

  lemma {:induction false} RunStmt(t: Tree, addr: Addresses, nvars: nat, st: Store, m: TM, base: int, input: Input,
                                   fuel: nat)
    returns (n: nat, m2: TM)
    requires IsStmt(t) && Located(t, addr, nvars)
    requires Ready(m, base) && CodeAt(m.iMem, base, StmtCode(t, addr, 0)) && Holds(m, st, addr, nvars)
    ensures Follows(m, input, n, m2, ExecStmt(t, st, input, fuel), addr, nvars, base + |StmtCode(t, addr, 0)|, fuel)
    decreases fuel, t, 2
  {
    match t.kind
    case IfK => n, m2 := RunIf(t, addr, nvars, st, m, base, input, fuel);
    case RepeatK => n, m2 := RunRepeat(t, addr, nvars, st, m, base, input, fuel);
    case AssignK(name) => n, m2 := RunAssign(t, addr, nvars, st, m, base, input, fuel);
    case ReadK(name) => n, m2 := RunRead(t, addr, nvars, st, m, base, input, fuel);
    case WriteK => n, m2 := RunWrite(t, addr, nvars, st, m, base, input, fuel);
  }

  lemma {:induction false} RunIf(t: Tree, addr: Addresses, nvars: nat, st: Store, m: TM, base: int, input: Input,
                                 fuel: nat)
    returns (n: nat, m2: TM)
    requires IsStmt(t) && t.kind.IfK? && Located(t, addr, nvars)
    requires Ready(m, base) && CodeAt(m.iMem, base, StmtCode(t, addr, 0)) && Holds(m, st, addr, nvars)
    ensures Follows(m, input, n, m2, ExecStmt(t, st, input, fuel), addr, nvars, base + |StmtCode(t, addr, 0)|, fuel)
    decreases fuel, t, 0
  {
    hide Code, StmtCode, Step, Run, Follows, Located, CodeAt, Holds;
    IfParts(t, addr, m.iMem, base);
    LocatedParts(t, addr, nvars);
    var x, y, z := |Code(t.c0, addr, 0)|, |Code(t.c1, addr, 0)|, |Code(t.c2, addr, 0)|;
    var end, o := base + |StmtCode(t, addr, 0)|, ExecStmt(t, st, input, fuel);
    n, m2 := RunTest(t.c0, addr, nvars, st, m, base, y + 1, input);
    var v := Eval(t.c0, st.vars);
    if v.None? {
      FollowsDivZero(m, input, n, m2, o, addr, nvars, end, fuel);
    } else if v.value == 0 {
      var n2, m3 := RunStmts(t.c2, addr, nvars, st, m2, base + x + 1 + y + 1, input, fuel);
      FollowsThen(m, input, n, m2, n2, m3, o, addr, nvars, end, fuel);
      n, m2 := n + n2, m3;
    } else {
      var n2, m3 := RunStmts(t.c1, addr, nvars, st, m2, base + x + 1, input, fuel);
      FollowsThen(m, input, n, m2, n2, m3, o, addr, nvars, base + x + 1 + y, fuel);
      n, m2 := n + n2, m3;
      if o.Done? {
        FollowsDone(m, input, n, m2, o, addr, nvars, base + x + 1 + y, fuel);
        var m4 := SkipTo(m2, o.store, addr, nvars, base + x + 1 + y, z, input);
        RunTwice(m, input, n, 1);
        n, m2 := n + 1, m4;
        FollowsDone(m, input, n, m2, o, addr, nvars, end, fuel);
      } else {
        FollowsElsewhere(m, input, n, m2, o, addr, nvars, base + x + 1 + y, end, fuel);
      }
    }
  }

  lemma SkipTo(m: TM, st: Store, addr: Addresses, nvars: nat, base: int, d: int, input: Input) returns (m2: TM)
    requires Ready(m, base) && Holds(m, st, addr, nvars) && CodeAt(m.iMem, base, [Instr(LDA, PC, d, PC)])
    ensures Run(m, input, 1) == Some((m2, Okay))
    ensures Ready(m2, base + 1 + d) && Holds(m2, st, addr, nvars)
  {
    m2 := Skipped(m, base, nvars, 0, input);
  }

  lemma IfParts(t: Tree, addr: Addresses, iMem: seq<Instr>, base: int)
    requires t.Node? && t.kind.IfK? && CodeAt(iMem, base, StmtCode(t, addr, 0))
    ensures var x, y, z := |Code(t.c0, addr, 0)|, |Code(t.c1, addr, 0)|, |Code(t.c2, addr, 0)|;
            && |StmtCode(t, addr, 0)| == x + 1 + y + 1 + z
            && CodeAt(iMem, base, Code(t.c0, addr, 0))
            && CodeAt(iMem, base + x, [Instr(JEQ, AC, y + 1, PC)])
            && CodeAt(iMem, base + x + 1, Code(t.c1, addr, 0))
            && CodeAt(iMem, base + x + 1 + y, [Instr(LDA, PC, z, PC)])
            && CodeAt(iMem, base + x + 1 + y + 1, Code(t.c2, addr, 0))
  {
    hide Code, CodeAt;
    var x, y, z := Code(t.c0, addr, 0), Code(t.c1, addr, 0), Code(t.c2, addr, 0);
    var jeq, lda := Instr(JEQ, AC, |y| + 1, PC), Instr(LDA, PC, |z|, PC);
    CodeAtAppend(iMem, base, x + [jeq] + y + [lda], z);
    CodeAtAppend(iMem, base, x + [jeq] + y, [lda]);
    CodeAtAppend(iMem, base, x + [jeq], y);
    CodeAtAppend(iMem, base, x, [jeq]);
  }

  lemma {:induction false} RunRepeat(t: Tree, addr: Addresses, nvars: nat, st: Store, m: TM, base: int, input: Input,
                                     fuel: nat)
    returns (n: nat, m2: TM)
    requires IsStmt(t) && t.kind.RepeatK? && Located(t, addr, nvars)
    requires Ready(m, base) && CodeAt(m.iMem, base, StmtCode(t, addr, 0)) && Holds(m, st, addr, nvars)
    ensures Follows(m, input, n, m2, ExecStmt(t, st, input, fuel), addr, nvars, base + |StmtCode(t, addr, 0)|, fuel)
    decreases fuel, t, 1
  {
    ExecRepeat(t, st, input, fuel);
    hide Code, StmtCode, Step, Run, Follows, Located, CodeAt, Holds, ExecStmt, AfterBody, Exec;
    var end := base + |StmtCode(t, addr, 0)|;
    if fuel == 0 {
      RunNone(m, input);
      n, m2 := 0, m;
      FollowsTimeout(m, input, n, m2, Timeout(st), addr, nvars, end, fuel);
    } else {
      n, m2 := RunRound(t, addr, nvars, st, m, base, input, fuel);
    }
  }

  lemma {:induction false} RunRound(t: Tree, addr: Addresses, nvars: nat, st: Store, m: TM, base: int, input: Input,
                                    fuel: nat)
    returns (n: nat, m2: TM)
    requires IsStmt(t) && t.kind.RepeatK? && Located(t, addr, nvars) && fuel > 0
    requires Ready(m, base) && CodeAt(m.iMem, base, StmtCode(t, addr, 0)) && Holds(m, st, addr, nvars)
    ensures var r := Exec(t.c0, st, input, fuel);
            Follows(m, input, n, m2, if r.Done? then AfterBody(t, r.store, input, fuel) else r,
                    addr, nvars, base + |StmtCode(t, addr, 0)|, fuel)
    decreases fuel, t, 0
  {
    hide Code, StmtCode, Step, Run, Follows, Located, CodeAt, Holds, ExecStmt, AfterBody, Exec;
    RepeatParts(t, addr, m.iMem, base);
    LocatedParts(t, addr, nvars);
    var x, end := |Code(t.c0, addr, 0)|, base + |StmtCode(t, addr, 0)|;
    n, m2 := RunStmts(t.c0, addr, nvars, st, m, base, input, fuel);
    var r := Exec(t.c0, st, input, fuel);
    if r.Done? {
      FollowsDone(m, input, n, m2, r, addr, nvars, base + x, fuel);
      var n2, m3 := RunAgain(t, addr, nvars, r.store, m2, base, input, fuel);
      FollowsThen(m, input, n, m2, n2, m3, AfterBody(t, r.store, input, fuel), addr, nvars, end, fuel);
      n, m2 := n + n2, m3;
    } else {
      FollowsElsewhere(m, input, n, m2, r, addr, nvars, base + x, end, fuel);
    }
  }

  /** What a round of a repeat loop does after its body. */
  function AfterBody(t: Tree, st: Store, input: Input, fuel: nat): Outcome
    requires IsStmt(t) && t.kind.RepeatK? && fuel > 0
  {
    var v := Eval(t.c1, st.vars);
    if v.None? then DivZero(st)
    else if v.value != 0 then Done(st)
    else ExecStmt(t, st, input, fuel - 1)
  }

  lemma ExecRepeat(t: Tree, st: Store, input: Input, fuel: nat)
    requires IsStmt(t) && t.kind.RepeatK?
    ensures ExecStmt(t, st, input, fuel) ==
            if fuel == 0 then Timeout(st)
            else if !Exec(t.c0, st, input, fuel).Done? then Exec(t.c0, st, input, fuel)
            else AfterBody(t, Exec(t.c0, st, input, fuel).store, input, fuel)
  {
  }

  lemma {:induction false} RunAgain(t: Tree, addr: Addresses, nvars: nat, st: Store, m: TM, base: int, input: Input,
                                    fuel: nat)
    returns (n: nat, m2: TM)
    requires IsStmt(t) && t.kind.RepeatK? && Located(t, addr, nvars) && fuel > 0
    requires Ready(m, base + |Code(t.c0, addr, 0)|) && CodeAt(m.iMem, base, StmtCode(t, addr, 0))
    requires Holds(m, st, addr, nvars)
    ensures Follows(m, input, n, m2, AfterBody(t, st, input, fuel), addr, nvars, base + |StmtCode(t, addr, 0)|, fuel)
    decreases fuel - 1, t, 2
  {
    hide Code, StmtCode, Step, Run, Follows, Located, CodeAt, Holds, ExecStmt;
    RepeatParts(t, addr, m.iMem, base);
    LocatedParts(t, addr, nvars);
    var x, y := |Code(t.c0, addr, 0)|, |Code(t.c1, addr, 0)|;
    var end, o := base + |StmtCode(t, addr, 0)|, AfterBody(t, st, input, fuel);
    n, m2 := RunTest(t.c1, addr, nvars, st, m, base + x, -(x + y + 1), input);
    var v := Eval(t.c1, st.vars);
    if v.None? {
      FollowsDivZero(m, input, n, m2, o, addr, nvars, end, fuel);
    } else if v.value != 0 {
      FollowsDone(m, input, n, m2, o, addr, nvars, end, fuel);
    } else {
      var n4, m4 := RunRepeat(t, addr, nvars, st, m2, base, input, fuel - 1);
      FollowsThen(m, input, n, m2, n4, m4, o, addr, nvars, end, fuel);
      n, m2 := n + n4, m4;
    }
  }

  lemma RepeatParts(t: Tree, addr: Addresses, iMem: seq<Instr>, base: int)
    requires t.Node? && t.kind.RepeatK? && CodeAt(iMem, base, StmtCode(t, addr, 0))
    ensures var x, y := |Code(t.c0, addr, 0)|, |Code(t.c1, addr, 0)|;
            && |StmtCode(t, addr, 0)| == x + y + 1
            && CodeAt(iMem, base, Code(t.c0, addr, 0))
            && CodeAt(iMem, base + x, Code(t.c1, addr, 0))
            && CodeAt(iMem, base + x + y, [Instr(JEQ, AC, -(x + y + 1), PC)])
  {
    hide Code, CodeAt;
    var x, y := Code(t.c0, addr, 0), Code(t.c1, addr, 0);
    CodeAtAppend(iMem, base, x + y, [Instr(JEQ, AC, -(|x| + |y| + 1), PC)]);
    CodeAtAppend(iMem, base, x, y);
  }

  lemma RunAssign(t: Tree, addr: Addresses, nvars: nat, st: Store, m: TM, base: int, input: Input, fuel: nat)
    returns (n: nat, m2: TM)
    requires IsStmt(t) && t.kind.AssignK? && Located(t, addr, nvars)
    requires Ready(m, base) && CodeAt(m.iMem, base, StmtCode(t, addr, 0)) && Holds(m, st, addr, nvars)
    ensures Follows(m, input, n, m2, ExecStmt(t, st, input, fuel), addr, nvars, base + |StmtCode(t, addr, 0)|, fuel)
  {
    hide Code, Step, Run, Quot, Eval, CodeAt, Follows;
    var x, end, o := Code(t.c0, addr, 0), base + |StmtCode(t, addr, 0)|, ExecStmt(t, st, input, fuel);
    CodeAtAppend(m.iMem, base, x, [Instr(ST, AC, Addr(addr, t.kind.name), GP)]);
    n, m2 := RunExp(t.c0, addr, 0, nvars, st.vars, m, base, input);
    if Eval(t.c0, st.vars).Some? {
      var m1 := Stored(t.kind.name, addr, nvars, st, m2, base + |x|, input);
      RunTwice(m, input, n, 1);
      n, m2 := n + 1, m1;
      FollowsDone(m, input, n, m2, o, addr, nvars, end, fuel);
    } else {
      FollowsDivZero(m, input, n, m2, o, addr, nvars, end, fuel);
    }
  }

  /** Storing ac in a variable's cell changes that variable only, because addresses are distinct. */
  lemma Stored(name: string, addr: Addresses, nvars: nat, st: Store, m: TM, base: int, input: Input) returns (m2: TM)
    requires name in addr && Injective(addr)
    requires Ready(m, base) && CodeAt(m.iMem, base, [Instr(ST, AC, Addr(addr, name), GP)]) && Holds(m, st, addr, nvars)
    ensures Run(m, input, 1) == Some((m2, Okay))
    ensures Ready(m2, base + 1)
    ensures Holds(m2, st.(vars := st.vars[name := m.reg[AC]]), addr, nvars)
  {
    m2 := Step(m, input).0;
    RunStep(m, input, m2, 0);
  }

  lemma RunRead(t: Tree, addr: Addresses, nvars: nat, st: Store, m: TM, base: int, input: Input, fuel: nat)
    returns (n: nat, m2: TM)
    requires IsStmt(t) && t.kind.ReadK? && Located(t, addr, nvars)
    requires Ready(m, base) && CodeAt(m.iMem, base, StmtCode(t, addr, 0)) && Holds(m, st, addr, nvars)
    ensures Follows(m, input, n, m2, ExecStmt(t, st, input, fuel), addr, nvars, base + |StmtCode(t, addr, 0)|, fuel)
  {
    hide Step, Run, CodeAt, Follows;
    var inn, store := Instr(IN, AC, 0, 0), Instr(ST, AC, Addr(addr, t.kind.name), GP);
    assert StmtCode(t, addr, 0) == [inn] + [store];
    CodeAtAppend(m.iMem, base, [inn], [store]);
    var m1 := Taken(addr, nvars, st, m, base, input);
    m2 := Stored(t.kind.name, addr, nvars, st.(pos := st.pos + 1), m1, base + 1, input);
    RunTwice(m, input, 1, 1);
    n := 2;
    FollowsDone(m, input, n, m2, ExecStmt(t, st, input, fuel), addr, nvars, base + 2, fuel);
  }

  lemma Taken(addr: Addresses, nvars: nat, st: Store, m: TM, base: int, input: Input) returns (m2: TM)
    requires Ready(m, base) && CodeAt(m.iMem, base, [Instr(IN, AC, 0, 0)]) && Holds(m, st, addr, nvars)
    ensures Run(m, input, 1) == Some((m2, Okay))
    ensures Ready(m2, base + 1) && Holds(m2, st.(pos := st.pos + 1), addr, nvars) && m2.reg[AC] == input(st.pos)
  {
    m2 := Step(m, input).0;
    RunStep(m, input, m2, 0);
  }

  lemma RunWrite(t: Tree, addr: Addresses, nvars: nat, st: Store, m: TM, base: int, input: Input, fuel: nat)
    returns (n: nat, m2: TM)
    requires IsStmt(t) && t.kind.WriteK? && Located(t, addr, nvars)
    requires Ready(m, base) && CodeAt(m.iMem, base, StmtCode(t, addr, 0)) && Holds(m, st, addr, nvars)
    ensures Follows(m, input, n, m2, ExecStmt(t, st, input, fuel), addr, nvars, base + |StmtCode(t, addr, 0)|, fuel)
  {
    hide Code, Step, Run, Quot, Eval, CodeAt, Follows;
    var x, end, o := Code(t.c0, addr, 0), base + |StmtCode(t, addr, 0)|, ExecStmt(t, st, input, fuel);
    CodeAtAppend(m.iMem, base, x, [Instr(OUT, AC, 0, 0)]);
    n, m2 := RunExp(t.c0, addr, 0, nvars, st.vars, m, base, input);
    if Eval(t.c0, st.vars).Some? {
      var m1 := Written(addr, nvars, st, m2, base + |x|, input);
      RunTwice(m, input, n, 1);
      n, m2 := n + 1, m1;
      FollowsDone(m, input, n, m2, o, addr, nvars, end, fuel);
    } else {
      FollowsDivZero(m, input, n, m2, o, addr, nvars, end, fuel);
    }
  }

  lemma Written(addr: Addresses, nvars: nat, st: Store, m: TM, base: int, input: Input) returns (m2: TM)
    requires Ready(m, base) && CodeAt(m.iMem, base, [Instr(OUT, AC, 0, 0)]) && Holds(m, st, addr, nvars)
    ensures Run(m, input, 1) == Some((m2, Okay))
    ensures Ready(m2, base + 1) && Holds(m2, st.(output := st.output + [m.reg[AC]]), addr, nvars)
  {
    m2 := Step(m, input).0;
    RunStep(m, input, m2, 0);
  }

  // ----- whole programs -----

  /** Instruction memory holds the program of the tree from location 0. */
  ghost predicate Compiled(iMem: seq<Instr>, t: Tree, addr: Addresses) {
    && |iMem| == IADDR_SIZE
    && (forall i :: 0 <= i < |iMem| ==> iMem[i].Valid())
    && |Program(t, addr)| <= IADDR_SIZE
    && iMem[..|Program(t, addr)|] == Program(t, addr)
  }

  ghost predicate Fits(t: Tree, addr: Addresses, nvars: nat) {
    Located(t, addr, nvars) && nvars <= DADDR_SIZE && forall name <- addr :: 0 <= addr[name] < nvars
  }

  /** The machine right after loading. */
  ghost function Booted(iMem: seq<Instr>): TM {
    Reset(iMem, 0, [])
  }

  lemma RunPrelude(t: Tree, addr: Addresses, nvars: nat, iMem: seq<Instr>, input: Input) returns (m: TM)
    requires Compiled(iMem, t, addr) && Fits(t, addr, nvars)
    ensures Booted(iMem).Valid() && Run(Booted(iMem), input, 2) == Some((m, Okay))
    ensures Ready(m, 2) && Holds(m, INITIAL_STORE, addr, nvars)
  {
    var m0 := Booted(iMem);
    assert m0.Valid();
    assert iMem[0] == Program(t, addr)[0] && iMem[1] == Program(t, addr)[1];
    var m1 := Step(m0, input).0;
    RunStep(m0, input, m1, 0);
    assert m1.reg[MP] == DADDR_SIZE - 1;
    m := Step(m1, input).0;
    RunStep(m1, input, m, 0);
    RunTwice(m0, input, 1, 1);
  }

  lemma ProgramParts(t: Tree, addr: Addresses, iMem: seq<Instr>)
    requires Compiled(iMem, t, addr)
    ensures CodeAt(iMem, 2, Code(t, addr, 0))
    ensures iMem[2 + |Code(t, addr, 0)|] == HALT_INSTR
  {
    hide Code;
    var code, p := Code(t, addr, 0), Program(t, addr);
    assert p == PRELUDE + (code + [HALT_INSTR]);
    forall k | 0 <= k < |p|
      ensures iMem[k] == p[k]
    {
      assert iMem[..|p|][k] == p[k];
    }
    forall k | 0 <= k < |code|
      ensures iMem[2 + k] == code[k]
    {
      assert p[2 + k] == (code + [HALT_INSTR])[k];
    }
    assert p[2 + |code|] == HALT_INSTR;
  }

  /** What running the loaded program for n steps must show for an outcome of the source program. */
  ghost predicate Agrees(iMem: seq<Instr>, input: Input, n: nat, m: TM, o: Outcome, addr: Addresses, nvars: nat,
                         fuel: nat)
    requires Booted(iMem).Valid()
  {
    && Holds(m, o.store, addr, nvars)
    && Run(Booted(iMem), input, n) == Some((m, if o.Done? then Halted else if o.DivZero? then ZeroDivide else Okay))
    && (o.Timeout? ==> n >= fuel)
  }

  lemma {:induction false} RunProgram(t: Tree, addr: Addresses, nvars: nat, iMem: seq<Instr>, input: Input, fuel: nat)
    returns (n: nat, m: TM)
    requires IsStmts(t) && Compiled(iMem, t, addr) && Fits(t, addr, nvars)
    ensures Booted(iMem).Valid() && Agrees(iMem, input, n, m, Exec(t, INITIAL_STORE, input, fuel), addr, nvars, fuel)
  {
    hide Code, Run, Step, Exec, Holds, Located;
    var m2 := RunPrelude(t, addr, nvars, iMem, input);
    ProgramParts(t, addr, iMem);
    var m0, o, end := Booted(iMem), Exec(t, INITIAL_STORE, input, fuel), 2 + |Code(t, addr, 0)|;
    var n2, m3 := RunStmts(t, addr, nvars, INITIAL_STORE, m2, 2, input, fuel);
    FollowsThen(m0, input, 2, m2, n2, m3, o, addr, nvars, end, fuel);
    n, m := 2 + n2, m3;
    if o.Done? {
      var m4 := RunHalt(o.store, addr, nvars, m, end, input);
      RunTwice(m0, input, n, 1);
      n, m := n + 1, m4;
    }
  }

  lemma RunHalt(st: Store, addr: Addresses, nvars: nat, m: TM, base: int, input: Input) returns (m2: TM)
    requires Ready(m, base) && 0 <= base < IADDR_SIZE && m.iMem[base] == HALT_INSTR && Holds(m, st, addr, nvars)
    ensures Run(m, input, 1) == Some((m2, Halted)) && Holds(m2, st, addr, nvars)
  {
    m2 := Step(m, input).0;
  }

  /** The outcome of the source program for a fuel decides every machine run that is short enough. */
  lemma {:induction false} RunDecided(t: Tree, addr: Addresses, nvars: nat, iMem: seq<Instr>, input: Input, fuel: nat,
                                      n: nat)
    requires IsStmts(t) && Compiled(iMem, t, addr) && Fits(t, addr, nvars)
    requires fuel >= n
    ensures Booted(iMem).Valid()
    ensures var r, o := Run(Booted(iMem), input, n), Exec(t, INITIAL_STORE, input, fuel);
            && r.Some?
            && (r.value.1 == Okay
                || (r.value.1 == Halted && o.Done? && Holds(r.value.0, o.store, addr, nvars))
                || (r.value.1 == ZeroDivide && o.DivZero? && Holds(r.value.0, o.store, addr, nvars)))
  {
    hide Code, Run, Step, Exec, Holds, Located;
    var n2, m2 := RunProgram(t, addr, nvars, iMem, input, fuel);
    var m0 := Booted(iMem);
    var r := Run(m0, input, n);
    if r.None? || !r.value.1.Okay? {
      if n <= n2 {
        RunStopped(m0, input, n, n2);
      } else if !Exec(t, INITIAL_STORE, input, fuel).Timeout? {
        RunStopped(m0, input, n2, n);
      }
    }
  }

  /** The source program behaves as the machine does in its first n steps: if they stop it, for the same reason and
      in the same state. */
  ghost predicate SourceExplains(t: Tree, addr: Addresses, nvars: nat, iMem: seq<Instr>, input: Input, n: nat)
    requires IsStmts(t) && Booted(iMem).Valid()
  {
    var r := Run(Booted(iMem), input, n);
    && r.Some?
    && (r.value.1 == Okay
        || exists fuel: nat ::
             var o := Exec(t, INITIAL_STORE, input, fuel);
             Agrees(iMem, input, n, r.value.0, o, addr, nvars, fuel) && !o.Timeout?)
  }

  /** Some run of the machine does what the source program does with this fuel. */
  ghost predicate MachineFollows(t: Tree, addr: Addresses, nvars: nat, iMem: seq<Instr>, input: Input, fuel: nat)
    requires IsStmts(t) && Booted(iMem).Valid()
  {
    exists n: nat, m :: Agrees(iMem, input, n, m, Exec(t, INITIAL_STORE, input, fuel), addr, nvars, fuel)
  }

  /** The compiler preserves meaning. A run of the loaded program never faults on memory; it halts, or stops
      on a division by zero, exactly when the source program does, with the same values read and printed and the
      same variables; and while the source program goes on, so does the machine, printing the same values. */
  lemma {:induction false} CompilerCorrect(t: Tree, addr: Addresses, nvars: nat, iMem: seq<Instr>, input: Input)
    requires IsStmts(t) && Compiled(iMem, t, addr) && Fits(t, addr, nvars)
    ensures Booted(iMem).Valid()
    ensures forall n: nat :: SourceExplains(t, addr, nvars, iMem, input, n)
    ensures forall fuel: nat :: MachineFollows(t, addr, nvars, iMem, input, fuel)
  {
    hide Code, Run, Step, Exec, Holds, Located, Booted, Compiled, Fits;
    var _, _ := RunProgram(t, addr, nvars, iMem, input, 0);
    forall n: nat
      ensures SourceExplains(t, addr, nvars, iMem, input, n)
    {
      RunDecided(t, addr, nvars, iMem, input, n, n);
      var r := Run(Booted(iMem), input, n);
      if r.value.1 != Okay {
        assert Agrees(iMem, input, n, r.value.0, Exec(t, INITIAL_STORE, input, n), addr, nvars, n);
      }
    }
    forall fuel: nat
      ensures MachineFollows(t, addr, nvars, iMem, input, fuel)
    {
      var n, m := RunProgram(t, addr, nvars, iMem, input, fuel);
      assert Agrees(iMem, input, n, m, Exec(t, INITIAL_STORE, input, fuel), addr, nvars, fuel);
    }
  }

  ghost predicate Terminates(t: Tree, input: Input)
    requires IsStmts(t)
  {
    exists fuel: nat :: !Exec(t, INITIAL_STORE, input, fuel).Timeout?
  }

  ghost predicate GoesOn(m: TM, input: Input, n: nat)
    requires m.Valid()
  {
    Run(m, input, n).Some? && Run(m, input, n).value.1 == Okay
  }

  /** The machine goes on for ever exactly when the source program does. */
  lemma {:induction false} RunsForever(t: Tree, addr: Addresses, nvars: nat, iMem: seq<Instr>, input: Input)
    requires IsStmts(t) && Compiled(iMem, t, addr) && Fits(t, addr, nvars)
    ensures Booted(iMem).Valid()
    ensures !Terminates(t, input) <==> forall n: nat :: GoesOn(Booted(iMem), input, n)
  {
    hide Code, Run, Step, Exec, Holds, Located, Booted, Compiled, Fits;
    CompilerCorrect(t, addr, nvars, iMem, input);
    if Terminates(t, input) {
      var fuel: nat :| !Exec(t, INITIAL_STORE, input, fuel).Timeout?;
      assert MachineFollows(t, addr, nvars, iMem, input, fuel);
      var n: nat, m :| Agrees(iMem, input, n, m, Exec(t, INITIAL_STORE, input, fuel), addr, nvars, fuel);
      assert !GoesOn(Booted(iMem), input, n);
    } else {
      forall n: nat
        ensures GoesOn(Booted(iMem), input, n)
      {
        assert SourceExplains(t, addr, nvars, iMem, input, n);
      }
    }
  }
}
