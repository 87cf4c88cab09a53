/** The code generator (cgen.c). */
module TinyCgen {
  import opened TinyTree
  import opened TinyMachine
  import opened TinyCode
  import opened TinySymtab

  /** The code of a tree and its siblings, for variables at `addr` and the next temporary at offset k from mp. */
  function Code(t: Tree, addr: Addresses, k: int): seq<Instr>
    decreases t, 1
  {
    if t.Null? then []
    else (if t.kind.IsStmt() then StmtCode(t, addr, k) else ExpCode(t, addr, k)) + Code(t.sibling, addr, k)
  }

  function StmtCode(t: Tree, addr: Addresses, k: int): seq<Instr>
    requires t.Node?
    decreases t, 0
  {
    var x, y, z := Code(t.c0, addr, k), Code(t.c1, addr, k), Code(t.c2, addr, k);
    match t.kind
    case IfK => x + [Instr(JEQ, AC, |y| + 1, PC)] + y + [Instr(LDA, PC, |z|, PC)] + z
    case RepeatK => x + y + [Instr(JEQ, AC, -(|x| + |y| + 1), PC)]
    case AssignK(name) => x + [Instr(ST, AC, Addr(addr, name), GP)]
    case ReadK(name) => [Instr(IN, AC, 0, 0), Instr(ST, AC, Addr(addr, name), GP)]
    case WriteK => x + [Instr(OUT, AC, 0, 0)]
    case _ => []
  }

  function ExpCode(t: Tree, addr: Addresses, k: int): seq<Instr>
    requires t.Node?
    decreases t, 0
  {
    match t.kind
    case ConstK(n) => [Instr(LDC, AC, n, 0)]
    case IdK(name) => [Instr(LD, AC, Addr(addr, name), GP)]
    case OpK(op) =>
      Code(t.c0, addr, k) + [Instr(ST, AC, k, MP)] + Code(t.c1, addr, k - 1) + [Instr(LD, AC1, k, MP)] + OpCodes(op)
    case _ => []
  }

  /** The operator applied to ac1 and ac; a comparison subtracts, jumps on the sign and loads 1 or 0. */
  function OpCodes(op: Op): seq<Instr> {
    match op
    case PLUS => [Instr(ADD, AC, AC1, AC)]
    case MINUS => [Instr(SUB, AC, AC1, AC)]
    case TIMES => [Instr(MUL, AC, AC1, AC)]
    case OVER => [Instr(DIV, AC, AC1, AC)]
    case LT => Comparison(JLT)
    case EQ => Comparison(JEQ)
  }

  function Comparison(jump: OpCode): seq<Instr> {
    [Instr(SUB, AC, AC1, AC), Instr(jump, AC, 2, PC), Instr(LDC, AC, 0, AC), Instr(LDA, PC, 1, PC),
     Instr(LDC, AC, 1, AC)]
  }

  /** Loads mp from cell 0 and clears that cell. */
  const PRELUDE := [Instr(LD, MP, 0, AC), Instr(ST, AC, 0, AC)]

  function Program(t: Tree, addr: Addresses): seq<Instr> {
    PRELUDE + Code(t, addr, 0) + [HALT_INSTR]
  }

  /** The instructions with the numbers that the registers have: pc is 7, mp 6, gp 5, ac 0 and ac1 1. */
  lemma NumberedRegisters(op: Op, name: string, n: int, addr: Addresses, k: int)
    ensures PRELUDE == [Instr(LD, 6, 0, 0), Instr(ST, 0, 0, 0)]
    ensures ExpCode(BinOp(op, Leaf(ConstK(n)), Leaf(IdK(name))), addr, k) ==
            [Instr(LDC, 0, n, 0), Instr(ST, 0, k, 6), Instr(LD, 0, Addr(addr, name), 5), Instr(LD, 1, k, 6)] +
            match op
            case PLUS => [Instr(ADD, 0, 1, 0)]
            case MINUS => [Instr(SUB, 0, 1, 0)]
            case TIMES => [Instr(MUL, 0, 1, 0)]
            case OVER => [Instr(DIV, 0, 1, 0)]
            case LT => [Instr(SUB, 0, 1, 0), Instr(JLT, 0, 2, 7), Instr(LDC, 0, 0, 0), Instr(LDA, 7, 1, 7),
                        Instr(LDC, 0, 1, 0)]
            case EQ => [Instr(SUB, 0, 1, 0), Instr(JEQ, 0, 2, 7), Instr(LDC, 0, 0, 0), Instr(LDA, 7, 1, 7),
                        Instr(LDC, 0, 1, 0)]
  {
    LeafCode(ConstK(n), addr, k);
    LeafCode(IdK(name), addr, k - 1);
    hide Code;
    var t := BinOp(op, Leaf(ConstK(n)), Leaf(IdK(name)));
    assert ExpCode(t, addr, k) == Code(t.c0, addr, k) + [Instr(ST, AC, k, MP)] + Code(t.c1, addr, k - 1)
                                + [Instr(LD, AC1, k, MP)] + OpCodes(op);
  }

  lemma LeafCode(kind: Kind, addr: Addresses, k: int)
    requires kind.ConstK? || kind.IdK?
    ensures Code(Leaf(kind), addr, k) ==
            [if kind.ConstK? then Instr(LDC, 0, kind.val, 0) else Instr(LD, 0, Addr(addr, kind.name), 5)]
  {
    assert Code(Null, addr, k) == [];
  }

  ghost predicate AllValid(code: seq<Instr>) {
    forall i :: 0 <= i < |code| ==> code[i].Valid()
  }

  lemma {:induction false} CodeValid(t: Tree, addr: Addresses, k: int)
    ensures AllValid(Code(t, addr, k))
    decreases t, 1
  {
    if t.Node? {
      if t.kind.IsStmt() { StmtCodeValid(t, addr, k); } else { ExpCodeValid(t, addr, k); }
      CodeValid(t.sibling, addr, k);
    }
  }

  lemma {:induction false} StmtCodeValid(t: Tree, addr: Addresses, k: int)
    requires t.Node?
    ensures AllValid(StmtCode(t, addr, k))
    decreases t, 0
  {
    hide Code;
    CodeValid(t.c0, addr, k);
    CodeValid(t.c1, addr, k);
    CodeValid(t.c2, addr, k);
  }

  lemma OpCodesValid(op: Op)
    ensures AllValid(OpCodes(op))
  {
  }

  lemma {:induction false} ExpCodeValid(t: Tree, addr: Addresses, k: int)
    requires t.Node?
    ensures AllValid(ExpCode(t, addr, k))
    decreases t, 0
  {
    hide Code;
    if t.kind.OpK? {
      OpCodesValid(t.kind.op);
      hide OpCodes;
      CodeValid(t.c0, addr, k);
      CodeValid(t.c1, addr, k - 1);
    }
  }

  lemma LaidAppend(l0: multiset<Line>, l1: multiset<Line>, l2: multiset<Line>, base: int, x: seq<Instr>, y: seq<Instr>)
    requires Laid(l0, l1, base, x) && Laid(l1, l2, base + |x|, y)
    ensures Laid(l0, l2, base, x + y)
  {
    PlacedAppend(base, x, y);
  }

  lemma LaidNone(l: multiset<Line>, base: int)
    ensures Laid(l, l, base, [])
  {
  }

  lemma LaidOne(l: multiset<Line>, base: int, i: Instr)
    ensures Laid(l, l + multiset{Line(base, i)}, base, [i])
  {
    assert Placed(base, [i]) == multiset{Line(base, i)};
  }

  /** One more instruction after the code laid so far. */
  lemma LaidNext(l0: multiset<Line>, l1: multiset<Line>, base: int, x: seq<Instr>, i: Instr)
    requires Laid(l0, l1, base, x)
    ensures Laid(l0, l1 + multiset{Line(base + |x|, i)}, base, x + [i])
  {
    LaidOne(l1, base + |x|, i);
    LaidAppend(l0, l1, l1 + multiset{Line(base + |x|, i)}, base, x, [i]);
  }

  /** An instruction filled in after the code y that follows its location. */
  lemma LaidLate(l0: multiset<Line>, l1: multiset<Line>, l2: multiset<Line>, base: int, x: seq<Instr>, i: Instr,
                 y: seq<Instr>)
    requires Laid(l0, l1, base, x) && Laid(l1, l2, base + |x| + 1, y)
    ensures Laid(l0, l2 + multiset{Line(base + |x|, i)}, base, x + [i] + y)
  {
    LaidNext(l0, l1, base, x, i);
    LaidAppend(l0, l1 + multiset{Line(base + |x|, i)}, l2 + multiset{Line(base + |x|, i)}, base, x + [i], y);
  }

  lemma LaidIf(t: Tree, addr: Addresses, k: int, base: int,
               l0: multiset<Line>, l1: multiset<Line>, l2: multiset<Line>, l3: multiset<Line>)
    requires t.Node? && t.kind.IfK?
    requires Laid(l0, l1, base, Code(t.c0, addr, k))
    requires Laid(l1, l2, base + |Code(t.c0, addr, k)| + 1, Code(t.c1, addr, k))
    requires var x, y := |Code(t.c0, addr, k)|, |Code(t.c1, addr, k)|;
             Laid(l2 + multiset{Line(base + x, Instr(JEQ, AC, y + 1, PC))}, l3, base + x + 1 + y + 1,
                  Code(t.c2, addr, k))
    ensures var x, y, z := |Code(t.c0, addr, k)|, |Code(t.c1, addr, k)|, |Code(t.c2, addr, k)|;
            && |StmtCode(t, addr, k)| == x + 1 + y + 1 + z
            && Laid(l0, l3 + multiset{Line(base + x + 1 + y, Instr(LDA, PC, z, PC))}, base, StmtCode(t, addr, k))
  {
    hide Code, Placed, Laid;
    var x, y, z := Code(t.c0, addr, k), Code(t.c1, addr, k), Code(t.c2, addr, k);
    var jeq := Instr(JEQ, AC, |y| + 1, PC);
    LaidLate(l0, l1, l2, base, x, jeq, y);
    LaidLate(l0, l2 + multiset{Line(base + |x|, jeq)}, l3, base, x + [jeq] + y, Instr(LDA, PC, |z|, PC), z);
  }

  lemma LaidRepeat(t: Tree, addr: Addresses, k: int, base: int, l0: multiset<Line>, l1: multiset<Line>,
                   l2: multiset<Line>)
    requires t.Node? && t.kind.RepeatK?
    requires Laid(l0, l1, base, Code(t.c0, addr, k))
    requires Laid(l1, l2, base + |Code(t.c0, addr, k)|, Code(t.c1, addr, k))
    ensures var n := |Code(t.c0, addr, k)| + |Code(t.c1, addr, k)|;
            && |StmtCode(t, addr, k)| == n + 1
            && Laid(l0, l2 + multiset{Line(base + n, Instr(JEQ, AC, -(n + 1), PC))}, base, StmtCode(t, addr, k))
  {
    hide Code, Placed, Laid;
    var x, y := Code(t.c0, addr, k), Code(t.c1, addr, k);
    LaidAppend(l0, l1, l2, base, x, y);
    LaidNext(l0, l2, base, x + y, Instr(JEQ, AC, -(|x| + |y| + 1), PC));
  }

  lemma LaidOp(t: Tree, addr: Addresses, k: int, base: int,
               l0: multiset<Line>, l1: multiset<Line>, l2: multiset<Line>, l3: multiset<Line>)
    requires t.Node? && t.kind.OpK?
    requires Laid(l0, l1, base, Code(t.c0, addr, k))
    requires var x := |Code(t.c0, addr, k)|;
             Laid(l1 + multiset{Line(base + x, Instr(ST, AC, k, MP))}, l2, base + x + 1, Code(t.c1, addr, k - 1))
    requires var x, y := |Code(t.c0, addr, k)|, |Code(t.c1, addr, k - 1)|;
             Laid(l2 + multiset{Line(base + x + 1 + y, Instr(LD, AC1, k, MP))}, l3, base + x + 1 + y + 1,
                  OpCodes(t.kind.op))
    ensures |ExpCode(t, addr, k)| == |Code(t.c0, addr, k)| + 1 + |Code(t.c1, addr, k - 1)| + 1 + |OpCodes(t.kind.op)|
    ensures Laid(l0, l3, base, ExpCode(t, addr, k))
  {
    hide Code, Placed, Laid, OpCodes;
    var x, y, z := Code(t.c0, addr, k), Code(t.c1, addr, k - 1), OpCodes(t.kind.op);
    var st, ld := Instr(ST, AC, k, MP), Instr(LD, AC1, k, MP);
    LaidNext(l0, l1, base, x, st);
    LaidAppend(l0, l1 + multiset{Line(base + |x|, st)}, l2, base, x + [st], y);
    LaidNext(l0, l2, base, x + [st] + y, ld);
    LaidAppend(l0, l2 + multiset{Line(base + |x| + 1 + |y|, ld)}, l3, base, x + [st] + y + [ld], z);
  }

  class CodeGenerator {
    const code: CodeFile
    const table: SymbolTable
    var tmpOffset: int

    ghost predicate Valid(addr: Addresses)
      reads this, table, table.hashTable
    {
      table.Valid() && table.Addresses() == addr
    }

    constructor (code: CodeFile, table: SymbolTable)
      ensures this.code == code && this.table == table && tmpOffset == 0
    {
      this.code, this.table := code, table;
      tmpOffset := 0;
    }

    /** Every location of the tree's code is emitted exactly once, in whatever order, and nothing else is. */
    method CGen(t: Tree, ghost addr: Addresses)
      requires Valid(addr) && code.AtTop()
      modifies this, code
      ensures code.AtTop() && tmpOffset == old(tmpOffset)
      ensures code.emitLoc == old(code.emitLoc) + |Code(t, addr, tmpOffset)|
      ensures Laid(old(code.Bag()), code.Bag(), old(code.emitLoc), Code(t, addr, tmpOffset))
      decreases t, 2
    {
      hide StmtCode, ExpCode, Placed, Laid, CodeFile.Bag;
      if t.Node? {
        if t.kind.IsStmt() {
          GenStmt(t, addr);
        } else {
          GenExp(t, addr);
        }
        ghost var head := if t.kind.IsStmt() then StmtCode(t, addr, tmpOffset) else ExpCode(t, addr, tmpOffset);
        ghost var mid := code.Bag();
        CGen(t.sibling, addr);
        LaidAppend(old(code.Bag()), mid, code.Bag(), old(code.emitLoc), head, Code(t.sibling, addr, tmpOffset));
      } else {
        LaidNone(code.Bag(), code.emitLoc);
      }
    }

    method GenStmt(t: Tree, ghost addr: Addresses)
      requires Valid(addr) && code.AtTop()
      requires t.Node? && t.kind.IsStmt()
      modifies this, code
      ensures code.AtTop() && tmpOffset == old(tmpOffset)
      ensures code.emitLoc == old(code.emitLoc) + |StmtCode(t, addr, tmpOffset)|
      ensures Laid(old(code.Bag()), code.Bag(), old(code.emitLoc), StmtCode(t, addr, tmpOffset))
      decreases t, 1
    {
      hide Code, Placed, Laid, OpCodes, CodeFile.Bag;
      ghost var l0, base, x := code.Bag(), code.emitLoc, Code(t.c0, addr, tmpOffset);
      match t.kind {
        case IfK =>
          GenIf(t, addr);
        case RepeatK =>
          GenRepeat(t, addr);
        case AssignK(name) =>
          CGen(t.c0, addr);
          ghost var l1 := code.Bag();
          var loc := table.Lookup(name);
          code.EmitRM(ST, AC, loc, GP);
          LaidNext(l0, l1, base, x, Instr(ST, AC, loc, GP));
        case ReadK(name) =>
          code.EmitRO(IN, AC, 0, 0);
          LaidOne(l0, base, Instr(IN, AC, 0, 0));
          ghost var l1 := code.Bag();
          var loc := table.Lookup(name);
          code.EmitRM(ST, AC, loc, GP);
          LaidNext(l0, l1, base, [Instr(IN, AC, 0, 0)], Instr(ST, AC, loc, GP));
          assert [Instr(IN, AC, 0, 0)] + [Instr(ST, AC, loc, GP)] == StmtCode(t, addr, tmpOffset);
        case WriteK =>
          CGen(t.c0, addr);
          ghost var l1 := code.Bag();
          code.EmitRO(OUT, AC, 0, 0);
          LaidNext(l0, l1, base, x, Instr(OUT, AC, 0, 0));
      }
    }

    /** Backpatching: the jump is emitted at a location skipped before, and emission goes on at the top. */
    method FillIn(loc: int, op: OpCode, r: int, target: int)
      requires code.AtTop() && loc < code.emitLoc
      modifies code
      ensures code.emitLoc == old(code.emitLoc) && code.AtTop()
      ensures code.Bag() == old(code.Bag()) + multiset{Line(loc, Instr(op, r, target - (loc + 1), PC))}
    {
      hide CodeFile.Bag;
      code.EmitBackup(loc);
      code.EmitRMAbs(op, r, target);
      code.EmitRestore();
    }

    method GenIf(t: Tree, ghost addr: Addresses)
      requires Valid(addr) && code.AtTop()
      requires t.Node? && t.kind.IfK?
      modifies this, code
      ensures code.AtTop() && tmpOffset == old(tmpOffset)
      ensures code.emitLoc == old(code.emitLoc) + |StmtCode(t, addr, tmpOffset)|
      ensures Laid(old(code.Bag()), code.Bag(), old(code.emitLoc), StmtCode(t, addr, tmpOffset))
      decreases t, 0
    {
      hide Code, StmtCode, Placed, Laid, CodeFile.Bag;
      ghost var l0, base, k := code.Bag(), code.emitLoc, tmpOffset;
      ghost var x, y, z := |Code(t.c0, addr, k)|, |Code(t.c1, addr, k)|, |Code(t.c2, addr, k)|;
      CGen(t.c0, addr);
      ghost var l1 := code.Bag();
      var savedLoc1 := code.EmitSkip(1);
      CGen(t.c1, addr);
      ghost var l2 := code.Bag();
      var savedLoc2 := code.EmitSkip(1);
      var currentLoc := code.EmitSkip(0);
      FillIn(savedLoc1, JEQ, AC, currentLoc);
      assert code.Bag() == l2 + multiset{Line(base + x, Instr(JEQ, AC, y + 1, PC))};
      CGen(t.c2, addr);
      ghost var l3 := code.Bag();
      currentLoc := code.EmitSkip(0);
      FillIn(savedLoc2, LDA, PC, currentLoc);
      assert code.Bag() == l3 + multiset{Line(base + x + 1 + y, Instr(LDA, PC, z, PC))};
      LaidIf(t, addr, k, base, l0, l1, l2, l3);
    }

    method GenRepeat(t: Tree, ghost addr: Addresses)
      requires Valid(addr) && code.AtTop()
      requires t.Node? && t.kind.RepeatK?
      modifies this, code
      ensures code.AtTop() && tmpOffset == old(tmpOffset)
      ensures code.emitLoc == old(code.emitLoc) + |StmtCode(t, addr, tmpOffset)|
      ensures Laid(old(code.Bag()), code.Bag(), old(code.emitLoc), StmtCode(t, addr, tmpOffset))
      decreases t, 0
    {
      hide Code, StmtCode, Placed, Laid, CodeFile.Bag;
      ghost var l0, base := code.Bag(), code.emitLoc;
      var savedLoc1 := code.EmitSkip(0);
      CGen(t.c0, addr);
      ghost var l1 := code.Bag();
      CGen(t.c1, addr);
      ghost var l2 := code.Bag();
      code.EmitRMAbs(JEQ, AC, savedLoc1);
      LaidRepeat(t, addr, tmpOffset, base, l0, l1, l2);
    }

    method GenExp(t: Tree, ghost addr: Addresses)
      requires Valid(addr) && code.AtTop()
      requires t.Node? && !t.kind.IsStmt()
      modifies this, code
      ensures code.AtTop() && tmpOffset == old(tmpOffset)
      ensures code.emitLoc == old(code.emitLoc) + |ExpCode(t, addr, tmpOffset)|
      ensures Laid(old(code.Bag()), code.Bag(), old(code.emitLoc), ExpCode(t, addr, tmpOffset))
      decreases t, 1
    {
      match t.kind {
        case ConstK(n) =>
          code.EmitRM(LDC, AC, n, 0);
          LaidOne(old(code.Bag()), old(code.emitLoc), Instr(LDC, AC, n, 0));
        case IdK(name) =>
          var loc := table.Lookup(name);
          code.EmitRM(LD, AC, loc, GP);
          LaidOne(old(code.Bag()), old(code.emitLoc), Instr(LD, AC, loc, GP));
        case OpK(op) =>
          GenOp(t, addr);
      }
    }

    /** Pushes ac on the stack of temporaries. */
    method Push()
      requires code.AtTop()
      modifies this, code
      ensures code.AtTop() && code.emitLoc == old(code.emitLoc) + 1
      ensures code.Bag() == old(code.Bag()) + multiset{Line(old(code.emitLoc), Instr(ST, AC, old(tmpOffset), MP))}
      ensures tmpOffset == old(tmpOffset) - 1
    {
      code.EmitRM(ST, AC, tmpOffset, MP);
      tmpOffset := tmpOffset - 1;
    }

    /** Pops the top of the stack of temporaries into ac1. */
    method Pop()
      requires code.AtTop()
      modifies this, code
      ensures code.AtTop() && code.emitLoc == old(code.emitLoc) + 1
      ensures code.Bag() == old(code.Bag()) + multiset{Line(old(code.emitLoc), Instr(LD, AC1, tmpOffset, MP))}
      ensures tmpOffset == old(tmpOffset) + 1
    {
      tmpOffset := tmpOffset + 1;
      code.EmitRM(LD, AC1, tmpOffset, MP);
    }

    method GenOp(t: Tree, ghost addr: Addresses)
      requires Valid(addr) && code.AtTop()
      requires t.Node? && t.kind.OpK?
      modifies this, code
      ensures code.AtTop() && tmpOffset == old(tmpOffset)
      ensures code.emitLoc == old(code.emitLoc) + |ExpCode(t, addr, tmpOffset)|
      ensures Laid(old(code.Bag()), code.Bag(), old(code.emitLoc), ExpCode(t, addr, tmpOffset))
      decreases t, 0
    {
      hide Code, ExpCode, OpCodes, Placed, Laid, CodeFile.Bag;
      ghost var l0, base := code.Bag(), code.emitLoc;
      CGen(t.c0, addr);
      ghost var l1 := code.Bag();
      Push();
      CGen(t.c1, addr);
      ghost var l2 := code.Bag();
      Pop();
      EmitOp(t.kind.op);
      LaidOp(t, addr, tmpOffset, base, l0, l1, l2, code.Bag());
    }

    method EmitOp(op: Op)
      requires code.AtTop()
      modifies code
      ensures code.AtTop()
      ensures code.emitLoc == old(code.emitLoc) + |OpCodes(op)|
      ensures Laid(old(code.Bag()), code.Bag(), old(code.emitLoc), OpCodes(op))
    {
      ghost var l, base := code.Bag(), code.emitLoc;
      match op {
        case PLUS =>
          code.EmitRO(ADD, AC, AC1, AC);
          LaidOne(l, base, OpCodes(op)[0]);
        case MINUS =>
          code.EmitRO(SUB, AC, AC1, AC);
          LaidOne(l, base, OpCodes(op)[0]);
        case TIMES =>
          code.EmitRO(MUL, AC, AC1, AC);
          LaidOne(l, base, OpCodes(op)[0]);
        case OVER =>
          code.EmitRO(DIV, AC, AC1, AC);
          LaidOne(l, base, OpCodes(op)[0]);
        case LT => EmitComparison(JLT);
        case EQ => EmitComparison(JEQ);
      }
    }

    method EmitComparison(jump: OpCode)
      requires code.AtTop()
      modifies code
      ensures code.AtTop()
      ensures code.emitLoc == old(code.emitLoc) + 5
      ensures Laid(old(code.Bag()), code.Bag(), old(code.emitLoc), Comparison(jump))
    {
      hide CodeFile.Bag, Placed, Laid;
      ghost var l, base, c := code.Bag(), code.emitLoc, Comparison(jump);
      code.EmitRO(SUB, AC, AC1, AC);
      LaidOne(l, base, c[0]);
      LaidNext(l, code.Bag(), base, [c[0]], c[1]);
      assert [c[0]] + [c[1]] == [c[0], c[1]];
      code.EmitRM(jump, AC, 2, PC);
      LaidNext(l, code.Bag(), base, [c[0], c[1]], c[2]);
      assert [c[0], c[1]] + [c[2]] == [c[0], c[1], c[2]];
      code.EmitRM(LDC, AC, 0, AC);
      LaidNext(l, code.Bag(), base, [c[0], c[1], c[2]], c[3]);
      assert [c[0], c[1], c[2]] + [c[3]] == [c[0], c[1], c[2], c[3]];
      code.EmitRM(LDA, PC, 1, PC);
      LaidNext(l, code.Bag(), base, [c[0], c[1], c[2], c[3]], c[4]);
      assert [c[0], c[1], c[2], c[3]] + [c[4]] == c;
      code.EmitRM(LDC, AC, 1, AC);
    }

    method EmitPrelude()
      requires code.AtTop()
      modifies code
      ensures code.AtTop() && code.emitLoc == old(code.emitLoc) + 2
      ensures Laid(old(code.Bag()), code.Bag(), old(code.emitLoc), PRELUDE)
    {
      hide CodeFile.Bag, Placed, Laid;
      ghost var l, base := code.Bag(), code.emitLoc;
      code.EmitRM(LD, MP, 0, AC);
      LaidOne(l, base, PRELUDE[0]);
      LaidNext(l, code.Bag(), base, [PRELUDE[0]], PRELUDE[1]);
      code.EmitRM(ST, AC, 0, AC);
      assert [PRELUDE[0]] + [PRELUDE[1]] == PRELUDE;
    }

    /** The whole file: the locations 0, 1, ... of the program, each emitted exactly once. */
    method CodeGen(t: Tree, ghost addr: Addresses)
      requires Valid(addr) && tmpOffset == 0
      requires code.Bag() == multiset{} && code.emitLoc == code.highEmitLoc == 0
      modifies this, code
      ensures tmpOffset == 0
      ensures code.emitLoc == code.highEmitLoc == |Program(t, addr)|
      ensures Laid(multiset{}, code.Bag(), 0, Program(t, addr))
    {
      hide Code, Placed, Laid, CodeFile.Bag;
      ghost var none, body := code.Bag(), Code(t, addr, 0);
      EmitPrelude();
      ghost var l1 := code.Bag();
      CGen(t, addr);
      ghost var l2 := code.Bag();
      LaidAppend(none, l1, l2, 0, PRELUDE, body);
      code.EmitRO(HALT, 0, 0, 0);
      LaidNext(none, l2, 0, PRELUDE + body, HALT_INSTR);
    }
  }
}
