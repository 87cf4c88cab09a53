/** The TM computer (tm.c): its memories and registers, one step, and runs of steps. */
module TinyMachine {
  import opened Basics
  import opened TinyTree

  const IADDR_SIZE: nat := 1024
  const DADDR_SIZE: nat := 1024
  const NO_REGS: nat := 8
  const PC_REG: nat := 7

  datatype OpCode =
    | HALT | IN | OUT | ADD | SUB | MUL | DIV       // register only
    | LD | ST                                       // register and memory
    | LDA | LDC | JLT | JLE | JGT | JGE | JEQ | JNE // register and address

  datatype OpClass = RR | RM | RA

  function ClassOf(op: OpCode): OpClass {
    match op
    case HALT => RR
    case IN => RR
    case OUT => RR
    case ADD => RR
    case SUB => RR
    case MUL => RR
    case DIV => RR
    case LD => RM
    case ST => RM
    case _ => RA
  }

  /** Operands r,s,t of a register instruction, or r,d,s of the other two classes. */
  datatype Instr = Instr(op: OpCode, arg1: int, arg2: int, arg3: int) {
    predicate Valid() {
      && 0 <= arg1 < NO_REGS
      && 0 <= arg3 < NO_REGS
      && (ClassOf(op).RR? ==> 0 <= arg2 < NO_REGS)
    }
  }

  const HALT_INSTR := Instr(HALT, 0, 0, 0)

  /** `Stray` is no result of the C code: it stands for a step that reaches outside an array. */
  datatype StepResult = Okay | Halted | IMemErr | DMemErr | ZeroDivide | Stray

  /** What the machine holds; `pos` counts the values read and `output` lists the values printed. */
  datatype TM = TM(iMem: seq<Instr>, dMem: seq<int>, reg: seq<int>, pos: nat, output: seq<int>) {
    ghost predicate Valid() {
      && |iMem| == IADDR_SIZE
      && |dMem| == DADDR_SIZE
      && |reg| == NO_REGS
      && forall i :: 0 <= i < |iMem| ==> iMem[i].Valid()
    }

    function Get(r: int): int
      requires 0 <= r < |reg|
    {
      reg[r]
    }

    function Set(r: int, v: int): (m: TM)
      requires 0 <= r < |reg|
      ensures |m.reg| == |reg|
    {
      this.(reg := reg[r := v])
    }
  }

  /** The bound tests of stepTM are `pc > IADDR_SIZE` and `m > DADDR_SIZE`: the two locations
      one past the memories pass them, and reading there is undefined in C. */
  ghost predicate Defined(m: TM)
    requires m.Valid()
  {
    && m.reg[PC_REG] != IADDR_SIZE
    && (0 <= m.reg[PC_REG] < IADDR_SIZE ==>
          var i := m.iMem[m.reg[PC_REG]];
          ClassOf(i.op).RM? ==> Address(m) != DADDR_SIZE)
  }

  /** d+reg(s), computed after the pc was incremented. */
  function Address(m: TM): int
    requires m.Valid()
    requires 0 <= m.reg[PC_REG] < IADDR_SIZE
  {
    var i := m.iMem[m.reg[PC_REG]];
    i.arg2 + m.Set(PC_REG, m.reg[PC_REG] + 1).Get(i.arg3)
  }

  ghost function Step(m: TM, input: Input): (res: (TM, StepResult))
    requires m.Valid() && Defined(m)
    ensures res.0.Valid() && res.0.iMem == m.iMem
  {
    var pc := m.Get(PC_REG);
    if pc < 0 || pc > IADDR_SIZE then (m, IMemErr)
    else
      var i := m.iMem[pc];
      var m1 := m.Set(PC_REG, pc + 1);
      match ClassOf(i.op)
      case RR => StepRR(m1, i, input)
      case RM =>
        var a := i.arg2 + m1.Get(i.arg3);
        if a < 0 || a > DADDR_SIZE then (m1, DMemErr)
        else if i.op.LD? then (m1.Set(i.arg1, m1.dMem[a]), Okay)
        else (m1.(dMem := m1.dMem[a := m1.Get(i.arg1)]), Okay)
      case RA =>
        var a := i.arg2 + m1.Get(i.arg3);
        if i.op.LDA? then (m1.Set(i.arg1, a), Okay)
        else if i.op.LDC? then (m1.Set(i.arg1, i.arg2), Okay)
        else (if Jumps(i.op, m1.Get(i.arg1)) then m1.Set(PC_REG, a) else m1, Okay)
  }

  ghost function StepRR(m: TM, i: Instr, input: Input): (res: (TM, StepResult))
    requires m.Valid() && i.Valid() && ClassOf(i.op).RR?
    ensures res.0.Valid() && res.0.iMem == m.iMem
  {
    match i.op
    case HALT => (m, Halted)
    case IN => (m.Set(i.arg1, input(m.pos)).(pos := m.pos + 1), Okay)
    case OUT => (m.(output := m.output + [m.Get(i.arg1)]), Okay)
    case ADD => (m.Set(i.arg1, m.Get(i.arg2) + m.Get(i.arg3)), Okay)
    case SUB => (m.Set(i.arg1, m.Get(i.arg2) - m.Get(i.arg3)), Okay)
    case MUL => (m.Set(i.arg1, m.Get(i.arg2) * m.Get(i.arg3)), Okay)
    case _ =>
      if m.Get(i.arg3) != 0 then (m.Set(i.arg1, Quot(m.Get(i.arg2), m.Get(i.arg3))), Okay)
      else (m, ZeroDivide)
  }

  predicate Jumps(op: OpCode, v: int) {
    match op
    case JLT => v < 0
    case JLE => v <= 0
    case JGT => v > 0
    case JGE => v >= 0
    case JEQ => v == 0
    case JNE => v != 0
    case _ => false
  }

  /** Which steps are not okay, and why: the pc is outside instruction memory, the address is outside data memory, a
      division by zero, or HALT. */
  lemma StepStops(m: TM, input: Input)
    requires m.Valid() && Defined(m)
    ensures var pc, res := m.reg[7], Step(m, input).1;
            if !(0 <= pc < 1024) then res == IMemErr
            else
              var i := m.iMem[pc];
              var s := if i.arg3 == 7 then pc + 1 else m.reg[i.arg3];
              && (res == DMemErr <==> (i.op.LD? || i.op.ST?) && !(0 <= i.arg2 + s < 1024))
              && (res == ZeroDivide <==> i.op.DIV? && s == 0)
              && (res == Halted <==> i.op.HALT?)
              && res != IMemErr
  {
  }

  /** Each of the six conditional jumps compares a register with 0 and sets the pc to the address, or leaves it
      behind the instruction; nothing else changes. */
  lemma StepJumps(m: TM, input: Input)
    requires m.Valid() && Defined(m) && 0 <= m.reg[7] < 1024
    requires m.iMem[m.reg[7]].op in {JLT, JLE, JGT, JGE, JEQ, JNE}
    ensures var pc, i := m.reg[7], m.iMem[m.reg[7]];
            var v := if i.arg1 == 7 then pc + 1 else m.reg[i.arg1];
            var a := i.arg2 + if i.arg3 == 7 then pc + 1 else m.reg[i.arg3];
            var jump := || (v < 0 && i.op in {JLT, JLE, JNE})
                        || (v == 0 && i.op in {JLE, JGE, JEQ})
                        || (v > 0 && i.op in {JGT, JGE, JNE});
            Step(m, input) == (m.(reg := m.reg[7 := if jump then a else pc + 1]), Okay)
  {
    var pc, i := m.reg[7], m.iMem[m.reg[7]];
    assert ClassOf(i.op) == RA;
    var a := i.arg2 + if i.arg3 == 7 then pc + 1 else m.reg[i.arg3];
    assert m.reg[7 := pc + 1][7 := a] == m.reg[7 := a];
  }

  /** At most n steps, stopping at the first one that is not okay. No result when a step is undefined in C. */
  ghost function Run(m: TM, input: Input, n: nat): (res: Option<(TM, StepResult)>)
    requires m.Valid()
    ensures res.Some? ==> res.value.0.Valid() && res.value.0.iMem == m.iMem
    decreases n
  {
    if n == 0 then Some((m, Okay))
    else if !Defined(m) then None
    else
      var (m1, r) := Step(m, input);
      if r.Okay? then Run(m1, input, n - 1) else Some((m1, r))
  }

  /** Runs compose. */
  lemma {:induction false} RunTwice(m: TM, input: Input, a: nat, b: nat)
    requires m.Valid()
    requires Run(m, input, a).Some? && Run(m, input, a).value.1.Okay?
    ensures Run(m, input, a + b) == Run(Run(m, input, a).value.0, input, b)
    decreases a
  {
    if a > 0 {
      RunTwice(Step(m, input).0, input, a - 1, b);
    }
  }

  /** A machine that has stopped stays stopped. */
  lemma {:induction false} RunStopped(m: TM, input: Input, a: nat, b: nat)
    requires m.Valid()
    requires a <= b
    requires Run(m, input, a).None? || !Run(m, input, a).value.1.Okay?
    ensures Run(m, input, b) == Run(m, input, a)
    decreases a
  {
    if a > 0 && Defined(m) {
      var (m1, r) := Step(m, input);
      if r.Okay? {
        RunStopped(m1, input, a - 1, b - 1);
      }
    }
  }

  // ----- loading a code file -----

  /** One line of a code file: an instruction and its location. */
  datatype Line = Line(loc: int, instr: Instr)

  /** `Outside` is no result of the C code: it stands for a line that is written outside the array. */
  datatype LoadResult = Loaded | Refused | Outside

  predicate Loadable(line: Line) {
    0 <= line.loc < IADDR_SIZE && line.instr.Valid()
  }

  ghost predicate FirstBad(lines: seq<Line>, n: nat) {
    n < |lines| && !Loadable(lines[n]) && forall j :: 0 <= j < n ==> Loadable(lines[j])
  }

  /** Instruction memory after the lines are read in order. */
  function LoadLines(lines: seq<Line>): (iMem: seq<Instr>)
    requires forall line <- lines :: Loadable(line)
    ensures |iMem| == IADDR_SIZE
    ensures forall i :: 0 <= i < IADDR_SIZE ==> iMem[i].Valid()
  {
    if lines == [] then seq(IADDR_SIZE, _ => HALT_INSTR)
    else
      var last := lines[|lines| - 1];
      assert Loadable(last);
      LoadLines(lines[..|lines| - 1])[last.loc := last.instr]
  }

  /** The state after loading: registers 0, data memory 0 except for the highest address in cell 0. */
  function Reset(iMem: seq<Instr>, pos: nat, output: seq<int>): TM {
    TM(iMem, seq(DADDR_SIZE, i => if i == 0 then DADDR_SIZE - 1 else 0), seq(NO_REGS, _ => 0), pos, output)
  }

  /** When every line for a location holds that location's instruction, loading puts it there, whatever the order. */
  lemma {:induction false} LoadedAt(lines: seq<Line>, loc: int, instr: Instr)
    requires forall line <- lines :: Loadable(line)
    requires 0 <= loc < IADDR_SIZE
    requires forall line <- lines :: line.loc == loc ==> line.instr == instr
    ensures LoadLines(lines)[loc] == if Line(loc, instr) in lines then instr else HALT_INSTR
  {
    if lines != [] {
      var front, last := lines[..|lines| - 1], lines[|lines| - 1];
      assert lines == front + [last];
      LoadedAt(front, loc, instr);
    }
  }

  /** The machine as a program holds it: arrays and a pc that stepTM updates in place. */
  class Machine {
    const iMem: array<Instr>
    const dMem: array<int>
    const reg: array<int>
    const input: Input
    var pos: nat
    var output: seq<int>

    ghost predicate Valid()
      reads this, iMem, dMem, reg
    {
      && iMem.Length == IADDR_SIZE && dMem.Length == DADDR_SIZE && reg.Length == NO_REGS
      && dMem != reg
      && forall i :: 0 <= i < iMem.Length ==> iMem[i].Valid()
    }

    ghost function State(): TM
      reads this, iMem, dMem, reg
    {
      TM(iMem[..], dMem[..], reg[..], pos, output)
    }

    constructor (input: Input)
      ensures fresh(iMem) && fresh(dMem) && fresh(reg) && Valid() && this.input == input
      ensures iMem.Length == dMem.Length == 1024 && reg.Length == 8 && pos == 0 && output == []
    {
      iMem := new Instr[IADDR_SIZE](_ => HALT_INSTR);
      dMem := new int[DADDR_SIZE];
      reg := new int[NO_REGS];
      this.input := input;
      pos, output := 0, [];
    }

    /** Loads a code file, up to the first line that is not loadable. That one is refused if its location is beyond
        IADDR_SIZE or an operand is out of range; otherwise its location is negative or exactly IADDR_SIZE, and it would
        be written outside instruction memory. */
    method ReadInstructions(lines: seq<Line>) returns (r: LoadResult)
      requires Valid()
      modifies iMem, dMem, reg
      ensures Valid()
      ensures r == Loaded <==> forall line <- lines :: Loadable(line)
      ensures r != Loaded ==>
                exists n: nat :: FirstBad(lines, n)
                              && (r == Refused <==> lines[n].loc > 1024 || !lines[n].instr.Valid())
      ensures r == Loaded ==> State() == Reset(LoadLines(lines), pos, output)
      ensures r == Loaded ==> dMem[0] == 1023 && forall j :: 1 <= j < 1024 ==> dMem[j] == 0
      ensures r == Loaded ==> forall j :: 0 <= j < 8 ==> reg[j] == 0
    {
      var i := 0;
      while i < NO_REGS
        invariant 0 <= i <= NO_REGS
        invariant forall j :: 0 <= j < i ==> reg[j] == 0
        modifies reg
      {
        reg[i] := 0;
        i := i + 1;
      }
      dMem[0] := DADDR_SIZE - 1;
      i := 1;
      while i < DADDR_SIZE
        invariant 1 <= i <= DADDR_SIZE
        invariant dMem[0] == DADDR_SIZE - 1
        invariant forall j :: 1 <= j < i ==> dMem[j] == 0
        modifies dMem
      {
        dMem[i] := 0;
        i := i + 1;
      }
      i := 0;
      while i < IADDR_SIZE
        invariant 0 <= i <= IADDR_SIZE
        invariant forall j :: 0 <= j < i ==> iMem[j] == HALT_INSTR
        invariant forall j :: 0 <= j < IADDR_SIZE ==> iMem[j].Valid()
        modifies iMem
      {
        iMem[i] := HALT_INSTR;
        i := i + 1;
      }
      ghost var reset := Reset(iMem[..], pos, output);
      assert dMem[..] == reset.dMem && reg[..] == reset.reg;
      assert iMem[..] == LoadLines(lines[..0]);
      var n := 0;
      while n < |lines|
        invariant 0 <= n <= |lines|
        invariant Valid()
        invariant forall line <- lines[..n] :: Loadable(line)
        invariant iMem[..] == LoadLines(lines[..n])
        modifies iMem
      {
        var line := lines[n];
        if line.loc > IADDR_SIZE || !line.instr.Valid() {
          assert FirstBad(lines, n);
          return Refused;
        }
        if line.loc < 0 || line.loc == IADDR_SIZE {
          assert FirstBad(lines, n);
          return Outside;
        }
        iMem[line.loc] := line.instr;
        assert lines[..n + 1] == lines[..n] + [line];
        n := n + 1;
      }
      assert lines[..n] == lines;
      r := Loaded;
    }

    method StepTM() returns (res: StepResult)
      requires Valid()
      modifies this, dMem, reg
      ensures Valid()
      ensures if Defined(old(State())) then (State(), res) == Step(old(State()), input) else res == Stray
    {
      var pc := reg[PC_REG];
      if pc < 0 || pc > IADDR_SIZE {
        return IMemErr;
      }
      if pc == IADDR_SIZE {
        return Stray;
      }
      reg[PC_REG] := pc + 1;
      var i := iMem[pc];
      var r, s, t, m := i.arg1, 0, 0, 0;
      match ClassOf(i.op) {
        case RR =>
          s, t := i.arg2, i.arg3;
        case RM =>
          s := i.arg3;
          m := i.arg2 + reg[s];
          if m < 0 || m > DADDR_SIZE {
            return DMemErr;
          }
          if m == DADDR_SIZE {
            return Stray;
          }
        case RA =>
          s := i.arg3;
          m := i.arg2 + reg[s];
      }
      match i.op {
        case HALT => return Halted;
        case IN => reg[r] := input(pos); pos := pos + 1;
        case OUT => output := output + [reg[r]];
        case ADD => reg[r] := reg[s] + reg[t];
        case SUB => reg[r] := reg[s] - reg[t];
        case MUL => reg[r] := reg[s] * reg[t];
        case DIV => if reg[t] != 0 { reg[r] := Quot(reg[s], reg[t]); } else { return ZeroDivide; }
        case LD => reg[r] := dMem[m];
        case ST => dMem[m] := reg[r];
        case LDA => reg[r] := m;
        case LDC => reg[r] := i.arg2;
        case JLT => if reg[r] < 0 { reg[PC_REG] := m; }
        case JLE => if reg[r] <= 0 { reg[PC_REG] := m; }
        case JGT => if reg[r] > 0 { reg[PC_REG] := m; }
        case JGE => if reg[r] >= 0 { reg[PC_REG] := m; }
        case JEQ => if reg[r] == 0 { reg[PC_REG] := m; }
        case JNE => if reg[r] != 0 { reg[PC_REG] := m; }
      }
      res := Okay;
    }

    /** The stepping loop of the simulator's command `s`. */
    method StepMany(count: nat) returns (res: StepResult)
      requires Valid()
      modifies this, dMem, reg
      ensures Valid()
      ensures if res == Stray then Run(old(State()), input, count) == None
              else Run(old(State()), input, count) == Some((State(), res))
    {
      res := Okay;
      var stepcnt: nat := count;
      while stepcnt > 0 && res == Okay
        invariant Valid()
        invariant res == Okay ==> Run(old(State()), input, count) == Run(State(), input, stepcnt)
        invariant res == Stray ==> Run(old(State()), input, count) == None
        invariant res != Okay && res != Stray ==> Run(old(State()), input, count) == Some((State(), res))
      {
        res := StepTM();
        stepcnt := stepcnt - 1;
      }
    }
  }
}
