/** The code emitting utilities (code.c): a code file written line by line, with skipped locations filled in later. */
module TinyCode {
  import opened TinyMachine

  // Register conventions (code.h)
  const PC := 7
  const MP := 6
  const GP := 5
  const AC := 0
  const AC1 := 1

  /** The lines that put `code` at locations base, base+1, ..., each exactly once. */
  ghost function Placed(base: int, code: seq<Instr>): multiset<Line>
    decreases |code|
  {
    if code == [] then multiset{}
    else multiset{Line(base, code[0])} + Placed(base + 1, code[1..])
  }

  lemma {:induction false} PlacedOnce(base: int, code: seq<Instr>, line: Line)
    ensures Placed(base, code)[line] ==
            if base <= line.loc < base + |code| && code[line.loc - base] == line.instr then 1 else 0
    decreases |code|
  {
    if code != [] {
      PlacedOnce(base + 1, code[1..], line);
    }
  }

  lemma PlacedAppend(base: int, a: seq<Instr>, b: seq<Instr>)
    ensures Placed(base, a + b) == Placed(base, a) + Placed(base + |a|, b)
  {
    hide Placed;
    forall line: Line
      ensures Placed(base, a + b)[line] == Placed(base, a)[line] + Placed(base + |a|, b)[line]
    {
      PlacedOnce(base, a + b, line);
      PlacedOnce(base, a, line);
      PlacedOnce(base + |a|, b, line);
    }
  }

  /** `after` is `before` and exactly one line for each location of `code` placed at base, in whatever order. */
  ghost predicate Laid(before: multiset<Line>, after: multiset<Line>, base: int, code: seq<Instr>) {
    after == before + Placed(base, code)
  }

  class CodeFile {
    var lines: seq<Line>
    var emitLoc: int
    var highEmitLoc: int

    /** Everything below highEmitLoc is emitted or skipped, and emission goes on there. */
    predicate AtTop()
      reads this
    {
      emitLoc == highEmitLoc
    }

    /** The lines without their order. */
    ghost function Bag(): multiset<Line>
      reads this
    {
      multiset(lines)
    }

    constructor ()
      ensures lines == [] && emitLoc == 0 && highEmitLoc == 0
    {
      lines, emitLoc, highEmitLoc := [], 0, 0;
    }

    method Emit(instr: Instr)
      modifies this
      ensures lines == old(lines) + [Line(old(emitLoc), instr)]
      ensures Bag() == old(Bag()) + multiset{Line(old(emitLoc), instr)}
      ensures emitLoc == old(emitLoc) + 1
      ensures highEmitLoc == if old(highEmitLoc) < emitLoc then emitLoc else old(highEmitLoc)
    {
      lines := lines + [Line(emitLoc, instr)];
      emitLoc := emitLoc + 1;
      if highEmitLoc < emitLoc {
        highEmitLoc := emitLoc;
      }
    }

    method EmitRO(op: OpCode, r: int, s: int, t: int)
      modifies this
      ensures lines == old(lines) + [Line(old(emitLoc), Instr(op, r, s, t))]
      ensures Bag() == old(Bag()) + multiset{Line(old(emitLoc), Instr(op, r, s, t))}
      ensures emitLoc == old(emitLoc) + 1
      ensures highEmitLoc == if old(highEmitLoc) < emitLoc then emitLoc else old(highEmitLoc)
    {
      Emit(Instr(op, r, s, t));
    }

    method EmitRM(op: OpCode, r: int, d: int, s: int)
      modifies this
      ensures lines == old(lines) + [Line(old(emitLoc), Instr(op, r, d, s))]
      ensures Bag() == old(Bag()) + multiset{Line(old(emitLoc), Instr(op, r, d, s))}
      ensures emitLoc == old(emitLoc) + 1
      ensures highEmitLoc == if old(highEmitLoc) < emitLoc then emitLoc else old(highEmitLoc)
    {
      Emit(Instr(op, r, d, s));
    }

    /** The absolute location a becomes an offset from the pc, which the machine has already incremented. */
    method EmitRMAbs(op: OpCode, r: int, a: int)
      modifies this
      ensures lines == old(lines) + [Line(old(emitLoc), Instr(op, r, a - (old(emitLoc) + 1), PC))]
      ensures Bag() == old(Bag()) + multiset{Line(old(emitLoc), Instr(op, r, a - (old(emitLoc) + 1), PC))}
      ensures emitLoc == old(emitLoc) + 1
      ensures highEmitLoc == if old(highEmitLoc) < emitLoc then emitLoc else old(highEmitLoc)
    {
      Emit(Instr(op, r, a - (emitLoc + 1), PC));
    }

    method EmitSkip(howMany: nat) returns (i: int)
      modifies this
      ensures i == old(emitLoc)
      ensures lines == old(lines) && Bag() == old(Bag())
      ensures emitLoc == old(emitLoc) + howMany
      ensures highEmitLoc == if old(highEmitLoc) < emitLoc then emitLoc else old(highEmitLoc)
    {
      i := emitLoc;
      emitLoc := emitLoc + howMany;
      if highEmitLoc < emitLoc {
        highEmitLoc := emitLoc;
      }
    }

    method EmitBackup(loc: int)
      modifies this
      ensures lines == old(lines) && Bag() == old(Bag())
      ensures emitLoc == loc && highEmitLoc == old(highEmitLoc)
    {
      emitLoc := loc;
    }

    method EmitRestore()
      modifies this
      ensures lines == old(lines) && Bag() == old(Bag())
      ensures emitLoc == highEmitLoc == old(highEmitLoc)
    {
      emitLoc := highEmitLoc;
    }
  }

  /** When a file holds exactly one line for each location of `code`, in whatever order, loading it puts `code` at
      location 0. */
  lemma LoadLaid(lines: seq<Line>, code: seq<Instr>)
    requires |code| <= IADDR_SIZE && forall i :: 0 <= i < |code| ==> code[i].Valid()
    requires Laid(multiset{}, multiset(lines), 0, code)
    ensures forall line <- lines :: Loadable(line)
    ensures LoadLines(lines)[..|code|] == code
    ensures forall i :: |code| <= i < IADDR_SIZE ==> LoadLines(lines)[i] == HALT_INSTR
  {
    forall line <- lines
      ensures Loadable(line) && 0 <= line.loc < |code| && line.instr == code[line.loc]
    {
      assert multiset(lines)[line] > 0;
      PlacedOnce(0, code, line);
    }
    forall i | 0 <= i < IADDR_SIZE
      ensures LoadLines(lines)[i] == if i < |code| then code[i] else HALT_INSTR
    {
      if i < |code| {
        PlacedOnce(0, code, Line(i, code[i]));
        assert Line(i, code[i]) in multiset(lines);
        LoadedAt(lines, i, code[i]);
      } else {
        LoadedAt(lines, i, HALT_INSTR);
      }
    }
  }
}
