/** The syntax tree of the TINY language (globals.h) and the meaning of its programs. */
module TinyTree {
  import opened Basics

  datatype Op = PLUS | MINUS | TIMES | OVER | LT | EQ

  datatype Kind =
    | IfK
    | RepeatK
    | AssignK(name: string)
    | ReadK(name: string)
    | WriteK
    | OpK(op: Op)
    | ConstK(val: int)
    | IdK(name: string)
  {
    predicate IsStmt() { IfK? || RepeatK? || AssignK? || ReadK? || WriteK? }
  }

  /** A node has up to three children and a sibling; a NULL pointer is `Null`. */
  datatype Tree =
    | Null
    | Node(kind: Kind, c0: Tree, c1: Tree, c2: Tree, sibling: Tree)

  function Leaf(kind: Kind): Tree {
    Node(kind, Null, Null, Null, Null)
  }

  function BinOp(op: Op, l: Tree, r: Tree): Tree {
    Node(OpK(op), l, r, Null, Null)
  }

  /** The children that the passes after the parser dereference are present. */
  predicate IsExp(t: Tree) {
    && t.Node?
    && t.sibling.Null?
    && t.c2.Null?
    && match t.kind
       case ConstK(_) => t.c0.Null? && t.c1.Null?
       case IdK(_) => t.c0.Null? && t.c1.Null?
       case OpK(_) => IsExp(t.c0) && IsExp(t.c1)
       case _ => false
  }

  predicate IsStmts(t: Tree)
    decreases t, 1
  {
    t.Null? || (IsStmt(t) && IsStmts(t.sibling))
  }

  predicate IsStmt(t: Tree)
    decreases t, 0
  {
    && t.Node?
    && match t.kind
       case IfK => IsExp(t.c0) && IsStmts(t.c1) && IsStmts(t.c2)
       case RepeatK => IsStmts(t.c0) && IsExp(t.c1) && t.c2.Null?
       case AssignK(_) => IsExp(t.c0) && t.c1.Null? && t.c2.Null?
       case ReadK(_) => t.c0.Null? && t.c1.Null? && t.c2.Null?
       case WriteK => IsExp(t.c0) && t.c1.Null? && t.c2.Null?
       case _ => false
  }

  /** The names that occur in the tree. */
  function Names(t: Tree): set<string> {
    match t
    case Null => {}
    case Node(kind, c0, c1, c2, sibling) => KindName(kind) + Names(c0) + Names(c1) + Names(c2) + Names(sibling)
  }

  function KindName(kind: Kind): set<string> {
    if kind.AssignK? || kind.ReadK? || kind.IdK? then {kind.name} else {}
  }

  // ----- meaning -----

  /** C's integer division, which truncates toward zero. */
  function Quot(a: int, b: int): int
    requires b != 0
  {
    var q := Abs(a) / Abs(b);
    if (a < 0) == (b < 0) then q else -q
  }

  function Abs(a: int): nat { if a < 0 then -a else a }

  /** What is left over has the sign of the dividend and is smaller than the divisor; so the quotient is truncated
      toward zero, and is the only one of which this holds. */
  lemma QuotTruncates(a: int, b: int)
    requires b != 0
    ensures var r := a - b * Quot(a, b);
            && (a >= 0 ==> r >= 0) && (a <= 0 ==> r <= 0)
            && (b > 0 ==> -b < r < b) && (b < 0 ==> b < r < -b)
  {
    QuotAbs(Abs(a), Abs(b));
    var q := Abs(a) / Abs(b);
    Signs(b, q);
    assert b * Quot(a, b) == if a < 0 then -(Abs(b) * q) else Abs(b) * q;
  }

  lemma QuotAbs(a: nat, b: nat)
    requires b > 0
    ensures 0 <= a - b * (a / b) < b
  {
    assert a == b * (a / b) + a % b;
  }

  lemma Signs(b: int, q: int)
    ensures b * -q == -(b * q) && -b * q == -(b * q)
  {
  }

  lemma QuotOnly(a: int, b: int, q: int)
    requires b != 0
    requires var r := a - b * q;
             && (a >= 0 ==> r >= 0) && (a <= 0 ==> r <= 0)
             && (b > 0 ==> -b < r < b) && (b < 0 ==> b < r < -b)
    ensures q == Quot(a, b)
  {
    QuotTruncates(a, b);
    var d := q - Quot(a, b);
    assert b * d == (a - b * Quot(a, b)) - (a - b * q);
    assert d >= 1 ==> (b > 0 ==> b * d >= b) && (b < 0 ==> b * d <= b);
    assert d <= -1 ==> (b > 0 ==> b * d <= -b) && (b < 0 ==> b * d >= -b);
  }

  /** The value of an operator; no value means division by zero. A comparison gives 1 or 0. */
  function Apply(op: Op, a: int, b: int): Option<int> {
    match op
    case PLUS => Some(a + b)
    case MINUS => Some(a - b)
    case TIMES => Some(a * b)
    case OVER => if b == 0 then None else Some(Quot(a, b))
    case LT => Some(if a < b then 1 else 0)
    case EQ => Some(if a == b then 1 else 0)
  }

  type Vars = map<string, int>

  /** A variable that was never assigned reads 0. */
  function Lookup(vars: Vars, name: string): int {
    if name in vars then vars[name] else 0
  }

  function Eval(t: Tree, vars: Vars): Option<int>
    requires IsExp(t)
  {
    match t.kind
    case ConstK(n) => Some(n)
    case IdK(name) => Some(Lookup(vars, name))
    case OpK(op) =>
      var a := Eval(t.c0, vars);
      var b := Eval(t.c1, vars);
      if a.None? || b.None? then None else Apply(op, a.value, b.value)
  }

  /** The k-th value read is input(k); `pos` counts the values read so far. */
  type Input = nat -> int

  datatype Store = Store(vars: Vars, pos: nat, output: seq<int>)

  const INITIAL_STORE := Store(map[], 0, [])

  /** `Timeout` says that the fuel, which bounds the rounds of repeat loops, ran out at the head of a loop. */
  datatype Outcome = Done(store: Store) | DivZero(store: Store) | Timeout(store: Store)

  function Exec(t: Tree, st: Store, input: Input, fuel: nat): Outcome
    requires IsStmts(t)
    decreases fuel, t, 1
  {
    if t.Null? then Done(st)
    else
      var r := ExecStmt(t, st, input, fuel);
      if r.Done? then Exec(t.sibling, r.store, input, fuel) else r
  }

  function ExecStmt(t: Tree, st: Store, input: Input, fuel: nat): Outcome
    requires IsStmt(t)
    decreases fuel, t, 0
  {
    match t.kind
    case IfK =>
      var v := Eval(t.c0, st.vars);
      if v.None? then DivZero(st)
      else if v.value != 0 then Exec(t.c1, st, input, fuel)
      else Exec(t.c2, st, input, fuel)
    case RepeatK =>
      if fuel == 0 then Timeout(st)
      else
        var r := Exec(t.c0, st, input, fuel);
        if !r.Done? then r
        else
          var v := Eval(t.c1, r.store.vars);
          if v.None? then DivZero(r.store)
          else if v.value != 0 then r
          else ExecStmt(t, r.store, input, fuel - 1)
    case AssignK(name) =>
      var v := Eval(t.c0, st.vars);
      if v.None? then DivZero(st) else Done(st.(vars := st.vars[name := v.value]))
    case ReadK(name) =>
      Done(st.(vars := st.vars[name := input(st.pos)], pos := st.pos + 1))
    case WriteK =>
      var v := Eval(t.c0, st.vars);
      if v.None? then DivZero(st) else Done(st.(output := st.output + [v.value]))
  }

  /** More fuel changes nothing once an outcome is reached. */
  lemma {:induction false} MoreFuel(t: Tree, st: Store, input: Input, fuel: nat, more: nat)
    requires IsStmts(t)
    requires fuel <= more
    ensures !Exec(t, st, input, fuel).Timeout? ==> Exec(t, st, input, more) == Exec(t, st, input, fuel)
    decreases fuel, t, 1
  {
    if !t.Null? {
      MoreFuelStmt(t, st, input, fuel, more);
      var r := ExecStmt(t, st, input, fuel);
      if r.Done? {
        MoreFuel(t.sibling, r.store, input, fuel, more);
      }
    }
  }

  lemma {:induction false} MoreFuelStmt(t: Tree, st: Store, input: Input, fuel: nat, more: nat)
    requires IsStmt(t)
    requires fuel <= more
    ensures !ExecStmt(t, st, input, fuel).Timeout? ==> ExecStmt(t, st, input, more) == ExecStmt(t, st, input, fuel)
    decreases fuel, t, 0
  {
    match t.kind
    case IfK =>
      MoreFuel(t.c1, st, input, fuel, more);
      MoreFuel(t.c2, st, input, fuel, more);
    case RepeatK =>
      if fuel > 0 {
        MoreFuel(t.c0, st, input, fuel, more);
        var r := Exec(t.c0, st, input, fuel);
        if r.Done? {
          MoreFuelStmt(t, r.store, input, fuel - 1, more - 1);
        }
      }
    case AssignK(_) =>
    case ReadK(_) =>
    case WriteK =>
  }
}
