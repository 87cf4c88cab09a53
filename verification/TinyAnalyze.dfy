/** The semantic analyzer (analyze.c): address allocation and type checking. */
module TinyAnalyze {
  import opened TinyTree
  import opened TinySymtab

  // ----- addresses -----

  /** The names of the tree in preorder, with repetitions. */
  function Order(t: Tree): seq<string> {
    match t
    case Null => []
    case Node(kind, c0, c1, c2, sibling) => NameOf(kind) + Order(c0) + Order(c1) + Order(c2) + Order(sibling)
  }

  function NameOf(kind: Kind): seq<string> {
    if kind.AssignK? || kind.ReadK? || kind.IdK? then [kind.name] else []
  }

  /** Each new name gets the next free address. */
  function Assign(names: seq<string>, addr: Addresses): Addresses {
    if names == [] then addr
    else Assign(names[1..], if names[0] in addr then addr else addr[names[0] := |addr|])
  }

  /** The addresses are 0..|addr|-1, one for each name. */
  ghost predicate Dense(addr: Addresses) {
    && (forall x <- addr :: 0 <= addr[x] < |addr|)
    && (forall x, y :: x in addr && y in addr && addr[x] == addr[y] ==> x == y)
  }

  lemma {:induction false} AssignAppend(a: seq<string>, b: seq<string>, addr: Addresses)
    ensures Assign(a + b, addr) == Assign(b, Assign(a, addr))
    decreases |a|
  {
    if a == [] {
      assert a + b == b;
    } else {
      assert (a + b)[1..] == a[1..] + b;
      AssignAppend(a[1..], b, if a[0] in addr then addr else addr[a[0] := |addr|]);
    }
  }

  /** Allocation keeps addresses dense and distinct, never moves a name, and covers every name given. */
  lemma {:induction false} AssignDense(names: seq<string>, addr: Addresses)
    requires Dense(addr)
    ensures Dense(Assign(names, addr))
    ensures forall x <- addr :: x in Assign(names, addr) && Assign(names, addr)[x] == addr[x]
    ensures forall x :: x in Assign(names, addr) <==> x in addr || x in names
    decreases |names|
  {
    if names != [] {
      var next := if names[0] in addr then addr else addr[names[0] := |addr|];
      AssignDense(names[1..], next);
      assert forall x :: x in names <==> x == names[0] || x in names[1..];
      assert Assign(names, addr) == Assign(names[1..], next);
    }
  }

  lemma AssignOne(name: string, addr: Addresses)
    ensures Assign([name], addr) == if name in addr then addr else addr[name := |addr|]
  {
    var next := if name in addr then addr else addr[name := |addr|];
    assert [name][1..] == [] && Assign([], next) == next;
  }

  /** Where a name occurs first. */
  function First(names: seq<string>, x: string): nat
    requires x in names
  {
    if names[0] == x then 0 else 1 + First(names[1..], x)
  }

  /** The names that occur before position i. */
  function Among(names: seq<string>, i: nat): set<string>
    requires i <= |names|
  {
    set j | 0 <= j < i :: names[j]
  }

  /** The address of a name is the number of other names that occur before it first does. */
  lemma AssignFirst(names: seq<string>, x: string)
    requires x in names
    ensures x in Assign(names, map[])
    ensures First(names, x) < |names| && names[First(names, x)] == x && x !in Among(names, First(names, x))
    ensures Assign(names, map[])[x] == |Among(names, First(names, x))|
  {
    hide Assign, Dense, Among, First;
    FirstIs(names, x);
    var k := First(names, x);
    var a := Assign(names[..k], map[]);
    NoneDense();
    AssignDense(names[..k], map[]);
    AmongPrefix(names, k);
    assert a.Keys == Among(names, k);
    assert |a| == |a.Keys|;
    var rest := names[k..];
    assert rest[0] == x && names == names[..k] + rest;
    AssignAppend(names[..k], rest, map[]);
    AssignOne(x, a);
    AssignDense([x], a);
    assert rest == [x] + rest[1..];
    AssignAppend([x], rest[1..], a);
    AssignDense(rest[1..], Assign([x], a));
  }

  lemma NoneDense()
    ensures Dense(map[])
  {
  }

  lemma AmongPrefix(names: seq<string>, k: nat)
    requires k <= |names|
    ensures forall x :: x in Among(names, k) <==> x in names[..k]
  {
  }

  lemma {:induction false} FirstIs(names: seq<string>, x: string)
    requires x in names
    ensures First(names, x) < |names| && names[First(names, x)] == x
    ensures forall j :: 0 <= j < First(names, x) ==> names[j] != x
    decreases |names|
  {
    if names[0] != x {
      FirstIs(names[1..], x);
      assert forall j :: 0 < j < |names| ==> names[j] == names[1..][j - 1];
    }
  }

  lemma {:induction false} OrderNames(t: Tree, x: string)
    ensures x in Order(t) <==> x in Names(t)
  {
    if t.Node? {
      OrderNames(t.c0, x);
      OrderNames(t.c1, x);
      OrderNames(t.c2, x);
      OrderNames(t.sibling, x);
    }
  }

  // ----- types -----

  datatype ExpType = Void | Integer | Boolean

  function TypeOf(t: Tree): ExpType
    requires IsExp(t)
  {
    if t.kind.OpK? && (t.kind.op.EQ? || t.kind.op.LT?) then Boolean else Integer
  }

  /** Operators take integers; tests are Boolean; what is assigned or written is an integer. */
  predicate WellTypedExp(t: Tree)
    requires IsExp(t)
  {
    t.kind.OpK? ==>
      && WellTypedExp(t.c0) && WellTypedExp(t.c1)
      && TypeOf(t.c0) == Integer && TypeOf(t.c1) == Integer
  }

  predicate WellTyped(t: Tree)
    requires IsStmts(t)
    decreases t, 1
  {
    t.Node? ==> WellTypedStmt(t) && WellTyped(t.sibling)
  }

  predicate WellTypedStmt(t: Tree)
    requires IsStmt(t)
    decreases t, 0
  {
    match t.kind
    case IfK => WellTypedExp(t.c0) && TypeOf(t.c0) == Boolean && WellTyped(t.c1) && WellTyped(t.c2)
    case RepeatK => WellTyped(t.c0) && WellTypedExp(t.c1) && TypeOf(t.c1) == Boolean
    case AssignK(_) => WellTypedExp(t.c0) && TypeOf(t.c0) == Integer
    case ReadK(_) => true
    case WriteK => WellTypedExp(t.c0) && TypeOf(t.c0) == Integer
  }

  /** The nodes of a tree. */
  function Parts(t: Tree): set<Tree> {
    match t
    case Null => {}
    case Node(_, c0, c1, c2, sibling) => {t} + Parts(c0) + Parts(c1) + Parts(c2) + Parts(sibling)
  }

  predicate IsComparison(t: Tree) {
    t.Node? && t.kind in {OpK(LT), OpK(EQ)}
  }

  /** Tests are comparisons, and nothing that is assigned, written or an operand is one. */
  predicate Typed(n: Tree)
    requires n.Node?
  {
    && (n.kind.IfK? ==> IsComparison(n.c0))
    && (n.kind.RepeatK? ==> IsComparison(n.c1))
    && (n.kind.AssignK? || n.kind.WriteK? ==> !IsComparison(n.c0))
    && (n.kind.OpK? ==> !IsComparison(n.c0) && !IsComparison(n.c1))
  }

  ghost predicate AllTyped(t: Tree) {
    forall n <- Parts(t) :: n.Node? ==> Typed(n)
  }

  lemma AllTypedNode(t: Tree)
    requires t.Node?
    ensures AllTyped(t) <==> Typed(t) && AllTyped(t.c0) && AllTyped(t.c1) && AllTyped(t.c2) && AllTyped(t.sibling)
  {
    assert forall n :: n in Parts(t) <==>
      n == t || n in Parts(t.c0) || n in Parts(t.c1) || n in Parts(t.c2) || n in Parts(t.sibling);
  }

  lemma {:induction false} ExpTypedExactly(t: Tree)
    requires IsExp(t)
    ensures WellTypedExp(t) <==> AllTyped(t)
  {
    AllTypedNode(t);
    if t.kind.OpK? {
      ExpTypedExactly(t.c0);
      ExpTypedExactly(t.c1);
    }
  }

  /** A tree is well typed exactly if every node of it is typed. */
  lemma {:induction false} TypedExactly(t: Tree)
    requires IsStmts(t)
    ensures WellTyped(t) <==> AllTyped(t)
  {
    if t.Node? {
      hide WellTypedExp, AllTyped;
      AllTypedNode(t);
      NothingTyped();
      match t.kind {
        case IfK =>
          ExpTypedExactly(t.c0);
          TypedExactly(t.c1);
          TypedExactly(t.c2);
        case RepeatK =>
          TypedExactly(t.c0);
          ExpTypedExactly(t.c1);
        case AssignK(_) => ExpTypedExactly(t.c0);
        case ReadK(_) =>
        case WriteK => ExpTypedExactly(t.c0);
      }
      TypedExactly(t.sibling);
    }
  }

  lemma NothingTyped()
    ensures AllTyped(Null)
  {
  }

  /** The test of an if or a repeat. */
  function TestOf(n: Tree): Tree
    requires n.Node?
  {
    if n.kind.IfK? then n.c0 else n.c1
  }

  lemma {:induction false} TestsAreExps(t: Tree, n: Tree)
    requires IsStmts(t) || IsExp(t)
    requires n in Parts(t) && n.Node? && (n.kind.IfK? || n.kind.RepeatK?)
    ensures IsExp(TestOf(n))
  {
    ChildrenComplete(t);
    if n != t {
      hide IsStmts, IsExp;
      if n in Parts(t.c0) {
        TestsAreExps(t.c0, n);
      } else if n in Parts(t.c1) {
        TestsAreExps(t.c1, n);
      } else if n in Parts(t.c2) {
        TestsAreExps(t.c2, n);
      } else {
        TestsAreExps(t.sibling, n);
      }
    }
  }

  lemma ChildrenComplete(t: Tree)
    requires t.Node? && (IsStmts(t) || IsExp(t))
    ensures IsStmts(t.c0) || IsExp(t.c0)
    ensures IsStmts(t.c1) || IsExp(t.c1)
    ensures IsStmts(t.c2) || IsExp(t.c2)
    ensures IsStmts(t.sibling) || IsExp(t.sibling)
    ensures t.kind.IfK? ==> IsExp(t.c0)
    ensures t.kind.RepeatK? ==> IsExp(t.c1)
  {
    NoneIsStmts();
    if IsStmts(t) {
      assert IsStmt(t);
    }
  }

  lemma NoneIsStmts()
    ensures IsStmts(Null)
  {
  }

  /** Every test of an if or a repeat has no other value than 0 and 1. */
  ghost predicate TestsBoolean(t: Tree) {
    forall n <- Parts(t) :: n.Node? && (n.kind.IfK? || n.kind.RepeatK?) ==> IsBoolean(TestOf(n))
  }

  ghost predicate IsBoolean(t: Tree) {
    IsExp(t) && forall vars: Vars :: Eval(t, vars).Some? ==> Eval(t, vars).value in {0, 1}
  }

  lemma WellTypedTests(t: Tree)
    requires IsStmts(t)
    ensures WellTyped(t) ==> TestsBoolean(t)
  {
    TypedExactly(t);
    if WellTyped(t) {
      forall n <- Parts(t) | n.Node? && (n.kind.IfK? || n.kind.RepeatK?)
        ensures IsBoolean(TestOf(n))
      {
        TestsAreExps(t, n);
        assert Typed(n);
        forall vars: Vars
          ensures Eval(TestOf(n), vars).Some? ==> Eval(TestOf(n), vars).value in {0, 1}
        {
          BooleanValue(TestOf(n), vars);
        }
      }
    }
  }

  /** A comparison has no other value than 0 and 1. */
  lemma BooleanValue(t: Tree, vars: Vars)
    requires IsExp(t) && IsComparison(t)
    ensures Eval(t, vars).Some? ==> Eval(t, vars).value in {0, 1}
  {
  }

  class Analyzer {
    const table: SymbolTable
    var location: nat
    var error: bool

    ghost predicate Valid()
      reads this, table, table.hashTable
    {
      && table.Valid()
      && Dense(table.Addresses())
      && location == |table.Addresses()|
    }

    constructor ()
      ensures Valid() && fresh(table) && fresh(table.hashTable)
      ensures table.Addresses() == map[] && !error
    {
      table := new SymbolTable();
      location := 0;
      error := false;
    }

    method InsertNode(t: Tree)
      requires Valid() && t.Node?
      modifies this, table, table.hashTable
      ensures Valid() && error == old(error)
      ensures table.Addresses() == Assign(NameOf(t.kind), old(table.Addresses()))
      ensures forall x :: table.Lines(x) == old(table.Lines(x)) + multiset(NameOf(t.kind))[x]
    {
      match t.kind {
        case AssignK(name) => InsertName(name);
        case ReadK(name) => InsertName(name);
        case IdK(name) => InsertName(name);
        case _ =>
      }
    }

    method InsertName(name: string)
      requires Valid()
      modifies this, table, table.hashTable
      ensures Valid() && error == old(error)
      ensures table.Addresses() == Assign([name], old(table.Addresses()))
      ensures forall x :: table.Lines(x) == old(table.Lines(x)) + if x == name then 1 else 0
    {
      hide Assign, Dense, SymbolTable.Valid;
      var lineno: int := *; // the line of the node, which the model's tree does not record
      ghost var addr := table.Addresses();
      AssignOne(name, addr);
      AssignDense([name], addr);
      var loc := table.Lookup(name);
      if loc == -1 {
        table.Insert(name, lineno, location);
        location := location + 1;
        assert table.Addresses() == addr[name := |addr|];
      } else {
        table.Insert(name, lineno, 0);
        assert table.Addresses() == addr;
      }
    }

    /** Preorder traversal with insertNode. */
    method BuildSymtab(t: Tree)
      requires Valid()
      modifies this, table, table.hashTable
      ensures Valid() && error == old(error)
      ensures table.Addresses() == Assign(Order(t), old(table.Addresses()))
      ensures forall x :: table.Lines(x) == old(table.Lines(x)) + multiset(Order(t))[x]
    {
      if t.Node? {
        ghost var addr := table.Addresses();
        InsertNode(t);
        BuildSymtab(t.c0);
        AssignAppend(NameOf(t.kind), Order(t.c0), addr);
        BuildSymtab(t.c1);
        AssignAppend(NameOf(t.kind) + Order(t.c0), Order(t.c1), addr);
        BuildSymtab(t.c2);
        AssignAppend(NameOf(t.kind) + Order(t.c0) + Order(t.c1), Order(t.c2), addr);
        BuildSymtab(t.sibling);
        AssignAppend(NameOf(t.kind) + Order(t.c0) + Order(t.c1) + Order(t.c2), Order(t.sibling), addr);
      }
    }

    /** checkNode at an expression, given the types of its children; returns the type stored in the node. */
    method CheckExpNode(t: Tree, type0: ExpType, type1: ExpType) returns (r: ExpType)
      requires IsExp(t)
      requires t.kind.OpK? ==> type0 == TypeOf(t.c0) && type1 == TypeOf(t.c1)
      modifies this`error
      ensures r == TypeOf(t)
      ensures error == (old(error) || (t.kind.OpK? && (type0 != Integer || type1 != Integer)))
    {
      match t.kind {
        case OpK(op) =>
          if type0 != Integer || type1 != Integer {
            error := true;
          }
          r := if op == EQ || op == LT then Boolean else Integer;
        case _ => r := Integer;
      }
    }

    method CheckExp(t: Tree) returns (r: ExpType)
      requires IsExp(t)
      modifies this`error
      ensures r == TypeOf(t) == if IsComparison(t) then Boolean else Integer
      ensures error == (old(error) || !WellTypedExp(t))
    {
      var type0, type1 := Void, Void;
      if t.kind.OpK? {
        type0 := CheckExp(t.c0);
        type1 := CheckExp(t.c1);
      }
      r := CheckExpNode(t, type0, type1);
    }

    /** Postorder traversal with checkNode: an error is reported exactly when the tree is not well typed. */
    method TypeCheck(t: Tree)
      requires IsStmts(t)
      modifies this`error
      ensures error == (old(error) || !WellTyped(t))
      ensures error <==> old(error) || !AllTyped(t)
      ensures !error ==> TestsBoolean(t)
    {
      TypedExactly(t);
      WellTypedTests(t);
      hide AllTyped, TestsBoolean;
      if t.Node? {
        var ty := Void;
        match t.kind {
          case IfK =>
            ty := CheckExp(t.c0);
            TypeCheck(t.c1);
            TypeCheck(t.c2);
            if ty == Integer {
              error := true;
            }
          case RepeatK =>
            TypeCheck(t.c0);
            ty := CheckExp(t.c1);
            if ty == Integer {
              error := true;
            }
          case AssignK(_) =>
            ty := CheckExp(t.c0);
            if ty != Integer {
              error := true;
            }
          case ReadK(_) =>
          case WriteK =>
            ty := CheckExp(t.c0);
            if ty != Integer {
              error := true;
            }
        }
        TypeCheck(t.sibling);
      }
    }
  }
}
