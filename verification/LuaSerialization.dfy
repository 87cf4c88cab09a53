/** Serializing tables with cycles and sharing (serialization.lua) as a script of assignments, and what the script
    rebuilds. */
module LuaSerialization {
  import opened Basics

  /** `Other` is a value of any type that cannot be saved. */
  datatype Value = Number(n: int) | Str(s: string) | Table(id: nat) | Other(tag: nat)
  {
    predicate IsBase() { Number? || Str? }
  }

  /** Table number i holds the fields heap[i]. */
  type Heap = seq<map<Value, Value>>

  /** The keys after the name of the variable. */
  type Path = seq<Value>

  /** The value a path leads to. */
  function Get(h: Heap, v: Value, p: Path): Option<Value>
    decreases |p|
  {
    if p == [] then Some(v)
    else if v.Table? && v.id < |h| && p[0] in h[v.id] then Get(h, h[v.id][p[0]], p[1..])
    else None
  }

  lemma {:induction false} GetLast(h: Heap, v: Value, p: Path, k: Value)
    requires Get(h, v, p).Some?
    ensures var w := Get(h, v, p).value;
            Get(h, v, p + [k]) == if w.Table? && w.id < |h| && k in h[w.id] then Some(h[w.id][k]) else None
    decreases |p|
  {
    if p != [] {
      assert (p + [k])[1..] == p[1..] + [k];
      GetLast(h, h[v.id][p[0]], p[1..], k);
    }
  }

  // ----- the script -----

  datatype Rhs = Base(v: Value) | NewTable | Copy(path: Path)

  datatype Stmt = Stmt(path: Path, rhs: Rhs)

  /** The variable that the script assigns, and the tables it has created. */
  datatype Lua = Lua(ret: Option<Value>, heap: Heap)

  const START := Lua(None, [])

  /** No result when the script indexes something that is not a table, or copies from a path that leads nowhere. */
  function Step(st: Lua, s: Stmt): Option<Lua> {
    match s.rhs
    case Base(v) => Store(st, s.path, v)
    case NewTable => Store(st.(heap := st.heap + [map[]]), s.path, Table(|st.heap|))
    case Copy(p) =>
      if st.ret.None? || Get(st.heap, st.ret.value, p).None? then None
      else Store(st, s.path, Get(st.heap, st.ret.value, p).value)
  }

  function Store(st: Lua, path: Path, v: Value): Option<Lua> {
    if path == [] then Some(st.(ret := Some(v)))
    else if st.ret.None? then None
    else
      var t := Get(st.heap, st.ret.value, path[..|path| - 1]);
      if t.None? || !t.value.Table? || t.value.id >= |st.heap| then None
      else Some(st.(heap := st.heap[t.value.id := st.heap[t.value.id][path[|path| - 1] := v]]))
  }

  function Run(out: seq<Stmt>): Option<Lua> {
    if out == [] then Some(START)
    else
      var st := Run(out[..|out| - 1]);
      if st.None? then None else Step(st.value, out[|out| - 1])
  }

  lemma RunNext(out: seq<Stmt>, s: Stmt)
    requires Run(out).Some?
    ensures Run(out + [s]) == Step(Run(out).value, s)
  {
    assert (out + [s])[..|out|] == out;
  }

  // ----- tables that grow -----

  /** Every field of h is a field of h2. */
  ghost predicate Grows(h: Heap, h2: Heap) {
    && |h| <= |h2|
    && forall i :: 0 <= i < |h| ==> Includes(h[i], h2[i])
  }

  ghost predicate Includes(m: map<Value, Value>, m2: map<Value, Value>) {
    forall k <- m :: k in m2 && m2[k] == m[k]
  }

  lemma {:induction false} GetGrown(h: Heap, h2: Heap, v: Value, p: Path)
    requires Grows(h, h2) && Get(h, v, p).Some?
    ensures Get(h2, v, p) == Get(h, v, p)
    decreases |p|
  {
    if p != [] {
      assert Includes(h[v.id], h2[v.id]);
      GetGrown(h, h2, h[v.id][p[0]], p[1..]);
    }
  }

  /** The table that an assignment to the name updates. */
  function Owner(st: Lua, name: Path): nat {
    if name == [] || st.ret.None? then 0
    else
      var t := Get(st.heap, st.ret.value, name[..|name| - 1]);
      if t.Some? && t.value.Table? then t.value.id else 0
  }

  /** A statement may assign this name: the variable is new, or its table exists and has no such field. */
  ghost predicate Free(st: Lua, name: Path) {
    if name == [] then st == START
    else
      && st.ret.Some?
      && Owner(st, name) < |st.heap|
      && Get(st.heap, st.ret.value, name[..|name| - 1]) == Some(Table(Owner(st, name)))
      && name[|name| - 1] !in st.heap[Owner(st, name)]
  }

  /** The name now holds v, there may be new tables, and nothing else has changed. */
  ghost predicate Assigned(st: Lua, st2: Lua, name: Path, v: Value) {
    && st2.ret == (if name == [] then Some(v) else st.ret)
    && |st.heap| <= |st2.heap|
    && forall i :: 0 <= i < |st.heap| ==>
         st2.heap[i] == if name != [] && i == Owner(st, name) then st.heap[i][name[|name| - 1] := v] else st.heap[i]
  }

  lemma AssignedReads(st: Lua, st2: Lua, name: Path, v: Value)
    requires Free(st, name) && Assigned(st, st2, name, v)
    ensures Grows(st.heap, st2.heap)
    ensures st2.ret.Some? && Get(st2.heap, st2.ret.value, name) == Some(v)
  {
    if name != [] {
      var front, k := name[..|name| - 1], name[|name| - 1];
      assert name == front + [k];
      GetGrown(st.heap, st2.heap, st.ret.value, front);
      GetLast(st2.heap, st2.ret.value, front, k);
    }
  }

  lemma StoreFree(st: Lua, more: Heap, name: Path, v: Value)
    requires Free(st, name)
    ensures var st2 := Store(st.(heap := st.heap + more), name, v);
            && st2.Some? && Assigned(st, st2.value, name, v)
            && |st2.value.heap| == |st.heap| + |more|
            && forall i :: |st.heap| <= i < |st.heap| + |more| ==> st2.value.heap[i] == more[i - |st.heap|]
  {
    if name != [] {
      GetGrown(st.heap, st.heap + more, st.ret.value, name[..|name| - 1]);
    }
  }

  // ----- what the script rebuilds -----

  /** The copy of a value, when table t is rebuilt as table f[t]. */
  function Image(f: map<nat, nat>, v: Value): Value {
    if v.Table? && v.id in f then Table(f[v.id]) else v
  }

  function ImageOf(f: map<nat, nat>, m: map<Value, Value>): map<Value, Value> {
    map k | k in m :: Image(f, m[k])
  }

  /** What can be saved under a name: a number, a string or a known table. */
  ghost predicate Known(f: map<nat, nat>, v: Value) {
    v.IsBase() || (v.Table? && v.id in f)
  }

  ghost predicate Rebuilt(g: Heap, h: Heap, f: map<nat, nat>, t: nat)
    requires t < |g| && t in f
  {
    && f[t] < |h|
    && h[f[t]] == ImageOf(f, g[t])
    && forall k <- g[t] :: k.IsBase() && Known(f, g[t][k])
  }

  lemma RebuiltStill(g: Heap, h: Heap, h2: Heap, f: map<nat, nat>, f2: map<nat, nat>, t: nat)
    requires t < |g| && t in f && Rebuilt(g, h, f, t)
    requires forall u <- f :: u in f2 && f2[u] == f[u]
    requires f[t] < |h2| && h2[f[t]] == h[f[t]]
    ensures Rebuilt(g, h2, f2, t)
  {
    assert forall k <- g[t] :: Image(f2, g[t][k]) == Image(f, g[t][k]);
  }

  /** The tables of f and their copies are the same graph, and h has no other table. */
  ghost predicate Isomorphic(g: Heap, root: Value, h: Heap, copy: Value, f: map<nat, nat>) {
    && Known(f, root) && copy == Image(f, root)
    && |h| == |f|
    && (forall t, u :: t in f && u in f && f[t] == f[u] ==> t == u)
    && (forall t <- f :: t < |g| && Rebuilt(g, h, f, t))
  }

  /** A path leads to the same thing in both graphs. */
  lemma {:induction false} SamePaths(g: Heap, root: Value, h: Heap, copy: Value, f: map<nat, nat>, p: Path)
    requires Isomorphic(g, root, h, copy, f)
    ensures Get(g, root, p).None? <==> Get(h, copy, p).None?
    ensures Get(g, root, p).Some? ==>
              Known(f, Get(g, root, p).value) && Get(h, copy, p) == Some(Image(f, Get(g, root, p).value))
    decreases |p|
  {
    if p != [] && root.Table? {
      assert Rebuilt(g, h, f, root.id);
      if p[0] in g[root.id] {
        SamePaths(g, g[root.id][p[0]], h, h[copy.id][p[0]], f, p[1..]);
      }
    }
  }

  /** Cycles and sharing are kept: two paths lead to one table in the copy exactly when they do in the original. */
  lemma SameSharing(g: Heap, root: Value, h: Heap, copy: Value, f: map<nat, nat>, p: Path, q: Path)
    requires Isomorphic(g, root, h, copy, f)
    requires Get(g, root, p).Some? && Get(g, root, q).Some?
    ensures Get(g, root, p) == Get(g, root, q) <==> Get(h, copy, p) == Get(h, copy, q)
  {
    SamePaths(g, root, h, copy, f, p);
    SamePaths(g, root, h, copy, f, q);
  }

  /** A value that the serializer refuses: one that is neither number, string nor table, or a table with such a key,
      or with a table as key. */
  ghost predicate Refused(g: Heap, v: Value) {
    v.Other? || (v.Table? && v.id < |g| && exists k <- g[v.id] :: !k.IsBase())
  }

  ghost predicate Refusable(g: Heap, root: Value) {
    exists p :: Leads(g, root, p)
  }

  ghost predicate Leads(g: Heap, root: Value, p: Path) {
    Get(g, root, p).Some? && Refused(g, Get(g, root, p).value)
  }

  /** A graph that is rebuilt holds nothing that is refused. */
  lemma NothingRefused(g: Heap, root: Value, h: Heap, copy: Value, f: map<nat, nat>)
    requires Isomorphic(g, root, h, copy, f)
    ensures !Refusable(g, root)
  {
    forall p
      ensures !Leads(g, root, p)
    {
      SamePaths(g, root, h, copy, f, p);
      if Get(g, root, p).Some? && Get(g, root, p).value.Table? {
        assert Rebuilt(g, h, f, Get(g, root, p).value.id);
      }
    }
  }

  // ----- the serializer -----

  /** Every table mentioned is a table of the heap. */
  ghost predicate InHeap(g: Heap, v: Value) {
    v.Table? ==> v.id < |g|
  }

  ghost predicate WellFormed(g: Heap) {
    forall t, k :: 0 <= t < |g| && k in g[t] ==> InHeap(g, g[t][k])
  }

  /** A saved name leads to its table, in the original and in what the script has built. */
  ghost predicate At(g: Heap, root: Value, st: Lua, name: Path, t: nat, copy: nat) {
    && st.ret.Some?
    && Get(g, root, name) == Some(Table(t))
    && Get(st.heap, st.ret.value, name) == Some(Table(copy))
  }

  /** Running the script so far has built st, where the saved table t is table f[t] and table i is a copy of
      origin[i]. */
  ghost predicate Consistent(g: Heap, root: Value, out: seq<Stmt>, saved: map<nat, Path>, st: Lua, f: map<nat, nat>,
                             origin: seq<nat>) {
    && WellFormed(g)
    && Run(out) == Some(st)
    && f.Keys == saved.Keys
    && |origin| == |st.heap| == |f|
    && (forall t <- f :: t < |g| && f[t] < |origin| && origin[f[t]] == t)
    && (forall t <- saved :: At(g, root, st, saved[t], t, f[t]))
  }

  /** Saved names go on leading to their tables. */
  lemma StillAt(g: Heap, root: Value, st: Lua, st2: Lua, name: Path, t: nat, copy: nat)
    requires At(g, root, st, name, t, copy)
    requires Grows(st.heap, st2.heap) && st2.ret == st.ret
    ensures At(g, root, st2, name, t, copy)
  {
    GetGrown(st.heap, st2.heap, st.ret.value, name);
  }

  /** `name = rhs` where rhs is a number, a string or the name of a saved table. */
  lemma Emitted(g: Heap, root: Value, out: seq<Stmt>, saved: map<nat, Path>, st: Lua, f: map<nat, nat>,
                origin: seq<nat>, name: Path, value: Value, rhs: Rhs)
    returns (st2: Lua)
    requires Consistent(g, root, out, saved, st, f, origin) && Free(st, name)
    requires (value.IsBase() && rhs == Base(value))
             || (value.Table? && value.id in saved && rhs == Copy(saved[value.id]))
    ensures Consistent(g, root, out + [Stmt(name, rhs)], saved, st2, f, origin)
    ensures Assigned(st, st2, name, Image(f, value)) && |st2.heap| == |st.heap|
  {
    hide Run, Get, Free, Grows, Assigned, Owner;
    var v := Image(f, value);
    RunNext(out, Stmt(name, rhs));
    StoreFree(st, [], name, v);
    assert st.(heap := st.heap + []) == st;
    if value.Table? {
      assert At(g, root, st, saved[value.id], value.id, f[value.id]);
    }
    st2 := Store(st, name, v).value;
    AssignedReads(st, st2, name, v);
    forall t <- saved
      ensures At(g, root, st2, saved[t], t, f[t])
    {
      assert At(g, root, st, saved[t], t, f[t]);
      NamedOnce(st, st2, name, v);
      StillAt(g, root, st, st2, saved[t], t, f[t]);
    }
  }

  /** Once the variable has a value, it keeps it. */
  lemma NamedOnce(st: Lua, st2: Lua, name: Path, v: Value)
    requires Free(st, name) && Assigned(st, st2, name, v) && st.ret.Some?
    ensures st2.ret == st.ret
  {
  }

  /** `name = {}` for a table that is not saved yet. */
  lemma Created(g: Heap, root: Value, out: seq<Stmt>, saved: map<nat, Path>, st: Lua, f: map<nat, nat>,
                origin: seq<nat>, name: Path, t: nat)
    returns (st2: Lua)
    requires Consistent(g, root, out, saved, st, f, origin) && Free(st, name)
    requires t < |g| && t !in saved && Get(g, root, name) == Some(Table(t))
    ensures Consistent(g, root, out + [Stmt(name, NewTable)], saved[t := name], st2, f[t := |st.heap|], origin + [t])
    ensures Assigned(st, st2, name, Table(|st.heap|))
    ensures |st2.heap| == |st.heap| + 1 && st2.heap[|st.heap|] == map[]
  {
    hide Run, Get, Free, Grows, Assigned, Owner;
    var n := |st.heap|;
    var v := Table(n);
    RunNext(out, Stmt(name, NewTable));
    StoreFree(st, [map[]], name, v);
    st2 := Store(st.(heap := st.heap + [map[]]), name, v).value;
    AssignedReads(st, st2, name, v);
    var saved2, f2 := saved[t := name], f[t := n];
    forall u <- saved2
      ensures At(g, root, st2, saved2[u], u, f2[u])
    {
      if u != t {
        assert At(g, root, st, saved[u], u, f[u]);
        NamedOnce(st, st2, name, v);
        StillAt(g, root, st, st2, saved[u], u, f[u]);
      }
    }
  }

  /** A field that has not been saved yet may be assigned. */
  lemma FieldNext(g: Heap, root: Value, out: seq<Stmt>, saved: map<nat, Path>, st: Lua, f: map<nat, nat>,
                  origin: seq<nat>, t: nat, k: Value)
    requires Consistent(g, root, out, saved, st, f, origin) && t in saved
    requires t < |g| && f[t] < |st.heap| && k in g[t] && k !in st.heap[f[t]]
    ensures var name := saved[t] + [k];
            Free(st, name) && Owner(st, name) == f[t] && Get(g, root, name) == Some(g[t][k]) && InHeap(g, g[t][k])
  {
    var name := saved[t];
    assert At(g, root, st, name, t, f[t]);
    GetLast(g, root, name, k);
    assert (name + [k])[..|name|] == name;
  }

  ghost predicate Extends<T(!new)>(f: map<nat, T>, f2: map<nat, T>) {
    forall t <- f :: t in f2 && f2[t] == f[t]
  }

  /** The tables saved since f0 are rebuilt with all their fields. */
  ghost predicate NewRebuilt(g: Heap, h: Heap, f0: map<nat, nat>, f: map<nat, nat>) {
    forall t <- f :: t !in f0 ==> t < |g| && Rebuilt(g, h, f, t)
  }

  /** A value has been saved under a name. */
  ghost predicate Saved(g: Heap, st0: Lua, f0: map<nat, nat>, st: Lua, f: map<nat, nat>, name: Path, value: Value) {
    Extends(f0, f) && Known(f, value) && Assigned(st0, st, name, Image(f, value)) && NewRebuilt(g, st.heap, f0, f)
  }

  /** The fields of m whose keys are not left are saved in its copy, and no other. */
  ghost predicate PartSaved(m: map<Value, Value>, left: set<Value>, copy: map<Value, Value>, f: map<nat, nat>) {
    && copy == (map k | k in m && k !in left :: Image(f, m[k]))
    && forall k <- m :: k !in left ==> k.IsBase() && Known(f, m[k])
  }

  /** Table t, saved in f0, has been filled but for the keys left; of the older tables only its copy has changed. */
  ghost predicate Filling(g: Heap, st0: Lua, f0: map<nat, nat>, st: Lua, f: map<nat, nat>, t: nat, left: set<Value>) {
    && Extends(f0, f) && NewRebuilt(g, st.heap, f0, f)
    && t in f0 && t < |g| && f0[t] < |st0.heap| <= |st.heap| && st.ret == st0.ret
    && (forall i :: 0 <= i < |st0.heap| && i != f0[t] ==> st.heap[i] == st0.heap[i])
    && PartSaved(g[t], left, st.heap[f0[t]], f)
  }

  lemma OneField(g: Heap, st0: Lua, f0: map<nat, nat>, st: Lua, f: map<nat, nat>, st2: Lua, f2: map<nat, nat>,
                 name: Path, t: nat, k: Value, left: set<Value>)
    requires Filling(g, st0, f0, st, f, t, left + {k}) && k in g[t] && k !in left && k.IsBase()
    requires Saved(g, st, f, st2, f2, name + [k], g[t][k]) && Owner(st, name + [k]) == f[t]
    requires forall u, v :: u in f && v in f && f[u] == f[v] ==> u == v
    requires forall u <- f :: f[u] < |st.heap|
    ensures Filling(g, st0, f0, st2, f2, t, left)
  {
    hide Owner, Rebuilt;
    assert name + [k] != [] && (name + [k])[|name + [k]| - 1] == k;
    assert st2.heap[f[t]] == st.heap[f[t]][k := Image(f2, g[t][k])];
    forall u <- f2 | u !in f0
      ensures u < |g| && Rebuilt(g, st2.heap, f2, u)
    {
      if u in f {
        RebuiltStill(g, st.heap, st2.heap, f, f2, u);
      }
    }
  }

  lemma AllFields(g: Heap, st0: Lua, f0: map<nat, nat>, st: Lua, f: map<nat, nat>, t: nat)
    requires Filling(g, st0, f0, st, f, t, {})
    ensures Rebuilt(g, st.heap, f, t)
  {
    assert st.heap[f0[t]] == ImageOf(f, g[t]);
  }

  /** A table that is created and filled is saved. */
  lemma TableSaved(g: Heap, st0: Lua, f0: map<nat, nat>, st1: Lua, f1: map<nat, nat>, st: Lua, f: map<nat, nat>,
                   name: Path, t: nat)
    requires t !in f0 && f1 == f0[t := |st0.heap|]
    requires Assigned(st0, st1, name, Table(|st0.heap|)) && |st1.heap| == |st0.heap| + 1
    requires Filling(g, st1, f1, st, f, t, {})
    ensures Saved(g, st0, f0, st, f, name, Table(t))
  {
    AllFields(g, st1, f1, st, f, t);
    hide Rebuilt;
    assert f[t] == f1[t];
    assert Extends(f0, f) by {
      forall u <- f0
        ensures u in f && f[u] == f0[u]
      {
        assert u in f1 && f1[u] == f0[u];
      }
    }
  }

  class Serializer {
    const g: Heap
    const root: Value
    var outArr: seq<Stmt>
    var saved: map<nat, Path>
    /** What running the script written so far has built, and which table each saved table has become. */
    ghost var st: Lua
    ghost var f: map<nat, nat>
    ghost var origin: seq<nat>

    ghost predicate Valid()
      reads this
    {
      Consistent(g, root, outArr, saved, st, f, origin)
    }

    constructor (g: Heap, root: Value)
      requires WellFormed(g)
      ensures Valid() && this.g == g && this.root == root && outArr == [] && saved == map[] && st == START
    {
      this.g, this.root := g, root;
      outArr, saved := [], map[];
      st, f, origin := START, map[], [];
    }

    ghost function Unsaved(): set<nat>
      reads this
    {
      set t | 0 <= t < |g| && t !in saved
    }

    method Emit(name: Path, value: Value)
      requires Valid() && Free(st, name)
      requires value.IsBase() || (value.Table? && value.id in saved)
      modifies this`outArr, this`st
      ensures Valid() && Assigned(old(st), st, name, Image(f, value))
    {
      hide Free, Assigned, Get, Run, At;
      var rhs := if value.IsBase() then Base(value) else Copy(saved[value.id]);
      st := Emitted(g, root, outArr, saved, st, f, origin, name, value, rhs);
      outArr := outArr + [Stmt(name, rhs)];
    }

    method Create(name: Path, t: nat)
      requires Valid() && Free(st, name) && Get(g, root, name) == Some(Table(t))
      requires t < |g| && t !in saved
      modifies this
      ensures Valid() && saved == old(saved)[t := name] && f == old(f)[t := |old(st).heap|]
      ensures Assigned(old(st), st, name, Table(f[t]))
      ensures |st.heap| == |old(st).heap| + 1 && st.heap[f[t]] == map[]
    {
      hide Free, Assigned, Get, Run, At;
      ghost var n := |st.heap|;
      st := Created(g, root, outArr, saved, st, f, origin, name, t);
      saved := saved[t := name];
      outArr := outArr + [Stmt(name, NewTable)];
      f, origin := f[t := n], origin + [t];
    }

    method AuxLoopSeri(name: Path, value: Value) returns (ok: bool)
      requires Valid() && Free(st, name)
      requires Get(g, root, name) == Some(value) && InHeap(g, value)
      modifies this
      ensures !ok ==> Refusable(g, root)
      ensures ok ==> Valid() && Saved(g, old(st), old(f), st, f, name, value) && Extends(old(saved), saved)
      decreases Unsaved(), 1
    {
      hide Free, Assigned, Get, Run, At, Rebuilt, Refused;
      ConsistentKeys(g, root, outArr, saved, st, f, origin);
      hide Consistent;
      if value.IsBase() || (value.Table? && value.id in saved) {
        Emit(name, value);
        ok := true;
      } else if value.Table? {
        ok := SaveTable(name, value.id);
      } else {
        RefusedValue(g, root, name);
        ok := false;
      }
    }

    method SaveTable(name: Path, t: nat) returns (ok: bool)
      requires Valid() && Free(st, name)
      requires Get(g, root, name) == Some(Table(t)) && t < |g| && t !in saved
      modifies this
      ensures !ok ==> Refusable(g, root)
      ensures ok ==> Valid() && Saved(g, old(st), old(f), st, f, name, Table(t)) && Extends(old(saved), saved)
      decreases Unsaved(), 0
    {
      hide Free, Assigned, Get, Run, At, Rebuilt, Refusable, Filling, Saved;
      ConsistentKeys(g, root, outArr, saved, st, f, origin);
      hide Consistent;
      assert t in Unsaved();
      Create(name, t);
      ghost var st1, f1 := st, f;
      ok := SaveFields(name, t);
      if ok {
        TableSaved(g, old(st), old(f), st1, f1, st, f, name, t);
      }
    }

    /** The fields of a table that has just been created, in the order in which `pairs` happens to give them. */
    method SaveFields(name: Path, t: nat) returns (ok: bool)
      requires Valid() && t in saved && saved[t] == name && t in f && f[t] < |st.heap| && st.heap[f[t]] == map[]
      modifies this
      ensures !ok ==> Refusable(g, root)
      ensures ok ==> Valid() && Filling(g, old(st), old(f), st, f, t, {}) && Extends(old(saved), saved)
      decreases Unsaved(), 3
    {
      hide Run, Get, Owner, Free, Refused, At, Assigned, Rebuilt;
      ConsistentKeys(g, root, outArr, saved, st, f, origin);
      hide Consistent;
      var left := g[t].Keys;
      while left != {}
        invariant left <= g[t].Keys
        invariant Valid() && Filling(g, old(st), old(f), st, f, t, left)
        invariant Extends(old(saved), saved)
        decreases left
      {
        var k :| k in left;
        left := left - {k};
        if !k.IsBase() {
          RefusedKey(g, root, outArr, saved, st, f, origin, t, k);
          return false;
        }
        ok := SaveField(name, t, k, left, old(st), old(f));
        if !ok {
          return;
        }
      }
      ok := true;
    }

    method SaveField(name: Path, t: nat, k: Value, left: set<Value>, ghost st0: Lua, ghost f0: map<nat, nat>)
      returns (ok: bool)
      requires Valid() && t in saved && saved[t] == name
      requires Filling(g, st0, f0, st, f, t, left + {k})
      requires k in g[t] && k !in left && k.IsBase()
      modifies this
      ensures !ok ==> Refusable(g, root)
      ensures ok ==> Valid() && Filling(g, st0, f0, st, f, t, left) && Extends(old(saved), saved)
      decreases Unsaved(), 2
    {
      hide Run, Get, Owner, Free, Refused, At, Assigned, Rebuilt, Consistent, Saved;
      ConsistentKeys(g, root, outArr, saved, st, f, origin);
      FieldNext(g, root, outArr, saved, st, f, origin, t, k);
      ok := AuxLoopSeri(name + [k], g[t][k]);
      if ok {
        OneField(g, st0, f0, old(st), old(f), st, f, name, t, k, left);
      }
    }

    /** loop_seri under the name of the variable: either some path leads to a value that cannot be saved, or the
        script runs without an error and leaves a graph isomorphic to the original. */
    method LoopSeri() returns (ok: bool)
      requires Valid() && outArr == [] && saved == map[] && st == START && InHeap(g, root)
      modifies this
      ensures ok <==> !Refusable(g, root)
      ensures ok ==>
                var r := Run(outArr);
                r.Some? && r.value.ret.Some? && exists f :: Isomorphic(g, root, r.value.heap, r.value.ret.value, f)
    {
      hide Refusable, Rebuilt;
      ok := AuxLoopSeri([], root);
      if ok {
        ConsistentKeys(g, root, outArr, saved, st, f, origin);
        AllSaved(g, root, st, f);
      }
    }
  }

  lemma ConsistentKeys(g: Heap, root: Value, out: seq<Stmt>, saved: map<nat, Path>, st: Lua, f: map<nat, nat>,
                       origin: seq<nat>)
    requires Consistent(g, root, out, saved, st, f, origin)
    ensures WellFormed(g) && f.Keys == saved.Keys && |st.heap| == |f|
    ensures forall t <- f :: t < |g| && f[t] < |st.heap|
    ensures forall t, u :: t in f && u in f && f[t] == f[u] ==> t == u
  {
  }

  lemma RefusedKey(g: Heap, root: Value, out: seq<Stmt>, saved: map<nat, Path>, st: Lua, f: map<nat, nat>,
                   origin: seq<nat>, t: nat, k: Value)
    requires Consistent(g, root, out, saved, st, f, origin)
    requires t in saved && t < |g| && k in g[t] && !k.IsBase()
    ensures Refusable(g, root)
  {
    assert At(g, root, st, saved[t], t, f[t]);
    assert Leads(g, root, saved[t]);
  }

  lemma RefusedValue(g: Heap, root: Value, name: Path)
    requires Get(g, root, name).Some? && Get(g, root, name).value.Other?
    ensures Refusable(g, root)
  {
    assert Leads(g, root, name);
  }

  lemma AllSaved(g: Heap, root: Value, st: Lua, f: map<nat, nat>)
    requires Saved(g, START, map[], st, f, [], root) && |st.heap| == |f|
    requires forall t, u :: t in f && u in f && f[t] == f[u] ==> t == u
    ensures st.ret.Some? && Isomorphic(g, root, st.heap, st.ret.value, f) && !Refusable(g, root)
  {
    NothingRefused(g, root, st.heap, st.ret.value, f);
  }
}
