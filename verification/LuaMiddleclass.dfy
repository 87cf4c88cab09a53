/** Classes with flattened method tables (middleclass.lua). */
module LuaMiddleclass {
  import opened Basics

  /** Any value but nil. */
  type Method = int

  type Dict = map<string, Method>

  /** A class is known by its place in the order of creation; its methods for instances are in `dict`
      (__instanceDict). */
  datatype Class = Class(super: Option<nat>, dict: Dict, declared: Dict, subclasses: set<nat>)

  /** Table lookup, nil when there is no such field; assigning nil removes the field. */
  function Field(d: Dict, x: string): Option<Method> {
    if x in d then Some(d[x]) else None
  }

  function WithField(d: Dict, x: string, f: Option<Method>): Dict {
    if f.None? then d - {x} else d[x := f.value]
  }

  /** A superclass is older than its subclasses, and has them in its set. */
  ghost predicate Forest(cs: seq<Class>) {
    && (forall d :: 0 <= d < |cs| && cs[d].super.Some? ==>
          cs[d].super.value < d && d in cs[cs[d].super.value].subclasses)
    && (forall c :: 0 <= c < |cs| ==> Parent(cs, c, cs[c].subclasses))
  }

  ghost predicate Parent(cs: seq<Class>, c: nat, subclasses: set<nat>) {
    forall d <- subclasses :: d < |cs| && cs[d].super == Some(c)
  }

  /** The nearest declaration of a name on the way from a class up through its superclasses. */
  ghost function Nearest(cs: seq<Class>, c: nat, x: string): Option<Method>
    requires c < |cs| && Forest(cs)
    decreases c
  {
    if x in cs[c].declared then Some(cs[c].declared[x])
    else if cs[c].super.Some? then Nearest(cs, cs[c].super.value, x)
    else None
  }

  /** The flattened table has, for the name, what a search up the superclasses would find. */
  ghost predicate Agrees(cs: seq<Class>, c: nat, x: string)
    requires c < |cs| && Forest(cs)
  {
    Field(cs[c].dict, x) == Nearest(cs, c, x)
  }

  /** __index is treated apart, and is not part of this model. */
  ghost predicate Flattened(cs: seq<Class>)
    requires Forest(cs)
  {
    forall c, x :: 0 <= c < |cs| && x != "__index" ==> Agrees(cs, c, x)
  }

  ghost predicate NoIndex(cs: seq<Class>) {
    forall c :: 0 <= c < |cs| ==> "__index" !in cs[c].dict
  }

  /** d is c, or inherits the name from c. */
  ghost predicate Inherits(cs: seq<Class>, c: nat, d: nat, x: string)
    requires c < |cs| && d < |cs| && Forest(cs)
    decreases d
  {
    d == c || (x !in cs[d].declared && cs[d].super.Some? && Inherits(cs, c, cs[d].super.value, x))
  }

  /** What a class inherits, it has through one of the subclasses. */
  lemma {:induction false} InheritsThrough(cs: seq<Class>, c: nat, d: nat, x: string) returns (e: nat)
    requires c < |cs| && d < |cs| && Forest(cs)
    requires Inherits(cs, c, d, x) && d != c
    ensures e in cs[c].subclasses && e < |cs| && x !in cs[e].declared && Inherits(cs, e, d, x)
    decreases d
  {
    var s := cs[d].super.value;
    if s == c {
      e := d;
    } else {
      e := InheritsThrough(cs, c, s, x);
    }
  }

  lemma {:induction false} InheritsUp(cs: seq<Class>, c: nat, e: nat, d: nat, x: string)
    requires c < |cs| && d < |cs| && e < |cs| && Forest(cs)
    requires e in cs[c].subclasses && x !in cs[e].declared && Inherits(cs, e, d, x)
    ensures Inherits(cs, c, d, x)
    decreases d
  {
    if d != e {
      InheritsUp(cs, c, e, cs[d].super.value, x);
    }
  }

  /** The same classes with other method tables. */
  ghost predicate SameClasses(cs: seq<Class>, cs2: seq<Class>) {
    && |cs2| == |cs|
    && forall c :: 0 <= c < |cs| ==> cs2[c] == cs[c].(dict := cs2[c].dict)
  }

  lemma {:induction false} SameInherits(cs: seq<Class>, cs2: seq<Class>, c: nat, d: nat, x: string)
    requires Forest(cs) && Forest(cs2) && SameClasses(cs, cs2) && c < |cs| && d < |cs|
    ensures Inherits(cs, c, d, x) == Inherits(cs2, c, d, x)
    ensures Nearest(cs, d, x) == Nearest(cs2, d, x)
    decreases d
  {
    if cs[d].super.Some? {
      SameInherits(cs, cs2, c, cs[d].super.value, x);
    }
  }

  /** Only the tables of the classes `which` have changed, and only in the name x, which is now f. */
  ghost predicate Propagated(cs: seq<Class>, cs2: seq<Class>, which: set<nat>, x: string, f: Option<Method>) {
    && SameClasses(cs, cs2)
    && forall d :: 0 <= d < |cs| ==> cs2[d].dict == if d in which then WithField(cs[d].dict, x, f) else cs[d].dict
  }

  lemma PropagatedFirst(cs: seq<Class>, c: nat, x: string, f: Option<Method>)
    requires Forest(cs) && c < |cs|
    ensures var cs2 := cs[c := cs[c].(dict := WithField(cs[c].dict, x, f))];
            Forest(cs2) && Propagated(cs, cs2, {c}, x, f)
    ensures {c} <= Heirs(cs, c, x)
  {
  }

  lemma Children(cs: seq<Class>, c: nat)
    requires Forest(cs) && c < |cs|
    ensures forall e <- cs[c].subclasses :: c < e < |cs|
  {
    forall e <- cs[c].subclasses
      ensures c < e < |cs|
    {
      assert Parent(cs, c, cs[c].subclasses);
    }
  }

  lemma PropagatedNoIndex(cs: seq<Class>, cs2: seq<Class>, which: set<nat>, x: string, f: Option<Method>)
    requires NoIndex(cs) && Propagated(cs, cs2, which, x, f) && x != "__index"
    ensures NoIndex(cs2)
  {
  }

  ghost function Heirs(cs: seq<Class>, c: nat, x: string): set<nat>
    requires c < |cs| && Forest(cs)
  {
    set d | 0 <= d < |cs| && Inherits(cs, c, d, x)
  }

  lemma PropagatedMore(cs: seq<Class>, cs1: seq<Class>, cs2: seq<Class>, which: set<nat>, e: nat, x: string,
                       f: Option<Method>)
    requires Forest(cs) && Forest(cs1) && e < |cs|
    requires Propagated(cs, cs1, which, x, f)
    requires Propagated(cs1, cs2, Heirs(cs1, e, x), x, f)
    ensures Propagated(cs, cs2, which + Heirs(cs, e, x), x, f)
  {
    forall d: nat | d < |cs|
      ensures d in Heirs(cs1, e, x) <==> d in Heirs(cs, e, x)
    {
      SameInherits(cs, cs1, e, d, x);
    }
    hide Forest, Inherits;
  }

  lemma HeirsUp(cs: seq<Class>, c: nat, e: nat, x: string)
    requires Forest(cs) && c < |cs| && e < |cs| && e in cs[c].subclasses && x !in cs[e].declared
    ensures Heirs(cs, e, x) <= Heirs(cs, c, x)
  {
    forall d <- Heirs(cs, e, x)
      ensures d in Heirs(cs, c, x)
    {
      InheritsUp(cs, c, e, d, x);
    }
  }

  lemma HeirsAll(cs: seq<Class>, c: nat, x: string, which: set<nat>)
    requires Forest(cs) && c < |cs| && c in which
    requires forall e <- cs[c].subclasses :: e < |cs| && (x !in cs[e].declared ==> Heirs(cs, e, x) <= which)
    ensures Heirs(cs, c, x) <= which
  {
    forall d <- Heirs(cs, c, x)
      ensures d in which
    {
      if d != c {
        var e := InheritsThrough(cs, c, d, x);
        assert d in Heirs(cs, e, x);
      }
    }
  }

  /** What a declaration of the name in class c changes: the heirs of c have it, and all others still agree. */
  lemma {:induction false} HeirsNearest(cs: seq<Class>, c: nat, d: nat, x: string)
    requires Forest(cs) && c < |cs| && d < |cs| && Inherits(cs, c, d, x)
    ensures Nearest(cs, d, x) == Nearest(cs, c, x)
    decreases d
  {
    if d != c {
      HeirsNearest(cs, c, cs[d].super.value, x);
    }
  }

  lemma {:induction false} OthersNearest(cs: seq<Class>, cs2: seq<Class>, c: nat, d: nat, x: string, y: string)
    requires Forest(cs) && Forest(cs2) && |cs| == |cs2| && c < |cs| && d < |cs|
    requires forall i :: 0 <= i < |cs| ==> cs2[i].super == cs[i].super && (i != c ==> cs2[i].declared == cs[i].declared)
    requires forall z :: z != x ==> Field(cs2[c].declared, z) == Field(cs[c].declared, z)
    requires y != x || !Inherits(cs2, c, d, x)
    ensures Nearest(cs2, d, y) == Nearest(cs, d, y)
    decreases d
  {
    assert Field(cs2[d].declared, y) == Field(cs[d].declared, y);
    if y !in cs[d].declared && cs[d].super.Some? {
      OthersNearest(cs, cs2, c, cs[d].super.value, x, y);
    }
  }

  class Classes {
    var classes: seq<Class>

    ghost predicate Valid()
      reads this
    {
      Forest(classes) && Flattened(classes) && NoIndex(classes)
    }

    constructor ()
      ensures Valid() && classes == []
    {
      classes := [];
    }

    /** The name is set in the class and, through the subclasses that do not declare it, in all its heirs. */
    method PropagateInstanceMethod(c: nat, x: string, f: Option<Method>)
      requires c < |classes| && Forest(classes) && x != "__index"
      modifies this
      ensures Forest(classes)
      ensures Propagated(old(classes), classes, Heirs(old(classes), c, x), x, f)
      decreases |classes| - c
    {
      hide Propagated, Inherits, Heirs, Forest;
      ghost var cs := classes;
      classes := classes[c := classes[c].(dict := WithField(classes[c].dict, x, f))];
      PropagatedFirst(cs, c, x, f);
      Children(cs, c);
      var subclasses := classes[c].subclasses;
      var left := subclasses;
      ghost var which := {c};
      while left != {}
        invariant left <= subclasses == cs[c].subclasses
        invariant Forest(classes) && Propagated(cs, classes, which, x, f)
        invariant c in which && which <= Heirs(cs, c, x)
        invariant forall e <- subclasses :: e !in left && x !in cs[e].declared ==> Heirs(cs, e, x) <= which
        decreases left
      {
        var e :| e in left;
        left := left - {e};
        PropagatedClasses(cs, classes, which, x, f);
        if x !in classes[e].declared {
          ghost var cs1 := classes;
          PropagateInstanceMethod(e, x, f);
          PropagatedMore(cs, cs1, classes, which, e, x, f);
          HeirsUp(cs, c, e, x);
          which := which + Heirs(cs, e, x);
        }
      }
      HeirsAll(cs, c, x, which);
      assert which == Heirs(cs, c, x);
    }

    /** `aClass[name] = f`: declares the method, or takes the declaration back when f is nil. */
    method DeclareInstanceMethod(c: nat, x: string, f: Option<Method>)
      requires Valid() && c < |classes| && x != "__index"
      modifies this
      ensures Valid() && Declared(old(classes), classes, c, x, f)
    {
      ghost var cs := classes;
      classes := classes[c := classes[c].(declared := WithField(classes[c].declared, x, f))];
      ghost var cs1 := classes;
      assert Forest(cs1);
      var g := f;
      if f.None? && classes[c].super.Some? {
        g := Field(classes[classes[c].super.value].dict, x);
      }
      DeclaredNearest(cs, cs1, c, x, f);
      PropagateInstanceMethod(c, x, g);
      PropagatedNoIndex(cs1, classes, Heirs(cs1, c, x), x, g);
      FlattenedAgain(cs, cs1, classes, c, x, g);
    }

    /** Declares every method of the mixin but `included` and `static`. */
    method IncludeMixin(c: nat, mixin: Dict)
      requires Valid() && c < |classes| && (mixin.Keys - {"included", "static"}) !! RESERVED
      modifies this
      ensures Valid() && Included(old(classes), classes, c, mixin - {"included", "static"})
    {
      ghost var methods := mixin - {"included", "static"};
      var left := mixin.Keys;
      while left != {}
        invariant left <= mixin.Keys
        invariant Valid() && Included(old(classes), classes, c, methods - left)
        decreases left
      {
        var x :| x in left;
        if x != "included" && x != "static" {
          ghost var cs := classes;
          DeclareInstanceMethod(c, x, Some(mixin[x]));
          IncludedMore(old(classes), cs, classes, c, methods - left, x, mixin[x]);
          assert (methods - left)[x := mixin[x]] == methods - (left - {x});
        } else {
          assert methods - left == methods - (left - {x});
        }
        left := left - {x};
      }
      assert methods - left == methods;
    }

    /** A class without a superclass, with the methods of a mixin. */
    method CreateClass(mixin: Dict) returns (c: nat)
      requires Valid() && (mixin.Keys - {"included", "static"}) !! RESERVED
      modifies this
      ensures Valid() && c == |old(classes)| && |classes| == c + 1
      ensures Included(old(classes) + [Class(None, map[], map[], {})], classes, c, mixin - {"included", "static"})
    {
      c := |classes|;
      ghost var cs := classes;
      classes := classes + [Class(None, map[], map[], {})];
      assert Forest(classes);
      forall d: nat, x | d < |classes| && x != "__index"
        ensures Agrees(classes, d, x)
      {
        if d < c {
          assert Agrees(cs, d, x);
          OlderNearest(cs, classes, d, x);
        }
      }
      IncludeMixin(c, mixin);
    }

    /** A subclass starts with all the methods of its superclass, and declares its own initialize. */
    method Subclass(c: nat, initialize: Method) returns (sub: nat)
      requires Valid() && c < |classes|
      modifies this
      ensures Valid() && sub == |old(classes)| && |classes| == sub + 1
      ensures Declared(Extended(old(classes), c), classes, sub, "initialize", Some(initialize))
    {
      sub := |classes|;
      ghost var cs := classes;
      classes := Extended(classes, c);
      ghost var cs1 := classes;
      ExtendedForest(cs, c);
      var left := classes[c].dict.Keys;
      while left != {}
        invariant left <= cs[c].dict.Keys
        invariant Forest(classes) && SameClasses(cs1, classes)
        invariant forall d :: 0 <= d < sub ==> classes[d] == cs1[d]
        invariant classes[sub].dict == cs[c].dict - left
        decreases left
      {
        var x :| x in left;
        OnlyHeir(classes, sub, x);
        PropagateInstanceMethod(sub, x, Some(classes[c].dict[x]));
        left := left - {x};
      }
      assert classes[sub].dict == cs[c].dict;
      CopiedFlattened(cs, cs1, classes, c);
      DeclareInstanceMethod(sub, "initialize", Some(initialize));
    }

    /** `class(name, super)`: a subclass, or a class of its own with the methods of the default mixin, whose `static` is
        skipped. `initialize` is that of the mixin, and `wrapper` the one that a subclass gets. */
    method NewClass(super: Option<nat>, tostring: Method, initialize: Method, isInstanceOf: Method, statics: Method,
                    wrapper: Method)
      returns (c: nat)
      requires Valid() && (super.Some? ==> super.value < |classes|)
      modifies this
      ensures Valid() && c == |old(classes)| && |classes| == c + 1 && classes[c].super == super
      ensures classes[c].declared ==
              if super.Some? then map["initialize" := wrapper]
              else map["__tostring" := tostring, "initialize" := initialize, "isInstanceOf" := isInstanceOf]
      ensures forall d :: 0 <= d < c ==> classes[d].declared == old(classes)[d].declared
      ensures forall x :: x != "__index" ==> Agrees(classes, c, x)
    {
      if super.Some? {
        c := Subclass(super.value, wrapper);
      } else {
        var mixin := map["__tostring" := tostring, "initialize" := initialize, "isInstanceOf" := isInstanceOf,
                         "static" := statics];
        c := CreateClass(mixin);
      }
    }
  }

  /** The fields that a class has itself; assigning one of them does not declare a method. */
  const RESERVED := {"name", "super", "static", "__instanceDict", "__declaredMethods", "subclasses", "__index"}

  ghost predicate Included(cs: seq<Class>, cs2: seq<Class>, c: nat, methods: Dict)
    requires c < |cs|
  {
    SameClasses(cs[c := cs[c].(declared := cs[c].declared + methods)], cs2)
  }

  lemma IncludedMore(cs: seq<Class>, cs1: seq<Class>, cs2: seq<Class>, c: nat, methods: Dict, x: string, f: Method)
    requires c < |cs| == |cs1| && Included(cs, cs1, c, methods) && Declared(cs1, cs2, c, x, Some(f))
    ensures Included(cs, cs2, c, methods[x := f])
  {
    assert cs[c].declared + methods[x := f] == (cs[c].declared + methods)[x := f];
  }

  /** One more class, registered in its superclass. */
  function Extended(cs: seq<Class>, c: nat): seq<Class>
    requires c < |cs|
  {
    cs[c := cs[c].(subclasses := cs[c].subclasses + {|cs|})] + [Class(Some(c), map[], map[], {})]
  }

  lemma ExtendedForest(cs: seq<Class>, c: nat)
    requires Forest(cs) && c < |cs|
    ensures Forest(Extended(cs, c))
  {
    var cs2 := Extended(cs, c);
    forall d: nat | d < |cs2|
      ensures Parent(cs2, d, cs2[d].subclasses)
    {
      if d < |cs| {
        assert Parent(cs, d, cs[d].subclasses);
      }
    }
  }

  /** Classes of the same declarations, with younger ones added. */
  lemma {:induction false} OlderNearest(cs: seq<Class>, cs2: seq<Class>, d: nat, x: string)
    requires Forest(cs) && Forest(cs2) && d < |cs| <= |cs2|
    requires forall i :: 0 <= i < |cs| ==> cs2[i].super == cs[i].super && cs2[i].declared == cs[i].declared
    ensures Nearest(cs2, d, x) == Nearest(cs, d, x)
    decreases d
  {
    if cs[d].super.Some? {
      OlderNearest(cs, cs2, cs[d].super.value, x);
    }
  }

  /** A class without subclasses is its only heir. */
  lemma OnlyHeir(cs: seq<Class>, c: nat, x: string)
    requires Forest(cs) && c < |cs| && cs[c].subclasses == {}
    ensures Heirs(cs, c, x) == {c}
  {
    forall d <- Heirs(cs, c, x)
      ensures d == c
    {
      if d != c {
        var _ := InheritsThrough(cs, c, d, x);
      }
    }
    assert c in Heirs(cs, c, x);
  }

  lemma CopiedFlattened(cs: seq<Class>, cs1: seq<Class>, cs2: seq<Class>, c: nat)
    requires Forest(cs) && Flattened(cs) && c < |cs|
    requires cs1 == Extended(cs, c) && Forest(cs2) && SameClasses(cs1, cs2)
    requires forall d :: 0 <= d < |cs| ==> cs2[d] == cs1[d]
    requires cs2[|cs|].dict == cs[c].dict
    ensures Flattened(cs2)
  {
    forall d: nat, x | d < |cs2| && x != "__index"
      ensures Agrees(cs2, d, x)
    {
      var e := if d < |cs| then d else c;
      assert Agrees(cs, e, x);
      OlderNearest(cs, cs2, e, x);
    }
  }

  /** The new declaration, and everything else about the classes but their method tables as before. */
  ghost predicate Declared(cs: seq<Class>, cs2: seq<Class>, c: nat, x: string, f: Option<Method>)
    requires c < |cs|
  {
    SameClasses(cs[c := cs[c].(declared := WithField(cs[c].declared, x, f))], cs2)
  }

  lemma DeclaredNearest(cs: seq<Class>, cs1: seq<Class>, c: nat, x: string, f: Option<Method>)
    requires Forest(cs) && Flattened(cs) && c < |cs| && x != "__index"
    requires cs1 == cs[c := cs[c].(declared := WithField(cs[c].declared, x, f))] && Forest(cs1)
    ensures Nearest(cs1, c, x) ==
            if f.None? && cs[c].super.Some? then Field(cs[cs[c].super.value].dict, x) else f
  {
    if cs[c].super.Some? {
      var s := cs[c].super.value;
      NotBelow(cs1, c, s, x);
      OthersNearest(cs, cs1, c, s, x, x);
      assert Agrees(cs, s, x);
    }
  }

  /** An older class does not inherit from a younger one. */
  lemma {:induction false} NotBelow(cs: seq<Class>, c: nat, d: nat, x: string)
    requires Forest(cs) && d < c < |cs|
    ensures !Inherits(cs, c, d, x)
    decreases d
  {
    if cs[d].super.Some? {
      NotBelow(cs, c, cs[d].super.value, x);
    }
  }

  lemma FlattenedAgain(cs: seq<Class>, cs1: seq<Class>, cs2: seq<Class>, c: nat, x: string, g: Option<Method>)
    requires Forest(cs) && Flattened(cs) && Forest(cs1) && Forest(cs2) && c < |cs| == |cs1|
    requires forall i :: 0 <= i < |cs| ==>
               cs1[i] == cs[i].(declared := cs1[i].declared) && (i != c ==> cs1[i].declared == cs[i].declared)
    requires forall z :: z != x ==> Field(cs1[c].declared, z) == Field(cs[c].declared, z)
    requires Nearest(cs1, c, x) == g && Propagated(cs1, cs2, Heirs(cs1, c, x), x, g)
    ensures Flattened(cs2)
  {
    hide Forest, Inherits;
    forall d: nat, y | d < |cs2| && y != "__index"
      ensures Agrees(cs2, d, y)
    {
      assert Agrees(cs, d, y);
      SameInherits(cs1, cs2, c, d, y);
      if y == x && Inherits(cs1, c, d, x) {
        HeirsNearest(cs1, c, d, x);
      } else {
        OthersNearest(cs, cs1, c, d, x, y);
      }
    }
  }

  lemma PropagatedClasses(cs: seq<Class>, cs2: seq<Class>, which: set<nat>, x: string, f: Option<Method>)
    requires Propagated(cs, cs2, which, x, f)
    ensures SameClasses(cs, cs2)
  {
  }
}
