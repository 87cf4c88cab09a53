/** From an infix to a postfix expression (re2post in nfa.c). */
module RegexPostfix {
  import opened Basics
  import opened RegexLang
  import opened RegexBuild

  // ----- the infix grammar -----

  datatype Atom = Char(c: Byte) | Group(t: Alternation)
  datatype Piece = Piece(atom: Atom, ops: Text)
  datatype Branch = One(p: Piece) | More(front: Branch, p: Piece)
  datatype Alternation = Just(b: Branch) | Or(b: Branch, rest: Alternation)

  predicate IsOp(c: Byte) { c == '*' || c == '+' || c == '?' }

  predicate IsPlain(c: Byte) { c != '(' && c != ')' && c != '|' && !IsOp(c) }

  predicate ValidA(a: Atom) {
    match a
    case Char(c) => IsPlain(c)
    case Group(t) => ValidT(t)
  }

  predicate ValidP(p: Piece) { ValidA(p.atom) && forall i :: 0 <= i < |p.ops| ==> IsOp(p.ops[i]) }

  predicate ValidB(b: Branch) {
    match b
    case One(p) => ValidP(p)
    case More(front, p) => ValidB(front) && ValidP(p)
  }

  predicate ValidT(t: Alternation) {
    match t
    case Just(b) => ValidB(b)
    case Or(b, rest) => ValidB(b) && ValidT(rest)
  }

  /** The infix text. */
  function ShowA(a: Atom): Text {
    match a
    case Char(c) => [c]
    case Group(t) => "(" + ShowT(t) + ")"
  }

  function ShowP(p: Piece): Text { ShowA(p.atom) + p.ops }

  function ShowB(b: Branch): Text {
    match b
    case One(p) => ShowP(p)
    case More(front, p) => ShowB(front) + ShowP(p)
  }

  function ShowT(t: Alternation): Text {
    match t
    case Just(b) => ShowB(b)
    case Or(b, rest) => ShowB(b) + "|" + ShowT(rest)
  }

  /** The expression that the text denotes. */
  function RegA(a: Atom): Regex {
    match a
    case Char(c) => Lit(c)
    case Group(t) => RegT(t)
  }

  function Applied(r: Regex, ops: Text): Regex {
    if ops == [] then r
    else
      var e := Applied(r, ops[..|ops| - 1]);
      var c := ops[|ops| - 1];
      if c == '*' then Star(e) else if c == '+' then RegexLang.Plus(e) else Quest(e)
  }

  function RegP(p: Piece): Regex { Applied(RegA(p.atom), p.ops) }

  function RegB(b: Branch): Regex {
    match b
    case One(p) => RegP(p)
    case More(front, p) => Cat(RegB(front), RegP(p))
  }

  function RegT(t: Alternation): Regex {
    match t
    case Just(b) => RegB(b)
    case Or(b, rest) => Alt(RegB(b), RegT(rest))
  }

  /** How deep groups are nested. */
  function DepthA(a: Atom): nat {
    match a
    case Char(_) => 0
    case Group(t) => 1 + DepthT(t)
  }

  function DepthB(b: Branch): nat {
    match b
    case One(p) => DepthA(p.atom)
    case More(front, p) => Max(DepthB(front), DepthA(p.atom))
  }

  function DepthT(t: Alternation): nat {
    match t
    case Just(b) => DepthB(b)
    case Or(b, rest) => Max(DepthB(b), DepthT(rest))
  }

  // ----- postfix texts -----

  function Post(r: Regex): Text {
    match r
    case Lit(c) => [c]
    case Cat(a, b) => Post(a) + Post(b) + "."
    case Alt(a, b) => Post(a) + Post(b) + "|"
    case Star(a) => Post(a) + "*"
    case Plus(a) => Post(a) + "+"
    case Quest(a) => Post(a) + "?"
  }

  /** A literal that is an operator of postfix texts would be taken for it. */
  predicate PlainLiterals(r: Regex) {
    match r
    case Lit(c) => c != '.' && c != '|' && !IsOp(c)
    case Cat(a, b) => PlainLiterals(a) && PlainLiterals(b)
    case Alt(a, b) => PlainLiterals(a) && PlainLiterals(b)
    case _ => PlainLiterals(r.a)
  }

  function DecodeFrom(stack: seq<Regex>, post: Text): Option<seq<Regex>>
    decreases |post|
  {
    if post == [] then Some(stack)
    else
      var next := Push(stack, post[0]);
      if next.None? then None else DecodeFrom(next.value, post[1..])
  }

  lemma {:induction false} DecodeFromAppend(stack: seq<Regex>, a: Text, b: Text)
    ensures var r := DecodeFrom(stack, a);
            DecodeFrom(stack, a + b) == if r.None? then None else DecodeFrom(r.value, b)
    decreases |a|
  {
    if a == [] {
      assert a + b == b;
    } else {
      assert (a + b)[1..] == a[1..] + b;
      var next := Push(stack, a[0]);
      if next.Some? {
        DecodeFromAppend(next.value, a[1..], b);
      }
    }
  }

  lemma DecodeFromOne(stack: seq<Regex>, c: Byte)
    ensures DecodeFrom(stack, [c]) == Push(stack, c)
  {
    hide Push;
    assert [c][1..] == [];
    var next := Push(stack, c);
    if next.Some? {
      assert DecodeFrom(next.value, []) == next;
    }
  }

  lemma {:induction false} DecodeIsFrom(post: Text)
    ensures Decode(post) == DecodeFrom([], post)
    decreases |post|
  {
    hide Push;
    if post != [] {
      var front, last := post[..|post| - 1], post[|post| - 1];
      DecodeIsFrom(front);
      DecodeFromAppend([], front, [last]);
      assert front + [last] == post;
      if Decode(front).Some? {
        DecodeFromOne(Decode(front).value, last);
      }
    }
  }

  /** Reading the postfix text of r pushes r. */
  lemma {:induction false} DecodePost(stack: seq<Regex>, r: Regex)
    requires PlainLiterals(r)
    ensures DecodeFrom(stack, Post(r)) == Some(stack + [r])
    decreases r
  {
    match r
    case Lit(c) =>
      DecodeFromOne(stack, c);
    case Cat(a, b) => DecodeTwo(stack, a, b, '.', r);
    case Alt(a, b) => DecodeTwo(stack, a, b, '|', r);
    case Star(a) => DecodeOne(stack, a, '*', r);
    case Plus(a) => DecodeOne(stack, a, '+', r);
    case Quest(a) => DecodeOne(stack, a, '?', r);
  }

  lemma {:induction false} DecodeTwo(stack: seq<Regex>, a: Regex, b: Regex, c: Byte, r: Regex)
    requires PlainLiterals(a) && PlainLiterals(b)
    requires (c == '.' && r == Cat(a, b)) || (c == '|' && r == Alt(a, b))
    ensures DecodeFrom(stack, Post(a) + Post(b) + [c]) == Some(stack + [r])
    decreases r, 0
  {
    DecodePost(stack, a);
    DecodeFromAppend(stack, Post(a), Post(b));
    DecodePost(stack + [a], b);
    DecodeFromAppend(stack, Post(a) + Post(b), [c]);
    var s := stack + [a] + [b];
    assert s[..|s| - 2] == stack && s[|s| - 2] == a && s[|s| - 1] == b;
    DecodeFromOne(s, c);
  }

  lemma {:induction false} DecodeOne(stack: seq<Regex>, a: Regex, c: Byte, r: Regex)
    requires PlainLiterals(a)
    requires (c == '*' && r == Star(a)) || (c == '+' && r == RegexLang.Plus(a)) || (c == '?' && r == Quest(a))
    ensures DecodeFrom(stack, Post(a) + [c]) == Some(stack + [r])
    decreases r, 0
  {
    DecodePost(stack, a);
    DecodeFromAppend(stack, Post(a), [c]);
    var s := stack + [a];
    assert s[..|s| - 1] == stack && s[|s| - 1] == a;
    DecodeFromOne(s, c);
  }

  // ----- what the translator does with each character -----

  datatype Paren = Paren(nalt: nat, natom: nat)

  /** The output so far, the alternatives and atoms of the current group, and those of the groups around it. */
  datatype St = St(dst: Text, nalt: nat, natom: nat, paren: seq<Paren>)

  const INITIAL := St([], 0, 0, [])
  const MAX_DEPTH: nat := 100
  const BUF_SIZE: nat := 8000

  function Repeat(c: Byte, n: nat): (s: Text)
    ensures |s| == n
  {
    if n == 0 then [] else Repeat(c, n - 1) + [c]
  }

  /** The concatenations still owed for the atoms of a branch. */
  function DotCount(natom: nat): nat { if natom == 0 then 0 else natom - 1 }

  function Dots(natom: nat): Text { Repeat('.', DotCount(natom)) }

  /** A new atom begins: at most two atoms wait for their concatenation. */
  function Begin(st: St): St {
    if st.natom > 1 then st.(dst := st.dst + ".", natom := st.natom - 1) else st
  }

  function Scan1(st: St, c: Byte): Option<St> {
    if c == '(' then
      var s := Begin(st);
      if |s.paren| >= MAX_DEPTH then None else Some(St(s.dst, 0, 0, s.paren + [Paren(s.nalt, s.natom)]))
    else if c == '|' then
      if st.natom == 0 then None else Some(St(st.dst + Dots(st.natom), st.nalt + 1, 0, st.paren))
    else if c == ')' then
      if st.paren == [] || st.natom == 0 then None
      else
        var p := st.paren[|st.paren| - 1];
        Some(St(st.dst + Dots(st.natom) + Repeat('|', st.nalt), p.nalt, p.natom + 1, st.paren[..|st.paren| - 1]))
    else if IsOp(c) then
      if st.natom == 0 then None else Some(st.(dst := st.dst + [c]))
    else
      var s := Begin(st);
      Some(s.(dst := s.dst + [c], natom := s.natom + 1))
  }

  function Scan(st: St, re: Text): Option<St> {
    if re == [] then Some(st)
    else
      var s := Scan(st, re[..|re| - 1]);
      if s.None? then None else Scan1(s.value, re[|re| - 1])
  }

  /** The translation of a whole text; the length test comes first. */
  function Translate(re: Text): Option<Text> {
    if |re| >= BUF_SIZE / 2 then None
    else
      var s := Scan(INITIAL, re);
      if s.None? || s.value.paren != [] then None
      else Some(s.value.dst + Dots(s.value.natom) + Repeat('|', s.value.nalt))
  }

  // ----- the buffers suffice -----

  /** Operators still owed by the groups around the current one. */
  function OwedOutside(paren: seq<Paren>): nat {
    if paren == [] then 0
    else
      var p := paren[|paren| - 1];
      OwedOutside(paren[..|paren| - 1]) + p.nalt + p.natom
  }

  function Owed(st: St): nat { st.nalt + DotCount(st.natom) + OwedOutside(st.paren) }

  /** Two atoms wait at most, one around a group; output and debt stay below twice the input. */
  ghost predicate Bounded(st: St, n: nat) {
    && st.natom <= 2
    && (forall i :: 0 <= i < |st.paren| ==> st.paren[i].natom <= 1)
    && |st.dst| + Owed(st) <= 2 * n
  }

  lemma BoundedBegin(st: St, n: nat)
    requires Bounded(st, n)
    ensures var s := Begin(st);
            s.natom <= 1 && s.paren == st.paren && s.nalt == st.nalt && |s.dst| + Owed(s) <= 2 * n
  {
  }

  lemma OwedPush(paren: seq<Paren>, p: Paren)
    ensures OwedOutside(paren + [p]) == OwedOutside(paren) + p.nalt + p.natom
  {
    assert (paren + [p])[..|paren|] == paren;
  }

  lemma BoundedStep(st: St, c: Byte, n: nat)
    requires Bounded(st, n) && Scan1(st, c).Some?
    ensures Bounded(Scan1(st, c).value, n + 1)
  {
    hide Repeat, OwedOutside;
    BoundedBegin(st, n);
    if c == '(' {
      var s := Begin(st);
      OwedPush(s.paren, Paren(s.nalt, s.natom));
    } else if c == ')' {
      var k := |st.paren| - 1;
      assert st.paren == st.paren[..k] + [st.paren[k]];
      OwedPush(st.paren[..k], st.paren[k]);
    }
  }

  lemma BoundedInitial()
    ensures Bounded(INITIAL, 0)
  {
  }

  lemma BoundedRoom(st: St, n: nat)
    requires Bounded(st, n)
    ensures |st.dst| + Owed(st) <= 2 * n
  {
  }

  /** The variables of re2post: the static buffer with its write position, the counts, and the stack of groups. */
  class Translator {
    const buf: array<Byte>
    const paren: array<Paren>
    var p: nat
    var dst: nat
    var nalt: nat
    var natom: nat

    ghost predicate Valid()
      reads this
    {
      buf.Length == BUF_SIZE && paren.Length == MAX_DEPTH && p <= MAX_DEPTH && dst <= BUF_SIZE
    }

    ghost function State(): St
      requires Valid()
      reads this, buf, paren
    {
      St(buf[..dst], nalt, natom, paren[..p])
    }

    constructor ()
      ensures Valid() && fresh(buf) && fresh(paren) && State() == INITIAL
    {
      buf := new Byte[BUF_SIZE];
      paren := new Paren[MAX_DEPTH];
      p, dst, nalt, natom := 0, 0, 0, 0;
    }

    method Put(c: Byte)
      requires Valid() && dst < BUF_SIZE
      modifies this`dst, buf
      ensures Valid() && dst == old(dst) + 1
      ensures State() == old(State()).(dst := old(State()).dst + [c])
    {
      buf[dst] := c;
      dst := dst + 1;
    }

    /** `while(--natom>0) *dst++ = '.'` after a test that natom is not 0. */
    method PutDots()
      requires Valid() && dst + DotCount(natom) <= BUF_SIZE && natom > 0
      modifies this`dst, this`natom, buf
      ensures Valid() && dst == old(dst) + DotCount(old(natom))
      ensures State() == old(State()).(dst := old(State()).dst + Dots(old(natom)), natom := 0)
    {
      ghost var k, natom0 := 0, natom;
      natom := natom - 1;
      while natom > 0
        invariant Valid() && dst == old(dst) + k && natom + k == natom0 - 1
        invariant State() == old(State()).(dst := old(State()).dst + Repeat('.', k), natom := natom)
      {
        Put('.');
        natom := natom - 1;
        k := k + 1;
      }
    }

    /** `for(; nalt > 0; nalt--) *dst++ = '|'`. */
    method PutBars()
      requires Valid() && dst + nalt <= BUF_SIZE
      modifies this`dst, this`nalt, buf
      ensures Valid()
      ensures State() == old(State()).(dst := old(State()).dst + Repeat('|', old(nalt)), nalt := 0)
    {
      ghost var nalt0 := nalt;
      while nalt > 0
        invariant Valid() && nalt <= nalt0 && dst == old(dst) + nalt0 - nalt
        invariant State() == old(State()).(dst := old(State()).dst + Repeat('|', nalt0 - nalt), nalt := nalt)
      {
        Put('|');
        nalt := nalt - 1;
      }
    }

    method BeginAtom()
      requires Valid() && dst < BUF_SIZE
      modifies this`dst, this`natom, buf
      ensures Valid() && State() == Begin(old(State()))
      ensures dst <= old(dst) + 1
    {
      if natom > 1 {
        natom := natom - 1;
        Put('.');
      }
    }

    /** One character of the infix text, with room for two characters and all that is owed. */
    method Next(c: Byte) returns (ok: bool)
      requires Valid() && dst + Owed(State()) + 2 <= BUF_SIZE
      modifies this, buf, paren
      ensures Valid()
      ensures ok <==> Scan1(old(State()), c).Some?
      ensures ok ==> Some(State()) == Scan1(old(State()), c)
    {
      if c == '(' {
        BeginAtom();
        if p >= MAX_DEPTH {
          return false;
        }
        paren[p] := Paren(nalt, natom);
        p := p + 1;
        assert paren[..p] == old(paren[..p]) + [Paren(nalt, natom)];
        nalt, natom := 0, 0;
      } else if c == '|' {
        if natom == 0 {
          return false;
        }
        PutDots();
        nalt := nalt + 1;
      } else if c == ')' {
        if p == 0 || natom == 0 {
          return false;
        }
        PutDots();
        PutBars();
        assert paren[..p] == old(paren[..p]);
        p := p - 1;
        assert paren[..p] == old(paren[..p])[..p] && paren[p] == old(paren[..p])[p];
        nalt, natom := paren[p].nalt, paren[p].natom + 1;
      } else if IsOp(c) {
        if natom == 0 {
          return false;
        }
        Put(c);
      } else {
        BeginAtom();
        Put(c);
        natom := natom + 1;
      }
      ok := true;
    }

    /** What is still owed at the end of the text. Without an atom the C loop counts natom down to -1 and writes
        nothing. */
    method Finish() returns (post: Text)
      requires Valid() && dst + Owed(State()) < BUF_SIZE
      modifies this, buf
      ensures post == old(State()).dst + Dots(old(natom)) + Repeat('|', old(nalt))
      ensures |post| < BUF_SIZE
    {
      if natom > 0 {
        PutDots();
      }
      PutBars();
      post := buf[..dst];
    }
  }

  /** re2post. The writes stay inside the buffer of 8000 bytes, with room for the final NUL, and inside the stack of
      100 groups. */
  method Re2Post(re: Text) returns (r: Option<Text>)
    ensures r == Translate(re)
    ensures r.Some? ==> |r.value| < 8000
    ensures |re| >= 4000 ==> r.None?
    ensures forall t :: ValidT(t) && ShowT(t) == re && |re| < 4000 ==>
              r == if DepthT(t) <= 100 then Some(Post(RegT(t))) else None
  {
    hide ValidT, ShowT, DepthT, Post, RegT, Scan1, Repeat, OwedOutside, Owed, Begin, Bounded, Dots;
    BoundedInitial();
    forall t | ValidT(t) && ShowT(t) == re && |re| < 4000
      ensures Translate(re) == if DepthT(t) <= 100 then Some(Post(RegT(t))) else None
    {
      TranslatesExactly(t);
    }
    if |re| >= BUF_SIZE / 2 {
      return None;
    }
    var t := new Translator();
    var i := 0;
    while i < |re|
      invariant 0 <= i <= |re| && t.Valid()
      invariant Scan(INITIAL, re[..i]) == Some(t.State()) && Bounded(t.State(), i)
    {
      assert re[..i + 1][..i] == re[..i];
      ghost var st := t.State();
      BoundedRoom(st, i);
      var ok := t.Next(re[i]);
      if !ok {
        TranslateFails(re, i + 1);
        return None;
      }
      BoundedStep(st, re[i], i);
      i := i + 1;
    }
    assert re[..i] == re;
    if t.p != 0 {
      return None;
    }
    BoundedRoom(t.State(), i);
    var post := t.Finish();
    r := Some(post);
  }

  lemma {:induction false} TranslateFails(re: Text, i: nat)
    requires i <= |re| && Scan(INITIAL, re[..i]).None?
    ensures Translate(re).None?
    decreases |re| - i
  {
    if i < |re| {
      assert re[..i + 1][..i] == re[..i];
      TranslateFails(re, i + 1);
    } else {
      assert re[..i] == re;
    }
  }

  // ----- every text of the grammar is translated -----

  lemma {:induction false} ScanAppend(st: St, a: Text, b: Text)
    ensures var s := Scan(st, a);
            Scan(st, a + b) == if s.None? then None else Scan(s.value, b)
    decreases |b|
  {
    hide Scan1;
    if b == [] {
      assert a + b == a;
    } else {
      assert (a + b)[..|a + b| - 1] == a + b[..|b| - 1];
      ScanAppend(st, a, b[..|b| - 1]);
    }
  }

  lemma ScanOne(st: St, c: Byte)
    ensures Scan(st, [c]) == Scan1(st, c)
  {
    hide Scan1;
    assert [c][..0] == [];
    assert Scan(st, []) == Some(st);
  }

  lemma {:induction false} ScanOps(st: St, ops: Text)
    requires st.natom > 0 && forall i :: 0 <= i < |ops| ==> IsOp(ops[i])
    ensures Scan(st, ops) == Some(st.(dst := st.dst + ops))
    decreases |ops|
  {
    if ops == [] {
      assert st.dst + ops == st.dst;
    } else {
      ScanOps(st, ops[..|ops| - 1]);
      assert st.dst + ops == st.dst + ops[..|ops| - 1] + [ops[|ops| - 1]];
    }
  }

  lemma {:induction false} PostApplied(r: Regex, ops: Text)
    requires forall i :: 0 <= i < |ops| ==> IsOp(ops[i])
    ensures Post(Applied(r, ops)) == Post(r) + ops
    decreases |ops|
  {
    if ops == [] {
      assert Post(r) + ops == Post(r);
    } else {
      PostApplied(r, ops[..|ops| - 1]);
      assert Post(r) + ops == Post(r) + ops[..|ops| - 1] + [ops[|ops| - 1]];
    }
  }

  /** What is written for a branch before its last concatenation, which waits for the next atom or the end. */
  function Pending(b: Branch): Text {
    match b
    case One(p) => Post(RegP(p))
    case More(front, p) => Post(RegB(front)) + Post(RegP(p))
  }

  function Atoms(b: Branch): nat { if b.One? then 1 else 2 }

  lemma PendingDots(b: Branch)
    ensures Pending(b) + Dots(Atoms(b)) == Post(RegB(b))
  {
    if b.More? {
      assert Dots(2) == Repeat('.', 0) + ['.'];
    }
  }

  /** What is written for an alternation before its bars. */
  function Body(t: Alternation): Text {
    match t
    case Just(b) => Post(RegB(b))
    case Or(b, rest) => Post(RegB(b)) + Body(rest)
  }

  function Bars(t: Alternation): nat {
    if t.Just? then 0 else 1 + Bars(t.rest)
  }

  lemma {:induction false} BodyBars(t: Alternation)
    ensures Body(t) + Repeat('|', Bars(t)) == Post(RegT(t))
  {
    match t
    case Just(b) => assert Body(t) + [] == Body(t);
    case Or(b, rest) =>
      BodyBars(rest);
      assert Body(t) + (Repeat('|', Bars(rest)) + ['|'])
          == Post(RegB(b)) + (Body(rest) + Repeat('|', Bars(rest))) + ['|'];
  }

  /** Scanning a piece writes it, after the concatenation that a third atom releases. */
  lemma {:induction false} ScanPiece(st: St, p: Piece)
    requires ValidP(p) && |st.paren| + DepthA(p.atom) <= MAX_DEPTH
    ensures var s := Begin(st);
            Scan(st, ShowP(p)) == Some(s.(dst := s.dst + Post(RegP(p)), natom := s.natom + 1))
    decreases p, 3
  {
    hide Scan, Scan1, Post;
    var s := Begin(st);
    ScanAppend(st, ShowA(p.atom), p.ops);
    ScanAtom(st, p.atom);
    var s1 := s.(dst := s.dst + Post(RegA(p.atom)), natom := s.natom + 1);
    ScanOps(s1, p.ops);
    PostApplied(RegA(p.atom), p.ops);
    assert s1.dst + p.ops == s.dst + (Post(RegA(p.atom)) + p.ops);
  }

  lemma {:induction false} ScanAtom(st: St, a: Atom)
    requires ValidA(a) && |st.paren| + DepthA(a) <= MAX_DEPTH
    ensures var s := Begin(st);
            Scan(st, ShowA(a)) == Some(s.(dst := s.dst + Post(RegA(a)), natom := s.natom + 1))
    decreases a, 2
  {
    match a
    case Char(c) => ScanOne(st, c);
    case Group(t) => ScanGroup(st, t);
  }

  lemma {:induction false} ScanGroup(st: St, t: Alternation)
    requires ValidT(t) && |st.paren| + 1 + DepthT(t) <= MAX_DEPTH
    ensures var s := Begin(st);
            Scan(st, "(" + ShowT(t) + ")") == Some(s.(dst := s.dst + Post(RegT(t)), natom := s.natom + 1))
    decreases t, 4
  {
    hide Scan, Post, Repeat, Bars;
    var s := Begin(st);
    var s1 := St(s.dst, 0, 0, s.paren + [Paren(s.nalt, s.natom)]);
    ScanOne(st, '(');
    ScanAppend(st, "(" + ShowT(t), ")");
    ScanAppend(st, "(", ShowT(t));
    var natom := ScanAlternation(s1, t);
    var s2 := Scan(s1, ShowT(t)).value;
    ScanOne(s2, ')');
    BodyBars(t);
    assert s2.dst + Dots(natom) + Repeat('|', Bars(t)) == s.dst + (Body(t) + Repeat('|', Bars(t)));
    assert s1.paren[..|s1.paren| - 1] == s.paren;
  }

  lemma {:induction false} ScanBranch(st: St, b: Branch)
    requires ValidB(b) && st.natom == 0 && |st.paren| + DepthB(b) <= MAX_DEPTH
    ensures Scan(st, ShowB(b)) == Some(st.(dst := st.dst + Pending(b), natom := Atoms(b)))
    decreases b, 5
  {
    hide Scan, Scan1, Post;
    match b
    case One(p) => ScanPiece(st, p);
    case More(front, p) =>
      ScanBranch(st, front);
      var s := st.(dst := st.dst + Pending(front), natom := Atoms(front));
      ScanAppend(st, ShowB(front), ShowP(p));
      ScanPiece(s, p);
      PendingDots(front);
      assert Begin(s).dst == st.dst + (Pending(front) + Dots(Atoms(front))) by {
        assert Dots(1) == [] && Dots(2) == Repeat('.', 0) + ['.'];
        assert Pending(front) + Dots(1) == Pending(front);
      }
      assert Begin(s).dst + Post(RegP(p)) == st.dst + (Post(RegB(front)) + Post(RegP(p)));
  }

  /** Scanning an alternation; the last branch keeps its concatenation and the bars wait. */
  lemma {:induction false} ScanAlternation(st: St, t: Alternation) returns (natom: nat)
    requires ValidT(t) && st.natom == 0 && |st.paren| + DepthT(t) <= MAX_DEPTH
    ensures natom in {1, 2}
    ensures var s := Scan(st, ShowT(t));
            && s.Some? && s.value.natom == natom && s.value.nalt == st.nalt + Bars(t) && s.value.paren == st.paren
            && s.value.dst + Dots(natom) == st.dst + Body(t)
    decreases t, 3
  {
    hide Scan, Post, Repeat;
    match t
    case Just(b) =>
      ScanBranch(st, b);
      PendingDots(b);
      natom := Atoms(b);
      assert st.dst + Pending(b) + Dots(natom) == st.dst + (Pending(b) + Dots(natom));
    case Or(b, rest) =>
      ScanBranch(st, b);
      PendingDots(b);
      var s1 := st.(dst := st.dst + Pending(b), natom := Atoms(b));
      ScanOne(s1, '|');
      var s2 := Scan1(s1, '|').value;
      assert s2.dst == st.dst + (Pending(b) + Dots(Atoms(b)));
      ScanAppend(st, ShowB(b) + "|", ShowT(rest));
      ScanAppend(st, ShowB(b), "|");
      natom := ScanAlternation(s2, rest);
      assert st.dst + Post(RegB(b)) + Body(rest) == st.dst + (Post(RegB(b)) + Body(rest));
  }

  /** Every text of the grammar that is short and not nested too deep is translated to the postfix text of its
      expression. */
  lemma TranslatesGrammar(t: Alternation)
    requires ValidT(t) && DepthT(t) <= MAX_DEPTH && |ShowT(t)| < BUF_SIZE / 2
    ensures Translate(ShowT(t)) == Some(Post(RegT(t)))
  {
    hide Scan, Scan1, Post, Repeat;
    var natom := ScanAlternation(INITIAL, t);
    BodyBars(t);
    assert [] + Body(t) == Body(t);
  }

  // ----- what is nested too deep is refused -----

  lemma {:induction false} AtomTooDeep(st: St, a: Atom)
    requires ValidA(a) && |st.paren| <= MAX_DEPTH < |st.paren| + DepthA(a)
    ensures Scan(st, ShowA(a)).None?
    decreases a, 2
  {
    hide Scan;
    ScanOne(st, '(');
    ScanAppend(st, "(" + ShowT(a.t), ")");
    ScanAppend(st, "(", ShowT(a.t));
    if |st.paren| < MAX_DEPTH {
      AlternationTooDeep(Scan1(st, '(').value, a.t);
    }
  }

  lemma {:induction false} PieceTooDeep(st: St, p: Piece)
    requires ValidP(p) && |st.paren| <= MAX_DEPTH < |st.paren| + DepthA(p.atom)
    ensures Scan(st, ShowP(p)).None?
    decreases p, 3
  {
    hide Scan;
    AtomTooDeep(st, p.atom);
    ScanAppend(st, ShowA(p.atom), p.ops);
  }

  lemma {:induction false} BranchTooDeep(st: St, b: Branch)
    requires ValidB(b) && st.natom == 0 && |st.paren| <= MAX_DEPTH < |st.paren| + DepthB(b)
    ensures Scan(st, ShowB(b)).None?
    decreases b, 5
  {
    hide Scan;
    match b
    case One(p) => PieceTooDeep(st, p);
    case More(front, p) =>
      ScanAppend(st, ShowB(front), ShowP(p));
      if |st.paren| + DepthB(front) > MAX_DEPTH {
        BranchTooDeep(st, front);
      } else {
        ScanBranch(st, front);
        PieceTooDeep(Scan(st, ShowB(front)).value, p);
      }
  }

  lemma {:induction false} AlternationTooDeep(st: St, t: Alternation)
    requires ValidT(t) && st.natom == 0 && |st.paren| <= MAX_DEPTH < |st.paren| + DepthT(t)
    ensures Scan(st, ShowT(t)).None?
    decreases t, 3
  {
    hide Scan;
    match t
    case Just(b) => BranchTooDeep(st, b);
    case Or(b, rest) =>
      ScanAppend(st, ShowB(b) + "|", ShowT(rest));
      ScanAppend(st, ShowB(b), "|");
      if |st.paren| + DepthB(b) > MAX_DEPTH {
        BranchTooDeep(st, b);
      } else {
        ScanBranch(st, b);
        var s := Scan(st, ShowB(b)).value;
        ScanOne(s, '|');
        AlternationTooDeep(Scan1(s, '|').value, rest);
      }
  }

  /** A text of the grammar with less than 4000 characters is accepted exactly if no more than 100 groups are open
      at once. */
  lemma TranslatesExactly(t: Alternation)
    requires ValidT(t) && |ShowT(t)| < 4000
    ensures Translate(ShowT(t)) == if DepthT(t) <= 100 then Some(Post(RegT(t))) else None
  {
    hide Scan;
    if DepthT(t) <= 100 {
      TranslatesGrammar(t);
    } else {
      AlternationTooDeep(INITIAL, t);
    }
  }
}
