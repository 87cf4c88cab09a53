/** Reserving a socket slot (generate_id in socket_server.c), by one thread and by many. */
module SocketIds {

  const MAX_SOCKET: nat := 0x1_0000
  const INT_MAX: int := 0x7fff_ffff
  const INT_MIN: int := -0x8000_0000

  /** A slot is free, or reserved, or in use. */
  datatype SlotType = Invalid | Reserve | InUse

  datatype Slot = Slot(kind: SlotType, id: int)

  /** HASH_ID of an id that is not negative. */
  function HashId(id: nat): (h: nat)
    ensures h < MAX_SOCKET
  {
    id % MAX_SOCKET
  }

  /** The atomic increment of a 32-bit int wraps around. */
  function Inc(a: int): (r: int)
    ensures IsInt(a) ==> -0x8000_0000 <= r <= 0x7fff_ffff && (r - a - 1) % 0x1_0000_0000 == 0
  {
    if a == INT_MAX then INT_MIN else a + 1
  }

  /** `a & 0x7fffffff` clears the sign bit. */
  function Mask(a: int): (r: int)
    ensures IsInt(a) ==> r == a % 0x8000_0000
  {
    if a < 0 then a - INT_MIN else a
  }

  predicate IsInt(a: int) {
    INT_MIN <= a <= INT_MAX
  }

  // ----- one thread -----

  /** The id tried k times after a, and its slot: the wrap-around keeps the slots in turn, because MAX_SOCKET
      divides 2^31. */
  function Tried(a: int, k: nat): (id: nat)
    requires 0 <= a <= INT_MAX
    ensures id <= INT_MAX
  {
    (a + k) % (INT_MAX + 1)
  }

  lemma TriedNext(a: int, k: nat)
    requires 0 <= a <= INT_MAX
    ensures Mask(Inc(Tried(a, k))) == Tried(a, k + 1) == (a + k + 1) % 0x8000_0000
  {
    var m := INT_MAX + 1;
    var q, r := (a + k) / m, (a + k) % m;
    assert a + k + 1 == q * m + (r + 1);
    if r + 1 == m {
      assert a + k + 1 == (q + 1) * m;
      Modulo(q + 1, m, 0);
    } else {
      Modulo(q, m, r + 1);
    }
  }

  lemma Modulo(q: int, m: int, r: int)
    requires 0 <= r < m
    ensures (q * m + r) % m == r
  {
    var x := q * m + r;
    var d := x / m - q;
    assert x == (x / m) * m + x % m;
    assert d * m == r - x % m;
    assert d >= 1 ==> d * m >= m;
    assert d <= -1 ==> d * m <= -m;
  }

  /** Among MAX_SOCKET tries in a row every slot comes up. */
  lemma EverySlot(a: int, slot: nat) returns (k: nat)
    requires 0 <= a <= INT_MAX && slot < MAX_SOCKET
    ensures 1 <= k <= MAX_SOCKET && HashId(Tried(a, k)) == slot
  {
    k := (slot - a - 1) % MAX_SOCKET + 1;
    var m, n := INT_MAX + 1, MAX_SOCKET;
    // a + k and slot differ by a multiple of n
    var c := (slot - a - 1) / n;
    assert slot - a - 1 == c * n + (k - 1);
    var q := (a + k) / m;
    assert a + k == q * m + Tried(a, k);
    assert m == 0x8000 * n;
    assert Tried(a, k) == (-c - q * 0x8000) * n + slot;
    Modulo(-c - q * 0x8000, n, slot);
  }

  class Server {
    var allocId: int
    const socketMap: array<Slot>

    ghost predicate Valid()
      reads this
    {
      socketMap.Length == MAX_SOCKET && 0 <= allocId <= INT_MAX
    }

    constructor ()
      ensures Valid() && fresh(socketMap) && socketMap.Length == 65536 && allocId == 0
      ensures forall i :: 0 <= i < MAX_SOCKET ==> socketMap[i].kind == Invalid
    {
      allocId := 0;
      socketMap := new Slot[MAX_SOCKET](_ => Slot(Invalid, 0));
    }

    /** Run by one thread, it reserves the slot of the first id after the last one whose slot is free, and fails only
        when no slot is free. */
    method GenerateId() returns (id: int)
      requires Valid()
      modifies this, socketMap
      ensures Valid()
      ensures id == -1 <==> forall i :: 0 <= i < MAX_SOCKET ==> old(socketMap[i]).kind != Invalid
      ensures id == -1 ==> socketMap[..] == old(socketMap[..]) && allocId == Tried(old(allocId), 65536)
      ensures id != -1 ==>
                && 0 <= id == allocId <= 0x7fff_ffff && HashId(id) == id % 65536
                && old(socketMap[HashId(id)]).kind == Invalid
                && socketMap[..] == old(socketMap[..])[HashId(id) := Slot(Reserve, id)]
                && exists k: nat :: 1 <= k <= 65536 && id == Tried(old(allocId), k) == (old(allocId) + k) % 0x8000_0000
                     && forall j: nat :: 1 <= j < k ==>
                          old(socketMap[..])[HashId(Tried(old(allocId), j))].kind != Invalid
    {
      ghost var a, map0 := allocId, socketMap[..];
      var i: nat := 0;
      assert Tried(a, 0) == a;
      while i < MAX_SOCKET
        invariant 0 <= i <= MAX_SOCKET && Valid()
        invariant allocId == Tried(a, i) && socketMap[..] == map0
        invariant forall j: nat :: 1 <= j <= i ==> map0[HashId(Tried(a, j))].kind != Invalid
      {
        TriedNext(a, i);
        allocId := Inc(allocId);
        id := allocId;
        if id < 0 {
          allocId := Mask(allocId);
          id := allocId;
        }
        var h := HashId(id);
        assert socketMap[h] == map0[h];
        if socketMap[h].kind == Invalid {
          socketMap[h] := Slot(Reserve, id);
          assert id == Tried(a, i + 1);
          return;
        }
        i := i + 1;
      }
      forall slot: nat | slot < MAX_SOCKET
        ensures map0[slot].kind != Invalid
      {
        var k := EverySlot(a, slot);
      }
      id := -1;
    }
  }

  // ----- many threads -----

  /** Where a call of generate_id stands: before the increment, before the masking, before the test of the slot,
      before the compare-and-swap, before the id is stored, and when it has returned an id that is in use; `Ended` when
      it has returned -1 or the socket has been closed. */
  datatype Call =
    | Start(i: nat)
    | Masking(i: nat)
    | Testing(i: nat, id: nat)
    | Swapping(i: nat, id: nat)
    | Storing(id: nat)
    | Live(id: nat)
    | Ended

  datatype State = State(allocId: int, slots: seq<Slot>, calls: seq<Call>)

  ghost predicate Initial(s: State) {
    && s.allocId == 0
    && |s.slots| == MAX_SOCKET
    && (forall i :: 0 <= i < MAX_SOCKET ==> s.slots[i].kind == Invalid)
    && s.calls == []
  }

  /** A call begins, or call t takes one atomic step, or the socket of call t is closed. */
  ghost predicate Next(s: State, s2: State, t: nat)
    requires |s.slots| == MAX_SOCKET
  {
    if t >= |s.calls| then
      s2 == s.(calls := s.calls + [Start(0)])
    else
      match s.calls[t]
      case Start(i) =>
        if i >= MAX_SOCKET then s2 == At(s, t, Ended)
        else
          var id := Inc(s.allocId);
          s2 == At(s.(allocId := id), t, if id < 0 then Masking(i) else Testing(i, id))
      case Masking(i) =>
        var id := Mask(s.allocId);
        id >= 0 && s2 == At(s.(allocId := id), t, Testing(i, id))
      case Testing(i, id) =>
        s2 == At(s, t, if s.slots[HashId(id)].kind == Invalid then Swapping(i, id) else Start(i + 1))
      case Swapping(i, id) =>
        var h := HashId(id);
        if s.slots[h].kind == Invalid then
          s2 == At(s.(slots := s.slots[h := s.slots[h].(kind := Reserve)]), t, Storing(id))
        else s2 == At(s, t, Start(i))
      case Storing(id) =>
        var h := HashId(id);
        s2 == At(s.(slots := s.slots[h := s.slots[h].(id := id)]), t, Live(id))
      case Live(id) =>
        var h := HashId(id);
        || s2 == s.(slots := s.slots[h := s.slots[h].(kind := InUse)])
        || s2 == At(s.(slots := s.slots[h := s.slots[h].(kind := Invalid)]), t, Ended)
      case Ended => false
  }

  function At(s: State, t: nat, c: Call): State
    requires t < |s.calls|
  {
    s.(calls := s.calls[t := c])
  }

  /** The call has won a slot, and its socket is not closed. */
  predicate Holds(c: Call) {
    c.Storing? || c.Live?
  }

  ghost predicate Inv(s: State) {
    && |s.slots| == MAX_SOCKET
    && IsInt(s.allocId)
    && (forall t :: 0 <= t < |s.calls| && Holds(s.calls[t]) ==> s.slots[HashId(s.calls[t].id)].kind != Invalid)
    && (forall t :: 0 <= t < |s.calls| && s.calls[t].Live? ==> s.slots[HashId(s.calls[t].id)].id == s.calls[t].id)
    && (forall t, u :: 0 <= t < u < |s.calls| && Holds(s.calls[t]) && Holds(s.calls[u]) ==>
          HashId(s.calls[t].id) != HashId(s.calls[u].id))
  }

  lemma InitialInv(s: State)
    requires Initial(s)
    ensures Inv(s)
  {
  }

  lemma NextInv(s: State, s2: State, t: nat)
    requires Inv(s) && Next(s, s2, t)
    ensures Inv(s2)
  {
    if t < |s.calls| {
      var c := s.calls[t];
      if c.Swapping? && s.slots[HashId(c.id)].kind == Invalid {
        assert forall u :: 0 <= u < |s.calls| && Holds(s.calls[u]) ==> HashId(s.calls[u].id) != HashId(c.id);
      }
    }
  }

  // ----- a call that is alone -----

  /** n steps of call t lead from s to s2. */
  ghost predicate Alone(s: State, s2: State, t: nat, n: nat)
    decreases n
  {
    && |s.slots| == MAX_SOCKET
    && if n == 0 then s == s2 else exists next :: Next(s, next, t) && Alone(next, s2, t, n - 1)
  }

  lemma AloneStep(s: State, next: State, s2: State, t: nat, n: nat)
    requires |s.slots| == MAX_SOCKET && Next(s, next, t) && Alone(next, s2, t, n)
    ensures Alone(s, s2, t, n + 1)
  {
  }

  /** The slot tried at the k-th try is free, and those of the tries before are not. */
  ghost predicate FirstFree(s: State, k: nat)
    requires |s.slots| == MAX_SOCKET && 0 <= s.allocId <= INT_MAX
  {
    && s.slots[HashId(Tried(s.allocId, k))].kind == Invalid
    && forall j :: 1 <= j < k ==> s.slots[HashId(Tried(s.allocId, j))].kind != Invalid
  }

  lemma TriedAgain(a: int, k: nat)
    requires 0 <= a <= INT_MAX
    ensures Tried(Tried(a, 1), k) == Tried(a, k + 1)
  {
    var m := INT_MAX + 1;
    var q := (a + 1) / m;
    assert a + 1 == q * m + Tried(a, 1);
    var x := Tried(a, 1) + k;
    assert a + 1 + k == q * m + x;
    assert x == x / m * m + x % m;
    assert a + 1 + k == (q + x / m) * m + x % m;
    Modulo(q + x / m, m, x % m);
  }

  /** The increment, the masking if the id is negative, and the test of the slot. */
  lemma AloneTest(s: State, t: nat, i: nat) returns (s2: State, n: nat)
    requires |s.slots| == MAX_SOCKET && t < |s.calls| && 0 <= s.allocId <= INT_MAX
    requires i < MAX_SOCKET && s.calls[t] == Start(i)
    ensures Alone(s, s2, t, n)
    ensures var id := Tried(s.allocId, 1);
            s2 == State(id, s.slots, s.calls[t := Testing(i, id)])
  {
    TriedNext(s.allocId, 0);
    assert Tried(s.allocId, 0) == s.allocId;
    var id := Inc(s.allocId);
    var s1 := At(s.(allocId := id), t, if id < 0 then Masking(i) else Testing(i, id));
    if id < 0 {
      s2 := At(s1.(allocId := Mask(id)), t, Testing(i, Mask(id)));
      AloneStep(s1, s2, s2, t, 0);
      AloneStep(s, s1, s2, t, 1);
      n := 2;
    } else {
      s2 := s1;
      AloneStep(s, s1, s1, t, 0);
      n := 1;
    }
  }

  lemma {:induction false} AloneAgain(s: State, s2: State, s3: State, t: nat, n: nat, n2: nat)
    requires Alone(s, s2, t, n) && Alone(s2, s3, t, n2)
    ensures Alone(s, s3, t, n + n2)
    decreases n
  {
    if n > 0 {
      var next :| Next(s, next, t) && Alone(next, s2, t, n - 1);
      AloneAgain(next, s2, s3, t, n - 1, n2);
    }
  }

  /** The steps of a call that is alone, from any try on, do what GenerateId does: at the first try k whose slot is
      free the slot is reserved and marked with the id; k is 0 when there is none, and then the call ends without an
      id. */
  lemma {:induction false} AloneServed(s: State, t: nat, tries: nat) returns (s2: State, n: nat, k: nat)
    requires |s.slots| == MAX_SOCKET && t < |s.calls| && 0 <= s.allocId <= INT_MAX
    requires tries <= MAX_SOCKET && s.calls[t] == Start(MAX_SOCKET - tries)
    ensures Alone(s, s2, t, n) && k <= tries
    ensures k > 0 ==>
              var id := Tried(s.allocId, k);
              FirstFree(s, k) && s2 == State(id, s.slots[HashId(id) := Slot(Reserve, id)], s.calls[t := Live(id)])
    ensures k == 0 ==>
              && (forall j :: 1 <= j <= tries ==> s.slots[HashId(Tried(s.allocId, j))].kind != Invalid)
              && s2 == State(Tried(s.allocId, tries), s.slots, s.calls[t := Ended])
    decreases tries
  {
    hide Tried;
    if tries == 0 {
      NoTry(s.allocId);
      s2 := At(s, t, Ended);
      AloneStep(s, s2, s2, t, 0);
      n, k := 1, 0;
    } else {
      var i, a := MAX_SOCKET - tries, s.allocId;
      var s1, n1 := AloneTest(s, t, i);
      var id := Tried(a, 1);
      if s.slots[HashId(id)].kind == Invalid {
        s2 := AloneTaken(s1, t, i, id);
        AloneAgain(s, s1, s2, t, n1, 3);
        n, k := n1 + 3, 1;
      } else {
        var next := At(s1, t, Start(i + 1));
        AloneStep(s1, next, next, t, 0);
        AloneAgain(s, s1, next, t, n1, 1);
        var s3, n3, k3 := AloneServed(next, t, tries - 1);
        AloneAgain(s, next, s3, t, n1 + 1, n3);
        forall j: nat
          ensures Tried(id, j) == Tried(a, j + 1)
        {
          TriedAgain(a, j);
        }
        assert forall j: nat :: 1 < j ==> Tried(a, j) == Tried(id, j - 1);
        s2, n, k := s3, n1 + 1 + n3, if k3 == 0 then 0 else k3 + 1;
      }
    }
  }

  lemma NoTry(a: int)
    requires 0 <= a <= INT_MAX
    ensures Tried(a, 0) == a
  {
  }

  /** The compare-and-swap succeeds, and the id is stored. */
  lemma AloneTaken(s: State, t: nat, i: nat, id: nat) returns (s2: State)
    requires |s.slots| == MAX_SOCKET && t < |s.calls| && s.calls[t] == Testing(i, id)
    requires s.slots[HashId(id)].kind == Invalid
    ensures Alone(s, s2, t, 3)
    ensures s2 == State(s.allocId, s.slots[HashId(id) := Slot(Reserve, id)], s.calls[t := Live(id)])
  {
    var h := HashId(id);
    var s1 := At(s, t, Swapping(i, id));
    var s3 := At(s1.(slots := s.slots[h := s.slots[h].(kind := Reserve)]), t, Storing(id));
    s2 := At(s3.(slots := s3.slots[h := s3.slots[h].(id := id)]), t, Live(id));
    AloneStep(s3, s2, s2, t, 0);
    AloneStep(s1, s3, s2, t, 1);
    AloneStep(s, s1, s2, t, 2);
  }

  ghost predicate IsRun(run: seq<State>) {
    && |run| > 0 && Initial(run[0])
    && (forall i :: 0 <= i < |run| ==> |run[i].slots| == MAX_SOCKET)
    && forall i :: 0 <= i < |run| - 1 ==> Follows(run[i], run[i + 1])
  }

  ghost predicate Follows(s: State, s2: State)
    requires |s.slots| == MAX_SOCKET
  {
    exists t: nat :: Next(s, s2, t)
  }

  /** Under any interleaving no two live sockets have the same slot, so their ids differ modulo MAX_SOCKET, and each
      slot records the id of the socket that has it. */
  lemma {:induction false} LiveIdsDistinct(run: seq<State>, t: nat, u: nat)
    requires IsRun(run)
    requires t < u < |run[|run| - 1].calls|
    requires run[|run| - 1].calls[t].Live? && run[|run| - 1].calls[u].Live?
    ensures var s := run[|run| - 1];
            && s.calls[t].id % 65536 != s.calls[u].id % 65536
            && s.slots[s.calls[t].id % 65536].id == s.calls[t].id
            && s.slots[s.calls[u].id % 65536].id == s.calls[u].id
  {
    RunInv(run, |run| - 1);
  }

  lemma {:induction false} RunInv(run: seq<State>, i: nat)
    requires IsRun(run) && i < |run|
    ensures Inv(run[i])
  {
    if i == 0 {
      InitialInv(run[0]);
    } else {
      RunInv(run, i - 1);
      var s, s2 := run[i - 1], run[i - 1 + 1];
      assert Follows(s, s2);
      var t: nat :| Next(s, s2, t);
      NextInv(s, s2, t);
    }
  }
}
