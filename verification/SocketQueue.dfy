/** The write queues of one socket (socket_server.c). */
module SocketQueue {

  type Byte = b: int | 0 <= b < 256

  type Message = seq<Byte>

  datatype Priority = High | Low

  /** The data of a command, the offset of write_ptr in it, and the size that write will be asked for. When that reaches
      past the end of the data, `behind` is what the memory there holds by the time write gets to it. */
  datatype Buffer = Buffer(data: Message, off: nat, sz: int, behind: seq<Byte>)
  {
    function Bytes(): seq<Byte> { data + behind }
  }

  /** What one call of write answers: how much it took at most, or an errno. */
  datatype Written = Sent(n: nat) | Interrupted | WouldBlock | Failed

  datatype SocketType =
    | Invalid | Reserve | PListen | Listen | Connecting | Connected | HalfClose | PAccept | Bind | Pipe

  datatype Code = Ignore | SocketClose

  // ----- what was submitted and what was sent -----

  /** A message, the priority it was submitted with, and what is sent after it that does not belong to it. */
  datatype Tagged = Tagged(priority: Priority, message: Message, behind: seq<Byte>)
  {
    function Bytes(): seq<Byte> { message + behind }
  }

  /** The messages of a priority, in order. */
  function Pick(q: seq<Tagged>, p: Priority): seq<Message> {
    if q == [] then []
    else (if q[0].priority == p then [q[0].message] else []) + Pick(q[1..], p)
  }

  /** What sending the queue puts on the wire. */
  function Concat(q: seq<Tagged>): seq<Byte> {
    if q == [] then [] else q[0].Bytes() + Concat(q[1..])
  }

  /** The messages of the queue, one after the other. */
  function Messages(q: seq<Tagged>): seq<Byte> {
    if q == [] then [] else q[0].message + Messages(q[1..])
  }

  ghost predicate NothingBehind(q: seq<Tagged>) {
    forall i :: 0 <= i < |q| ==> q[i].behind == []
  }

  lemma {:induction false} ConcatLonger(q: seq<Tagged>)
    ensures |Messages(q)| <= |Concat(q)|
    ensures |Messages(q)| == |Concat(q)| <==> NothingBehind(q)
  {
    if q != [] {
      ConcatLonger(q[1..]);
      assert NothingBehind(q) <==> q[0].behind == [] && NothingBehind(q[1..]) by {
        assert forall i :: 0 < i < |q| ==> q[i] == q[1..][i - 1];
        assert forall i :: 0 <= i < |q[1..]| ==> q[1..][i] == q[i + 1];
      }
    }
  }

  /** The messages and nothing else are sent exactly if nothing is sent behind any of them. */
  lemma {:induction false} ConcatExactly(q: seq<Tagged>)
    ensures Concat(q) == Messages(q) <==> NothingBehind(q)
  {
    ConcatLonger(q);
    if q != [] && NothingBehind(q) {
      assert forall i :: 0 <= i < |q[1..]| ==> q[1..][i] == q[i + 1];
      ConcatExactly(q[1..]);
      assert q[0].Bytes() == q[0].message;
    }
  }

  function Total(l: seq<Buffer>): int {
    if l == [] then 0 else l[0].sz + Total(l[1..])
  }

  lemma {:induction false} PickAppend(a: seq<Tagged>, b: seq<Tagged>, p: Priority)
    ensures Pick(a + b, p) == Pick(a, p) + Pick(b, p)
    decreases |a|
  {
    if a == [] {
      assert a + b == b;
    } else {
      assert (a + b)[1..] == a[1..] + b;
      PickAppend(a[1..], b, p);
    }
  }

  lemma {:induction false} ConcatAppend(a: seq<Tagged>, b: seq<Tagged>)
    ensures Concat(a + b) == Concat(a) + Concat(b)
    decreases |a|
  {
    if a == [] {
      assert a + b == b;
    } else {
      assert (a + b)[1..] == a[1..] + b;
      ConcatAppend(a[1..], b);
    }
  }

  lemma {:induction false} TotalAppend(a: seq<Buffer>, b: seq<Buffer>)
    ensures Total(a + b) == Total(a) + Total(b)
    decreases |a|
  {
    if a == [] {
      assert a + b == b;
    } else {
      assert (a + b)[1..] == a[1..] + b;
      TotalAppend(a[1..], b);
    }
  }

  /** Messages of one priority pass over messages of the other. */
  lemma {:induction false} PickNone(q: seq<Tagged>, p: Priority)
    requires forall i :: 0 <= i < |q| ==> q[i].priority != p
    ensures Pick(q, p) == []
    decreases |q|
  {
    if q != [] {
      PickNone(q[1..], p);
    }
  }

  // ----- the state -----

  /** The size field is what its comment says: the part of the data that has not been written. */
  predicate Remaining(b: Buffer) {
    b.off + b.sz == |b.data|
  }

  /** From write_ptr on, the size reaches over the data and what `behind` has of the memory behind it. */
  predicate Spans(b: Buffer) {
    b.off + b.sz == |b.Bytes()| && 0 <= b.sz
  }

  ghost predicate AllSpan(l: seq<Buffer>) {
    forall i :: 0 <= i < |l| ==> Spans(l[i])
  }

  lemma SpansMore(l: seq<Buffer>, b: Buffer)
    ensures AllSpan(l + [b]) <==> AllSpan(l) && Spans(b)
  {
    var m := l + [b];
    assert m[|l|] == b;
    assert forall i :: 0 <= i < |l| ==> m[i] == l[i];
  }

  /** The buffers hold the messages of the queue. */
  ghost predicate Holds(l: seq<Buffer>, queue: seq<Tagged>) {
    && |l| == |queue|
    && forall i :: 0 <= i < |l| ==> l[i].data == queue[i].message && l[i].behind == queue[i].behind
  }

  /** No buffer is partly sent, nor was partly sent when it was queued. */
  ghost predicate Whole(l: seq<Buffer>) {
    forall i :: 0 <= i < |l| ==> l[i].off == 0 && l[i].behind == []
  }

  ghost predicate AllRemaining(l: seq<Buffer>) {
    forall i :: 0 <= i < |l| ==> Remaining(l[i])
  }

  lemma RemainingMore(l: seq<Buffer>, b: Buffer)
    ensures AllRemaining(l + [b]) <==> AllRemaining(l) && Remaining(b)
  {
    var m := l + [b];
    assert m[|l|] == b;
    assert forall i :: 0 <= i < |l| ==> m[i] == l[i];
  }

  lemma WholeHead(l: seq<Buffer>)
    requires Whole(l)
    ensures l != [] ==> l[0].off == 0 && l[0].behind == []
  {
  }

  lemma NothingQueued()
    ensures Whole([]) && AllRemaining([]) && AllSpan([]) && NothingBehind([])
  {
  }

  /** The part of the first buffer that has been written. */
  function Prefix(l: seq<Buffer>): seq<Byte> {
    if l == [] || l[0].off > |l[0].Bytes()| then [] else l[0].Bytes()[..l[0].off]
  }

  /** The part of the first buffer that has been written is all that is on the wire besides the messages done. */
  ghost predicate OnWire(l: seq<Buffer>, wire: seq<Byte>, done: seq<Tagged>) {
    && (l != [] ==> l[0].off <= |l[0].Bytes()| && Whole(l[1..]))
    && wire == Concat(done) + Prefix(l)
  }

  /** Of each priority, the messages submitted are those done and those queued, in this order. */
  ghost predicate Submitted(done: seq<Tagged>, queue: seq<Tagged>, high: seq<Message>, low: seq<Message>) {
    high == Pick(done + queue, High) && low == Pick(done + queue, Low)
  }

  ghost predicate AllLow(queue: seq<Tagged>) {
    forall i :: 0 <= i < |queue| ==> queue[i].priority == Low
  }

  /** Queueing a message after the front part of the queue, when the rest has only messages of low priority. */
  lemma SubmittedMore(done: seq<Tagged>, front: seq<Tagged>, back: seq<Tagged>, high: seq<Message>, low: seq<Message>,
                      t: Tagged)
    requires Submitted(done, front + back, high, low) && AllLow(back) && (t.priority.Low? ==> back == [])
    ensures Submitted(done, front + [t] + back,
                      high + (if t.priority.High? then [t.message] else []),
                      low + if t.priority.Low? then [t.message] else [])
  {
    assert t.priority.Low? ==> Pick(back, Low) == [];
    PickNone(back, High);
    hide Pick;
    PickMore(done, front, t, back, High);
    PickMore(done, front, t, back, Low);
  }

  lemma PickMore(done: seq<Tagged>, front: seq<Tagged>, t: Tagged, back: seq<Tagged>, p: Priority)
    requires t.priority == p ==> Pick(back, p) == []
    ensures Pick(done + (front + [t] + back), p) ==
            Pick(done + (front + back), p) + if t.priority == p then [t.message] else []
  {
    PickOne(t, p);
    hide Pick;
    PickParts(done, front, back, p);
    PickParts(done, front + [t], back, p);
    PickAppend(front, [t], p);
    Regroup(Pick(done, p), Pick(front, p), Pick([t], p), Pick(back, p));
  }

  lemma Regroup(a: seq<Message>, b: seq<Message>, c: seq<Message>, d: seq<Message>)
    requires c == [] || d == []
    ensures a + ((b + c) + d) == (a + (b + d)) + c
  {
  }

  lemma PickOne(t: Tagged, p: Priority)
    ensures Pick([t], p) == if t.priority == p then [t.message] else []
  {
  }

  lemma PickParts(a: seq<Tagged>, b: seq<Tagged>, c: seq<Tagged>, p: Priority)
    ensures Pick(a + (b + c), p) == Pick(a, p) + (Pick(b, p) + Pick(c, p))
  {
    PickAppend(a, b + c, p);
    PickAppend(b, c, p);
  }

  /** A buffer added to the high list; if its message is partly written, it is the first of all. */
  lemma InsertedBuffer(high: seq<Buffer>, low: seq<Buffer>, queue: seq<Tagged>, wire: seq<Byte>, done: seq<Tagged>,
                       b: Buffer, t: Tagged)
    requires Holds(high + low, queue) && OnWire(high + low, wire, done) && Whole(low)
    requires b.data == t.message && b.behind == t.behind && b.off <= |b.Bytes()|
    requires b.off > 0 || b.behind != [] ==> high == low == []
    ensures Holds(high + [b] + low, queue[..|high|] + [t] + queue[|high|..])
    ensures OnWire(high + [b] + low, wire + b.Bytes()[..b.off], done)
  {
    hide Whole, OnWire;
    InsertedHolds(high, low, queue, b, t);
    hide Holds;
    if high == [] {
      assert high + low == low && high + [b] + low == [b] + low;
      InsertedFirst(low, wire, done, b);
    } else {
      InsertedLater(high, low, wire, done, b);
    }
  }

  lemma InsertedLater(high: seq<Buffer>, low: seq<Buffer>, wire: seq<Byte>, done: seq<Tagged>, b: Buffer)
    requires high != [] && OnWire(high + low, wire, done) && Whole(low) && b.off == 0 && b.behind == []
    ensures OnWire(high + [b] + low, wire + b.Bytes()[..b.off], done)
  {
    hide Whole, Concat;
    assert (high + [b] + low)[0] == (high + low)[0];
    InsertedWhole(high, low, b);
  }

  lemma InsertedHolds(high: seq<Buffer>, low: seq<Buffer>, queue: seq<Tagged>, b: Buffer, t: Tagged)
    requires Holds(high + low, queue) && b.data == t.message && b.behind == t.behind
    ensures Holds(high + [b] + low, queue[..|high|] + [t] + queue[|high|..])
  {
    var l, m := high + low, high + [b] + low;
    assert forall i :: 0 <= i < |m| ==> m[i] == if i < |high| then l[i] else if i == |high| then b else l[i - 1];
  }

  lemma InsertedFirst(low: seq<Buffer>, wire: seq<Byte>, done: seq<Tagged>, b: Buffer)
    requires OnWire(low, wire, done) && Whole(low) && b.off <= |b.Bytes()|
    ensures OnWire([b] + low, wire + b.Bytes()[..b.off], done)
  {
    assert Prefix(low) == [];
    hide Concat, Whole;
    assert wire == Concat(done);
    assert ([b] + low)[1..] == low;
    assert Prefix([b] + low) == b.Bytes()[..b.off];
  }

  lemma InsertedWhole(high: seq<Buffer>, low: seq<Buffer>, b: Buffer)
    requires high != [] && Whole((high + low)[1..]) && Whole(low) && b.off == 0 && b.behind == []
    ensures Whole((high + [b] + low)[1..])
  {
    assert (high + low)[1..] == high[1..] + low;
    assert forall i :: 0 <= i < |high[1..]| ==> (high[1..] + low)[i] == high[1..][i];
    assert Whole(high[1..]);
    assert (high + [b] + low)[1..] == high[1..] + [b] + low;
  }

  /** The first buffer has been written to its end. */
  lemma OnWireNext(l: seq<Buffer>, wire: seq<Byte>, done: seq<Tagged>, t: Tagged)
    requires OnWire(l, wire, done) && l != [] && t.Bytes() == l[0].Bytes()
    ensures OnWire(l[1..], wire + l[0].Bytes()[l[0].off..], done + [t])
  {
    ConcatOne(t);
    hide Concat;
    ConcatAppend(done, [t]);
    var b := l[0];
    assert b.Bytes() == b.Bytes()[..b.off] + b.Bytes()[b.off..];
    assert l[1..] != [] ==> l[1..][0].off == 0 && Whole(l[1..][1..]);
    assert Prefix(l[1..]) == [];
  }

  lemma ConcatOne(t: Tagged)
    ensures Concat([t]) == t.Bytes()
  {
    assert Concat([]) == [];
  }

  // ----- what the calls of write do to a list -----

  datatype Drained = Drained(rest: seq<Buffer>, bytes: seq<Byte>, closed: bool, answers: seq<Written>)

  /** The list after as much of it has been written as the answers allow, and what has been written. When the answers
      are used up, write would block. */
  function Drain(l: seq<Buffer>, answers: seq<Written>): (d: Drained)
    requires AllSpan(l)
    ensures AllSpan(d.rest)
    decreases |answers|
  {
    if l == [] then Drained(l, [], false, answers)
    else if answers == [] then Drained(l, [], false, answers)
    else
      var b, rest := l[0], answers[1..];
      match answers[0]
      case Interrupted => Drain(l, rest)
      case WouldBlock => Drained(l, [], false, rest)
      case Failed => Drained(l, [], true, rest)
      case Sent(n) =>
        if n >= b.sz then
          var d := Drain(l[1..], rest);
          d.(bytes := b.Bytes()[b.off..] + d.bytes)
        else
          Drained([b.(off := b.off + n, sz := b.sz - n)] + l[1..], b.Bytes()[b.off..b.off + n], false, rest)
  }

  /** A list of which write has taken sz bytes of the first buffer. */
  function Advanced(l: seq<Buffer>, sz: nat): seq<Buffer>
    requires l != []
  {
    var b := l[0];
    if sz == b.sz then l[1..] else [b.(off := b.off + sz, sz := b.sz - sz)] + l[1..]
  }

  lemma Joined(a: seq<Byte>, b: seq<Byte>, c: seq<Byte>)
    ensures (a + b) + c == a + (b + c)
  {
  }

  lemma DrainNothing(answers: seq<Written>)
    ensures Drain([], answers) == Drained([], [], false, answers)
  {
  }

  lemma DrainStep(l: seq<Buffer>, answers: seq<Written>)
    requires AllSpan(l) && l != []
    ensures 0 <= l[0].sz && l[0].off + l[0].sz == |l[0].Bytes()|
    ensures var b, d := l[0], Drain(l, answers);
            if answers == [] then d == Drained(l, [], false, [])
            else
              var rest := answers[1..];
              match answers[0]
              case Interrupted => d == Drain(l, rest)
              case WouldBlock => d == Drained(l, [], false, rest)
              case Failed => d == Drained(l, [], true, rest)
              case Sent(n) =>
                var sz := if n < b.sz then n else b.sz;
                var bytes := b.Bytes()[b.off..b.off + sz];
                var l2 := Advanced(l, sz);
                && AllSpan(l2)
                && if sz == b.sz then
                     var e := Drain(l2, rest);
                     d == Drained(e.rest, bytes + e.bytes, e.closed, e.answers)
                   else d == Drained(l2, bytes, false, rest)
  {
    assert Spans(l[0]);
  }

  /** Going on from here ends with what sending the whole list leaves of it, the answers left, the bytes sent since and
      whether write failed. */
  ghost predicate Follows(l: seq<Buffer>, answers: seq<Written>, wire: seq<Byte>, d: Drained, wire0: seq<Byte>)
    requires AllSpan(l)
  {
    var e := Drain(l, answers);
    Ends(e.rest, e.answers, wire + e.bytes, e.closed, d, wire0)
  }

  ghost predicate Ends(l: seq<Buffer>, answers: seq<Written>, wire: seq<Byte>, closed: bool, d: Drained,
                       wire0: seq<Byte>) {
    l == d.rest && answers == d.answers && wire == wire0 + d.bytes && closed == d.closed
  }

  lemma FollowsItself(l: seq<Buffer>, answers: seq<Written>, wire: seq<Byte>)
    requires AllSpan(l)
    ensures Follows(l, answers, wire, Drain(l, answers), wire)
  {
  }

  lemma FollowsNothing(answers: seq<Written>, wire: seq<Byte>, d: Drained, wire0: seq<Byte>)
    requires AllSpan([]) && Follows([], answers, wire, d, wire0)
    ensures Ends([], answers, wire, false, d, wire0)
  {
    DrainNothing(answers);
    assert wire + [] == wire;
  }

  lemma FollowsStep(l: seq<Buffer>, answers: seq<Written>, wire: seq<Byte>, d: Drained, wire0: seq<Byte>)
    requires AllSpan(l) && l != [] && Follows(l, answers, wire, d, wire0)
    ensures 0 <= l[0].sz && l[0].off + l[0].sz == |l[0].Bytes()|
    ensures if answers == [] then Ends(l, [], wire, false, d, wire0)
            else
              var rest := answers[1..];
              match answers[0]
              case Interrupted => Follows(l, rest, wire, d, wire0)
              case WouldBlock => Ends(l, rest, wire, false, d, wire0)
              case Failed => Ends(l, rest, wire, true, d, wire0)
              case Sent(n) =>
                var b := l[0];
                var sz := if n < b.sz then n else b.sz;
                var l2, wire2 := Advanced(l, sz), wire + b.Bytes()[b.off..b.off + sz];
                && AllSpan(l2)
                && if sz == b.sz then Follows(l2, rest, wire2, d, wire0) else Ends(l2, rest, wire2, false, d, wire0)
  {
    DrainStep(l, answers);
    assert wire + [] == wire;
    if answers != [] && answers[0].Sent? {
      var b, n := l[0], answers[0].n;
      var sz := if n < b.sz then n else b.sz;
      hide Drain, Advanced, AllSpan, Buffer.Bytes;
      if sz == b.sz {
        Joined(wire, b.Bytes()[b.off..b.off + sz], Drain(Advanced(l, sz), answers[1..]).bytes);
      }
    }
  }

  /** Holds of a socket from opening to closing, whatever the answers of write: the total is right, every message of
      each priority is done or queued in the order of submission, and only the very first one queued is partly
      written. */
  ghost predicate Consistent(high: seq<Buffer>, low: seq<Buffer>, size: int, wire: seq<Byte>, done: seq<Tagged>,
                             queue: seq<Tagged>, submittedHigh: seq<Message>, submittedLow: seq<Message>) {
    && size == Total(high) + Total(low)
    && AllSpan(high) && AllSpan(low)
    && Holds(high + low, queue) && AllLow(queue[|high|..])
    && OnWire(high + low, wire, done)
    && Submitted(done, queue, submittedHigh, submittedLow)
  }

  lemma QueuedHigh(high: seq<Buffer>, low: seq<Buffer>, size: int, wire: seq<Byte>, done: seq<Tagged>,
                   queue: seq<Tagged>, sh: seq<Message>, sl: seq<Message>, b: Buffer, t: Tagged)
    returns (queue2: seq<Tagged>)
    requires Consistent(high, low, size, wire, done, queue, sh, sl) && Whole(low)
    requires b.data == t.message && b.behind == t.behind && Spans(b)
    requires t.priority.Low? || b.off > 0 || b.behind != [] ==> high == low == []
    ensures queue2 == queue[..|high|] + [t] + queue[|high|..]
    ensures Consistent(high + [b], low, size + b.sz, wire + b.Bytes()[..b.off], done, queue2,
                       sh + (if t.priority.High? then [b.data] else []), sl + if t.priority.Low? then [b.data] else [])
  {
    hide Concat, Pick, Total, Submitted, OnWire;
    var front, back := queue[..|high|], queue[|high|..];
    assert queue == front + back;
    queue2 := front + [t] + back;
    assert queue2[|high + [b]|..] == back;
    SubmittedMore(done, front, back, sh, sl, t);
    TotalAppend(high, [b]);
    TotalOne(b);
    SpansMore(high, b);
    InsertedBuffer(high, low, queue, wire, done, b, t);
  }

  lemma QueuedLow(high: seq<Buffer>, low: seq<Buffer>, size: int, wire: seq<Byte>, done: seq<Tagged>,
                  queue: seq<Tagged>, sh: seq<Message>, sl: seq<Message>, b: Buffer)
    requires Consistent(high, low, size, wire, done, queue, sh, sl) && b.off == 0 && b.behind == [] && Spans(b)
    ensures Consistent(high, low + [b], size + b.sz, wire, done, queue + [Tagged(Low, b.data, [])], sh, sl + [b.data])
  {
    hide Concat, Pick, Total, Spans, Buffer.Bytes, Submitted;
    var t := Tagged(Low, b.data, []);
    SpansMore(low, b);
    assert queue + [] == queue && queue + [t] + [] == queue + [t] && sh + [] == sh;
    SubmittedMore(done, queue, [], sh, sl, t);
    TotalAppend(low, [b]);
    TotalOne(b);
    assert high + (low + [b]) == (high + low) + [b];
    OnWireLast(high + low, wire, done, b);
    hide OnWire;
  }

  lemma TotalOne(b: Buffer)
    ensures Total([b]) == b.sz
  {
    assert Total([]) == 0;
  }

  lemma OnWireLast(l: seq<Buffer>, wire: seq<Byte>, done: seq<Tagged>, b: Buffer)
    requires OnWire(l, wire, done) && b.off == 0 && b.behind == []
    ensures OnWire(l + [b], wire, done)
  {
    hide Concat;
    if l != [] {
      assert (l + [b])[1..] == l[1..] + [b];
    }
  }

  /** The head of the high list, or of the low list when the high list is empty, has been written to its end. */
  lemma WroteAll(high: seq<Buffer>, low: seq<Buffer>, size: int, wire: seq<Byte>, done: seq<Tagged>, queue: seq<Tagged>,
                 sh: seq<Message>, sl: seq<Message>)
    requires Consistent(high, low, size, wire, done, queue, sh, sl) && high + low != []
    ensures var b := (high + low)[0];
            queue != [] && b.off <= |b.Bytes()| && done + queue == done + [queue[0]] + queue[1..] &&
            Consistent(if high != [] then high[1..] else [], if high != [] then low else low[1..], size - b.sz,
                       wire + b.Bytes()[b.off..], done + [queue[0]], queue[1..], sh, sl)
  {
    hide Concat, Pick;
    var l := high + low;
    OnWireNext(l, wire, done, queue[0]);
    assert done + [queue[0]] + queue[1..] == done + queue;
    var high2, low2 := if high != [] then high[1..] else [], if high != [] then low else low[1..];
    assert high2 + low2 == l[1..];
    assert forall i :: 0 <= i < |queue[1..]| ==> queue[1..][i] == queue[i + 1];
  }

  lemma WroteSome(high: seq<Buffer>, low: seq<Buffer>, size: int, wire: seq<Byte>, done: seq<Tagged>,
                  queue: seq<Tagged>, sh: seq<Message>, sl: seq<Message>, n: nat)
    requires Consistent(high, low, size, wire, done, queue, sh, sl) && high + low != []
    requires n < (high + low)[0].sz
    ensures Spans((high + low)[0])
    ensures var b := (high + low)[0];
            var c := [b.(off := b.off + n, sz := b.sz - n)];
            Consistent(if high != [] then c + high[1..] else [], if high != [] then low else c + low[1..], size - n,
                       wire + b.Bytes()[b.off..b.off + n], done, queue, sh, sl)
  {
    hide Concat, Pick, Total, Submitted, OnWire, Holds;
    var l := high + low;
    var c := l[0].(off := l[0].off + n, sz := l[0].sz - n);
    assert l[0] == if high != [] then high[0] else low[0];
    OnWireSome(l, wire, done, n);
    HeadHolds(l, queue, c);
    if high != [] {
      TotalHead(high, c);
      assert [c] + high[1..] + low == [c] + l[1..];
    } else {
      TotalHead(low, c);
      assert [] + ([c] + low[1..]) == [c] + l[1..];
    }
  }

  lemma WroteHead(high: seq<Buffer>, low: seq<Buffer>, size: int, wire: seq<Byte>, done: seq<Tagged>,
                  queue: seq<Tagged>, sh: seq<Message>, sl: seq<Message>, n: nat)
    returns (done2: seq<Tagged>, queue2: seq<Tagged>)
    requires Consistent(high, low, size, wire, done, queue, sh, sl) && high + low != [] && n <= (high + low)[0].sz
    ensures var b := (high + low)[0]; b.off + n <= |b.Bytes()|
    ensures done2 + queue2 == done + queue
    ensures var b := (high + low)[0];
            Consistent(if high != [] then Advanced(high, n) else [], if high != [] then low else Advanced(low, n),
                       size - n, wire + b.Bytes()[b.off..b.off + n], done2, queue2, sh, sl)
  {
    hide Consistent, Spans, Buffer.Bytes;
    HeadSpans(high, low, size, wire, done, queue, sh, sl);
    var l := if high != [] then high else low;
    var b := l[0];
    assert b == (high + low)[0];
    if n == b.sz {
      assert b.Bytes()[b.off..b.off + n] == b.Bytes()[b.off..];
      WroteAll(high, low, size, wire, done, queue, sh, sl);
      done2, queue2 := done + [queue[0]], queue[1..];
      assert Advanced(l, n) == l[1..];
    } else {
      WroteSome(high, low, size, wire, done, queue, sh, sl, n);
      done2, queue2 := done, queue;
      assert Advanced(l, n) == [b.(off := b.off + n, sz := b.sz - n)] + l[1..];
    }
  }

  lemma HeadHolds(l: seq<Buffer>, queue: seq<Tagged>, c: Buffer)
    requires Holds(l, queue) && l != [] && c.data == l[0].data && c.behind == l[0].behind
    ensures Holds([c] + l[1..], queue)
  {
  }

  lemma TotalHead(l: seq<Buffer>, c: Buffer)
    requires l != []
    ensures Total([c] + l[1..]) == Total(l) - l[0].sz + c.sz
  {
    assert ([c] + l[1..])[1..] == l[1..];
  }

  lemma OnWireSome(l: seq<Buffer>, wire: seq<Byte>, done: seq<Tagged>, n: nat)
    requires OnWire(l, wire, done) && l != [] && Spans(l[0]) && n < l[0].sz
    ensures var c := l[0].(off := l[0].off + n, sz := l[0].sz - n);
            OnWire([c] + l[1..], wire + c.Bytes()[l[0].off..c.off], done)
  {
    hide Concat, Whole;
    var c := l[0].(off := l[0].off + n, sz := l[0].sz - n);
    Joined(Concat(done), c.Bytes()[..l[0].off], c.Bytes()[l[0].off..c.off]);
    assert c.Bytes()[..c.off] == c.Bytes()[..l[0].off] + c.Bytes()[l[0].off..c.off];
    assert ([c] + l[1..])[1..] == l[1..];
  }

  lemma RaisedHead(high: seq<Buffer>, low: seq<Buffer>, size: int, wire: seq<Byte>, done: seq<Tagged>,
                   queue: seq<Tagged>, sh: seq<Message>, sl: seq<Message>)
    requires Consistent(high, low, size, wire, done, queue, sh, sl) && high == [] && low != []
    ensures Consistent([low[0]], low[1..], size, wire, done, queue, sh, sl) && Whole(low[1..])
  {
    assert [low[0]] + low[1..] == low == high + low;
    assert Total([low[0]]) == low[0].sz;
  }

  lemma FirstOnly(high: seq<Buffer>, low: seq<Buffer>, size: int, wire: seq<Byte>, done: seq<Tagged>,
                  queue: seq<Tagged>, sh: seq<Message>, sl: seq<Message>)
    requires Consistent(high, low, size, wire, done, queue, sh, sl) && high == []
    requires low == [] || (low[0].off == 0 && low[0].behind == [])
    ensures Whole(low)
  {
    assert high + low == low;
    forall i | 0 <= i < |low|
      ensures low[i].off == 0 && low[i].behind == []
    {
      assert i > 0 ==> low[i] == low[1..][i - 1];
    }
  }

  lemma WroteNow(size: int, wire: seq<Byte>, done: seq<Tagged>, queue: seq<Tagged>, sh: seq<Message>, sl: seq<Message>,
                 t: Tagged)
    requires Consistent([], [], size, wire, done, queue, sh, sl) && t.behind == []
    ensures queue == [] && Consistent([], [], size, wire + t.message, done + [t], queue,
                       sh + (if t.priority.High? then [t.message] else []),
                       sl + if t.priority.Low? then [t.message] else [])
  {
    hide Concat, Pick;
    assert queue == [] && done + queue == done && done + [t] + queue == done + [t];
    assert t.Bytes() == t.message;
    ConcatOne(t);
    PickOne(t, High);
    PickOne(t, Low);
    ConcatAppend(done, [t]);
    PickAppend(done, [t], High);
    PickAppend(done, [t], Low);
  }

  /** Messages do not interleave: the peer gets a prefix of whole messages, one after the other; and of each priority
      those sent in full are the first ones submitted. */
  lemma NoInterleaving(high: seq<Buffer>, low: seq<Buffer>, size: int, wire: seq<Byte>, done: seq<Tagged>,
                       queue: seq<Tagged>, sh: seq<Message>, sl: seq<Message>)
    requires Consistent(high, low, size, wire, done, queue, sh, sl)
    ensures Concat(done) <= wire <= Concat(done + queue)
    ensures Pick(done, High) <= sh && Pick(done, Low) <= sl
  {
    var l := high + low;
    if l != [] {
      assert Concat(queue) == queue[0].Bytes() + Concat(queue[1..]);
      assert Prefix(l) <= queue[0].Bytes();
    }
    assert Prefix(l) <= Concat(queue);
    hide Concat, Pick;
    ConcatAppend(done, queue);
    PickAppend(done, queue, High);
    PickAppend(done, queue, Low);
  }

  /** What a list has yet to send. */
  function Unsent(l: seq<Buffer>): seq<Byte>
    requires AllSpan(l)
  {
    if l == [] then []
    else
      assert Spans(l[0]);
      l[0].Bytes()[l[0].off..] + Unsent(l[1..])
  }

  /** Sending loses and repeats nothing. */
  lemma {:induction false} DrainConserves(l: seq<Buffer>, answers: seq<Written>)
    requires AllSpan(l)
    ensures var d := Drain(l, answers); Unsent(l) == d.bytes + Unsent(d.rest)
    decreases |answers|
  {
    if l != [] && answers != [] {
      DrainStep(l, answers);
      hide Drain;
      var b := l[0];
      if answers[0].Interrupted? {
        DrainConserves(l, answers[1..]);
      } else if answers[0].Sent? {
        var n := answers[0].n;
        if n >= b.sz {
          DrainConserves(l[1..], answers[1..]);
          assert b.Bytes()[b.off..b.off + b.sz] == b.Bytes()[b.off..];
        } else {
          UnsentLess(l, n);
        }
      }
    } else {
      assert Drain(l, answers) == Drained(l, [], false, answers);
    }
  }

  /** Sending stops only when the list is empty, when no answer is left, or at an answer that tells it to: write would
      block, has failed, or has taken less than it was asked to. Only a failure closes the socket. */
  lemma {:induction false} DrainStops(l: seq<Buffer>, answers: seq<Written>)
    requires AllSpan(l)
    ensures var d := Drain(l, answers);
            var used := |answers| - |d.answers|;
            && used >= 0 && d.answers == answers[used..]
            && (used == 0 ==> d == Drained(l, [], false, answers) && (l == [] || answers == []))
            && (used > 0 ==> (d.closed <==> answers[used - 1] == Failed))
            && (used > 0 && d.rest != [] && d.answers != [] && !d.closed ==>
                  || answers[used - 1] == WouldBlock
                  || (answers[used - 1].Sent? && d.rest[0].sz > 0 && d.rest[0].off >= answers[used - 1].n))
    decreases |answers|
  {
    if l != [] && answers != [] {
      DrainStep(l, answers);
      hide Drain;
      var b, rest := l[0], answers[1..];
      if answers[0].Interrupted? {
        DrainStops(l, rest);
      } else if answers[0].Sent? && answers[0].n >= b.sz {
        DrainStops(l[1..], rest);
      }
    }
  }

  /** When write takes whatever it is asked to, however often it is interrupted, everything is sent. */
  lemma {:induction false} DrainAll(l: seq<Buffer>, answers: seq<Written>)
    requires AllSpan(l) && |l| <= Takes(answers)
    requires forall a <- answers :: a.Interrupted? || (a.Sent? && forall b <- l :: b.sz <= a.n)
    ensures var d := Drain(l, answers); d.rest == [] && !d.closed && d.bytes == Unsent(l)
    decreases |answers|
  {
    if l != [] {
      DrainStep(l, answers);
      hide Drain;
      var b := l[0];
      assert answers[0] in answers && b in l;
      if answers[0].Interrupted? {
        DrainAll(l, answers[1..]);
      } else {
        DrainAll(l[1..], answers[1..]);
        assert b.Bytes()[b.off..b.off + b.sz] == b.Bytes()[b.off..];
      }
    } else {
      DrainNothing(answers);
    }
  }

  /** How many of the answers take something. */
  function Takes(answers: seq<Written>): nat {
    if answers == [] then 0 else (if answers[0].Sent? then 1 else 0) + Takes(answers[1..])
  }

  lemma UnsentLess(l: seq<Buffer>, n: nat)
    requires AllSpan(l) && l != [] && n < l[0].sz
    ensures Spans(l[0])
    ensures var b := l[0];
            var c := [b.(off := b.off + n, sz := b.sz - n)] + l[1..];
            AllSpan(c) && Unsent(l) == b.Bytes()[b.off..b.off + n] + Unsent(c)
  {
    var b := l[0];
    assert Spans(b);
    var c := [b.(off := b.off + n, sz := b.sz - n)] + l[1..];
    assert c[1..] == l[1..];
    assert AllSpan(c);
    var bytes := b.Bytes();
    assert bytes[b.off..] == bytes[b.off..b.off + n] + bytes[b.off + n..];
    Joined(bytes[b.off..b.off + n], bytes[b.off + n..], Unsent(l[1..]));
  }

  /** What is left of a list ends it; only the first buffer left may have been shortened. */
  lemma {:induction false} DrainHead(l: seq<Buffer>, answers: seq<Written>)
    requires AllSpan(l) && l != [] && Whole(l[1..])
    ensures var d := Drain(l, answers);
            && |d.rest| <= |l|
            && (d.rest != [] ==> d.rest[0].behind == if |d.rest| == |l| then l[0].behind else [])
    decreases |answers|
  {
    if answers != [] {
      DrainStep(l, answers);
      hide Drain;
      if answers[0].Interrupted? {
        DrainHead(l, answers[1..]);
      } else if answers[0].Sent? && answers[0].n >= l[0].sz {
        if l[1..] == [] {
          DrainNothing(answers[1..]);
        } else {
          assert l[1..][0].behind == [];
          DrainHead(l[1..], answers[1..]);
        }
      }
    }
  }

  lemma DrainWhole(l: seq<Buffer>, answers: seq<Written>)
    requires AllSpan(l) && l != [] && Whole(l)
    ensures var d := Drain(l, answers);
            |d.rest| <= |l| && (d.rest != [] ==> d.rest[0].behind == [])
  {
    hide Drain;
    assert l[0].behind == [];
    DrainHead(l, answers);
  }

  lemma SizesExactly(high: seq<Buffer>, low: seq<Buffer>, size: int, wire: seq<Byte>, done: seq<Tagged>,
                     queue: seq<Tagged>, sh: seq<Message>, sl: seq<Message>)
    requires Consistent(high, low, size, wire, done, queue, sh, sl) && Whole(low)
    ensures AllRemaining(high) && AllRemaining(low) <==> high == [] || high[0].behind == []
  {
    var l := high + low;
    assert forall i :: 0 <= i < |high| ==> high[i] == l[i];
    assert forall i :: 0 < i < |high| ==> l[i] == l[1..][i - 1];
    assert forall b :: b in high || b in low ==> Spans(b);
    forall i | 0 <= i < |high|
      ensures Remaining(high[i]) <==> high[i].behind == []
    {
      assert Spans(high[i]);
    }
    forall i | 0 <= i < |low|
      ensures Remaining(low[i])
    {
      assert Spans(low[i]);
    }
  }

  lemma QueueLength(high: seq<Buffer>, low: seq<Buffer>, size: int, wire: seq<Byte>, done: seq<Tagged>,
                    queue: seq<Tagged>, sh: seq<Message>, sl: seq<Message>)
    requires Consistent(high, low, size, wire, done, queue, sh, sl)
    ensures |queue| == |high| + |low|
  {
  }

  lemma ListsSpan(high: seq<Buffer>, low: seq<Buffer>, size: int, wire: seq<Byte>, done: seq<Tagged>,
                  queue: seq<Tagged>, sh: seq<Message>, sl: seq<Message>)
    requires Consistent(high, low, size, wire, done, queue, sh, sl)
    ensures AllSpan(high) && AllSpan(low)
  {
  }

  lemma TailWhole(high: seq<Buffer>, low: seq<Buffer>, size: int, wire: seq<Byte>, done: seq<Tagged>,
                  queue: seq<Tagged>, sh: seq<Message>, sl: seq<Message>)
    requires Consistent(high, low, size, wire, done, queue, sh, sl)
    ensures high != [] ==> Whole(high[1..])
  {
    assert high != [] ==> forall i :: 0 <= i < |high[1..]| ==> high[1..][i] == (high + low)[1..][i];
  }

  lemma HeadSpans(high: seq<Buffer>, low: seq<Buffer>, size: int, wire: seq<Byte>, done: seq<Tagged>,
                  queue: seq<Tagged>, sh: seq<Message>, sl: seq<Message>)
    requires Consistent(high, low, size, wire, done, queue, sh, sl) && high + low != []
    ensures var b := (high + low)[0]; Spans(b) && 0 <= b.sz && b.off + b.sz == |b.Bytes()|
  {
  }

  lemma InsertedClean(done: seq<Tagged>, front: seq<Tagged>, back: seq<Tagged>, t: Tagged)
    ensures NothingBehind(done + (front + [t] + back)) <==> NothingBehind(done + (front + back)) && t.behind == []
  {
    hide NothingBehind;
    NothingBehindAppend(done, front + [t] + back);
    NothingBehindAppend(front + [t], back);
    NothingBehindAppend(front, [t]);
    NothingBehindOne(t);
    NothingBehindAppend(done, front + back);
    NothingBehindAppend(front, back);
  }

  lemma NothingBehindAppend(a: seq<Tagged>, b: seq<Tagged>)
    ensures NothingBehind(a + b) <==> NothingBehind(a) && NothingBehind(b)
  {
    assert forall i :: 0 <= i < |a| ==> a[i] == (a + b)[i];
    assert forall i :: 0 <= i < |b| ==> b[i] == (a + b)[|a| + i];
  }

  lemma NothingBehindOne(t: Tagged)
    ensures NothingBehind([t]) <==> t.behind == []
  {
    assert [t][0] == t;
  }

  class Socket {
    const id: int
    var kind: SocketType
    var writeBuffSize: int
    var high: seq<Buffer>
    var low: seq<Buffer>
    /** What the peer gets, and the messages submitted since the socket was opened. */
    ghost var wire: seq<Byte>
    ghost var submittedHigh: seq<Message>
    ghost var submittedLow: seq<Message>
    ghost var done: seq<Tagged>
    ghost var queue: seq<Tagged>

    ghost predicate Ordered()
      reads this
    {
      Consistent(high, low, writeBuffSize, wire, done, queue, submittedHigh, submittedLow)
    }

    /** Between calls no buffer of the low list is partly sent. */
    ghost predicate Valid()
      reads this
    {
      Ordered() && Whole(low)
    }

    ghost predicate RightSizes()
      reads this
    {
      AllRemaining(high) && AllRemaining(low)
    }

    /** Everything sent and everything queued, in the order of sending. */
    ghost function Commands(): seq<Tagged>
      reads this`done, this`queue
    {
      done + queue
    }

    /** Nothing but messages has been sent, nor will be. */
    ghost predicate Clean()
      reads this`done, this`queue
    {
      NothingBehind(Commands())
    }

    /** No size field but that of the first buffer of the high list is ever wrong. */
    lemma RightExactly()
      requires Valid()
      ensures RightSizes() <==> high == [] || high[0].behind == []
    {
      SizesExactly(high, low, writeBuffSize, wire, done, queue, submittedHigh, submittedLow);
    }

    /** When everything is sent, the peer has the messages and nothing else if and only if the socket is clean. */
    lemma SentExactly()
      requires Valid() && high == low == []
      ensures wire == Messages(done) <==> Clean()
      ensures submittedHigh == Pick(done, High) && submittedLow == Pick(done, Low)
    {
      assert queue == [] && done + queue == done;
      ConcatExactly(done);
    }

    constructor (id: int, kind: SocketType)
      ensures Valid() && RightSizes() && Clean() && this.id == id && this.kind == kind
      ensures high == low == [] && wire == [] && submittedHigh == [] && submittedLow == []
    {
      this.id, this.kind, writeBuffSize, high, low := id, kind, 0, [], [];
      wire, submittedHigh, submittedLow, done, queue := [], [], [], [], [];
    }

    method ForceClose()
      modifies this`kind
      ensures kind == Invalid
    {
      kind := Invalid;
    }

    /** The rest of the command after the first n bytes, which have been written, is queued; but the size field
        counts them all. */
    method AppendSendBufferHigh(data: Message, n: nat, behind: seq<Byte>, ghost priority: Priority)
      requires Valid() && n == |behind| <= |data| && (priority.Low? || n > 0 ==> high == low == [])
      modifies this
      ensures kind == old(kind) && low == old(low) && high == old(high) + [Buffer(data, n, |data|, behind)]
      ensures Valid() && (RightSizes() <==> old(RightSizes()) && n == 0) && (Clean() <==> old(Clean()) && n == 0)
      ensures var b := high[|high| - 1]; b.off + b.sz == |b.data| + n
      ensures wire == old(wire) + data[..n]
      ensures submittedHigh == old(submittedHigh) + if priority.High? then [data] else []
      ensures submittedLow == old(submittedLow) + if priority.Low? then [data] else []
    {
      hide Consistent, Whole, AllRemaining, NothingBehind;
      var buf := Buffer(data, n, |data|, behind);
      ghost var t := Tagged(priority, data, behind);
      QueueLength(high, low, writeBuffSize, wire, done, queue, submittedHigh, submittedLow);
      InsertedClean(done, queue[..|high|], queue[|high|..], t);
      assert queue == queue[..|high|] + queue[|high|..] && buf.Bytes()[..n] == data[..n];
      queue := QueuedHigh(high, low, writeBuffSize, wire, done, queue, submittedHigh, submittedLow, buf, t);
      high := high + [buf];
      writeBuffSize := writeBuffSize + buf.sz;
      wire := wire + data[..n];
      submittedHigh := submittedHigh + if priority.High? then [data] else [];
      submittedLow := submittedLow + if priority.Low? then [data] else [];
      RemainingMore(old(high), buf);
    }

    method AppendSendBufferLow(data: Message)
      requires Valid()
      modifies this
      ensures kind == old(kind) && high == old(high) && low == old(low) + [Buffer(data, 0, |data|, [])]
      ensures Valid() && (RightSizes() <==> old(RightSizes())) && (Clean() <==> old(Clean())) && wire == old(wire)
      ensures submittedHigh == old(submittedHigh) && submittedLow == old(submittedLow) + [data]
    {
      hide Consistent, AllRemaining, NothingBehind;
      var buf := Buffer(data, 0, |data|, []);
      ghost var t := Tagged(Low, data, []);
      InsertedClean(done, queue, [], t);
      assert queue + [] == queue && queue + [t] + [] == queue + [t];
      QueuedLow(high, low, writeBuffSize, wire, done, queue, submittedHigh, submittedLow, buf);
      low := low + [buf];
      writeBuffSize := writeBuffSize + buf.sz;
      queue := queue + [t];
      submittedLow := submittedLow + [data];
      RemainingMore(old(low), buf);
    }

    function ListOf(which: Priority): seq<Buffer>
      reads this
    {
      if which.High? then high else low
    }

    /** What is done after write has taken sz bytes of the first buffer of the list. */
    method AdvanceHead(which: Priority, sz: nat) returns (whole: bool)
      requires Ordered() && (which.Low? ==> high == [])
      requires ListOf(which) != [] && sz <= ListOf(which)[0].sz
      modifies this
      ensures Ordered() && kind == old(kind) && Commands() == old(Commands())
      ensures submittedHigh == old(submittedHigh) && submittedLow == old(submittedLow)
      ensures ListOf(which) == Advanced(old(ListOf(which)), sz)
      ensures if which.High? then low == old(low) else high == []
      ensures var b := old(ListOf(which))[0];
              && (whole <==> sz == b.sz) && b.off + sz <= |b.Bytes()|
              && wire == old(wire) + b.Bytes()[b.off..b.off + sz]
    {
      hide Consistent, Buffer.Bytes;
      var tmp := ListOf(which)[0];
      assert tmp == (high + low)[0];
      ghost var done2, queue2 :=
        WroteHead(high, low, writeBuffSize, wire, done, queue, submittedHigh, submittedLow, sz);
      done, queue := done2, queue2;
      wire := wire + tmp.Bytes()[tmp.off..tmp.off + sz];
      writeBuffSize := writeBuffSize - sz;
      whole := sz == tmp.sz;
      if whole {
        if which.High? { high := high[1..]; } else { low := low[1..]; }
      } else {
        tmp := tmp.(off := tmp.off + sz, sz := tmp.sz - sz);
        if which.High? { high := [tmp] + high[1..]; } else { low := [tmp] + low[1..]; }
      }
    }

    /** Writes as much of the list as the answers allow. The low list is sent only while the high list is empty. */
    method SendWriteBuffList(which: Priority, answers: seq<Written>) returns (code: Code, rest: seq<Written>)
      requires Ordered() && (which.Low? ==> high == [])
      modifies this
      ensures old(AllSpan(ListOf(which)))
      ensures Ends(ListOf(which), rest, wire, code == SocketClose, Drain(old(ListOf(which)), answers), old(wire))
      ensures if which.High? then low == old(low) else high == []
      ensures kind == if code == SocketClose then Invalid else old(kind)
      ensures Ordered() && Commands() == old(Commands())
      ensures submittedHigh == old(submittedHigh) && submittedLow == old(submittedLow)
    {
      hide Consistent, Drain, Spans, AllSpan, Whole, Buffer.Bytes, Advanced, Socket.Commands, Follows, Ends;
      ListsSpan(high, low, writeBuffSize, wire, done, queue, submittedHigh, submittedLow);
      rest := answers;
      ghost var d := Drain(ListOf(which), answers);
      FollowsItself(ListOf(which), answers, wire);
      hide Socket.ListOf;
      while ListOf(which) != []
        invariant Ordered() && AllSpan(ListOf(which)) && kind == old(kind) && Commands() == old(Commands())
        invariant if which.High? then low == old(low) else high == []
        invariant submittedHigh == old(submittedHigh) && submittedLow == old(submittedLow)
        invariant Follows(ListOf(which), rest, wire, d, old(wire))
        decreases |rest|
      {
        FollowsStep(ListOf(which), rest, wire, d, old(wire));
        var tmp := ListOf(which)[0];
        var answer := if rest == [] then WouldBlock else rest[0];
        rest := if rest == [] then [] else rest[1..];
        match answer {
          case Interrupted =>
          case WouldBlock =>
            return Ignore, rest;
          case Failed =>
            ForceClose();
            return SocketClose, rest;
          case Sent(n) =>
            var sz := if n < tmp.sz then n else tmp.sz;
            var whole := AdvanceHead(which, sz);
            if !whole {
              return Ignore, rest;
            }
        }
      }
      FollowsNothing(rest, wire, d, old(wire));
      code := Ignore;
    }

    /** Whether the first buffer of the low list is partly sent. */
    predicate IsLowUncomplete()
      reads this
    {
      low != [] && low[0].off != 0
    }

    /** A partly sent buffer of the low list becomes the high list. */
    method RaiseWriteBuffListUncomplete()
      requires Ordered() && high == [] && low != []
      modifies this`high, this`low
      ensures high == [old(low)[0]] && low == old(low)[1..]
      ensures Valid()
    {
      RaisedHead(high, low, writeBuffSize, wire, done, queue, submittedHigh, submittedLow);
      hide Consistent;
      high, low := [low[0]], low[1..];
    }

    /** The second and third step of a round: the low list is sent, and its head moved if it is partly sent. */
    method SendLow(answers: seq<Written>) returns (code: Code, rest: seq<Written>)
      requires Valid() && high == [] && low != []
      modifies this
      ensures Ordered() && (code.Ignore? ==> Valid() && RightSizes()) && Commands() == old(Commands())
      ensures kind == (if code.SocketClose? then Invalid else old(kind))
      ensures submittedHigh == old(submittedHigh) && submittedLow == old(submittedLow)
      ensures old(AllSpan(low))
      ensures var e := Drain(old(low), answers);
              && |e.rest| <= |old(low)|
              && Ends(high + low, rest, wire, code == SocketClose, e, old(wire))
              && (code.Ignore? ==> high == if e.rest != [] && e.rest[0].off > 0 then [e.rest[0]] else [])
    {
      hide Consistent, Drain, AllRemaining, NothingBehind, AllSpan, Whole, Buffer.Bytes, Socket.Commands;
      ListsSpan(high, low, writeBuffSize, wire, done, queue, submittedHigh, submittedLow);
      DrainWhole(low, answers);
      code, rest := SendWriteBuffList(Low, answers);
      assert high + low == low;
      if code == SocketClose {
        return;
      }
      assert low != [] ==> low == [low[0]] + low[1..];
      if IsLowUncomplete() {
        RaiseWriteBuffListUncomplete();
      } else {
        FirstOnly(high, low, writeBuffSize, wire, done, queue, submittedHigh, submittedLow);
      }
      RightExactly();
    }

    /** One round of sending: the high list, then the low list if nothing of high priority is left. `answers` are
        those of write. */
    method SendWriteBuffer(answers: seq<Written>) returns (code: Code, rest: seq<Written>)
      requires Valid()
      modifies this
      ensures Ordered() && (code.Ignore? ==> Valid())
      ensures code.Ignore? ==> (RightSizes() <==> old(RightSizes()) || |high| + |low| < |old(high)| + |old(low)|)
      ensures Clean() <==> old(Clean())
      ensures kind == (if code.SocketClose? then Invalid else old(kind))
      ensures submittedHigh == old(submittedHigh) && submittedLow == old(submittedLow)
      ensures old(AllSpan(high) && AllSpan(low))
      ensures var d := Drain(old(high), answers);
              if d.closed || d.rest != [] then
                && high == d.rest && low == old(low) && wire == old(wire) + d.bytes && rest == d.answers
                && (code.SocketClose? <==> d.closed)
              else
                var e := Drain(old(low), d.answers);
                && high + low == e.rest && wire == old(wire) + d.bytes + e.bytes && rest == e.answers
                && (code.SocketClose? <==> e.closed || (old(low) == [] && old(kind) == HalfClose))
                && (code.Ignore? ==> high == if e.rest != [] && e.rest[0].off > 0 then [e.rest[0]] else [])
    {
      hide Consistent, Drain, AllRemaining, NothingBehind, AllSpan, Whole, Buffer.Bytes, Socket.Commands;
      WholeHead(low);
      assert !IsLowUncomplete();
      RightExactly();
      ListsSpan(high, low, writeBuffSize, wire, done, queue, submittedHigh, submittedLow);
      TailWhole(high, low, writeBuffSize, wire, done, queue, submittedHigh, submittedLow);
      ghost var high0 := high;
      DrainNothing(answers);
      code, rest := SendWriteBuffList(High, answers);
      if code == SocketClose {
        return;
      }
      if high == [] {
        DrainNothing(rest);
        if low != [] {
          code, rest := SendLow(rest);
        } else if kind == HalfClose {
          ForceClose();
          code := SocketClose;
        }
      } else {
        DrainHead(high0, answers);
      }
      if code == Ignore {
        RightExactly();
      }
    }

    /** A send command. When nothing is queued the data is written at once, with the given answer of write; `memory` is
        what lies behind the data. Sizes stay right, and the socket clean, unless that write took a part of the data. */
    method SendSocket(cmdId: int, data: Message, priority: Priority, answer: Written, memory: seq<Byte>)
      returns (code: Code)
      requires Valid() && |memory| >= |data|
      modifies this
      ensures var refused := cmdId != id || old(kind) in {Invalid, HalfClose, PAccept, PListen, Listen};
              var direct := old(high) == [] && old(low) == [] && old(kind) == Connected;
              var n := if answer.Sent? then (if answer.n < |data| then answer.n else |data|) else 0;
              var part := direct && 0 < n < |data|;
              && Valid()
              && kind == (if code.SocketClose? then Invalid else old(kind))
              && (code.SocketClose? <==> !refused && direct && answer.Failed?)
              && (refused || code.SocketClose? ==>
                    && (RightSizes() <==> old(RightSizes())) && (Clean() <==> old(Clean()))
                    && wire == old(wire) && high == old(high) && low == old(low)
                    && submittedHigh == old(submittedHigh) && submittedLow == old(submittedLow))
              && (!refused && code.Ignore? ==>
                    && (RightSizes() <==> old(RightSizes()) && !part)
                    && (Clean() <==> old(Clean()) && !part)
                    && wire == (if direct then old(wire) + data[..n] else old(wire))
                    && high == (if direct then (if n == |data| then [] else [Buffer(data, n, |data|, memory[..n])])
                                else if priority.High? then old(high) + [Buffer(data, 0, |data|, [])] else old(high))
                    && low == (if !direct && priority.Low? then old(low) + [Buffer(data, 0, |data|, [])] else old(low))
                    && submittedHigh == (if priority.High? then old(submittedHigh) + [data] else old(submittedHigh))
                    && submittedLow == (if priority.Low? then old(submittedLow) + [data] else old(submittedLow)))
    {
      hide Consistent, Whole, AllRemaining, NothingBehind;
      NothingQueued();
      code := Ignore;
      if kind == Invalid || id != cmdId || kind == HalfClose || kind == PAccept {
        return;
      }
      if kind == PListen || kind == Listen {
        return;
      }
      if high == [] && low == [] && kind == Connected {
        var n := 0;
        match answer {
          case Sent(k) => n := if k < |data| then k else |data|;
          case Interrupted =>
          case WouldBlock =>
          case Failed =>
            ForceClose();
            return SocketClose;
        }
        if n == |data| {
          SentAtOnce(data, priority);
          return;
        }
        AppendSendBufferHigh(data, n, memory[..n], priority);
      } else if priority == Low {
        AppendSendBufferLow(data);
      } else {
        AppendSendBufferHigh(data, 0, [], priority);
      }
    }

    ghost method SentAtOnce(data: Message, priority: Priority)
      requires Ordered() && high == low == []
      modifies this`wire, this`done, this`submittedHigh, this`submittedLow
      ensures Ordered() && (Clean() <==> old(Clean())) && wire == old(wire) + data
      ensures submittedHigh == old(submittedHigh) + if priority.High? then [data] else []
      ensures submittedLow == old(submittedLow) + if priority.Low? then [data] else []
    {
      var t := Tagged(priority, data, []);
      assert t.Bytes() == data;
      WroteNow(writeBuffSize, wire, done, queue, submittedHigh, submittedLow, t);
      hide Consistent, NothingBehind;
      InsertedClean([], done, [], t);
      assert [] + (done + []) == done + queue && [] + (done + [t] + []) == done + [t] + queue;
      wire, done := wire + data, done + [t];
      submittedHigh := submittedHigh + if priority.High? then [data] else [];
      submittedLow := submittedLow + if priority.Low? then [data] else [];
    }
  }

  /** A direct write that takes one byte of three leaves two in a buffer whose size says three: the next write is asked
      for one byte past their end, and the peer gets the message and that byte. */
  method ShortWrite(memory: seq<Byte>) returns (s: Socket)
    requires |memory| >= 3
    ensures fresh(s) && s.Valid() && s.high == s.low == [] && s.submittedHigh == [[1, 2, 3]]
    ensures s.wire == [1, 2, 3] + memory[..1]
  {
    hide Consistent, Whole, AllRemaining, AllSpan, NothingBehind;
    s := new Socket(7, Connected);
    var code := s.SendSocket(7, [1, 2, 3], High, Sent(1), memory);
    var b := Buffer([1, 2, 3], 1, 3, memory[..1]);
    assert s.high == [b] && !s.RightSizes() && b.off + b.sz == |b.data| + 1;
    var rest;
    code, rest := s.SendWriteBuffer([Sent(3)]);
  }
}
