/** Shortest paths (dijkstra.lua): Dijkstra's algorithm, the walk back along Prev, and A* with its constant
    heuristic. */
module LuaDijkstra {
  import opened Basics

  type Node = string

  /** For each node, the arcs that leave it with their lengths, which are strings of digits in the input. */
  type Graph = map<Node, map<Node, nat>>

  ghost predicate WellFormed(g: Graph) {
    forall u, v :: u in g && v in g[u] ==> v in g
  }

  /** math.huge is `Inf`. */
  datatype Dist = Inf | Fin(d: nat)

  predicate Less(a: Dist, b: Dist) {
    a.Fin? && (b.Inf? || a.d < b.d)
  }

  function Plus(a: Dist, d: nat): Dist {
    if a.Inf? then Inf else Fin(a.d + d)
  }

  // ----- what a shortest distance is -----

  ghost predicate IsWalk(g: Graph, p: seq<Node>, s: Node, v: Node) {
    && |p| > 0 && p[0] == s && p[|p| - 1] == v
    && (forall u <- p :: u in g)
    && forall i :: 0 <= i < |p| - 1 ==> p[i + 1] in g[p[i]]
  }

  ghost function Weight(g: Graph, p: seq<Node>): nat
    requires forall u <- p :: u in g
    requires forall i :: 0 <= i < |p| - 1 ==> p[i + 1] in g[p[i]]
  {
    if |p| <= 1 then 0
    else
      assert p[|p| - 2 + 1] in g[p[|p| - 2]];
      Weight(g, p[..|p| - 1]) + g[p[|p| - 2]][p[|p| - 1]]
  }

  /** d is the length of a walk from s to v and of no longer one; Inf when there is no walk. */
  ghost predicate Shortest(g: Graph, s: Node, v: Node, d: Dist) {
    && (d.Fin? ==> exists p :: IsWalk(g, p, s, v) && Weight(g, p) == d.d)
    && forall p :: IsWalk(g, p, s, v) ==> d.Fin? && d.d <= Weight(g, p)
  }

  lemma {:induction false} PrefixWeight(g: Graph, p: seq<Node>, s: Node, v: Node, i: nat)
    requires IsWalk(g, p, s, v) && i < |p|
    ensures IsWalk(g, p[..i + 1], s, p[i]) && Weight(g, p[..i + 1]) <= Weight(g, p)
    decreases |p|
  {
    if i == |p| - 1 {
      assert p[..i + 1] == p;
    } else {
      var q := p[..|p| - 1];
      PrefixWeight(g, q, s, p[|p| - 2], i);
      assert q[..i + 1] == p[..i + 1];
    }
  }

  // ----- the invariant -----

  /** The arcs from u to other nodes than those still to do have been looked at. */
  ghost predicate Relaxed(g: Graph, dist: map<Node, Dist>, u: Node, todo: set<Node>)
    requires WellFormed(g) && dist.Keys == g.Keys && u in g
  {
    forall v <- g[u] :: v !in todo ==> !Less(Plus(dist[u], g[u][v]), dist[v])
  }

  ghost predicate Linked(g: Graph, dist: map<Node, Dist>, u: Node, v: Node) {
    u in g && v in g[u] && u in dist && v in dist && dist[u].Fin? && dist[v] == Fin(dist[u].d + g[u][v])
  }

  /** Prev holds the last arc of a way whose length is in Dist. */
  ghost predicate Traced(g: Graph, s: Node, dist: map<Node, Dist>, prev: map<Node, Node>) {
    && dist.Keys == g.Keys
    && s in g && dist[s] == Fin(0) && s !in prev
    && (forall v <- g :: v != s ==> (v in prev <==> dist[v].Fin?))
    && (forall v <- prev :: Linked(g, dist, prev[v], v))
  }

  /** Of the nodes closed so far, rank says in which order they were closed; Prev leads back in that order. */
  ghost predicate Ordered(g: Graph, prev: map<Node, Node>, rank: map<Node, nat>) {
    && rank.Keys <= g.Keys
    && (forall v <- prev :: prev[v] in rank && (v in rank ==> rank[prev[v]] < rank[v]))
    && (forall u <- rank :: rank[u] < |rank|)
  }

  ghost predicate NearestClosed(g: Graph, dist: map<Node, Dist>, rank: map<Node, nat>)
    requires dist.Keys == g.Keys && rank.Keys <= g.Keys
  {
    forall v <- g :: v !in rank ==> Beyond(dist, rank, dist[v])
  }

  ghost predicate Beyond(dist: map<Node, Dist>, rank: map<Node, nat>, d: Dist)
    requires rank.Keys <= dist.Keys
  {
    forall u <- rank :: !Less(d, dist[u])
  }

  ghost predicate AllRelaxed(g: Graph, dist: map<Node, Dist>, rank: map<Node, nat>, cur: Node, todo: set<Node>)
    requires WellFormed(g) && dist.Keys == g.Keys && rank.Keys <= g.Keys
  {
    forall u <- rank :: Relaxed(g, dist, u, if u == cur then todo else {})
  }

  ghost predicate Inv(g: Graph, s: Node, dist: map<Node, Dist>, prev: map<Node, Node>, rank: map<Node, nat>, cur: Node,
                      todo: set<Node>) {
    && WellFormed(g) && Traced(g, s, dist, prev) && Ordered(g, prev, rank)
    && NearestClosed(g, dist, rank) && AllRelaxed(g, dist, rank, cur, todo)
  }

  lemma InvInitial(g: Graph, s: Node, dist: map<Node, Dist>)
    requires WellFormed(g) && s in g && dist.Keys == g.Keys
    requires forall v <- g :: dist[v] == if v == s then Fin(0) else Inf
    ensures Inv(g, s, dist, map[], map[], s, {})
  {
  }

  lemma InvKeys(g: Graph, s: Node, dist: map<Node, Dist>, prev: map<Node, Node>, rank: map<Node, nat>, cur: Node,
                todo: set<Node>)
    requires Inv(g, s, dist, prev, rank, cur, todo)
    ensures dist.Keys == g.Keys && rank.Keys <= g.Keys
    ensures Traced(g, s, dist, prev) && Ordered(g, prev, rank)
  {
  }

  /** Closing a node that is nearest among those not closed. */
  lemma Closed(g: Graph, s: Node, dist: map<Node, Dist>, prev: map<Node, Node>, rank: map<Node, nat>, cur: Node,
               u: Node)
    requires Inv(g, s, dist, prev, rank, cur, {})
    requires u in g && u !in rank && forall v <- g :: v !in rank ==> !Less(dist[v], dist[u])
    ensures Inv(g, s, dist, prev, rank[u := |rank|], u, g[u].Keys)
    ensures Beyond(dist, rank[u := |rank|], dist[u])
  {
    hide Traced, Relaxed;
    TracedKeys(g, s, dist, prev);
    OrderedKeys(g, prev, rank);
    OrderedNext(g, prev, rank, u);
    hide Ordered;
    var rank2 := rank[u := |rank|];
    forall v <- g | v !in rank2
      ensures Beyond(dist, rank2, dist[v])
    {
      assert Beyond(dist, rank, dist[v]);
    }
    assert Beyond(dist, rank, dist[u]);
    forall c <- rank2
      ensures Relaxed(g, dist, c, if c == u then g[u].Keys else {})
    {
      if c == u {
        NothingDone(g, dist, u);
      } else {
        assert Relaxed(g, dist, c, {});
      }
    }
  }

  lemma NothingDone(g: Graph, dist: map<Node, Dist>, u: Node)
    requires WellFormed(g) && dist.Keys == g.Keys && u in g
    ensures Relaxed(g, dist, u, g[u].Keys)
  {
  }

  lemma OrderedNext(g: Graph, prev: map<Node, Node>, rank: map<Node, nat>, u: Node)
    requires Ordered(g, prev, rank) && u in g && u !in rank
    ensures Ordered(g, prev, rank[u := |rank|])
  {
    assert |rank[u := |rank|]| == |rank| + 1;
  }

  lemma TracedKeys(g: Graph, s: Node, dist: map<Node, Dist>, prev: map<Node, Node>)
    requires Traced(g, s, dist, prev)
    ensures dist.Keys == g.Keys
  {
  }

  /** An arc that gives a shorter way leads to a node that is not closed. */
  lemma Improved(g: Graph, s: Node, dist: map<Node, Dist>, prev: map<Node, Node>, rank: map<Node, nat>, u: Node,
                 todo: set<Node>, v: Node)
    requires Inv(g, s, dist, prev, rank, u, todo) && u in rank && v in g[u] && v in todo
    requires Beyond(dist, rank, dist[u])
    requires Less(Plus(dist[u], g[u][v]), dist[v])
    ensures v !in rank
    ensures Inv(g, s, dist[v := Plus(dist[u], g[u][v])], prev[v := u], rank, u, todo - {v})
    ensures Beyond(dist[v := Plus(dist[u], g[u][v])], rank, dist[u])
  {
    hide Traced, Ordered, NearestClosed, AllRelaxed;
    TracedKeys(g, s, dist, prev);
    OrderedKeys(g, prev, rank);
    assert v !in rank;
    TracedStill(g, s, dist, prev, rank, v, u, g[u][v]);
    NearestStill(g, dist, rank, v, u, g[u][v]);
    RelaxedStill(g, dist, rank, v, u, g[u][v], todo);
  }

  lemma OrderedKeys(g: Graph, prev: map<Node, Node>, rank: map<Node, nat>)
    requires Ordered(g, prev, rank)
    ensures rank.Keys <= g.Keys
  {
  }

  lemma TracedStill(g: Graph, s: Node, dist: map<Node, Dist>, prev: map<Node, Node>, rank: map<Node, nat>, v: Node,
                    u: Node, w: nat)
    requires Traced(g, s, dist, prev) && Ordered(g, prev, rank)
    requires v in g && v !in rank && u in rank && v in g[u] && g[u][v] == w
    requires Less(Plus(dist[u], w), dist[v])
    ensures Traced(g, s, dist[v := Plus(dist[u], w)], prev[v := u])
    ensures Ordered(g, prev[v := u], rank)
  {
    hide Linked;
    var dist2, prev2 := dist[v := Plus(dist[u], w)], prev[v := u];
    LinkedNow(g, dist, u, v);
    forall x <- prev2
      ensures Linked(g, dist2, prev2[x], x)
    {
      if x != v {
        LinkedStill(g, dist, prev[x], x, v, dist2[v]);
      }
    }
  }

  lemma LinkedNow(g: Graph, dist: map<Node, Dist>, u: Node, v: Node)
    requires u in g && v in g[u] && dist.Keys == g.Keys && v in g && Less(Plus(dist[u], g[u][v]), dist[v])
    ensures Linked(g, dist[v := Plus(dist[u], g[u][v])], u, v)
  {
  }

  lemma LinkedStill(g: Graph, dist: map<Node, Dist>, u: Node, x: Node, v: Node, d: Dist)
    requires Linked(g, dist, u, x) && u != v && x != v
    ensures Linked(g, dist[v := d], u, x)
  {
  }

  lemma NearestStill(g: Graph, dist: map<Node, Dist>, rank: map<Node, nat>, v: Node, u: Node, w: nat)
    requires dist.Keys == g.Keys && rank.Keys <= g.Keys && NearestClosed(g, dist, rank)
    requires v in g && v !in rank && u in rank && Beyond(dist, rank, dist[u])
    ensures NearestClosed(g, dist[v := Plus(dist[u], w)], rank)
    ensures Beyond(dist[v := Plus(dist[u], w)], rank, dist[u])
  {
    var dist2 := dist[v := Plus(dist[u], w)];
    forall x <- g | x !in rank
      ensures Beyond(dist2, rank, dist2[x])
    {
      assert Beyond(dist, rank, dist[x]);
    }
  }

  lemma RelaxedStill(g: Graph, dist: map<Node, Dist>, rank: map<Node, nat>, v: Node, u: Node, w: nat, todo: set<Node>)
    requires WellFormed(g) && dist.Keys == g.Keys && rank.Keys <= g.Keys && AllRelaxed(g, dist, rank, u, todo)
    requires v in g && v !in rank && u in rank && v in g[u] && g[u][v] == w
    requires Less(Plus(dist[u], w), dist[v])
    ensures AllRelaxed(g, dist[v := Plus(dist[u], w)], rank, u, todo - {v})
  {
    var dist2 := dist[v := Plus(dist[u], w)];
    forall c <- rank
      ensures Relaxed(g, dist2, c, if c == u then todo - {v} else {})
    {
      assert Relaxed(g, dist, c, if c == u then todo else {});
    }
  }

  lemma Skipped(g: Graph, s: Node, dist: map<Node, Dist>, prev: map<Node, Node>, rank: map<Node, nat>, u: Node,
                todo: set<Node>, v: Node)
    requires Inv(g, s, dist, prev, rank, u, todo) && u in rank && v in g[u]
    requires !Less(Plus(dist[u], g[u][v]), dist[v])
    ensures Inv(g, s, dist, prev, rank, u, todo - {v})
  {
    forall c <- rank
      ensures Relaxed(g, dist, c, if c == u then todo - {v} else {})
    {
      assert Relaxed(g, dist, c, if c == u then todo else {});
    }
  }

  // ----- what the invariant gives -----

  /** A walk is no shorter than the distance of its end, when all nodes before the end are closed. */
  lemma {:induction false} WalkBound(g: Graph, s: Node, dist: map<Node, Dist>, prev: map<Node, Node>,
                                     rank: map<Node, nat>, cur: Node, p: seq<Node>, v: Node)
    requires Inv(g, s, dist, prev, rank, cur, {}) && IsWalk(g, p, s, v)
    requires forall i :: 0 <= i < |p| - 1 ==> p[i] in rank
    ensures dist[v].Fin? && dist[v].d <= Weight(g, p)
    decreases |p|
  {
    if |p| > 1 {
      var u := p[|p| - 2];
      assert IsWalk(g, p[..|p| - 1], s, u);
      WalkBound(g, s, dist, prev, rank, cur, p[..|p| - 1], u);
      assert u in rank && p[|p| - 2 + 1] in g[u];
      assert Relaxed(g, dist, u, {});
    }
  }

  /** A walk that leaves the closed nodes is no shorter than the distance of the first node outside. */
  lemma {:induction false} LeavingBound(g: Graph, s: Node, dist: map<Node, Dist>, prev: map<Node, Node>,
                                        rank: map<Node, nat>, cur: Node, p: seq<Node>, v: Node)
    returns (x: Node)
    requires Inv(g, s, dist, prev, rank, cur, {}) && IsWalk(g, p, s, v) && v !in rank
    ensures x in g && x !in rank && dist[x].Fin? && dist[x].d <= Weight(g, p)
  {
    hide Inv, Weight;
    var i := 0;
    while p[i] in rank
      decreases |p| - i
      invariant 0 <= i < |p|
      invariant forall j :: 0 <= j < i ==> p[j] in rank
    {
      i := i + 1;
    }
    x := p[i];
    PrefixWeight(g, p, s, v, i);
    WalkBound(g, s, dist, prev, rank, cur, p[..i + 1], x);
  }

  /** How far Prev leads back. */
  ghost function Rank(prev: map<Node, Node>, rank: map<Node, nat>, v: Node): nat {
    if v in rank then rank[v] else |rank|
  }

  /** The nodes that printpath prints: from v back along Prev. */
  ghost function Trail(g: Graph, prev: map<Node, Node>, rank: map<Node, nat>, v: Node): (p: seq<Node>)
    requires Ordered(g, prev, rank)
    decreases Rank(prev, rank, v)
  {
    if v in prev then [v] + Trail(g, prev, rank, prev[v]) else [v]
  }

  /** Following Prev meets no node twice. */
  lemma {:induction false} TrailDistinct(g: Graph, prev: map<Node, Node>, rank: map<Node, nat>, v: Node)
    requires Ordered(g, prev, rank)
    ensures var p := Trail(g, prev, rank, v); Distinct(p) && forall x <- p :: Rank(prev, rank, x) <= Rank(prev, rank, v)
    decreases Rank(prev, rank, v)
  {
    if v in prev {
      TrailDistinct(g, prev, rank, prev[v]);
      assert Rank(prev, rank, prev[v]) < Rank(prev, rank, v);
      assert v !in Trail(g, prev, rank, prev[v]);
    }
  }

  lemma NoTrail(g: Graph, s: Node, dist: map<Node, Dist>, prev: map<Node, Node>, rank: map<Node, nat>, v: Node)
    requires Traced(g, s, dist, prev) && Ordered(g, prev, rank) && v in g && dist[v].Inf?
    ensures Trail(g, prev, rank, v) == [v]
  {
  }

  ghost function Reverse(p: seq<Node>): seq<Node> {
    if p == [] then [] else Reverse(p[1..]) + [p[0]]
  }

  /** The printed nodes are, in reverse, a walk from the source of the length in Dist. */
  lemma {:induction false} TrailIsWalk(g: Graph, s: Node, dist: map<Node, Dist>, prev: map<Node, Node>,
                                       rank: map<Node, nat>, v: Node)
    requires Traced(g, s, dist, prev) && Ordered(g, prev, rank) && v in g && dist[v].Fin?
    ensures var p := Reverse(Trail(g, prev, rank, v)); IsWalk(g, p, s, v) && Weight(g, p) == dist[v].d
    decreases Rank(prev, rank, v)
  {
    var t := Trail(g, prev, rank, v);
    if v in prev {
      var u := prev[v];
      assert Linked(g, dist, u, v);
      TrailIsWalk(g, s, dist, prev, rank, u);
      assert t[1..] == Trail(g, prev, rank, u);
      OneMoreArc(g, s, Reverse(t[1..]), u, v);
    } else {
      assert t[1..] == [] && Reverse(t) == [v];
    }
  }

  lemma OneMoreArc(g: Graph, s: Node, p: seq<Node>, u: Node, v: Node)
    requires IsWalk(g, p, s, u) && v in g && v in g[u]
    ensures IsWalk(g, p + [v], s, v) && Weight(g, p + [v]) == Weight(g, p) + g[u][v]
  {
    var q := p + [v];
    assert q[..|q| - 1] == p && q[|q| - 2] == u;
    forall i | 0 <= i < |q| - 1
      ensures q[i + 1] in g[q[i]]
    {
      assert i < |p| - 1 ==> p[i + 1] in g[p[i]];
    }
  }

  /** When every node is closed, Dist is exact. */
  lemma {:induction false} AllExact(g: Graph, s: Node, dist: map<Node, Dist>, prev: map<Node, Node>,
                                    rank: map<Node, nat>, cur: Node, v: Node)
    requires Inv(g, s, dist, prev, rank, cur, {}) && rank.Keys == g.Keys && v in g
    ensures Shortest(g, s, v, dist[v])
  {
    forall p | IsWalk(g, p, s, v)
      ensures dist[v].Fin? && dist[v].d <= Weight(g, p)
    {
      WalkBound(g, s, dist, prev, rank, cur, p, v);
    }
    if dist[v].Fin? {
      TrailIsWalk(g, s, dist, prev, rank, v);
    }
  }

  /** A node that is nearest among those not closed has its exact distance. */
  lemma {:induction false} NearestExact(g: Graph, s: Node, dist: map<Node, Dist>, prev: map<Node, Node>,
                                        rank: map<Node, nat>, cur: Node, v: Node)
    requires Inv(g, s, dist, prev, rank, cur, {}) && v in g && v !in rank
    requires forall x <- g :: x !in rank ==> !Less(dist[x], dist[v])
    ensures Shortest(g, s, v, dist[v])
  {
    forall p | IsWalk(g, p, s, v)
      ensures dist[v].Fin? && dist[v].d <= Weight(g, p)
    {
      var x := LeavingBound(g, s, dist, prev, rank, cur, p, v);
      assert !Less(dist[x], dist[v]);
    }
    if dist[v].Fin? {
      TrailIsWalk(g, s, dist, prev, rank, v);
    }
  }

  // ----- the algorithms -----

  method PrintPath(prev: map<Node, Node>, target: Node, ghost g: Graph, ghost rank: map<Node, nat>)
    returns (names: seq<Node>)
    requires Ordered(g, prev, rank)
    ensures names == Trail(g, prev, rank, target) && Distinct(names)
  {
    names := [];
    var node := target;
    while node in prev
      invariant names + Trail(g, prev, rank, node) == Trail(g, prev, rank, target)
      decreases Rank(prev, rank, node)
    {
      assert names + Trail(g, prev, rank, node) == (names + [node]) + Trail(g, prev, rank, prev[node]);
      names := names + [node];
      node := prev[node];
    }
    names := names + [node];
    TrailDistinct(g, prev, rank, target);
  }

  lemma NoneTwice()
    ensures var none: seq<Node> := []; Distinct(none)
  {
  }

  lemma OneMoreNode(s: seq<Node>, v: Node)
    requires Distinct(s) && v !in s
    ensures Distinct(s + [v])
  {
  }

  /** OpenSet is a list, from which the first nearest node is taken. */
  method ExtractMin(openSet: seq<Node>, dist: map<Node, Dist>) returns (u: Node, rest: seq<Node>)
    requires openSet != [] && Distinct(openSet) && forall v <- openSet :: v in dist
    ensures u in openSet && forall v <- openSet :: !Less(dist[v], dist[u])
    ensures Distinct(rest) && |rest| == |openSet| - 1
    ensures forall v :: v in rest <==> v in openSet && v != u
    ensures exists k :: 0 <= k < |openSet| && openSet[k] == u && rest == openSet[..k] + openSet[k + 1..] &&
                        forall j :: 0 <= j < k ==> Less(dist[u], dist[openSet[j]])
  {
    var minIndex := 0;
    var i := 1;
    while i < |openSet|
      invariant 1 <= i <= |openSet| && 0 <= minIndex < i
      invariant forall j :: 0 <= j < i ==> !Less(dist[openSet[j]], dist[openSet[minIndex]])
      invariant forall j :: 0 <= j < minIndex ==> Less(dist[openSet[minIndex]], dist[openSet[j]])
    {
      if Less(dist[openSet[i]], dist[openSet[minIndex]]) {
        minIndex := i;
      }
      i := i + 1;
    }
    u := openSet[minIndex];
    rest := openSet[..minIndex] + openSet[minIndex + 1..];
  }

  /** dijkstra goes through the arcs of the node u that it has closed. */
  method RelaxArcs(g: Graph, u: Node, dist0: map<Node, Dist>, prev0: map<Node, Node>, ghost s: Node,
                   ghost rank: map<Node, nat>)
    returns (dist: map<Node, Dist>, prev: map<Node, Node>)
    requires u in g && u in rank && Inv(g, s, dist0, prev0, rank, u, g[u].Keys) && u in dist0
    requires rank.Keys <= dist0.Keys && Beyond(dist0, rank, dist0[u])
    ensures Inv(g, s, dist, prev, rank, u, {})
  {
    hide Inv, Beyond;
    dist, prev := dist0, prev0;
    var arcs := g[u].Keys;
    InvKeys(g, s, dist, prev, rank, u, arcs);
    while arcs != {}
      invariant arcs <= g[u].Keys
      invariant Inv(g, s, dist, prev, rank, u, arcs) && dist.Keys == g.Keys
      invariant rank.Keys <= dist.Keys && Beyond(dist, rank, dist[u])
      decreases arcs
    {
      var v :| v in arcs;
      ArcWithin(g, s, dist, prev, rank, u, arcs, v);
      if Less(Plus(dist[u], g[u][v]), dist[v]) {
        Improved(g, s, dist, prev, rank, u, arcs, v);
        dist := dist[v := Plus(dist[u], g[u][v])];
        prev := prev[v := u];
      } else {
        Skipped(g, s, dist, prev, rank, u, arcs, v);
      }
      arcs := arcs - {v};
    }
  }

  lemma ArcWithin(g: Graph, s: Node, dist: map<Node, Dist>, prev: map<Node, Node>, rank: map<Node, nat>, u: Node,
                  todo: set<Node>, v: Node)
    requires Inv(g, s, dist, prev, rank, u, todo) && u in g && v in g[u]
    ensures v in g && v in dist
  {
  }

  /** Dijkstra's algorithm computes the shortest distance of every node, and Prev leads back along such a walk. */
  method Dijkstra(g: Graph, source: Node, target: Node) returns (dist: map<Node, Dist>, names: seq<Node>)
    requires WellFormed(g) && source in g && target in g
    ensures dist.Keys == g.Keys && forall v <- g :: Shortest(g, source, v, dist[v])
    ensures Distinct(names)
    ensures if dist[target].Fin? then
              IsWalk(g, Reverse(names), source, target) && Weight(g, Reverse(names)) == dist[target].d
            else names == [target]
  {
    hide Shortest, IsWalk, Weight, Inv, Traced, Ordered, NearestClosed, AllRelaxed, Trail, Beyond, Distinct;
    NoneTwice();
    var openSet: seq<Node> := [];
    var prev: map<Node, Node> := map[];
    dist := map[];
    var nodes := g.Keys;
    while nodes != {}
      invariant nodes <= g.Keys && Distinct(openSet)
      invariant forall v :: v in openSet <==> v in g && v !in nodes
      invariant dist.Keys == g.Keys - nodes && forall v <- dist :: dist[v] == Inf
      decreases nodes
    {
      var node :| node in nodes;
      nodes := nodes - {node};
      OneMoreNode(openSet, node);
      openSet := openSet + [node];
      dist := dist[node := Inf];
    }
    dist := dist[source := Fin(0)];
    ghost var rank: map<Node, nat>, cur := map[], source;
    InvInitial(g, source, dist);
    while |openSet| > 0
      invariant Distinct(openSet)
      invariant Inv(g, source, dist, prev, rank, cur, {})
      invariant forall v :: v in openSet <==> v in g && v !in rank
      decreases |openSet|
    {
      InvKeys(g, source, dist, prev, rank, cur, {});
      var u, rest := ExtractMin(openSet, dist);
      openSet := rest;
      Closed(g, source, dist, prev, rank, cur, u);
      rank, cur := rank[u := |rank|], u;
      InvKeys(g, source, dist, prev, rank, cur, g[u].Keys);
      dist, prev := RelaxArcs(g, u, dist, prev, source, rank);
    }
    InvKeys(g, source, dist, prev, rank, cur, {});
    assert rank.Keys == g.Keys;
    forall v <- g
      ensures Shortest(g, source, v, dist[v])
    {
      AllExact(g, source, dist, prev, rank, cur, v);
    }
    names := PrintPath(prev, target, g, rank);
    if dist[target].Fin? {
      TrailIsWalk(g, source, dist, prev, rank, target);
    } else {
      NoTrail(g, source, dist, prev, rank, target);
    }
  }

  const HEURISTIC := 1

  /** OpenSet is a set here; a node of least Fscore, in whatever order `pairs` gives them, is taken from it. */
  method ExtractMinFscore(openSet: set<Node>, fscore: map<Node, Dist>) returns (u: Node, rest: set<Node>)
    requires openSet != {} && openSet <= fscore.Keys
    ensures u in openSet && forall v <- openSet :: !Less(fscore[v], fscore[u])
    ensures rest == openSet - {u}
  {
    u :| u in openSet;
    var nodes := openSet - {u};
    while nodes != {}
      invariant nodes <= openSet && u in openSet
      invariant forall v <- openSet :: v !in nodes ==> !Less(fscore[v], fscore[u])
      decreases nodes
    {
      var v :| v in nodes;
      nodes := nodes - {v};
      if Less(fscore[v], fscore[u]) {
        u := v;
      }
    }
    rest := openSet - {u};
  }

  /** Open nodes have a score, and nodes that are neither open nor closed have none. */
  ghost predicate Scored(g: Graph, openSet: set<Node>, rank: map<Node, nat>, gscore: map<Node, Dist>,
                         fscore: map<Node, Dist>) {
    && openSet <= g.Keys && gscore.Keys == g.Keys && fscore.Keys == g.Keys && openSet !! rank.Keys
    && (forall v <- openSet :: gscore[v].Fin? && fscore[v] == Plus(gscore[v], 1))
    && forall v <- g :: v !in openSet && v !in rank ==> gscore[v] == Inf
  }

  lemma ScoredNearest(g: Graph, openSet: set<Node>, rank: map<Node, nat>, gscore: map<Node, Dist>,
                      fscore: map<Node, Dist>, u: Node)
    requires Scored(g, openSet, rank, gscore, fscore) && u in openSet
    requires forall v <- openSet :: !Less(fscore[v], fscore[u])
    ensures u in g && u !in rank && gscore[u].Fin?
    ensures forall v <- g :: v !in rank ==> !Less(gscore[v], gscore[u])
    ensures Scored(g, openSet - {u}, rank[u := |rank|], gscore, fscore)
  {
  }

  lemma ScoredOpened(g: Graph, openSet: set<Node>, rank: map<Node, nat>, gscore: map<Node, Dist>,
                     fscore: map<Node, Dist>, v: Node, d: Dist)
    requires Scored(g, openSet, rank, gscore, fscore) && v in g && v !in rank && d.Fin?
    ensures Scored(g, openSet + {v}, rank, gscore[v := d], fscore[v := Plus(d, HEURISTIC)])
  {
  }

  lemma ScoredDone(g: Graph, s: Node, gscore: map<Node, Dist>, prev: map<Node, Node>, rank: map<Node, nat>, cur: Node,
                   fscore: map<Node, Dist>, v: Node)
    requires Inv(g, s, gscore, prev, rank, cur, {}) && Scored(g, {}, rank, gscore, fscore) && v in g && v !in rank
    ensures Shortest(g, s, v, Inf)
  {
    NearestExact(g, s, gscore, prev, rank, cur, v);
  }

  /** A closed node is not reached by a shorter way, so leaving it alone loses nothing. */
  lemma ClosedSkipped(g: Graph, s: Node, dist: map<Node, Dist>, prev: map<Node, Node>, rank: map<Node, nat>, u: Node,
                      todo: set<Node>, v: Node)
    requires Inv(g, s, dist, prev, rank, u, todo) && u in rank && v in g[u] && v in rank
    requires Beyond(dist, rank, dist[u])
    ensures Inv(g, s, dist, prev, rank, u, todo - {v})
  {
    Skipped(g, s, dist, prev, rank, u, todo, v);
  }

  /** astar closes the node u and goes through its arcs. */
  method Expand(g: Graph, u: Node, closeSet0: set<Node>, gscore0: map<Node, Dist>, fscore0: map<Node, Dist>,
                prev0: map<Node, Node>, openSet0: set<Node>, ghost s: Node, ghost rank0: map<Node, nat>,
                ghost cur: Node)
    returns (closeSet: set<Node>, gscore: map<Node, Dist>, fscore: map<Node, Dist>, prev: map<Node, Node>,
             openSet: set<Node>)
    requires closeSet0 == rank0.Keys && u in g && u !in closeSet0
    requires Inv(g, s, gscore0, prev0, rank0, cur, {}) && Scored(g, openSet0, rank0[u := |rank0|], gscore0, fscore0)
    requires gscore0[u].Fin? && forall v <- g :: v !in rank0 ==> !Less(gscore0[v], gscore0[u])
    ensures closeSet == closeSet0 + {u} == rank0[u := |rank0|].Keys <= g.Keys
    ensures Inv(g, s, gscore, prev, rank0[u := |rank0|], u, {})
    ensures Scored(g, openSet, rank0[u := |rank0|], gscore, fscore)
  {
    hide Traced, Ordered, NearestClosed, AllRelaxed;
    Closed(g, s, gscore0, prev0, rank0, cur, u);
    ghost var rank := rank0[u := |rank0|];
    OrderedKeys(g, prev0, rank);
    closeSet := closeSet0 + {u};
    gscore, fscore, prev, openSet := gscore0, fscore0, prev0, openSet0;
    var arcs := g[u].Keys;
    while arcs != {}
      invariant arcs <= g[u].Keys
      invariant Inv(g, s, gscore, prev, rank, u, arcs) && Scored(g, openSet, rank, gscore, fscore)
      invariant Beyond(gscore, rank, gscore[u]) && gscore[u].Fin?
      decreases arcs
    {
      hide Scored, Beyond;
      var v :| v in arcs;
      ScoredKeys(g, openSet, rank, gscore, fscore);
      if v !in closeSet {
        var tentative := Plus(gscore[u], g[u][v]);
        if v !in openSet || Less(tentative, gscore[v]) {
          Improved(g, s, gscore, prev, rank, u, arcs, v);
          ScoredOpened(g, openSet, rank, gscore, fscore, v, tentative);
          gscore := gscore[v := tentative];
          fscore := fscore[v := Plus(gscore[v], HEURISTIC)];
          prev := prev[v := u];
          openSet := openSet + {v};
        } else {
          Skipped(g, s, gscore, prev, rank, u, arcs, v);
        }
      } else {
        ClosedSkipped(g, s, gscore, prev, rank, u, arcs, v);
      }
      arcs := arcs - {v};
    }
  }

  /** A* stops at the target with its shortest distance and such a walk, or reports nothing when there is no walk. */
  method AStar(g: Graph, source: Node, target: Node) returns (found: bool, d: Dist, names: seq<Node>)
    requires WellFormed(g) && source in g && target in g
    ensures Shortest(g, source, target, d) && (found <==> d.Fin?)
    ensures Distinct(names) && (!found ==> names == [])
    ensures found ==> IsWalk(g, Reverse(names), source, target) && Weight(g, Reverse(names)) == d.d
  {
    hide Shortest, IsWalk, Weight, Inv, Traced, Ordered, NearestClosed, AllRelaxed, Trail;
    var closeSet: set<Node> := {};
    var openSet := {source};
    var prev: map<Node, Node> := map[];
    var gscore := map v | v in g.Keys :: Inf;
    var fscore := map v | v in g.Keys :: Inf;
    gscore := gscore[source := Fin(0)];
    fscore := fscore[source := Plus(gscore[source], HEURISTIC)];
    ghost var rank: map<Node, nat>, cur := map[], source;
    InvInitial(g, source, gscore);
    while openSet != {}
      invariant closeSet == rank.Keys <= g.Keys && target !in closeSet
      invariant Inv(g, source, gscore, prev, rank, cur, {}) && Scored(g, openSet, rank, gscore, fscore)
      decreases g.Keys - closeSet
    {
      ScoredKeys(g, openSet, rank, gscore, fscore);
      var u, rest := ExtractMinFscore(openSet, fscore);
      ScoredNearest(g, openSet, rank, gscore, fscore, u);
      hide Scored;
      if u == target {
        NearestExact(g, source, gscore, prev, rank, cur, u);
        InvKeys(g, source, gscore, prev, rank, cur, {});
        TrailIsWalk(g, source, gscore, prev, rank, u);
        names := PrintPath(prev, target, g, rank);
        return true, gscore[target], names;
      }
      openSet := rest;
      closeSet, gscore, fscore, prev, openSet :=
        Expand(g, u, closeSet, gscore, fscore, prev, openSet, source, rank, cur);
      rank, cur := rank[u := |rank|], u;
    }
    ScoredDone(g, source, gscore, prev, rank, cur, fscore, target);
    found, d, names := false, Inf, [];
  }

  lemma ScoredKeys(g: Graph, openSet: set<Node>, rank: map<Node, nat>, gscore: map<Node, Dist>, fscore: map<Node, Dist>)
    requires Scored(g, openSet, rank, gscore, fscore)
    ensures openSet <= g.Keys && gscore.Keys == g.Keys && fscore.Keys == g.Keys
    ensures forall v <- g :: v !in openSet && v !in rank ==> gscore[v] == Inf
  {
  }
}
