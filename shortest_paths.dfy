/** The shortest-path oracle both drafts call: `dijkstra_path_length`
    wrapped so that a missing route yields +infinity instead of an
    exception, and the weighted routes `shortest_path` hands to trips.
    Distances are specified, not computed the way Dijkstra does: the least
    length of a walk with at most |V| hops, by a Bellman-Ford recursion. */
module ShortestPaths {
  import opened Seqs
  import opened Graphs

  /** A path length: a finite weight sum, or `Inf` for numpy's `inf`. */
  datatype Dist = Fin(len: real) | Inf

  function Plus(a: Dist, b: Dist): Dist {
    if a.Fin? && b.Fin? then Fin(a.len + b.len) else Inf
  }

  function Min(a: Dist, b: Dist): (r: Dist)
    ensures r == a || r == b
    ensures AtMost(r, a) && AtMost(r, b)
  {
    match (a, b)
    case (Inf, _) => b
    case (_, Inf) => a
    case (Fin(x), Fin(y)) => if x <= y then a else b
  }

  /** `a <= b` on the extended reals. */
  predicate AtMost(a: Dist, b: Dist) {
    b.Fin? ==> a.Fin? && a.len <= b.len
  }

  /** Least length of a walk from `s` to `t` with at most `k` hops. */
  function Within(g: Graph, s: Node, t: Node, k: nat): Dist
    decreases k, 0
  {
    if k == 0 then (if s == t then Fin(0.0) else Inf)
    else Min(Within(g, s, t, k - 1), LastHop(g, s, t, k - 1, g.nodes))
  }

  /** Best walk of at most `k + 1` hops whose last hop comes from a node of `us`. */
  function LastHop(g: Graph, s: Node, t: Node, k: nat, us: seq<Node>): Dist
    decreases k, |us|
  {
    if us == [] then Inf
    else
      var via := if Adjacent(g, us[0], t) then Plus(Within(g, s, us[0], k), Fin(Weight(g, us[0], t))) else Inf;
      Min(via, LastHop(g, s, t, k, us[1..]))
  }

  /** `calculate_shortest_path(source, target)` / `CalculateShortestPath(G,
      source, target)`: the weighted shortest-path length, `Inf` when no route
      exists. An unknown source makes networkx raise `NodeNotFound`, which
      neither draft catches; hence the precondition. An unknown target is
      reported as `NetworkXNoPath`, which both drafts turn into `np.inf`
      (`ShortestUnknownTarget`). */
  function ShortestDistance(g: Graph, s: Node, t: Node): Dist
    requires s in g.nodes
  {
    Within(g, s, t, |g.nodes|)
  }

  predicate Reachable(g: Graph, s: Node, t: Node)
    requires s in g.nodes && t in g.nodes
  {
    ShortestDistance(g, s, t).Fin?
  }

  /** A target outside the network is at distance `Inf`, as networkx's
      `NetworkXNoPath` caught by both drafts makes it. */
  lemma ShortestUnknownTarget(g: Graph, s: Node, t: Node)
    requires Valid(g) && s in g.nodes && t !in g.nodes
    ensures ShortestDistance(g, s, t) == Inf
  {
    WithinUnknownTarget(g, s, t, |g.nodes|);
  }

  lemma {:induction false} WithinUnknownTarget(g: Graph, s: Node, t: Node, k: nat)
    requires Valid(g) && s in g.nodes && t !in g.nodes
    ensures Within(g, s, t, k) == Inf
    decreases k, 0
  {
    if k > 0 {
      WithinUnknownTarget(g, s, t, k - 1);
      LastHopUnknownTarget(g, s, t, k - 1, g.nodes);
    }
  }

  lemma {:induction false} LastHopUnknownTarget(g: Graph, s: Node, t: Node, k: nat, us: seq<Node>)
    requires Valid(g) && s in g.nodes && t !in g.nodes
    ensures LastHop(g, s, t, k, us) == Inf
    decreases k, |us|
  {
    if us != [] {
      assert !Adjacent(g, us[0], t) by {
        assert (us[0], t) in g.weight ==> StoredWell(g, (us[0], t));
        assert (t, us[0]) in g.weight ==> StoredWell(g, (t, us[0]));
      }
      LastHopUnknownTarget(g, s, t, k, us[1..]);
    }
  }

  // ---------------------------------------------------------------------
  // The recursion is attained by a walk ...

  lemma {:induction false} WithinWitness(g: Graph, s: Node, t: Node, k: nat) returns (p: seq<Node>)
    requires Within(g, s, t, k).Fin?
    ensures Joins(g, p, s, t) && |p| <= k + 1
    ensures WalkLength(g, p) == Within(g, s, t, k).len
    decreases k, 0
  {
    if k == 0 {
      p := [s];
    } else if Within(g, s, t, k) == Within(g, s, t, k - 1) {
      p := WithinWitness(g, s, t, k - 1);
    } else {
      var u, q := LastHopWitness(g, s, t, k - 1, g.nodes);
      p := q + [t];
      assert p[..|p| - 1] == q;
    }
  }

  lemma {:induction false} LastHopWitness(g: Graph, s: Node, t: Node, k: nat, us: seq<Node>)
    returns (u: Node, q: seq<Node>)
    requires LastHop(g, s, t, k, us).Fin?
    ensures u in us && Adjacent(g, u, t)
    ensures Joins(g, q, s, u) && |q| <= k + 1
    ensures WalkLength(g, q) + Weight(g, u, t) == LastHop(g, s, t, k, us).len
    decreases k, |us|
  {
    var via := if Adjacent(g, us[0], t) then Plus(Within(g, s, us[0], k), Fin(Weight(g, us[0], t))) else Inf;
    if LastHop(g, s, t, k, us) == via {
      u := us[0];
      q := WithinWitness(g, s, u, k);
    } else {
      u, q := LastHopWitness(g, s, t, k, us[1..]);
    }
  }

  // ... and bounded by every walk short enough.

  lemma {:induction false} WithinOptimal(g: Graph, p: seq<Node>, s: Node, t: Node, k: nat)
    requires Valid(g) && Joins(g, p, s, t) && |p| <= k + 1
    ensures AtMost(Within(g, s, t, k), Fin(WalkLength(g, p)))
    decreases k
  {
    if k > 0 {
      if |p| <= k {
        WithinOptimal(g, p, s, t, k - 1);
      } else {
        var q := p[..|p| - 1];
        var u := p[|p| - 2];
        WalkSlice(g, p, 0, |p| - 1);
        WithinOptimal(g, q, s, u, k - 1);
        WalkInNodes(g, p);
        LastHopBound(g, s, t, k - 1, g.nodes, u);
      }
    }
  }

  lemma {:induction false} LastHopBound(g: Graph, s: Node, t: Node, k: nat, us: seq<Node>, u: Node)
    requires u in us && Adjacent(g, u, t)
    ensures AtMost(LastHop(g, s, t, k, us), Plus(Within(g, s, u, k), Fin(Weight(g, u, t))))
    decreases |us|
  {
    if us[0] != u {
      LastHopBound(g, s, t, k, us[1..], u);
    }
  }

  /** A walk visiting more nodes than the network has repeats one; cutting
      out the loop between the repeats gives a shorter walk that is no
      longer (weights are non-negative). */
  lemma ShortenWalk(g: Graph, p: seq<Node>, s: Node, t: Node) returns (q: seq<Node>)
    requires Valid(g) && Joins(g, p, s, t) && |p| > |g.nodes| + 1
    ensures Joins(g, q, s, t) && |q| < |p| && WalkLength(g, q) <= WalkLength(g, p)
  {
    var i, j := RepeatedNode(g, p);
    q := CutLoop(g, p, i, j);
  }

  lemma RepeatedNode(g: Graph, p: seq<Node>) returns (i: nat, j: nat)
    requires Valid(g) && IsWalk(g, p) && |p| > |g.nodes| + 1
    ensures i < j < |p| && p[i] == p[j]
  {
    WalkInNodes(g, p);
    ElemsCard(g.nodes);
    var elems := set x | x in g.nodes;
    forall k | 0 <= k < |p|
      ensures p[k] in elems
    {
      assert p[k] in g.nodes;
    }
    i, j := Pigeonhole(p, elems);
  }

  /** Cutting the loop `p[i..j]` (where `p[i] == p[j]`) out of a walk. */
  lemma CutLoop(g: Graph, p: seq<Node>, i: nat, j: nat) returns (q: seq<Node>)
    requires Valid(g) && IsWalk(g, p) && i < j < |p| && p[i] == p[j]
    ensures Joins(g, q, p[0], p[|p| - 1]) && |q| < |p| && WalkLength(g, q) <= WalkLength(g, p)
  {
    WalkSplit(g, p, j);
    var front := p[..j + 1];
    WalkSplit(g, front, i);
    var a, m, b := front[..i + 1], front[i..], p[j..];
    WalkLengthNonNeg(g, m);
    WalkAppend(g, a, b);
    q := a + b[1..];
    assert q[0] == p[0] && q[|q| - 1] == p[|p| - 1];
  }

  /** Splitting a walk at a node splits its length. */
  lemma WalkSplit(g: Graph, p: seq<Node>, j: nat)
    requires IsWalk(g, p) && j < |p|
    ensures IsWalk(g, p[..j + 1]) && IsWalk(g, p[j..])
    ensures WalkLength(g, p) == WalkLength(g, p[..j + 1]) + WalkLength(g, p[j..])
  {
    SplitRejoin(p, j);
    WalkSlice(g, p, 0, j + 1);
    WalkSlice(g, p, j, |p|);
    WalkAppend(g, p[..j + 1], p[j..]);
  }

  /** Splitting a sequence at `j`, keeping `p[j]` in both halves, and
      gluing the halves back loses nothing. */
  lemma SplitRejoin(p: seq<Node>, j: nat)
    requires j < |p|
    ensures p[0..j + 1] == p[..j + 1] && p[j..|p|] == p[j..]
    ensures p[..j + 1][j] == p[j..][0]
    ensures p[..j + 1] + p[j..][1..] == p
  {
  }

  /** `calculate_shortest_path` returns at most the length of any route
      between the two nodes. */
  lemma {:induction false} ShortestAtMostWalk(g: Graph, p: seq<Node>, s: Node, t: Node)
    requires Valid(g) && s in g.nodes && t in g.nodes && Joins(g, p, s, t)
    ensures Reachable(g, s, t)
    ensures ShortestDistance(g, s, t).len <= WalkLength(g, p)
    decreases |p|
  {
    if |p| <= |g.nodes| + 1 {
      WithinOptimal(g, p, s, t, |g.nodes|);
    } else {
      var q := ShortenWalk(g, p, s, t);
      ShortestAtMostWalk(g, q, s, t);
    }
  }

  /** A finite `calculate_shortest_path` value is the length of an actual
      route, and no shorter route exists: it is the minimum weighted length. */
  lemma ShortestAttained(g: Graph, s: Node, t: Node) returns (p: seq<Node>)
    requires Valid(g) && s in g.nodes && t in g.nodes && Reachable(g, s, t)
    ensures Joins(g, p, s, t) && WalkLength(g, p) == ShortestDistance(g, s, t).len
    ensures forall q | Joins(g, q, s, t) :: ShortestDistance(g, s, t).len <= WalkLength(g, q)
  {
    p := WithinWitness(g, s, t, |g.nodes|);
    forall q | Joins(g, q, s, t)
      ensures ShortestDistance(g, s, t).len <= WalkLength(g, q)
    {
      ShortestAtMostWalk(g, q, s, t);
    }
  }

  /** The oracle answers `Inf` (never raises) exactly when no route joins
      the two nodes. */
  lemma UnreachableIffNoWalk(g: Graph, s: Node, t: Node)
    requires Valid(g) && s in g.nodes && t in g.nodes
    ensures ShortestDistance(g, s, t) == Inf <==> !exists p :: Joins(g, p, s, t)
  {
    if ShortestDistance(g, s, t).Fin? {
      var p := WithinWitness(g, s, t, |g.nodes|);
    } else {
      forall p | Joins(g, p, s, t)
        ensures false
      {
        ShortestAtMostWalk(g, p, s, t);
      }
    }
  }

  /** Shortest distances are never negative, and a node is at distance 0
      from itself. */
  lemma ShortestNonNeg(g: Graph, s: Node, t: Node)
    requires Valid(g) && s in g.nodes && t in g.nodes && Reachable(g, s, t)
    ensures ShortestDistance(g, s, t).len >= 0.0
  {
    var p := WithinWitness(g, s, t, |g.nodes|);
    WalkLengthNonNeg(g, p);
  }

  lemma ShortestSelf(g: Graph, s: Node)
    requires Valid(g) && s in g.nodes
    ensures ShortestDistance(g, s, s) == Fin(0.0)
  {
    ShortestAtMostWalk(g, [s], s, s);
    ShortestNonNeg(g, s, s);
  }

  // ---------------------------------------------------------------------
  // Reachability is an equivalence on the network's nodes.

  lemma ReachableExtend(g: Graph, s: Node, u: Node, v: Node)
    requires Valid(g) && s in g.nodes && u in g.nodes && Adjacent(g, u, v)
    requires Reachable(g, s, u)
    ensures v in g.nodes && Reachable(g, s, v)
  {
    var p := WithinWitness(g, s, u, |g.nodes|);
    WalkAppend(g, p, [u, v]);
    assert p + [u, v][1..] == p + [v];
    WalkInNodes(g, [u, v]);
    ShortestAtMostWalk(g, p + [v], s, v);
  }

  lemma ReachableSymmetric(g: Graph, s: Node, t: Node)
    requires Valid(g) && s in g.nodes && t in g.nodes && Reachable(g, s, t)
    ensures Reachable(g, t, s)
  {
    var p := WithinWitness(g, s, t, |g.nodes|);
    var q := WalkReverse(g, p);
    ShortestAtMostWalk(g, q, t, s);
  }

  lemma ReachableTransitive(g: Graph, s: Node, u: Node, t: Node)
    requires Valid(g) && s in g.nodes && u in g.nodes && t in g.nodes
    requires Reachable(g, s, u) && Reachable(g, u, t)
    ensures Reachable(g, s, t)
  {
    var p := WithinWitness(g, s, u, |g.nodes|);
    var q := WithinWitness(g, u, t, |g.nodes|);
    WalkAppend(g, p, q);
    ShortestAtMostWalk(g, p + q[1..], s, t);
  }

  /** Building a road never disconnects anything: adding an edge (or
      re-weighting one) keeps every route a route. */
  lemma AddEdgeKeepsReachable(g: Graph, x: Node, y: Node, w: real, s: Node, t: Node)
    requires Valid(g) && x != y && w >= 0.0 && s in g.nodes && t in g.nodes
    requires Reachable(g, s, t)
    ensures var h := AddEdge(g, x, y, w); s in h.nodes && t in h.nodes && Reachable(h, s, t)
  {
    var h := AddEdge(g, x, y, w);
    AddEdgeValid(g, x, y, w);
    var p := WithinWitness(g, s, t, |g.nodes|);
    assert IsWalk(h, p);
    assert g.nodes <= h.nodes;
    ShortestAtMostWalk(h, p, s, t);
  }

  // ---------------------------------------------------------------------
  // Trips: the random draws of the simulation loops, given as input.

  /** One agent's trip: the sampled endpoints and what `nx.shortest_path`
      returned for them (`None` when it raised `NetworkXNoPath`). */
  datatype Trip = Trip(source: Node, target: Node, route: Option<seq<Node>>)

  /** The trip is what the simulation loop would produce on `g`: two
      distinct nodes (`random.sample(nodes, 2)` draws without replacement)
      and a shortest route between them, or `None` exactly when none exists. */
  ghost predicate Routed(g: Graph, t: Trip) {
    && t.source in g.nodes && t.target in g.nodes && t.source != t.target
    && match t.route
       case None => !Reachable(g, t.source, t.target)
       case Some(p) => Joins(g, p, t.source, t.target) && ShortestDistance(g, t.source, t.target) == Fin(WalkLength(g, p))
  }

  /** `random.sample(nodes, 2)` can draw a trip exactly when the network has
      at least two nodes; otherwise both loops skip the agent. */
  lemma DrawPossibleIffTwoNodes(g: Graph)
    requires Valid(g)
    ensures (exists s, t :: s in g.nodes && t in g.nodes && s != t) <==> |g.nodes| >= 2
  {
    if |g.nodes| >= 2 {
      var s, t := g.nodes[0], g.nodes[1];
      assert s in g.nodes && t in g.nodes && s != t;
    } else {
      forall s, t | s in g.nodes && t in g.nodes
        ensures s == t
      {
        assert s == g.nodes[0] && t == g.nodes[0];
      }
    }
  }

  /** A routed trip either has no route (its endpoints are disconnected) or
      routes over at least one road. */
  lemma RoutedHops(g: Graph, t: Trip)
    requires Valid(g) && Routed(g, t)
    ensures t.route.None? <==> ShortestDistance(g, t.source, t.target) == Inf
    ensures t.route.Some? ==> |t.route.value| >= 2
  {
  }
}
