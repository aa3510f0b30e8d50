/** `TrafficSimulation` (SimulationLogic.py): a road network, the planned
    traffic table `nt` fixed to the network's initial roads, and a greedy
    step that ranks the candidate roads by benefit and builds the best ones.
    The random trips of `simulate_traffic` are an input of the model. */
module SimulationLogic {
  import opened Seqs
  import opened Graphs
  import opened ShortestPaths
  import opened Tables
  import opened Ranking

  /** A new road is 80% as long as the route it short-cuts (lines 39, 103). */
  function Proposed(d: real): (r: real)
    ensures d >= 0.0 ==> 0.0 <= r <= d
  {
    d * 0.8
  }

  // ---------------------------------------------------------------------
  // Benefit of a candidate road (`benefit`, lines 36-52).

  /** Planned trips along the pair, in either direction. */
  function Volume(nt: Table, a: Node, b: Node): nat {
    Get(nt, (a, b)) + Get(nt, (b, a))
  }

  /** A road the benefit formula can score: distinct endpoints of the
      network with a route between them (otherwise the formula yields NaN). */
  predicate Candidate(g: Graph, r: Edge) {
    r.0 in g.nodes && r.1 in g.nodes && r.0 != r.1 && Reachable(g, r.0, r.1)
  }

  /** The pairs `(n1, n2)` with `n1` a neighbour of `y`, `n2` a neighbour of
      `x` and `n1 != n2`, in node order (networkx lists neighbours in
      edge-insertion order; only sums read the list). The list has no
      duplicates, so the source's `set(...)` around it keeps every pair
      exactly once. */
  function NeighbourPairs(g: Graph, x: Node, y: Node): (r: seq<Edge>)
    ensures forall p :: p in r <==> p.0 in g.nodes && Adjacent(g, y, p.0) && p.1 in g.nodes && Adjacent(g, x, p.1) && p.0 != p.1
  {
    PairsFrom(Neighbors(g, y), Neighbors(g, x))
  }

  function PairsFrom(n1s: seq<Node>, n2s: seq<Node>): (r: seq<Edge>)
    ensures forall p :: p in r <==> p.0 in n1s && p.1 in n2s && p.0 != p.1
  {
    if n1s == [] then []
    else PairsWith(n1s[0], n2s) + PairsFrom(n1s[1..], n2s)
  }

  function PairsWith(n1: Node, n2s: seq<Node>): (r: seq<Edge>)
    ensures forall p :: p in r <==> p.0 == n1 && p.1 in n2s && p.0 != p.1
  {
    if n2s == [] then []
    else (if n2s[0] != n1 then [(n1, n2s[0])] else []) + PairsWith(n1, n2s[1..])
  }

  /** Over a duplicate-free node order the pair list has no repeats. */
  lemma NeighbourPairsDistinct(g: Graph, x: Node, y: Node)
    requires Distinct(g.nodes)
    ensures Distinct(NeighbourPairs(g, x, y))
  {
    NeighborsDistinct(g, x);
    NeighborsDistinct(g, y);
    PairsFromDistinct(Neighbors(g, y), Neighbors(g, x));
  }

  lemma {:induction false} PairsFromDistinct(n1s: seq<Node>, n2s: seq<Node>)
    requires Distinct(n1s) && Distinct(n2s)
    ensures Distinct(PairsFrom(n1s, n2s))
    decreases |n1s|
  {
    if n1s != [] {
      DistinctTail(n1s);
      PairsWithDistinct(n1s[0], n2s);
      PairsFromDistinct(n1s[1..], n2s);
      DistinctConcat(PairsWith(n1s[0], n2s), PairsFrom(n1s[1..], n2s));
    }
  }

  lemma {:induction false} PairsWithDistinct(n1: Node, n2s: seq<Node>)
    requires Distinct(n2s)
    ensures Distinct(PairsWith(n1, n2s))
    decreases |n2s|
  {
    if n2s != [] {
      DistinctTail(n2s);
      PairsWithDistinct(n1, n2s[1..]);
      DistinctConcat(if n2s[0] != n1 then [(n1, n2s[0])] else [], PairsWith(n1, n2s[1..]));
    }
  }

  /** What one neighbour pair adds (lines 44-50), given the distances
      `x ~> n1`, `y ~> n2` and `n1 ~> n2`: the saving of the detour through
      the new road over the current route, times the pair's planned
      traffic, and nothing when the detour saves nothing. */
  function PairGain(toN1: Dist, toN2: Dist, original: Dist, proposed: real, volume: nat): (r: real)
    ensures r >= 0.0
  {
    match (toN1, toN2, original)
    case (Fin(a), Fin(b), Fin(o)) =>
      var detour := a + proposed + b;
      if detour < o then (o - detour) * volume as real else 0.0
    case _ => 0.0
  }

  function IndirectSum(g: Graph, nt: Table, x: Node, y: Node, proposed: real, ps: seq<Edge>): real
    requires x in g.nodes && y in g.nodes
    requires forall p | p in ps :: p.0 in g.nodes && p.1 in g.nodes
  {
    if ps == [] then 0.0
    else
      var p := ps[0];
      var gain := PairGain(ShortestDistance(g, x, p.0), ShortestDistance(g, y, p.1), ShortestDistance(g, p.0, p.1), proposed, Volume(nt, p.0, p.1));
      gain + IndirectSum(g, nt, x, y, proposed, ps[1..])
  }

  /** `benefit(x, y)`: the direct saving on the pair's own traffic plus
      the indirect savings of neighbouring pairs. */
  function Benefit(g: Graph, nt: Table, x: Node, y: Node): real
    requires x in g.nodes && y in g.nodes && Reachable(g, x, y)
  {
    var d := ShortestDistance(g, x, y).len;
    Direct(d, Volume(nt, x, y)) + IndirectSum(g, nt, x, y, Proposed(d), NeighbourPairs(g, x, y))
  }

  /** The benefit is its direct term plus its indirect sum. */
  lemma BenefitSplit(g: Graph, nt: Table, x: Node, y: Node)
    requires x in g.nodes && y in g.nodes && Reachable(g, x, y)
    ensures Benefit(g, nt, x, y) == Direct(ShortestDistance(g, x, y).len, Volume(nt, x, y))
      + IndirectSum(g, nt, x, y, Proposed(ShortestDistance(g, x, y).len), NeighbourPairs(g, x, y))
  {
  }

  /** The direct term (line 40): the pair's traffic times the length the
      new road saves. */
  function Direct(d: real, volume: nat): real {
    (d - Proposed(d)) * volume as real
  }

  lemma DirectMonotone(d: real, v: nat, v': nat)
    requires d >= 0.0 && v <= v'
    ensures 0.0 <= Direct(d, v) <= Direct(d, v')
  {
    MulMonotone(d - Proposed(d), 0.0, v as real);
    MulMonotone(d - Proposed(d), v as real, v' as real);
  }

  lemma MulMonotone(c: real, a: real, b: real)
    requires c >= 0.0 && a <= b
    ensures c * a <= c * b
  {
    assert c * b - c * a == c * (b - a);
  }

  /** When `x` reaches `y`, every distance the indirect loop asks for is
      finite, so none of the formula's `inf` cases arises. */
  lemma NeighbourPairDistances(g: Graph, x: Node, y: Node, p: Edge)
    requires Valid(g) && x in g.nodes && y in g.nodes && Reachable(g, x, y)
    requires p in NeighbourPairs(g, x, y)
    ensures Reachable(g, x, p.0) && Reachable(g, y, p.1) && Reachable(g, p.0, p.1)
  {
    ReachableExtend(g, x, y, p.0);
    ReachableSymmetric(g, x, y);
    ReachableExtend(g, y, x, p.1);
    ShortestSelf(g, x);
    ReachableExtend(g, x, x, p.1);
    ReachableSymmetric(g, x, p.0);
    ReachableTransitive(g, p.0, x, p.1);
  }

  lemma {:induction false} IndirectNonNeg(g: Graph, nt: Table, x: Node, y: Node, proposed: real, ps: seq<Edge>)
    requires x in g.nodes && y in g.nodes
    requires forall p | p in ps :: p.0 in g.nodes && p.1 in g.nodes
    ensures IndirectSum(g, nt, x, y, proposed, ps) >= 0.0
    decreases |ps|
  {
    if ps != [] {
      IndirectNonNeg(g, nt, x, y, proposed, ps[1..]);
    }
  }

  /** The benefit of a road between connected nodes is never negative. */
  lemma BenefitNonNeg(g: Graph, nt: Table, x: Node, y: Node)
    requires Valid(g) && x in g.nodes && y in g.nodes && Reachable(g, x, y)
    ensures Benefit(g, nt, x, y) >= 0.0
  {
    var d := ShortestDistance(g, x, y).len;
    ShortestNonNeg(g, x, y);
    DirectMonotone(d, Volume(nt, x, y), Volume(nt, x, y));
    IndirectNonNeg(g, nt, x, y, Proposed(d), NeighbourPairs(g, x, y));
    BenefitSplit(g, nt, x, y);
  }

  /** More planned traffic never lowers a benefit: the direct term and every
      pair's gain are non-decreasing in the counts. */
  lemma BenefitMonotone(g: Graph, nt: Table, nt': Table, x: Node, y: Node)
    requires Valid(g) && x in g.nodes && y in g.nodes && Reachable(g, x, y)
    requires forall e :: Get(nt, e) <= Get(nt', e)
    ensures Benefit(g, nt, x, y) <= Benefit(g, nt', x, y)
  {
    var d := ShortestDistance(g, x, y).len;
    ShortestNonNeg(g, x, y);
    assert Get(nt, (x, y)) <= Get(nt', (x, y)) && Get(nt, (y, x)) <= Get(nt', (y, x));
    DirectMonotone(d, Volume(nt, x, y), Volume(nt', x, y));
    IndirectMonotone(g, nt, nt', x, y, Proposed(d), NeighbourPairs(g, x, y));
    BenefitSplit(g, nt, x, y);
    BenefitSplit(g, nt', x, y);
  }

  lemma {:induction false} IndirectMonotone(g: Graph, nt: Table, nt': Table, x: Node, y: Node, proposed: real, ps: seq<Edge>)
    requires x in g.nodes && y in g.nodes
    requires forall p | p in ps :: p.0 in g.nodes && p.1 in g.nodes
    requires forall e :: Get(nt, e) <= Get(nt', e)
    ensures IndirectSum(g, nt, x, y, proposed, ps) <= IndirectSum(g, nt', x, y, proposed, ps)
    decreases |ps|
  {
    if ps != [] {
      IndirectMonotone(g, nt, nt', x, y, proposed, ps[1..]);
      var p := ps[0];
      assert Get(nt, (p.0, p.1)) <= Get(nt', (p.0, p.1)) && Get(nt, (p.1, p.0)) <= Get(nt', (p.1, p.0));
      PairGainMonotone(ShortestDistance(g, x, p.0), ShortestDistance(g, y, p.1), ShortestDistance(g, p.0, p.1),
        proposed, Volume(nt, p.0, p.1), Volume(nt', p.0, p.1));
    }
  }

  lemma PairGainMonotone(toN1: Dist, toN2: Dist, original: Dist, proposed: real, v: nat, v': nat)
    requires v <= v'
    ensures PairGain(toN1, toN2, original, proposed, v) <= PairGain(toN1, toN2, original, proposed, v')
  {
    match (toN1, toN2, original)
    case (Fin(a), Fin(b), Fin(o)) =>
      var detour := a + proposed + b;
      if detour < o {
        assert v as real <= v' as real;
        MulMonotone(o - detour, v as real, v' as real);
        assert (o - detour) * v as real <= (o - detour) * v' as real;
        assert PairGain(toN1, toN2, original, proposed, v) == (o - detour) * v as real;
        assert PairGain(toN1, toN2, original, proposed, v') == (o - detour) * v' as real;
      } else {
        assert PairGain(toN1, toN2, original, proposed, v) == 0.0;
      }
    case _ =>
      assert PairGain(toN1, toN2, original, proposed, v) == 0.0;
  }

  // ---------------------------------------------------------------------
  // Trip accumulation (`simulate_traffic`, lines 58-72).

  /** The key a hop `u -> v` counts against: the forward orientation when it
      is a key, else the reverse one, else none (the hop is only reported). */
  function Slot(keys: set<Edge>, u: Node, v: Node): (r: Option<Edge>)
    ensures r.Some? ==> r.value in keys && (r.value == (u, v) || r.value == (v, u))
    ensures r.None? <==> (u, v) !in keys && (v, u) !in keys
    ensures (u, v) in keys ==> r == Some((u, v))
  {
    if (u, v) in keys then Some((u, v))
    else if (v, u) in keys then Some((v, u))
    else None
  }

  function CountHop(t: Table, u: Node, v: Node): Table {
    match Slot(t.Keys, u, v)
    case None => t
    case Some(e) => t[e := t[e] + 1]
  }

  /** The table after counting every hop of a route, in order. The key set
      never changes and no count goes down. */
  function CountRoute(t: Table, p: seq<Node>): (r: Table)
    ensures r.Keys == t.Keys && Dominates(r, t)
    decreases |p|
  {
    if |p| < 2 then t
    else CountHop(CountRoute(t, p[..|p| - 1]), p[|p| - 2], p[|p| - 1])
  }

  /** Counting one more hop of a route: the forward key if present, else
      the reverse key if present, else nothing. */
  lemma CountRouteStep(t: Table, p: seq<Node>, i: nat)
    requires i + 1 < |p|
    ensures var c, u, v := CountRoute(t, p[..i + 1]), p[i], p[i + 1];
      CountRoute(t, p[..i + 2]) ==
        if (u, v) in c then c[(u, v) := c[(u, v)] + 1]
        else if (v, u) in c then c[(v, u) := c[(v, u)] + 1]
        else c
  {
    assert p[..i + 2][..i + 1] == p[..i + 1];
  }

  /** How many hops of `p` count against key `e`. */
  function Hits(keys: set<Edge>, p: seq<Node>, e: Edge): nat
    decreases |p|
  {
    if |p| < 2 then 0
    else Hits(keys, p[..|p| - 1], e) + if Slot(keys, p[|p| - 2], p[|p| - 1]) == Some(e) then 1 else 0
  }

  /** How many hops of `p` count against some key. */
  function Counted(keys: set<Edge>, p: seq<Node>): nat
    decreases |p|
  {
    if |p| < 2 then 0
    else Counted(keys, p[..|p| - 1]) + if Slot(keys, p[|p| - 2], p[|p| - 1]).Some? then 1 else 0
  }

  /** Per route, each entry grows by exactly the number of hops that count
      against it. */
  lemma {:induction false} CountRouteEntries(t: Table, p: seq<Node>, e: Edge)
    requires e in t
    ensures CountRoute(t, p)[e] == t[e] + Hits(t.Keys, p, e)
    decreases |p|
  {
    if |p| >= 2 {
      CountRouteEntries(t, p[..|p| - 1], e);
    }
  }

  /** Per route, the table's total grows by one per counted hop. */
  lemma {:induction false} CountRouteTotal(t: Table, p: seq<Node>)
    ensures Total(CountRoute(t, p)) == Total(t) + Counted(t.Keys, p)
    decreases |p|
  {
    if |p| >= 2 {
      CountRouteTotal(t, p[..|p| - 1]);
      var before := CountRoute(t, p[..|p| - 1]);
      match Slot(before.Keys, p[|p| - 2], p[|p| - 1])
      case None =>
      case Some(e) => TotalUpdate(before, e, before[e] + 1);
    }
  }

  /** When the keys cover the network's roads, every hop of a route through
      the network is counted. */
  lemma {:induction false} AllHopsCounted(g: Graph, keys: set<Edge>, p: seq<Node>)
    requires IsWalk(g, p) && g.weight.Keys <= keys
    ensures Counted(keys, p) == |p| - 1
    decreases |p|
  {
    if |p| >= 2 {
      WalkSlice(g, p, 0, |p| - 1);
      AllHopsCounted(g, keys, p[..|p| - 1]);
      assert Adjacent(g, p[|p| - 2], p[|p| - 1]);
    }
  }

  /** The table after a run of trips, and whether the run stopped on an
      exception. */
  datatype Outcome = Outcome(table: Table, raised: bool)

  /** A trip without a route makes `nx.shortest_path` raise
      `NetworkXNoPath`, which nothing catches: the run stops there with the
      counts made so far. */
  function Run(t: Table, trips: seq<Trip>): (o: Outcome)
    ensures o.table.Keys == t.Keys && Dominates(o.table, t)
    decreases |trips|
  {
    if trips == [] then Outcome(t, false)
    else
      var o := Run(t, trips[..|trips| - 1]);
      if o.raised then o
      else match trips[|trips| - 1].route
        case None => Outcome(o.table, true)
        case Some(p) => Outcome(CountRoute(o.table, p), false)
  }

  /** Once raised, later trips change nothing. */
  lemma {:induction false} RunRaisedAbsorbs(t: Table, xs: seq<Trip>, ys: seq<Trip>)
    requires Run(t, xs).raised
    ensures Run(t, xs + ys) == Run(t, xs)
    decreases |ys|
  {
    if ys == [] {
      assert xs + ys == xs;
    } else {
      RunRaisedAbsorbs(t, xs, ys[..|ys| - 1]);
      assert (xs + ys)[..|xs + ys| - 1] == xs + ys[..|ys| - 1];
    }
  }

  /** A run of two batches is the second batch run from where the first
      stopped, unless the first raised. */
  lemma {:induction false} RunConcat(t: Table, xs: seq<Trip>, ys: seq<Trip>)
    ensures Run(t, xs + ys) == if Run(t, xs).raised then Run(t, xs) else Run(Run(t, xs).table, ys)
    decreases |ys|
  {
    if ys == [] {
      assert xs + ys == xs;
    } else {
      RunConcat(t, xs, ys[..|ys| - 1]);
      assert (xs + ys)[..|xs + ys| - 1] == xs + ys[..|ys| - 1];
    }
  }

  /** A run raises exactly when one of its trips has no route. */
  lemma {:induction false} RunRaisedIff(t: Table, trips: seq<Trip>)
    ensures Run(t, trips).raised <==> exists i | 0 <= i < |trips| :: trips[i].route.None?
    decreases |trips|
  {
    if trips != [] {
      var front := trips[..|trips| - 1];
      RunRaisedIff(t, front);
      if exists i | 0 <= i < |front| :: front[i].route.None? {
        var i :| 0 <= i < |front| && front[i].route.None?;
        assert trips[i] == front[i];
      }
      if exists i | 0 <= i < |trips| :: trips[i].route.None? {
        var i :| 0 <= i < |trips| && trips[i].route.None?;
        if i < |front| {
          assert front[i] == trips[i];
        }
      }
    }
  }

  /** On a connected network every trip the loop can draw has a route, so
      the simulation never raises. */
  lemma RunConnectedNeverRaises(g: Graph, t: Table, trips: seq<Trip>)
    requires Valid(g)
    requires forall s, u | s in g.nodes && u in g.nodes :: Reachable(g, s, u)
    requires forall i | 0 <= i < |trips| :: Routed(g, trips[i])
    ensures !Run(t, trips).raised
  {
    RunRaisedIff(t, trips);
    forall i | 0 <= i < |trips|
      ensures trips[i].route.Some?
    {
      assert Routed(g, trips[i]);
    }
  }

  // ---------------------------------------------------------------------
  // One greedy selection step (`evaluate_and_update_road_benefits`).

  /** `[(road, benefit(*road)) for road in roads]`. */
  function ScoreAll(g: Graph, nt: Table, roads: seq<Edge>): (r: seq<Scored>)
    requires forall e | e in roads :: Candidate(g, e)
    ensures |r| == |roads| && forall i | 0 <= i < |r| :: r[i].0 == roads[i]
  {
    seq(|roads|, i requires 0 <= i < |roads| => ScoreOf(g, nt, roads[i]))
  }

  /** Scoring one more road appends its entry. */
  lemma ScoreAllSnoc(g: Graph, nt: Table, roads: seq<Edge>, r: Edge)
    requires forall e | e in roads :: Candidate(g, e)
    requires Candidate(g, r)
    ensures ScoreAll(g, nt, roads + [r]) == ScoreAll(g, nt, roads) + [ScoreOf(g, nt, r)]
  {
    var a, b := ScoreAll(g, nt, roads + [r]), ScoreAll(g, nt, roads) + [ScoreOf(g, nt, r)];
    forall i | 0 <= i < |a|
      ensures a[i] == b[i]
    {
      assert (roads + [r])[i] == if i < |roads| then roads[i] else r;
    }
  }

  function ScoreOf(g: Graph, nt: Table, r: Edge): Scored
    requires Candidate(g, r)
  {
    (r, Benefit(g, nt, r.0, r.1))
  }

  /** Scoring keeps the candidates in order, and sorting the scores neither
      loses nor invents a road: the ranked roads are the candidates, each
      as often. */
  lemma ScoredRoads(g: Graph, nt: Table, roads: seq<Edge>)
    requires forall e | e in roads :: Candidate(g, e)
    ensures RoadsOf(ScoreAll(g, nt, roads)) == roads
    ensures multiset(RoadsOf(Rank(ScoreAll(g, nt, roads)))) == multiset(roads)
  {
    RankKeepsRoads(ScoreAll(g, nt, roads));
  }

  /** Every ranked entry is a scored road carrying its own benefit. */
  lemma RankedScores(g: Graph, nt: Table, roads: seq<Edge>)
    requires forall e | e in roads :: Candidate(g, e)
    ensures forall s | s in Rank(ScoreAll(g, nt, roads)) ::
      s.0 in roads && s.1 == Benefit(g, nt, s.0.0, s.0.1)
  {
    var scored := ScoreAll(g, nt, roads);
    forall s | s in Rank(scored)
      ensures s.0 in roads && s.1 == Benefit(g, nt, s.0.0, s.0.1)
    {
      assert s in multiset(Rank(scored));
      assert s in multiset(scored);
      var i :| 0 <= i < |scored| && scored[i] == s;
    }
  }

  /** The roads one step builds: the first `min(k, #pool)` of the ranking,
      in rank order. */
  function Select(g: Graph, nt: Table, pool: seq<Edge>, k: nat): (top: seq<Edge>)
    requires forall e | e in pool :: Candidate(g, e)
    ensures |top| == MinNat(k, |pool|)
    ensures forall e | e in top :: e in pool
  {
    var ranked := Rank(ScoreAll(g, nt, pool));
    var top := RoadsOf(ranked[..MinNat(k, |ranked|)]);
    assert forall e | e in top :: e in pool by {
      RankedScores(g, nt, pool);
      forall e | e in top
        ensures e in pool
      {
        var i :| 0 <= i < |top| && top[i] == e;
        assert ranked[i] in ranked;
      }
    }
    top
  }

  /** The first road built is the first candidate, in pool order, of
      greatest benefit. */
  lemma SelectFirstIsBest(g: Graph, nt: Table, pool: seq<Edge>, k: nat) returns (i: nat)
    requires forall e | e in pool :: Candidate(g, e)
    requires pool != [] && k > 0
    ensures i < |pool| && Select(g, nt, pool, k)[0] == pool[i]
    ensures forall j | 0 <= j < |pool| :: ScoreAll(g, nt, pool)[j].1 <= ScoreAll(g, nt, pool)[i].1
    ensures forall j | 0 <= j < i :: ScoreAll(g, nt, pool)[j].1 < ScoreAll(g, nt, pool)[i].1
  {
    var scored := ScoreAll(g, nt, pool);
    i := RankHeadIsFirstBest(scored);
    assert Rank(scored)[..MinNat(k, |scored|)][0] == Rank(scored)[0];
  }

  /** Every road built scores at least as high as every candidate left in
      the pool: the step takes a prefix of the descending ranking. */
  lemma SelectBeatsRest(g: Graph, nt: Table, pool: seq<Edge>, k: nat, e: Edge, f: Edge)
    requires forall r | r in pool :: Candidate(g, r)
    requires e in Select(g, nt, pool, k) && f in pool && f !in Select(g, nt, pool, k)
    ensures Benefit(g, nt, f.0, f.1) <= Benefit(g, nt, e.0, e.1)
  {
    var scored := ScoreAll(g, nt, pool);
    var ranked := Rank(scored);
    var n := MinNat(k, |ranked|);
    var top := Select(g, nt, pool, k);
    var i :| 0 <= i < |top| && top[i] == e;
    var j :| 0 <= j < |pool| && pool[j] == f;
    assert scored[j] !in ranked[..n] by {
      forall m | 0 <= m < n
        ensures ranked[..n][m] != scored[j]
      {
        assert top[m] != f;
      }
    }
    assert scored[j] == (f, Benefit(g, nt, f.0, f.1));
    RankPrefixBeatsRest(scored, n, i, scored[j]);
    RankedScores(g, nt, pool);
    assert ranked[i] in ranked && ranked[i].0 == e;
  }

  /** A road evaluation record (lines 106-112); the application reads its
      `road` entry. */
  datatype RoadDetail = RoadDetail(road: Edge, benefit: real, trafficVolume: nat, proposedWeight: real)

  /** Weight of the new road: 80% of the current shortest route (line 103). */
  function ProposedWeight(g: Graph, r: Edge): real
    requires r.0 in g.nodes && r.1 in g.nodes && Reachable(g, r.0, r.1)
  {
    Proposed(ShortestDistance(g, r.0, r.1).len)
  }

  /** The record kept for a road evaluated on network `g` with table `nt`. */
  function Detail(g: Graph, nt: Table, r: Edge): RoadDetail
    requires Candidate(g, r)
  {
    RoadDetail(r, Benefit(g, nt, r.0, r.1), Volume(nt, r.0, r.1), ProposedWeight(g, r))
  }

  /** `details` extended with the records of `roads`, written in order. */
  function Record(details: map<Edge, RoadDetail>, g: Graph, nt: Table, roads: seq<Edge>): map<Edge, RoadDetail>
    requires forall e | e in roads :: Candidate(g, e)
    decreases |roads|
  {
    if roads == [] then details
    else
      var r := roads[|roads| - 1];
      assert r in roads && forall e | e in roads[..|roads| - 1] :: e in roads;
      Record(details, g, nt, roads[..|roads| - 1])[r := Detail(g, nt, r)]
  }

  /** Recording one more road. */
  lemma RecordStep(details: map<Edge, RoadDetail>, g: Graph, nt: Table, roads: seq<Edge>, i: nat)
    requires i < |roads| && forall e | e in roads :: Candidate(g, e)
    ensures forall e | e in roads[..i + 1] :: Candidate(g, e)
    ensures Record(details, g, nt, roads[..i + 1]) == Record(details, g, nt, roads[..i])[roads[i] := Detail(g, nt, roads[i])]
  {
    assert roads[..i + 1][..i] == roads[..i];
  }

  /** The roads of a scored selection are candidates when each scored
      entry is. */
  lemma ChosenCandidates(g: Graph, nt: Table, chosen: seq<Scored>)
    requires forall s | s in chosen :: Candidate(g, s.0) && s.1 == Benefit(g, nt, s.0.0, s.0.1)
    ensures forall e | e in RoadsOf(chosen) :: Candidate(g, e)
  {
    var roads := RoadsOf(chosen);
    forall e | e in roads
      ensures Candidate(g, e)
    {
      var j :| 0 <= j < |roads| && roads[j] == e;
      assert chosen[j] in chosen;
    }
  }

  /** After recording, every recorded road maps to its own record... */
  lemma {:induction false} RecordHas(details: map<Edge, RoadDetail>, g: Graph, nt: Table, roads: seq<Edge>)
    requires forall e | e in roads :: Candidate(g, e)
    ensures forall e | e in roads :: e in Record(details, g, nt, roads) && Record(details, g, nt, roads)[e] == Detail(g, nt, e)
    decreases |roads|
  {
    if roads != [] {
      var front := roads[..|roads| - 1];
      InFrontOrLast(roads);
      RecordHas(details, g, nt, front);
    }
  }

  /** ... and the entries of other roads are left as they were. */
  lemma {:induction false} RecordKeeps(details: map<Edge, RoadDetail>, g: Graph, nt: Table, roads: seq<Edge>)
    requires forall e | e in roads :: Candidate(g, e)
    ensures forall e | e in details && e !in roads :: e in Record(details, g, nt, roads) && Record(details, g, nt, roads)[e] == details[e]
    decreases |roads|
  {
    if roads != [] {
      var front := roads[..|roads| - 1];
      InFrontOrLast(roads);
      RecordKeeps(details, g, nt, front);
    }
  }

  /** Builds `roads` in order, each with its weight proposed on the network
      `g0` as it was before this step. */
  function Commit(g: Graph, g0: Graph, roads: seq<Edge>): Graph
    requires forall e | e in roads :: Candidate(g0, e)
    decreases |roads|
  {
    if roads == [] then g
    else
      var r := roads[|roads| - 1];
      assert r in roads && forall e | e in roads[..|roads| - 1] :: e in roads;
      assert Candidate(g0, r);
      AddEdge(Commit(g, g0, roads[..|roads| - 1]), r.0, r.1, ProposedWeight(g0, r))
  }

  /** Building one more road. */
  lemma CommitNext(g: Graph, g0: Graph, roads: seq<Edge>, i: nat)
    requires i < |roads| && forall e | e in roads :: Candidate(g0, e)
    ensures forall e | e in roads[..i + 1] :: Candidate(g0, e)
    ensures Candidate(g0, roads[i])
    ensures Commit(g, g0, roads[..i + 1]) == AddEdge(Commit(g, g0, roads[..i]), roads[i].0, roads[i].1, ProposedWeight(g0, roads[i]))
  {
    assert roads[..i + 1][..i] == roads[..i];
  }

  /** `h` is `g` with roads added: well-formed, the same nodes, every road
      of `g` still there and every route of `g` still a route. */
  ghost predicate Extends(h: Graph, g: Graph) {
    && Valid(h) && h.nodes == g.nodes && g.weight.Keys <= h.weight.Keys
    && forall s, t | s in g.nodes && t in g.nodes && Reachable(g, s, t) :: Reachable(h, s, t)
  }

  /** Building the selected roads extends the network. */
  lemma {:induction false} CommitValid(g: Graph, g0: Graph, roads: seq<Edge>)
    requires Valid(g) && Valid(g0) && g0.nodes == g.nodes
    requires forall e | e in roads :: Candidate(g0, e)
    ensures Extends(Commit(g, g0, roads), g)
    decreases |roads|
  {
    if roads != [] {
      var front := roads[..|roads| - 1];
      var r := roads[|roads| - 1];
      assert r in roads && forall e | e in front :: e in roads;
      CommitValid(g, g0, front);
      ShortestNonNeg(g0, r.0, r.1);
      CommitStep(g, Commit(g, g0, front), r.0, r.1, ProposedWeight(g0, r));
    }
  }

  /** Each built road joins its endpoints directly. */
  lemma {:induction false} CommitAdjacent(g: Graph, g0: Graph, roads: seq<Edge>)
    requires forall e | e in roads :: Candidate(g0, e)
    ensures forall e | e in roads :: Adjacent(Commit(g, g0, roads), e.0, e.1)
    decreases |roads|
  {
    if roads != [] {
      var front := roads[..|roads| - 1];
      var r := roads[|roads| - 1];
      assert r in roads && forall e | e in front :: e in roads;
      CommitAdjacent(g, g0, front);
      var h := Commit(g, g0, roads);
      forall e | e in roads
        ensures Adjacent(h, e.0, e.1)
      {
        if e != r {
          assert e in front;
        }
      }
    }
  }

  /** One more road keeps a network that extends `g` extending it. */
  lemma CommitStep(g: Graph, h: Graph, x: Node, y: Node, w: real)
    requires Valid(g) && Extends(h, g) && x != y && x in g.nodes && y in g.nodes && w >= 0.0
    ensures Extends(AddEdge(h, x, y, w), g)
  {
    AddEdgeValid(h, x, y, w);
    forall s, t | s in g.nodes && t in g.nodes && Reachable(g, s, t)
      ensures Reachable(AddEdge(h, x, y, w), s, t)
    {
      AddEdgeKeepsReachable(h, x, y, w, s, t);
    }
  }

  /** `[road_details[road] for road in roads]`. */
  function DetailsOf(details: map<Edge, RoadDetail>, roads: seq<Edge>): seq<RoadDetail>
    requires forall e | e in roads :: e in details
  {
    seq(|roads|, i requires 0 <= i < |roads| => details[roads[i]])
  }

  /** The records a step returns (line 122) end with the records written
      for the roads it built (lines 101-112), in the order they were built:
      `recorded` is the record map after the step, `last` the roads that
      `selected_roads[-k:]` looks up. */
  lemma ReturnedDetails(details: map<Edge, RoadDetail>, g: Graph, nt: Table, selected: seq<Edge>, top: seq<Edge>, k: nat,
                        recorded: map<Edge, RoadDetail>, last: seq<Edge>)
    requires forall e | e in selected :: e in details
    requires forall e | e in top :: Candidate(g, e)
    requires |top| <= k
    requires recorded == Record(details, g, nt, top) && last == LastK(selected + top, k)
    ensures forall e | e in last :: e in recorded
    ensures |top| <= |last|
    ensures forall j | 0 <= j < |top| :: DetailsOf(recorded, last)[|last| - |top| + j] == Detail(g, nt, top[j])
  {
    LastKEndsWith(selected, top, k, last);
    RecordedAll(details, g, nt, selected, top, last, recorded);
    DetailsSuffix(g, nt, recorded, last, top);
  }

  /** Looking up roads that end with `top` gives records that end with
      those of `top`. */
  lemma DetailsSuffix(g: Graph, nt: Table, recorded: map<Edge, RoadDetail>, last: seq<Edge>, top: seq<Edge>)
    requires forall e | e in last :: e in recorded
    requires forall e | e in top :: Candidate(g, e) && e in recorded && recorded[e] == Detail(g, nt, e)
    requires |top| <= |last| && forall j | 0 <= j < |top| :: last[|last| - |top| + j] == top[j]
    ensures forall j | 0 <= j < |top| :: DetailsOf(recorded, last)[|last| - |top| + j] == Detail(g, nt, top[j])
  {
    var r := DetailsOf(recorded, last);
    assert |r| == |last|;
    forall j | 0 <= j < |top|
      ensures r[|last| - |top| + j] == Detail(g, nt, top[j])
    {
      var i := |last| - |top| + j;
      assert top[j] in top;
      assert r[i] == recorded[last[i]] == recorded[top[j]];
    }
  }

  /** After recording, every selected or built road has a record, and the
      built ones carry their fresh record. */
  lemma RecordedAll(details: map<Edge, RoadDetail>, g: Graph, nt: Table, selected: seq<Edge>, top: seq<Edge>, last: seq<Edge>,
                    recorded: map<Edge, RoadDetail>)
    requires forall e | e in selected :: e in details
    requires forall e | e in top :: Candidate(g, e)
    requires forall e | e in last :: e in selected + top
    requires recorded == Record(details, g, nt, top)
    ensures forall e | e in last :: e in recorded
    ensures forall e | e in top :: Candidate(g, e) && e in recorded && recorded[e] == Detail(g, nt, e)
  {
    RecordHas(details, g, nt, top);
    RecordKeeps(details, g, nt, top);
  }

  /** Filtering the pool a second time removes nothing: the scoring loop's
      `road not in self.selected_roads` test only matters before the first
      step has recomputed `potential_roads`. */
  lemma {:induction false} WithoutTwice(s: seq<Edge>, drop: seq<Edge>)
    ensures Without(Without(s, drop), drop) == Without(s, drop)
    decreases |s|
  {
    if s != [] {
      WithoutTwice(s[1..], drop);
      var head := if s[0] in drop then [] else [s[0]];
      WithoutAppend(head, Without(s[1..], drop), drop);
      if s[0] !in drop {
        assert Without(head, drop) == head by {
          assert head[1..] == [];
        }
      }
    }
  }

  /** A step on network `g0` with table `nt` and pool `pool` took the
      selected roads from `selected0` to `selected`, the records from
      `details0` to `details` and the network from `g0` to `g`: the chosen
      roads are appended in rank order, recorded, and built. */
  ghost predicate Stepped(g0: Graph, nt: Table, pool: seq<Edge>, k: nat, selected0: seq<Edge>, details0: map<Edge, RoadDetail>,
                          g: Graph, selected: seq<Edge>, details: map<Edge, RoadDetail>)
    requires forall e | e in pool :: Candidate(g0, e)
  {
    var top := Select(g0, nt, pool, k);
    && selected == selected0 + top
    && details == Record(details0, g0, nt, top)
    && g == Commit(g0, g0, top)
  }

  /** The pool recomputed after a step lies inside the pool before it, so
      its roads are still candidates on the grown network. */
  lemma PoolStaysCandidates(g0: Graph, g: Graph, initial: seq<Edge>, selected: seq<Edge>, top: seq<Edge>)
    requires forall r | r in Without(initial, selected) :: Candidate(g0, r)
    requires Extends(g, g0)
    ensures forall r | r in Without(initial, selected + top) :: Candidate(g, r)
  {
    WithoutMembers(initial, selected);
    WithoutMembers(initial, selected + top);
  }

  /** After a step every selected road, old or new, has its own record. */
  lemma RecordCoversSelected(details: map<Edge, RoadDetail>, g: Graph, nt: Table, selected: seq<Edge>, top: seq<Edge>)
    requires forall r | r in top :: Candidate(g, r)
    requires forall r | r in selected :: r in details && details[r].road == r
    ensures forall r | r in selected + top :: r in Record(details, g, nt, top) && Record(details, g, nt, top)[r].road == r
  {
    RecordHas(details, g, nt, top);
    RecordKeeps(details, g, nt, top);
  }

  /** The first `min(k, #scored)` entries of the ranking are the selected
      roads, each a candidate carrying its own benefit. */
  lemma ChosenAreSelected(g: Graph, nt: Table, pool: seq<Edge>, k: nat)
    requires forall e | e in pool :: Candidate(g, e)
    ensures var ranked := Rank(ScoreAll(g, nt, pool));
      var chosen := ranked[..MinNat(k, |ranked|)];
      && RoadsOf(chosen) == Select(g, nt, pool, k)
      && forall s | s in chosen :: Candidate(g, s.0) && s.1 == Benefit(g, nt, s.0.0, s.0.1)
  {
    var ranked := Rank(ScoreAll(g, nt, pool));
    RankedScores(g, nt, pool);
    assert forall s | s in ranked[..MinNat(k, |ranked|)] :: s in ranked;
  }

  /** The network, selection and records a step leaves behind. */
  lemma SteppedBy(g0: Graph, nt: Table, pool: seq<Edge>, k: nat, selected0: seq<Edge>, details0: map<Edge, RoadDetail>,
                  g: Graph, selected: seq<Edge>, details: map<Edge, RoadDetail>)
    requires forall e | e in pool :: Candidate(g0, e)
    requires forall e | e in Select(g0, nt, pool, k) :: Candidate(g0, e)
    requires selected == selected0 + Select(g0, nt, pool, k)
    requires details == Record(details0, g0, nt, Select(g0, nt, pool, k))
    requires g == Commit(g0, g0, Select(g0, nt, pool, k))
    ensures Stepped(g0, nt, pool, k, selected0, details0, g, selected, details)
  {
  }

  /** A step keeps the simulation's invariant: the grown network is
      well-formed and keeps every route, the recomputed pool holds only
      candidates of it, and every selected road has its record. */
  lemma StepKeepsInvariant(g0: Graph, nt: Table, initial: seq<Edge>, selected0: seq<Edge>, details0: map<Edge, RoadDetail>, top: seq<Edge>)
    requires Valid(g0)
    requires forall r | r in Without(initial, selected0) :: Candidate(g0, r)
    requires forall r | r in top :: Candidate(g0, r)
    requires forall r | r in selected0 :: r in details0 && details0[r].road == r
    ensures Extends(Commit(g0, g0, top), g0)
    ensures forall r | r in Without(initial, selected0 + top) :: Candidate(Commit(g0, g0, top), r)
    ensures forall r | r in selected0 + top :: r in Record(details0, g0, nt, top) && Record(details0, g0, nt, top)[r].road == r
  {
    CommitValid(g0, g0, top);
    PoolStaysCandidates(g0, Commit(g0, g0, top), initial, selected0, top);
    RecordCoversSelected(details0, g0, nt, selected0, top);
  }

  // ---------------------------------------------------------------------
  // The simulation object.

  class TrafficSimulation {
    var graph: Graph
    const initialPotentialRoads: seq<Edge>
    var potentialRoads: seq<Edge>
    var selectedRoads: seq<Edge>
    var roadDetails: map<Edge, RoadDetail>
    var nt: Table
    const iterations: nat
    const agentCount: nat
    /** The roads of the network at construction: the table's keys. */
    ghost const initialEdges: set<Edge>

    ghost predicate Valid()
      reads this
    {
      && Graphs.Valid(graph)
      && nt.Keys == initialEdges && initialEdges <= graph.weight.Keys
      && potentialRoads == Without(initialPotentialRoads, selectedRoads)
      && forall r | r in selectedRoads :: r in roadDetails && roadDetails[r].road == r
    }

    /** `TrafficSimulation(graph, potential_roads, iterations, agent_count)`. */
    constructor (g: Graph, roads: seq<Edge>, iterations: nat, agentCount: nat)
      requires Graphs.Valid(g)
      ensures Valid()
      ensures graph == g && nt == ZeroTable(g)
      ensures initialPotentialRoads == roads && potentialRoads == roads
      ensures selectedRoads == [] && roadDetails == map[]
      ensures this.iterations == iterations && this.agentCount == agentCount
    {
      graph := g;
      initialPotentialRoads := roads;
      potentialRoads := roads;
      selectedRoads := [];
      roadDetails := map[];
      this.iterations := iterations;
      this.agentCount := agentCount;
      nt := ZeroTable(g);
      initialEdges := g.weight.Keys;
      WithoutNothing(roads);
    }

    /** `benefit(x, y)`: reads the network and the table and writes nothing. */
    function BenefitOf(x: Node, y: Node): (b: real)
      reads this
      requires Valid() && x in graph.nodes && y in graph.nodes && Reachable(graph, x, y)
      ensures b >= 0.0
    {
      BenefitNonNeg(graph, nt, x, y);
      Benefit(graph, nt, x, y)
    }

    /** `simulate_traffic()` driven by `draws[iteration][agent]`. With fewer
        than two nodes every agent is skipped; otherwise the trips are
        counted in order until one has no route, which raises. */
    method SimulateTraffic(draws: seq<seq<Trip>>) returns (raised: bool)
      requires Valid()
      requires |draws| == iterations && forall i | 0 <= i < |draws| :: |draws[i]| == agentCount
      modifies this`nt
      ensures Valid()
      ensures |graph.nodes| < 2 ==> nt == old(nt) && !raised
      ensures |graph.nodes| >= 2 ==> Outcome(nt, raised) == Run(old(nt), Flatten(draws))
    {
      raised := false;
      var it := 0;
      while it < iterations && !raised
        invariant 0 <= it <= iterations
        invariant nt.Keys == old(nt).Keys
        invariant |graph.nodes| < 2 ==> nt == old(nt) && !raised
        invariant |graph.nodes| >= 2 ==> Outcome(nt, raised) == Run(old(nt), Flatten(draws[..it]))
      {
        raised := SimulateIteration(draws[it]);
        FlattenStep(draws, it);
        RunConcat(old(nt), Flatten(draws[..it]), draws[it]);
        it := it + 1;
      }
      if |graph.nodes| >= 2 && it < iterations {
        FlattenAppend(draws[..it], draws[it..]);
        assert draws[..it] + draws[it..] == draws;
        RunRaisedAbsorbs(old(nt), Flatten(draws[..it]), Flatten(draws[it..]));
      }
      assert draws[..|draws|] == draws;
    }

    /** One iteration of `simulate_traffic`: the agents' trips in order. */
    method SimulateIteration(trips: seq<Trip>) returns (raised: bool)
      modifies this`nt
      ensures |graph.nodes| < 2 ==> nt == old(nt) && !raised
      ensures |graph.nodes| >= 2 ==> Outcome(nt, raised) == Run(old(nt), trips)
    {
      raised := false;
      var agent := 0;
      while agent < |trips| && !raised
        invariant 0 <= agent <= |trips|
        invariant |graph.nodes| < 2 ==> nt == old(nt) && !raised
        invariant |graph.nodes| >= 2 ==> Outcome(nt, raised) == Run(old(nt), trips[..agent])
      {
        if |graph.nodes| >= 2 {
          assert trips[..agent + 1][..agent] == trips[..agent];
          match trips[agent].route {
            case None =>
              raised := true;
            case Some(p) =>
              RecordRoute(p);
          }
        }
        agent := agent + 1;
      }
      if |graph.nodes| >= 2 {
        if agent < |trips| {
          RunRaisedAbsorbs(old(nt), trips[..agent], trips[agent..]);
          assert trips[..agent] + trips[agent..] == trips;
        } else {
          assert trips[..agent] == trips;
        }
      }
    }

    /** Counts one routed trip (lines 65-72). */
    method RecordRoute(p: seq<Node>)
      modifies this`nt
      ensures nt == CountRoute(old(nt), p)
    {
      var t := nt;
      var i := 0;
      while i + 1 < |p|
        invariant nt == old(nt)
        invariant |p| == 0 ==> t == nt
        invariant |p| > 0 ==> i < |p| && t == CountRoute(nt, p[..i + 1])
      {
        var u, v := p[i], p[i + 1];
        CountRouteStep(nt, p, i);
        if (u, v) in t {
          t := t[(u, v) := t[(u, v)] + 1];
        } else if (v, u) in t {
          t := t[(v, u) := t[(v, u)] + 1];
        }
        i := i + 1;
      }
      assert |p| > 0 ==> p[..i + 1] == p;
      nt := t;
    }

    /** `evaluate_and_update_road_benefits(k)`, with the weights recorded as
        evidently intended: score the candidates not yet selected, rank them,
        record and build the first `min(k, #scored)` with 80% of their
        current route as weight, recompute the pool, and return the records
        of the last `k` selected roads (`[-0:]` is the whole list). */
    method EvaluateAndUpdateRoadBenefits(k: nat) returns (details: seq<RoadDetail>)
      requires Valid()
      requires forall r | r in potentialRoads :: Candidate(graph, r)
      modifies this`graph, this`selectedRoads, this`potentialRoads, this`roadDetails
      ensures Valid()
      ensures forall r | r in potentialRoads :: Candidate(graph, r)
      ensures Stepped(old(graph), nt, old(potentialRoads), k, old(selectedRoads), old(roadDetails), graph, selectedRoads, roadDetails)
      ensures potentialRoads == Without(initialPotentialRoads, selectedRoads)
      ensures details == DetailsOf(roadDetails, LastK(selectedRoads, k))
    {
      ghost var g0, top := graph, Select(graph, nt, potentialRoads, k);
      var scored := ScoreCandidates();
      var ranked := Rank(scored);
      var chosen := ranked[..MinNat(k, |ranked|)];
      ChosenAreSelected(graph, nt, potentialRoads, k);
      RecordChosen(chosen);
      BuildChosen(chosen);
      SteppedBy(g0, nt, old(potentialRoads), k, old(selectedRoads), old(roadDetails), graph, selectedRoads, roadDetails);
      StepKeepsInvariant(g0, nt, initialPotentialRoads, old(selectedRoads), old(roadDetails), top);
      potentialRoads := Without(initialPotentialRoads, selectedRoads);
      details := DetailsOf(roadDetails, LastK(selectedRoads, k));
    }

    /** Lines 100-112 with the record kept: one record per chosen road, in
        rank order, carrying its benefit, its planned traffic and its
        proposed weight. */
    method RecordChosen(chosen: seq<Scored>)
      requires forall s | s in chosen :: Candidate(graph, s.0) && s.1 == Benefit(graph, nt, s.0.0, s.0.1)
      modifies this`roadDetails
      ensures forall e | e in RoadsOf(chosen) :: Candidate(graph, e)
      ensures roadDetails == Record(old(roadDetails), graph, nt, RoadsOf(chosen))
      ensures forall e | e in RoadsOf(chosen) :: e in roadDetails && roadDetails[e] == Detail(graph, nt, e)
    {
      ghost var roads := RoadsOf(chosen);
      ChosenCandidates(graph, nt, chosen);
      var i := 0;
      while i < |chosen|
        invariant 0 <= i <= |chosen|
        invariant roadDetails == Record(old(roadDetails), graph, nt, roads[..i])
      {
        var road := chosen[i].0;
        RecordStep(old(roadDetails), graph, nt, roads, i);
        assert chosen[i] in chosen && road == roads[i];
        var volume := Volume(nt, road.0, road.1);
        var weight := Proposed(ShortestDistance(graph, road.0, road.1).len);
        roadDetails := roadDetails[road := RoadDetail(road, chosen[i].1, volume, weight)];
        i := i + 1;
      }
      assert roads[..|chosen|] == roads;
      RecordHas(old(roadDetails), graph, nt, roads);
    }

    /** Lines 115-118 with the recorded weight: each chosen road is built,
        in rank order, and appended to `selected_roads`. */
    method BuildChosen(chosen: seq<Scored>)
      requires forall e | e in RoadsOf(chosen) ::
        Candidate(graph, e) && e in roadDetails && roadDetails[e].proposedWeight == ProposedWeight(graph, e)
      modifies this`graph, this`selectedRoads
      ensures graph == Commit(old(graph), old(graph), RoadsOf(chosen))
      ensures selectedRoads == old(selectedRoads) + RoadsOf(chosen)
    {
      ghost var roads := RoadsOf(chosen);
      var i := 0;
      while i < |chosen|
        invariant 0 <= i <= |chosen|
        invariant graph == Commit(old(graph), old(graph), roads[..i])
        invariant selectedRoads == old(selectedRoads) + roads[..i]
      {
        var best := chosen[i].0;
        assert best == roads[i] && best in roads;
        TakeNext(roads, i);
        CommitNext(old(graph), old(graph), roads, i);
        graph := AddEdge(graph, best.0, best.1, roadDetails[best].proposedWeight);
        selectedRoads := selectedRoads + [best];
        i := i + 1;
      }
      assert roads[..|chosen|] == roads;
    }

    /** The scoring comprehension (lines 97-98). Only roads not yet selected
        are scored; after construction and after every step the pool holds
        no selected road, so the filter keeps the whole pool. */
    method ScoreCandidates() returns (scored: seq<Scored>)
      requires Valid()
      requires forall r | r in potentialRoads :: Candidate(graph, r)
      ensures scored == ScoreAll(graph, nt, potentialRoads)
    {
      var roads, chosen := potentialRoads, selectedRoads;
      scored := [];
      var i := 0;
      while i < |roads|
        invariant 0 <= i <= |roads|
        invariant forall r | r in Without(roads[..i], chosen) :: Candidate(graph, r)
        invariant scored == ScoreAll(graph, nt, Without(roads[..i], chosen))
      {
        var road := roads[i];
        ghost var kept := Without(roads[..i], chosen);
        assert roads[..i + 1] == roads[..i] + [road];
        WithoutSnoc(roads[..i], road, chosen);
        if road !in chosen {
          assert road in roads;
          ScoreAllSnoc(graph, nt, kept, road);
          scored := scored + [(road, BenefitOf(road.0, road.1))];
        }
        i := i + 1;
      }
      assert roads[..|roads|] == roads;
      WithoutTwice(initialPotentialRoads, selectedRoads);
    }
  }

  // ---------------------------------------------------------------------
  // Lines 115-122 as written.

  /** What the commit loop and the final lookup end in. */
  datatype StepResult = Returned(graph: Graph, selected: seq<Edge>, details: seq<RoadDetail>) | KeyError(missing: Edge)

  /** The commit loop as written: each road's weight is looked up in
      `road_details`, and a road without a record raises `KeyError`. */
  function CommitAsWritten(g: Graph, selected: seq<Edge>, details: map<Edge, RoadDetail>, roads: seq<Edge>): StepResult
    requires forall e | e in roads :: e.0 != e.1
    decreases |roads|
  {
    if roads == [] then Returned(g, selected, [])
    else if roads[0] !in details then KeyError(roads[0])
    else CommitAsWritten(AddEdge(g, roads[0].0, roads[0].1, details[roads[0]].proposedWeight), selected + [roads[0]], details, roads[1..])
  }

  /** Nothing ever writes `road_details` (it starts empty at line 19), so as
      written the step raises `KeyError` on the first-ranked road whenever
      it has anything to build, before building anything. */
  lemma CommitAsWrittenRaises(g: Graph, selected: seq<Edge>, roads: seq<Edge>)
    requires forall e | e in roads :: e.0 != e.1
    ensures roads != [] <==> CommitAsWritten(g, selected, map[], roads).KeyError?
    ensures roads != [] ==> CommitAsWritten(g, selected, map[], roads).missing == roads[0]
  {
  }
}
