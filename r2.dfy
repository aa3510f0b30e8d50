/** R2.py: the functional draft of the optimiser. The network `G`, the
    traffic table `nt` and the candidate list are passed to module-level
    functions rather than kept in an object. Its rules differ from
    `TrafficSimulation`: an unroutable trip is skipped, a hop over an
    edge the table lacks inserts it with count 1, the indirect benefit is
    clamped and gated on the table's keys, and the selector builds one road
    per round with the road's benefit as its weight, then re-simulates. */
module R2 {
  import opened Seqs
  import opened Graphs
  import opened ShortestPaths
  import opened Tables
  import opened Ranking
  import SimulationLogic

  // ---------------------------------------------------------------------
  // Benefit (`Benefit`, lines 30-49).

  /** `max(spdX_n1 + spdY_n2 - dX_Y, 0) * volume` (line 46), given the two
      distances; both are finite whenever the term is evaluated (see
      `GatedDistancesFinite`). */
  function Gain(toN1: Dist, toN2: Dist, proposed: real, volume: nat): (r: real)
    ensures r >= 0.0
  {
    match (toN1, toN2)
    case (Fin(a), Fin(b)) =>
      var saving := a + b - proposed;
      (if saving > 0.0 then saving else 0.0) * volume as real
    case _ => 0.0
  }

  /** One iteration of the nested neighbour loop (lines 42-46): it adds
      something only when both `(X, n1)` and `(Y, n2)` are keys of `nt`.
      The volume reads `(X, n1)` and `(n2, Y)`, as written. */
  function PairTerm(g: Graph, nt: Table, x: Node, y: Node, proposed: real, n1: Node, n2: Node): (r: real)
    requires x in g.nodes && y in g.nodes && n1 in g.nodes && n2 in g.nodes
    ensures r >= 0.0
    ensures !((x, n1) in nt && (y, n2) in nt) ==> r == 0.0
  {
    if (x, n1) in nt && (y, n2) in nt then
      Gain(ShortestDistance(g, x, n1), ShortestDistance(g, y, n2), proposed, Get(nt, (x, n1)) + Get(nt, (n2, y)))
    else 0.0
  }

  /** The inner loop over `n2 in G.neighbors(X)`. */
  function InnerSum(g: Graph, nt: Table, x: Node, y: Node, proposed: real, n1: Node, n2s: seq<Node>): real
    requires x in g.nodes && y in g.nodes && n1 in g.nodes
    requires forall n | n in n2s :: n in g.nodes
  {
    if n2s == [] then 0.0
    else PairTerm(g, nt, x, y, proposed, n1, n2s[0]) + InnerSum(g, nt, x, y, proposed, n1, n2s[1..])
  }

  /** The outer loop over `n1 in G.neighbors(Y)`. Unlike `benefit` in
      SimulationLogic.py there is no `n1 != n2` filter and no set. */
  function OuterSum(g: Graph, nt: Table, x: Node, y: Node, proposed: real, n1s: seq<Node>, n2s: seq<Node>): real
    requires x in g.nodes && y in g.nodes
    requires forall n | n in n1s :: n in g.nodes
    requires forall n | n in n2s :: n in g.nodes
  {
    if n1s == [] then 0.0
    else InnerSum(g, nt, x, y, proposed, n1s[0], n2s) + OuterSum(g, nt, x, y, proposed, n1s[1..], n2s)
  }

  /** `Benefit(G, X, Y, d, nt, f=0.8)`: the direct term as in
      SimulationLogic.py plus the gated, clamped indirect sum. */
  function Benefit(g: Graph, nt: Table, x: Node, y: Node): real
    requires x in g.nodes && y in g.nodes && Reachable(g, x, y)
  {
    var d := ShortestDistance(g, x, y).len;
    SimulationLogic.Direct(d, SimulationLogic.Volume(nt, x, y))
      + OuterSum(g, nt, x, y, SimulationLogic.Proposed(d), Neighbors(g, y), Neighbors(g, x))
  }

  lemma {:induction false} InnerSumNonNeg(g: Graph, nt: Table, x: Node, y: Node, proposed: real, n1: Node, n2s: seq<Node>)
    requires x in g.nodes && y in g.nodes && n1 in g.nodes
    requires forall n | n in n2s :: n in g.nodes
    ensures InnerSum(g, nt, x, y, proposed, n1, n2s) >= 0.0
    decreases |n2s|
  {
    if n2s != [] {
      InnerSumNonNeg(g, nt, x, y, proposed, n1, n2s[1..]);
    }
  }

  lemma {:induction false} OuterSumNonNeg(g: Graph, nt: Table, x: Node, y: Node, proposed: real, n1s: seq<Node>, n2s: seq<Node>)
    requires x in g.nodes && y in g.nodes
    requires forall n | n in n1s :: n in g.nodes
    requires forall n | n in n2s :: n in g.nodes
    ensures OuterSum(g, nt, x, y, proposed, n1s, n2s) >= 0.0
    decreases |n1s|
  {
    if n1s != [] {
      InnerSumNonNeg(g, nt, x, y, proposed, n1s[0], n2s);
      OuterSumNonNeg(g, nt, x, y, proposed, n1s[1..], n2s);
    }
  }

  /** The benefit of a road between connected nodes is never negative: the
      direct term is not, and every indirect term is clamped at zero. */
  lemma BenefitNonNeg(g: Graph, nt: Table, x: Node, y: Node)
    requires Valid(g) && x in g.nodes && y in g.nodes && Reachable(g, x, y)
    ensures Benefit(g, nt, x, y) >= 0.0
  {
    var d := ShortestDistance(g, x, y).len;
    ShortestNonNeg(g, x, y);
    SimulationLogic.DirectMonotone(d, SimulationLogic.Volume(nt, x, y), SimulationLogic.Volume(nt, x, y));
    OuterSumNonNeg(g, nt, x, y, SimulationLogic.Proposed(d), Neighbors(g, y), Neighbors(g, x));
  }

  lemma {:induction false} InnerSumUngated(g: Graph, nt: Table, x: Node, y: Node, proposed: real, n1: Node, n2s: seq<Node>)
    requires x in g.nodes && y in g.nodes && n1 in g.nodes
    requires forall n | n in n2s :: n in g.nodes
    requires (x, n1) !in nt
    ensures InnerSum(g, nt, x, y, proposed, n1, n2s) == 0.0
    decreases |n2s|
  {
    if n2s != [] {
      InnerSumUngated(g, nt, x, y, proposed, n1, n2s[1..]);
    }
  }

  lemma {:induction false} OuterSumUngated(g: Graph, nt: Table, x: Node, y: Node, proposed: real, n1s: seq<Node>, n2s: seq<Node>)
    requires x in g.nodes && y in g.nodes
    requires forall n | n in n1s :: n in g.nodes
    requires forall n | n in n2s :: n in g.nodes
    requires forall n | n in n1s :: (x, n) !in nt
    ensures OuterSum(g, nt, x, y, proposed, n1s, n2s) == 0.0
    decreases |n1s|
  {
    if n1s != [] {
      InnerSumUngated(g, nt, x, y, proposed, n1s[0], n2s);
      OuterSumUngated(g, nt, x, y, proposed, n1s[1..], n2s);
    }
  }

  /** The gate: when no key of `nt` starts at `X` with a neighbour of `Y`,
      no neighbour pair contributes and the benefit is its direct term. */
  lemma BenefitGated(g: Graph, nt: Table, x: Node, y: Node)
    requires x in g.nodes && y in g.nodes && Reachable(g, x, y)
    requires forall n | n in g.nodes && Adjacent(g, y, n) :: (x, n) !in nt
    ensures Benefit(g, nt, x, y) == SimulationLogic.Direct(ShortestDistance(g, x, y).len, SimulationLogic.Volume(nt, x, y))
  {
    var d := ShortestDistance(g, x, y).len;
    OuterSumUngated(g, nt, x, y, SimulationLogic.Proposed(d), Neighbors(g, y), Neighbors(g, x));
  }

  /** When `X` reaches `Y`, both distances a neighbour term asks for are
      finite, so the `inf` arithmetic of the source never arises there. */
  lemma GatedDistancesFinite(g: Graph, x: Node, y: Node, n1: Node, n2: Node)
    requires Valid(g) && x in g.nodes && y in g.nodes && Reachable(g, x, y)
    requires n1 in Neighbors(g, y) && n2 in Neighbors(g, x)
    ensures Reachable(g, x, n1) && Reachable(g, y, n2)
  {
    ReachableExtend(g, x, y, n1);
    ReachableSymmetric(g, x, y);
    ReachableExtend(g, y, x, n2);
  }

  // ---------------------------------------------------------------------
  // Trip accumulation (`SimulateTraffic`, lines 52-85).

  /** One hop `u -> v` (lines 70-77): the forward key if present, else the
      reverse key if present, else a new forward key with count 1. */
  function Bump(t: Table, u: Node, v: Node): (r: Table)
    ensures r.Keys == if (u, v) in t || (v, u) in t then t.Keys else t.Keys + {(u, v)}
    ensures Dominates(r, t)
  {
    if (u, v) in t then t[(u, v) := t[(u, v)] + 1]
    else if (v, u) in t then t[(v, u) := t[(v, u)] + 1]
    else t[(u, v) := 1]
  }

  /** The table after counting every hop of a route, in order. */
  function BumpRoute(t: Table, p: seq<Node>): (r: Table)
    ensures t.Keys <= r.Keys && Dominates(r, t)
    decreases |p|
  {
    if |p| < 2 then t
    else Bump(BumpRoute(t, p[..|p| - 1]), p[|p| - 2], p[|p| - 1])
  }

  /** Counting one more hop of a route. */
  lemma BumpRouteStep(t: Table, p: seq<Node>, i: nat)
    requires i + 1 < |p|
    ensures BumpRoute(t, p[..i + 2]) == Bump(BumpRoute(t, p[..i + 1]), p[i], p[i + 1])
  {
    assert p[..i + 2][..i + 1] == p[..i + 1];
  }

  /** The number of hops of a route. */
  function Hops(p: seq<Node>): nat {
    if |p| < 2 then 0 else |p| - 1
  }

  /** The hops of a route, as ordered pairs. */
  function HopSet(p: seq<Node>): set<Edge> {
    set i | 0 <= i < |p| - 1 :: Hop(p, i)
  }

  /** The `i`-th hop of a route. */
  function Hop(p: seq<Node>, i: nat): Edge
    requires i + 1 < |p|
  {
    (p[i], p[i + 1])
  }

  /** Every hop adds exactly one trip to the table's total. */
  lemma {:induction false} BumpRouteTotal(t: Table, p: seq<Node>)
    ensures Total(BumpRoute(t, p)) == Total(t) + Hops(p)
    decreases |p|
  {
    if |p| >= 2 {
      var before := BumpRoute(t, p[..|p| - 1]);
      BumpRouteTotal(t, p[..|p| - 1]);
      BumpTotal(before, p[|p| - 2], p[|p| - 1]);
    }
  }

  /** One hop adds exactly one trip to the table's total. */
  lemma BumpTotal(t: Table, u: Node, v: Node)
    ensures Total(Bump(t, u, v)) == Total(t) + 1
  {
    if (u, v) in t {
      TotalUpdate(t, (u, v), t[(u, v)] + 1);
    } else if (v, u) in t {
      TotalUpdate(t, (v, u), t[(v, u)] + 1);
    } else {
      TotalUpdate(t, (u, v), 1);
    }
  }

  /** After a route every hop is a key in one orientation, and the only new
      keys are hops of the route. */
  lemma {:induction false} BumpRouteKeys(t: Table, p: seq<Node>)
    ensures forall e | e in HopSet(p) :: e in BumpRoute(t, p) || (e.1, e.0) in BumpRoute(t, p)
    ensures BumpRoute(t, p).Keys <= t.Keys + HopSet(p)
    decreases |p|
  {
    if |p| >= 2 {
      var front := p[..|p| - 1];
      BumpRouteKeys(t, front);
      HopSetSnoc(p);
      var before := BumpRoute(t, front);
      assert BumpRoute(t, p) == Bump(before, p[|p| - 2], p[|p| - 1]);
    }
  }

  /** The hops of a longer route: those of its front and the last one. */
  lemma HopSetSnoc(p: seq<Node>)
    requires |p| >= 2
    ensures HopSet(p) == HopSet(p[..|p| - 1]) + {Hop(p, |p| - 2)}
  {
    var front := p[..|p| - 1];
    forall e | e in HopSet(front)
      ensures e in HopSet(p)
    {
      var i :| 0 <= i < |front| - 1 && e == Hop(front, i);
      assert e == Hop(p, i);
    }
    forall e | e in HopSet(p)
      ensures e in HopSet(front) + {Hop(p, |p| - 2)}
    {
      var i :| 0 <= i < |p| - 1 && e == Hop(p, i);
      if i < |p| - 2 {
        assert e == Hop(front, i);
      }
    }
  }

  /** The table after a run of trips: a trip without a route (`NetworkXNoPath`
      caught at lines 78-80) leaves it as it is. */
  function Accumulate(t: Table, trips: seq<Trip>): (r: Table)
    ensures t.Keys <= r.Keys && Dominates(r, t)
    decreases |trips|
  {
    if trips == [] then t
    else
      var before := Accumulate(t, trips[..|trips| - 1]);
      match trips[|trips| - 1].route
      case None => before
      case Some(p) => BumpRoute(before, p)
  }

  /** The hops of the routed trips of a run. */
  function RoutedHops(trips: seq<Trip>): nat
    decreases |trips|
  {
    if trips == [] then 0
    else
      RoutedHops(trips[..|trips| - 1]) +
        match trips[|trips| - 1].route
        case None => 0
        case Some(p) => Hops(p)
  }

  /** The trips that have a route, in order. */
  function RoutedOnly(trips: seq<Trip>): (r: seq<Trip>)
    ensures forall i | 0 <= i < |r| :: r[i].route.Some?
    decreases |trips|
  {
    if trips == [] then []
    else
      var front := RoutedOnly(trips[..|trips| - 1]);
      if trips[|trips| - 1].route.Some? then front + [trips[|trips| - 1]] else front
  }

  /** A run's total grows by one per hop of its routed trips. */
  lemma {:induction false} AccumulateTotal(t: Table, trips: seq<Trip>)
    ensures Total(Accumulate(t, trips)) == Total(t) + RoutedHops(trips)
    decreases |trips|
  {
    if trips != [] {
      AccumulateTotal(t, trips[..|trips| - 1]);
      match trips[|trips| - 1].route
      case None =>
      case Some(p) => BumpRouteTotal(Accumulate(t, trips[..|trips| - 1]), p);
    }
  }

  /** Unroutable trips leave no trace: the run counts exactly what the run
      of its routed trips alone counts. */
  lemma {:induction false} AccumulateSkipsUnrouted(t: Table, trips: seq<Trip>)
    ensures Accumulate(t, trips) == Accumulate(t, RoutedOnly(trips))
    decreases |trips|
  {
    if trips != [] {
      var front := trips[..|trips| - 1];
      AccumulateSkipsUnrouted(t, front);
      var last := trips[|trips| - 1];
      if last.route.Some? {
        var r := RoutedOnly(front) + [last];
        assert r[..|r| - 1] == RoutedOnly(front);
      }
    }
  }

  /** A run of two batches is the second batch run on the first's table. */
  lemma {:induction false} AccumulateConcat(t: Table, xs: seq<Trip>, ys: seq<Trip>)
    ensures Accumulate(t, xs + ys) == Accumulate(Accumulate(t, xs), ys)
    decreases |ys|
  {
    if ys == [] {
      assert xs + ys == xs;
    } else {
      AccumulateConcat(t, xs, ys[..|ys| - 1]);
      assert (xs + ys)[..|xs + ys| - 1] == xs + ys[..|ys| - 1];
    }
  }

  /** The table after the drawn trips: with fewer than two nodes every agent
      is skipped (lines 59-62). */
  function Simulated(g: Graph, t: Table, trips: seq<Trip>): (r: Table)
    ensures |g.nodes| < 2 ==> r == t
    ensures t.Keys <= r.Keys && Dominates(r, t)
  {
    if |g.nodes| < 2 then t else Accumulate(t, trips)
  }

  /** What the generator yields after each iteration (lines 81-85). */
  datatype Progress = Progress(iteration: nat, totalIterations: nat)

  /** `SimulateTraffic(G, nt, potential_roads, iterations, AgentCount)` run
      to exhaustion, driven by `draws[iteration][agent]`: the table after
      all drawn trips, and the progress records in yield order. */
  method SimulateTraffic(g: Graph, nt: Table, iterations: nat, agentCount: nat, draws: seq<seq<Trip>>)
      returns (t: Table, progress: seq<Progress>)
    requires |draws| == iterations && forall i | 0 <= i < |draws| :: |draws[i]| == agentCount
    ensures t == Simulated(g, nt, Flatten(draws))
    ensures |progress| == iterations
    ensures forall i | 0 <= i < iterations :: progress[i] == Progress(i + 1, iterations)
  {
    t := nt;
    progress := [];
    var iteration := 0;
    while iteration < iterations
      invariant 0 <= iteration <= iterations
      invariant t == Simulated(g, nt, Flatten(draws[..iteration]))
      invariant |progress| == iteration
      invariant forall i | 0 <= i < iteration :: progress[i] == Progress(i + 1, iterations)
    {
      t := SimulateIteration(g, t, draws[iteration]);
      FlattenStep(draws, iteration);
      AccumulateConcat(nt, Flatten(draws[..iteration]), draws[iteration]);
      progress := progress + [Progress(iteration + 1, iterations)];
      iteration := iteration + 1;
    }
    assert draws[..iterations] == draws;
  }

  /** One iteration: the agents' trips in order. */
  method SimulateIteration(g: Graph, nt: Table, trips: seq<Trip>) returns (t: Table)
    ensures t == Simulated(g, nt, trips)
  {
    t := nt;
    var agent := 0;
    while agent < |trips|
      invariant 0 <= agent <= |trips|
      invariant t == Simulated(g, nt, trips[..agent])
    {
      if |g.nodes| >= 2 {
        assert trips[..agent + 1][..agent] == trips[..agent];
        match trips[agent].route {
          case None =>
          case Some(p) =>
            t := CountTrip(t, p);
        }
      }
      agent := agent + 1;
    }
    assert trips[..agent] == trips;
  }

  /** One hop (lines 70-77): the forward key, else the reverse key, else a
      new forward key. */
  method CountHop(nt: Table, u: Node, v: Node) returns (t: Table)
    ensures t == Bump(nt, u, v)
  {
    var edge, reverseEdge := (u, v), (v, u);
    if edge in nt {
      t := nt[edge := nt[edge] + 1];
    } else if reverseEdge in nt {
      t := nt[reverseEdge := nt[reverseEdge] + 1];
    } else {
      t := nt[edge := 1];
    }
  }

  /** Counts one routed trip, hop by hop (lines 69-77). */
  method CountTrip(nt: Table, p: seq<Node>) returns (t: Table)
    ensures t == BumpRoute(nt, p)
  {
    t := nt;
    var i := 0;
    while i + 1 < |p|
      invariant |p| == 0 ==> t == nt
      invariant |p| > 0 ==> i < |p| && t == BumpRoute(nt, p[..i + 1])
    {
      BumpRouteStep(nt, p, i);
      t := CountHop(t, p[i], p[i + 1]);
      i := i + 1;
    }
    assert |p| > 0 ==> p[..i + 1] == p;
  }

  // ---------------------------------------------------------------------
  // The selector (`evaluate_and_update_road_benefits`, lines 90-119).

  /** Iterations and agents of each round's re-simulation (line 116). */
  const ResimIterations: nat := 36000
  const ResimAgents: nat := 100

  /** The draws of one re-simulation have its shape. */
  predicate RoundShaped(d: seq<seq<Trip>>) {
    |d| == ResimIterations && forall i | 0 <= i < |d| :: |d[i]| == ResimAgents
  }
  /** A way of scoring a candidate road on a network and a planned-trip
      table. The rounds below are stated for any scoring that never goes
      below zero on a candidate; the source's scoring is `BenefitScore`. */
  type Scoring = (Graph, Table, Edge) -> real

  /** `benefit(G, *road, d, nt)` (line 98) on a candidate road. No other
      pair is ever scored; it gets zero here only to make the scoring total. */
  function BenefitScore(g: Graph, nt: Table, road: Edge): real {
    if SimulationLogic.Candidate(g, road) then Benefit(g, nt, road.0, road.1) else 0.0
  }

  /** On a valid network no candidate scores below zero. */
  ghost predicate NonNegScoring(score: Scoring) {
    forall g, nt, road | Valid(g) && SimulationLogic.Candidate(g, road) :: score(g, nt, road) >= 0.0
  }

  /** The source's scoring never goes below zero, so every weight the
      selector builds is a valid one. */
  lemma BenefitScoreNonNeg()
    ensures NonNegScoring(BenefitScore)
  {
    forall g, nt, road | Valid(g) && SimulationLogic.Candidate(g, road)
      ensures BenefitScore(g, nt, road) >= 0.0
    {
      BenefitNonNeg(g, nt, road.0, road.1);
    }
  }

  /** `[(road, score) for road in potential_roads]` (lines 96-99). */
  function ScoreBy(score: Scoring, g: Graph, nt: Table, roads: seq<Edge>): seq<Scored> {
    seq(|roads|, i requires 0 <= i < |roads| => (roads[i], score(g, nt, roads[i])))
  }

  /** Scoring keeps the candidates in order, and sorting the scores neither
      loses nor invents a road. */
  lemma ScoreByRoads(score: Scoring, g: Graph, nt: Table, roads: seq<Edge>)
    ensures RoadsOf(ScoreBy(score, g, nt, roads)) == roads
    ensures multiset(RoadsOf(Rank(ScoreBy(score, g, nt, roads)))) == multiset(roads)
  {
    RankKeepsRoads(ScoreBy(score, g, nt, roads));
  }

  /** How a round re-simulates: the table the drawn trips leave on the
      grown network. The rounds below are stated for any re-simulation; the
      source's is `Resimulate`. */
  type Resimulation = (Graph, seq<seq<Trip>>) -> Table

  /** Lines 115-116: a zero table over the grown network's edges, with the
      drawn trips simulated on it. */
  function Resimulate(g: Graph, draws: seq<seq<Trip>>): (t: Table)
    ensures g.weight.Keys <= t.Keys
    ensures |g.nodes| < 2 ==> t == ZeroTable(g)
  {
    Simulated(g, ZeroTable(g), Flatten(draws))
  }

  /** The result of the selector: the network and candidate list as the
      rounds leave them, and the `(road, benefit)` pairs chosen. */
  datatype Selection = Selection(graph: Graph, pool: seq<Edge>, selected: seq<Scored>)

  /** What one round leaves for the next: the grown network, the remaining
      candidates and the re-simulated table. */
  datatype RoundState = RoundState(graph: Graph, pool: seq<Edge>, table: Table)

  /** The road the ranking puts first (line 107): the first road of the
      list, in list order, of greatest score, with its score. */
  function Best(score: Scoring, g: Graph, nt: Table, pool: seq<Edge>): (best: Scored)
    requires pool != []
    ensures best.0 in pool && best.1 == score(g, nt, best.0)
  {
    BestFrom(score, g, nt, pool, 0)
  }

  /** The first road of `pool[j..]` of greatest score, with its score. */
  function BestFrom(score: Scoring, g: Graph, nt: Table, pool: seq<Edge>, j: nat): (best: Scored)
    requires j < |pool|
    ensures best.0 in pool[j..] && best.1 == score(g, nt, best.0)
    decreases |pool| - j
  {
    var here := (pool[j], score(g, nt, pool[j]));
    if j == |pool| - 1 then here
    else
      var later := BestFrom(score, g, nt, pool, j + 1);
      assert later.0 in pool[j..] by {
        assert pool[j + 1..] == pool[j..][1..];
      }
      if here.1 >= later.1 then here else later
  }

  /** `BestFrom` picks the first index of `pool[j..]` whose score no other
      road beats. */
  lemma {:induction false} BestFromIsFirstMax(score: Scoring, g: Graph, nt: Table, pool: seq<Edge>, j: nat) returns (m: nat)
    requires j < |pool|
    ensures j <= m < |pool| && BestFrom(score, g, nt, pool, j) == (pool[m], score(g, nt, pool[m]))
    ensures forall l | j <= l < |pool| :: score(g, nt, pool[l]) <= score(g, nt, pool[m])
    ensures forall l | j <= l < m :: score(g, nt, pool[l]) < score(g, nt, pool[m])
    decreases |pool| - j
  {
    if j == |pool| - 1 {
      m := j;
    } else {
      var m' := BestFromIsFirstMax(score, g, nt, pool, j + 1);
      if score(g, nt, pool[j]) >= score(g, nt, pool[m']) {
        m := j;
      } else {
        m := m';
      }
    }
  }

  /** Ranking by a stable sort and taking the head selects `Best`. */
  lemma RankHeadIsBest(score: Scoring, g: Graph, nt: Table, pool: seq<Edge>)
    requires pool != []
    ensures Rank(ScoreBy(score, g, nt, pool))[0] == Best(score, g, nt, pool)
  {
    var scored := ScoreBy(score, g, nt, pool);
    var i := RankHeadIsFirstBest(scored);
    var m := BestFromIsFirstMax(score, g, nt, pool, 0);
    assert scored[m].1 <= scored[i].1 && scored[i].1 <= scored[m].1;
  }

  /** With the source's scoring, the best road is the first candidate, in
      list order, of greatest benefit. */
  lemma BestIsFirstBest(g: Graph, nt: Table, pool: seq<Edge>) returns (i: nat)
    requires forall j | 0 <= j < |pool| :: SimulationLogic.Candidate(g, pool[j])
    requires pool != []
    ensures i < |pool| && SimulationLogic.Candidate(g, pool[i])
    ensures Best(BenefitScore, g, nt, pool) == (pool[i], Benefit(g, nt, pool[i].0, pool[i].1))
    ensures forall j | 0 <= j < |pool| ::
      SimulationLogic.Candidate(g, pool[j]) && Benefit(g, nt, pool[j].0, pool[j].1) <= Benefit(g, nt, pool[i].0, pool[i].1)
    ensures forall j | 0 <= j < i ::
      SimulationLogic.Candidate(g, pool[j]) && Benefit(g, nt, pool[j].0, pool[j].1) < Benefit(g, nt, pool[i].0, pool[i].1)
  {
    i := BestFromIsFirstMax(BenefitScore, g, nt, pool, 0);
    forall j | 0 <= j < |pool|
      ensures BenefitScore(g, nt, pool[j]) == Benefit(g, nt, pool[j].0, pool[j].1)
    {
      assert SimulationLogic.Candidate(g, pool[j]);
    }
  }

  /** One round after ranking (lines 108-117): build `best` with its
      benefit as weight, remove it from the candidates, and re-simulate the
      drawn trips on the grown network with `resim`. The rest
      of the list stays candidates and loses exactly the road built. */
  function Next(resim: Resimulation, g: Graph, pool: seq<Edge>, best: Scored, trips: seq<seq<Trip>>): (s: RoundState)
    requires Valid(g) && forall e | e in pool :: SimulationLogic.Candidate(g, e)
    requires best.0 in pool && SimulationLogic.Candidate(g, best.0) && best.1 >= 0.0
    ensures Valid(s.graph) && forall e | e in s.pool :: SimulationLogic.Candidate(s.graph, e)
    ensures multiset(s.pool) == multiset(pool) - multiset{best.0}
    ensures Adjacent(s.graph, best.0.0, best.0.1) && Weight(s.graph, best.0.0, best.0.1) == best.1
    ensures |s.graph.nodes| >= 2 && s.table == resim(s.graph, trips)
  {
    var g' := AddEdge(g, best.0.0, best.0.1, best.1);
    NextExtends(g, pool, best);
    var pool' := RemoveFirst(pool, best.0);
    RemoveFirstCount(pool, best.0);
    assert forall e | e in pool' :: SimulationLogic.Candidate(g', e) by {
      forall e | e in pool'
        ensures SimulationLogic.Candidate(g', e)
      {
        assert e in multiset(pool');
        assert e in pool;
      }
    }
    assert best.0.0 in g'.nodes && best.0.1 in g'.nodes && best.0.0 != best.0.1;
    RoundState(g', pool', resim(g', trips))
  }

  /** Building a candidate only adds to the network: it keeps every road
      and route. */
  lemma NextExtends(g: Graph, pool: seq<Edge>, best: Scored)
    requires Valid(g) && forall e | e in pool :: SimulationLogic.Candidate(g, e)
    requires best.0 in pool && SimulationLogic.Candidate(g, best.0) && best.1 >= 0.0
    ensures SimulationLogic.Extends(AddEdge(g, best.0.0, best.0.1, best.1), g)
  {
    assert SimulationLogic.Candidate(g, best.0);
    SimulationLogic.CommitValid(g, g, []);
    SimulationLogic.CommitStep(g, g, best.0.0, best.0.1, best.1);
  }

  /** Rounds `i` to `k - 1` of the selector (the `for _ in range(k)` loop,
      lines 94-117): each ranks the remaining candidates by `score` and runs
      `Next` on the best with the draws of that round. The round is split
      over four mutually recursive functions, one per step of the loop body,
      so that unfolding one of them exposes one step only. */
  function Rounds(score: Scoring, resim: Resimulation, g: Graph, nt: Table, pool: seq<Edge>, draws: seq<seq<seq<Trip>>>, i: nat, k: nat): (s: Selection)
    requires NonNegScoring(score)
    requires Valid(g) && forall e | e in pool :: SimulationLogic.Candidate(g, e)
    requires |draws| >= k
    decreases k - i, 3
  {
    if i >= k then Selection(g, pool, [])
    else RoundsLeft(score, resim, g, nt, pool, draws, i, k)
  }

  /** Round `i` stops the selector when no candidate is left (lines
      102-103). */
  function RoundsLeft(score: Scoring, resim: Resimulation, g: Graph, nt: Table, pool: seq<Edge>, draws: seq<seq<seq<Trip>>>, i: nat, k: nat): (s: Selection)
    requires NonNegScoring(score)
    requires Valid(g) && forall e | e in pool :: SimulationLogic.Candidate(g, e)
    requires |draws| >= k && i < k
    decreases k - i, 2
  {
    if pool == [] then Selection(g, pool, [])
    else RoundsPick(score, resim, g, nt, pool, draws, i, k)
  }

  /** Round `i` builds the best candidate and re-simulates. */
  function RoundsPick(score: Scoring, resim: Resimulation, g: Graph, nt: Table, pool: seq<Edge>, draws: seq<seq<seq<Trip>>>, i: nat, k: nat): (s: Selection)
    requires NonNegScoring(score)
    requires Valid(g) && forall e | e in pool :: SimulationLogic.Candidate(g, e)
    requires |draws| >= k && i < k && pool != []
    decreases k - i, 1
  {
    var best := Best(score, g, nt, pool);
    RoundsAfter(score, resim, best, Next(resim, g, pool, best, draws[i]), draws, i, k)
  }

  /** The selector once round `i` has chosen `best` and left `next`:
      `best` heads the roads chosen from round `i + 1` on. */
  function RoundsAfter(score: Scoring, resim: Resimulation, best: Scored, next: RoundState, draws: seq<seq<seq<Trip>>>, i: nat, k: nat): (s: Selection)
    requires NonNegScoring(score)
    requires Valid(next.graph) && forall e | e in next.pool :: SimulationLogic.Candidate(next.graph, e)
    requires |draws| >= k && i < k
    decreases k - i, 0
  {
    var rest := Rounds(score, resim, next.graph, next.table, next.pool, draws, i + 1, k);
    Selection(rest.graph, rest.pool, [best] + rest.selected)
  }

  /** One round of `Rounds` unfolded: the best candidate, what `Next`
      leaves, and the rounds after it. */
  lemma RoundStep(score: Scoring, resim: Resimulation, g: Graph, nt: Table, pool: seq<Edge>, draws: seq<seq<seq<Trip>>>, i: nat, k: nat)
      returns (best: Scored, next: RoundState, rest: Selection)
    requires NonNegScoring(score)
    requires Valid(g) && forall e | e in pool :: SimulationLogic.Candidate(g, e)
    requires |draws| >= k && i < k && pool != []
    ensures best == Best(score, g, nt, pool) && best.0 in pool && best.1 >= 0.0
    ensures SimulationLogic.Candidate(g, best.0)
    ensures next == Next(resim, g, pool, best, draws[i])
    ensures Valid(next.graph) && forall e | e in next.pool :: SimulationLogic.Candidate(next.graph, e)
    ensures multiset(next.pool) == multiset(pool) - multiset{best.0}
    ensures rest == Rounds(score, resim, next.graph, next.table, next.pool, draws, i + 1, k)
    ensures Rounds(score, resim, g, nt, pool, draws, i, k) == Selection(rest.graph, rest.pool, [best] + rest.selected)
  {
    best := Best(score, g, nt, pool);
    next := Next(resim, g, pool, best, draws[i]);
    rest := Rounds(score, resim, next.graph, next.table, next.pool, draws, i + 1, k);
    assert Rounds(score, resim, g, nt, pool, draws, i, k) == RoundsLeft(score, resim, g, nt, pool, draws, i, k);
    assert RoundsLeft(score, resim, g, nt, pool, draws, i, k) == RoundsPick(score, resim, g, nt, pool, draws, i, k);
    assert RoundsPick(score, resim, g, nt, pool, draws, i, k) == RoundsAfter(score, resim, best, next, draws, i, k);
  }

  /** Past the last round, or with no candidate left, nothing more is
      chosen. */
  lemma RoundsStop(score: Scoring, resim: Resimulation, g: Graph, nt: Table, pool: seq<Edge>, draws: seq<seq<seq<Trip>>>, i: nat, k: nat)
    requires NonNegScoring(score)
    requires Valid(g) && forall e | e in pool :: SimulationLogic.Candidate(g, e)
    requires |draws| >= k && (i >= k || pool == [])
    ensures Rounds(score, resim, g, nt, pool, draws, i, k) == Selection(g, pool, [])
  {
    if i < k {
      assert Rounds(score, resim, g, nt, pool, draws, i, k) == RoundsLeft(score, resim, g, nt, pool, draws, i, k);
    }
  }

  /** The selector stops early only when no candidate is left: rounds `i`
      to `k - 1` choose `min(k - i, #candidates)` roads. */
  lemma {:induction false} RoundsCount(score: Scoring, resim: Resimulation, g: Graph, nt: Table, pool: seq<Edge>, draws: seq<seq<seq<Trip>>>, i: nat, k: nat)
    requires NonNegScoring(score)
    requires Valid(g) && forall e | e in pool :: SimulationLogic.Candidate(g, e)
    requires |draws| >= k && i <= k
    ensures |Rounds(score, resim, g, nt, pool, draws, i, k).selected| == MinNat(k - i, |pool|)
    decreases k - i
  {
    if i < k && pool != [] {
      var best, next, rest := RoundStep(score, resim, g, nt, pool, draws, i, k);
      RoundsCount(score, resim, next.graph, next.table, next.pool, draws, i + 1, k);
      assert |next.pool| == |pool| - 1 by {
        assert |multiset(next.pool)| == |multiset(pool)| - 1;
      }
    }
  }

  /** The candidate list shrinks by exactly the chosen roads. */
  lemma {:induction false} RoundsPool(score: Scoring, resim: Resimulation, g: Graph, nt: Table, pool: seq<Edge>, draws: seq<seq<seq<Trip>>>, i: nat, k: nat)
    requires NonNegScoring(score)
    requires Valid(g) && forall e | e in pool :: SimulationLogic.Candidate(g, e)
    requires |draws| >= k
    ensures Partitions(pool, Rounds(score, resim, g, nt, pool, draws, i, k))
    decreases k - i
  {
    if i < k && pool != [] {
      var best, next, rest := RoundStep(score, resim, g, nt, pool, draws, i, k);
      RoundsPool(score, resim, next.graph, next.table, next.pool, draws, i + 1, k);
      PoolSplit(pool, next.pool, best, rest, Rounds(score, resim, g, nt, pool, draws, i, k));
    } else {
      RoundsStop(score, resim, g, nt, pool, draws, i, k);
    }
  }

  /** `s` splits `pool` into the roads left over and the roads chosen,
      counting repeats. */
  ghost predicate Partitions(pool: seq<Edge>, s: Selection) {
    multiset(s.pool) + multiset(RoadsOf(s.selected)) == multiset(pool)
  }

  /** Removing `best` and then the roads `rest` chose from `pool` leaves
      what `rest` left, with `[best] + rest.selected` chosen. */
  lemma PoolSplit(pool: seq<Edge>, next: seq<Edge>, best: Scored, rest: Selection, s: Selection)
    requires best.0 in pool && multiset(next) == multiset(pool) - multiset{best.0}
    requires Partitions(next, rest)
    requires s == Selection(rest.graph, rest.pool, [best] + rest.selected)
    ensures Partitions(pool, s)
  {
    RoadsOfCons(best, rest.selected);
    assert multiset([best.0] + RoadsOf(rest.selected)) == multiset{best.0} + multiset(RoadsOf(rest.selected));
    assert multiset(next) + multiset{best.0} == multiset(pool) by {
      assert best.0 in multiset(pool);
      forall o
        ensures (multiset(next) + multiset{best.0})[o] == multiset(pool)[o]
      {
      }
    }
  }

  /** From a list without repeats the chosen roads are pairwise distinct. */
  lemma RoundsDistinct(score: Scoring, resim: Resimulation, g: Graph, nt: Table, pool: seq<Edge>, draws: seq<seq<seq<Trip>>>, i: nat, k: nat)
    requires NonNegScoring(score)
    requires Valid(g) && forall e | e in pool :: SimulationLogic.Candidate(g, e)
    requires |draws| >= k
    requires Distinct(pool)
    ensures Distinct(RoadsOf(Rounds(score, resim, g, nt, pool, draws, i, k).selected))
  {
    var roads := RoadsOf(Rounds(score, resim, g, nt, pool, draws, i, k).selected);
    RoundsPool(score, resim, g, nt, pool, draws, i, k);
    CountedOnce(pool, roads);
  }

  /** Whatever is removed from a list without repeats has no repeats. */
  lemma CountedOnce(pool: seq<Edge>, roads: seq<Edge>)
    requires Distinct(pool) && multiset(roads) <= multiset(pool)
    ensures Distinct(roads)
  {
    forall a, b | 0 <= a < b < |roads|
      ensures roads[a] != roads[b]
    {
      if roads[a] == roads[b] {
        TwiceCounted(roads, a, b);
        DistinctCount(pool, roads[a]);
        assert false;
      }
    }
  }

  /** An element at two positions is counted at least twice. */
  lemma TwiceCounted(s: seq<Edge>, a: nat, b: nat)
    requires a < b < |s| && s[a] == s[b]
    ensures multiset(s)[s[a]] >= 2
  {
    var e := s[a];
    assert s == s[..a] + [e] + s[a + 1..b] + [e] + s[b + 1..];
  }

  /** A list without repeats holds each element at most once. */
  lemma {:induction false} DistinctCount(s: seq<Edge>, x: Edge)
    requires Distinct(s)
    ensures multiset(s)[x] <= 1
    decreases |s|
  {
    if s != [] {
      assert s == [s[0]] + s[1..];
      DistinctCount(s[1..], x);
      if s[0] == x {
        assert x !in s[1..];
      }
    }
  }

  /** Every chosen road is one of the candidates, scored on the network
      of its round, and every score chosen is non-negative, so every
      weight built is. */
  lemma {:induction false} RoundsNonNeg(score: Scoring, resim: Resimulation, g: Graph, nt: Table, pool: seq<Edge>, draws: seq<seq<seq<Trip>>>, i: nat, k: nat)
    requires NonNegScoring(score)
    requires Valid(g) && forall e | e in pool :: SimulationLogic.Candidate(g, e)
    requires |draws| >= k
    ensures forall s | s in Rounds(score, resim, g, nt, pool, draws, i, k).selected :: s.0 in pool && s.1 >= 0.0
    decreases k - i
  {
    if i < k && pool != [] {
      var best, next, rest := RoundStep(score, resim, g, nt, pool, draws, i, k);
      RoundsNonNeg(score, resim, next.graph, next.table, next.pool, draws, i + 1, k);
      forall s | s in [best] + rest.selected
        ensures s.0 in pool && s.1 >= 0.0
      {
        if s != best {
          assert s.0 in multiset(next.pool);
        }
      }
    }
  }

  /** The grown network extends the original, and every chosen road joins
      its endpoints in it. */
  lemma {:induction false} RoundsGrow(score: Scoring, resim: Resimulation, g: Graph, nt: Table, pool: seq<Edge>, draws: seq<seq<seq<Trip>>>, i: nat, k: nat)
    requires NonNegScoring(score)
    requires Valid(g) && forall e | e in pool :: SimulationLogic.Candidate(g, e)
    requires |draws| >= k
    ensures var s := Rounds(score, resim, g, nt, pool, draws, i, k);
      && SimulationLogic.Extends(s.graph, g)
      && forall c | c in s.selected :: Adjacent(s.graph, c.0.0, c.0.1)
    decreases k - i
  {
    var s := Rounds(score, resim, g, nt, pool, draws, i, k);
    if i >= k || pool == [] {
      SimulationLogic.CommitValid(g, g, []);
    } else {
      var best, next, rest := RoundStep(score, resim, g, nt, pool, draws, i, k);
      RoundsGrow(score, resim, next.graph, next.table, next.pool, draws, i + 1, k);
      NextExtends(g, pool, best);
      ExtendsTransitive(s.graph, next.graph, g);
      assert Adjacent(s.graph, best.0.0, best.0.1);
    }
  }

  lemma ExtendsTransitive(a: Graph, b: Graph, c: Graph)
    requires SimulationLogic.Extends(a, b) && SimulationLogic.Extends(b, c)
    ensures SimulationLogic.Extends(a, c)
  {
  }

  /** `evaluate_and_update_road_benefits(G, d, nt, potential_roads, k)`:
      `G` and `potential_roads` are updated in place in the source and are
      returned here; `nt` is rebound locally, so the caller's table is left
      as it was. Round `r` re-simulates with `draws[r]`. */
  method EvaluateAndUpdateRoadBenefits(g: Graph, nt: Table, pool: seq<Edge>, draws: seq<seq<seq<Trip>>>, k: nat)
      returns (selected: seq<Scored>, graph: Graph, roads: seq<Edge>)
    requires Valid(g) && forall e | e in pool :: SimulationLogic.Candidate(g, e)
    requires |draws| >= k && forall r | 0 <= r < |draws| :: RoundShaped(draws[r])
    ensures NonNegScoring(BenefitScore) && Selection(graph, roads, selected) == Rounds(BenefitScore, Resimulate, g, nt, pool, draws, 0, k)
  {
    selected := [];
    graph, roads := g, pool;
    var table := nt;
    var round := 0;
    SelectorStart(g, nt, pool, draws, k);
    while round < k
      invariant Selecting(g, nt, pool, draws, k, round, graph, table, roads, selected)
    {
      var ranked := RankRoads(graph, table, roads);
      if ranked == [] {
        break;
      }
      var best := ranked[0];
      BenefitScoreNonNeg();
      var graph', roads', table' := BuildRoad(graph, roads, best, draws[round]);
      SelectorStep(g, nt, pool, draws, k, round, graph, table, roads, selected, best, graph', roads', table');
      selected := selected + [best];
      graph, roads, table := graph', roads', table';
      round := round + 1;
    }
    SelectorDone(g, nt, pool, draws, k, round, graph, table, roads, selected);
  }

  /** The loop invariant of the selector after `round` rounds: the rounds
      still to run, after the roads chosen so far, are the whole selector. */
  ghost predicate Selecting(g: Graph, nt: Table, pool: seq<Edge>, draws: seq<seq<seq<Trip>>>, k: nat, round: nat,
                            graph: Graph, table: Table, roads: seq<Edge>, selected: seq<Scored>)
  {
    && NonNegScoring(BenefitScore)
    && Valid(g) && (forall e | e in pool :: SimulationLogic.Candidate(g, e))
    && Valid(graph) && (forall e | e in roads :: SimulationLogic.Candidate(graph, e))
    && round <= k <= |draws|
    && var rest := Rounds(BenefitScore, Resimulate, graph, table, roads, draws, round, k);
       Rounds(BenefitScore, Resimulate, g, nt, pool, draws, 0, k) == Selection(rest.graph, rest.pool, selected + rest.selected)
  }

  /** Before the first round nothing is chosen yet. */
  lemma SelectorStart(g: Graph, nt: Table, pool: seq<Edge>, draws: seq<seq<seq<Trip>>>, k: nat)
    requires Valid(g) && forall e | e in pool :: SimulationLogic.Candidate(g, e)
    requires |draws| >= k
    ensures Selecting(g, nt, pool, draws, k, 0, g, nt, pool, [])
  {
    BenefitScoreNonNeg();
    var rest := Rounds(BenefitScore, Resimulate, g, nt, pool, draws, 0, k);
    assert [] + rest.selected == rest.selected;
  }

  /** One round of the loop keeps its invariant. */
  lemma SelectorStep(g: Graph, nt: Table, pool: seq<Edge>, draws: seq<seq<seq<Trip>>>, k: nat, round: nat,
                     graph: Graph, table: Table, roads: seq<Edge>, selected: seq<Scored>,
                     best: Scored, graph': Graph, roads': seq<Edge>, table': Table)
    requires Selecting(g, nt, pool, draws, k, round, graph, table, roads, selected)
    requires round < k && roads != [] && best == Best(BenefitScore, graph, table, roads)
    requires RoundState(graph', roads', table') == Next(Resimulate, graph, roads, best, draws[round])
    ensures Selecting(g, nt, pool, draws, k, round + 1, graph', table', roads', selected + [best])
  {
    var _, next, rest := RoundStep(BenefitScore, Resimulate, graph, table, roads, draws, round, k);
    assert next.graph == graph' && next.pool == roads' && next.table == table';
    assert selected + ([best] + rest.selected) == (selected + [best]) + rest.selected;
  }

  /** The loop ends after `k` rounds or when no candidate is left; either
      way the rounds still to run choose nothing. */
  lemma SelectorDone(g: Graph, nt: Table, pool: seq<Edge>, draws: seq<seq<seq<Trip>>>, k: nat, round: nat,
                     graph: Graph, table: Table, roads: seq<Edge>, selected: seq<Scored>)
    requires Selecting(g, nt, pool, draws, k, round, graph, table, roads, selected)
    requires round == k || roads == []
    ensures NonNegScoring(BenefitScore) && Selection(graph, roads, selected) == Rounds(BenefitScore, Resimulate, g, nt, pool, draws, 0, k)
  {
    assert Rounds(BenefitScore, Resimulate, graph, table, roads, draws, round, k) == Selection(graph, roads, []);
    assert selected + [] == selected;
  }

  /** Lines 96-103 of a round: the candidates scored in list order and
      ranked; the ranking is empty exactly when no candidate is left, and
      otherwise starts with `Best`. */
  method RankRoads(g: Graph, nt: Table, roads: seq<Edge>) returns (ranked: seq<Scored>)
    requires forall e | e in roads :: SimulationLogic.Candidate(g, e)
    ensures ranked == Rank(ScoreBy(BenefitScore, g, nt, roads))
    ensures ranked == [] <==> roads == []
    ensures ranked != [] ==> ranked[0] == Best(BenefitScore, g, nt, roads)
  {
    var scored := ScoreRoadBenefits(g, nt, roads);
    ranked := Rank(scored);
    if ranked != [] {
      RankHeadIsBest(BenefitScore, g, nt, roads);
    }
  }

  /** Lines 107-117 of a round: build `best`, drop it from the candidates
      and re-simulate the round's draws on a zero table over the grown
      network; together this is `Next`. */
  method BuildRoad(g: Graph, roads: seq<Edge>, best: Scored, trips: seq<seq<Trip>>)
      returns (graph: Graph, rest: seq<Edge>, table: Table)
    requires Valid(g) && forall e | e in roads :: SimulationLogic.Candidate(g, e)
    requires best.0 in roads && SimulationLogic.Candidate(g, best.0) && best.1 >= 0.0
    requires RoundShaped(trips)
    ensures RoundState(graph, rest, table) == Next(Resimulate, g, roads, best, trips)
  {
    graph := AddEdge(g, best.0.0, best.0.1, best.1);
    rest := RemoveFirst(roads, best.0);
    table := ZeroTable(graph);
    var progress;
    table, progress := SimulateTraffic(graph, table, ResimIterations, ResimAgents, trips);
  }

  /** The scoring loop (lines 96-99): each candidate paired with its
      benefit, in list order. */
  method ScoreRoadBenefits(g: Graph, nt: Table, roads: seq<Edge>) returns (scored: seq<Scored>)
    requires forall e | e in roads :: SimulationLogic.Candidate(g, e)
    ensures scored == ScoreBy(BenefitScore, g, nt, roads)
  {
    scored := [];
    var i := 0;
    while i < |roads|
      invariant 0 <= i <= |roads|
      invariant |scored| == i
      invariant forall j | 0 <= j < i :: scored[j] == (roads[j], BenefitScore(g, nt, roads[j]))
    {
      var road := roads[i];
      assert SimulationLogic.Candidate(g, road);
      scored := scored + [(road, Benefit(g, nt, road.0, road.1))];
      i := i + 1;
    }
  }
}
