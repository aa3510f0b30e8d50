# Road-network optimiser: a Dafny model

This project models the core of a small traffic-planning tool. A road network is a weighted undirected graph built with networkx. Simulated agents travel between random junctions along shortest routes, and a table `nt` counts the trips over every road. A *benefit* formula scores each candidate road by the route length it would save. A greedy selector then builds the best-scoring candidates.

The tool has two drafts of this core, and each is modelled in its own form.

- **`TrafficSimulation` in SimulationLogic.py** is an object.
  - It is modelled as the class `SimulationLogic.TrafficSimulation`.
  - Its fields are `graph`, `nt`, `potentialRoads`, `selectedRoads` and `roadDetails`.
  - Its methods update those fields in place and are proved against specification functions (`Run`, `CountRoute`, `Select`, `Record`, `Commit`).
  - `calculate_shortest_path` and `benefit` only read state. They are modelled as functions, with lemmas about them.
- **R2.py** is a draft written as free functions over `G`, `nt` and the candidate list.
  - It is modelled in module `R2`.
  - Its loops are methods (`SimulateTraffic`, `CountTrip`, `EvaluateAndUpdateRoadBenefits`).
  - Each method is proved equal to a recursive specification function (`Simulated`, `BumpRoute`, `Rounds`).
  - Lemmas about those functions state what the draft promises.

Supporting modules:

- `Graphs`: networkx's graph as a node list in insertion order plus a weight map. Each road is keyed in the orientation `G.edges()` reports it, which is the earlier-inserted endpoint first. It also covers `add_edge`, neighbours, and walks with their lengths.
- `ShortestPaths`: `calculate_shortest_path` as a Bellman-Ford style recursion bounded by the number of nodes. It is proved to be the minimum over all routes, and to be `Inf` exactly when no route exists. It also defines the drawn trips.
- `Tables`: the traffic table `map<Edge, nat>`, its zero table and its total.
- `Ranking`: `list.sort(key=..., reverse=True)` as a stable descending insertion sort.
- `Seqs`: the list operations used. These are the `not in` comprehension, `list.remove`, `s[-k:]`, and flattening the nested iteration/agent loops.

Randomness becomes input. The trips that `random.sample` and `nx.shortest_path` produce are given as `draws[iteration][agent]`. A `Trip` carries its sampled endpoints and the route networkx returned, or `None` when it raised `NetworkXNoPath`. The predicate `ShortestPaths.Routed` states what a faithful draw is.

The two drafts differ in these points, and each part of the model follows its own draft:

- `simulate_traffic` in SimulationLogic.py does not catch `NetworkXNoPath`, so an unroutable trip ends the run with the counts made so far (`Run`, with its `raised` flag). R2.py catches it and skips the trip (R2.py:78-80), as `R2.Accumulate` does.
- Both drafts count a hop on its forward key, else on its reverse key. In SimulationLogic.py the keys are fixed at construction to the network's roads in `G.edges()` orientation, and a hop over neither orientation is not counted (`Slot`). R2.py inserts the forward key with count 1 (`R2.Bump`).
- With fewer than two nodes, both drafts skip every agent rather than failing.
- The selection step of SimulationLogic.py does not re-simulate traffic. R2.py resets the table over the grown network and re-simulates after every road it builds.
- R2.py builds each road with its *benefit* as the weight (line 111). SimulationLogic.py computes 80% of the route the road short-cuts as its weight (line 103), though its commit loop reads the weight from elsewhere (see Findings).
- SimulationLogic.py's indirect term adds only positive savings (lines 49-50), and R2.py clamps each indirect term at zero (line 46). So in both drafts the benefit of a reachable pair is never below zero (`BenefitNonNeg` in each module).

## Model

| member | source | states |
|---|---|---|
| Graphs.AddEdge | SimulationLogic.py:117 | `add_edge(x, y, weight=w)` joins `x` and `y` with weight `w`, keeps every road already stored, and keeps the node list when both endpoints are known |
| Graphs.AddEdgeOthers | SimulationLogic.py:117 | `add_edge` changes no other road's weight and adds no road other than `(x, y)` or `(y, x)` |
| Graphs.AddEdgeValid | SimulationLogic.py:117 | adding a non-negative road between distinct junctions keeps the network well formed and keeps every existing adjacency |
| Graphs.AddEdgeEarlierFirst | SimulationLogic.py:117 | after `add_edge` every road is still keyed earlier-endpoint-first, the orientation `G.edges()` reports |
| Graphs.Neighbors | SimulationLogic.py:43 | `G.neighbors(x)` lists exactly the junctions adjacent to `x` |
| Graphs.NeighborsDistinct | SimulationLogic.py:43 | `G.neighbors(x)` lists no junction twice |
| Graphs.WalkAppend | SimulationLogic.py:32 | joining two routes at a shared junction gives a route as long as both together |
| Graphs.WalkReverse | SimulationLogic.py:32 | on the undirected network every route can be travelled backwards, with as many junctions |
| Tables.ZeroTable | SimulationLogic.py:25 | `{edge: 0 for edge in graph.edges()}` is a table that has counted no trip: its total is zero, and it has a key for every road of the network and for nothing else |
| Tables.Get | R2.py:35 | `nt.get(edge, 0)` is zero for a road that is not a key |
| Tables.TotalZero | R2.py:115 | a table of zero counts has total zero |
| Tables.TotalUpdate | R2.py:72-77 | changing one entry changes the table's total by exactly the difference |
| ShortestPaths.Min | SimulationLogic.py:32 | the smaller of two distances is one of them and at most both |
| ShortestPaths.ShortestDistance | SimulationLogic.py:29-34 | the shortest-path oracle (also `CalculateShortestPath`, R2.py:21-27); what it promises is stated by `ShortestAttained`, `ShortestAtMostWalk`, `UnreachableIffNoWalk` and `ShortestUnknownTarget` |
| ShortestPaths.ShortestUnknownTarget | SimulationLogic.py:31-34 | a target that is not a junction of the network gives `np.inf`: networkx reports it as `NetworkXNoPath`, which both drafts catch |
| ShortestPaths.ShortestAttained | SimulationLogic.py:29-34 | a finite `calculate_shortest_path` value is the length of an actual route, and no route between the pair is shorter |
| ShortestPaths.ShortestAtMostWalk | SimulationLogic.py:29-34 | any route between the pair makes it reachable and bounds the returned length from above |
| ShortestPaths.UnreachableIffNoWalk | SimulationLogic.py:31-34 | `np.inf` is returned exactly when no route exists (the same oracle as `CalculateShortestPath`, R2.py:21-27) |
| ShortestPaths.ShortestNonNeg | SimulationLogic.py:32 | a finite shortest length is non-negative |
| ShortestPaths.ShortestSelf | SimulationLogic.py:32 | a junction is at distance zero from itself |
| ShortestPaths.ReachableExtend | SimulationLogic.py:32 | a junction reachable from `s` makes each of its neighbours reachable from `s` |
| ShortestPaths.ReachableSymmetric | SimulationLogic.py:32 | on the undirected network, reachability is symmetric |
| ShortestPaths.ReachableTransitive | SimulationLogic.py:32 | reachability composes along an intermediate junction |
| ShortestPaths.AddEdgeKeepsReachable | SimulationLogic.py:117 | building a road never disconnects a pair that had a route |
| ShortestPaths.DrawPossibleIffTwoNodes | SimulationLogic.py:60-62 | two distinct junctions can be sampled exactly when the network has at least two |
| ShortestPaths.Routed | SimulationLogic.py:62-63 | a drawn trip is two distinct junctions and a shortest route between them, or none exactly when they are disconnected; its consequences are stated by `RoutedHops` and `DrawPossibleIffTwoNodes` |
| ShortestPaths.RoutedHops | SimulationLogic.py:62-63 | a drawn trip has no route exactly when its endpoints are disconnected; otherwise its route has at least one hop, since the endpoints differ |
| Ranking.Rank | SimulationLogic.py:99 | `sort(key=benefit, reverse=True)` yields a descending permutation of its input that keeps equal-benefit entries in their original order |
| Ranking.RankHeadIsFirstBest | SimulationLogic.py:99 | the first ranked entry is the first input entry of greatest benefit |
| Ranking.RankPrefixBeatsRest | SimulationLogic.py:99-101 | an entry left outside the first `n` ranked has benefit at most that of each of the first `n` |
| Ranking.FirstWithKey | SimulationLogic.py:99 | the first entry with a given benefit has no earlier entry with that benefit |
| Ranking.InsertRoads | SimulationLogic.py:99 | inserting a scored road into a ranked list adds exactly that road |
| Ranking.RankKeepsRoads | SimulationLogic.py:99 | sorting `road_benefits` neither loses nor invents a road: the ranked roads are the scored roads, each as often |
| Seqs.WithoutMembers | SimulationLogic.py:121 | `[road for road in initial if road not in selected]` keeps exactly the roads not selected, each as often as it occurred |
| Seqs.WithoutAppend | SimulationLogic.py:121 | the comprehension keeps the original order |
| Seqs.WithoutNothing | SimulationLogic.py:17 | with nothing selected, the pool is the initial list |
| Seqs.RemoveFirst | R2.py:114 | `potential_roads.remove(best_road)` makes the list one shorter |
| Seqs.RemoveFirstCount | R2.py:114 | `list.remove` takes away exactly one occurrence of the road |
| Seqs.RemoveFirstCuts | R2.py:114 | `list.remove` cuts out the first occurrence and keeps the rest in order |
| Seqs.LastK | SimulationLogic.py:122 | `selected_roads[-k:]` is a suffix of the list: exactly `k` roads when `0 < k <= len`, and the whole list when `k == 0` or `k >= len` |
| Seqs.LastKEndsWith | SimulationLogic.py:118-122 | when at most `k` roads were appended in the step, `selected_roads[-k:]` ends with all of them, in order |
| Seqs.FlattenAppend | SimulationLogic.py:58-59 | the nested iteration and agent loops visit the draws iteration by iteration |
| SimulationLogic.Proposed | SimulationLogic.py:39 | the proposed length `0.8 * d` lies between zero and `d` |
| SimulationLogic.NeighbourPairs | SimulationLogic.py:43 | the generator yields exactly the pairs of a neighbour of `y` and a neighbour of `x` that differ |
| SimulationLogic.NeighbourPairsDistinct | SimulationLogic.py:43 | the generator yields no pair twice, so `set(...)` around it drops nothing |
| SimulationLogic.PairGain | SimulationLogic.py:44-50 | one neighbour pair adds a non-negative amount |
| SimulationLogic.PairGainMonotone | SimulationLogic.py:48-50 | more traffic on a neighbour pair never lowers its contribution |
| SimulationLogic.DirectMonotone | SimulationLogic.py:38-40 | for a non-negative shortest distance the direct term is non-negative and non-decreasing in `nt[(x, y)] + nt[(y, x)]` |
| SimulationLogic.NeighbourPairDistances | SimulationLogic.py:43-47 | for a reachable candidate, every distance the indirect loop reads is finite |
| SimulationLogic.IndirectNonNeg | SimulationLogic.py:42-51 | the indirect benefit is non-negative |
| SimulationLogic.IndirectMonotone | SimulationLogic.py:42-51 | raising any counts never lowers the indirect benefit |
| SimulationLogic.Benefit | SimulationLogic.py:36-52 | `benefit(x, y)`: the direct saving plus the indirect savings of neighbour pairs; what it promises is stated by `BenefitNonNeg`, `BenefitMonotone`, `IndirectNonNeg` and `DirectMonotone` |
| SimulationLogic.BenefitNonNeg | SimulationLogic.py:36-52 | the benefit of a reachable candidate is non-negative |
| SimulationLogic.BenefitMonotone | SimulationLogic.py:36-52 | on a fixed network, raising any traffic counts never lowers the benefit |
| SimulationLogic.Slot | SimulationLogic.py:66-71 | a hop counts against its forward key when that is a key, else its reverse key, else nothing |
| SimulationLogic.CountHop | SimulationLogic.py:66-71 | one hop of the counting loop: add one to the key `Slot` picks, or nothing; its effect is stated by `CountRoute`, `CountRouteEntries` and `CountRouteTotal` |
| SimulationLogic.CountRoute | SimulationLogic.py:65-72 | counting a route never changes the table's keys and never lowers a count |
| SimulationLogic.CountRouteEntries | SimulationLogic.py:65-72 | each key's count rises by exactly the number of the route's hops that land on it |
| SimulationLogic.CountRouteTotal | SimulationLogic.py:65-72 | the table's total rises by exactly the number of hops counted |
| SimulationLogic.AllHopsCounted | SimulationLogic.py:65-72 | on a route of the network, with every road a key, each of the `len(path) - 1` hops is counted |
| SimulationLogic.Run | SimulationLogic.py:58-72 | a run of trips never changes the table's keys and never lowers a count |
| SimulationLogic.RunRaisedIff | SimulationLogic.py:63 | the run stops on an exception exactly when some drawn trip has no route |
| SimulationLogic.RunRaisedAbsorbs | SimulationLogic.py:63 | once the run has raised, later trips change nothing |
| SimulationLogic.RunConcat | SimulationLogic.py:58-59 | running two batches of trips is running the second on the first's table, unless the first raised |
| SimulationLogic.RunConnectedNeverRaises | SimulationLogic.py:63 | on a connected network no faithful draw makes the run raise |
| SimulationLogic.ScoreAll | SimulationLogic.py:97-98 | scoring gives one `(road, benefit)` pair per candidate, in candidate order |
| SimulationLogic.ScoreAllSnoc | SimulationLogic.py:97-98 | scoring one more candidate appends its pair |
| SimulationLogic.RankedScores | SimulationLogic.py:97-99 | every ranked pair is a candidate with its own benefit |
| SimulationLogic.ScoredRoads | SimulationLogic.py:97-99 | scoring keeps the candidates in order, and after sorting the ranked roads are the candidates, each as often |
| SimulationLogic.Select | SimulationLogic.py:115-116 | a step builds `min(k, len(road_benefits))` roads, all taken from the candidates |
| SimulationLogic.SelectFirstIsBest | SimulationLogic.py:99-116 | the first road built is the first candidate, in list order, of greatest benefit |
| SimulationLogic.SelectBeatsRest | SimulationLogic.py:99-116 | every road built has at least the benefit of every candidate left unbuilt |
| SimulationLogic.ProposedWeight | SimulationLogic.py:103 | 80% of the current shortest route (`Proposed` bounds it between zero and the route) |
| SimulationLogic.Detail | SimulationLogic.py:101-112 | the record of a chosen road: its benefit, the traffic in both orientations, and its proposed weight; `RecordHas` and `ReturnedDetails` state where it ends up |
| SimulationLogic.Record | SimulationLogic.py:101-112 | records written in rank order; stated by `RecordStep`, `RecordHas` and `RecordKeeps` |
| SimulationLogic.RecordStep | SimulationLogic.py:101-112 | recording one more chosen road adds exactly its record |
| SimulationLogic.RecordHas | SimulationLogic.py:101-112 | after recording, each chosen road maps to its own benefit, traffic volume and proposed weight |
| SimulationLogic.RecordKeeps | SimulationLogic.py:101-112 | recording leaves the records of other roads as they were |
| SimulationLogic.CommitNext | SimulationLogic.py:115-117 | building one more chosen road is one more `add_edge` with its proposed weight |
| SimulationLogic.Commit | SimulationLogic.py:115-117 | the chosen roads built in rank order with their proposed weights; stated by `CommitNext`, `CommitValid` and `CommitAdjacent` |
| SimulationLogic.CommitValid | SimulationLogic.py:115-117 | building the chosen roads keeps the network well formed, its junctions, and every road and route it had |
| SimulationLogic.CommitAdjacent | SimulationLogic.py:115-117 | every chosen road is a road of the network afterwards |
| SimulationLogic.ReturnedDetails | SimulationLogic.py:101-122 | the records `selected_roads[-k:]` looks up end with the records written for the roads built in this step, in the order they were built |
| SimulationLogic.WithoutTwice | SimulationLogic.py:97-98 | the `road not in self.selected_roads` filter removes nothing from a pool already recomputed at line 121 |
| SimulationLogic.PoolStaysCandidates | SimulationLogic.py:121 | the recomputed pool lies inside the previous one, so its roads stay scorable on the grown network |
| SimulationLogic.ChosenAreSelected | SimulationLogic.py:99-116 | the ranked prefix the step takes is `Select`, each pair carrying its road's benefit |
| SimulationLogic.StepKeepsInvariant | SimulationLogic.py:115-121 | a step keeps the network well formed, the pool scorable, and a record for every selected road |
| SimulationLogic.TrafficSimulation.constructor | SimulationLogic.py:12-27 | the object starts with the given network, a zero table over its roads, the candidate list as the pool, and nothing selected or recorded |
| SimulationLogic.TrafficSimulation.BenefitOf | SimulationLogic.py:36-52 | `benefit(x, y)` reads the network and table only, writes nothing, and is non-negative on a reachable pair |
| SimulationLogic.TrafficSimulation.SimulateTraffic | SimulationLogic.py:54-93 | `simulate_traffic` leaves `nt` unchanged with fewer than two junctions, and otherwise ends as the run of all drawn trips, raising exactly when that run does |
| SimulationLogic.TrafficSimulation.SimulateIteration | SimulationLogic.py:59-83 | one iteration counts its agents' trips in order, stopping at the first trip without a route |
| SimulationLogic.TrafficSimulation.RecordRoute | SimulationLogic.py:65-72 | the hop loop leaves `nt` equal to `CountRoute` of the old table |
| SimulationLogic.TrafficSimulation.ScoreCandidates | SimulationLogic.py:97-98 | `road_benefits` is the scoring of the current pool |
| SimulationLogic.TrafficSimulation.RecordChosen | SimulationLogic.py:101-112 | each chosen road is recorded with its benefit, volume and proposed weight |
| SimulationLogic.TrafficSimulation.BuildChosen | SimulationLogic.py:115-118 | the chosen roads are built with their recorded weights and appended to `selected_roads`, in rank order |
| SimulationLogic.TrafficSimulation.EvaluateAndUpdateRoadBenefits | SimulationLogic.py:95-124 | one step records and builds the `min(k, #pool)` best candidates in rank order, appends them to `selected_roads`, sets `potential_roads` to the initial list without the selected roads, and returns the records of `selected_roads[-k:]` |
| SimulationLogic.CommitAsWritten | SimulationLogic.py:115-117 | the commit loop as written, reading each weight from `road_details`; its outcome is stated by `CommitAsWrittenRaises` |
| SimulationLogic.CommitAsWrittenRaises | SimulationLogic.py:115-117 | as written, the commit loop raises `KeyError` on the first ranked road whenever it has one to build |
| R2.Gain | R2.py:46 | `max(spdX_n1 + spdY_n2 - dX_Y, 0) * volume` is non-negative |
| R2.PairTerm | R2.py:42-46 | an iteration of the neighbour loop adds a non-negative amount, and adds nothing unless both `(X, n1)` and `(Y, n2)` are keys of `nt` |
| R2.InnerSumNonNeg | R2.py:41-46 | the inner neighbour loop adds a non-negative amount |
| R2.OuterSumNonNeg | R2.py:40-46 | the indirect benefit is non-negative |
| R2.BenefitNonNeg | R2.py:30-49 | `Benefit` of a reachable pair is non-negative |
| R2.BenefitGated | R2.py:42 | when no `(X, n1)` is a key of `nt`, the benefit is its direct term alone |
| R2.InnerSumUngated | R2.py:42 | when `(X, n1)` is not a key, the inner loop for `n1` adds nothing |
| R2.GatedDistancesFinite | R2.py:43-44 | for a reachable candidate, the distances to its neighbours are finite |
| R2.Benefit | R2.py:30-49 | `Benefit(G, X, Y, d, nt)`: the direct term plus the gated, clamped indirect sum; what it promises is stated by `BenefitNonNeg`, `BenefitGated` and `OuterSumNonNeg` |
| R2.Bump | R2.py:70-77 | a hop adds a key exactly when neither orientation was present, and never lowers a count |
| R2.BumpTotal | R2.py:70-77 | a hop raises the table's total by exactly one |
| R2.BumpRoute | R2.py:69-77 | counting a trip keeps every key and never lowers a count |
| R2.BumpRouteTotal | R2.py:69-77 | a routed trip raises the total by exactly `len(path) - 1` |
| R2.BumpRouteKeys | R2.py:69-77 | after a trip every hop's road is a key in one orientation, and no other key was added |
| R2.Accumulate | R2.py:67-80 | a run of trips keeps every key and never lowers a count |
| R2.AccumulateTotal | R2.py:67-80 | a run raises the total by exactly the hops of its routed trips |
| R2.AccumulateSkipsUnrouted | R2.py:78-80 | a trip that raised `NetworkXNoPath` leaves the table as it was |
| R2.RoutedOnly | R2.py:78-80 | keeping the trips that have a route leaves only routed trips |
| R2.AccumulateConcat | R2.py:57-58 | running two batches is running the second on the first's table |
| R2.Simulated | R2.py:59-62 | with fewer than two junctions every agent is skipped and the table is unchanged |
| R2.SimulateTraffic | R2.py:52-85 | the table after all iterations is the run of all drawn trips, and the generator yields `iteration` 1 to `iterations`, with `total_iterations` constant |
| R2.SimulateIteration | R2.py:58-80 | one iteration counts its agents' trips in order |
| R2.CountHop | R2.py:70-77 | the hop's three-way update is `Bump` |
| R2.CountTrip | R2.py:69-77 | the hop loop over a route is `BumpRoute` |
| R2.BenefitScoreNonNeg | R2.py:98 | the selector's scoring is non-negative on every candidate of a well-formed network |
| R2.ScoreByRoads | R2.py:95-100 | scoring keeps the remaining candidates in order, and after sorting the ranked roads are those candidates, each as often |
| R2.Resimulate | R2.py:115-117 | the re-simulated table has a key for every road of the grown network, and is the zero table over those roads when no trip can be drawn |
| R2.Best | R2.py:107 | the chosen road is a remaining candidate, carried with its score |
| R2.BestFromIsFirstMax | R2.py:100-107 | the chosen road is the first candidate, in list order, of greatest score |
| R2.RankHeadIsBest | R2.py:100-107 | the head of the stable descending sort is that road |
| R2.BestIsFirstBest | R2.py:96-107 | with the source's scoring, the road built has the greatest benefit, and no earlier candidate ties it |
| R2.Next | R2.py:107-117 | a round builds the road with its benefit as weight, removes exactly one occurrence of it from the candidates, and re-simulates on the grown network |
| R2.NextExtends | R2.py:111 | building a road keeps every road and route the network had |
| R2.RoundStep | R2.py:94-117 | a round with candidates left picks `Best`, runs `Next`, and prepends its pair to what the later rounds choose |
| R2.Rounds | R2.py:94-117 | the `k` rounds of the selector; what they promise is stated by `RoundStep`, `RoundsStop`, `RoundsCount`, `RoundsPool`, `RoundsDistinct`, `RoundsNonNeg` and `RoundsGrow` |
| R2.RoundsStop | R2.py:94-103 | after `k` rounds, or with no candidate left, nothing more is chosen |
| R2.RoundsCount | R2.py:94-114 | the selector chooses exactly `min(k, #candidates)` roads |
| R2.RoundsPool | R2.py:114 | the final candidate list plus the chosen roads is the initial candidate list, counting repeats |
| R2.RoundsDistinct | R2.py:102-114 | from a candidate list without repeats, the chosen roads are pairwise distinct |
| R2.RoundsNonNeg | R2.py:96-108 | every chosen pair is an initial candidate with a non-negative benefit |
| R2.RoundsGrow | R2.py:111 | the final network keeps every road and route of the first, and every chosen road is a road of it |
| R2.EvaluateAndUpdateRoadBenefits | R2.py:90-119 | the selector loop returns the chosen pairs, network and candidate list that `Rounds` specifies |
| R2.SelectorStart | R2.py:91-94 | before the first round, nothing is chosen and the remaining rounds are all of `Rounds` |
| R2.SelectorStep | R2.py:94-117 | one loop round keeps the chosen-so-far plus the remaining rounds equal to `Rounds` |
| R2.SelectorDone | R2.py:102-119 | on `break` or after `k` rounds the loop's result is `Rounds` |
| R2.RankRoads | R2.py:95-103 | the sorted list is empty exactly when no candidate is left, and otherwise starts with `Best` |
| R2.BuildRoad | R2.py:107-117 | building, removal and re-simulation give `Next` |
| R2.ScoreRoadBenefits | R2.py:95-99 | the scoring loop builds `ScoreBy` |

## Left out

- The tkinter and seaborn front end, plotting (`plt`, `spring_layout`), threads, tqdm progress bars and `print` output. These are presentation and concurrency.
- The CSV export (`save_traffic_counts_to_csv`, `save_graph_edges_to_csv`) and the fields that only feed it or the display: `G`, `graph_original`, `traffic_data_per_iteration`, `simulation_data` and the per-trip snapshots. This is file I/O and observation.
- The progress `callback` and `update_interval` of `simulate_traffic`. They only observe `nt`.
- `simulate_traffic` is a generator. The model runs it to the end and drops its final `yield` record; R2's per-iteration records are modelled.
- Randomness. The sampled endpoints and networkx's routes are the `draws` input. `Routed` states when a draw is faithful, and the simulation methods accept any draws.
- networkx's Dijkstra. The shortest distance is specified as a minimum over routes, not computed by Dijkstra's algorithm.
- Floating point. Weights and benefits are reals; `inf` is the `Inf` value of `Dist`; IEEE rounding and NaN are not modelled.
- SimulationLogic.Benefit: defined only for candidates whose endpoints are junctions of the network with a route between them. The source raises `NodeNotFound` for an unknown `x` (networkx checks the source of a path), `NetworkXError` at `graph.neighbors(y)` for an unknown `y`, and yields NaN for a disconnected pair.
- R2.Benefit: defined only for reachable candidates, for the same reason.
- SimulationLogic.TrafficSimulation.EvaluateAndUpdateRoadBenefits: requires every candidate in the pool to be scorable (distinct, known, connected endpoints). A NaN score, or an exception from scoring a road with an unknown endpoint, is not modelled.
- R2.EvaluateAndUpdateRoadBenefits: requires the same of the candidates. It also requires the draws of every round to have the shape of the re-simulation (36000 iterations of 100 agents).
- SimulationLogic.TrafficSimulation.EvaluateAndUpdateRoadBenefits and R2.EvaluateAndUpdateRoadBenefits take `k` as a natural number. With a negative `k` both loops in the source build nothing, and `selected_roads[-k:]` (SimulationLogic.py:122) returns all but the first `|k|` records. Every caller passes the default `k=1`.
- Graphs.EarlierFirst: the earlier-inserted-endpoint-first orientation of every road, which networkx guarantees, holds in the model by convention only. `AddEdgeEarlierFirst` proves `add_edge` keeps it, but neither the `TrafficSimulation` class invariant nor R2's selector requires it, so the lookup order of `Slot` and the key gate of `R2.PairTerm` are stated for any orientation of the stored roads.
- Graphs.AddEdge: requires distinct endpoints. A self-loop road is not modelled; no candidate has one.
- `Valid` networks have non-negative weights. Dijkstra in networkx assumes them.
- R2.py mutates `G`, `potential_roads` and the caller's `nt` in place. The model returns the grown network, the remaining candidates and the re-simulated table as values, so aliasing with the caller's objects is not modelled. The rebound `nt` (line 115) is local, so the caller never sees the final table.
- The unused parameters `d` of R2's `Benefit` and selector, and `potential_roads` of `SimulateTraffic`.
- The `f` parameter of R2's `Benefit` is fixed at its only value used, 0.8.
- PostProcessing.py's copy of `benefit` (factor 0.6), NetworkX.py, LargerNetwork.py and main.py are not part of this model. They are a non-runnable duplicate and scaffolding.
- R2.py's selector body (lines 91-117) is not consistently indented and would not parse as written. The model follows its evident structure.
- Rounds: the R2 selector's rounds are stated for any non-negative scoring and any re-simulation. The selector method instantiates them with R2's `Benefit` and `SimulateTraffic`.

## Findings

| source | as written | input that shows it | evidently intended | confidence | as-written member | corrected member |
|---|---|---|---|---|---|---|
| SimulationLogic.py:117 | each built road's weight is read from `self.road_details[best_road]`, but `road_details` starts empty (line 19) and nothing writes to it, so the lookup raises `KeyError` before any road is built; line 122 reads the same empty map | any call with `k >= 1` and at least one candidate not yet selected, e.g. the five-junction network of TrafficSimulationApp.py:58-63 | record, for each chosen road, the benefit, traffic volume and proposed weight computed at lines 101-103; build it with that proposed weight (80% of its current route); return those records | not executed | SimulationLogic.CommitAsWrittenRaises | SimulationLogic.TrafficSimulation.EvaluateAndUpdateRoadBenefits |
