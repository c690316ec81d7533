# Cops and Robbers on a graph, in Dafny

This project models a turn-based pursuit–evasion game on a finite undirected graph. A
cop (`Policia`) chases a robber (`Ladron`). Each round:

1. The cop steps one edge along a shortest path towards the robber.
2. The robber, seeing the cop's new position, picks among its neighbours and its own
   node. It takes the first candidate, in adjacency order with its own node last, that
   maximises the distance to the nearest cop. It never steps onto a cop.

The driver repeats rounds until capture (both on one node) or until the step budget
`max_pasos` is used up. It reports `(captured, steps)`.

The model has five modules:

- `Graphs` is the board. A graph is a map from node to its adjacency list, kept in the
  graph library's order because that order breaks the robber's ties. The module also
  holds the shortest-path queries the code asks of the library, written out as a
  breadth-first layering:
  - `Ball(g, a, k)` is the set of nodes within `k` edges of `a`.
  - `Dist` is the first radius whose ball holds the target, or `None` once the balls
    stop growing. `None` stands for the library's "no path" exception.
  - `ShortestPath` builds a path whose every node is one edge closer to the target.
- `Pursuer` has the cop's decision `Pursue` and the `Cop` class holding its position.
- `Evader` holds the robber's policy in two forms:
  - a functional specification, `Evasion`, a left fold `Scan` over the candidates;
  - the imperative method `Robber.Move`, with the nested loops of the code, proved equal
    to it.

  `Extended` stands for the distance `float('inf')` that the code uses when no cop is
  reachable.
- `Simulation` has the round (`Round`) and the loop as a function (`Play`, `Outcome`).
  It also has the loop as methods that update the two agents' positions in place:
  `PlayRounds`, shared by the script's `__main__` block, and `Simulate` for
  `ejecutar_simulacion`.
- `Scenarios` has the scripted games of `caso_base.py`.

Two consequences of the code worth stating:

- The outcome is the pair `(captured, steps)` the code returns. The final positions are
  not part of it; they are readable from `PlayRounds`' objects.
- On the six-node cycle with the cop at 0 and the robber at 3, the robber is never
  caught. It steps back to the node opposite the cop every round, and
  `CycleRobberEscapes` proves `(false, 10)`. This holds for the modelled choice among
  equally short paths; see "Left out".

## Model

| member | source | states |
|---|---|---|
| Graphs.Dist | cops_and_robbers.py:116-122 | The distance query either returns `d`, with the target within `d` edges and not within fewer, or returns "no path" when the target is within no number of edges |
| Graphs.DistIsShortestWalk | cops_and_robbers.py:116-122 | "No path" exactly when no walk joins the two nodes; otherwise some walk has `Dist + 1` nodes and every walk has at least that many |
| Graphs.DistIs | cops_and_robbers.py:116-122 | The query returns exactly the least radius whose ball holds the target |
| Graphs.DistZero | cops_and_robbers.py:31-33 | Distance 0 exactly between a node and itself |
| Graphs.DistOne | cops_and_robbers.py:36-41 | Distance 1 exactly between two distinct adjacent nodes |
| Graphs.CloserNeighbour | cops_and_robbers.py:36-41 | A node at distance `d > 0` from the target has a neighbour at distance `d - 1` |
| Graphs.ShortestPath | cops_and_robbers.py:36-37 | "No path" exactly when the distance is `None`. Otherwise the result is a walk from source to target with `Dist + 1` nodes, each one edge closer to the target than the one before |
| Graphs.FirstAtDistanceIsFirst | cops_and_robbers.py:36-41 | The next hop chosen is at or before every neighbour at the wanted distance, in adjacency order |
| Pursuer.Pursue | cops_and_robbers.py:20-47 | The cop stays when on the robber's node or when no path exists. Otherwise it moves to a neighbour exactly one edge closer to the robber |
| Pursuer.PursueIsStepOrStay | cops_and_robbers.py:31-47 | On a valid graph the cop's move is its own node or a neighbour, and stays on the board |
| Pursuer.PursueMovesIffReachable | cops_and_robbers.py:31-47 | The cop moves exactly when it is not on the robber's node and a path to it exists |
| Pursuer.PursueTakesFirstCloser | cops_and_robbers.py:36-41 | Among the neighbours one edge closer, the cop takes the first in adjacency order |
| Pursuer.Cop.constructor | cops_and_robbers.py:11-18 | The cop starts at the given node |
| Pursuer.Cop.UpdatePosition | cops_and_robbers.py:49-56 | The position becomes the given node and nothing else changes |
| Evader.Lesser | cops_and_robbers.py:119 | `min` of two extended distances: one of the two, and exceeded by neither |
| Evader.ExceedsIsStrictTotal | cops_and_robbers.py:125 | The strict comparison `>` with infinity is irreflexive, total and transitive through `>=` |
| Evader.NearestCop | cops_and_robbers.py:112-122 | Infinity exactly when no cop is reachable. Otherwise the distance of some reachable cop, and no larger than any reachable cop's distance |
| Evader.NearestCopPositive | cops_and_robbers.py:104-125 | A candidate not held by a cop scores strictly above the initial best of 0 |
| Evader.MeasureNearestCop | cops_and_robbers.py:112-122 | The inner loop over the cops computes `NearestCop` |
| Evader.ScanFindsFirstBest | cops_and_robbers.py:103-127 | After any prefix of candidates, the scan holds either its untouched start (every candidate so far held by a cop) or the first candidate with the greatest score, with that score |
| Evader.Evasion | cops_and_robbers.py:74-129 | The robber stays with no cops, an empty graph, when caught, or with no neighbours. Its move is its own node or a neighbour. It never lands on a cop unless already caught |
| Evader.EvasionIsFirstBest | cops_and_robbers.py:101-127 | Outside the stay cases, the move is the first candidate (neighbours in order, then the own node) whose nearest reachable cop is farthest |
| Evader.EvasionTakesStrictBest | cops_and_robbers.py:107-127 | A free candidate strictly better than every other free candidate is the move |
| Evader.CorneredRobberStays | cops_and_robbers.py:107-129 | A robber whose only neighbour is the cop stays |
| Evader.Robber.constructor | cops_and_robbers.py:65-72 | The robber starts at the given node |
| Evader.Robber.Move | cops_and_robbers.py:74-129 | The nested loops return exactly the move `Evasion` specifies |
| Evader.Robber.UpdatePosition | cops_and_robbers.py:131-138 | The position becomes the given node and nothing else changes |
| Simulation.Round | caso_base.py:52-58 | The cop moves first and the robber answers its new node. Both stay on the board. A round ends with both on one node only on the node the robber held |
| Simulation.Play | caso_base.py:47-58 | The loop stops on capture or at the budget and never counts past the budget. No round runs when the start is a capture or the budget is spent |
| Simulation.Outcome | caso_base.py:65-71 | Captured exactly when the final positions coincide, reporting the rounds played; otherwise the budget. The count lies within `0..max_pasos`. A start on one node reports `(true, 0)` |
| Simulation.CaptureIsFinal | caso_base.py:49-58 | A caught robber stays caught: a round from a capture changes nothing, and the loop stops at once |
| Simulation.AdjacentCopCaptures | caso_base.py:52-58 | A cop next to the robber ends the round on the robber's node, with the robber still there |
| Simulation.AdjacentStartCapturedInOneRound | caso_base.py:106-118 | A start with the cop next to the robber, as on any complete graph, is reported as `(true, 1)` |
| Simulation.AlternationEscapes | caso_base.py:47-58 | Two capture-free rounds that return to the start keep the game going until the budget. The loop stops there on the starting positions after an even number of remaining rounds, and on the other pair after an odd number |
| Simulation.AlternationIsReportedEscape | caso_base.py:65-71 | Such a game is reported as `(false, max_pasos)` for every budget, odd, even or negative |
| Simulation.PlayRounds | cops_and_robbers.py:151-163 | The loop over the two agent objects ends in the state and count `Play` specifies. On exit the positions coincide or the budget is reached, and the count never exceeds a non-negative budget |
| Simulation.Simulate | caso_base.py:35-71 | The simulation returns exactly `Outcome` |
| Scenarios.CompleteGraphCapturedInOneRound | caso_base.py:106-118 | On K5, cop 0, robber 4, budget 5: `(true, 1)` |
| Scenarios.TreeRobberCaptured | caso_base.py:85-104 | On the tree (0,1),(0,2),(1,3),(2,4), cop 0, robber 4, budget 10: captured, after 2 rounds |
| Scenarios.PathRobberCaptured | caso_base.py:73-76 | On the path 0-1-2-3-4, cop 0, robber 4, budget 10: `(true, 4)` |
| Scenarios.CycleRobberEscapes | caso_base.py:78-83 | On the six-node cycle, cop 0, robber 3, budget 10: `(false, 10)`, with positions alternating between (0, 3) and (1, 4) |

## Left out

- Pursuer.Pursue: among several equally short paths, the cop follows the one that goes
  through the first closer neighbour at every hop, in adjacency order. The graph
  library's own choice among equally short paths is not modelled. `CycleRobberEscapes`
  depends on this choice.
- Graph construction by the library (`nx.path_graph`, `nx.cycle_graph`,
  `nx.complete_graph`, `add_edges_from`) is not modelled. The scenario boards are map
  literals that list neighbours in edge-insertion order.
- `nx.random_tree` and the fixed starts 0 and 9 and budget 100 of the script's
  `__main__` block are not modelled. The graph, the start positions and the budget are
  parameters of `PlayRounds`.
- Nodes missing from the graph: the library raises on them, uncaught.
  - The driver requires both start positions to be nodes of a valid graph.
  - `Evasion` and `Robber.Move` require the robber's node to be in the graph, except
    in the early-return cases that never consult the graph.
  - A cop position that is not a node is treated as unreachable, where the library
    would raise.
  - Pursue: a cop or robber that is not a node counts as unreachable, so the cop stays,
    where the library raises `NodeNotFound`.
- `float('inf')` is the `Infinity` case of `Extended`, not a floating-point value.
- Console output and image rendering are not modelled: every `print`, `visualizar_grafo`,
  the `imagenes` folder and matplotlib.
- Capture on every tree given a budget of at least the tree's diameter is not proved.
  Only the scripted tree game is.
- Determinism of both decisions is not stated separately. It holds because they are
  Dafny functions of the graph and the positions.
