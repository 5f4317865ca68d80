# Transport network graphs in Dafny

This project models the hand-written logic of a small transport-network program. The program
treats a city's stations as an undirected graph. It builds the graph from a list of connections,
searches it for a path between two stations by depth-first and breadth-first search, and
computes structural statistics (degrees, a degree histogram, the average degree, the number of
connected components and the diameter). It also derives a third edge weight from each
connection's distance and travel time.

The model has these modules:

- `GraphModel` (`graph.dfy`): the graph as the program's graph library keeps it. That is a node
  list in insertion order and, for each node, its neighbours in insertion order.
  - `Build` is `add_edges_from` applied to an empty graph.
  - `EdgeView` is the library's edge iteration: nodes in order, each edge once.
  - Walks and reachability are defined here.
- `Construction` (`construction.dfy`): `create_transport_network_graph` and the city's 58
  connections.
- `GraphSearch` and `WalkLevels` (`search.dfy`, `levels.dfy`): the two searches.
  - `dfs` is a pair of mutually recursive functions.
  - `bfs` is a method whose `while` loop keeps a FIFO queue of whole paths. It has no visited
    set.
  - `WalkLevels` describes the order in which that queue holds the walks from the start.
- `Degrees` (`degrees.dfy`): the degree list and the number of edges. The degree histogram is a
  method with the increment-or-insert loop of `analyze_graph`. The handshake lemma is proved
  here: the degrees add up to twice the number of edges that `EdgeView` yields, and the
  library's edge count, half the degree sum, is therefore that number of edges.
- `Connectivity` (`connectivity.dfy`): what the library computes for
  `number_connected_components`, `is_connected` and `diameter`. They are specification
  functions over balls of growing radius, tied to walks by lemmas.
- `Analysis` (`analysis.dfy`): both variants of `analyze_graph`.
  - The guarded variant skips the diameter of a disconnected graph.
  - The unguarded variant fails on a disconnected graph.
  - Both fail with a division by zero on the empty graph.
- `Rounding` (`rounding.dfy`): `round(x, 2)` with ties to even, on exact reals.
- `WeightedGraphs` (`weighted.dfy`): the weighted graph of task 3.
  - A class holds the graph and one attribute dictionary per unordered pair of stations, so
    both orientations of an edge share it.
  - `AddThirdWeight` is the in-place loop of `add_third_weight`. It is proved against the
    specification function `ThirdWeightPass`.

Where the repository's prose and its code differ, the model follows the code:

- `bfs` keeps no visited set. With an unreachable goal and a start that has a neighbour, it
  never ends.
- `bfs` looks up `graph[node]` without a membership test, so an absent start that is not the
  goal raises a lookup error (`MissingNode`).
- `dfs` returns `[start]` for `start == goal` even when the start is not in the graph.

task_02/main.py:36-83 repeats `dfs` and `bfs` line for line, and task_01/main.py:100-106
repeats the histogram loop. The rows below cite one copy of each, and the members model both.

## Model

| member | source | states |
|---|---|---|
| GraphModel.BuildNodes | task_01/main.py:24-44 | adding the pairs to an empty graph gives a graph with no repeated node, symmetric neighbour lists without repeats or self-loops, whose nodes are the endpoints in order of first appearance |
| GraphModel.BuildNeighbours | task_01/graph01/graph_creation.py:21-24 | each node's neighbours are the nodes it is listed with, in listing order, each once |
| GraphModel.EdgeViewDistinct | task_03/graph03/graph_creation.py:30 | the edge iteration repeats no pair and never yields an edge in both orientations |
| GraphModel.EdgeViewCovers | task_03/graph03/graph_creation.py:30 | the edge iteration lists only edges of the graph, and lists every edge in one of its two orientations |
| GraphModel.WalkToPath | task_02/graph02/graph_search.py:28-30 | any walk can be shortened to a walk between the same stations without a repeated station |
| Construction.CreateTransportNetworkGraph | task_02/main.py:30-34 | the built graph is a valid undirected graph whose nodes are the endpoints in order of first appearance |
| Construction.CreatedNodes | task_02/main.py:30-34 | a station is in the graph exactly when some listed pair has it as an endpoint |
| Construction.CreatedEdges | task_01/main.py:16-46 | two stations are adjacent exactly when the pair is listed in one orientation or the other |
| Construction.TransportEdgesNoSelfLoops | task_01/main.py:26-42 | no listed connection joins a station to itself |
| Construction.TransportNetworkGraph | task_02/main.py:12-34 | the city network built from the module-level list is a valid undirected graph |
| Construction.TransportNetworkSample | task_01/main.py:27 | stations 4 and 42 are adjacent in both directions |
| GraphSearch.Dfs | task_02/graph02/graph_search.py:21-33 | start equal to goal returns the path with start appended, before any membership test; an absent start that differs from the goal returns None; a result extends the incoming path with start and then a walk to goal that never revisits a node |
| GraphSearch.DfsNeighbours | task_02/graph02/graph_search.py:28-33 | a result goes on from a neighbour that is not already on the path, never revisits a node and ends at goal |
| GraphSearch.DfsFindsWalk | task_02/graph02/graph_search.py:28-32 | if a repetition-free walk from start to goal avoids the incoming path, dfs succeeds |
| GraphSearch.DfsFindsIffReachable | task_02/graph02/graph_search.py:9-33 | from an empty path, dfs succeeds exactly when goal is reachable from start, and its result is a repetition-free walk from start to goal |
| GraphSearch.DfsNeighboursFirstSuccess | task_02/graph02/graph_search.py:28-33 | the neighbour loop fails exactly when every neighbour is on the path or fails; otherwise it returns the result of the first neighbour, in adjacency order, that is off the path and succeeds |
| GraphSearch.EnqueueExtensions | task_02/graph02/graph_search.py:52-55 | the queue gains one copy of the path per neighbour of its last node, with that neighbour appended, in neighbour order |
| GraphSearch.QueueStep | task_02/graph02/graph_search.py:47-55 | dequeuing the front path and enqueuing its extensions keeps the queue equal to the rest of the current level followed by the expansion of the walks already taken |
| WalkLevels.LevelWalks | task_02/graph02/graph_search.py:46-55 | every path the queue holds at level k starts at start, is a walk and has k edges |
| WalkLevels.LevelComplete | task_02/graph02/graph_search.py:46-55 | every walk from start with k edges is on level k, so the queue reaches it |
| GraphSearch.Bfs | task_02/graph02/graph_search.py:35-56 | start equal to goal gives [start]; a found path is a repetition-free walk from start to goal that is no longer than any other such walk, and the first walk ending at goal in the order the queue holds its level, which is the path the loop dequeues first; the lookup error happens exactly for an absent start that is not the goal; the queue empties exactly for an isolated start that is not the goal; a start with a neighbour and no walk to goal never finishes (it runs out of fuel) |
| GraphSearch.BfsFoundUnique | task_02/graph02/graph_search.py:46-51 | two found paths that both meet the bfs contract are equal, so the contract fixes the one path bfs returns |
| GraphSearch.BfsAgreesWithDfs | task_02/main.py:36-83 | what bfs finds dfs finds, and when bfs's queue empties dfs fails; given enough fuel, bfs finds a path no longer than dfs's |
| Degrees.DegreeDistribution | task_01/graph01/graph_analysis.py:31 | one entry per node, in node order, each the degree of that node |
| Degrees.EdgeCountStep | task_01/graph01/graph_analysis.py:30 | removing one edge from both neighbour lists takes exactly one pair out of the edge iteration |
| Degrees.DegreeSumCountsEdges | task_01/graph01/graph_analysis.py:30-31 | in a graph with symmetric, repetition-free neighbour lists and no self-loop, the degrees add up to twice the number of pairs the edge iteration yields |
| Degrees.Handshake | task_01/graph01/graph_analysis.py:30-31 | the sum of the degree list is twice the library's edge count, and that count is the number of edges the edge iteration yields, each edge once |
| Degrees.DegreeHistogram | task_01/graph01/graph_analysis.py:34-40 | the keys are exactly the degrees that occur; each value is the number of nodes with that degree; the values add up to the number of nodes |
| Degrees.CountsStep | task_01/main.py:103-106 | incrementing an existing count, or inserting 1, keeps the histogram equal to the counts of the degrees seen so far, and its total grows by one |
| Degrees.OccurrencesBounds | task_01/graph01/graph_analysis.py:37-40 | a count is at most the number of nodes, and is positive exactly when the degree occurs |
| Connectivity.ReachableSymmetric | task_01/graph01/graph_analysis.py:48 | in an undirected graph, reachability is symmetric |
| Connectivity.ReachableTransitive | task_01/graph01/graph_analysis.py:48 | reachability is transitive |
| Connectivity.BallWalks | task_01/graph01/graph_analysis.py:52 | a station is within radius k of u exactly when some walk from u to it has at most k edges |
| Connectivity.BallReach | task_01/graph01/graph_analysis.py:51 | the ball whose radius is the node count holds exactly the stations reachable from u |
| Connectivity.DistanceIsShortest | task_01/graph01/graph_analysis.py:52 | the distance exists exactly when v is reachable, and is the least number of edges of a walk from u to v |
| Connectivity.ConnectedIff | task_01/graph01/graph_analysis.py:51 | the graph is connected exactly when it has a node and every station reaches every other |
| Connectivity.ComponentLeaders | task_01/graph01/graph_analysis.py:48 | every station is reached by a component's first node, and by exactly one of them |
| Connectivity.ComponentCountConnected | task_01/graph01/graph_analysis.py:48-51 | the component count is 0 exactly for the empty graph, and 1 exactly for a connected graph |
| Connectivity.SecondLeader | task_01/main.py:114-115 | a nonempty graph that is not connected has at least two components |
| Connectivity.MaxOf | task_01/graph01/graph_analysis.py:52 | the maximum bounds every entry and, for a nonempty list, is one of them |
| Connectivity.DiameterIsLongestDistance | task_01/graph01/graph_analysis.py:51-52 | in a connected graph, every two stations are at a distance of at most the diameter, and some two are exactly that far apart |
| Connectivity.DistanceWithinDiameter | task_01/main.py:115 | in a connected graph, the distance between any two stations exists and is at most the diameter |
| Connectivity.DiameterAttained | task_01/main.py:115 | in a connected graph, some pair of stations is at distance exactly the diameter |
| Analysis.AverageDegree | task_01/graph01/graph_analysis.py:47 | fails with a division by zero exactly on the empty graph; otherwise it is twice the number of edges over the number of nodes |
| Analysis.Statistics | task_01/graph01/graph_analysis.py:29-48 | the shared fields: node count, edge count, the degree list, its histogram, the average degree and the component count |
| Analysis.AnalyzeGraph | task_01/graph01/graph_analysis.py:16-58 | fails exactly on the empty graph; otherwise it fills the shared fields, and the diameter is present exactly when the graph is connected and then equals the greatest distance |
| Analysis.AnalyzeGraphUnguarded | task_01/main.py:82-118 | fails exactly when the graph is empty (division by zero) or not connected (the diameter is undefined); otherwise it fills the shared fields and the diameter |
| Rounding.Round2 | task_03/graph03/graph_creation.py:34 | the result is a whole number of hundredths within half a hundredth of x, and an exact tie goes to the even hundredth |
| Rounding.Round2Idempotent | task_03/graph03/graph_creation.py:34-36 | rounding an already rounded value changes nothing |
| WeightedGraphs.EdgeAttrsKeys | task_03/graph03/graph_creation.py:19 | a pair of stations has an attribute dictionary exactly when it is listed in one orientation or the other |
| WeightedGraphs.EdgeAttrsListedOnce | task_03/graph03/graph_creation.py:10-20 | a pair listed once carries exactly the attributes of its triple |
| WeightedGraphs.EdgeAttrsMergedKeys | task_03/graph03/graph_creation.py:10-20 | a pair listed several times has an attribute exactly when one of its listings, in either orientation, has it |
| WeightedGraphs.EdgeAttrsLastWins | task_03/graph03/graph_creation.py:10-20 | the value of an attribute of a pair listed several times is the one given by the last listing that has the attribute |
| WeightedGraphs.EdgesCarryAttrs | task_03/graph03/graph_creation.py:18-19 | every edge of the built graph has an attribute dictionary |
| WeightedGraphs.WeightedGraph.constructor | task_03/graph03/graph_creation.py:10-20 | the object holds the graph built from the pairs and the dictionaries of the triples, and every edge has one |
| WeightedGraphs.ThirdWeightPass | task_03/graph03/graph_creation.py:30-36 | the pass never adds or removes an edge's dictionary |
| WeightedGraphs.WeightedGraph.AddThirdWeight | task_03/graph03/graph_creation.py:22-36 | the graph is unchanged, and the outcome and the new dictionaries are those of the pass over the library's edge order starting from the old dictionaries |
| WeightedGraphs.PassDoneIff | task_03/graph03/graph_creation.py:30-32 | the pass finishes exactly when every visited edge has both distance and time |
| WeightedGraphs.PassStopsAtFirstMissing | task_03/graph03/graph_creation.py:31-32 | a KeyError names the first visited edge lacking an attribute, and distance is reported before time |
| WeightedGraphs.PassKeepsOtherAttrs | task_03/graph03/graph_creation.py:36 | every attribute other than third_weight, of every edge, is left as it was |
| WeightedGraphs.PassKeepsUnvisited | task_03/graph03/graph_creation.py:30-36 | an edge the pass does not visit keeps its whole dictionary |
| WeightedGraphs.PassWeighsEveryEdge | task_03/graph03/graph_creation.py:34-36 | after a finished pass, every visited edge has third_weight equal to round(alpha * distance + beta * time, 2) of its own distance and time |
| WeightedGraphs.PassFixpoint | task_03/graph03/graph_creation.py:34-36 | a pass over edges that already carry their weight changes nothing |
| WeightedGraphs.PassIdempotent | task_03/graph03/graph_creation.py:22-36 | running the pass again after a finished pass finishes and changes nothing |
| WeightedGraphs.ThirdWeightOnEveryEdge | task_03/graph03/graph_creation.py:30-36 | over the library's edge order, the pass finishes exactly when every edge has distance and time; then every edge, looked up from either endpoint, carries its third weight |
| WeightedGraphs.WeightedSample | task_03/graph03/graph_creation.py:43 | stations 4 and 42 are adjacent, and their edge carries distance 5.4 and time 2.5 |
| WeightedGraphs.ThirdWeightSample | task_03/main.py:18 | with alpha 0.4 and beta 0.6, distance 5.4 and time 2.5 give 3.66 |

## Left out

- Self-loops: a pair joining a station to itself is excluded by a precondition of `Build` and of
  the weighted constructor. No connection list shown in the program has one; the weighted
  list of task 3 comes from an `edges` module that is not part of this model.
- GraphSearch.Bfs: the loop takes a `fuel` bound on the number of dequeues instead of running
  forever. The bfs that never ends is the `OutOfFuel` outcome. The model proves that this
  outcome is certain for a start with a neighbour and no walk to the goal.
- Floating point: every real in the model is exact. Python computes with binary doubles.
- Rounding.Round2: rounds exact reals. Python rounds the binary double nearest to the decimal
  written, so a value such as 2.675 rounds down there.
- WeightedGraphs.ThirdWeight: `alpha * distance + beta * time` is an exact real here; in
  Python the products and the sum are rounded to doubles before `round` is applied.
- Analysis.AverageDegree: the average degree is the exact quotient; Python's
  `sum(...) / num_nodes` returns the nearest double.
- `average_shortest_path_length`: a floating-point mean computed by the library. The analysis
  report has no such field.
- The library internals of `number_connected_components`, `is_connected` and `diameter` are
  specification functions over the adjacency model, not their algorithms.
- `is_connected` raises an exception on the graph with no nodes. The model never reaches that
  call on the empty graph, because the average degree fails first.
- Analysis.Statistics: the degree histogram is a map, so the insertion order of the dictionary's
  keys (which only affects printing) is not modelled.
- `dijkstra` (task 3) is a wrapper over the library's Dijkstra algorithm, whose code is not part
  of this model.
- Visualisation, file output, `find_adjusted_positions` (floating-point geometry), console
  printing (`print_analysis_results`) and the scripts' module-level calls are left out. The
  `edges` module that task_03/main.py imports is not part of this model.
- task_01/graph01/graph_creation.py is one call to `add_edges_from`. `Build` models it, and the
  `GraphModel.BuildNeighbours` row cites it.
