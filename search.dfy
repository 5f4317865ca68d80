/** Path search between two stations: recursive depth-first search whose current path is
    its only visited set, and breadth-first search over a FIFO queue of whole paths with
    no visited set at all. */
module GraphSearch {
  import opened GraphModel
  import opened WalkLevels

  // ---------------------------------------------------------------------------
  // Depth-first search
  // ---------------------------------------------------------------------------

  /** The graph's nodes that are not on the path: the search can only go deeper into these. */
  function Unvisited(g: Graph, path: seq<Node>): set<Node> {
    g.adj.Keys - set x | x in path
  }

  lemma UnvisitedShrinks(g: Graph, path: seq<Node>, n: Node)
    requires n in g.adj && n !in path
    ensures |Unvisited(g, path + [n])| < |Unvisited(g, path)|
  {
    assert (set x | x in path + [n]) == (set x | x in path) + {n};
    assert Unvisited(g, path + [n]) == Unvisited(g, path) - {n};
  }

  /** p continues `path` by a walk to goal that repeats no node and never returns to `path`. */
  ghost predicate Continues(g: Graph, path: seq<Node>, p: seq<Node>, goal: Node) {
    && |p| > |path| && p[..|path|] == path && Last(p) == goal
    && IsWalk(g, p[|path|..])
    && (forall i, j :: |path| <= i < j < |p| ==> p[i] != p[j])
    && (forall k :: |path| < k < |p| ==> p[k] !in path)
  }

  /** dfs(graph, start, goal, path): the path grows by start; start == goal succeeds at once,
      even for a start outside the graph; otherwise the neighbours are tried in order. */
  function Dfs(g: Graph, start: Node, goal: Node, path: seq<Node>): (r: Option<seq<Node>>)
    requires Valid(g)
    ensures start == goal ==> r == Some(path + [start])
    ensures start != goal && start !in g.adj ==> r == None
    ensures r.Some? ==> Continues(g, path, r.value, goal) && r.value[|path|] == start
    decreases |Unvisited(g, path + [start])|, 1, 0
  {
    var here := path + [start];
    if start == goal then Some(here)
    else if start !in g.adj then None
    else
      var r := DfsNeighbours(g, g.adj[start], goal, here);
      if r.Some? then PrependStart(g, path, start, goal, r.value); r else r
  }

  /** The loop over the neighbours: the first one not on the path whose search succeeds. */
  function DfsNeighbours(g: Graph, nbrs: seq<Node>, goal: Node, path: seq<Node>): (r: Option<seq<Node>>)
    requires Valid(g) && forall n :: n in nbrs ==> n in g.adj
    ensures r.Some? ==> Continues(g, path, r.value, goal) && r.value[|path|] in nbrs
    ensures r.Some? ==> r.value[|path|] !in path
    decreases |Unvisited(g, path)|, 0, |nbrs|
  {
    if nbrs == [] then None
    else if nbrs[0] !in path then
      UnvisitedShrinks(g, path, nbrs[0]);
      var r := Dfs(g, nbrs[0], goal, path);
      if r.Some? then r else DfsNeighbours(g, nbrs[1..], goal, path)
    else DfsNeighbours(g, nbrs[1..], goal, path)
  }

  lemma PrependStart(g: Graph, path: seq<Node>, start: Node, goal: Node, p: seq<Node>)
    requires Valid(g) && start in g.adj
    requires Continues(g, path + [start], p, goal) && p[|path| + 1] in g.adj[start]
    requires p[|path| + 1] !in path + [start]
    ensures Continues(g, path, p, goal) && p[|path|] == start
  {
    var here := path + [start];
    assert p[..|here|] == here;
    assert p[..|path|] == path by {
      assert p[..|path|] == here[..|path|];
    }
    var tail := p[|path|..];
    assert tail == [start] + p[|here|..];
    assert IsWalk(g, tail) by {
      forall m | 0 <= m < |tail| - 1 ensures Adjacent(g, tail[m], tail[m + 1]) {
        if m > 0 {
          assert tail[m] == p[|here|..][m - 1];
        }
      }
    }
    forall k | |path| < k < |p| ensures p[k] !in path {
      assert p[k] !in here;
      assert forall x :: x in path ==> x in here;
    }
    forall i, j | |path| <= i < j < |p| ensures p[i] != p[j] {
      if i == |path| {
        assert p[j] !in here;
        assert here[|path|] == start;
      }
    }
  }

  /** A repetition-free walk from start to goal avoiding the path makes the search succeed. */
  lemma {:induction false} DfsFindsWalk(g: Graph, start: Node, goal: Node, path: seq<Node>, w: seq<Node>)
    requires Valid(g) && WalkBetween(g, w, start, goal) && NoDuplicates(w)
    requires forall x :: x in w ==> x !in path
    ensures Dfs(g, start, goal, path).Some?
    decreases |Unvisited(g, path + [start])|, 1, 0
  {
    if start != goal {
      assert Adjacent(g, w[0], w[1]);
      var here := path + [start];
      var rest := w[1..];
      assert IsWalk(g, rest) by {
        forall m | 0 <= m < |rest| - 1 ensures Adjacent(g, rest[m], rest[m + 1]) {
          assert Adjacent(g, w[m + 1], w[m + 2]);
        }
      }
      forall x | x in rest ensures x !in here {
        var k :| 0 <= k < |rest| && rest[k] == x;
        assert w[k + 1] != w[0];
      }
      assert NoDuplicates(rest) by {
        forall i, j | 0 <= i < j < |rest| ensures rest[i] != rest[j] {
          assert rest[i] == w[i + 1] && rest[j] == w[j + 1];
        }
      }
      DfsNeighboursFindsWalk(g, g.adj[start], goal, here, rest);
    }
  }

  lemma {:induction false} DfsNeighboursFindsWalk(g: Graph, nbrs: seq<Node>, goal: Node, path: seq<Node>, w: seq<Node>)
    requires Valid(g) && forall n :: n in nbrs ==> n in g.adj
    requires IsWalk(g, w) && Last(w) == goal && NoDuplicates(w) && w[0] in nbrs
    requires forall x :: x in w ==> x !in path
    ensures DfsNeighbours(g, nbrs, goal, path).Some?
    decreases |Unvisited(g, path)|, 0, |nbrs|
  {
    if nbrs[0] == w[0] {
      UnvisitedShrinks(g, path, w[0]);
      DfsFindsWalk(g, w[0], goal, path, w);
    } else if nbrs[0] !in path && Dfs(g, nbrs[0], goal, path).Some? {
    } else {
      DfsNeighboursFindsWalk(g, nbrs[1..], goal, path, w);
    }
  }

  /** The top-level search (no path given) succeeds exactly when the goal is reachable,
      and what it returns is a repetition-free walk from start to goal. */
  lemma DfsFindsIffReachable(g: Graph, start: Node, goal: Node)
    requires Valid(g)
    ensures Dfs(g, start, goal, []).Some? <==> Reachable(g, start, goal)
    ensures Dfs(g, start, goal, []).Some? ==>
              var p := Dfs(g, start, goal, []).value;
              WalkBetween(g, p, start, goal) && NoDuplicates(p)
  {
    var r := Dfs(g, start, goal, []);
    if r.Some? {
      assert r.value[0..] == r.value;
      assert WalkBetween(g, r.value, start, goal);
    }
    if Reachable(g, start, goal) {
      var w :| WalkBetween(g, w, start, goal);
      var p := WalkToPath(g, w);
      DfsFindsWalk(g, start, goal, [], p);
    }
  }

  /** The neighbour loop returns the search from the first neighbour, in adjacency order,
      that is not on the path and succeeds; it fails exactly when no neighbour does. */
  lemma {:induction false} DfsNeighboursFirstSuccess(g: Graph, nbrs: seq<Node>, goal: Node, path: seq<Node>)
    requires Valid(g) && forall n :: n in nbrs ==> n in g.adj
    ensures DfsNeighbours(g, nbrs, goal, path).None? <==>
              forall i :: 0 <= i < |nbrs| ==> nbrs[i] in path || Dfs(g, nbrs[i], goal, path).None?
    ensures DfsNeighbours(g, nbrs, goal, path).Some? ==>
              exists i :: 0 <= i < |nbrs| && nbrs[i] !in path
                && DfsNeighbours(g, nbrs, goal, path) == Dfs(g, nbrs[i], goal, path)
                && forall j :: 0 <= j < i ==> nbrs[j] in path || Dfs(g, nbrs[j], goal, path).None?
  {
    if nbrs != [] {
      var rest := nbrs[1..];
      DfsNeighboursFirstSuccess(g, rest, goal, path);
      assert forall i :: 0 < i < |nbrs| ==> nbrs[i] == rest[i - 1];
      var r := DfsNeighbours(g, nbrs, goal, path);
      if nbrs[0] in path || Dfs(g, nbrs[0], goal, path).None? {
        assert r == DfsNeighbours(g, rest, goal, path);
        if r.Some? {
          var i :| 0 <= i < |rest| && rest[i] !in path
                 && DfsNeighbours(g, rest, goal, path) == Dfs(g, rest[i], goal, path)
                 && forall j :: 0 <= j < i ==> rest[j] in path || Dfs(g, rest[j], goal, path).None?;
          assert nbrs[i + 1] == rest[i];
          assert forall j :: 0 <= j < i + 1 ==> nbrs[j] in path || Dfs(g, nbrs[j], goal, path).None?;
        }
      } else {
        assert r == Dfs(g, nbrs[0], goal, path);
      }
    }
  }

  // ---------------------------------------------------------------------------
  // Breadth-first search
  // ---------------------------------------------------------------------------

  /** How bfs ends. MissingNode is the lookup error the graph raises for an absent node;
      OutOfFuel means the loop was still running after the allowed number of steps. */
  datatype BfsOutcome = Found(path: seq<Node>) | NotFound | MissingNode(node: Node) | OutOfFuel

  ghost predicate QueueState(g: Graph, start: Node, k: nat, i: nat, queue: seq<seq<Node>>)
    requires Symmetric(g)
  {
    && (i > 0 ==> start in g.adj)
    && i <= |Level(g, start, k)|
    && queue == Level(g, start, k)[i..] + Expand(g, Level(g, start, k)[..i])
  }

  lemma QueueStep(g: Graph, start: Node, k: nat, i: nat, queue: seq<seq<Node>>)
    requires Symmetric(g) && start in g.adj
    requires QueueState(g, start, k, i, queue) && i < |Level(g, start, k)|
    ensures QueueState(g, start, k, i + 1, queue[1..] + Extensions(g, Level(g, start, k)[i]))
  {
    var l := Level(g, start, k);
    var e := Expand(g, l[..i]);
    assert queue == l[i..] + e;
    assert l[..i + 1] == l[..i] + [l[i]];
    ExpandSnoc(g, l[..i], l[i]);
    assert queue[1..] == l[i + 1..] + e;
    assert queue[1..] + Extensions(g, l[i]) == l[i + 1..] + Expand(g, l[..i + 1]);
  }

  lemma QueueNextLevel(g: Graph, start: Node, k: nat, queue: seq<seq<Node>>)
    requires Symmetric(g) && start in g.adj
    requires QueueState(g, start, k, |Level(g, start, k)|, queue)
    ensures QueueState(g, start, k + 1, 0, queue)
  {
    var l := Level(g, start, k);
    assert l[..|l|] == l;
    assert l[|l|..] == [];
  }

  /** None of the first i paths of ws ends at goal. */
  predicate NoGoalBefore(ws: seq<seq<Node>>, i: nat, goal: Node) {
    forall x :: 0 <= x < i && x < |ws| ==> |ws[x]| > 0 && Last(ws[x]) != goal
  }

  lemma NoGoalNext(ws: seq<seq<Node>>, i: nat, goal: Node)
    requires NoGoalBefore(ws, i, goal) && i < |ws| && |ws[i]| > 0 && Last(ws[i]) != goal
    ensures NoGoalBefore(ws, i + 1, goal)
  {
  }

  /** Once a whole level has been dequeued without reaching goal, every walk to goal
      has more edges than that level. */
  lemma LevelExhausted(g: Graph, start: Node, goal: Node, k: nat)
    requires Symmetric(g)
    requires NoGoalBefore(Level(g, start, k), |Level(g, start, k)|, goal)
    requires forall w {:trigger WalkBetween(g, w, start, goal)} :: WalkBetween(g, w, start, goal) ==> |w| > k
    ensures forall w {:trigger WalkBetween(g, w, start, goal)} :: WalkBetween(g, w, start, goal) ==> |w| > k + 1
  {
    forall w | WalkBetween(g, w, start, goal) ensures |w| > k + 1 {
      if |w| == k + 1 {
        LevelComplete(g, start, w);
      }
    }
  }

  /** Running out of fuel inside level k: the goal walks all lie on level k or deeper. */
  lemma FuelBelowGoal(g: Graph, start: Node, goal: Node, k: nat, fuel: nat)
    requires Symmetric(g) && fuel < WalksBelow(g, start, k + 1)
    requires forall w {:trigger WalkBetween(g, w, start, goal)} :: WalkBetween(g, w, start, goal) ==> |w| > k
    ensures forall w {:trigger WalkBetween(g, w, start, goal)} :: WalkBetween(g, w, start, goal) ==> fuel < WalksBelow(g, start, |w|)
  {
    forall w | WalkBetween(g, w, start, goal) ensures fuel < WalksBelow(g, start, |w|) {
      WalksBelowMonotone(g, start, k + 1, |w|);
    }
  }

  /** An empty queue means the current level was dequeued in full and produced nothing. */
  lemma EmptyQueueLevel(g: Graph, start: Node, k: nat, i: nat)
    requires Symmetric(g) && QueueState(g, start, k, i, [])
    requires start !in g.adj ==> k == 0 && i == 0
    ensures start in g.adj && i == |Level(g, start, k)|
    ensures Expand(g, Level(g, start, k)) == []
  {
    var l := Level(g, start, k);
    assert l[i..] == [];
    assert l[..i] == l;
  }

  /** A start with a neighbour never runs the queue dry. */
  lemma EmptyExpansion(g: Graph, start: Node, k: nat)
    requires Symmetric(g) && start in g.adj
    requires Expand(g, Level(g, start, k)) == []
    ensures g.adj[start] == []
  {
    if g.adj[start] != [] {
      LevelNonEmpty(g, start, k + 1);
    }
  }

  /** A start that is the goal is found on level 0. */
  lemma StartNotGoal(g: Graph, start: Node, goal: Node, k: nat, i: nat)
    requires Symmetric(g) && i == |Level(g, start, k)|
    requires NoGoalBefore(Level(g, start, k), i, goal)
    requires forall w {:trigger WalkBetween(g, w, start, goal)} :: WalkBetween(g, w, start, goal) ==> |w| > k
    ensures start != goal
  {
    if k == 0 {
      assert Level(g, start, k)[0] == [start];
    } else if start == goal {
      assert WalkBetween(g, [start], start, goal);
    }
  }

  /** A dequeued path ends outside the graph only when it is the start path of a start
      that is not in the graph. */
  lemma MissingLast(g: Graph, start: Node, k: nat, i: nat)
    requires Symmetric(g) && i < |Level(g, start, k)|
    requires start !in g.adj ==> k == 0 && i == 0
    requires Last(Level(g, start, k)[i]) !in g.adj
    ensures start !in g.adj && Level(g, start, k)[i] == [start]
  {
  }

  /** The inner loop of bfs: one new path per neighbour of the dequeued path's last node,
      appended in neighbour order. */
  method EnqueueExtensions(g: Graph, queue: seq<seq<Node>>, path: seq<Node>) returns (q: seq<seq<Node>>)
    requires |path| > 0 && Last(path) in g.adj
    ensures q == queue + Extensions(g, path)
  {
    q := queue;
    var nbrs := g.adj[path[|path| - 1]];
    var j := 0;
    while j < |nbrs|
      invariant j <= |nbrs|
      invariant q == queue + Extensions(g, path)[..j]
    {
      var newPath := path + [nbrs[j]];
      q := q + [newPath];
      j := j + 1;
      assert Extensions(g, path)[..j] == Extensions(g, path)[..j - 1] + [newPath];
    }
    assert Extensions(g, path)[..j] == Extensions(g, path);
  }

  /** p is the first walk of its level, in queue order, that ends at goal. */
  ghost predicate FirstOnLevel(g: Graph, start: Node, goal: Node, p: seq<Node>)
    requires Symmetric(g)
  {
    |p| > 0 &&
    var l := Level(g, start, |p| - 1);
    exists i :: 0 <= i < |l| && l[i] == p && NoGoalBefore(l, i, goal)
  }

  /** What bfs promises about its outcome r after at most `fuel` dequeues:
      - a found path is a repetition-free walk from start to goal, no longer than any other,
        and the first walk ending at goal in the order the queue holds that level;
      - a start equal to the goal is found at once;
      - the lookup error happens exactly for a start outside the graph that is not the goal;
      - the queue runs dry exactly for an isolated start that is not the goal, and then
        depth-first search fails too;
      - running out of fuel means fewer dequeues than the walks queued before the first
        level that holds a walk to goal, and a start with a neighbour and no walk to goal
        always runs out. */
  ghost predicate Answers(g: Graph, start: Node, goal: Node, fuel: nat, r: BfsOutcome)
    requires Symmetric(g)
  {
    && (r.Found? ==> WalkBetween(g, r.path, start, goal) && NoDuplicates(r.path))
    && (r.Found? ==> forall w {:trigger WalkBetween(g, w, start, goal)} :: WalkBetween(g, w, start, goal) ==> |r.path| <= |w|)
    && (r.Found? ==> FirstOnLevel(g, start, goal, r.path))
    && (start == goal && fuel > 0 ==> r == Found([start]))
    && (r.MissingNode? <==> fuel > 0 && start != goal && start !in g.adj)
    && (r.MissingNode? ==> r.node == start)
    && (r.NotFound? <==> fuel > 0 && start != goal && start in g.adj && g.adj[start] == [])
    && (r.OutOfFuel? ==>
          forall w {:trigger WalkBetween(g, w, start, goal)} :: WalkBetween(g, w, start, goal) ==> fuel < WalksBelow(g, start, |w|))
    && (start in g.adj && g.adj[start] != [] && !Reachable(g, start, goal) ==> r.OutOfFuel?)
  }

  /** Path i of level k is at the front of the queue. */
  ghost predicate AtFront(g: Graph, start: Node, k: nat, i: nat, queue: seq<seq<Node>>)
    requires Symmetric(g)
  {
    i < |Level(g, start, k)| && queue != [] && queue[0] == Level(g, start, k)[i]
  }

  /** A start that is the goal, is outside the graph or has no neighbour is only ever
      looked at as the single walk of level 0. */
  lemma FirstLevelOnly(g: Graph, start: Node, goal: Node, fuel: nat, k: nat, i: nat, steps: nat,
                       queue: seq<seq<Node>>)
    requires Symmetric(g) && BfsLoop(g, start, goal, fuel, k, i, steps, queue) && AtFront(g, start, k, i, queue)
    requires start == goal || start !in g.adj || g.adj[start] == []
    ensures k == 0 && i == 0 && steps == 0 && queue[0] == [start]
  {
    assert k == 0 by {
      if start == goal {
        assert WalkBetween(g, [start], start, goal);
      }
    }
    assert Level(g, start, 0) == [[start]];
  }

  lemma FoundAnswers(g: Graph, start: Node, goal: Node, fuel: nat, k: nat, i: nat, steps: nat,
                     queue: seq<seq<Node>>)
    requires Symmetric(g) && BfsLoop(g, start, goal, fuel, k, i, steps, queue) && AtFront(g, start, k, i, queue)
    requires Last(queue[0]) == goal && steps < fuel
    ensures Answers(g, start, goal, fuel, Found(queue[0]))
  {
    var path := queue[0];
    LevelWalks(g, start, k);
    assert WalkBetween(g, path, start, goal);
    assert |path| - 1 == k;
    assert Level(g, start, k)[i] == path && NoGoalBefore(Level(g, start, k), i, goal);
    var p := WalkToPath(g, path);
    if start == goal || start !in g.adj || g.adj[start] == [] {
      FirstLevelOnly(g, start, goal, fuel, k, i, steps, queue);
    }
  }

  lemma OutOfFuelAnswers(g: Graph, start: Node, goal: Node, fuel: nat, k: nat, i: nat)
    requires Symmetric(g) && i < |Level(g, start, k)| && fuel == WalksBelow(g, start, k) + i
    requires forall w {:trigger WalkBetween(g, w, start, goal)} :: WalkBetween(g, w, start, goal) ==> |w| > k
    requires start !in g.adj ==> k == 0 && i == 0
    requires start in g.adj && g.adj[start] == [] ==> k == 0
    ensures Answers(g, start, goal, fuel, OutOfFuel)
  {
    FuelBelowGoal(g, start, goal, k, fuel);
    if start == goal {
      assert WalkBetween(g, [start], start, goal);
    }
    if k == 0 {
      assert Level(g, start, 0) == [[start]];
    }
  }

  lemma MissingAnswers(g: Graph, start: Node, goal: Node, fuel: nat, k: nat, i: nat, steps: nat,
                       queue: seq<seq<Node>>)
    requires Symmetric(g) && BfsLoop(g, start, goal, fuel, k, i, steps, queue) && AtFront(g, start, k, i, queue)
    requires Last(queue[0]) != goal && Last(queue[0]) !in g.adj && steps < fuel
    ensures Answers(g, start, goal, fuel, MissingNode(Last(queue[0])))
  {
    MissingLast(g, start, k, i);
  }

  lemma NotFoundAnswers(g: Graph, start: Node, goal: Node, fuel: nat, k: nat, i: nat, steps: nat)
    requires Symmetric(g) && BfsLoop(g, start, goal, fuel, k, i, steps, [])
    ensures Answers(g, start, goal, fuel, NotFound)
  {
    EmptyQueueLevel(g, start, k, i);
    EmptyExpansion(g, start, k);
    StartNotGoal(g, start, goal, k, i);
    assert Level(g, start, 0) == [[start]];
  }

  /** The bfs loop invariant: the queue is level k with its first i walks expanded, none of
      those i walks ends at goal, every walk to goal is longer than level k, and the steps
      taken are the walks dequeued so far. */
  ghost predicate BfsLoop(g: Graph, start: Node, goal: Node, fuel: nat, k: nat, i: nat, steps: nat,
                          queue: seq<seq<Node>>)
    requires Symmetric(g)
  {
    && QueueState(g, start, k, i, queue)
    && NoGoalBefore(Level(g, start, k), i, goal)
    && (forall w {:trigger WalkBetween(g, w, start, goal)} :: WalkBetween(g, w, start, goal) ==> |w| > k)
    && steps == WalksBelow(g, start, k) + i <= fuel
    && (start !in g.adj ==> k == 0 && i == 0)
    && (start in g.adj && g.adj[start] == [] ==> k == 0)
  }

  /** A level that is used up hands the queue over to the next level. */
  lemma NextLevel(g: Graph, start: Node, goal: Node, fuel: nat, k: nat, steps: nat,
                  queue: seq<seq<Node>>)
    requires Symmetric(g) && BfsLoop(g, start, goal, fuel, k, |Level(g, start, k)|, steps, queue)
    requires queue != []
    ensures BfsLoop(g, start, goal, fuel, k + 1, 0, steps, queue)
  {
    LevelExhausted(g, start, goal, k);
    QueueNextLevel(g, start, k, queue);
    if g.adj[start] == [] {
      LevelOneOfIsolated(g, start);
    }
  }

  /** A non-empty queue whose current level is used up continues with the next level. */
  lemma Rollover(g: Graph, start: Node, goal: Node, fuel: nat, k: nat, i: nat, steps: nat,
                 queue: seq<seq<Node>>) returns (k': nat, i': nat)
    requires Symmetric(g) && BfsLoop(g, start, goal, fuel, k, i, steps, queue) && queue != []
    ensures BfsLoop(g, start, goal, fuel, k', i', steps, queue)
    ensures AtFront(g, start, k', i', queue)
  {
    k', i' := k, i;
    if i == |Level(g, start, k)| {
      NextLevel(g, start, goal, fuel, k, steps, queue);
      k', i' := k + 1, 0;
    }
    var l := Level(g, start, k');
    assert queue == l[i'..] + Expand(g, l[..i']);
  }

  /** Dequeuing a walk that does not end at goal and enqueuing its extensions keeps the
      invariant, one step further. */
  lemma Advance(g: Graph, start: Node, goal: Node, fuel: nat, k: nat, i: nat, steps: nat,
                queue: seq<seq<Node>>)
    requires Symmetric(g) && BfsLoop(g, start, goal, fuel, k, i, steps, queue) && AtFront(g, start, k, i, queue)
    requires steps < fuel
    requires Last(queue[0]) != goal && Last(queue[0]) in g.adj
    ensures BfsLoop(g, start, goal, fuel, k, i + 1, steps + 1, queue[1..] + Extensions(g, queue[0]))
  {
    QueueStep(g, start, k, i, queue);
    NoGoalNext(Level(g, start, k), i, goal);
  }

  /** bfs(graph, start, goal), run for at most `fuel` dequeues. The queue starts as [[start]];
      each dequeued path is returned if it ends at goal, and otherwise extended by every
      neighbour of its last node. With no visited set, the queue holds every walk from start,
      level by level, so the first path found is a shortest one, and the loop runs forever
      when the goal is unreachable from a start that has a neighbour. */
  method Bfs(g: Graph, start: Node, goal: Node, fuel: nat) returns (r: BfsOutcome)
    requires Valid(g)
    ensures Answers(g, start, goal, fuel, r)
  {
    var queue: seq<seq<Node>> := [[start]];
    var steps: nat := 0;
    ghost var k: nat, i: nat := 0, 0;
    while queue != []
      invariant BfsLoop(g, start, goal, fuel, k, i, steps, queue)
      decreases fuel - steps
    {
      k, i := Rollover(g, start, goal, fuel, k, i, steps, queue);
      if steps == fuel {
        OutOfFuelAnswers(g, start, goal, fuel, k, i);
        return OutOfFuel;
      }
      ghost var q0 := queue;
      var path := queue[0];
      queue := queue[1..];
      var node := path[|path| - 1];
      if node == goal {
        FoundAnswers(g, start, goal, fuel, k, i, steps, q0);
        return Found(path);
      }
      if node !in g.adj {
        MissingAnswers(g, start, goal, fuel, k, i, steps, q0);
        return MissingNode(node);
      }
      queue := EnqueueExtensions(g, queue, path);
      Advance(g, start, goal, fuel, k, i, steps, q0);
      i, steps := i + 1, steps + 1;
    }
    NotFoundAnswers(g, start, goal, fuel, k, i, steps);
    r := NotFound;
  }

  /** The answer bfs finds is determined: two found paths that both meet the contract are
      the same path, so the contract fixes which of the shortest walks bfs returns. */
  lemma BfsFoundUnique(g: Graph, start: Node, goal: Node, fuel: nat, r1: BfsOutcome, r2: BfsOutcome)
    requires Symmetric(g) && Answers(g, start, goal, fuel, r1) && Answers(g, start, goal, fuel, r2)
    requires r1.Found? && r2.Found?
    ensures r1 == r2
  {
    assert |r1.path| <= |r2.path| && |r2.path| <= |r1.path|;
    var l := Level(g, start, |r1.path| - 1);
    var i1 :| 0 <= i1 < |l| && l[i1] == r1.path && NoGoalBefore(l, i1, goal);
    var i2 :| 0 <= i2 < |l| && l[i2] == r2.path && NoGoalBefore(l, i2, goal);
    assert Last(l[i1]) == goal && Last(l[i2]) == goal;
    assert i1 == i2;
  }

  /** The two searches agree: what bfs finds, dfs finds; when bfs runs dry, dfs fails; and
      with fuel for every walk queued before the level of dfs's path, bfs finds a path no
      longer than the one dfs returns. */
  lemma BfsAgreesWithDfs(g: Graph, start: Node, goal: Node, fuel: nat, r: BfsOutcome)
    requires Valid(g) && Answers(g, start, goal, fuel, r)
    ensures r.Found? ==> Dfs(g, start, goal, []).Some?
    ensures r.NotFound? ==> Dfs(g, start, goal, []).None?
    ensures Dfs(g, start, goal, []).Some? &&
              fuel >= WalksBelow(g, start, |Dfs(g, start, goal, []).value|) ==>
              r.Found? && |r.path| <= |Dfs(g, start, goal, []).value|
  {
    DfsFindsIffReachable(g, start, goal);
    if r.Found? {
      assert Reachable(g, start, goal);
    }
    var d := Dfs(g, start, goal, []);
    if d.Some? {
      assert WalkBetween(g, d.value, start, goal);
    }
  }
}
