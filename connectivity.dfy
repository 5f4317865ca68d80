/** What the program reads from the graph library about connectivity: shortest distances,
    whether the graph is connected, how many components it has, and its diameter. Each is a
    definition over the adjacency model (balls of growing radius), tied to walks by lemmas. */
module Connectivity {
  import opened GraphModel

  // ---------------------------------------------------------------------------
  // Walk algebra
  // ---------------------------------------------------------------------------

  lemma ExtendWalk(g: Graph, w: seq<Node>, y: Node)
    requires IsWalk(g, w) && Adjacent(g, Last(w), y)
    ensures IsWalk(g, w + [y]) && (w + [y])[0] == w[0] && Last(w + [y]) == y
  {
    var w' := w + [y];
    forall m | 0 <= m < |w'| - 1 ensures Adjacent(g, w'[m], w'[m + 1]) {
      if m < |w| - 1 {
        assert w'[m] == w[m] && w'[m + 1] == w[m + 1];
      }
    }
  }

  /** Walking backwards is a walk in an undirected graph. */
  lemma ReverseWalk(g: Graph, w: seq<Node>) returns (r: seq<Node>)
    requires Symmetric(g) && IsWalk(g, w)
    ensures WalkBetween(g, r, Last(w), w[0]) && |r| == |w|
  {
    r := seq(|w|, i requires 0 <= i < |w| => w[|w| - 1 - i]);
    forall m | 0 <= m < |r| - 1 ensures Adjacent(g, r[m], r[m + 1]) {
      var a := |w| - 2 - m;
      assert Adjacent(g, w[a], w[a + 1]);
    }
  }

  /** A walk from s to v followed by a walk from v to t is a walk from s to t. */
  lemma JoinWalks(g: Graph, w1: seq<Node>, w2: seq<Node>) returns (w: seq<Node>)
    requires IsWalk(g, w1) && IsWalk(g, w2) && Last(w1) == w2[0]
    ensures WalkBetween(g, w, w1[0], Last(w2))
  {
    w := w1 + w2[1..];
    forall m | 0 <= m < |w| - 1 ensures Adjacent(g, w[m], w[m + 1]) {
      if m < |w1| - 1 {
        assert w[m] == w1[m] && w[m + 1] == w1[m + 1];
      } else if m == |w1| - 1 {
        assert w[m] == w2[0] && w[m + 1] == w2[1];
      } else {
        var a := m - |w1| + 1;
        assert w[m] == w2[a] && w[m + 1] == w2[a + 1];
      }
    }
    if |w2| == 1 {
      assert w == w1;
    }
  }

  lemma ReachableSymmetric(g: Graph, u: Node, v: Node)
    requires Symmetric(g)
    ensures Reachable(g, u, v) ==> Reachable(g, v, u)
  {
    if Reachable(g, u, v) {
      var w :| WalkBetween(g, w, u, v);
      var r := ReverseWalk(g, w);
    }
  }

  lemma ReachableTransitive(g: Graph, s: Node, v: Node, t: Node)
    ensures Reachable(g, s, v) && Reachable(g, v, t) ==> Reachable(g, s, t)
  {
    if Reachable(g, s, v) && Reachable(g, v, t) {
      var w1 :| WalkBetween(g, w1, s, v);
      var w2 :| WalkBetween(g, w2, v, t);
      var w := JoinWalks(g, w1, w2);
    }
  }

  /** Every node of a walk from a node of the graph is a node of the graph. */
  lemma WalkInGraph(g: Graph, w: seq<Node>)
    requires Symmetric(g) && IsWalk(g, w) && w[0] in g.adj
    ensures forall x :: x in w ==> x in g.adj
  {
    forall x | x in w ensures x in g.adj {
      var i :| 0 <= i < |w| && w[i] == x;
      if i > 0 {
        assert Adjacent(g, w[i - 1], w[i]);
      }
    }
  }

  // ---------------------------------------------------------------------------
  // Balls and distances
  // ---------------------------------------------------------------------------

  /** The nodes adjacent to some node of b. */
  function Neighbourhood(g: Graph, b: set<Node>): (r: set<Node>)
    ensures forall y :: y in r <==> exists x :: x in b && Adjacent(g, x, y)
  {
    set x, y | x in b && x in g.adj && y in g.adj[x] :: y
  }

  /** The nodes at most k edges away from u. */
  function Ball(g: Graph, u: Node, k: nat): set<Node> {
    if k == 0 then {u} else Ball(g, u, k - 1) + Neighbourhood(g, Ball(g, u, k - 1))
  }

  ghost predicate WalkWithin(g: Graph, u: Node, v: Node, n: nat) {
    exists w {:trigger WalkBetween(g, w, u, v)} :: WalkBetween(g, w, u, v) && |w| <= n
  }

  /** v is in the ball of radius k around u exactly when some walk from u to v has at most k edges. */
  lemma BallWalks(g: Graph, u: Node, v: Node, k: nat)
    ensures v in Ball(g, u, k) <==> WalkWithin(g, u, v, k + 1)
  {
    if v in Ball(g, u, k) {
      BallToWalk(g, u, v, k);
    }
    if WalkWithin(g, u, v, k + 1) {
      var w :| WalkBetween(g, w, u, v) && |w| <= k + 1;
      WalkToBall(g, u, w, k);
    }
  }

  lemma {:induction false} BallToWalk(g: Graph, u: Node, v: Node, k: nat)
    requires v in Ball(g, u, k)
    ensures WalkWithin(g, u, v, k + 1)
    decreases k
  {
    if k == 0 {
      assert WalkBetween(g, [u], u, v);
    } else if v in Ball(g, u, k - 1) {
      BallToWalk(g, u, v, k - 1);
    } else {
      var x :| x in Ball(g, u, k - 1) && Adjacent(g, x, v);
      BallToWalk(g, u, x, k - 1);
      var w :| WalkBetween(g, w, u, x) && |w| <= k;
      ExtendWalk(g, w, v);
      assert WalkBetween(g, w + [v], u, v);
    }
  }

  lemma {:induction false} WalkToBall(g: Graph, u: Node, w: seq<Node>, k: nat)
    requires IsWalk(g, w) && w[0] == u && |w| <= k + 1
    ensures Last(w) in Ball(g, u, k)
    decreases k
  {
    if |w| == 1 {
      BallCentre(g, u, k);
    } else {
      var w' := w[..|w| - 1];
      WalkPrefix(g, w);
      WalkToBall(g, u, w', k - 1);
      assert Adjacent(g, Last(w'), Last(w)) by {
        assert Adjacent(g, w[|w| - 2], w[|w| - 1]);
      }
      assert Last(w) in Neighbourhood(g, Ball(g, u, k - 1));
    }
  }

  lemma {:induction false} BallCentre(g: Graph, u: Node, k: nat)
    ensures u in Ball(g, u, k)
  {
    if k > 0 {
      BallCentre(g, u, k - 1);
    }
  }

  /** The least radius from k up to bound whose ball around u holds v. */
  function DistanceFrom(g: Graph, u: Node, v: Node, k: nat, bound: nat): Option<nat>
    decreases bound - k
  {
    if v in Ball(g, u, k) then Some(k)
    else if k >= bound then None
    else DistanceFrom(g, u, v, k + 1, bound)
  }

  lemma {:induction false} DistanceFromFound(g: Graph, u: Node, v: Node, k: nat, bound: nat, j: nat)
    requires DistanceFrom(g, u, v, k, bound).Some?
    ensures k <= DistanceFrom(g, u, v, k, bound).value
    ensures v in Ball(g, u, DistanceFrom(g, u, v, k, bound).value)
    ensures k <= j < DistanceFrom(g, u, v, k, bound).value ==> v !in Ball(g, u, j)
    decreases bound - k
  {
    if v !in Ball(g, u, k) {
      DistanceFromFound(g, u, v, k + 1, bound, j);
    }
  }

  lemma {:induction false} DistanceFromMissing(g: Graph, u: Node, v: Node, k: nat, bound: nat, j: nat)
    ensures DistanceFrom(g, u, v, k, bound).None? && k <= j <= bound ==> v !in Ball(g, u, j)
    decreases bound - k
  {
    if j > k && v !in Ball(g, u, k) && k < bound {
      DistanceFromMissing(g, u, v, k + 1, bound, j);
    }
  }

  /** The library's unweighted shortest-path length from u to v; None when v cannot be reached. */
  function Distance(g: Graph, u: Node, v: Node): Option<nat> {
    DistanceFrom(g, u, v, 0, |g.nodes|)
  }

  /** A walk's nodes, once cycles are cut out, fit in a ball of radius below the node count. */
  lemma ReachableWithinNodeCount(g: Graph, u: Node, v: Node)
    requires Valid(g) && u in g.adj && Reachable(g, u, v)
    ensures |g.nodes| > 0 && v in Ball(g, u, |g.nodes| - 1)
  {
    var w :| WalkBetween(g, w, u, v);
    var p := WalkToPath(g, w);
    WalkInGraph(g, p);
    DistinctNodesBound(g, p);
    assert p[0] in g.adj;
    BallWalks(g, u, v, |g.nodes| - 1);
  }

  /** Distance is defined exactly for reachable pairs, and is the least edge count of a walk. */
  lemma DistanceIsShortest(g: Graph, u: Node, v: Node)
    requires Valid(g) && u in g.adj
    ensures Distance(g, u, v).Some? <==> Reachable(g, u, v)
    ensures Distance(g, u, v).Some? ==>
              && WalkWithin(g, u, v, Distance(g, u, v).value + 1)
              && forall w {:trigger WalkBetween(g, w, u, v)} ::
                   WalkBetween(g, w, u, v) ==> Distance(g, u, v).value + 1 <= |w|
  {
    var r := Distance(g, u, v);
    if r.Some? {
      DistanceFromFound(g, u, v, 0, |g.nodes|, 0);
      BallWalks(g, u, v, r.value);
      forall w | WalkBetween(g, w, u, v) ensures r.value + 1 <= |w| {
        DistanceFromFound(g, u, v, 0, |g.nodes|, |w| - 1);
        WalkToBall(g, u, w, |w| - 1);
      }
    }
    if Reachable(g, u, v) {
      ReachableWithinNodeCount(g, u, v);
      DistanceFromMissing(g, u, v, 0, |g.nodes|, |g.nodes| - 1);
    }
  }

  /** For a node of the graph, the ball whose radius is the node count holds exactly what it reaches. */
  lemma BallReach(g: Graph, u: Node, v: Node)
    requires Valid(g) && u in g.adj
    ensures v in Ball(g, u, |g.nodes|) <==> Reachable(g, u, v)
  {
    BallWalks(g, u, v, |g.nodes|);
    if Reachable(g, u, v) {
      ReachableWithinNodeCount(g, u, v);
      BallGrows(g, u, |g.nodes| - 1, |g.nodes|);
    }
  }

  lemma {:induction false} BallGrows(g: Graph, u: Node, j: nat, k: nat)
    requires j <= k
    ensures Ball(g, u, j) <= Ball(g, u, k)
    decreases k
  {
    if j < k {
      BallGrows(g, u, j, k - 1);
    }
  }

  // ---------------------------------------------------------------------------
  // Connectivity and components
  // ---------------------------------------------------------------------------

  /** The library's is_connected: a search from the first node reaches every node (the library
      refuses the empty graph; here it is not connected). */
  predicate Connected(g: Graph) {
    |g.nodes| > 0 && forall v :: v in g.nodes ==> v in Ball(g, g.nodes[0], |g.nodes|)
  }

  /** Connected means: there is a node, and every node reaches every other. */
  lemma ConnectedIff(g: Graph)
    requires Valid(g)
    ensures Connected(g) <==>
              |g.nodes| > 0 && forall u, v :: u in g.adj && v in g.adj ==> Reachable(g, u, v)
  {
    if Connected(g) {
      var s := g.nodes[0];
      forall u, v | u in g.adj && v in g.adj ensures Reachable(g, u, v) {
        BallReach(g, s, u);
        BallReach(g, s, v);
        ReachableSymmetric(g, s, u);
        ReachableTransitive(g, u, s, v);
      }
    }
    if |g.nodes| > 0 && forall u, v :: u in g.adj && v in g.adj ==> Reachable(g, u, v) {
      var s := g.nodes[0];
      forall v | v in g.nodes ensures v in Ball(g, s, |g.nodes|) {
        BallReach(g, s, v);
      }
    }
  }

  /** nodes[i] is the first node of its component: no earlier node reaches it. */
  predicate Leads(g: Graph, i: nat)
    requires i < |g.nodes|
  {
    forall j :: 0 <= j < i ==> g.nodes[i] !in Ball(g, g.nodes[j], |g.nodes|)
  }

  function LeadersBelow(g: Graph, n: nat): nat
    requires n <= |g.nodes|
  {
    if n == 0 then 0 else LeadersBelow(g, n - 1) + (if Leads(g, n - 1) then 1 else 0)
  }

  /** The library's number_connected_components: one per component, counted at its first node. */
  function ComponentCount(g: Graph): nat {
    LeadersBelow(g, |g.nodes|)
  }

  /** Every node is reached from exactly one leader: the leaders stand for the components. */
  lemma ComponentLeaders(g: Graph, v: Node)
    requires Valid(g) && v in g.adj
    ensures exists i :: 0 <= i < |g.nodes| && Leads(g, i) && Reachable(g, g.nodes[i], v)
    ensures forall i, i' :: 0 <= i < i' < |g.nodes| && Leads(g, i) && Leads(g, i') ==>
              !(Reachable(g, g.nodes[i], v) && Reachable(g, g.nodes[i'], v))
  {
    var k :| 0 <= k < |g.nodes| && g.nodes[k] == v;
    assert WalkBetween(g, [v], v, v);
    var i := FirstReaching(g, v, k);
    forall j | 0 <= j < i ensures g.nodes[i] !in Ball(g, g.nodes[j], |g.nodes|) {
      BallReach(g, g.nodes[j], g.nodes[i]);
      ReachableTransitive(g, g.nodes[j], g.nodes[i], v);
    }
    forall i, i' | 0 <= i < i' < |g.nodes| && Leads(g, i) && Leads(g, i')
      ensures !(Reachable(g, g.nodes[i], v) && Reachable(g, g.nodes[i'], v))
    {
      ReachableSymmetric(g, g.nodes[i'], v);
      ReachableTransitive(g, g.nodes[i], v, g.nodes[i']);
      BallReach(g, g.nodes[i], g.nodes[i']);
    }
  }

  /** The smallest index whose node reaches v, given that index k does. */
  lemma {:induction false} FirstReaching(g: Graph, v: Node, k: nat) returns (i: nat)
    requires k < |g.nodes| && Reachable(g, g.nodes[k], v)
    ensures i <= k && Reachable(g, g.nodes[i], v)
    ensures forall j :: 0 <= j < i ==> !Reachable(g, g.nodes[j], v)
    decreases k
  {
    if exists j :: 0 <= j < k && Reachable(g, g.nodes[j], v) {
      var j :| 0 <= j < k && Reachable(g, g.nodes[j], v);
      i := FirstReaching(g, v, j);
    } else {
      i := k;
    }
  }

  lemma {:induction false} LeadersGrow(g: Graph, m: nat, n: nat)
    requires m <= n <= |g.nodes|
    ensures LeadersBelow(g, m) <= LeadersBelow(g, n)
    decreases n
  {
    if m < n {
      LeadersGrow(g, m, n - 1);
    }
  }

  /** There are no components exactly when there are no nodes, and one exactly when the
      graph is connected. */
  lemma ComponentCountConnected(g: Graph)
    requires Valid(g)
    ensures ComponentCount(g) == 0 <==> |g.nodes| == 0
    ensures ComponentCount(g) == 1 <==> Connected(g)
  {
    if |g.nodes| > 0 {
      assert LeadersBelow(g, 1) == 1;
      LeadersGrow(g, 1, |g.nodes|);
      if Connected(g) {
        OnlyFirstLeads(g, |g.nodes|);
      } else {
        SecondLeader(g);
      }
    }
  }

  /** A graph with a node that the first node does not reach has a second component. */
  lemma SecondLeader(g: Graph)
    requires Valid(g) && |g.nodes| > 0 && !Connected(g)
    ensures ComponentCount(g) >= 2
  {
    var n := |g.nodes|;
    var v :| v in g.nodes && v !in Ball(g, g.nodes[0], n);
    ComponentLeaders(g, v);
    var i :| 0 <= i < n && Leads(g, i) && Reachable(g, g.nodes[i], v);
    BallReach(g, g.nodes[0], v);
    assert i > 0;
    assert LeadersBelow(g, 1) == 1;
    LeadersGrow(g, 1, i);
    assert LeadersBelow(g, i + 1) == LeadersBelow(g, i) + 1;
    LeadersGrow(g, i + 1, n);
  }

  lemma {:induction false} OnlyFirstLeads(g: Graph, n: nat)
    requires Connected(g) && 0 < n <= |g.nodes|
    ensures LeadersBelow(g, n) == 1
  {
    if n > 1 {
      OnlyFirstLeads(g, n - 1);
      assert g.nodes[n - 1] in Ball(g, g.nodes[0], |g.nodes|);
    }
  }

  // ---------------------------------------------------------------------------
  // Diameter
  // ---------------------------------------------------------------------------

  function MaxOf(s: seq<nat>): (m: nat)
    ensures forall i :: 0 <= i < |s| ==> s[i] <= m
    ensures |s| > 0 ==> exists i :: 0 <= i < |s| && s[i] == m
  {
    if s == [] then 0
    else
      var m' := MaxOf(s[..|s| - 1]);
      if Last(s) > m' then Last(s) else m'
  }

  function DistanceOrZero(g: Graph, u: Node, v: Node): nat {
    match Distance(g, u, v)
    case Some(d) => d
    case None => 0
  }

  /** The distances from u to every node, in node order. */
  function DistancesFrom(g: Graph, u: Node): seq<nat> {
    seq(|g.nodes|, i requires 0 <= i < |g.nodes| => DistanceOrZero(g, u, g.nodes[i]))
  }

  /** The greatest distance from u to a node of the graph. */
  function Eccentricity(g: Graph, u: Node): nat {
    MaxOf(DistancesFrom(g, u))
  }

  function Eccentricities(g: Graph): seq<nat> {
    seq(|g.nodes|, i requires 0 <= i < |g.nodes| => Eccentricity(g, g.nodes[i]))
  }

  /** The library's diameter: the greatest eccentricity. */
  function Diameter(g: Graph): nat {
    MaxOf(Eccentricities(g))
  }

  /** In a connected graph, every two nodes are at a distance of at most the diameter, and some
      two nodes are exactly that far apart. */
  lemma DiameterIsLongestDistance(g: Graph)
    requires Valid(g) && Connected(g)
    ensures forall u, v :: u in g.adj && v in g.adj ==>
              Distance(g, u, v).Some? && Distance(g, u, v).value <= Diameter(g)
    ensures exists u, v :: u in g.adj && v in g.adj && Distance(g, u, v) == Some(Diameter(g))
  {
    forall u, v | u in g.adj && v in g.adj
      ensures Distance(g, u, v).Some? && Distance(g, u, v).value <= Diameter(g)
    {
      DistanceWithinDiameter(g, u, v);
    }
    DiameterAttained(g);
  }

  lemma DistanceWithinDiameter(g: Graph, u: Node, v: Node)
    requires Valid(g) && Connected(g) && u in g.adj && v in g.adj
    ensures Distance(g, u, v).Some? && Distance(g, u, v).value <= Diameter(g)
  {
    ConnectedIff(g);
    DistanceIsShortest(g, u, v);
    PairBelowDiameter(g, u, v);
  }

  /** Every pair's DistanceOrZero is at most the diameter. */
  lemma PairBelowDiameter(g: Graph, u: Node, v: Node)
    requires u in g.nodes && v in g.nodes
    ensures DistanceOrZero(g, u, v) <= Diameter(g)
  {
    var n := |g.nodes|;
    var i :| 0 <= i < n && g.nodes[i] == u;
    var j :| 0 <= j < n && g.nodes[j] == v;
    assert DistancesFrom(g, u)[j] == DistanceOrZero(g, u, v);
    assert Eccentricities(g)[i] == Eccentricity(g, u);
  }

  /** Some pair's DistanceOrZero is the diameter. */
  lemma DiameterPair(g: Graph) returns (u: Node, v: Node)
    requires |g.nodes| > 0
    ensures u in g.nodes && v in g.nodes && DistanceOrZero(g, u, v) == Diameter(g)
  {
    var n := |g.nodes|;
    var ecc := Eccentricities(g);
    var i :| 0 <= i < n && ecc[i] == Diameter(g);
    u := g.nodes[i];
    var row := DistancesFrom(g, u);
    var j :| 0 <= j < n && row[j] == Eccentricity(g, u);
    v := g.nodes[j];
  }

  lemma DiameterAttained(g: Graph)
    requires Valid(g) && Connected(g)
    ensures exists u, v :: u in g.adj && v in g.adj && Distance(g, u, v) == Some(Diameter(g))
  {
    ConnectedIff(g);
    var u, v := DiameterPair(g);
    DistanceIsShortest(g, u, v);
    assert Distance(g, u, v) == Some(Diameter(g));
  }
}
