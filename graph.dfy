/** The undirected graph of stations, as the program's graph library keeps it:
    the nodes in insertion order and, for every node, its neighbours in insertion order. */
module GraphModel {

  type Node = string

  datatype Option<T> = None | Some(value: T)

  datatype Result<T, E> = Success(value: T) | Failure(error: E)

  datatype Graph = Graph(nodes: seq<Node>, adj: map<Node, seq<Node>>)

  const Empty: Graph := Graph([], map[])

  function Last<T>(s: seq<T>): T
    requires |s| > 0
  {
    s[|s| - 1]
  }

  predicate NoDuplicates<T(==)>(s: seq<T>) {
    forall i, j :: 0 <= i < j < |s| ==> s[i] != s[j]
  }

  /** The shape of every graph the program builds: node list and adjacency agree, and the
      adjacency is simple. */
  ghost predicate Valid(g: Graph) {
    && NoDuplicates(g.nodes)
    && (forall n :: n in g.adj <==> n in g.nodes)
    && Simple(g)
  }

  /** An undirected graph without parallel edges or self-loops: neighbour lists are
      duplicate-free, no node lists itself, and adjacency is symmetric. */
  ghost predicate Simple(g: Graph) {
    && (forall u :: u in g.adj ==> NoDuplicates(g.adj[u]) && u !in g.adj[u])
    && Symmetric(g)
  }

  /** Every neighbour is a node of the graph and lists the node back: the part of Valid the
      searches rely on. */
  ghost predicate Symmetric(g: Graph) {
    forall u :: u in g.adj ==> forall v :: v in g.adj[u] ==> v in g.adj && u in g.adj[v]
  }

  predicate Adjacent(g: Graph, u: Node, v: Node) {
    u in g.adj && v in g.adj[u]
  }

  /** The library's degree of a node (a graph without self-loops). */
  function Degree(g: Graph, n: Node): nat
    requires n in g.adj
  {
    |g.adj[n]|
  }

  // ---------------------------------------------------------------------------
  // Construction: the library's add_node / add_edge / add_edges_from
  // ---------------------------------------------------------------------------

  function AppendNew(s: seq<Node>, x: Node): (r: seq<Node>)
    ensures x in r && forall y :: y in r <==> y in s || y == x
  {
    if x in s then s else s + [x]
  }

  function AddNode(g: Graph, n: Node): (h: Graph)
    ensures n in h.adj
    ensures forall x :: x in g.adj ==> x in h.adj && h.adj[x] == g.adj[x]
  {
    if n in g.adj then g else Graph(g.nodes + [n], g.adj[n := []])
  }

  /** Adds the undirected edge u-v: new endpoints are appended to the node list,
      and each endpoint is appended to the other's neighbours unless already there. */
  function AddEdge(g: Graph, u: Node, v: Node): Graph
    requires u != v
  {
    var h := AddNode(AddNode(g, u), v);
    Graph(h.nodes, h.adj[u := AppendNew(h.adj[u], v)][v := AppendNew(h.adj[v], u)])
  }

  predicate NoSelfLoops(edges: seq<(Node, Node)>) {
    forall i :: 0 <= i < |edges| ==> edges[i].0 != edges[i].1
  }

  /** add_edges_from applied to an empty graph. */
  function Build(edges: seq<(Node, Node)>): Graph
    requires NoSelfLoops(edges)
  {
    if edges == [] then Empty
    else AddEdge(Build(edges[..|edges| - 1]), Last(edges).0, Last(edges).1)
  }

  // Independent description of what Build produces.

  /** Both endpoints of every pair, in list order. */
  function Endpoints(edges: seq<(Node, Node)>): seq<Node> {
    if edges == [] then []
    else Endpoints(edges[..|edges| - 1]) + [Last(edges).0, Last(edges).1]
  }

  /** The first occurrence of every element, in order. */
  function Dedup(s: seq<Node>): (r: seq<Node>)
    ensures NoDuplicates(r)
    ensures forall x :: x in r <==> x in s
  {
    if s == [] then []
    else
      var d := Dedup(s[..|s| - 1]);
      if Last(s) in s[..|s| - 1] then d else d + [Last(s)]
  }

  /** The partners of x in the listed pairs, in list order. */
  function ListedNeighbours(edges: seq<(Node, Node)>, x: Node): seq<Node> {
    if edges == [] then []
    else
      var e := Last(edges);
      ListedNeighbours(edges[..|edges| - 1], x)
        + (if e.0 == x then [e.1] else if e.1 == x then [e.0] else [])
  }

  lemma {:induction false} ListedNeighboursMembers(edges: seq<(Node, Node)>, x: Node, y: Node)
    ensures y in ListedNeighbours(edges, x) <==>
              exists i :: 0 <= i < |edges| && (edges[i] == (x, y) || edges[i] == (y, x))
  {
    if edges != [] {
      var init := edges[..|edges| - 1];
      ListedNeighboursMembers(init, x, y);
      if exists i :: 0 <= i < |edges| && (edges[i] == (x, y) || edges[i] == (y, x)) {
        var i :| 0 <= i < |edges| && (edges[i] == (x, y) || edges[i] == (y, x));
        if i < |init| {
          assert init[i] == edges[i];
        }
      }
      if exists i :: 0 <= i < |init| && (init[i] == (x, y) || init[i] == (y, x)) {
        var i :| 0 <= i < |init| && (init[i] == (x, y) || init[i] == (y, x));
        assert edges[i] == init[i];
      }
    }
  }

  lemma {:induction false} EndpointsMembers(edges: seq<(Node, Node)>, x: Node)
    ensures x in Endpoints(edges) <==>
              exists i :: 0 <= i < |edges| && (edges[i].0 == x || edges[i].1 == x)
  {
    if edges != [] {
      var init := edges[..|edges| - 1];
      EndpointsMembers(init, x);
      if exists i :: 0 <= i < |edges| && (edges[i].0 == x || edges[i].1 == x) {
        var i :| 0 <= i < |edges| && (edges[i].0 == x || edges[i].1 == x);
        if i < |init| {
          assert init[i] == edges[i];
        }
      }
      if exists i :: 0 <= i < |init| && (init[i].0 == x || init[i].1 == x) {
        var i :| 0 <= i < |init| && (init[i].0 == x || init[i].1 == x);
        assert edges[i] == init[i];
      }
    }
  }

  lemma {:induction false} NotEndpointNoNeighbours(edges: seq<(Node, Node)>, x: Node)
    requires x !in Endpoints(edges)
    ensures ListedNeighbours(edges, x) == []
  {
    if edges != [] {
      NotEndpointNoNeighbours(edges[..|edges| - 1], x);
    }
  }

  lemma DedupSnoc(s: seq<Node>, x: Node)
    ensures Dedup(s + [x]) == if x in s then Dedup(s) else Dedup(s) + [x]
  {
    assert (s + [x])[..|s + [x]| - 1] == s;
  }

  lemma AppendNewNoDuplicates(s: seq<Node>, x: Node)
    requires NoDuplicates(s)
    ensures NoDuplicates(AppendNew(s, x))
  {
    if x !in s {
      var r := s + [x];
      forall i, j | 0 <= i < j < |r| ensures r[i] != r[j] {
        if j == |s| {
          assert r[i] == s[i];
        }
      }
    }
  }

  lemma AddNodeValid(g: Graph, n: Node)
    requires Valid(g)
    ensures Valid(AddNode(g, n))
    ensures AddNode(g, n).adj.Keys == g.adj.Keys + {n}
  {
    if n !in g.adj {
      var h := AddNode(g, n);
      assert forall x :: x in h.nodes <==> x in g.nodes || x == n;
      assert NoDuplicates(h.nodes) by {
        forall i, j | 0 <= i < j < |h.nodes| ensures h.nodes[i] != h.nodes[j] {
          if j == |g.nodes| {
            assert h.nodes[i] == g.nodes[i];
          }
        }
      }
    }
  }

  /** Linking two existing, distinct nodes keeps the graph well formed. */
  lemma LinkValid(h: Graph, u: Node, v: Node)
    requires Valid(h) && u != v && u in h.adj && v in h.adj
    ensures Valid(Graph(h.nodes, h.adj[u := AppendNew(h.adj[u], v)][v := AppendNew(h.adj[v], u)]))
  {
    var r := Graph(h.nodes, h.adj[u := AppendNew(h.adj[u], v)][v := AppendNew(h.adj[v], u)]);
    assert r.adj.Keys == h.adj.Keys;
    AppendNewNoDuplicates(h.adj[u], v);
    AppendNewNoDuplicates(h.adj[v], u);
    forall a | a in r.adj ensures NoDuplicates(r.adj[a]) {
      if a != u && a != v {
        assert r.adj[a] == h.adj[a];
      }
    }
    forall a, b | a in r.adj && b in r.adj[a]
      ensures b != a && b in r.adj && a in r.adj[b]
    {
      if a == u || a == v {
      } else {
        assert r.adj[a] == h.adj[a];
        assert b in h.adj[a];
      }
    }
  }

  lemma AddEdgeValid(g: Graph, u: Node, v: Node)
    requires Valid(g) && u != v
    ensures Valid(AddEdge(g, u, v))
    ensures AddEdge(g, u, v).adj.Keys == g.adj.Keys + {u, v}
  {
    AddNodeValid(g, u);
    AddNodeValid(AddNode(g, u), v);
    LinkValid(AddNode(AddNode(g, u), v), u, v);
  }

  lemma BuildInit(edges: seq<(Node, Node)>)
    requires NoSelfLoops(edges) && edges != []
    ensures NoSelfLoops(edges[..|edges| - 1]) && Last(edges).0 != Last(edges).1
  {
    var init := edges[..|edges| - 1];
    forall i | 0 <= i < |init| ensures init[i].0 != init[i].1 {
      assert init[i] == edges[i];
    }
  }

  /** Build yields a well-formed graph whose node list is the endpoints in order of first appearance. */
  lemma {:induction false} BuildNodes(edges: seq<(Node, Node)>)
    requires NoSelfLoops(edges)
    ensures Valid(Build(edges))
    ensures Build(edges).nodes == Dedup(Endpoints(edges))
  {
    if edges != [] {
      var init := edges[..|edges| - 1];
      var (u, v) := Last(edges);
      BuildInit(edges);
      BuildNodes(init);
      AddEdgeValid(Build(init), u, v);
      var ends := Endpoints(init);
      assert Endpoints(edges) == (ends + [u]) + [v];
      DedupSnoc(ends, u);
      DedupSnoc(ends + [u], v);
    }
  }

  function NeighboursOf(g: Graph, x: Node): seq<Node> {
    if x in g.adj then g.adj[x] else []
  }

  lemma AddEdgeNeighbours(g: Graph, u: Node, v: Node, x: Node)
    requires u != v
    ensures NeighboursOf(AddEdge(g, u, v), x) ==
              if x == u then AppendNew(NeighboursOf(g, u), v)
              else if x == v then AppendNew(NeighboursOf(g, v), u)
              else NeighboursOf(g, x)
  {
  }

  /** In the built graph, every node's neighbours are its listed partners in order of first appearance. */
  lemma {:induction false} BuildNeighbours(edges: seq<(Node, Node)>, x: Node)
    requires NoSelfLoops(edges)
    ensures NeighboursOf(Build(edges), x) == Dedup(ListedNeighbours(edges, x))
  {
    if edges == [] {
      return;
    }
    var init := edges[..|edges| - 1];
    var (u, v) := Last(edges);
    BuildInit(edges);
    assert Build(edges) == AddEdge(Build(init), u, v);
    BuildNeighbours(init, x);
    AddEdgeNeighbours(Build(init), u, v, x);
    var ln := ListedNeighbours(init, x);
    if x == u {
      assert ListedNeighbours(edges, x) == ln + [v];
      DedupSnoc(ln, v);
    } else if x == v {
      assert ListedNeighbours(edges, x) == ln + [u];
      DedupSnoc(ln, u);
    } else {
      assert ListedNeighbours(edges, x) == ln + [];
      assert ln + [] == ln;
    }
  }

  // ---------------------------------------------------------------------------
  // Walks and reachability
  // ---------------------------------------------------------------------------

  /** A non-empty node sequence whose consecutive nodes are adjacent. A single node is a
      walk whether or not it is in the graph, as the searches treat start == goal. */
  ghost predicate IsWalk(g: Graph, w: seq<Node>) {
    |w| > 0 && forall i :: 0 <= i < |w| - 1 ==> Adjacent(g, w[i], w[i + 1])
  }

  /** Dropping the last node of a walk of two or more nodes leaves a walk. */
  lemma WalkPrefix(g: Graph, w: seq<Node>)
    requires IsWalk(g, w) && |w| > 1
    ensures IsWalk(g, w[..|w| - 1])
  {
    var w' := w[..|w| - 1];
    forall m | 0 <= m < |w'| - 1 ensures Adjacent(g, w'[m], w'[m + 1]) {
      assert Adjacent(g, w[m], w[m + 1]);
    }
  }

  ghost predicate WalkBetween(g: Graph, w: seq<Node>, s: Node, t: Node) {
    IsWalk(g, w) && w[0] == s && Last(w) == t
  }

  ghost predicate Reachable(g: Graph, s: Node, t: Node) {
    exists w :: WalkBetween(g, w, s, t)
  }

  /** Cutting out the cycles of a walk leaves a repetition-free walk between the same
      nodes; it is strictly shorter when the walk repeated a node. */
  lemma {:induction false} WalkToPath(g: Graph, w: seq<Node>) returns (p: seq<Node>)
    requires IsWalk(g, w)
    ensures WalkBetween(g, p, w[0], Last(w))
    ensures NoDuplicates(p) && |p| <= |w|
    ensures !NoDuplicates(w) ==> |p| < |w|
    ensures forall x :: x in p ==> x in w
    decreases |w|
  {
    if NoDuplicates(w) {
      return w;
    }
    var i, j :| 0 <= i < j < |w| && w[i] == w[j];
    var w' := w[..i] + w[j..];
    assert |w'| == |w| - (j - i);
    forall k | 0 <= k < |w'| - 1 ensures Adjacent(g, w'[k], w'[k + 1]) {
      if k < i - 1 {
        assert w'[k] == w[k] && w'[k + 1] == w[k + 1];
      } else if k == i - 1 {
        assert w'[k] == w[i - 1] && w'[k + 1] == w[j] == w[i];
      } else {
        assert w'[k] == w[k + (j - i)] && w'[k + 1] == w[k + 1 + (j - i)];
      }
    }
    assert w'[0] == w[0];
    assert Last(w') == Last(w);
    forall x | x in w' ensures x in w {
      var k :| 0 <= k < |w'| && w'[k] == x;
      if k < i {
        assert w[k] == x;
      } else {
        assert w[k + (j - i)] == x;
      }
    }
    p := WalkToPath(g, w');
  }

  /** A repetition-free sequence of graph nodes is no longer than the node count. */
  lemma {:induction false} DistinctNodesBound(g: Graph, p: seq<Node>)
    requires Valid(g) && NoDuplicates(p)
    requires forall x :: x in p ==> x in g.adj
    ensures |p| <= |g.nodes|
  {
    DistinctSeqCard(p);
    DistinctSeqCard(g.nodes);
    assert (set x | x in p) <= (set x | x in g.nodes);
    SubsetCard(set x | x in p, set x | x in g.nodes);
  }

  lemma {:induction false} DistinctSeqCard(s: seq<Node>)
    requires NoDuplicates(s)
    ensures |set x | x in s| == |s|
  {
    if s != [] {
      var init := s[..|s| - 1];
      DistinctSeqCard(init);
      assert (set x | x in s) == (set x | x in init) + {Last(s)};
      assert Last(s) !in (set x | x in init);
    }
  }

  lemma {:induction false} SubsetCard<T>(a: set<T>, b: set<T>)
    requires a <= b
    ensures |a| <= |b|
    decreases |a|
  {
    if a != {} {
      var x :| x in a;
      SubsetCard(a - {x}, b - {x});
    }
  }

  // ---------------------------------------------------------------------------
  // Edge iteration: the library's graph.edges() order
  // ---------------------------------------------------------------------------

  /** The neighbours of u that are not in `seen`, each as the pair (u, v), in neighbour order. */
  function FreshPairs(u: Node, nbrs: seq<Node>, seen: set<Node>): (r: seq<(Node, Node)>)
    ensures forall p :: p in r <==> p.0 == u && p.1 in nbrs && p.1 !in seen
  {
    if nbrs == [] then []
    else (if nbrs[0] in seen then [] else [(u, nbrs[0])]) + FreshPairs(u, nbrs[1..], seen)
  }

  function EdgesFrom(g: Graph, ns: seq<Node>, seen: set<Node>): seq<(Node, Node)>
    requires forall n :: n in ns ==> n in g.adj
  {
    if ns == [] then []
    else FreshPairs(ns[0], g.adj[ns[0]], seen) + EdgesFrom(g, ns[1..], seen + {ns[0]})
  }

  /** Every edge once, in the library's order: nodes in order, and for each node the
      neighbours not yet visited as a node. */
  function EdgeView(g: Graph): seq<(Node, Node)>
    requires Valid(g)
  {
    EdgesFrom(g, g.nodes, {})
  }

  lemma {:induction false} EdgesFromSound(g: Graph, ns: seq<Node>, seen: set<Node>, e: (Node, Node))
    requires forall n :: n in ns ==> n in g.adj
    requires e in EdgesFrom(g, ns, seen)
    ensures Adjacent(g, e.0, e.1) && e.0 in ns && e.1 !in seen
  {
    if e !in FreshPairs(ns[0], g.adj[ns[0]], seen) {
      EdgesFromSound(g, ns[1..], seen + {ns[0]}, e);
    }
  }

  lemma {:induction false} EdgesFromComplete(g: Graph, ns: seq<Node>, seen: set<Node>, k: nat, v: Node)
    requires forall n :: n in ns ==> n in g.adj
    requires k < |ns| && v in g.adj[ns[k]]
    requires v !in seen && v !in ns[..k]
    ensures (ns[k], v) in EdgesFrom(g, ns, seen)
  {
    if k > 0 {
      assert v != ns[0] by {
        assert ns[..k][0] == ns[0];
      }
      assert ns[1..][..k - 1] == ns[1..k];
      assert forall x :: x in ns[1..k] ==> x in ns[..k];
      EdgesFromComplete(g, ns[1..], seen + {ns[0]}, k - 1, v);
    }
  }

  /** The edge iteration yields only edges, and every edge in one of its two orientations. */
  lemma EdgeViewCovers(g: Graph, u: Node, v: Node)
    requires Valid(g)
    ensures (u, v) in EdgeView(g) ==> Adjacent(g, u, v)
    ensures Adjacent(g, u, v) ==> (u, v) in EdgeView(g) || (v, u) in EdgeView(g)
  {
    if (u, v) in EdgeView(g) {
      EdgesFromSound(g, g.nodes, {}, (u, v));
    }
    if Adjacent(g, u, v) {
      var i :| 0 <= i < |g.nodes| && g.nodes[i] == u;
      assert v in g.adj;
      var j :| 0 <= j < |g.nodes| && g.nodes[j] == v;
      if i < j {
        assert v !in g.nodes[..i];
        EdgesFromComplete(g, g.nodes, {}, i, v);
      } else {
        assert u !in g.nodes[..j];
        EdgesFromComplete(g, g.nodes, {}, j, u);
      }
    }
  }

  /** A pair that the iteration yields from the node at position p points forward in the
      node order: its second node comes after p. */
  lemma {:induction false} EdgesFromForward(g: Graph, ns: seq<Node>, seen: set<Node>, e: (Node, Node), p: nat)
    requires forall n :: n in ns ==> n in g.adj
    requires forall n, v :: n in ns && v in g.adj[n] ==> v != n && (v in seen || v in ns)
    requires NoDuplicates(ns) && p < |ns| && ns[p] == e.0 && e in EdgesFrom(g, ns, seen)
    ensures e.1 in ns[p + 1..]
  {
    assert ns == [ns[0]] + ns[1..];
    if e in FreshPairs(ns[0], g.adj[ns[0]], seen) {
      assert p == 0;
    } else {
      EdgesFromSound(g, ns[1..], seen + {ns[0]}, e);
      assert p != 0;
      EdgesFromForward(g, ns[1..], seen + {ns[0]}, e, p - 1);
      assert ns[1..][p..] == ns[p + 1..];
    }
  }

  /** The iteration never yields an edge in both orientations. */
  lemma EdgeViewOnce(g: Graph, u: Node, v: Node)
    requires Valid(g)
    ensures (u, v) in EdgeView(g) ==> (v, u) !in EdgeView(g)
  {
    var ns := g.nodes;
    if (u, v) in EdgeView(g) {
      EdgesFromSound(g, ns, {}, (u, v));
      var i :| 0 <= i < |ns| && ns[i] == u;
      EdgesFromForward(g, ns, {}, (u, v), i);
      var p :| i < p < |ns| && ns[p] == v;
      forall w | (v, w) in EdgeView(g) ensures w in ns[p + 1..] {
        EdgesFromForward(g, ns, {}, (v, w), p);
      }
      assert u !in ns[p + 1..];
    }
  }

  lemma {:induction false} FreshPairsNoDuplicates(u: Node, nbrs: seq<Node>, seen: set<Node>)
    requires NoDuplicates(nbrs)
    ensures NoDuplicates(FreshPairs(u, nbrs, seen))
  {
    if nbrs != [] {
      var t := nbrs[1..];
      assert NoDuplicates(t) by {
        forall i, j | 0 <= i < j < |t| ensures t[i] != t[j] {
          assert nbrs[i + 1] != nbrs[j + 1];
        }
      }
      assert nbrs[0] !in t by {
        forall j | 0 <= j < |t| ensures t[j] != nbrs[0] {
          assert nbrs[j + 1] != nbrs[0];
        }
      }
      FreshPairsNoDuplicates(u, t, seen);
      var r := FreshPairs(u, t, seen);
      var h: seq<(Node, Node)> := if nbrs[0] in seen then [] else [(u, nbrs[0])];
      forall i, j | 0 <= i < j < |h + r| ensures (h + r)[i] != (h + r)[j] {
        if i < |h| {
          assert (h + r)[j] == r[j - |h|];
        }
      }
    }
  }

  lemma {:induction false} EdgesFromNoDuplicates(g: Graph, ns: seq<Node>, seen: set<Node>)
    requires forall n :: n in ns ==> n in g.adj && NoDuplicates(g.adj[n])
    requires NoDuplicates(ns)
    ensures NoDuplicates(EdgesFrom(g, ns, seen))
  {
    if ns != [] {
      var t := ns[1..];
      assert NoDuplicates(t) by {
        forall i, j | 0 <= i < j < |t| ensures t[i] != t[j] {
          assert ns[i + 1] != ns[j + 1];
        }
      }
      assert ns[0] !in t by {
        forall j | 0 <= j < |t| ensures t[j] != ns[0] {
          assert ns[j + 1] != ns[0];
        }
      }
      var h := FreshPairs(ns[0], g.adj[ns[0]], seen);
      var r := EdgesFrom(g, t, seen + {ns[0]});
      FreshPairsNoDuplicates(ns[0], g.adj[ns[0]], seen);
      EdgesFromNoDuplicates(g, t, seen + {ns[0]});
      forall i, j | 0 <= i < j < |h + r| ensures (h + r)[i] != (h + r)[j] {
        if i < |h| && j >= |h| {
          assert (h + r)[j] == r[j - |h|] && r[j - |h|] in r;
          EdgesFromSound(g, t, seen + {ns[0]}, r[j - |h|]);
          assert h[i] in h;
        }
      }
    }
  }

  /** The iteration yields each edge once: no pair repeats, and no edge comes in both
      orientations. */
  lemma EdgeViewDistinct(g: Graph)
    requires Valid(g)
    ensures NoDuplicates(EdgeView(g))
    ensures forall u, v :: (u, v) in EdgeView(g) ==> (v, u) !in EdgeView(g)
  {
    EdgesFromNoDuplicates(g, g.nodes, {});
    forall u, v | (u, v) in EdgeView(g) ensures (v, u) !in EdgeView(g) {
      EdgeViewOnce(g, u, v);
    }
  }
}
