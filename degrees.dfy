/** Degrees of a station graph: the per-node degree list, its sum (twice the edge count),
    and the degree histogram built by an increment-or-insert loop. */
module Degrees {
  import opened GraphModel

  function Sum(s: seq<nat>): nat {
    if s == [] then 0 else Sum(s[..|s| - 1]) + Last(s)
  }

  /** The neighbour-list lengths of the nodes ns, in order. */
  function DegreesOf(ns: seq<Node>, adj: map<Node, seq<Node>>): (ds: seq<nat>)
    requires forall n :: n in ns ==> n in adj
    ensures |ds| == |ns|
  {
    seq(|ns|, i requires 0 <= i < |ns| => |adj[ns[i]]|)
  }

  /** The degree of every node, one entry per node, in node order. */
  function DegreeDistribution(g: Graph): (ds: seq<nat>)
    requires Valid(g)
    ensures |ds| == |g.nodes|
    ensures forall i :: 0 <= i < |ds| ==> g.nodes[i] in g.adj && ds[i] == Degree(g, g.nodes[i])
  {
    DegreesOf(g.nodes, g.adj)
  }

  function DegreeSum(g: Graph): nat
    requires Valid(g)
  {
    Sum(DegreeDistribution(g))
  }

  /** The library's edge count of a graph without self-loops: half the degree sum. */
  function NumberOfEdges(g: Graph): nat
    requires Valid(g)
  {
    DegreeSum(g) / 2
  }

  // ---------------------------------------------------------------------------
  // The handshake property: the degree sum is even, so it is exactly twice the edge count
  // ---------------------------------------------------------------------------

  /** s without x. */
  function Remove(s: seq<Node>, x: Node): seq<Node> {
    if s == [] then []
    else (if s[0] == x then [] else [s[0]]) + Remove(s[1..], x)
  }

  lemma {:induction false} RemoveMembers(s: seq<Node>, x: Node)
    ensures forall y :: y in Remove(s, x) <==> y in s && y != x
  {
    if s != [] {
      RemoveMembers(s[1..], x);
    }
  }

  lemma {:induction false} RemoveOne(s: seq<Node>, x: Node)
    requires NoDuplicates(s)
    ensures NoDuplicates(Remove(s, x))
    ensures |Remove(s, x)| == if x in s then |s| - 1 else |s|
  {
    if s != [] {
      assert NoDuplicates(s[1..]) by {
        forall i, j | 0 <= i < j < |s[1..]| ensures s[1..][i] != s[1..][j] {
          assert s[i + 1] != s[j + 1];
        }
      }
      RemoveOne(s[1..], x);
      RemoveMembers(s[1..], x);
      assert x in s <==> s[0] == x || x in s[1..];
      if s[0] == x {
        assert x !in s[1..] by {
          forall j | 0 <= j < |s[1..]| ensures s[1..][j] != x {
            assert s[0] != s[j + 1];
          }
        }
      } else {
        var r := Remove(s[1..], x);
        assert s[0] !in r by {
          forall j | 0 <= j < |s[1..]| ensures s[1..][j] != s[0] {
            assert s[0] != s[j + 1];
          }
        }
        forall i, j | 0 <= i < j < |[s[0]] + r| ensures ([s[0]] + r)[i] != ([s[0]] + r)[j] {
          if i == 0 {
            assert ([s[0]] + r)[j] == r[j - 1];
          }
        }
      }
    }
  }

  lemma DegreesOfInit(ns: seq<Node>, adj: map<Node, seq<Node>>)
    requires ns != [] && forall n :: n in ns ==> n in adj
    ensures DegreesOf(ns, adj)[..|ns| - 1] == DegreesOf(ns[..|ns| - 1], adj)
    ensures Last(DegreesOf(ns, adj)) == |adj[Last(ns)]|
  {
  }

  /** Replacing one node's neighbour list changes the degree sum by the change in its length. */
  lemma {:induction false} SumUpdate(ns: seq<Node>, adj: map<Node, seq<Node>>, x: Node, s: seq<Node>)
    requires NoDuplicates(ns) && x in adj && forall n :: n in ns ==> n in adj
    ensures Sum(DegreesOf(ns, adj[x := s])) + (if x in ns then |adj[x]| else 0)
            == Sum(DegreesOf(ns, adj)) + (if x in ns then |s| else 0)
  {
    if ns != [] {
      var init := ns[..|ns| - 1];
      assert NoDuplicates(init) by {
        forall i, j | 0 <= i < j < |init| ensures init[i] != init[j] {
          assert ns[i] != ns[j];
        }
      }
      assert Last(ns) !in init by {
        forall j | 0 <= j < |init| ensures init[j] != Last(ns) {
          assert ns[j] != ns[|ns| - 1];
        }
      }
      assert x in ns <==> x in init || x == Last(ns);
      SumUpdate(init, adj, x, s);
      DegreesOfInit(ns, adj);
      DegreesOfInit(ns, adj[x := s]);
    }
  }

  lemma {:induction false} ZeroSum(ns: seq<Node>, adj: map<Node, seq<Node>>)
    requires forall n :: n in ns ==> n in adj && adj[n] == []
    ensures Sum(DegreesOf(ns, adj)) == 0
  {
    if ns != [] {
      ZeroSum(ns[..|ns| - 1], adj);
      DegreesOfInit(ns, adj);
    }
  }

  /** Removing the edge u-v keeps the adjacency simple and lowers the degree sum by two. */
  lemma RemoveEdgeStep(ns: seq<Node>, adj: map<Node, seq<Node>>, u: Node, v: Node)
    returns (adj': map<Node, seq<Node>>)
    requires NoDuplicates(ns) && (forall n :: n in adj <==> n in ns) && Simple(Graph(ns, adj))
    requires u in adj && v in adj[u]
    ensures adj' == adj[u := Remove(adj[u], v)][v := Remove(adj[v], u)]
    ensures Simple(Graph(ns, adj')) && forall n :: n in adj' <==> n in ns
    ensures Sum(DegreesOf(ns, adj')) + 2 == Sum(DegreesOf(ns, adj))
  {
    assert v in adj && u in adj[v] && u != v;
    var ru, rv := Remove(adj[u], v), Remove(adj[v], u);
    RemoveOne(adj[u], v);
    RemoveOne(adj[v], u);
    RemoveMembers(adj[u], v);
    RemoveMembers(adj[v], u);
    var a1 := adj[u := ru];
    adj' := a1[v := rv];
    SumUpdate(ns, adj, u, ru);
    SumUpdate(ns, a1, v, rv);
    forall x | x in adj' ensures
      NoDuplicates(adj'[x]) && x !in adj'[x] && forall y :: y in adj'[x] ==> y in adj' && x in adj'[y]
    {
      forall y | y in adj'[x] ensures y in adj' && x in adj'[y] {
        assert y in adj[x] && x in adj[y];
      }
    }
  }

  // ---------------------------------------------------------------------------
  // Removing an edge takes exactly one pair out of the edge iteration
  // ---------------------------------------------------------------------------

  /** Dropping x from a neighbour list loses the pair (u, x) when x is listed and not seen. */
  lemma {:induction false} FreshPairsRemove(u: Node, nbrs: seq<Node>, seen: set<Node>, x: Node)
    requires NoDuplicates(nbrs)
    ensures |FreshPairs(u, Remove(nbrs, x), seen)| + (if x in nbrs && x !in seen then 1 else 0)
            == |FreshPairs(u, nbrs, seen)|
  {
    if nbrs != [] {
      var t := nbrs[1..];
      assert NoDuplicates(t) by {
        forall i, j | 0 <= i < j < |t| ensures t[i] != t[j] {
          assert nbrs[i + 1] != nbrs[j + 1];
        }
      }
      assert nbrs[0] !in t by {
        forall j | 0 <= j < |t| ensures t[j] != nbrs[0] {
          assert nbrs[j + 1] != nbrs[0];
        }
      }
      assert x in nbrs <==> x == nbrs[0] || x in t;
      FreshPairsRemove(u, t, seen, x);
      var r := Remove(t, x);
      var h: seq<(Node, Node)> := if nbrs[0] in seen then [] else [(u, nbrs[0])];
      assert FreshPairs(u, nbrs, seen) == h + FreshPairs(u, t, seen);
      if nbrs[0] != x {
        assert Remove(nbrs, x) == [nbrs[0]] + r;
        assert ([nbrs[0]] + r)[1..] == r;
        assert FreshPairs(u, [nbrs[0]] + r, seen) == h + FreshPairs(u, r, seen);
      } else {
        assert Remove(nbrs, x) == r;
      }
    }
  }

  lemma {:induction false} EdgesFromUnchanged(g: Graph, g': Graph, ns: seq<Node>, seen: set<Node>)
    requires forall n :: n in ns ==> n in g.adj && n in g'.adj && g.adj[n] == g'.adj[n]
    ensures EdgesFrom(g, ns, seen) == EdgesFrom(g', ns, seen)
  {
    if ns != [] {
      EdgesFromUnchanged(g, g', ns[1..], seen + {ns[0]});
    }
  }

  /** Dropping y from the neighbour list of x = ns[k] loses one pair exactly when y is a
      neighbour of x that is neither seen nor listed before x. */
  lemma {:induction false} EdgesFromUpdate(g: Graph, ns: seq<Node>, seen: set<Node>, k: nat, y: Node)
    requires forall n :: n in ns ==> n in g.adj
    requires NoDuplicates(ns) && k < |ns| && NoDuplicates(g.adj[ns[k]])
    ensures |EdgesFrom(Graph(g.nodes, g.adj[ns[k] := Remove(g.adj[ns[k]], y)]), ns, seen)|
            + (if y in g.adj[ns[k]] && y !in seen && y !in ns[..k] then 1 else 0)
            == |EdgesFrom(g, ns, seen)|
  {
    var x := ns[k];
    var g' := Graph(g.nodes, g.adj[x := Remove(g.adj[x], y)]);
    var t := ns[1..];
    assert NoDuplicates(t) by {
      forall i, j | 0 <= i < j < |t| ensures t[i] != t[j] {
        assert ns[i + 1] != ns[j + 1];
      }
    }
    if k == 0 {
      assert x !in t by {
        forall j | 0 <= j < |t| ensures t[j] != x {
          assert ns[j + 1] != ns[0];
        }
      }
      FreshPairsRemove(x, g.adj[x], seen, y);
      EdgesFromUnchanged(g, g', t, seen + {x});
    } else {
      assert ns[0] != x;
      assert t[k - 1] == x;
      EdgesFromUpdate(g, t, seen + {ns[0]}, k - 1, y);
      assert ns[..k] == [ns[0]] + t[..k - 1];
    }
  }

  lemma {:induction false} EdgesFromEmpty(g: Graph, ns: seq<Node>, seen: set<Node>)
    requires forall n :: n in ns ==> n in g.adj && g.adj[n] == []
    ensures EdgesFrom(g, ns, seen) == []
  {
    if ns != [] {
      EdgesFromEmpty(g, ns[1..], seen + {ns[0]});
    }
  }

  /** Removing the edge u-v from both neighbour lists takes exactly one pair out of the edge
      iteration: the one yielded from whichever of u and v comes first. */
  /** Of two distinct positions, the later one's node is listed before the earlier one's
      position and not the other way round. */
  lemma ListedBefore(ns: seq<Node>, i: nat, j: nat)
    requires NoDuplicates(ns) && i < |ns| && j < |ns| && i != j
    ensures ns[j] in ns[..i] <==> j < i
  {
    if j < i {
      assert ns[..i][j] == ns[j];
    } else {
      forall m | 0 <= m < i ensures ns[..i][m] != ns[j] {
        assert ns[m] != ns[j];
      }
    }
  }

  lemma EdgeCountStep(ns: seq<Node>, adj: map<Node, seq<Node>>, u: Node, v: Node)
    requires NoDuplicates(ns) && (forall n :: n in adj <==> n in ns) && Simple(Graph(ns, adj))
    requires u in adj && v in adj[u]
    ensures var adj' := adj[u := Remove(adj[u], v)][v := Remove(adj[v], u)];
            |EdgesFrom(Graph(ns, adj'), ns, {})| + 1 == |EdgesFrom(Graph(ns, adj), ns, {})|
  {
    assert v in adj && u in adj[v] && u != v;
    var i :| 0 <= i < |ns| && ns[i] == u;
    var j :| 0 <= j < |ns| && ns[j] == v;
    var a1 := adj[u := Remove(adj[u], v)];
    var a2 := a1[v := Remove(a1[v], u)];
    assert a1[v] == adj[v];
    EdgesFromUpdate(Graph(ns, adj), ns, {}, i, v);
    EdgesFromUpdate(Graph(ns, a1), ns, {}, j, u);
    ListedBefore(ns, i, j);
    ListedBefore(ns, j, i);
  }

  /** The degree sum is twice the number of pairs the edge iteration yields: taking edges out
      one at a time lowers the first by two and the second by one. */
  lemma {:induction false} DegreeSumCountsEdges(ns: seq<Node>, adj: map<Node, seq<Node>>)
    requires NoDuplicates(ns) && (forall n :: n in adj <==> n in ns) && Simple(Graph(ns, adj))
    ensures Sum(DegreesOf(ns, adj)) == 2 * |EdgesFrom(Graph(ns, adj), ns, {})|
    decreases Sum(DegreesOf(ns, adj))
  {
    if u :| u in adj && adj[u] != [] {
      var adj' := RemoveEdgeStep(ns, adj, u, adj[u][0]);
      EdgeCountStep(ns, adj, u, adj[u][0]);
      DegreeSumCountsEdges(ns, adj');
    } else {
      ZeroSum(ns, adj);
      EdgesFromEmpty(Graph(ns, adj), ns, {});
    }
  }

  /** The handshake lemma: the degrees add up to twice the number of edges, and the library's
      edge count is the number of edges the edge iteration yields, each once. */
  lemma Handshake(g: Graph)
    requires Valid(g)
    ensures DegreeSum(g) == 2 * NumberOfEdges(g)
    ensures NumberOfEdges(g) == |EdgeView(g)|
  {
    DegreeSumCountsEdges(g.nodes, g.adj);
    assert Graph(g.nodes, g.adj) == g;
  }

  // ---------------------------------------------------------------------------
  // The degree histogram
  // ---------------------------------------------------------------------------

  /** The number of entries of ds equal to d. */
  function Occurrences(ds: seq<nat>, d: nat): nat {
    if ds == [] then 0 else Occurrences(ds[..|ds| - 1], d) + (if Last(ds) == d then 1 else 0)
  }

  /** The sum of a map's values. */
  ghost function Total(m: map<nat, nat>): nat
    decreases |m|
  {
    if m == map[] then 0
    else
      var k :| k in m;
      m[k] + Total(m - {k})
  }

  /** Total does not depend on which key is taken first. */
  lemma {:induction false} TotalPick(m: map<nat, nat>, k: nat)
    requires k in m
    ensures Total(m) == m[k] + Total(m - {k})
    decreases |m|
  {
    var j :| j in m && Total(m) == m[j] + Total(m - {j});
    if j != k {
      TotalPick(m - {j}, k);
      TotalPick(m - {k}, j);
      assert m - {j} - {k} == m - {k} - {j};
    }
  }

  lemma TotalUpdate(m: map<nat, nat>, k: nat, v: nat)
    ensures Total(m[k := v]) == Total(m) - (if k in m then m[k] else 0) + v
  {
    TotalPick(m[k := v], k);
    assert m[k := v] - {k} == m - {k};
    if k in m {
      TotalPick(m, k);
    } else {
      assert m - {k} == m;
    }
  }

  /** count holds, for every value occurring in s, the number of its occurrences, and nothing else. */
  ghost predicate Counts(count: map<nat, nat>, s: seq<nat>) {
    && (forall d :: d in count <==> d in s)
    && (forall d :: d in count ==> count[d] == Occurrences(s, d))
  }

  /** Incrementing an existing count or inserting 1 keeps count in step with one more entry. */
  lemma CountsStep(count: map<nat, nat>, s: seq<nat>, d: nat)
    requires Counts(count, s)
    ensures d in count ==>
              Counts(count[d := count[d] + 1], s + [d]) && Total(count[d := count[d] + 1]) == Total(count) + 1
    ensures d !in count ==> Counts(count[d := 1], s + [d]) && Total(count[d := 1]) == Total(count) + 1
  {
    var s' := s + [d];
    assert s'[..|s'| - 1] == s;
    assert forall e :: e in s' <==> e in s || e == d;
    if d !in count {
      OccurrencesAbsent(s, d);
      TotalUpdate(count, d, 1);
    } else {
      TotalUpdate(count, d, count[d] + 1);
    }
  }

  /** The degree_count loop: for each node in order, increment its degree's count or insert 1.
      The keys are exactly the degrees that occur, each count is the number of nodes of that
      degree, and the counts add up to the number of nodes. */
  method DegreeHistogram(g: Graph) returns (count: map<nat, nat>)
    requires forall n :: n in g.nodes ==> n in g.adj
    ensures forall d :: d in count <==> d in DegreesOf(g.nodes, g.adj)
    ensures forall d :: d in count ==> count[d] == Occurrences(DegreesOf(g.nodes, g.adj), d)
    ensures Total(count) == |g.nodes|
  {
    ghost var ds := DegreesOf(g.nodes, g.adj);
    count := map[];
    for i := 0 to |g.nodes|
      invariant Counts(count, ds[..i])
      invariant Total(count) == i
    {
      var degree := Degree(g, g.nodes[i]);
      assert ds[..i + 1] == ds[..i] + [degree];
      CountsStep(count, ds[..i], degree);
      if degree in count {
        count := count[degree := count[degree] + 1];
      } else {
        count := count[degree := 1];
      }
    }
    assert ds[..|g.nodes|] == ds;
  }

  lemma {:induction false} OccurrencesAbsent(ds: seq<nat>, d: nat)
    requires d !in ds
    ensures Occurrences(ds, d) == 0
  {
    if ds != [] {
      OccurrencesAbsent(ds[..|ds| - 1], d);
    }
  }

  /** A degree is counted exactly when it occurs, and never more often than there are entries. */
  lemma {:induction false} OccurrencesBounds(ds: seq<nat>, d: nat)
    ensures Occurrences(ds, d) <= |ds|
    ensures Occurrences(ds, d) > 0 <==> d in ds
  {
    if ds != [] {
      var init := ds[..|ds| - 1];
      OccurrencesBounds(init, d);
      assert d in ds <==> d in init || Last(ds) == d;
    }
  }
}
