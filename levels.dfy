/** The order in which a FIFO queue of whole paths visits the walks of a graph:
    level k holds every walk from the start with k edges, in the order the queue holds them. */
module WalkLevels {
  import opened GraphModel

  ghost predicate Extendable(g: Graph, ws: seq<seq<Node>>) {
    forall i :: 0 <= i < |ws| ==> |ws[i]| > 0 && Last(ws[i]) in g.adj
  }

  /** The one-step extensions of w, one per neighbour of its last node, in neighbour order. */
  function Extensions(g: Graph, w: seq<Node>): seq<seq<Node>>
    requires |w| > 0 && Last(w) in g.adj
  {
    var nbrs := g.adj[Last(w)];
    seq(|nbrs|, i requires 0 <= i < |nbrs| => w + [nbrs[i]])
  }

  /** What the queue receives while the walks ws are taken off its front one by one. */
  function Expand(g: Graph, ws: seq<seq<Node>>): seq<seq<Node>>
    requires Extendable(g, ws)
  {
    if ws == [] then [] else Expand(g, ws[..|ws| - 1]) + Extensions(g, Last(ws))
  }

  lemma ExpandSnoc(g: Graph, ws: seq<seq<Node>>, w: seq<Node>)
    requires Extendable(g, ws) && |w| > 0 && Last(w) in g.adj
    ensures Extendable(g, ws + [w])
    ensures Expand(g, ws + [w]) == Expand(g, ws) + Extensions(g, w)
  {
    assert (ws + [w])[..|ws|] == ws;
  }

  /** Every element of Expand(ws) is some ws[i] extended by a neighbour of its last node. */
  lemma {:induction false} ExpandMember(g: Graph, ws: seq<seq<Node>>, y: seq<Node>) returns (i: nat, n: Node)
    requires Extendable(g, ws) && y in Expand(g, ws)
    ensures i < |ws| && n in g.adj[Last(ws[i])] && y == ws[i] + [n]
  {
    var init := ws[..|ws| - 1];
    if y in Expand(g, init) {
      i, n := ExpandMember(g, init, y);
      assert init[i] == ws[i];
    } else {
      var ext := Extensions(g, Last(ws));
      var j :| 0 <= j < |ext| && ext[j] == y;
      i, n := |ws| - 1, g.adj[Last(ws[|ws| - 1])][j];
    }
  }

  /** Every one-step extension of every ws[i] is in Expand(ws). */
  lemma {:induction false} ExpandContains(g: Graph, ws: seq<seq<Node>>, i: nat, n: Node)
    requires Extendable(g, ws) && i < |ws| && n in g.adj[Last(ws[i])]
    ensures ws[i] + [n] in Expand(g, ws)
  {
    var init := ws[..|ws| - 1];
    if i < |init| {
      assert init[i] == ws[i];
      ExpandContains(g, init, i, n);
    } else {
      var nbrs := g.adj[Last(ws[i])];
      var j :| 0 <= j < |nbrs| && nbrs[j] == n;
      assert Extensions(g, Last(ws))[j] == ws[i] + [n];
    }
  }

  ghost predicate WalksFrom(g: Graph, start: Node, ws: seq<seq<Node>>, k: nat) {
    forall i :: 0 <= i < |ws| ==> IsWalk(g, ws[i]) && ws[i][0] == start && |ws[i]| == k + 1
  }

  lemma ExpandWalks(g: Graph, start: Node, ws: seq<seq<Node>>, k: nat)
    requires Symmetric(g) && Extendable(g, ws) && WalksFrom(g, start, ws, k)
    ensures WalksFrom(g, start, Expand(g, ws), k + 1)
    ensures Extendable(g, Expand(g, ws))
  {
    var e := Expand(g, ws);
    forall x | 0 <= x < |e|
      ensures IsWalk(g, e[x]) && e[x][0] == start && |e[x]| == k + 2 && Last(e[x]) in g.adj
    {
      var i, n := ExpandMember(g, ws, e[x]);
      var w := ws[i];
      forall m | 0 <= m < |e[x]| - 1 ensures Adjacent(g, e[x][m], e[x][m + 1]) {
        if m < |w| - 1 {
          assert Adjacent(g, w[m], w[m + 1]);
        }
      }
    }
  }

  /** Extending walks whose last nodes are in the graph gives walks whose last nodes are too. */
  lemma ExpandExtendable(g: Graph, ws: seq<seq<Node>>)
    requires Symmetric(g) && Extendable(g, ws)
    ensures Extendable(g, Expand(g, ws))
  {
    var e := Expand(g, ws);
    forall x | 0 <= x < |e| ensures |e[x]| > 0 && Last(e[x]) in g.adj {
      var i, n := ExpandMember(g, ws, e[x]);
    }
  }

  /** Level k: every walk from start with k edges, in FIFO order. */
  ghost function Level(g: Graph, start: Node, k: nat): (r: seq<seq<Node>>)
    requires Symmetric(g)
    ensures start in g.adj ==> Extendable(g, r)
  {
    if k == 0 then [[start]]
    else if start !in g.adj then []
    else
      var prev := Level(g, start, k - 1);
      ExpandExtendable(g, prev);
      Expand(g, prev)
  }

  /** The walks on level k start at start and have k edges. */
  lemma {:induction false} LevelWalks(g: Graph, start: Node, k: nat)
    requires Symmetric(g)
    ensures WalksFrom(g, start, Level(g, start, k), k)
  {
    if k > 0 && start in g.adj {
      LevelWalks(g, start, k - 1);
      ExpandWalks(g, start, Level(g, start, k - 1), k - 1);
    }
  }

  lemma LevelStep(g: Graph, start: Node, k: nat)
    requires Symmetric(g) && start in g.adj && k > 0
    ensures Extendable(g, Level(g, start, k - 1))
    ensures Level(g, start, k) == Expand(g, Level(g, start, k - 1))
  {
  }

  /** Every walk from start lies on the level of its edge count. */
  lemma {:induction false} LevelComplete(g: Graph, start: Node, w: seq<Node>)
    requires Symmetric(g) && IsWalk(g, w) && w[0] == start
    ensures |w| == 1 || start in g.adj
    ensures w in Level(g, start, |w| - 1)
    decreases |w|
  {
    if |w| > 1 {
      assert Adjacent(g, w[0], w[1]);
      var w' := w[..|w| - 1];
      WalkPrefix(g, w);
      LevelComplete(g, start, w');
      var prev := Level(g, start, |w| - 2);
      var i :| 0 <= i < |prev| && prev[i] == w';
      assert Adjacent(g, w[|w| - 2], w[|w| - 1]);
      LevelStep(g, start, |w| - 1);
      ExpandContains(g, prev, i, Last(w));
      assert w' + [Last(w)] == w;
    } else {
      assert w == [start];
    }
  }

  /** When the start has a neighbour, no level is empty: walks can go back and forth forever. */
  lemma {:induction false} LevelNonEmpty(g: Graph, start: Node, k: nat)
    requires Symmetric(g) && start in g.adj && g.adj[start] != []
    ensures |Level(g, start, k)| > 0
  {
    if k > 0 {
      LevelNonEmpty(g, start, k - 1);
      LevelWalks(g, start, k - 1);
      var prev := Level(g, start, k - 1);
      var w := prev[0];
      var n: Node;
      if k == 1 {
        n := g.adj[start][0];
      } else {
        assert Adjacent(g, w[|w| - 2], w[|w| - 1]);
        n := w[|w| - 2];
      }
      ExpandContains(g, prev, 0, n);
    }
  }

  lemma LevelOneOfIsolated(g: Graph, start: Node)
    requires Symmetric(g) && start in g.adj && g.adj[start] == []
    ensures Level(g, start, 1) == []
  {
    var l0 := Level(g, start, 0);
    assert l0 == [[start]] && l0[..0] == [];
    assert Extensions(g, [start]) == [];
    assert Expand(g, l0) == Expand(g, []) + Extensions(g, [start]);
  }

  /** The number of walks the queue hands out before level n. */
  ghost function WalksBelow(g: Graph, start: Node, n: nat): nat
    requires Symmetric(g)
  {
    if n == 0 then 0 else WalksBelow(g, start, n - 1) + |Level(g, start, n - 1)|
  }

  lemma {:induction false} WalksBelowMonotone(g: Graph, start: Node, m: nat, n: nat)
    requires Symmetric(g) && m <= n
    ensures WalksBelow(g, start, m) <= WalksBelow(g, start, n)
    decreases n
  {
    if m < n {
      WalksBelowMonotone(g, start, m, n - 1);
    }
  }
}
