/** The weighted station graph: every connection carries an attribute dictionary (distance,
    time, ...), shared by both directions of the edge, and add_third_weight derives a third
    attribute from the first two on every edge, in place. */
module WeightedGraphs {
  import opened GraphModel
  import opened Construction
  import opened Rounding

  type Attrs = map<string, real>

  /** The attribute dictionaries, keyed by the unordered pair of endpoints. */
  type EdgeData = map<set<Node>, Attrs>

  /** How add_third_weight ends: every edge done, or a KeyError on the first edge that lacks
      one of the two attributes it reads. */
  datatype Outcome = Done | MissingAttribute(u: Node, v: Node, key: string)

  // ---------------------------------------------------------------------------
  // Construction from (u, v, attributes) triples
  // ---------------------------------------------------------------------------

  function Pairs(edges: seq<(Node, Node, Attrs)>): (ps: seq<(Node, Node)>)
    ensures |ps| == |edges|
    ensures forall i :: 0 <= i < |edges| ==> ps[i] == (edges[i].0, edges[i].1)
  {
    seq(|edges|, i requires 0 <= i < |edges| => (edges[i].0, edges[i].1))
  }

  /** The attribute dictionaries add_edges_from leaves: for each triple in order, the pair's
      dictionary (empty when new) updated with the triple's attributes. */
  function EdgeAttrs(edges: seq<(Node, Node, Attrs)>): EdgeData {
    if edges == [] then map[]
    else
      var m := EdgeAttrs(edges[..|edges| - 1]);
      var e := Last(edges);
      var k := {e.0, e.1};
      m[k := (if k in m then m[k] else map[]) + e.2]
  }

  /** A pair has a dictionary exactly when it is listed, in either orientation. */
  lemma {:induction false} EdgeAttrsKeys(edges: seq<(Node, Node, Attrs)>, u: Node, v: Node)
    ensures {u, v} in EdgeAttrs(edges) <==>
              exists i :: 0 <= i < |edges| && {edges[i].0, edges[i].1} == {u, v}
  {
    if edges != [] {
      var init := edges[..|edges| - 1];
      EdgeAttrsKeys(init, u, v);
      if exists i :: 0 <= i < |init| && {init[i].0, init[i].1} == {u, v} {
        var i :| 0 <= i < |init| && {init[i].0, init[i].1} == {u, v};
        assert edges[i] == init[i];
      }
      if exists i :: 0 <= i < |edges| && {edges[i].0, edges[i].1} == {u, v} {
        var i :| 0 <= i < |edges| && {edges[i].0, edges[i].1} == {u, v};
        if i < |init| {
          assert init[i] == edges[i];
        }
      }
    }
  }

  /** A pair listed once carries exactly the attributes of its triple. */
  lemma {:induction false} EdgeAttrsListedOnce(edges: seq<(Node, Node, Attrs)>, i: nat)
    requires i < |edges|
    requires forall j :: 0 <= j < |edges| && j != i ==> {edges[j].0, edges[j].1} != {edges[i].0, edges[i].1}
    ensures {edges[i].0, edges[i].1} in EdgeAttrs(edges)
    ensures EdgeAttrs(edges)[{edges[i].0, edges[i].1}] == edges[i].2
  {
    var k := {edges[i].0, edges[i].1};
    var init := edges[..|edges| - 1];
    if i == |edges| - 1 {
      assert k !in EdgeAttrs(init) by {
        EdgeAttrsKeys(init, edges[i].0, edges[i].1);
        forall j | 0 <= j < |init| ensures {init[j].0, init[j].1} != k {
          assert init[j] == edges[j];
        }
      }
      assert map[] + edges[i].2 == edges[i].2;
    } else {
      forall j | 0 <= j < |init| && j != i ensures {init[j].0, init[j].1} != {init[i].0, init[i].1} {
        assert init[j] == edges[j] && init[i] == edges[i];
      }
      EdgeAttrsListedOnce(init, i);
      assert init[i] == edges[i];
    }
  }

  /** A pair listed several times merges its dictionaries: it has an attribute exactly when
      one of its listings has it. */
  lemma {:induction false} EdgeAttrsMergedKeys(edges: seq<(Node, Node, Attrs)>, u: Node, v: Node, a: string)
    ensures ({u, v} in EdgeAttrs(edges) && a in EdgeAttrs(edges)[{u, v}]) <==>
              exists i :: 0 <= i < |edges| && {edges[i].0, edges[i].1} == {u, v} && a in edges[i].2
  {
    if edges != [] {
      var init := edges[..|edges| - 1];
      EdgeAttrsMergedKeys(init, u, v, a);
      if exists i :: 0 <= i < |init| && {init[i].0, init[i].1} == {u, v} && a in init[i].2 {
        var i :| 0 <= i < |init| && {init[i].0, init[i].1} == {u, v} && a in init[i].2;
        assert edges[i] == init[i];
      }
      if exists i :: 0 <= i < |edges| && {edges[i].0, edges[i].1} == {u, v} && a in edges[i].2 {
        var i :| 0 <= i < |edges| && {edges[i].0, edges[i].1} == {u, v} && a in edges[i].2;
        if i < |init| {
          assert init[i] == edges[i];
        }
      }
    }
  }

  /** Of several listings of a pair, the last one that has an attribute sets its value. */
  lemma {:induction false} EdgeAttrsLastWins(edges: seq<(Node, Node, Attrs)>, i: nat, a: string)
    requires i < |edges| && a in edges[i].2
    requires forall j :: i < j < |edges| && {edges[j].0, edges[j].1} == {edges[i].0, edges[i].1} ==> a !in edges[j].2
    ensures {edges[i].0, edges[i].1} in EdgeAttrs(edges)
    ensures a in EdgeAttrs(edges)[{edges[i].0, edges[i].1}]
    ensures EdgeAttrs(edges)[{edges[i].0, edges[i].1}][a] == edges[i].2[a]
  {
    if i < |edges| - 1 {
      var init := edges[..|edges| - 1];
      assert init[i] == edges[i];
      forall j | i < j < |init| && {init[j].0, init[j].1} == {init[i].0, init[i].1} ensures a !in init[j].2 {
        assert init[j] == edges[j];
      }
      EdgeAttrsLastWins(init, i, a);
    }
  }

  /** Every edge of g has a dictionary in m. */
  ghost predicate AttrsCover(g: Graph, m: EdgeData) {
    forall u, v :: Adjacent(g, u, v) ==> {u, v} in m
  }

  /** Every edge of the built graph carries a dictionary. */
  lemma EdgesCarryAttrs(edges: seq<(Node, Node, Attrs)>)
    requires NoSelfLoops(Pairs(edges))
    ensures AttrsCover(CreateTransportNetworkGraph(Pairs(edges)), EdgeAttrs(edges))
  {
    var ps := Pairs(edges);
    var g := CreateTransportNetworkGraph(ps);
    forall u, v | Adjacent(g, u, v) ensures {u, v} in EdgeAttrs(edges) {
      CreatedEdges(ps, u, v);
      var i :| 0 <= i < |ps| && (ps[i] == (u, v) || ps[i] == (v, u));
      assert {edges[i].0, edges[i].1} == {u, v};
      EdgeAttrsKeys(edges, u, v);
    }
  }

  // ---------------------------------------------------------------------------
  // add_third_weight as a pass over the edge sequence
  // ---------------------------------------------------------------------------

  /** The attribute names add_third_weight reads and writes. */
  const DistanceKey := "distance"
  const TimeKey := "time"
  const ThirdWeightKey := "third_weight"

  /** The dictionary key of an edge given as an ordered pair. */
  function Key(e: (Node, Node)): set<Node> {
    {e.0, e.1}
  }

  /** Every listed edge has a dictionary. */
  ghost predicate Covers(es: seq<(Node, Node)>, m: EdgeData) {
    forall i :: 0 <= i < |es| ==> Key(es[i]) in m
  }

  /** Whether an edge's dictionary has both attributes the pass reads. */
  predicate HasInputs(data: Attrs) {
    DistanceKey in data && TimeKey in data
  }

  /** The value the pass writes for an edge: round(alpha * distance + beta * time, 2). */
  function ThirdWeight(alpha: real, beta: real, distance: real, time: real): real {
    Round2(alpha * distance + beta * time)
  }

  /** The dictionaries after the third weight is written on the edge k. */
  function WriteThirdWeight(alpha: real, beta: real, m: EdgeData, k: set<Node>): (m': EdgeData)
    requires k in m && HasInputs(m[k])
    ensures m'.Keys == m.Keys
  {
    m[k := m[k][ThirdWeightKey := ThirdWeight(alpha, beta, m[k][DistanceKey], m[k][TimeKey])]]
  }

  /** One step of the pass, as the loop of add_third_weight takes it. */
  lemma PassStep(es: seq<(Node, Node)>, alpha: real, beta: real, m: EdgeData)
    requires es != [] && Covers(es, m)
    ensures Covers(es[1..], m)
    ensures var data := m[Key(es[0])];
            && (DistanceKey !in data ==> ThirdWeightPass(es, alpha, beta, m) == (MissingAttribute(es[0].0, es[0].1, DistanceKey), m))
            && (DistanceKey in data && TimeKey !in data ==> ThirdWeightPass(es, alpha, beta, m) == (MissingAttribute(es[0].0, es[0].1, TimeKey), m))
            && (HasInputs(data) ==> ThirdWeightPass(es, alpha, beta, m) == ThirdWeightPass(es[1..], alpha, beta, WriteThirdWeight(alpha, beta, m, Key(es[0]))))
  {
    CoversTail(es, m, m);
  }

  lemma CoversTail(es: seq<(Node, Node)>, m: EdgeData, m': EdgeData)
    requires es != [] && Covers(es, m) && m.Keys == m'.Keys
    ensures Covers(es[1..], m')
  {
    forall i | 0 <= i < |es[1..]| ensures Key(es[1..][i]) in m' {
      assert es[1..][i] == es[i + 1];
    }
  }

  /** The pass over the edges es, starting from the dictionaries m: read distance, then time,
      and write the third weight; the first edge that lacks an attribute stops the pass with a
      KeyError, and the writes done before it are kept. */
  function ThirdWeightPass(es: seq<(Node, Node)>, alpha: real, beta: real, m: EdgeData): (r: (Outcome, EdgeData))
    requires Covers(es, m)
    ensures r.1.Keys == m.Keys
  {
    if es == [] then (Done, m)
    else
      var data := m[Key(es[0])];
      if DistanceKey !in data then (MissingAttribute(es[0].0, es[0].1, DistanceKey), m)
      else if TimeKey !in data then (MissingAttribute(es[0].0, es[0].1, TimeKey), m)
      else
        var m' := WriteThirdWeight(alpha, beta, m, Key(es[0]));
        CoversTail(es, m, m');
        ThirdWeightPass(es[1..], alpha, beta, m')
  }

  /** Writing one attribute leaves the others as they were. */
  lemma WriteKeepsOthers(data: Attrs, key: string, x: real)
    ensures data[key := x] - {key} == data - {key}
  {
    assert (data[key := x] - {key}).Keys == (data - {key}).Keys;
  }

  /** Only the third weight is written: every other attribute of every edge stays as it was. */
  lemma {:induction false} PassKeepsOtherAttrs(es: seq<(Node, Node)>, alpha: real, beta: real, m: EdgeData, k: set<Node>)
    requires Covers(es, m) && k in m
    ensures ThirdWeightPass(es, alpha, beta, m).1[k] - {ThirdWeightKey} == m[k] - {ThirdWeightKey}
  {
    if es != [] && HasInputs(m[Key(es[0])]) {
      var m' := WriteThirdWeight(alpha, beta, m, Key(es[0]));
      CoversTail(es, m, m');
      PassKeepsOtherAttrs(es[1..], alpha, beta, m', k);
      if k == Key(es[0]) {
        WriteKeepsOthers(m[k], ThirdWeightKey, ThirdWeight(alpha, beta, m[k][DistanceKey], m[k][TimeKey]));
      }
    }
  }

  /** An edge the pass does not visit keeps its whole dictionary. */
  lemma {:induction false} PassKeepsUnvisited(es: seq<(Node, Node)>, alpha: real, beta: real, m: EdgeData, k: set<Node>)
    requires Covers(es, m) && k in m
    requires forall i :: 0 <= i < |es| ==> Key(es[i]) != k
    ensures ThirdWeightPass(es, alpha, beta, m).1[k] == m[k]
  {
    if es != [] && HasInputs(m[Key(es[0])]) {
      var m' := WriteThirdWeight(alpha, beta, m, Key(es[0]));
      CoversTail(es, m, m');
      forall i | 0 <= i < |es[1..]| ensures Key(es[1..][i]) != k {
        assert es[1..][i] == es[i + 1];
      }
      PassKeepsUnvisited(es[1..], alpha, beta, m', k);
    }
  }

  /** The pass finishes exactly when every edge it visits has distance and time. */
  lemma {:induction false} PassDoneIff(es: seq<(Node, Node)>, alpha: real, beta: real, m: EdgeData)
    requires Covers(es, m)
    ensures ThirdWeightPass(es, alpha, beta, m).0 == Done <==>
              forall i :: 0 <= i < |es| ==> HasInputs(m[Key(es[i])])
  {
    if es != [] {
      PassStep(es, alpha, beta, m);
      if HasInputs(m[Key(es[0])]) {
        var m' := WriteThirdWeight(alpha, beta, m, Key(es[0]));
        CoversTail(es, m, m');
        PassDoneIff(es[1..], alpha, beta, m');
        forall i | 0 <= i < |es[1..]| ensures HasInputs(m'[Key(es[1..][i])]) <==> HasInputs(m[Key(es[i + 1])]) {
          assert es[1..][i] == es[i + 1];
        }
        if forall i :: 0 <= i < |es[1..]| ==> HasInputs(m'[Key(es[1..][i])]) {
          forall i | 0 <= i < |es| ensures HasInputs(m[Key(es[i])]) {
            if i > 0 {
              assert es[1..][i - 1] == es[i];
            }
          }
        }
      }
    }
  }

  /** A pass that stops reports the first edge lacking an attribute, and which one it lacks:
      distance is read before time. */
  lemma {:induction false} PassStopsAtFirstMissing(es: seq<(Node, Node)>, alpha: real, beta: real, m: EdgeData)
    requires Covers(es, m)
    ensures var o := ThirdWeightPass(es, alpha, beta, m).0;
            o.MissingAttribute? ==>
              exists i :: 0 <= i < |es| && es[i] == (o.u, o.v)
                && (forall j :: 0 <= j < i ==> HasInputs(m[Key(es[j])]))
                && var data := m[Key(es[i])];
                   (o.key == DistanceKey && DistanceKey !in data)
                   || (o.key == TimeKey && DistanceKey in data && TimeKey !in data)
  {
    if es != [] {
      PassStep(es, alpha, beta, m);
      var o := ThirdWeightPass(es, alpha, beta, m).0;
      if HasInputs(m[Key(es[0])]) && o.MissingAttribute? {
        var m' := WriteThirdWeight(alpha, beta, m, Key(es[0]));
        CoversTail(es, m, m');
        PassStopsAtFirstMissing(es[1..], alpha, beta, m');
        var i :| 0 <= i < |es[1..]| && es[1..][i] == (o.u, o.v)
              && (forall j :: 0 <= j < i ==> HasInputs(m'[Key(es[1..][j])]))
              && var d := m'[Key(es[1..][i])];
                 (o.key == DistanceKey && DistanceKey !in d)
                 || (o.key == TimeKey && DistanceKey in d && TimeKey !in d);
        assert es[i + 1] == es[1..][i];
        forall j | 0 <= j < i + 1 ensures HasInputs(m[Key(es[j])]) {
          if j > 0 {
            assert es[1..][j - 1] == es[j];
          }
        }
      }
    }
  }

  /** The edge k carries the third weight w, which its own distance and time give. */
  ghost predicate Weighted(alpha: real, beta: real, m: EdgeData, k: set<Node>, w: real) {
    k in m && HasInputs(m[k]) && ThirdWeightKey in m[k]
    && m[k][ThirdWeightKey] == w && ThirdWeight(alpha, beta, m[k][DistanceKey], m[k][TimeKey]) == w
  }

  /** Two dictionaries with the same distance and the same time. */
  ghost predicate SameInputs(d1: Attrs, d2: Attrs) {
    HasInputs(d1) && HasInputs(d2) && d1[DistanceKey] == d2[DistanceKey] && d1[TimeKey] == d2[TimeKey]
  }

  /** One write weighs its own edge, keeps every other edge's weight, and changes no distance
      and no time. */
  lemma WriteWeighs(alpha: real, beta: real, m: EdgeData, k0: set<Node>, k: set<Node>, w: real)
    requires k0 in m && HasInputs(m[k0]) && k in m
    ensures var m' := WriteThirdWeight(alpha, beta, m, k0);
            && (k == k0 ==> Weighted(alpha, beta, m', k, ThirdWeight(alpha, beta, m[k][DistanceKey], m[k][TimeKey])))
            && (Weighted(alpha, beta, m, k, w) ==> Weighted(alpha, beta, m', k, w))
            && (HasInputs(m[k]) ==> SameInputs(m'[k], m[k]))
  {
    assert ThirdWeightKey != DistanceKey && ThirdWeightKey != TimeKey;
  }

  /** Once an edge carries its weight, the rest of the pass keeps it. */
  lemma {:induction false} PassKeepsWeighted(es: seq<(Node, Node)>, alpha: real, beta: real, m: EdgeData, k: set<Node>, w: real)
    requires Covers(es, m) && Weighted(alpha, beta, m, k, w)
    ensures Weighted(alpha, beta, ThirdWeightPass(es, alpha, beta, m).1, k, w)
  {
    if es != [] && HasInputs(m[Key(es[0])]) {
      var m' := WriteThirdWeight(alpha, beta, m, Key(es[0]));
      CoversTail(es, m, m');
      WriteWeighs(alpha, beta, m, Key(es[0]), k, w);
      PassKeepsWeighted(es[1..], alpha, beta, m', k, w);
    }
  }

  /** A pass that finishes has written, on every edge it visits, the rounded combination of that
      edge's distance and time. */
  lemma {:induction false} PassWeighsEveryEdge(es: seq<(Node, Node)>, alpha: real, beta: real, m: EdgeData, i: nat)
    requires Covers(es, m) && i < |es|
    requires ThirdWeightPass(es, alpha, beta, m).0 == Done
    ensures HasInputs(m[Key(es[i])])
    ensures Weighted(alpha, beta, ThirdWeightPass(es, alpha, beta, m).1, Key(es[i]), ThirdWeight(alpha, beta, m[Key(es[i])][DistanceKey], m[Key(es[i])][TimeKey]))
  {
    var k := Key(es[i]);
    var m' := WriteThirdWeight(alpha, beta, m, Key(es[0]));
    CoversTail(es, m, m');
    WriteWeighs(alpha, beta, m, Key(es[0]), k, 0.0);
    if i == 0 {
      PassKeepsWeighted(es[1..], alpha, beta, m', k, ThirdWeight(alpha, beta, m[k][DistanceKey], m[k][TimeKey]));
    } else {
      assert es[1..][i - 1] == es[i];
      PassWeighsEveryEdge(es[1..], alpha, beta, m', i - 1);
    }
  }

  /** The edge k carries the third weight its own distance and time give. */
  ghost predicate CarriesWeight(alpha: real, beta: real, m: EdgeData, k: set<Node>) {
    k in m && HasInputs(m[k]) && Weighted(alpha, beta, m, k, ThirdWeight(alpha, beta, m[k][DistanceKey], m[k][TimeKey]))
  }

  /** A pass over edges that all carry their weight already changes nothing. */
  lemma {:induction false} PassFixpoint(es: seq<(Node, Node)>, alpha: real, beta: real, m: EdgeData)
    requires Covers(es, m)
    requires forall i :: 0 <= i < |es| ==> CarriesWeight(alpha, beta, m, Key(es[i]))
    ensures ThirdWeightPass(es, alpha, beta, m) == (Done, m)
  {
    if es != [] {
      var k := Key(es[0]);
      assert CarriesWeight(alpha, beta, m, k);
      assert m[k][ThirdWeightKey := m[k][ThirdWeightKey]] == m[k];
      assert WriteThirdWeight(alpha, beta, m, k) == m;
      CoversTail(es, m, m);
      forall i | 0 <= i < |es[1..]| ensures CarriesWeight(alpha, beta, m, Key(es[1..][i])) {
        assert es[1..][i] == es[i + 1];
      }
      PassFixpoint(es[1..], alpha, beta, m);
    }
  }

  /** Running add_third_weight a second time, after a pass that finished, changes nothing. */
  lemma PassIdempotent(es: seq<(Node, Node)>, alpha: real, beta: real, m: EdgeData)
    requires Covers(es, m)
    requires ThirdWeightPass(es, alpha, beta, m).0 == Done
    ensures var r := ThirdWeightPass(es, alpha, beta, m).1;
            ThirdWeightPass(es, alpha, beta, r) == (Done, r)
  {
    var r := ThirdWeightPass(es, alpha, beta, m).1;
    forall i | 0 <= i < |es| ensures CarriesWeight(alpha, beta, r, Key(es[i])) {
      PassWeighsEveryEdge(es, alpha, beta, m, i);
    }
    PassFixpoint(es, alpha, beta, r);
  }

  /** The edge view lists only edges of g, so every edge it lists has a dictionary. */
  lemma EdgeViewCovered(g: Graph, m: EdgeData)
    requires GraphModel.Valid(g) && AttrsCover(g, m)
    ensures Covers(EdgeView(g), m)
  {
    var es := EdgeView(g);
    forall i | 0 <= i < |es| ensures Key(es[i]) in m {
      EdgeViewCovers(g, es[i].0, es[i].1);
    }
  }

  /** add_third_weight on a whole graph: it finishes exactly when every edge has distance and
      time, and then every edge, in both orientations, carries its third weight. */
  lemma ThirdWeightOnEveryEdge(g: Graph, alpha: real, beta: real, m: EdgeData)
    requires GraphModel.Valid(g) && AttrsCover(g, m)
    ensures Covers(EdgeView(g), m)
    ensures var r := ThirdWeightPass(EdgeView(g), alpha, beta, m);
            && (r.0 == Done <==> forall u, v :: Adjacent(g, u, v) ==> HasInputs(m[{u, v}]))
            && (r.0 == Done ==> forall u, v :: Adjacent(g, u, v) ==>
                  Weighted(alpha, beta, r.1, {u, v}, ThirdWeight(alpha, beta, m[{u, v}][DistanceKey], m[{u, v}][TimeKey])))
  {
    var es := EdgeView(g);
    EdgeViewCovered(g, m);
    PassDoneIff(es, alpha, beta, m);
    var r := ThirdWeightPass(es, alpha, beta, m);
    forall u, v | Adjacent(g, u, v)
      ensures r.0 == Done ==> HasInputs(m[{u, v}])
      ensures r.0 == Done ==>
                Weighted(alpha, beta, r.1, {u, v}, ThirdWeight(alpha, beta, m[{u, v}][DistanceKey], m[{u, v}][TimeKey]))
    {
      EdgeViewCovers(g, u, v);
      var i :| 0 <= i < |es| && (es[i] == (u, v) || es[i] == (v, u));
      assert Key(es[i]) == {u, v};
      if r.0 == Done {
        PassWeighsEveryEdge(es, alpha, beta, m, i);
      }
    }
    if forall u, v :: Adjacent(g, u, v) ==> HasInputs(m[{u, v}]) {
      forall i | 0 <= i < |es| ensures HasInputs(m[Key(es[i])]) {
        EdgeViewCovers(g, es[i].0, es[i].1);
      }
    }
  }

  // ---------------------------------------------------------------------------
  // The graph object
  // ---------------------------------------------------------------------------

  /** A station graph with its edge dictionaries, as the library keeps them. */
  class WeightedGraph {
    var graph: Graph
    var attrs: EdgeData

    ghost predicate Valid()
      reads this
    {
      GraphModel.Valid(graph) && AttrsCover(graph, attrs)
    }

    /** create_transport_network_graph: add_edges_from on (u, v, attributes) triples. */
    constructor (edges: seq<(Node, Node, Attrs)>)
      requires NoSelfLoops(Pairs(edges))
      ensures Valid()
      ensures graph == CreateTransportNetworkGraph(Pairs(edges))
      ensures attrs == EdgeAttrs(edges)
    {
      graph := CreateTransportNetworkGraph(Pairs(edges));
      attrs := EdgeAttrs(edges);
      new;
      EdgesCarryAttrs(edges);
    }

    /** add_third_weight: visit the edges in the library's order and write the third weight on
        each, stopping with a KeyError at the first edge without distance or time. */
    method AddThirdWeight(alpha: real, beta: real) returns (outcome: Outcome)
      requires Valid()
      modifies this
      ensures Valid()
      ensures graph == old(graph)
      ensures Covers(EdgeView(graph), old(attrs))
      ensures (outcome, attrs) == ThirdWeightPass(EdgeView(graph), alpha, beta, old(attrs))
    {
      var es := EdgeView(graph);
      EdgeViewCovered(graph, attrs);
      var i := 0;
      while i < |es|
        invariant 0 <= i <= |es|
        invariant graph == old(graph) && attrs.Keys == old(attrs).Keys
        invariant Covers(es[i..], attrs)
        invariant ThirdWeightPass(es[i..], alpha, beta, attrs) == ThirdWeightPass(es, alpha, beta, old(attrs))
      {
        var (u, v) := es[i];
        assert es[i..][0] == (u, v) && es[i..][1..] == es[i + 1..];
        PassStep(es[i..], alpha, beta, attrs);
        ghost var before := attrs;
        var data := attrs[{u, v}];
        if DistanceKey !in data {
          return MissingAttribute(u, v, DistanceKey);
        }
        var distance := data[DistanceKey];
        if TimeKey !in data {
          return MissingAttribute(u, v, TimeKey);
        }
        var time := data[TimeKey];
        var thirdWeight := ThirdWeight(alpha, beta, distance, time);
        attrs := attrs[{u, v} := data[ThirdWeightKey := thirdWeight]];
        assert attrs == WriteThirdWeight(alpha, beta, before, Key(es[i..][0]));
        i := i + 1;
      }
      outcome := Done;
    }
  }

  // ---------------------------------------------------------------------------
  // The sample network
  // ---------------------------------------------------------------------------

  /** The weighted connections listed with the module. */
  const WeightedEdges: seq<(Node, Node, Attrs)> := [
    ("1", "38", map[DistanceKey := 26.3, TimeKey := 3.8]),
    ("2", "25", map[DistanceKey := 26.3, TimeKey := 2.2]),
    ("3", "26", map[DistanceKey := 24.1, TimeKey := 3.9]),
    ("4", "42", map[DistanceKey := 5.4, TimeKey := 2.5]),
    ("5", "21", map[DistanceKey := 1.3, TimeKey := 1.3])
  ]

  /** With alpha 0.4 and beta 0.6, the connection 4-42 (distance 5.4, time 2.5) is weighted 3.66. */
  lemma ThirdWeightSample()
    ensures ThirdWeight(0.4, 0.6, 5.4, 2.5) == 3.66
  {
    assert 0.4 * 5.4 + 0.6 * 2.5 == 3.66;
    assert (3.66 * 100.0).Floor == 366;
  }

  /** The connection 4-42 of the sample is an edge, in both orientations, with its listed
      weights. */
  lemma WeightedSample()
    ensures NoSelfLoops(Pairs(WeightedEdges))
    ensures Adjacent(CreateTransportNetworkGraph(Pairs(WeightedEdges)), "42", "4")
    ensures {"4", "42"} in EdgeAttrs(WeightedEdges)
    ensures EdgeAttrs(WeightedEdges)[{"4", "42"}] == map[DistanceKey := 5.4, TimeKey := 2.5]
  {
    var ps := Pairs(WeightedEdges);
    assert ps[3] == ("4", "42");
    CreatedEdges(ps, "42", "4");
    forall j | 0 <= j < |WeightedEdges| && j != 3
      ensures {WeightedEdges[j].0, WeightedEdges[j].1} != {WeightedEdges[3].0, WeightedEdges[3].1}
    {
      assert "4" in {WeightedEdges[3].0, WeightedEdges[3].1};
      assert "4" !in {WeightedEdges[j].0, WeightedEdges[j].1};
    }
    EdgeAttrsListedOnce(WeightedEdges, 3);
  }
}
