/** Building the station graph: an empty graph to which every listed pair is added as an
    undirected edge, in list order. */
module Construction {
  import opened GraphModel

  /** The city's 58 connections between stations "1" .. "50", in the order they are listed,
      written four to a row. */
  const TransportRows: seq<seq<(Node, Node)>> := [
    [("1", "38"), ("2", "25"), ("3", "26"), ("4", "42")],
    [("5", "21"), ("6", "46"), ("7", "21"), ("8", "10")],
    [("9", "21"), ("10", "36"), ("11", "14"), ("12", "36")],
    [("13", "44"), ("14", "26"), ("15", "33"), ("16", "30")],
    [("17", "50"), ("18", "21"), ("19", "31"), ("20", "23")],
    [("21", "32"), ("22", "37"), ("23", "45"), ("24", "29")],
    [("25", "48"), ("26", "32"), ("28", "37"), ("28", "44")],
    [("32", "11"), ("30", "40"), ("31", "41"), ("32", "46")],
    [("33", "50"), ("34", "42"), ("35", "37"), ("36", "48")],
    [("37", "45"), ("38", "41"), ("47", "49"), ("40", "47")],
    [("41", "45"), ("42", "47"), ("43", "45"), ("44", "47")],
    [("45", "11"), ("46", "13"), ("47", "39"), ("48", "31")],
    [("49", "44"), ("50", "19"), ("31", "14"), ("11", "13")],
    [("40", "35"), ("40", "29"), ("27", "37"), ("28", "11")],
    [("49", "46"), ("41", "11")]
  ]

  /** The rows joined in order. */
  function Concat(rows: seq<seq<(Node, Node)>>): seq<(Node, Node)> {
    if rows == [] then [] else rows[0] + Concat(rows[1..])
  }

  const TransportEdges: seq<(Node, Node)> := Concat(TransportRows)

  /** Rows without self-loops join into a list without self-loops. */
  lemma {:induction false} ConcatNoSelfLoops(rows: seq<seq<(Node, Node)>>)
    requires forall k :: 0 <= k < |rows| ==> NoSelfLoops(rows[k])
    ensures NoSelfLoops(Concat(rows))
  {
    if rows != [] {
      ConcatNoSelfLoops(rows[1..]);
      var c := Concat(rows);
      forall i | 0 <= i < |c| ensures c[i].0 != c[i].1 {
        if i >= |rows[0]| {
          assert c[i] == Concat(rows[1..])[i - |rows[0]|];
        }
      }
    }
  }

  /** No listed connection joins a station to itself. */
  lemma TransportEdgesNoSelfLoops()
    ensures NoSelfLoops(TransportEdges)
  {
    forall k | 0 <= k < |TransportRows| ensures NoSelfLoops(TransportRows[k]) {
    }
    ConcatNoSelfLoops(TransportRows);
  }

  /** Builds the graph from the pairs. Its stations are the endpoints in order of first
      appearance, and every node's adjacency is a valid undirected graph's. */
  function CreateTransportNetworkGraph(edges: seq<(Node, Node)>): (g: Graph)
    requires NoSelfLoops(edges)
    ensures Valid(g)
    ensures g.nodes == Dedup(Endpoints(edges))
  {
    BuildNodes(edges);
    Build(edges)
  }

  /** The nodes are exactly the endpoints of the listed pairs. */
  lemma CreatedNodes(edges: seq<(Node, Node)>, x: Node)
    requires NoSelfLoops(edges)
    ensures x in CreateTransportNetworkGraph(edges).adj <==>
              exists i :: 0 <= i < |edges| && (edges[i].0 == x || edges[i].1 == x)
  {
    EndpointsMembers(edges, x);
  }

  /** Two stations are adjacent exactly when the pair is listed, in either orientation. */
  lemma CreatedEdges(edges: seq<(Node, Node)>, u: Node, v: Node)
    requires NoSelfLoops(edges)
    ensures Adjacent(CreateTransportNetworkGraph(edges), u, v) <==>
              exists i :: 0 <= i < |edges| && (edges[i] == (u, v) || edges[i] == (v, u))
  {
    BuildNeighbours(edges, u);
    ListedNeighboursMembers(edges, u, v);
  }

  /** The city network: the listed connections added to an empty graph. */
  function TransportNetworkGraph(): (g: Graph)
    ensures Valid(g)
  {
    TransportEdgesNoSelfLoops();
    CreateTransportNetworkGraph(TransportEdges)
  }

  /** Station "4" and station "42" are directly connected, in both directions. */
  lemma TransportNetworkSample()
    ensures Adjacent(TransportNetworkGraph(), "4", "42")
    ensures Adjacent(TransportNetworkGraph(), "42", "4")
  {
    TransportEdgesNoSelfLoops();
    assert TransportEdges[3] == TransportRows[0][3] == ("4", "42");
    CreatedEdges(TransportEdges, "4", "42");
    CreatedEdges(TransportEdges, "42", "4");
  }
}
