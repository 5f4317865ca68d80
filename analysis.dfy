/** analyze_graph in its two variants: one asks the library whether the graph is connected before
    reading the diameter, the other reads the diameter unconditionally. */
module Analysis {
  import opened GraphModel
  import opened Degrees
  import opened Connectivity

  /** Why an analysis stops: the average degree divides by a node count of zero, or the library
      refuses the diameter of a disconnected graph. */
  datatype AnalysisError = ZeroDivision | NotConnected

  /** The analysis record; `diameter` is None where the guarded variant skips it. */
  datatype Report = Report(
    numNodes: nat,
    numEdges: nat,
    degreeDistribution: seq<nat>,
    degreeCount: map<nat, nat>,
    averageDegree: real,
    connectedComponents: nat,
    diameter: Option<nat>)

  /** The degree sum over the node count: twice the edge count per node, and a division by zero
      on the empty graph. */
  function AverageDegree(g: Graph): (r: Result<real, AnalysisError>)
    requires Valid(g)
    ensures r.Failure? <==> |g.nodes| == 0
    ensures r.Failure? ==> r.error == ZeroDivision
    ensures r.Success? ==> r.value == (2 * NumberOfEdges(g)) as real / (|g.nodes| as real)
  {
    Handshake(g);
    if |g.nodes| == 0 then Failure(ZeroDivision)
    else Success(DegreeSum(g) as real / |g.nodes| as real)
  }

  /** The fields both variants fill in the same way. */
  ghost predicate Describes(g: Graph, rep: Report)
    requires Valid(g)
  {
    && rep.numNodes == |g.nodes|
    && rep.numEdges == NumberOfEdges(g)
    && 2 * rep.numEdges == Sum(rep.degreeDistribution)
    && rep.degreeDistribution == DegreeDistribution(g)
    && (forall d :: d in rep.degreeCount <==> d in rep.degreeDistribution)
    && (forall d :: d in rep.degreeCount ==> rep.degreeCount[d] == Occurrences(rep.degreeDistribution, d))
    && Total(rep.degreeCount) == rep.numNodes
    && rep.numNodes > 0
    && rep.averageDegree == (2 * rep.numEdges) as real / (rep.numNodes as real)
    && rep.connectedComponents == ComponentCount(g)
  }

  /** The statistics shared by both variants, up to the connected-component count. */
  method Statistics(g: Graph) returns (r: Result<Report, AnalysisError>)
    requires Valid(g)
    ensures r.Failure? <==> |g.nodes| == 0
    ensures r.Failure? ==> r.error == ZeroDivision
    ensures r.Success? ==> Describes(g, r.value) && r.value.diameter == None
  {
    var numNodes := |g.nodes|;
    var numEdges := NumberOfEdges(g);
    var degreeDistribution := DegreeDistribution(g);
    var degreeCount := DegreeHistogram(g);
    var average := AverageDegree(g);
    if average.Failure? {
      return Failure(average.error);
    }
    Handshake(g);
    var components := ComponentCount(g);
    r := Success(Report(numNodes, numEdges, degreeDistribution, degreeCount, average.value, components, None));
  }

  /** The guarded variant: the diameter is reported exactly when the graph is connected. */
  method AnalyzeGraph(g: Graph) returns (r: Result<Report, AnalysisError>)
    requires Valid(g)
    ensures r.Failure? <==> |g.nodes| == 0
    ensures r.Failure? ==> r.error == ZeroDivision
    ensures r.Success? ==> Describes(g, r.value)
    ensures r.Success? ==> (r.value.diameter.Some? <==> Connected(g))
    ensures r.Success? && r.value.diameter.Some? ==> r.value.diameter.value == Diameter(g)
  {
    r := Statistics(g);
    if r.Success? && Connected(g) {
      r := Success(r.value.(diameter := Some(Diameter(g))));
    }
  }

  /** The unguarded variant: a disconnected graph makes the library's diameter fail. */
  method AnalyzeGraphUnguarded(g: Graph) returns (r: Result<Report, AnalysisError>)
    requires Valid(g)
    ensures r.Failure? <==> |g.nodes| == 0 || !Connected(g)
    ensures r.Failure? ==> (r.error == ZeroDivision <==> |g.nodes| == 0)
    ensures r.Success? ==> Describes(g, r.value) && r.value.diameter == Some(Diameter(g))
  {
    r := Statistics(g);
    if r.Success? {
      if !Connected(g) {
        return Failure(NotConnected);
      }
      r := Success(r.value.(diameter := Some(Diameter(g))));
    }
  }
}
