/**
 The fixed seven-vertex sample graph of the demonstration driver, with the
 answers that follow from its edges and each query's documented contract,
 proved against the definitions and against the graph object's methods.
 */
module GraphTester {
  import opened Graphs
  import opened MyGraphs

  function SampleVertices(): set<Vertex>
  {
    {1, 2, 3, 4, 5, 6, 7}
  }

  /** 1->2, 1->3, 1->4, 2->4, 2->5, 3->6, 4->3, 4->6, 4->7, 5->4, 5->7, 7->6, all of cost 0. */
  function SampleEdges(): seq<Edge>
  {
    [Edge(1, 2, 0), Edge(1, 3, 0), Edge(1, 4, 0),
     Edge(2, 4, 0), Edge(2, 5, 0),
     Edge(3, 6, 0),
     Edge(4, 3, 0), Edge(4, 6, 0), Edge(4, 7, 0),
     Edge(5, 4, 0), Edge(5, 7, 0),
     Edge(7, 6, 0)]
  }

  lemma SampleOutSets()
    ensures OutSet(SampleEdges(), 3) == {6}
    ensures OutSet(SampleEdges(), 4) == {3, 6, 7}
    ensures OutSet(SampleEdges(), 5) == {4, 7}
    ensures OutSet(SampleEdges(), 6) == {}
    ensures OutSet(SampleEdges(), 7) == {6}
  {
  }

  /** Only vertex 1 has no incoming edge. */
  lemma SampleSources()
    ensures forall u :: u in SampleVertices() ==> (InSet(SampleEdges(), u) == {} <==> u == 1)
  {
    var es := SampleEdges();
    assert es[0] == Edge(1, 2, 0) && es[1] == Edge(1, 3, 0) && es[2] == Edge(1, 4, 0);
    assert es[4] == Edge(2, 5, 0) && es[5] == Edge(3, 6, 0);
    assert 1 in InSet(es, 2) && 1 in InSet(es, 3) && 1 in InSet(es, 4);
    assert 2 in InSet(es, 5) && 3 in InSet(es, 6) && 4 in InSet(es, 7);
  }

  /** From 5 one reaches 4, then 3, 6 and 7, but never 1 or 2. */
  lemma {:induction false} SampleReachableFrom5()
    ensures ReachableFrom(SampleEdges(), 5) == {3, 4, 5, 6, 7}
  {
    var es := SampleEdges();
    var s := {3, 4, 5, 6, 7};
    SampleOutSets();
    assert ClosedUnder(es, s);
    ReachableRefl(es, 5);
    ReachableStep(es, 5, 5, 4);
    ReachableStep(es, 5, 4, 3);
    ReachableStep(es, 5, 4, 6);
    ReachableStep(es, 5, 4, 7);
    assert es[0].from == 1 && es[0].to == 2;
    ReachableFromCharacterized(es, 5, s);
  }

  // The queries run on the sample graph, each with the answer that follows from the
  // sample's edges and the query's documented contract.

  method SampleAdjacentVertices() returns (adjacent: Result<set<Vertex>>)
    ensures adjacent == Success({3, 6, 7})
  {
    var graph := new MyGraph(SampleVertices(), SampleEdges());
    SampleOutSets();
    adjacent := graph.AdjacentVertices(4);
  }

  method SampleReachableVertices() returns (reachable: set<Vertex>)
    ensures reachable == {3, 4, 5, 6, 7}
  {
    var graph := new MyGraph(SampleVertices(), SampleEdges());
    SampleReachableFrom5();
    reachable := graph.ReachableVertices(5);
  }

  method SampleMinNodes() returns (sources: set<Vertex>)
    ensures sources == {1}
  {
    var graph := new MyGraph(SampleVertices(), SampleEdges());
    SampleSources();
    sources := graph.MinNodes();
  }

  /** No edge 6 -> 3 (6 has no outgoing edge at all). */
  method SampleIsAdjacentMissing() returns (noEdge: Result<int>)
    ensures noEdge == Success(-1)
  {
    var graph := new MyGraph(SampleVertices(), SampleEdges());
    SampleOutSets();
    NeighborDuality(SampleEdges(), 6, 3);
    noEdge := graph.IsAdjacent(6, 3);
  }

  /** The edge 4 -> 6 exists and costs 0. */
  method SampleIsAdjacentPresent() returns (edge: Result<int>)
    ensures edge == Success(0)
  {
    var graph := new MyGraph(SampleVertices(), SampleEdges());
    var es := SampleEdges();
    assert es[7] == Edge(4, 6, 0);
    assert forall i :: 0 <= i < |es| ==> es[i].cost == 0;
    edge := graph.IsAdjacent(4, 6);
  }
}
