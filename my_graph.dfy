/**
 The graph object: a fixed collection of vertices and a sequence of edges,
 supplied at construction and never changed afterwards, with the queries
 that scan them. Every query builds its answer set step by step in a loop,
 and its contract ties the answer to the definitions in module Graphs.
 */
module MyGraphs {
  import opened Graphs

  class MyGraph {
    /** The vertices in this graph. */
    const myVertices: set<Vertex>
    /** The edges in this graph, in scanning order. */
    const myEdges: seq<Edge>

    /** Stores the given collections; nothing else happens at construction. */
    constructor (v: set<Vertex>, e: seq<Edge>)
      ensures myVertices == v && myEdges == e
    {
      myVertices := v;
      myEdges := e;
    }

    /** The set of all vertices with an edge into v, one scan over the edges. */
    method InNeighbors(v: Vertex) returns (result: set<Vertex>)
      ensures result == InSet(myEdges, v)
      ensures forall u :: u in result <==> HasEdge(myEdges, u, v)
    {
      result := {};
      for i := 0 to |myEdges|
        invariant result == InSet(myEdges[..i], v)
      {
        var e := myEdges[i];
        InSetAppend(myEdges[..i], e, v);
        assert myEdges[..i + 1] == myEdges[..i] + [e];
        if e.to == v {
          result := result + {e.from};
        }
      }
      assert myEdges[..|myEdges|] == myEdges;
      forall u ensures u in result <==> HasEdge(myEdges, u, v) {
        NeighborDuality(myEdges, u, v);
      }
    }

    /** The set of all vertices with an edge out of v, one scan over the edges. */
    method OutNeighbors(v: Vertex) returns (result: set<Vertex>)
      ensures result == OutSet(myEdges, v)
      ensures forall w :: w in result <==> HasEdge(myEdges, v, w)
    {
      result := {};
      for i := 0 to |myEdges|
        invariant result == OutSet(myEdges[..i], v)
      {
        var e := myEdges[i];
        OutSetAppend(myEdges[..i], e, v);
        assert myEdges[..i + 1] == myEdges[..i] + [e];
        if e.from == v {
          result := result + {e.to};
        }
      }
      assert myEdges[..|myEdges|] == myEdges;
      forall w ensures w in result <==> HasEdge(myEdges, v, w) {
        NeighborDuality(myEdges, v, w);
      }
    }

    /** The vertices of the graph that no edge enters. */
    method MinNodes() returns (result: set<Vertex>)
      ensures result <= myVertices
      ensures forall u :: u in result <==> u in myVertices && InSet(myEdges, u) == {}
      ensures forall u :: u in result <==> u in myVertices && forall e :: e in myEdges ==> e.to != u
    {
      result := {};
      var rest := myVertices;
      while rest != {}
        invariant rest <= myVertices
        invariant forall u :: u in result <==> u in myVertices - rest && InSet(myEdges, u) == {}
        decreases rest
      {
        var node :| node in rest;
        var inNbrs := InNeighbors(node);
        if inNbrs == {} {
          result := result + {node};
        }
        rest := rest - {node};
      }
      forall u ensures InSet(myEdges, u) == {} <==> forall e :: e in myEdges ==> e.to != u {
        if e :| e in myEdges && e.to == u {
          assert e.from in InSet(myEdges, u);
        }
      }
    }

    /**
     The vertices w with an edge v -> w; empty when v has no outgoing edge.
     A vertex that is not in the graph is an IllegalArgument error.
     */
    method AdjacentVertices(v: Vertex) returns (r: Result<set<Vertex>>)
      ensures r.Failure? <==> v !in myVertices
      ensures r.Success? ==> r.value == OutSet(myEdges, v)
      ensures r.Success? ==> forall w :: w in r.value <==> HasEdge(myEdges, v, w)
    {
      if v !in myVertices {
        return Failure(IllegalArgument);
      }
      var adjacent := OutNeighbors(v);
      return Success(adjacent);
    }

    /**
     Breadth-first, level by level: the frontier's out-neighbours not yet
     seen become the next frontier. `result` only grows, so the loop stops
     on cyclic graphs too.
     */
    method ReachableVertices(v: Vertex) returns (result: set<Vertex>)
      ensures v in result
      ensures ClosedUnder(myEdges, result)
      ensures forall w :: w in result ==> Reachable(myEdges, v, w)
      ensures result == ReachableFrom(myEdges, v)
    {
      ghost var universe := Endpoints(myEdges) + {v};
      result := {v};
      var frontier := {v};
      ReachableRefl(myEdges, v);
      while frontier != {}
        invariant v in result && frontier <= result <= universe
        invariant forall w :: w in result ==> Reachable(myEdges, v, w)
        invariant forall u :: u in result && u !in frontier ==> OutSet(myEdges, u) <= result
        decreases universe - result, frontier
      {
        var nextFrontier := {};
        var rest := frontier;
        while rest != {}
          invariant rest <= frontier
          invariant nextFrontier <= Endpoints(myEdges)
          invariant forall u :: u in frontier && u !in rest ==> OutSet(myEdges, u) <= nextFrontier
          invariant forall x :: x in nextFrontier ==> Reachable(myEdges, v, x)
          decreases rest
        {
          var current :| current in rest;
          var outNodes := OutNeighbors(current);
          forall x | x in outNodes ensures Reachable(myEdges, v, x) {
            ReachableStep(myEdges, v, current, x);
          }
          OutSetInEndpoints(myEdges, current);
          nextFrontier := nextFrontier + outNodes;
          rest := rest - {current};
        }
        nextFrontier := nextFrontier - result;
        result := result + nextFrontier;
        frontier := nextFrontier;
      }
      ReachableFromCharacterized(myEdges, v, result);
    }

    /**
     The cost of an edge a -> b, or -1 when there is none. With parallel
     edges a -> b the first one in scanning order decides. Either vertex
     missing from the graph is an IllegalArgument error.
     */
    method IsAdjacent(a: Vertex, b: Vertex) returns (r: Result<int>)
      ensures r.Failure? <==> a !in myVertices || b !in myVertices
      ensures r.Success? && !HasEdge(myEdges, a, b) ==> r.value == -1
      ensures r.Success? && HasEdge(myEdges, a, b) ==>
        exists i :: 0 <= i < |myEdges| && myEdges[i] == Edge(a, b, r.value) &&
          forall j :: 0 <= j < i ==> !(myEdges[j].from == a && myEdges[j].to == b)
      ensures r.Success? && NonNegativeCosts(myEdges) ==> (r.value == -1 <==> !HasEdge(myEdges, a, b))
    {
      if a !in myVertices || b !in myVertices {
        return Failure(IllegalArgument);
      }
      for i := 0 to |myEdges|
        invariant forall j :: 0 <= j < i ==> !(myEdges[j].from == a && myEdges[j].to == b)
      {
        var e := myEdges[i];
        if e.from == a && e.to == b {
          return Success(e.cost);
        }
      }
      return Success(-1);
    }
  }
}
