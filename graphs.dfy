/**
 The mathematical view of a directed, weighted graph given by a sequence of
 edges: one-step neighbourhoods, directed paths and reachability. The class
 in module MyGraphs computes these sets with loops; this module defines what
 those loops must compute and proves the facts the class relies on.
 */
module Graphs {

  /** Vertices are opaque identities, compared by value. */
  type Vertex = nat

  /** A directed edge `from -> to` with its cost. */
  datatype Edge = Edge(from: Vertex, to: Vertex, cost: int)

  /** The argument errors the graph's operations report. */
  datatype Error = IllegalArgument

  datatype Result<T> = Success(value: T) | Failure(error: Error)

  /** The vertices w such that some edge v -> w is in `edges`. */
  function OutSet(edges: seq<Edge>, v: Vertex): set<Vertex>
  {
    set e | e in edges && e.from == v :: e.to
  }

  /** The vertices u such that some edge u -> v is in `edges`. */
  function InSet(edges: seq<Edge>, v: Vertex): set<Vertex>
  {
    set e | e in edges && e.to == v :: e.from
  }

  /** Every vertex that is an endpoint of some edge. */
  function Endpoints(edges: seq<Edge>): set<Vertex>
  {
    (set e | e in edges :: e.from) + (set e | e in edges :: e.to)
  }

  predicate HasEdge(edges: seq<Edge>, a: Vertex, b: Vertex)
  {
    exists e :: e in edges && e.from == a && e.to == b
  }

  predicate NonNegativeCosts(edges: seq<Edge>)
  {
    forall e :: e in edges ==> e.cost >= 0
  }

  /** `p` is a non-empty directed walk: each vertex is an out-neighbour of the one before. */
  ghost predicate IsPath(edges: seq<Edge>, p: seq<Vertex>)
  {
    |p| > 0 && forall i :: 0 <= i < |p| - 1 ==> p[i + 1] in OutSet(edges, p[i])
  }

  /** A directed path of length 0 or more leads from u to w. */
  ghost predicate Reachable(edges: seq<Edge>, u: Vertex, w: Vertex)
  {
    exists p :: IsPath(edges, p) && p[0] == u && p[|p| - 1] == w
  }

  /** The set of all vertices reachable from v (v itself included). */
  ghost function ReachableFrom(edges: seq<Edge>, v: Vertex): set<Vertex>
  {
    set w | w in Endpoints(edges) + {v} && Reachable(edges, v, w)
  }

  /** No edge leaves `s`. */
  ghost predicate ClosedUnder(edges: seq<Edge>, s: set<Vertex>)
  {
    forall u :: u in s ==> OutSet(edges, u) <= s
  }

  // ---------------------------------------------------------------------
  // One-step neighbourhoods
  // ---------------------------------------------------------------------

  /** u is an in-neighbour of v exactly when v is an out-neighbour of u. */
  lemma NeighborDuality(edges: seq<Edge>, u: Vertex, v: Vertex)
    ensures u in InSet(edges, v) <==> v in OutSet(edges, u)
    ensures v in OutSet(edges, u) <==> HasEdge(edges, u, v)
  {
  }

  /** Scanning one more edge a -> b adds only b to the out-set of a. */
  lemma OutSetAppend(edges: seq<Edge>, e: Edge, v: Vertex)
    ensures OutSet(edges + [e], v) == if e.from == v then OutSet(edges, v) + {e.to} else OutSet(edges, v)
  {
  }

  /** Scanning one more edge a -> b adds only a to the in-set of b. */
  lemma InSetAppend(edges: seq<Edge>, e: Edge, v: Vertex)
    ensures InSet(edges + [e], v) == if e.to == v then InSet(edges, v) + {e.from} else InSet(edges, v)
  {
  }

  /** An edge repeated in the sequence changes no neighbourhood: results are sets. */
  lemma ParallelEdgesCollapse(edges: seq<Edge>, e: Edge, v: Vertex)
    requires e in edges
    ensures OutSet(edges + [e], v) == OutSet(edges, v)
    ensures InSet(edges + [e], v) == InSet(edges, v)
  {
  }

  /** Every out-neighbour is an endpoint of some edge. */
  lemma OutSetInEndpoints(edges: seq<Edge>, v: Vertex)
    ensures OutSet(edges, v) <= Endpoints(edges)
  {
  }

  // ---------------------------------------------------------------------
  // Paths and reachability
  // ---------------------------------------------------------------------

  /** Every vertex reaches itself by the path of length 0. */
  lemma ReachableRefl(edges: seq<Edge>, v: Vertex)
    ensures Reachable(edges, v, v)
  {
    assert IsPath(edges, [v]);
  }

  /** A path to u extended by an edge u -> x is a path to x. */
  lemma ReachableStep(edges: seq<Edge>, v: Vertex, u: Vertex, x: Vertex)
    requires Reachable(edges, v, u)
    requires x in OutSet(edges, u)
    ensures Reachable(edges, v, x)
  {
    var p :| IsPath(edges, p) && p[0] == v && p[|p| - 1] == u;
    var q := p + [x];
    assert forall i :: 0 <= i < |p| ==> q[i] == p[i];
    assert IsPath(edges, q);
  }

  /** A path that starts inside a closed set never leaves it. */
  lemma {:induction false} PathStaysInClosed(edges: seq<Edge>, s: set<Vertex>, p: seq<Vertex>)
    requires ClosedUnder(edges, s)
    requires IsPath(edges, p) && p[0] in s
    ensures p[|p| - 1] in s
  {
    if |p| > 1 {
      var q := p[..|p| - 1];
      assert IsPath(edges, q) by {
        forall i | 0 <= i < |q| - 1 ensures q[i + 1] in OutSet(edges, q[i]) {
          assert q[i] == p[i] && q[i + 1] == p[i + 1];
        }
      }
      PathStaysInClosed(edges, s, q);
      assert p[|p| - 1] in OutSet(edges, p[|p| - 2]);
    }
  }

  /** A closed set containing v contains everything reachable from v. */
  lemma ClosedContainsReachable(edges: seq<Edge>, s: set<Vertex>, v: Vertex, w: Vertex)
    requires ClosedUnder(edges, s) && v in s
    requires Reachable(edges, v, w)
    ensures w in s
  {
    var p :| IsPath(edges, p) && p[0] == v && p[|p| - 1] == w;
    PathStaysInClosed(edges, s, p);
  }

  /**
   ReachableFrom(edges, v) is the least set that contains v and is closed
   under out-neighbours.
   */
  lemma ReachableFromIsLeastClosed(edges: seq<Edge>, v: Vertex, s: set<Vertex>)
    ensures v in ReachableFrom(edges, v)
    ensures ClosedUnder(edges, ReachableFrom(edges, v))
    ensures ClosedUnder(edges, s) && v in s ==> ReachableFrom(edges, v) <= s
  {
    var r := ReachableFrom(edges, v);
    ReachableRefl(edges, v);
    forall u, x | u in r && x in OutSet(edges, u) ensures x in r {
      ReachableStep(edges, v, u, x);
      OutSetInEndpoints(edges, u);
    }
    if ClosedUnder(edges, s) && v in s {
      forall w | w in r ensures w in s {
        ClosedContainsReachable(edges, s, v, w);
      }
    }
  }

  /** A set that contains v, is closed, and holds only reachable vertices is exactly ReachableFrom. */
  lemma ReachableFromCharacterized(edges: seq<Edge>, v: Vertex, s: set<Vertex>)
    requires v in s && ClosedUnder(edges, s)
    requires forall w :: w in s ==> w in Endpoints(edges) + {v} && Reachable(edges, v, w)
    ensures s == ReachableFrom(edges, v)
  {
    ReachableFromIsLeastClosed(edges, v, s);
  }

  /** Reachability is transitive. */
  lemma {:induction false} ReachableTrans(edges: seq<Edge>, u: Vertex, v: Vertex, w: Vertex)
    requires Reachable(edges, u, v) && Reachable(edges, v, w)
    ensures Reachable(edges, u, w)
  {
    var p :| IsPath(edges, p) && p[0] == u && p[|p| - 1] == v;
    var q :| IsPath(edges, q) && q[0] == v && q[|q| - 1] == w;
    var pq := p + q[1..];
    forall i | 0 <= i < |pq| - 1 ensures pq[i + 1] in OutSet(edges, pq[i]) {
      if i < |p| - 1 {
        assert pq[i] == p[i] && pq[i + 1] == p[i + 1];
      } else {
        assert pq[i] == q[i - |p| + 1] && pq[i + 1] == q[i - |p| + 2];
      }
    }
    assert IsPath(edges, pq);
  }

  /** The reachable set of a vertex reachable from v lies inside the reachable set of v. */
  lemma ReachableFromTransitive(edges: seq<Edge>, v: Vertex, w: Vertex)
    requires w in ReachableFrom(edges, v)
    ensures ReachableFrom(edges, w) <= ReachableFrom(edges, v)
  {
    forall x | x in ReachableFrom(edges, w) ensures x in ReachableFrom(edges, v) {
      ReachableTrans(edges, v, w, x);
    }
  }

  /** Adding edges can only enlarge what is reachable. */
  lemma ReachableMonotone(edges: seq<Edge>, more: seq<Edge>, v: Vertex)
    requires forall e :: e in edges ==> e in more
    ensures ReachableFrom(edges, v) <= ReachableFrom(more, v)
  {
  }
}
