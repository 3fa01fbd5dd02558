/**
  Directed weighted graphs as adjacency lists, walks through them, and what
  "shortest distance" means. The Dijkstra engine, the batch runner and the
  distributed coordinator are all specified in these terms.
 */
module Graphs {

  /** The "no path" sentinel: std::numeric_limits<int>::max() for a 32-bit int. */
  const INT_MAX: int := 0x7fff_ffff

  /** One entry of an adjacency list, the pair (destination, weight). */
  datatype Edge = Edge(dest: int, weight: int)

  /** Vertex y's outgoing edges are g[y], in insertion order. */
  type AdjList = seq<seq<Edge>>

  /** One step of a walk: the edge `edge` taken out of vertex `src`. */
  datatype Arc = Arc(src: int, edge: Edge)

  /** Every destination names a vertex of the graph. */
  ghost predicate WellFormed(g: AdjList)
  {
    forall y, e :: 0 <= y < |g| && e in g[y] ==> 0 <= e.dest < |g|
  }

  ghost predicate NonNegativeWeights(g: AdjList)
  {
    forall y, e :: 0 <= y < |g| && e in g[y] ==> 0 <= e.weight
  }

  // ---------------------------------------------------------------------
  // Walks

  /** p is a directed walk from s to t; each arc is an edge present in g. */
  ghost predicate IsWalk(g: AdjList, s: int, t: int, p: seq<Arc>)
    decreases |p|
  {
    if p == [] then s == t
    else
      var a := p[|p| - 1];
      && 0 <= a.src < |g|
      && a.edge in g[a.src]
      && a.edge.dest == t
      && IsWalk(g, s, a.src, p[..|p| - 1])
  }

  /** Total weight of a walk. */
  function Cost(p: seq<Arc>): int
  {
    if p == [] then 0 else Cost(p[..|p| - 1]) + p[|p| - 1].edge.weight
  }

  ghost predicate Reachable(g: AdjList, s: int, t: int)
  {
    exists p :: IsWalk(g, s, t, p)
  }

  /**
    d is the shortest distance from s to t: the least cost of a directed walk
    when t is reachable (and then below the sentinel), INT_MAX otherwise.
   */
  ghost predicate IsShortestDistance(g: AdjList, s: int, t: int, d: int)
  {
    if Reachable(g, s, t) then
      && d < INT_MAX
      && (exists p :: IsWalk(g, s, t, p) && Cost(p) == d)
      && (forall p :: IsWalk(g, s, t, p) ==> d <= Cost(p))
    else
      d == INT_MAX
  }

  /** r holds, for every vertex t, the shortest distance from s to t. */
  ghost predicate IsDistanceVector(g: AdjList, s: int, r: seq<int>)
  {
    |r| == |g| && forall t :: 0 <= t < |g| ==> IsShortestDistance(g, s, t, r[t])
  }

  /** The empty walk is the only walk of length zero. */
  lemma EmptyWalk(g: AdjList, s: int)
    ensures IsWalk(g, s, s, []) && Cost([]) == 0
  {
  }

  /** A walk followed by an edge out of its end is a walk, and costs that much more. */
  lemma WalkExtend(g: AdjList, s: int, p: seq<Arc>, a: Arc)
    requires IsWalk(g, s, a.src, p)
    requires 0 <= a.src < |g| && a.edge in g[a.src]
    ensures IsWalk(g, s, a.edge.dest, p + [a])
    ensures Cost(p + [a]) == Cost(p) + a.edge.weight
  {
    assert (p + [a])[..|p|] == p;
  }

  /** With non-negative weights no walk costs less than nothing. */
  lemma {:induction false} CostNonNegative(g: AdjList, s: int, t: int, p: seq<Arc>)
    requires NonNegativeWeights(g)
    requires IsWalk(g, s, t, p)
    ensures Cost(p) >= 0
    decreases |p|
  {
    if p != [] {
      var a := p[|p| - 1];
      CostNonNegative(g, s, a.src, p[..|p| - 1]);
    }
  }

  // ---------------------------------------------------------------------
  // Certificates for distance vectors

  /** Every edge is relaxed under r: no edge y -> x offers a shorter value for x. */
  ghost predicate Relaxed(g: AdjList, r: seq<int>)
    requires WellFormed(g) && |r| == |g|
  {
    forall y, e :: 0 <= y < |g| && e in g[y] ==> r[e.dest] <= r[y] + e.weight
  }

  /** The vertices below the sentinel are closed under taking an edge. */
  ghost predicate FiniteClosed(g: AdjList, r: seq<int>)
    requires WellFormed(g) && |r| == |g|
  {
    forall y, e :: 0 <= y < |g| && e in g[y] && r[y] < INT_MAX ==> r[e.dest] < INT_MAX
  }

  /** If every edge is relaxed and r[s] <= 0, then r is a lower bound on every walk's cost. */
  lemma {:induction false} RelaxedIsLowerBound(g: AdjList, r: seq<int>, s: int, t: int, p: seq<Arc>)
    requires WellFormed(g) && |r| == |g| && 0 <= s < |g|
    requires Relaxed(g, r) && r[s] <= 0
    requires IsWalk(g, s, t, p)
    ensures 0 <= t < |g| && r[t] <= Cost(p)
    decreases |p|
  {
    if p != [] {
      var a := p[|p| - 1];
      RelaxedIsLowerBound(g, r, s, a.src, p[..|p| - 1]);
    }
  }

  /** If the finite vertices are closed under edges and s is finite, so is every vertex reachable from s. */
  lemma {:induction false} ClosedReachesFinite(g: AdjList, r: seq<int>, s: int, t: int, p: seq<Arc>)
    requires WellFormed(g) && |r| == |g| && 0 <= s < |g|
    requires FiniteClosed(g, r) && r[s] < INT_MAX
    requires IsWalk(g, s, t, p)
    ensures 0 <= t < |g| && r[t] < INT_MAX
    decreases |p|
  {
    if p != [] {
      var a := p[|p| - 1];
      ClosedReachesFinite(g, r, s, a.src, p[..|p| - 1]);
    }
  }

  /** Each finite entry r[t] is the cost of walks[t], a walk from s to t. */
  ghost predicate WalksRealise(g: AdjList, s: int, r: seq<int>, walks: seq<seq<Arc>>)
    requires |r| == |g| && |walks| == |g|
  {
    forall t :: 0 <= t < |g| && r[t] < INT_MAX ==> IsWalk(g, s, t, walks[t]) && Cost(walks[t]) == r[t]
  }

  /**
    A certificate that r is the distance vector from s: r[s] is 0, every edge is
    relaxed, the finite entries are closed under edges, and every finite entry is
    the cost of a walk given in `walks`.
   */
  lemma CertifiedDistanceVector(g: AdjList, s: int, r: seq<int>, walks: seq<seq<Arc>>)
    requires WellFormed(g) && |r| == |g| && |walks| == |g| && 0 <= s < |g|
    requires r[s] == 0
    requires forall t :: 0 <= t < |g| ==> r[t] <= INT_MAX
    requires Relaxed(g, r) && FiniteClosed(g, r)
    requires WalksRealise(g, s, r, walks)
    ensures IsDistanceVector(g, s, r)
  {
    forall t | 0 <= t < |g| ensures IsShortestDistance(g, s, t, r[t]) {
      if r[t] < INT_MAX {
        assert IsWalk(g, s, t, walks[t]);
        forall q | IsWalk(g, s, t, q) ensures r[t] <= Cost(q) {
          RelaxedIsLowerBound(g, r, s, t, q);
        }
      } else {
        forall p | IsWalk(g, s, t, p) ensures false {
          ClosedReachesFinite(g, r, s, t, p);
        }
      }
    }
  }

  // ---------------------------------------------------------------------
  // Uniqueness: the shortest distance is a function of the graph

  lemma ShortestDistanceUnique(g: AdjList, s: int, t: int, d1: int, d2: int)
    requires IsShortestDistance(g, s, t, d1) && IsShortestDistance(g, s, t, d2)
    ensures d1 == d2
  {
    if Reachable(g, s, t) {
      var p1 :| IsWalk(g, s, t, p1) && Cost(p1) == d1;
      var p2 :| IsWalk(g, s, t, p2) && Cost(p2) == d2;
      assert d1 <= Cost(p2) && d2 <= Cost(p1);
    }
  }

  lemma DistanceVectorUnique(g: AdjList, s: int, r1: seq<int>, r2: seq<int>)
    requires IsDistanceVector(g, s, r1) && IsDistanceVector(g, s, r2)
    ensures r1 == r2
  {
    forall t | 0 <= t < |g| ensures r1[t] == r2[t] {
      ShortestDistanceUnique(g, s, t, r1[t], r2[t]);
    }
  }

  /** The source is at distance 0 from itself, and no distance is negative. */
  lemma DistanceVectorBasics(g: AdjList, s: int, r: seq<int>)
    requires NonNegativeWeights(g) && 0 <= s < |g|
    requires IsDistanceVector(g, s, r)
    ensures r[s] == 0
    ensures forall t :: 0 <= t < |g| ==> 0 <= r[t] <= INT_MAX
  {
    EmptyWalk(g, s);
    assert IsShortestDistance(g, s, s, r[s]);
    forall t | 0 <= t < |g| ensures 0 <= r[t] <= INT_MAX {
      assert IsShortestDistance(g, s, t, r[t]);
      if Reachable(g, s, t) {
        var p :| IsWalk(g, s, t, p) && Cost(p) == r[t];
        CostNonNegative(g, s, t, p);
      }
    }
  }

  // ---------------------------------------------------------------------
  // Weight sums, used to show that no tentative distance reaches the sentinel

  /** Sum of the weights of one adjacency list. */
  function ListWeight(es: seq<Edge>): int
  {
    if es == [] then 0 else ListWeight(es[..|es| - 1]) + es[|es| - 1].weight
  }

  /** Sum of the weights of the lists of vertices 0 .. k-1. */
  function PrefixWeight(g: AdjList, k: nat): int
    requires k <= |g|
  {
    if k == 0 then 0 else PrefixWeight(g, k - 1) + ListWeight(g[k - 1])
  }

  /** Sum of all edge weights of the graph. */
  function TotalWeight(g: AdjList): int
  {
    PrefixWeight(g, |g|)
  }

  /** Sum of the weights of the lists of the vertices below k that lie in S. */
  function SetWeight(g: AdjList, S: set<int>, k: nat): int
    requires k <= |g|
  {
    if k == 0 then 0
    else SetWeight(g, S, k - 1) + (if k - 1 in S then ListWeight(g[k - 1]) else 0)
  }

  lemma {:induction false} EdgeWeightAtMost(es: seq<Edge>, e: Edge)
    requires forall f :: f in es ==> 0 <= f.weight
    requires e in es
    ensures 0 <= e.weight <= ListWeight(es)
  {
    var last := es[|es| - 1];
    var init := es[..|es| - 1];
    assert es == init + [last];
    ListWeightNonNegative(init);
    if e != last {
      EdgeWeightAtMost(init, e);
    }
  }

  lemma {:induction false} ListWeightNonNegative(es: seq<Edge>)
    requires forall f :: f in es ==> 0 <= f.weight
    ensures 0 <= ListWeight(es)
  {
    if es != [] {
      var init := es[..|es| - 1];
      assert forall f :: f in init ==> f in es;
      ListWeightNonNegative(init);
    }
  }

  /** Adding a vertex u to S adds u's list weight to the sum (when u is counted, u < k). */
  lemma {:induction false} SetWeightAdd(g: AdjList, S: set<int>, u: int, k: nat)
    requires k <= |g| && 0 <= u && u !in S
    ensures SetWeight(g, S + {u}, k) == SetWeight(g, S, k) + (if u < k then ListWeight(g[u]) else 0)
  {
    if k > 0 {
      SetWeightAdd(g, S, u, k - 1);
    }
  }

  /** A partial sum lies between 0 and the sum over all the vertices below k. */
  lemma {:induction false} SetWeightBounded(g: AdjList, S: set<int>, k: nat)
    requires k <= |g| && NonNegativeWeights(g)
    ensures 0 <= SetWeight(g, S, k) <= PrefixWeight(g, k)
  {
    if k > 0 {
      SetWeightBounded(g, S, k - 1);
      ListWeightNonNegative(g[k - 1]);
    }
  }
}
