/**
  The edge-placement policy of generate_random_graph. The C library's rand()
  is replaced by a stream `rand` supplied by the caller: the k-th call to
  rand() (counting from 0) returns rand(k).
 */
module RandomGraphs {
  import opened Arith
  import opened Graphs

  /** Default value of generate_random_graph's max_weight parameter. */
  const DEFAULT_MAX_WEIGHT: int := 10

  /** Vertex i's forward neighbour: one of the next (up to) 5 vertices. */
  function NextNode(n: int, i: int, r: nat): (v: int)
    requires 0 <= i < n - 1
    ensures i + 1 <= v <= Min(i + 5, n - 1)
  {
    Min(i + 1 + r % Min(5, n - i - 1), n - 1)
  }

  /** Vertex i's backward neighbour: one of the previous (up to) 5 vertices. */
  function PrevNode(i: int, r: nat): (v: int)
    requires 0 < i
    ensures Max(i - 5, 0) <= v <= i - 1
  {
    Max(i - 1 - r % Min(5, i), 0)
  }

  /** An edge weight drawn from r, in [1, maxWeight]. */
  function EdgeWeight(maxWeight: int, r: nat): (w: int)
    requires maxWeight >= 1
    ensures 1 <= w <= maxWeight
  {
    r % maxWeight + 1
  }

  /**
    Index of the first rand() call made for vertex i, when i is below the last
    vertex: vertex 0 draws twice (one forward edge), every later such vertex
    four times (a forward and a backward edge, two draws each).
   */
  function DrawIndex(i: nat): nat
  {
    if i == 0 then 0 else 4 * i - 2
  }

  /** The forward edge of vertex i (none for the last vertex), drawn at DrawIndex(i). */
  function ForwardEdges(n: int, maxWeight: int, rand: nat -> nat, i: int): seq<Edge>
    requires 0 <= i < n && maxWeight >= 1
  {
    var k := DrawIndex(i);
    if i < n - 1 then [Edge(NextNode(n, i, rand(k)), EdgeWeight(maxWeight, rand(k + 1)))] else []
  }

  /** The backward edge of vertex i (none for vertex 0), drawn right after the forward edge. */
  function BackwardEdges(n: int, maxWeight: int, rand: nat -> nat, i: int): seq<Edge>
    requires 0 <= i < n && maxWeight >= 1
  {
    var k := DrawIndex(i) + 2 * |ForwardEdges(n, maxWeight, rand, i)|;
    if i > 0 then [Edge(PrevNode(i, rand(k)), EdgeWeight(maxWeight, rand(k + 1)))] else []
  }

  /**
    The edges generate_random_graph appends to vertex i's list in a graph of n
    vertices: first the forward edge (when i is not the last vertex), then the
    backward edge (when i is not the first).
   */
  function WindowEdges(n: int, maxWeight: int, rand: nat -> nat, i: int): (es: seq<Edge>)
    requires 0 <= i < n && maxWeight >= 1
    ensures |es| == (if i < n - 1 then 1 else 0) + (if i > 0 then 1 else 0)
    ensures i < n - 1 ==> i + 1 <= es[0].dest <= Min(i + 5, n - 1)
    ensures i > 0 ==> Max(i - 5, 0) <= es[|es| - 1].dest <= i - 1
    ensures forall e :: e in es ==> 0 <= e.dest < n && e.dest != i && 1 <= e.weight <= maxWeight
  {
    ForwardEdges(n, maxWeight, rand, i) + BackwardEdges(n, maxWeight, rand, i)
  }

  /** The adjacency lists that generate_random_graph builds on a graph with no edges. */
  function Generated(n: nat, maxWeight: int, rand: nat -> nat): (g: AdjList)
    requires maxWeight >= 1
    ensures |g| == n
  {
    seq(n, i requires 0 <= i < n => WindowEdges(n, maxWeight, rand, i))
  }

  /** Appending every vertex's window to an edgeless graph yields Generated. */
  lemma GeneratedOnEmpty(g: AdjList, n: nat, maxWeight: int, rand: nat -> nat)
    requires maxWeight >= 1 && |g| == n
    requires forall i :: 0 <= i < n ==> g[i] == [] + WindowEdges(n, maxWeight, rand, i)
    ensures g == Generated(n, maxWeight, rand)
  {
    forall i | 0 <= i < n ensures g[i] == Generated(n, maxWeight, rand)[i] {
      assert [] + WindowEdges(n, maxWeight, rand, i) == WindowEdges(n, maxWeight, rand, i);
    }
  }

  // ---------------------------------------------------------------------
  // Edge and weight counts

  /** Number of edges in the lists of vertices 0 .. k-1. */
  function PrefixEdgeCount(g: AdjList, k: nat): nat
    requires k <= |g|
  {
    if k == 0 then 0 else PrefixEdgeCount(g, k - 1) + |g[k - 1]|
  }

  function EdgeCount(g: AdjList): nat
  {
    PrefixEdgeCount(g, |g|)
  }

  /** The generated graph is well formed, with weights in [1, maxWeight]. */
  lemma GeneratedWellFormed(n: nat, maxWeight: int, rand: nat -> nat)
    requires maxWeight >= 1
    ensures WellFormed(Generated(n, maxWeight, rand))
    ensures NonNegativeWeights(Generated(n, maxWeight, rand))
    ensures forall y, e :: 0 <= y < n && e in Generated(n, maxWeight, rand)[y] ==> 1 <= e.weight <= maxWeight
  {
    var g := Generated(n, maxWeight, rand);
    forall y: int, e: Edge | 0 <= y < n && e in g[y] ensures 0 <= e.dest < n && 1 <= e.weight <= maxWeight {
      assert g[y] == WindowEdges(n, maxWeight, rand, y);
    }
  }

  lemma {:induction false} GeneratedPrefixEdgeCount(n: nat, maxWeight: int, rand: nat -> nat, k: nat)
    requires maxWeight >= 1 && 1 <= k <= n
    ensures PrefixEdgeCount(Generated(n, maxWeight, rand), k) == Min(k, n - 1) + (k - 1)
  {
    if k > 1 {
      GeneratedPrefixEdgeCount(n, maxWeight, rand, k - 1);
    }
  }

  /** generate_random_graph adds exactly 2(n-1) edges to a graph of n >= 1 vertices. */
  lemma GeneratedEdgeCount(n: nat, maxWeight: int, rand: nat -> nat)
    requires maxWeight >= 1 && n >= 1
    ensures EdgeCount(Generated(n, maxWeight, rand)) == 2 * (n - 1)
  {
    GeneratedPrefixEdgeCount(n, maxWeight, rand, n);
  }

  lemma {:induction false} ListWeightAtMost(es: seq<Edge>, maxWeight: int)
    requires forall e :: e in es ==> e.weight <= maxWeight
    ensures ListWeight(es) <= |es| * maxWeight
  {
    if es != [] {
      var init := es[..|es| - 1];
      assert forall e :: e in init ==> e in es;
      ListWeightAtMost(init, maxWeight);
      Distribute(|es| - 1, 1, maxWeight);
    }
  }

  lemma {:induction false} PrefixWeightAtMost(g: AdjList, maxWeight: int, k: nat)
    requires k <= |g|
    requires forall y, e :: 0 <= y < |g| && e in g[y] ==> e.weight <= maxWeight
    ensures PrefixWeight(g, k) <= PrefixEdgeCount(g, k) * maxWeight
  {
    if k > 0 {
      PrefixWeightAtMost(g, maxWeight, k - 1);
      ListWeightAtMost(g[k - 1], maxWeight);
      Distribute(PrefixEdgeCount(g, k - 1), |g[k - 1]|, maxWeight);
    }
  }

  /** The generated graph weighs at most 2(n-1) * maxWeight in all. */
  lemma GeneratedTotalWeight(n: nat, maxWeight: int, rand: nat -> nat)
    requires maxWeight >= 1 && n >= 1
    ensures TotalWeight(Generated(n, maxWeight, rand)) <= 2 * (n - 1) * maxWeight
  {
    var g := Generated(n, maxWeight, rand);
    GeneratedWellFormed(n, maxWeight, rand);
    PrefixWeightAtMost(g, maxWeight, n);
    GeneratedEdgeCount(n, maxWeight, rand);
  }
}
