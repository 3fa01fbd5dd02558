/**
  The Dijkstra graph object: the vertex count, the adjacency lists, and the
  operations that build the graph and run the set-based shortest-path loop.
 */
module DijkstraEngine {
  import opened Graphs
  import opened RandomGraphs
  import opened DijkstraLoop

  class Dijkstra {
    /** Number of vertices in the graph. */
    var numVertices: int
    /** Adjacency lists; adjList[y] holds the (destination, weight) pairs of the edges out of y. */
    var adjList: AdjList

    /** There is one list per vertex and every edge ends at a vertex. */
    ghost predicate Valid()
      reads this
    {
      numVertices == |adjList| && WellFormed(adjList)
    }

    /** A graph with `vertices` vertices and no edges. */
    constructor (vertices: int)
      requires vertices >= 0
      ensures Valid()
      ensures numVertices == vertices
      ensures forall y :: 0 <= y < vertices ==> adjList[y] == []
    {
      numVertices := vertices;
      adjList := seq(vertices, _ => []);
    }

    /** Appends the edge src -> dest of the given weight to src's list. */
    method AddEdge(src: int, dest: int, weight: int)
      requires Valid()
      requires 0 <= src < numVertices && 0 <= dest < numVertices
      modifies this
      ensures Valid() && numVertices == old(numVertices)
      ensures adjList == old(adjList)[src := old(adjList)[src] + [Edge(dest, weight)]]
      ensures old(NonNegativeWeights(adjList)) && weight >= 0 ==> NonNegativeWeights(adjList)
    {
      adjList := adjList[src := adjList[src] + [Edge(dest, weight)]];
    }

    /**
      Dijkstra's algorithm from src over the ordered set setds of
      (distance, vertex) pairs. Weights must be non-negative, and their total
      must stay below INT_MAX so that no 32-bit sum overflows.
     */
    method ShortestPath(src: int) returns (distances: seq<int>)
      requires Valid() && NonNegativeWeights(adjList) && TotalWeight(adjList) < INT_MAX
      requires 0 <= src < numVertices
      ensures IsDistanceVector(adjList, src, distances)
      ensures |distances| == numVertices && distances[src] == 0
      ensures forall v :: 0 <= v < numVertices ==> 0 <= distances[v] <= INT_MAX
    {
      var g := adjList;
      var n := numVertices;
      var setds: set<Entry> := {(0, src)};
      distances := seq(n, _ => INT_MAX);
      distances := distances[src := 0];
      // The vertices extracted so far, the distance extracted last, and a walk
      // realising every finite tentative distance.
      ghost var done: set<int> := {};
      ghost var last := 0;
      ghost var walks: seq<seq<Arc>> := seq(n, _ => []);
      Initial(g, src);

      while setds != {}
        invariant OuterInv(g, src, distances, setds, done, last, walks)
        decreases n - |done|
      {
        FirstExists(setds);
        var top :| IsFirst(top, setds);
        var u := top.1;
        ExtractFirst(g, src, distances, setds, done, last, walks, top);
        setds := setds - {top};
        ghost var before := done;
        done := done + {u};
        last := distances[u];

        for k := 0 to |g[u]|
          invariant InnerInv(g, src, distances, setds, before, u, k, last, walks)
        {
          distances, setds, walks := Relax(g, src, distances, setds, before, u, k, last, walks);
        }
        InnerDone(g, src, distances, setds, before, u, last, walks);
      }
      Finish(g, src, distances, done, last, walks);
    }

    /**
      For every vertex i, appends an edge to one of the next (up to) 5 vertices
      (unless i is the last vertex) and then an edge to one of the previous (up
      to) 5 vertices (unless i is the first), weights drawn in [1, maxWeight].
     */
    method GenerateRandomGraph(rand: nat -> nat, maxWeight: int := DEFAULT_MAX_WEIGHT)
      requires Valid() && maxWeight >= 1
      modifies this
      ensures Valid() && numVertices == old(numVertices)
      ensures forall i :: 0 <= i < numVertices ==> adjList[i] == old(adjList[i]) + WindowEdges(numVertices, maxWeight, rand, i)
      ensures old(NonNegativeWeights(adjList)) ==> NonNegativeWeights(adjList)
    {
      var k: nat := 0;
      for i := 0 to numVertices
        invariant Valid() && numVertices == old(numVertices)
        invariant i < numVertices ==> k == DrawIndex(i)
        invariant forall j :: 0 <= j < i ==> adjList[j] == old(adjList[j]) + WindowEdges(numVertices, maxWeight, rand, j)
        invariant forall j :: i <= j < numVertices ==> adjList[j] == old(adjList[j])
        invariant old(NonNegativeWeights(adjList)) ==> NonNegativeWeights(adjList)
      {
        k := AddWindowEdges(rand, maxWeight, i, k);
      }
    }

    /**
      One iteration of generate_random_graph's loop: vertex i's forward edge
      (unless i is the last vertex), then its backward edge (unless i is the
      first), drawing from the stream at position k onwards. Returns the
      position of the next draw.
     */
    method AddWindowEdges(rand: nat -> nat, maxWeight: int, i: int, k: nat) returns (k': nat)
      requires Valid() && maxWeight >= 1 && 0 <= i < numVertices && k == DrawIndex(i)
      modifies this
      ensures Valid() && numVertices == old(numVertices)
      ensures adjList == old(adjList)[i := old(adjList[i]) + WindowEdges(numVertices, maxWeight, rand, i)]
      ensures i + 1 < numVertices ==> k' == DrawIndex(i + 1)
      ensures old(NonNegativeWeights(adjList)) ==> NonNegativeWeights(adjList)
    {
      k' := k;
      if i < numVertices - 1 {
        var nextNode := NextNode(numVertices, i, rand(k'));
        var weight := EdgeWeight(maxWeight, rand(k' + 1));
        k' := k' + 2;
        AddEdge(i, nextNode, weight);
      } else {
        assert old(adjList[i]) + ForwardEdges(numVertices, maxWeight, rand, i) == old(adjList[i]);
      }
      assert k' == DrawIndex(i) + 2 * |ForwardEdges(numVertices, maxWeight, rand, i)|;
      ghost var mid := adjList;
      assert mid == old(adjList)[i := old(adjList[i]) + ForwardEdges(numVertices, maxWeight, rand, i)];
      if i > 0 {
        var prevNode := PrevNode(i, rand(k'));
        var weight := EdgeWeight(maxWeight, rand(k' + 1));
        assert [Edge(prevNode, weight)] == BackwardEdges(numVertices, maxWeight, rand, i);
        k' := k' + 2;
        AddEdge(i, prevNode, weight);
      } else {
        assert mid[i] + BackwardEdges(numVertices, maxWeight, rand, i) == mid[i];
      }
      assert adjList == mid[i := mid[i] + BackwardEdges(numVertices, maxWeight, rand, i)];
      assert old(adjList[i]) + ForwardEdges(numVertices, maxWeight, rand, i) + BackwardEdges(numVertices, maxWeight, rand, i)
          == old(adjList[i]) + WindowEdges(numVertices, maxWeight, rand, i);
    }
  }

  /**
    The body of shortest_path's inner loop for edge k of u, to v: when going
    through u is shorter, the pair (distances[v], v) is erased if
    distances[v] is finite, distances[v] is lowered and the new pair
    inserted; otherwise nothing changes.
   */
  method Relax(g: AdjList, src: int, distances: seq<int>, setds: set<Entry>, ghost before: set<int>, u: int, k: int, ghost last: int, ghost walks: seq<seq<Arc>>)
      returns (distances': seq<int>, setds': set<Entry>, ghost walks': seq<seq<Arc>>)
    requires InnerInv(g, src, distances, setds, before, u, k, last, walks) && k < |g[u]|
    ensures InnerInv(g, src, distances', setds', before, u, k + 1, last, walks')
    ensures var e := g[u][k];
      if distances[e.dest] > distances[u] + e.weight
      then RelaxStep(g, u, k, distances, setds, walks, distances', setds', walks')
      else distances' == distances && setds' == setds
  {
    distances', setds', walks' := distances, setds, walks;
    var v := g[u][k].dest;
    var weight := g[u][k].weight;
    if distances[v] > distances[u] + weight {
      // The sum distances[u] + weight cannot overflow, and the pair
      // setds.find looks up is present whenever distances[v] is finite.
      ImprovingTarget(g, src, distances, setds, before, u, k, last, walks);
      StalePresent(g, src, distances, setds, before, u, k, last, walks);
      if distances[v] != INT_MAX {
        setds' := setds' - {(distances[v], v)};
      }
      var newDist := distances[u] + weight;
      distances' := distances[v := newDist];
      setds' := setds' + {(newDist, v)};
      walks' := walks[v := walks[u] + [Arc(u, g[u][k])]];
      RelaxUpdate(g, src, distances, setds, before, u, k, last, walks, distances', setds', walks');
    } else {
      RelaxKeep(g, src, distances, setds, before, u, k, last, walks);
    }
  }
}
