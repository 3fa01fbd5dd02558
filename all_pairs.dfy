/**
  The sequential drivers of main.cpp: the all-pairs table filled row by row
  from shortest_path, the five-vertex test graph, and the run on a generated
  graph of NUMBER_OF_BIG_GRAPH_NODES vertices.
 */
module AllPairs {
  import opened Graphs
  import opened RandomGraphs
  import opened DijkstraEngine

  /** Number of vertices of the large generated graph. */
  const NUMBER_OF_BIG_GRAPH_NODES: int := 1024
  /** Largest edge weight of the large generated graph. */
  const MAX_WEIGHT: int := 20

  /** Row s of the table is the distance vector from s, for every vertex s. */
  ghost predicate IsDistanceTable(g: AdjList, table: seq<seq<int>>)
  {
    |table| == |g| && forall s :: 0 <= s < |g| ==> IsDistanceVector(g, s, table[s])
  }

  /** A graph has exactly one distance table. */
  lemma DistanceTableUnique(g: AdjList, t1: seq<seq<int>>, t2: seq<seq<int>>)
    requires IsDistanceTable(g, t1) && IsDistanceTable(g, t2)
    ensures t1 == t2
  {
    forall s | 0 <= s < |g| ensures t1[s] == t2[s] {
      DistanceVectorUnique(g, s, t1[s], t2[s]);
    }
  }

  /**
    The adjacency table: every entry starts at INT_MAX, and row src is then
    overwritten, entry by entry, with shortest_path(src).
   */
  method AllPairsTable(d: Dijkstra) returns (table: seq<seq<int>>)
    requires d.Valid() && NonNegativeWeights(d.adjList) && TotalWeight(d.adjList) < INT_MAX
    ensures IsDistanceTable(d.adjList, table)
  {
    var n := d.numVertices;
    table := seq(n, _ => seq(n, _ => INT_MAX));
    for src := 0 to n
      invariant |table| == n
      invariant forall s :: 0 <= s < src ==> IsDistanceVector(d.adjList, s, table[s])
      invariant forall s :: src <= s < n ==> |table[s]| == n
    {
      var distances := d.ShortestPath(src);
      for dest := 0 to |distances|
        invariant |table| == n && |table[src]| == n
        invariant forall s :: 0 <= s < src ==> IsDistanceVector(d.adjList, s, table[s])
        invariant forall s :: src < s < n ==> |table[s]| == n
        invariant forall j :: 0 <= j < dest ==> table[src][j] == distances[j]
      {
        table := table[src := table[src][dest := distances[dest]]];
      }
      assert table[src] == distances;
    }
  }

  // ---------------------------------------------------------------------
  // test_case_small

  /** The five-vertex graph of test_case_small, each list in the order add_edge built it. */
  function SmallGraph(): AdjList
  {
    [[Edge(1, 1), Edge(3, 2)], [Edge(2, 1), Edge(4, 4)], [Edge(4, 3)], [Edge(4, 1)], []]
  }

  /** The distances from every vertex of the small graph (INT_MAX: unreachable). */
  function SmallTable(): seq<seq<int>>
  {
    [[0, 1, 2, 2, 3],
     [INT_MAX, 0, 1, INT_MAX, 4],
     [INT_MAX, INT_MAX, 0, INT_MAX, 3],
     [INT_MAX, INT_MAX, INT_MAX, 0, 1],
     [INT_MAX, INT_MAX, INT_MAX, INT_MAX, 0]]
  }

  lemma SmallGraphAdmissible()
    ensures WellFormed(SmallGraph()) && NonNegativeWeights(SmallGraph())
    ensures TotalWeight(SmallGraph()) == 12
  {
    var g := SmallGraph();
    forall y: int, e: Edge | 0 <= y < |g| && e in g[y] ensures 0 <= e.dest < |g| && 0 <= e.weight {
      assert y == 0 || y == 1 || y == 2 || y == 3 || y == 4;
    }
    assert ListWeight(g[0]) == 3 && ListWeight(g[1]) == 5 && ListWeight(g[2]) == 3 && ListWeight(g[3]) == 1;
    assert PrefixWeight(g, 1) == 3;
    assert PrefixWeight(g, 2) == 8;
    assert PrefixWeight(g, 3) == 11;
    assert PrefixWeight(g, 4) == 12;
  }

  /** The six edges of the small graph, checked one by one, make r relaxed and finitely closed. */
  lemma SmallCertificate(r: seq<int>)
    requires |r| == 5
    requires r[1] <= r[0] + 1 && r[3] <= r[0] + 2 && r[2] <= r[1] + 1
    requires r[4] <= r[1] + 4 && r[4] <= r[2] + 3 && r[4] <= r[3] + 1
    requires r[0] < INT_MAX ==> r[1] < INT_MAX && r[3] < INT_MAX
    requires r[1] < INT_MAX ==> r[2] < INT_MAX && r[4] < INT_MAX
    requires r[2] < INT_MAX || r[3] < INT_MAX ==> r[4] < INT_MAX
    ensures WellFormed(SmallGraph())
    ensures Relaxed(SmallGraph(), r) && FiniteClosed(SmallGraph(), r)
  {
    SmallGraphAdmissible();
    var g := SmallGraph();
    forall y: int, e: Edge | 0 <= y < |g| && e in g[y]
      ensures r[e.dest] <= r[y] + e.weight && (r[y] < INT_MAX ==> r[e.dest] < INT_MAX)
    {
      assert y == 0 || y == 1 || y == 2 || y == 3 || y == 4;
    }
  }

  /** Walks realising the finite entries of row 0 of SmallTable: 0->1, 0->1->2, 0->3, 0->3->4. */
  function SmallWalks0(): seq<seq<Arc>>
  {
    var w1 := [Arc(0, Edge(1, 1))];
    var w3 := [Arc(0, Edge(3, 2))];
    [[], w1, w1 + [Arc(1, Edge(2, 1))], w3, w3 + [Arc(3, Edge(4, 1))]]
  }

  /** The walks of SmallWalks0 realise row 0 of SmallTable. */
  lemma SmallWalks0Valid()
    ensures WalksRealise(SmallGraph(), 0, SmallTable()[0], SmallWalks0())
  {
    var g := SmallGraph();
    var w1 := [Arc(0, Edge(1, 1))];
    var w3 := [Arc(0, Edge(3, 2))];
    EmptyWalk(g, 0);
    assert w1 == [] + [Arc(0, Edge(1, 1))];
    assert w3 == [] + [Arc(0, Edge(3, 2))];
    WalkExtend(g, 0, [], Arc(0, Edge(1, 1)));
    WalkExtend(g, 0, w1, Arc(1, Edge(2, 1)));
    WalkExtend(g, 0, [], Arc(0, Edge(3, 2)));
    WalkExtend(g, 0, w3, Arc(3, Edge(4, 1)));
    forall t | 0 <= t < 5 && SmallTable()[0][t] < INT_MAX
      ensures IsWalk(g, 0, t, SmallWalks0()[t]) && Cost(SmallWalks0()[t]) == SmallTable()[0][t]
    {
      assert t == 0 || t == 1 || t == 2 || t == 3 || t == 4;
    }
  }

  lemma SmallRow0()
    ensures IsDistanceVector(SmallGraph(), 0, SmallTable()[0])
  {
    SmallCertificate(SmallTable()[0]);
    SmallWalks0Valid();
    CertifiedDistanceVector(SmallGraph(), 0, SmallTable()[0], SmallWalks0());
  }

  lemma SmallRow1()
    ensures IsDistanceVector(SmallGraph(), 1, [INT_MAX, 0, 1, INT_MAX, 4])
  {
    var g := SmallGraph();
    SmallGraphAdmissible();
    var a12 := Arc(1, Edge(2, 1));
    var a14 := Arc(1, Edge(4, 4));
    EmptyWalk(g, 1);
    WalkExtend(g, 1, [], a12);
    WalkExtend(g, 1, [], a14);
    SmallCertificate([INT_MAX, 0, 1, INT_MAX, 4]);
    CertifiedDistanceVector(g, 1, [INT_MAX, 0, 1, INT_MAX, 4], [[], [], [a12], [], [a14]]);
  }

  lemma SmallRow2()
    ensures IsDistanceVector(SmallGraph(), 2, [INT_MAX, INT_MAX, 0, INT_MAX, 3])
  {
    var g := SmallGraph();
    SmallGraphAdmissible();
    var a24 := Arc(2, Edge(4, 3));
    EmptyWalk(g, 2);
    WalkExtend(g, 2, [], a24);
    SmallCertificate([INT_MAX, INT_MAX, 0, INT_MAX, 3]);
    CertifiedDistanceVector(g, 2, [INT_MAX, INT_MAX, 0, INT_MAX, 3], [[], [], [], [], [a24]]);
  }

  lemma SmallRow3()
    ensures IsDistanceVector(SmallGraph(), 3, [INT_MAX, INT_MAX, INT_MAX, 0, 1])
  {
    var g := SmallGraph();
    SmallGraphAdmissible();
    var a34 := Arc(3, Edge(4, 1));
    EmptyWalk(g, 3);
    WalkExtend(g, 3, [], a34);
    SmallCertificate([INT_MAX, INT_MAX, INT_MAX, 0, 1]);
    CertifiedDistanceVector(g, 3, [INT_MAX, INT_MAX, INT_MAX, 0, 1], [[], [], [], [], [a34]]);
  }

  lemma SmallRow4()
    ensures IsDistanceVector(SmallGraph(), 4, [INT_MAX, INT_MAX, INT_MAX, INT_MAX, 0])
  {
    var g := SmallGraph();
    SmallGraphAdmissible();
    EmptyWalk(g, 4);
    SmallCertificate([INT_MAX, INT_MAX, INT_MAX, INT_MAX, 0]);
    CertifiedDistanceVector(g, 4, [INT_MAX, INT_MAX, INT_MAX, INT_MAX, 0], [[], [], [], [], []]);
  }

  /** SmallTable is the distance table of the small graph. */
  lemma SmallTableCorrect()
    ensures IsDistanceTable(SmallGraph(), SmallTable())
  {
    SmallRow0();
    SmallRow1();
    SmallRow2();
    SmallRow3();
    SmallRow4();
    forall s | 0 <= s < 5 ensures IsDistanceVector(SmallGraph(), s, SmallTable()[s]) {
      assert s == 0 || s == 1 || s == 2 || s == 3 || s == 4;
    }
  }

  /** test_case_small: builds the five-vertex graph and fills its adjacency table. */
  method TestCaseSmall() returns (table: seq<seq<int>>)
    ensures table == SmallTable()
  {
    var dijkstra := new Dijkstra(5);
    dijkstra.AddEdge(0, 1, 1);
    dijkstra.AddEdge(1, 2, 1);
    dijkstra.AddEdge(2, 4, 3);
    dijkstra.AddEdge(0, 3, 2);
    dijkstra.AddEdge(3, 4, 1);
    dijkstra.AddEdge(1, 4, 4);
    assert dijkstra.adjList[0] == [Edge(1, 1), Edge(3, 2)];
    assert dijkstra.adjList[1] == [Edge(2, 1), Edge(4, 4)];
    assert dijkstra.adjList[2] == [Edge(4, 3)];
    assert dijkstra.adjList[3] == [Edge(4, 1)];
    assert dijkstra.adjList == SmallGraph();
    SmallGraphAdmissible();
    table := AllPairsTable(dijkstra);
    SmallTableCorrect();
    DistanceTableUnique(SmallGraph(), table, SmallTable());
  }

  // ---------------------------------------------------------------------
  // main with test_case_big

  /**
    main: a graph of NUMBER_OF_BIG_GRAPH_NODES vertices is generated with
    weights up to MAX_WEIGHT, and test_case_big fills its adjacency table.
    The generated graph weighs far less than INT_MAX, so no distance
    overflows.
   */
  method RunBigGraph(rand: nat -> nat) returns (table: seq<seq<int>>)
    ensures IsDistanceTable(Generated(NUMBER_OF_BIG_GRAPH_NODES, MAX_WEIGHT, rand), table)
  {
    var dijkstra := new Dijkstra(NUMBER_OF_BIG_GRAPH_NODES);
    dijkstra.GenerateRandomGraph(rand, MAX_WEIGHT);
    GeneratedOnEmpty(dijkstra.adjList, NUMBER_OF_BIG_GRAPH_NODES, MAX_WEIGHT, rand);
    GeneratedWellFormed(NUMBER_OF_BIG_GRAPH_NODES, MAX_WEIGHT, rand);
    GeneratedTotalWeight(NUMBER_OF_BIG_GRAPH_NODES, MAX_WEIGHT, rand);
    table := AllPairsTable(dijkstra);
  }
}
