/**
  test_case_big_openmpi, with its worldSize ranks run one after another:
  each rank computes the rows of its range, the root lays out where each
  rank's rows go, and MPI_Gatherv collects them into one flat table.
 */
module Distributed {
  import opened Arith
  import opened Graphs
  import opened DijkstraEngine
  import opened AllPairs
  import opened Partition

  // ---------------------------------------------------------------------
  // Flat tables

  /** The rows one after another, as local_distances.insert appends them. */
  function Flatten(rows: seq<seq<int>>): seq<int>
  {
    if rows == [] then [] else Flatten(rows[..|rows| - 1]) + rows[|rows| - 1]
  }

  lemma FlattenSnoc(rows: seq<seq<int>>, row: seq<int>)
    ensures Flatten(rows + [row]) == Flatten(rows) + row
  {
    assert (rows + [row])[..|rows|] == rows;
  }

  lemma {:induction false} FlattenConcat(a: seq<seq<int>>, b: seq<seq<int>>)
    ensures Flatten(a + b) == Flatten(a) + Flatten(b)
    decreases |b|
  {
    if b == [] {
      assert a + b == a;
    } else {
      var init := b[..|b| - 1];
      FlattenConcat(a, init);
      assert (a + b)[..|a + b| - 1] == a + init;
      assert (a + b)[|a + b| - 1] == b[|b| - 1];
    }
  }

  /** Rows of length n flatten to |rows| * n entries. */
  lemma {:induction false} FlattenLength(rows: seq<seq<int>>, n: nat)
    requires forall k :: 0 <= k < |rows| ==> |rows[k]| == n
    ensures |Flatten(rows)| == |rows| * n
  {
    if rows != [] {
      FlattenLength(rows[..|rows| - 1], n);
      Distribute(|rows| - 1, 1, n);
    }
  }

  /** Entry i * n + j of the flattened rows is entry j of row i. */
  lemma {:induction false} FlattenIndex(rows: seq<seq<int>>, n: nat, i: nat, j: nat)
    requires forall k :: 0 <= k < |rows| ==> |rows[k]| == n
    requires i < |rows| && j < n
    ensures i * n + j < |Flatten(rows)| && Flatten(rows)[i * n + j] == rows[i][j]
  {
    var init := rows[..|rows| - 1];
    FlattenLength(init, n);
    if i == |rows| - 1 {
      assert |Flatten(init)| == i * n;
    } else {
      FlattenIndex(init, n, i, j);
    }
  }

  /** The distance printed for source i and destination j: all_distances[i * n + j]. */
  function PrintedEntry(all: seq<int>, n: nat, i: nat, j: nat): int
    requires |all| == n * n && i < n && j < n
  {
    assert i * n + j < n * n by {
      MulMonotone(i + 1, n, n);
    }
    all[i * n + j]
  }

  /** Every entry the root prints is the shortest distance from its row's vertex to its column's. */
  ghost predicate IsFlatDistanceTable(g: AdjList, all: seq<int>)
  {
    |all| == |g| * |g| &&
    forall i: nat, j: nat :: i < |g| && j < |g| ==> IsShortestDistance(g, i, j, PrintedEntry(all, |g|, i, j))
  }

  /** A distance table laid out row after row is a flat distance table. */
  lemma FlattenDistanceTable(g: AdjList, table: seq<seq<int>>)
    requires IsDistanceTable(g, table)
    ensures IsFlatDistanceTable(g, Flatten(table))
  {
    var n := |g|;
    FlattenLength(table, n);
    forall i: nat, j: nat | i < n && j < n ensures IsShortestDistance(g, i, j, PrintedEntry(Flatten(table), n, i, j)) {
      FlattenIndex(table, n, i, j);
    }
  }

  /** Entry x of two flat distance tables of the same graph is the same distance. */
  lemma FlatEntriesAgree(g: AdjList, a1: seq<int>, a2: seq<int>, x: int)
    requires IsFlatDistanceTable(g, a1) && IsFlatDistanceTable(g, a2) && 0 <= x < |a1|
    ensures a1[x] == a2[x]
  {
    var n := |g|;
    var i := x / n;
    var j := x % n;
    DivMod(x, n);
    if i >= n {
      MulMonotone(n, i, n);
    }
    assert PrintedEntry(a1, n, i, j) == a1[x];
    assert PrintedEntry(a2, n, i, j) == a2[x];
    ShortestDistanceUnique(g, i, j, a1[x], a2[x]);
  }

  /** The flat table is determined by the graph: it is the sequential table, row after row. */
  lemma FlatTableIsSequential(g: AdjList, all: seq<int>, table: seq<seq<int>>)
    requires IsFlatDistanceTable(g, all) && IsDistanceTable(g, table)
    ensures all == Flatten(table)
  {
    FlattenDistanceTable(g, table);
    forall x | 0 <= x < |all| ensures all[x] == Flatten(table)[x] {
      FlatEntriesAgree(g, all, Flatten(table), x);
    }
  }

  // ---------------------------------------------------------------------
  // MPI_Gatherv at the root

  /** Outcome of the gather: the root's buffer, or the first rank whose count the root did not expect. */
  datatype GatherResult = Gathered(all: seq<int>) | CountMismatch(rank: int)

  /** The first rank from `from` on that sends a different number of entries than the root expects. */
  function FirstMismatch(send: seq<seq<int>>, recvCounts: seq<int>, from: nat): (i: nat)
    requires |send| == |recvCounts| && from <= |send|
    ensures from <= i <= |send|
    ensures i < |send| ==> |send[i]| != recvCounts[i]
    ensures forall j :: from <= j < i ==> |send[j]| == recvCounts[j]
    decreases |send| - from
  {
    if from == |send| then from
    else if |send[from]| != recvCounts[from] then from
    else FirstMismatch(send, recvCounts, from + 1)
  }

  /** buf with data written from position at on. */
  function Write(buf: seq<int>, at: nat, data: seq<int>): (r: seq<int>)
    requires at + |data| <= |buf|
    ensures |r| == |buf|
  {
    buf[..at] + data + buf[at + |data|..]
  }

  /** buf with the buffers of ranks 0 .. k-1 written at their displacements, in rank order. */
  function Place(buf: seq<int>, send: seq<seq<int>>, displs: seq<nat>, k: nat): (r: seq<int>)
    requires k <= |send| == |displs|
    requires forall i :: 0 <= i < k ==> displs[i] + |send[i]| <= |buf|
    ensures |r| == |buf|
  {
    if k == 0 then buf else Write(Place(buf, send, displs, k - 1), displs[k - 1], send[k - 1])
  }

  /**
    MPI_Gatherv into a root buffer of total entries, zero-initialised as by
    all_distances.resize: every rank must send the number of entries the
    root expects from it; the root writes rank i's entries from
    displacement i on.
   */
  function Gatherv(send: seq<seq<int>>, recvCounts: seq<int>, displs: seq<nat>, total: nat): (r: GatherResult)
    requires |send| == |recvCounts| == |displs|
    requires forall i :: 0 <= i < |send| ==> displs[i] + recvCounts[i] <= total
    ensures r.CountMismatch? <==> exists i :: 0 <= i < |send| && |send[i]| != recvCounts[i]
    ensures r.CountMismatch? ==> 0 <= r.rank < |send| && |send[r.rank]| != recvCounts[r.rank]
    ensures r.CountMismatch? ==> forall i :: 0 <= i < r.rank ==> |send[i]| == recvCounts[i]
    ensures r.Gathered? ==> |r.all| == total
  {
    var i := FirstMismatch(send, recvCounts, 0);
    if i < |send| then CountMismatch(i) else Gathered(Place(seq(total, _ => 0), send, displs, |send|))
  }

  lemma {:induction false} PlaceContiguous(send: seq<seq<int>>, displs: seq<nat>, total: nat, k: nat)
    requires k <= |send| == |displs| && total == |Flatten(send)|
    requires forall i :: 0 <= i < |send| ==> displs[i] == |Flatten(send[..i])|
    requires forall i :: 0 <= i < k ==> displs[i] + |send[i]| <= total
    ensures |Flatten(send[..k])| <= total
    ensures Place(seq(total, _ => 0), send, displs, k) == Flatten(send[..k]) + seq(total - |Flatten(send[..k])|, _ => 0)
  {
    if k == 0 {
      assert send[..0] == [];
    } else {
      PlaceContiguous(send, displs, total, k - 1);
      PlaceStep(send, displs, total, k);
    }
  }

  /** The inductive step of PlaceContiguous: rank k-1's buffer lands right after the earlier ones. */
  lemma PlaceStep(send: seq<seq<int>>, displs: seq<nat>, total: nat, k: nat)
    requires 0 < k <= |send| == |displs|
    requires forall i :: 0 <= i < k ==> displs[i] + |send[i]| <= total
    requires displs[k - 1] == |Flatten(send[..k - 1])| <= total
    requires Place(seq(total, _ => 0), send, displs, k - 1) == Flatten(send[..k - 1]) + seq(total - |Flatten(send[..k - 1])|, _ => 0)
    ensures |Flatten(send[..k])| <= total
    ensures Place(seq(total, _ => 0), send, displs, k) == Flatten(send[..k]) + seq(total - |Flatten(send[..k])|, _ => 0)
  {
    var f := Flatten(send[..k - 1]);
    var row := send[k - 1];
    assert send[..k] == send[..k - 1] + [row];
    FlattenSnoc(send[..k - 1], row);
    WriteAfterPrefix(f, row, total - |f|);
  }

  /** Writing row right after a prefix f of a zero-padded buffer extends the prefix by row. */
  lemma WriteAfterPrefix(f: seq<int>, row: seq<int>, m: nat)
    requires |row| <= m
    ensures Write(f + seq(m, _ => 0), |f|, row) == f + row + seq(m - |row|, _ => 0)
  {
    var buf := f + seq(m, _ => 0);
    assert buf[..|f|] == f;
    assert buf[|f| + |row|..] == seq(m - |row|, _ => 0);
  }

  /**
    When every count matches and the displacements are the running sums of
    the buffer lengths, the gathered buffer is the buffers one after another.
   */
  lemma GathervContiguous(send: seq<seq<int>>, recvCounts: seq<int>, displs: seq<nat>, total: nat)
    requires |send| == |recvCounts| == |displs| && total == |Flatten(send)|
    requires forall i :: 0 <= i < |send| ==> |send[i]| == recvCounts[i]
    requires forall i :: 0 <= i < |send| ==> displs[i] == |Flatten(send[..i])|
    requires forall i :: 0 <= i < |send| ==> displs[i] + recvCounts[i] <= total
    ensures Gatherv(send, recvCounts, displs, total) == Gathered(Flatten(send))
  {
    PlaceContiguous(send, displs, total, |send|);
    assert send[..|send|] == send;
  }

  // ---------------------------------------------------------------------
  // The ranks and the root

  /** rows[k] is the distance vector of vertex start + k, for every k. */
  ghost predicate DistanceRows(g: AdjList, start: int, rows: seq<seq<int>>)
  {
    forall k :: 0 <= k < |rows| ==> IsDistanceVector(g, start + k, rows[k])
  }

  /**
    One rank's loop: the distance vectors from startNode .. endNode-1,
    appended to local_distances one after another.
   */
  method LocalDistances(d: Dijkstra, startNode: int, endNode: int) returns (local: seq<int>, ghost rows: seq<seq<int>>)
    requires d.Valid() && NonNegativeWeights(d.adjList) && TotalWeight(d.adjList) < INT_MAX
    requires 0 <= startNode && endNode <= d.numVertices
    ensures |rows| == Max(endNode - startNode, 0)
    ensures DistanceRows(d.adjList, startNode, rows)
    ensures local == Flatten(rows)
  {
    local := [];
    rows := [];
    var i := startNode;
    while i < endNode
      invariant startNode <= i && (i <= endNode || i == startNode)
      invariant |rows| == i - startNode
      invariant DistanceRows(d.adjList, startNode, rows)
      invariant local == Flatten(rows)
    {
      var distances := d.ShortestPath(i);
      FlattenSnoc(rows, distances);
      local := local + distances;
      rows := rows + [distances];
      i := i + 1;
    }
  }

  /**
    The root's loop over the ranks: recv_counts[i] rows of n entries from
    rank i, displacements[i] the running total before it, and the total at
    the end. The displacement of rank i is where its rows start in the
    partition the counts describe, and the total is n * n.
   */
  method GatherLayout(n: nat, worldSize: nat) returns (recvCounts: seq<int>, displacements: seq<nat>, total: nat)
    requires worldSize >= 1
    ensures |recvCounts| == worldSize && |displacements| == worldSize
    ensures forall i :: 0 <= i < worldSize ==> recvCounts[i] == RecvCount(n, worldSize, i)
    ensures forall i :: 0 <= i < worldSize ==> displacements[i] == LocalStart(n, worldSize, i) * n
    ensures total == n * n
    ensures forall i :: 0 <= i < worldSize ==> displacements[i] + recvCounts[i] <= total
  {
    var nodesPerProc := n / worldSize;
    var remainder := n % worldSize;
    recvCounts := seq(worldSize, _ => 0);
    displacements := seq(worldSize, _ => 0);
    total := 0;
    for i := 0 to worldSize
      invariant |recvCounts| == worldSize && |displacements| == worldSize
      invariant forall j :: 0 <= j < i ==> recvCounts[j] == RecvCount(n, worldSize, j)
      invariant forall j :: 0 <= j < i ==> displacements[j] == RowsBefore(n, worldSize, j) * n
      invariant total == RowsBefore(n, worldSize, i) * n
    {
      var rows := nodesPerProc + (if i < remainder then 1 else 0);
      assert rows == RowCount(n, worldSize, i);
      var count := rows * n;
      assert count == RecvCount(n, worldSize, i);
      recvCounts := recvCounts[i := count];
      displacements := displacements[i := total];
      total := total + count;
      TotalStep(n, worldSize, i);
    }
    RunningSumsLayout(n, worldSize, recvCounts, displacements, total);
  }

  /** The running sums GatherLayout computes are the corrected partition's starts, scaled by n, and fit in n * n. */
  lemma RunningSumsLayout(n: nat, worldSize: nat, recvCounts: seq<int>, displacements: seq<nat>, total: nat)
    requires worldSize >= 1 && |recvCounts| == worldSize && |displacements| == worldSize
    requires forall j :: 0 <= j < worldSize ==> recvCounts[j] == RecvCount(n, worldSize, j)
    requires forall j :: 0 <= j < worldSize ==> displacements[j] == RowsBefore(n, worldSize, j) * n
    requires total == RowsBefore(n, worldSize, worldSize) * n
    ensures forall i :: 0 <= i < worldSize ==> displacements[i] == LocalStart(n, worldSize, i) * n
    ensures total == n * n
    ensures forall i :: 0 <= i < worldSize ==> displacements[i] + recvCounts[i] <= total
  {
    forall i | 0 <= i < worldSize ensures displacements[i] == LocalStart(n, worldSize, i) * n {
      RowsBeforeIsLocalStart(n, worldSize, i);
    }
    RowsBeforeIsLocalStart(n, worldSize, worldSize);
    LocalRangesTile(n, worldSize);
    LayoutFits(n, worldSize, recvCounts, displacements);
  }

  /** One more rank's count added to the running total of the layout. */
  lemma TotalStep(n: nat, worldSize: nat, i: nat)
    requires worldSize >= 1
    ensures RowsBefore(n, worldSize, i + 1) * n == RowsBefore(n, worldSize, i) * n + RecvCount(n, worldSize, i)
  {
    Distribute(RowsBefore(n, worldSize, i), RowCount(n, worldSize, i), n);
  }

  /** The root's buffer is large enough for what it expects from every rank. */
  lemma LayoutFits(n: nat, worldSize: nat, recvCounts: seq<int>, displacements: seq<nat>)
    requires worldSize >= 1 && |recvCounts| == worldSize && |displacements| == worldSize
    requires forall i :: 0 <= i < worldSize ==> recvCounts[i] == RecvCount(n, worldSize, i)
    requires forall i :: 0 <= i < worldSize ==> displacements[i] == LocalStart(n, worldSize, i) * n
    ensures forall i :: 0 <= i < worldSize ==> displacements[i] + recvCounts[i] <= n * n
  {
    LocalRangesTile(n, worldSize);
    var b: nat -> int := (r: nat) => LocalStart(n, worldSize, r);
    forall i | 0 <= i < worldSize ensures displacements[i] + recvCounts[i] <= n * n {
      Distribute(LocalStart(n, worldSize, i), RowCount(n, worldSize, i), n);
      assert b(i + 1) <= b(worldSize);
      MulMonotone(LocalEnd(n, worldSize, i), n, n);
    }
  }

  // ---------------------------------------------------------------------
  // The whole run

  /**
    The ranks 0 .. worldSize-1, run one after another: rank r computes the
    rows b(r) .. b(r+1)-1 with LocalDistances and sends them as one buffer.
    The ghost rows are every computed distance vector, in order.
   */
  method RankBuffers(d: Dijkstra, worldSize: nat, b: nat -> int) returns (sendBufs: seq<seq<int>>, ghost computed: seq<seq<int>>)
    requires d.Valid() && NonNegativeWeights(d.adjList) && TotalWeight(d.adjList) < INT_MAX
    requires Tiles(b, worldSize, 0, b(worldSize)) && b(worldSize) <= d.numVertices
    ensures RanksDone(d.adjList, b, worldSize, sendBufs, computed)
  {
    sendBufs := [];
    computed := [];
    assert sendBufs[..0] == [];
    for rank := 0 to worldSize
      invariant RanksDone(d.adjList, b, rank, sendBufs, computed)
    {
      sendBufs, computed := RankStep(d, worldSize, b, rank, sendBufs, computed);
    }
  }

  /**
    What ranks 0 .. rank-1 have produced: one buffer each, rank r's holding
    the (b(r+1) - b(r)) * n distances of its rows, every prefix of the
    buffers as long as the rows before it, and the distance vectors of
    vertices 0 .. b(rank)-1 behind them.
   */
  ghost predicate RanksDone(g: AdjList, b: nat -> int, rank: nat, sendBufs: seq<seq<int>>, computed: seq<seq<int>>)
  {
    && |sendBufs| == rank && |computed| == b(rank)
    && DistanceRows(g, 0, computed)
    && Flatten(sendBufs) == Flatten(computed)
    && (forall r :: 0 <= r < rank ==> |sendBufs[r]| == (b(r + 1) - b(r)) * |g|)
    && (forall i :: 0 <= i <= rank ==> |Flatten(sendBufs[..i])| == b(i) * |g|)
  }

  /** One more rank: rank computes its rows and its buffer joins the others. */
  method RankStep(d: Dijkstra, worldSize: nat, b: nat -> int, rank: nat, sendBufs: seq<seq<int>>, ghost computed: seq<seq<int>>)
      returns (sendBufs': seq<seq<int>>, ghost computed': seq<seq<int>>)
    requires d.Valid() && NonNegativeWeights(d.adjList) && TotalWeight(d.adjList) < INT_MAX
    requires Tiles(b, worldSize, 0, b(worldSize)) && b(worldSize) <= d.numVertices && rank < worldSize
    requires RanksDone(d.adjList, b, rank, sendBufs, computed)
    ensures RanksDone(d.adjList, b, rank + 1, sendBufs', computed')
  {
    var n := d.numVertices;
    assert b(rank) <= b(rank + 1) <= b(worldSize);
    var local, rows := LocalDistances(d, b(rank), b(rank + 1));
    FlattenLength(rows, n);
    FlattenConcat(computed, rows);
    FlattenSnoc(sendBufs, local);
    PrefixLengthsSnoc(sendBufs, local, b, n);
    DistanceRowsAppend(d.adjList, 0, computed, rows);
    sendBufs' := sendBufs + [local];
    computed' := computed + rows;
  }

  /** Distance vectors for start, start+1, ... followed by those for the vertices after them. */
  lemma DistanceRowsAppend(g: AdjList, start: int, rows: seq<seq<int>>, more: seq<seq<int>>)
    requires DistanceRows(g, start, rows) && DistanceRows(g, start + |rows|, more)
    ensures DistanceRows(g, start, rows + more)
  {
    forall k | 0 <= k < |rows + more| ensures IsDistanceVector(g, start + k, (rows + more)[k]) {
      if k >= |rows| {
        assert IsDistanceVector(g, start + |rows| + (k - |rows|), more[k - |rows|]);
      }
    }
  }

  /** Appending a buffer of (b(k+1) - b(k)) * n entries keeps every prefix of k buffers b(k) * n entries long. */
  lemma PrefixLengthsSnoc(bufs: seq<seq<int>>, local: seq<int>, b: nat -> int, n: int)
    requires forall i :: 0 <= i <= |bufs| ==> |Flatten(bufs[..i])| == b(i) * n
    requires |local| == (b(|bufs| + 1) - b(|bufs|)) * n
    ensures forall i :: 0 <= i <= |bufs| + 1 ==> |Flatten((bufs + [local])[..i])| == b(i) * n
  {
    var k := |bufs|;
    var next := bufs + [local];
    forall i | 0 <= i <= k ensures next[..i] == bufs[..i] {
    }
    assert next[..k + 1] == bufs + [local];
    assert bufs[..k] == bufs;
    FlattenSnoc(bufs, local);
    Distribute(b(k), b(k + 1) - b(k), n);
  }

  /**
    test_case_big_openmpi as written, over a graph of n vertices: rank r
    computes the rows rank * nodes_per_proc .. (rank + 1) * nodes_per_proc - 1
    and sends them, while the root expects one more row from each of the
    first `remainder` ranks. The gather succeeds exactly when worldSize
    divides n; otherwise rank 0 is the first rank whose count is wrong.
   */
  method DistributedAllPairs(d: Dijkstra, worldSize: nat) returns (result: GatherResult)
    requires d.Valid() && NonNegativeWeights(d.adjList) && TotalWeight(d.adjList) < INT_MAX
    requires worldSize >= 1
    ensures result.Gathered? <==> Remainder(d.numVertices, worldSize) == 0
    ensures result.CountMismatch? ==> result.rank == 0
    ensures result.Gathered? ==> IsFlatDistanceTable(d.adjList, result.all)
  {
    var n := d.numVertices;
    var b: nat -> int := (r: nat) => SendStart(n, worldSize, r);
    SendRangesTile(n, worldSize);
    MulMonotone(worldSize, worldSize, NodesPerProc(n, worldSize));
    var sendBufs, computed := RankBuffers(d, worldSize, b);
    var recvCounts, displacements, total := GatherLayout(n, worldSize);
    result := Gatherv(sendBufs, recvCounts, displacements, total);
    AsWrittenRun(d.adjList, worldSize, b, sendBufs, computed, recvCounts, displacements, total);
  }

  /** The outcome of the as-written run, from what RankBuffers and GatherLayout establish. */
  lemma AsWrittenRun(g: AdjList, worldSize: nat, b: nat -> int, sendBufs: seq<seq<int>>, computed: seq<seq<int>>,
                     recvCounts: seq<int>, displs: seq<nat>, total: nat)
    requires worldSize >= 1 && forall r: nat :: b(r) == SendStart(|g|, worldSize, r)
    requires RanksDone(g, b, worldSize, sendBufs, computed)
    requires |recvCounts| == worldSize && |displs| == worldSize
    requires forall i :: 0 <= i < worldSize ==> recvCounts[i] == RecvCount(|g|, worldSize, i)
    requires forall i :: 0 <= i < worldSize ==> displs[i] == LocalStart(|g|, worldSize, i) * |g|
    requires total == |g| * |g|
    requires forall i :: 0 <= i < worldSize ==> displs[i] + recvCounts[i] <= total
    ensures var r := Gatherv(sendBufs, recvCounts, displs, total);
      (r.Gathered? <==> Remainder(|g|, worldSize) == 0) &&
      (r.CountMismatch? ==> r.rank == 0) &&
      (r.Gathered? ==> IsFlatDistanceTable(g, r.all))
  {
    var n := |g|;
    forall r | 0 <= r < worldSize ensures |sendBufs[r]| == SentCount(n, worldSize, r) {
      assert b(r + 1) == SendEnd(n, worldSize, r);
    }
    if Remainder(n, worldSize) != 0 {
      MismatchAtRankZero(n, worldSize, sendBufs, recvCounts, displs, total);
    } else {
      MatchedGather(n, worldSize, sendBufs, computed, recvCounts, displs, total);
      NoRemainder(n, worldSize);
      FlattenDistanceTable(g, computed);
    }
  }

  /**
    The input that shows the mismatch: the big graph split among three
    ranks. Rank 0 sends 341 rows while the root expects 342, and the last
    row, 1023, is computed by no rank.
   */
  lemma BigGraphOnThreeRanks()
    ensures NodesPerProc(NUMBER_OF_BIG_GRAPH_NODES, 3) == 341 && Remainder(NUMBER_OF_BIG_GRAPH_NODES, 3) == 1
    ensures SentCount(NUMBER_OF_BIG_GRAPH_NODES, 3, 0) == 341 * 1024
    ensures RecvCount(NUMBER_OF_BIG_GRAPH_NODES, 3, 0) == 342 * 1024
    ensures forall r: nat :: !InSendRange(NUMBER_OF_BIG_GRAPH_NODES, 3, r, 1023)
  {
    forall r: nat ensures !InSendRange(NUMBER_OF_BIG_GRAPH_NODES, 3, r, 1023) {
      if r < 3 {
        SendMisses(NUMBER_OF_BIG_GRAPH_NODES, 3, 1023, r);
      }
    }
  }

  /**
    When worldSize does not divide n, rank 0 sends nodes_per_proc rows while
    the root expects one more: the gather fails at rank 0.
   */
  lemma MismatchAtRankZero(n: nat, worldSize: nat, sendBufs: seq<seq<int>>, recvCounts: seq<int>, displs: seq<nat>, total: nat)
    requires worldSize >= 1 && |sendBufs| == worldSize && |recvCounts| == worldSize && |displs| == worldSize
    requires forall r :: 0 <= r < worldSize ==> |sendBufs[r]| == SentCount(n, worldSize, r)
    requires forall i :: 0 <= i < worldSize ==> recvCounts[i] == RecvCount(n, worldSize, i)
    requires forall i :: 0 <= i < worldSize ==> displs[i] + recvCounts[i] <= total
    requires Remainder(n, worldSize) != 0
    ensures Gatherv(sendBufs, recvCounts, displs, total) == CountMismatch(0)
  {
    CountsMatchIff(n, worldSize, 0);
    assert |sendBufs[0]| != recvCounts[0];
  }

  /**
    When worldSize divides n, every rank sends what the root expects, at the
    displacement where the root expects it: the root receives the computed
    rows one after another.
   */
  lemma MatchedGather(n: nat, worldSize: nat, sendBufs: seq<seq<int>>, computed: seq<seq<int>>, recvCounts: seq<int>, displs: seq<nat>, total: nat)
    requires worldSize >= 1 && |sendBufs| == worldSize && |recvCounts| == worldSize && |displs| == worldSize
    requires forall r :: 0 <= r < worldSize ==> |sendBufs[r]| == SentCount(n, worldSize, r)
    requires |computed| == SendStart(n, worldSize, worldSize)
    requires forall v :: 0 <= v < |computed| ==> |computed[v]| == n
    requires Flatten(sendBufs) == Flatten(computed)
    requires forall i :: 0 <= i <= worldSize ==> |Flatten(sendBufs[..i])| == SendStart(n, worldSize, i) * n
    requires forall i :: 0 <= i < worldSize ==> recvCounts[i] == RecvCount(n, worldSize, i)
    requires forall i :: 0 <= i < worldSize ==> displs[i] == LocalStart(n, worldSize, i) * n
    requires forall i :: 0 <= i < worldSize ==> displs[i] + recvCounts[i] <= total
    requires total == n * n && Remainder(n, worldSize) == 0
    ensures Gatherv(sendBufs, recvCounts, displs, total) == Gathered(Flatten(computed))
  {
    forall i | 0 <= i < worldSize ensures |sendBufs[i]| == recvCounts[i] {
      CountsMatchIff(n, worldSize, i);
    }
    NoRemainder(n, worldSize);
    FlattenLength(computed, n);
    GathervContiguous(sendBufs, recvCounts, displs, total);
  }

  /**
    The run with the partition the receive counts describe: rank i computes
    rows LocalStart(i) .. LocalEnd(i)-1, so every rank sends what the root
    expects, for every worldSize, and every row is computed.
   */
  method DistributedAllPairsFixed(d: Dijkstra, worldSize: nat) returns (result: GatherResult)
    requires d.Valid() && NonNegativeWeights(d.adjList) && TotalWeight(d.adjList) < INT_MAX
    requires worldSize >= 1
    ensures result.Gathered? && IsFlatDistanceTable(d.adjList, result.all)
  {
    var n := d.numVertices;
    var b: nat -> int := (i: nat) => LocalStart(n, worldSize, i);
    LocalRangesTile(n, worldSize);
    var sendBufs, computed := RankBuffers(d, worldSize, b);
    var recvCounts, displacements, total := GatherLayout(n, worldSize);
    result := Gatherv(sendBufs, recvCounts, displacements, total);
    FixedOutcome(d.adjList, worldSize, b, sendBufs, computed, recvCounts, displacements, total);
  }

  /** What the gather of the corrected partition yields. */
  lemma FixedOutcome(g: AdjList, worldSize: nat, b: nat -> int, sendBufs: seq<seq<int>>, computed: seq<seq<int>>,
                     recvCounts: seq<int>, displs: seq<nat>, total: nat)
    requires worldSize >= 1 && forall r: nat :: b(r) == LocalStart(|g|, worldSize, r)
    requires RanksDone(g, b, worldSize, sendBufs, computed)
    requires |recvCounts| == worldSize && |displs| == worldSize
    requires forall i :: 0 <= i < worldSize ==> recvCounts[i] == RecvCount(|g|, worldSize, i)
    requires forall i :: 0 <= i < worldSize ==> displs[i] == LocalStart(|g|, worldSize, i) * |g|
    requires total == |g| * |g|
    requires forall i :: 0 <= i < worldSize ==> displs[i] + recvCounts[i] <= total
    ensures var r := Gatherv(sendBufs, recvCounts, displs, total);
      r.Gathered? && IsFlatDistanceTable(g, r.all)
  {
    var n := |g|;
    LocalRangesTile(n, worldSize);
    forall i | 0 <= i < worldSize ensures |sendBufs[i]| == recvCounts[i] {
      assert b(i + 1) == LocalEnd(n, worldSize, i);
    }
    assert |computed| == n;
    assert IsDistanceTable(g, computed);
    FlattenLength(computed, n);
    GathervContiguous(sendBufs, recvCounts, displs, total);
    FlattenDistanceTable(g, computed);
  }
}
