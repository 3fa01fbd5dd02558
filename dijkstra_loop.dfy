/**
  The ordered set of (distance, vertex) pairs that shortest_path works on, the
  invariants of its two nested loops, and one lemma per step of the loops.
 */
module DijkstraLoop {
  import opened Graphs

  /** An entry of the ordered set setds: the pair (distance, vertex). */
  type Entry = (int, int)

  /** std::pair's ordering: lexicographic on (distance, vertex). */
  predicate EntryLe(a: Entry, b: Entry)
  {
    a.0 < b.0 || (a.0 == b.0 && a.1 <= b.1)
  }

  /** m is the first element of the ordered set s, the one begin() designates. */
  predicate IsFirst(m: Entry, s: set<Entry>)
  {
    m in s && forall q :: q in s ==> EntryLe(m, q)
  }

  /** Every non-empty set of entries has a first element. */
  lemma {:induction false} FirstExists(s: set<Entry>)
    requires s != {}
    ensures exists m :: IsFirst(m, s)
    decreases s
  {
    var x :| x in s;
    if s == {x} {
      assert IsFirst(x, s);
    } else {
      FirstExists(s - {x});
      var m :| IsFirst(m, s - {x});
      if EntryLe(x, m) {
        forall q | q in s ensures EntryLe(x, q) {
          if q != x {
            assert q in s - {x};
          }
        }
        assert IsFirst(x, s);
      } else {
        assert IsFirst(m, s);
      }
    }
  }

  /** The first element is unique, so begin() is determined by the set's contents. */
  lemma FirstUnique(s: set<Entry>, m1: Entry, m2: Entry)
    requires IsFirst(m1, s) && IsFirst(m2, s)
    ensures m1 == m2
  {
    assert EntryLe(m1, m2) && EntryLe(m2, m1);
  }

  /** A set of vertex numbers has at most as many elements as there are vertices. */
  lemma {:induction false} SubsetOfRangeBounded(S: set<int>, n: nat)
    requires forall v :: v in S ==> 0 <= v < n
    ensures |S| <= n
  {
    if n == 0 {
      forall v | v in S ensures false {
      }
      assert S == {};
    } else {
      SubsetOfRangeBounded(S - {n - 1}, n - 1);
    }
  }

  // ---------------------------------------------------------------------
  // Loop invariants

  /** The graphs shortest_path is specified for: well formed, non-negative, no 32-bit overflow. */
  ghost predicate Admissible(g: AdjList)
  {
    WellFormed(g) && NonNegativeWeights(g) && TotalWeight(g) < INT_MAX
  }

  /** Tentative distances: in range, 0 at the source, and each finite one the cost of a recorded walk. */
  ghost predicate Tentative(g: AdjList, src: int, dist: seq<int>, walks: seq<seq<Arc>>)
  {
    && |dist| == |g| && |walks| == |g| && 0 <= src < |g|
    && (forall v :: 0 <= v < |g| ==> 0 <= dist[v] <= INT_MAX)
    && dist[src] == 0
    && WalksRealise(g, src, dist, walks)
  }

  /** The extracted vertices are vertices. */
  ghost predicate Extracted(g: AdjList, done: set<int>)
  {
    (forall v :: v in done ==> 0 <= v < |g|) && |done| <= |g|
  }

  /** setds holds exactly the pairs (dist[v], v) of the vertices reached but not extracted. */
  ghost predicate QueueMatches(g: AdjList, dist: seq<int>, setds: set<Entry>, done: set<int>)
    requires |dist| == |g|
  {
    && (forall q :: q in setds ==> 0 <= q.1 < |g| && q.1 !in done && q.0 == dist[q.1] < INT_MAX)
    && (forall v :: 0 <= v < |g| && v !in done && dist[v] < INT_MAX ==> (dist[v], v) in setds)
  }

  /** Extracted distances are at most `last`, the distance extracted most recently; the others at least. */
  ghost predicate Ordered(g: AdjList, dist: seq<int>, done: set<int>, last: int)
    requires |dist| == |g| && Extracted(g, done)
  {
    && (forall v :: v in done ==> dist[v] <= last)
    && (forall v :: 0 <= v < |g| && v !in done ==> last <= dist[v])
  }

  /** The edges out of the vertices of S are relaxed. */
  ghost predicate RelaxedFrom(g: AdjList, dist: seq<int>, S: set<int>)
    requires WellFormed(g) && |dist| == |g| && Extracted(g, S)
  {
    forall y: int, e: Edge :: y in S && e in g[y] ==> dist[e.dest] <= dist[y] + e.weight
  }

  /** Out of the vertices of S, distance plus edge weight stays below INT_MAX. */
  ghost predicate NoOverflowFrom(g: AdjList, dist: seq<int>, S: set<int>)
    requires |dist| == |g| && Extracted(g, S)
  {
    forall y: int, e: Edge :: y in S && e in g[y] ==> dist[y] + e.weight < INT_MAX
  }

  /** A reached, unextracted vertex is no farther than the weight of the extracted vertices' lists. */
  ghost predicate WeightBounded(g: AdjList, dist: seq<int>, done: set<int>)
    requires |dist| == |g|
  {
    forall v :: 0 <= v < |g| && v !in done && dist[v] < INT_MAX ==> dist[v] <= SetWeight(g, done, |g|)
  }

  /** The invariant of the outer `while (!setds.empty())` loop. */
  ghost predicate OuterInv(g: AdjList, src: int, dist: seq<int>, setds: set<Entry>, done: set<int>, last: int, walks: seq<seq<Arc>>)
  {
    && Admissible(g) && Tentative(g, src, dist, walks) && Extracted(g, done)
    && QueueMatches(g, dist, setds, done)
    && Ordered(g, dist, done, last)
    && RelaxedFrom(g, dist, done)
    && NoOverflowFrom(g, dist, done)
    && WeightBounded(g, dist, done)
  }

  /**
    The invariant of the inner loop over u's first k edges, where `before` is
    the set of vertices extracted ahead of u.
   */
  ghost predicate InnerInv(g: AdjList, src: int, dist: seq<int>, setds: set<Entry>, before: set<int>, u: int, k: int, last: int, walks: seq<seq<Arc>>)
  {
    && Admissible(g) && Tentative(g, src, dist, walks)
    && 0 <= u < |g| && u !in before && Extracted(g, before + {u}) && 0 <= k <= |g[u]|
    && QueueMatches(g, dist, setds, before + {u})
    && dist[u] == last
    && Ordered(g, dist, before + {u}, last)
    && RelaxedFrom(g, dist, before)
    && (forall j :: 0 <= j < k ==> dist[g[u][j].dest] <= dist[u] + g[u][j].weight)
    && NoOverflowFrom(g, dist, before + {u})
    && dist[u] <= SetWeight(g, before, |g|)
    && WeightBounded(g, dist, before + {u})
  }

  // ---------------------------------------------------------------------
  // One lemma per step of the loops

  /** The state after `distances[src] = 0; setds.insert({0, src})`. */
  lemma Initial(g: AdjList, src: int)
    requires Admissible(g) && 0 <= src < |g|
    ensures OuterInv(g, src, seq(|g|, _ => INT_MAX)[src := 0], {(0, src)}, {}, 0, seq(|g|, _ => []))
  {
    var dist := seq(|g|, _ => INT_MAX)[src := 0];
    SetWeightBounded(g, {}, |g|);
    assert IsWalk(g, src, src, []);
    assert forall v :: 0 <= v < |g| && v != src ==> dist[v] == INT_MAX;
  }

  /**
    Extracting the first entry: its vertex was not extracted before, is no
    nearer than the vertex extracted last, and is as near as any unextracted
    vertex.
   */
  lemma ExtractFirst(g: AdjList, src: int, dist: seq<int>, setds: set<Entry>, done: set<int>, last: int, walks: seq<seq<Arc>>, top: Entry)
    requires OuterInv(g, src, dist, setds, done, last, walks)
    requires IsFirst(top, setds)
    ensures 0 <= top.1 < |g| && top.1 !in done
    ensures last <= dist[top.1]
    ensures InnerInv(g, src, dist, setds - {top}, done, top.1, 0, dist[top.1], walks)
  {
    var u := top.1;
    var done' := done + {u};
    SubsetOfRangeBounded(done', |g|);
    forall v | 0 <= v < |g| && v !in done' ensures dist[u] <= dist[v] {
      if dist[v] < INT_MAX {
        assert (dist[v], v) in setds;
      }
    }
    SetWeightAdd(g, done, u, |g|);
    SetWeightBounded(g, done', |g|);
    ListWeightNonNegative(g[u]);
    forall y: int, e: Edge | y in done' && e in g[y] ensures dist[y] + e.weight < INT_MAX {
      if y == u {
        EdgeWeightAtMost(g[u], e);
      }
    }
  }

  /** Edge k of u offers nothing shorter: the state is kept and one more edge is relaxed. */
  lemma RelaxKeep(g: AdjList, src: int, dist: seq<int>, setds: set<Entry>, before: set<int>, u: int, k: int, last: int, walks: seq<seq<Arc>>)
    requires InnerInv(g, src, dist, setds, before, u, k, last, walks)
    requires k < |g[u]| && dist[g[u][k].dest] <= dist[u] + g[u][k].weight
    ensures InnerInv(g, src, dist, setds, before, u, k + 1, last, walks)
  {
  }

  /**
    The relaxation of edge k of u, to v, at distance nd = dist[u] + weight:
    the stale pair (dist[v], v) is erased when dist[v] is finite, dist[v]
    becomes nd, the pair (nd, v) is inserted, and v's walk is u's walk plus
    the edge.
   */
  ghost predicate RelaxStep(g: AdjList, u: int, k: int, dist: seq<int>, setds: set<Entry>, walks: seq<seq<Arc>>,
                            dist': seq<int>, setds': set<Entry>, walks': seq<seq<Arc>>)
    requires WellFormed(g) && 0 <= u < |g| && 0 <= k < |g[u]| && |dist| == |g| && |walks| == |g|
  {
    var e := g[u][k];
    var v := e.dest;
    var nd := dist[u] + e.weight;
    && dist' == dist[v := nd]
    && setds' == (if dist[v] != INT_MAX then setds - {(dist[v], v)} else setds) + {(nd, v)}
    && walks' == walks[v := walks[u] + [Arc(u, e)]]
  }

  /** The state before relaxing edge k of u, which offers a shorter distance to its end. */
  ghost predicate Improving(g: AdjList, src: int, dist: seq<int>, setds: set<Entry>, before: set<int>, u: int, k: int, last: int, walks: seq<seq<Arc>>)
  {
    && InnerInv(g, src, dist, setds, before, u, k, last, walks)
    && k < |g[u]| && dist[g[u][k].dest] > dist[u] + g[u][k].weight
  }

  /** Edge k of u is in u's list and its end is neither u nor extracted. */
  lemma ImprovingTarget(g: AdjList, src: int, dist: seq<int>, setds: set<Entry>, before: set<int>, u: int, k: int, last: int, walks: seq<seq<Arc>>)
    requires Improving(g, src, dist, setds, before, u, k, last, walks)
    ensures g[u][k] in g[u]
    ensures var v := g[u][k].dest; 0 <= v < |g| && v != u && v !in before && v != src
    ensures 0 <= dist[u] + g[u][k].weight < INT_MAX
  {
    assert g[u][k] in g[u];
  }

  /** The pair that setds.find looks up before erasing is present whenever dist[v] is finite. */
  lemma StalePresent(g: AdjList, src: int, dist: seq<int>, setds: set<Entry>, before: set<int>, u: int, k: int, last: int, walks: seq<seq<Arc>>)
    requires Improving(g, src, dist, setds, before, u, k, last, walks)
    ensures var v := g[u][k].dest; 0 <= v < |g| && (dist[v] != INT_MAX ==> (dist[v], v) in setds)
  {
    ImprovingTarget(g, src, dist, setds, before, u, k, last, walks);
  }

  lemma RelaxTentative(g: AdjList, src: int, dist: seq<int>, setds: set<Entry>, before: set<int>, u: int, k: int, last: int, walks: seq<seq<Arc>>,
                       dist': seq<int>, setds': set<Entry>, walks': seq<seq<Arc>>)
    requires Improving(g, src, dist, setds, before, u, k, last, walks)
    requires RelaxStep(g, u, k, dist, setds, walks, dist', setds', walks')
    ensures Tentative(g, src, dist', walks')
  {
    ImprovingTarget(g, src, dist, setds, before, u, k, last, walks);
    WalkExtend(g, src, walks[u], Arc(u, g[u][k]));
  }

  lemma RelaxQueue(g: AdjList, src: int, dist: seq<int>, setds: set<Entry>, before: set<int>, u: int, k: int, last: int, walks: seq<seq<Arc>>,
                   dist': seq<int>, setds': set<Entry>, walks': seq<seq<Arc>>)
    requires Improving(g, src, dist, setds, before, u, k, last, walks)
    requires RelaxStep(g, u, k, dist, setds, walks, dist', setds', walks')
    ensures |dist'| == |g| && QueueMatches(g, dist', setds', before + {u})
  {
    ImprovingTarget(g, src, dist, setds, before, u, k, last, walks);
  }

  lemma RelaxOrder(g: AdjList, src: int, dist: seq<int>, setds: set<Entry>, before: set<int>, u: int, k: int, last: int, walks: seq<seq<Arc>>,
                   dist': seq<int>, setds': set<Entry>, walks': seq<seq<Arc>>)
    requires Improving(g, src, dist, setds, before, u, k, last, walks)
    requires RelaxStep(g, u, k, dist, setds, walks, dist', setds', walks')
    ensures |dist'| == |g| && dist'[u] == last
    ensures Ordered(g, dist', before + {u}, last)
  {
    ImprovingTarget(g, src, dist, setds, before, u, k, last, walks);
  }

  lemma RelaxEdges(g: AdjList, src: int, dist: seq<int>, setds: set<Entry>, before: set<int>, u: int, k: int, last: int, walks: seq<seq<Arc>>,
                   dist': seq<int>, setds': set<Entry>, walks': seq<seq<Arc>>)
    requires Improving(g, src, dist, setds, before, u, k, last, walks)
    requires RelaxStep(g, u, k, dist, setds, walks, dist', setds', walks')
    ensures |dist'| == |g| && RelaxedFrom(g, dist', before)
    ensures forall j :: 0 <= j < k + 1 ==> dist'[g[u][j].dest] <= dist'[u] + g[u][j].weight
  {
    ImprovingTarget(g, src, dist, setds, before, u, k, last, walks);
  }

  lemma RelaxNoOverflow(g: AdjList, src: int, dist: seq<int>, setds: set<Entry>, before: set<int>, u: int, k: int, last: int, walks: seq<seq<Arc>>,
                   dist': seq<int>, setds': set<Entry>, walks': seq<seq<Arc>>)
    requires Improving(g, src, dist, setds, before, u, k, last, walks)
    requires RelaxStep(g, u, k, dist, setds, walks, dist', setds', walks')
    ensures |dist'| == |g| && NoOverflowFrom(g, dist', before + {u})
  {
    ImprovingTarget(g, src, dist, setds, before, u, k, last, walks);
  }

  lemma RelaxBound(g: AdjList, src: int, dist: seq<int>, setds: set<Entry>, before: set<int>, u: int, k: int, last: int, walks: seq<seq<Arc>>,
                   dist': seq<int>, setds': set<Entry>, walks': seq<seq<Arc>>)
    requires Improving(g, src, dist, setds, before, u, k, last, walks)
    requires RelaxStep(g, u, k, dist, setds, walks, dist', setds', walks')
    ensures |dist'| == |g| && WeightBounded(g, dist', before + {u})
  {
    ImprovingTarget(g, src, dist, setds, before, u, k, last, walks);
    EdgeWeightAtMost(g[u], g[u][k]);
    SetWeightAdd(g, before, u, |g|);
  }

  /** Relaxing an edge that offers a shorter distance keeps the invariant, with one more edge relaxed. */
  lemma RelaxUpdate(g: AdjList, src: int, dist: seq<int>, setds: set<Entry>, before: set<int>, u: int, k: int, last: int, walks: seq<seq<Arc>>,
                    dist': seq<int>, setds': set<Entry>, walks': seq<seq<Arc>>)
    requires Improving(g, src, dist, setds, before, u, k, last, walks)
    requires RelaxStep(g, u, k, dist, setds, walks, dist', setds', walks')
    ensures InnerInv(g, src, dist', setds', before, u, k + 1, last, walks')
  {
    RelaxTentative(g, src, dist, setds, before, u, k, last, walks, dist', setds', walks');
    RelaxQueue(g, src, dist, setds, before, u, k, last, walks, dist', setds', walks');
    RelaxOrder(g, src, dist, setds, before, u, k, last, walks, dist', setds', walks');
    RelaxEdges(g, src, dist, setds, before, u, k, last, walks, dist', setds', walks');
    RelaxNoOverflow(g, src, dist, setds, before, u, k, last, walks, dist', setds', walks');
    RelaxBound(g, src, dist, setds, before, u, k, last, walks, dist', setds', walks');
  }

  /** All of u's edges are relaxed: u joins the extracted vertices. */
  lemma InnerDone(g: AdjList, src: int, dist: seq<int>, setds: set<Entry>, before: set<int>, u: int, last: int, walks: seq<seq<Arc>>)
    requires 0 <= u < |g| && InnerInv(g, src, dist, setds, before, u, |g[u]|, last, walks)
    ensures OuterInv(g, src, dist, setds, before + {u}, last, walks)
  {
  }

  /** setds is empty: every unextracted vertex is unreached, and dist is the distance vector. */
  lemma Finish(g: AdjList, src: int, dist: seq<int>, done: set<int>, last: int, walks: seq<seq<Arc>>)
    requires OuterInv(g, src, dist, {}, done, last, walks)
    ensures IsDistanceVector(g, src, dist)
  {
    forall y: int, e: Edge | 0 <= y < |g| && e in g[y] ensures dist[e.dest] <= dist[y] + e.weight {
      if y !in done {
        assert (dist[y], y) !in {};
      }
    }
    forall y: int, e: Edge | 0 <= y < |g| && e in g[y] && dist[y] < INT_MAX ensures dist[e.dest] < INT_MAX {
      assert (dist[y], y) !in {};
    }
    CertifiedDistanceVector(g, src, dist, walks);
  }
}
