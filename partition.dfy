/**
  How test_case_big_openmpi splits the n source vertices among worldSize
  ranks. Every rank computes nodes_per_proc = n / worldSize rows; the
  remainder n % worldSize is what is left over. What each rank sends and
  what the root expects to receive are computed separately, and they
  disagree whenever the remainder is not zero.
 */
module Partition {
  import opened Arith

  /** nodes_per_proc: the rows every rank is given by integer division. */
  function NodesPerProc(n: nat, worldSize: nat): nat
    requires worldSize >= 1
  {
    n / worldSize
  }

  /** remainder: the rows integer division leaves over. */
  function Remainder(n: nat, worldSize: nat): nat
    requires worldSize >= 1
  {
    n % worldSize
  }

  /** start_node of a rank, as the ranks compute it. */
  function SendStart(n: nat, worldSize: nat, rank: nat): nat
    requires worldSize >= 1
  {
    rank * NodesPerProc(n, worldSize)
  }

  /** end_node of a rank (exclusive), as the ranks compute it. */
  function SendEnd(n: nat, worldSize: nat, rank: nat): nat
    requires worldSize >= 1
  {
    (rank + 1) * NodesPerProc(n, worldSize)
  }

  /** The rows the root expects from rank i: one more than nodes_per_proc for the first `remainder` ranks. */
  function RowCount(n: nat, worldSize: nat, i: nat): nat
    requires worldSize >= 1
  {
    NodesPerProc(n, worldSize) + (if i < Remainder(n, worldSize) then 1 else 0)
  }

  /** recv_counts[i]: the number of distances the root expects from rank i. */
  function RecvCount(n: nat, worldSize: nat, i: nat): nat
    requires worldSize >= 1
  {
    RowCount(n, worldSize, i) * n
  }

  /** The number of distances rank i sends: n for each row of its range. */
  function SentCount(n: nat, worldSize: nat, rank: nat): nat
    requires worldSize >= 1
  {
    (SendEnd(n, worldSize, rank) - SendStart(n, worldSize, rank)) * n
  }

  /**
    The first row of rank i in the partition that the receive counts
    describe: the earlier ranks hold nodes_per_proc rows each, and one row
    more for each of them that is below the remainder.
   */
  function LocalStart(n: nat, worldSize: nat, i: nat): nat
    requires worldSize >= 1
  {
    i * NodesPerProc(n, worldSize) + Min(i, Remainder(n, worldSize))
  }

  function LocalEnd(n: nat, worldSize: nat, i: nat): nat
    requires worldSize >= 1
  {
    LocalStart(n, worldSize, i) + RowCount(n, worldSize, i)
  }

  /** Rank r computes row `row` under the ranges the ranks compute. */
  predicate InSendRange(n: nat, worldSize: nat, r: nat, row: int)
    requires worldSize >= 1
  {
    r < worldSize && SendStart(n, worldSize, r) <= row < SendEnd(n, worldSize, r)
  }

  /** Rank r holds row `row` in the partition the receive counts describe. */
  predicate InLocalRange(n: nat, worldSize: nat, r: nat, row: int)
    requires worldSize >= 1
  {
    r < worldSize && LocalStart(n, worldSize, r) <= row < LocalEnd(n, worldSize, r)
  }

  /** The rows the root expects from ranks 0 .. i-1 together. */
  function RowsBefore(n: nat, worldSize: nat, i: nat): nat
    requires worldSize >= 1
  {
    if i == 0 then 0 else RowsBefore(n, worldSize, i - 1) + RowCount(n, worldSize, i - 1)
  }

  // ---------------------------------------------------------------------
  // Boundaries that tile an interval

  /** b(0) .. b(w) are non-decreasing and run from lo to hi: the ranges [b(r), b(r+1)) tile [lo, hi). */
  ghost predicate Tiles(b: nat -> int, w: nat, lo: int, hi: int)
  {
    b(0) == lo && b(w) == hi && forall r1: nat, r2: nat :: r1 <= r2 <= w ==> b(r1) <= b(r2)
  }

  /** Each boundary is at most the next one. */
  ghost predicate StepsUp(b: nat -> int, w: nat)
  {
    forall r: nat :: r < w ==> b(r) <= b(r + 1)
  }

  lemma {:induction false} StepsMonotone(b: nat -> int, w: nat, r1: nat, r2: nat)
    requires StepsUp(b, w) && r1 <= r2 <= w
    ensures b(r1) <= b(r2)
    decreases r2 - r1
  {
    if r1 < r2 {
      assert b(r1) <= b(r1 + 1);
      StepsMonotone(b, w, r1 + 1, r2);
    }
  }

  /** Boundaries that never step down tile the interval from the first to the last. */
  lemma StepsTile(b: nat -> int, w: nat)
    requires StepsUp(b, w)
    ensures Tiles(b, w, b(0), b(w))
  {
    forall r1: nat, r2: nat | r1 <= r2 <= w ensures b(r1) <= b(r2) {
      StepsMonotone(b, w, r1, r2);
    }
  }

  /** The range [b(r), b(r+1)) that holds a point x of [lo, hi), found from the top range down. */
  ghost function Owner(b: nat -> int, w: nat, lo: int, hi: int, x: int): (r: nat)
    requires w >= 1 && Tiles(b, w, lo, hi) && lo <= x < hi
    ensures r < w && b(r) <= x < b(r + 1)
    decreases w
  {
    if x < b(w - 1) then
      assert Tiles(b, w - 1, lo, b(w - 1));
      Owner(b, w - 1, lo, b(w - 1), x)
    else
      w - 1
  }

  /** ... and in only one of them. */
  lemma OwnerUnique(b: nat -> int, w: nat, lo: int, hi: int, x: int, r1: nat, r2: nat)
    requires Tiles(b, w, lo, hi)
    requires r1 < w && b(r1) <= x < b(r1 + 1)
    requires r2 < w && b(r2) <= x < b(r2 + 1)
    ensures r1 == r2
  {
  }

  // ---------------------------------------------------------------------
  // The ranges as the ranks compute them

  /** The send ranges tile [0, worldSize * nodes_per_proc): rank r's range ends where rank r+1's starts. */
  lemma SendRangesTile(n: nat, worldSize: nat)
    requires worldSize >= 1
    ensures Tiles((r: nat) => SendStart(n, worldSize, r), worldSize, 0, worldSize * NodesPerProc(n, worldSize))
    ensures forall r: nat {:trigger SendEnd(n, worldSize, r)} :: SendEnd(n, worldSize, r) == SendStart(n, worldSize, r + 1)
  {
    var b: nat -> int := (r: nat) => SendStart(n, worldSize, r);
    forall r: nat | r < worldSize ensures b(r) <= b(r + 1) {
      MulMonotone(r, r + 1, NodesPerProc(n, worldSize));
    }
    StepsTile(b, worldSize);
  }

  /** A row below worldSize * nodes_per_proc is computed by exactly one rank. */
  lemma SendOwner(n: nat, worldSize: nat, row: int)
    requires worldSize >= 1 && 0 <= row < worldSize * NodesPerProc(n, worldSize)
    ensures exists r: nat :: InSendRange(n, worldSize, r, row)
    ensures forall r1: nat, r2: nat :: InSendRange(n, worldSize, r1, row) && InSendRange(n, worldSize, r2, row) ==> r1 == r2
  {
    var b: nat -> int := (r: nat) => SendStart(n, worldSize, r);
    SendRangesTile(n, worldSize);
    var r := Owner(b, worldSize, 0, worldSize * NodesPerProc(n, worldSize), row);
    assert InSendRange(n, worldSize, r, row);
    forall r1: nat, r2: nat | InSendRange(n, worldSize, r1, row) && InSendRange(n, worldSize, r2, row)
      ensures r1 == r2
    {
      OwnerUnique(b, worldSize, 0, worldSize * NodesPerProc(n, worldSize), row, r1, r2);
    }
  }

  /** The last `remainder` rows, from worldSize * nodes_per_proc on, are computed by no rank. */
  lemma SendMisses(n: nat, worldSize: nat, row: int, rank: nat)
    requires worldSize >= 1 && rank < worldSize
    requires worldSize * NodesPerProc(n, worldSize) <= row < n
    ensures !InSendRange(n, worldSize, rank, row)
    ensures n - worldSize * NodesPerProc(n, worldSize) == Remainder(n, worldSize)
  {
    MulMonotone(rank + 1, worldSize, NodesPerProc(n, worldSize));
  }

  /** When worldSize divides n, the two partitions agree and the ranks' ranges end at n. */
  lemma NoRemainder(n: nat, worldSize: nat)
    requires worldSize >= 1 && Remainder(n, worldSize) == 0
    ensures SendStart(n, worldSize, worldSize) == n
    ensures forall i: nat :: LocalStart(n, worldSize, i) == SendStart(n, worldSize, i)
  {
  }

  /**
    A rank sends as many distances as the root expects from it exactly when
    it is not among the first `remainder` ranks, or the graph is empty.
   */
  lemma CountsMatchIff(n: nat, worldSize: nat, rank: nat)
    requires worldSize >= 1
    ensures SentCount(n, worldSize, rank) == RecvCount(n, worldSize, rank)
        <==> (n == 0 || rank >= Remainder(n, worldSize))
  {
    var q := NodesPerProc(n, worldSize);
    assert SendEnd(n, worldSize, rank) - SendStart(n, worldSize, rank) == q by {
      assert (rank + 1) * q == rank * q + q;
    }
    if rank < Remainder(n, worldSize) {
      assert RecvCount(n, worldSize, rank) == q * n + n;
    }
  }

  /** Every rank's counts agree exactly when worldSize divides n. */
  lemma AllCountsMatchIff(n: nat, worldSize: nat)
    requires worldSize >= 1
    ensures (forall r: nat :: r < worldSize ==> SentCount(n, worldSize, r) == RecvCount(n, worldSize, r))
        <==> Remainder(n, worldSize) == 0
  {
    if Remainder(n, worldSize) != 0 {
      CountsMatchIff(n, worldSize, 0);
      assert n != 0;
    } else {
      forall r: nat | r < worldSize ensures SentCount(n, worldSize, r) == RecvCount(n, worldSize, r) {
        CountsMatchIff(n, worldSize, r);
      }
    }
  }

  // ---------------------------------------------------------------------
  // The partition the receive counts describe

  /** Rank i's rows start where ranks 0 .. i-1 end: LocalStart is the running sum of the row counts. */
  lemma {:induction false} RowsBeforeIsLocalStart(n: nat, worldSize: nat, i: nat)
    requires worldSize >= 1
    ensures RowsBefore(n, worldSize, i) == LocalStart(n, worldSize, i)
  {
    if i > 0 {
      RowsBeforeIsLocalStart(n, worldSize, i - 1);
      assert i * NodesPerProc(n, worldSize) == (i - 1) * NodesPerProc(n, worldSize) + NodesPerProc(n, worldSize);
    }
  }

  /** Rank i's range ends where rank i+1's starts. */
  lemma LocalEndIsNextStart(n: nat, worldSize: nat)
    requires worldSize >= 1
    ensures forall i: nat {:trigger LocalEnd(n, worldSize, i)} :: LocalEnd(n, worldSize, i) == LocalStart(n, worldSize, i + 1)
  {
    forall i: nat ensures LocalEnd(n, worldSize, i) == LocalStart(n, worldSize, i + 1) {
      RowsBeforeIsLocalStart(n, worldSize, i);
      RowsBeforeIsLocalStart(n, worldSize, i + 1);
    }
  }

  /** The ranges [LocalStart(i), LocalEnd(i)) tile [0, n). */
  lemma LocalRangesTile(n: nat, worldSize: nat)
    requires worldSize >= 1
    ensures Tiles((i: nat) => LocalStart(n, worldSize, i), worldSize, 0, n)
    ensures forall i: nat {:trigger LocalEnd(n, worldSize, i)} :: LocalEnd(n, worldSize, i) == LocalStart(n, worldSize, i + 1)
  {
    LocalEndIsNextStart(n, worldSize);
    var b: nat -> int := (i: nat) => LocalStart(n, worldSize, i);
    forall i: nat | i < worldSize ensures b(i) <= b(i + 1) {
      assert LocalStart(n, worldSize, i) <= LocalEnd(n, worldSize, i);
    }
    StepsTile(b, worldSize);
    assert b(worldSize) == n by {
      assert LocalStart(n, worldSize, worldSize) == worldSize * NodesPerProc(n, worldSize) + Remainder(n, worldSize);
    }
  }

  /** Every row is in exactly one rank's range of the corrected partition. */
  lemma LocalOwner(n: nat, worldSize: nat, row: int)
    requires worldSize >= 1 && 0 <= row < n
    ensures exists r: nat :: InLocalRange(n, worldSize, r, row)
    ensures forall r1: nat, r2: nat :: InLocalRange(n, worldSize, r1, row) && InLocalRange(n, worldSize, r2, row) ==> r1 == r2
  {
    var b: nat -> int := (i: nat) => LocalStart(n, worldSize, i);
    LocalRangesTile(n, worldSize);
    var r := Owner(b, worldSize, 0, n, row);
    assert InLocalRange(n, worldSize, r, row);
    forall r1: nat, r2: nat | InLocalRange(n, worldSize, r1, row) && InLocalRange(n, worldSize, r2, row)
      ensures r1 == r2
    {
      OwnerUnique(b, worldSize, 0, n, row, r1, r2);
    }
  }
}
