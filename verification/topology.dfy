/**
 * Rank arithmetic of the ring: neighbours, and which segment a worker sends and
 * receives in each round of the allgather loop (src/collective/allgather.cc).
 *
 * The C++ code reduces a non-negative sum below 3 * world with `%`. On non-negative
 * operands C++'s truncating remainder and Dafny's Euclidean remainder agree; the model
 * writes the reduction as at most two subtractions of `world` (Wrap) and proves, in
 * SendRankFormula and RecvRankFormula, that this is the source's `%` expression.
 */
module Topology {

  /** x reduced into [0, w) by subtracting w at most twice. */
  function Wrap(x: int, w: int): (y: int)
    requires 0 < w && 0 <= x < 3 * w
    ensures 0 <= y < w && y <= x
  {
    if x < w then x else if x < 2 * w then x - w else x - 2 * w
  }

  /** Wrap is the Euclidean (and, on these operands, the C++) remainder. */
  lemma {:induction false} WrapIsMod(x: int, w: int)
    requires 0 < w && 0 <= x < 3 * w
    ensures Wrap(x, w) == x % w
  {
    var q := if x < w then 0 else if x < 2 * w then 1 else 2;
    ModUnique(x, w, q, Wrap(x, w));
  }

  /** Euclidean division is unique: a decomposition x == q*w + m with 0 <= m < w gives x % w. */
  lemma ModUnique(x: int, w: int, q: int, m: int)
    requires 0 < w && 0 <= m < w && x == q * w + m
    ensures x % w == m
  {
    var q', m' := x / w, x % w;
    assert x == q' * w + m';
    assert (q - q') * w == m' - m;
    MulBounds(q - q', w);
  }

  /** A non-zero multiple of w is at least w away from 0. */
  lemma MulBounds(d: int, w: int)
    requires w > 0
    ensures d >= 1 ==> d * w >= w
    ensures d <= -1 ==> d * w <= -w
  {
    if d >= 1 {
      assert d * w == w + (d - 1) * w;
    } else if d <= -1 {
      assert d * w == -w + (d + 1) * w;
    }
  }

  /**
   * BootstrapPrev: the predecessor of k in the ring. Its code is not part of this model;
   * the model takes it to be (k - 1 + world) % world (PrevFormula).
   */
  function Prev(k: nat, world: nat): (p: nat)
    requires k < world
    ensures p < world
  {
    if k == 0 then world - 1 else k - 1
  }

  /**
   * BootstrapNext: the successor of k in the ring. Its code is not part of this model;
   * the model takes it to be (k + 1) % world (NextFormula).
   */
  function Next(k: nat, world: nat): (n: nat)
    requires k < world
    ensures n < world
  {
    if k == world - 1 then 0 else k + 1
  }

  lemma {:induction false} PrevFormula(k: nat, world: nat)
    requires k < world
    ensures Prev(k, world) == (k - 1 + world) % world
  {
    WrapIsMod(k - 1 + world, world);
  }

  lemma {:induction false} NextFormula(k: nat, world: nat)
    requires k < world
    ensures Next(k, world) == (k + 1) % world
  {
    WrapIsMod(k + 1, world);
  }

  /** Going one step back and one step forward in the ring, in either order, is the identity. */
  lemma NextPrev(k: nat, world: nat)
    requires k < world
    ensures Next(Prev(k, world), world) == k
    ensures Prev(Next(k, world), world) == k
  {
  }

  /** The segment worker `rank` sends in round r: (rank + world - r + worker_off) % world. */
  function SendRank(rank: nat, world: nat, r: nat, workerOff: nat): (s: nat)
    requires rank < world && r < world && workerOff < world
    ensures s < world
  {
    Wrap(rank + world - r + workerOff, world)
  }

  /** The segment worker `rank` receives in round r: (rank + world - r - 1 + worker_off) % world. */
  function RecvRank(rank: nat, world: nat, r: nat, workerOff: nat): (s: nat)
    requires rank < world && r < world && workerOff < world
    ensures s < world
  {
    Wrap(rank + world - r - 1 + workerOff, world)
  }

  /**
   * The send rank is the source's expression: its operand is never negative, because
   * r <= world - 1, and it stays below 3 * world.
   */
  lemma {:induction false} SendRankFormula(rank: nat, world: nat, r: nat, workerOff: nat)
    requires rank < world && r < world && workerOff < world
    ensures 0 <= rank + world - r + workerOff
    ensures SendRank(rank, world, r, workerOff) == (rank + world - r + workerOff) % world
  {
    WrapIsMod(rank + world - r + workerOff, world);
  }

  /** The receive rank is the source's expression, whose operand is never negative either. */
  lemma {:induction false} RecvRankFormula(rank: nat, world: nat, r: nat, workerOff: nat)
    requires rank < world && r < world && workerOff < world
    ensures 0 <= rank + world - r - 1 + workerOff
    ensures RecvRank(rank, world, r, workerOff) == (rank + world - r - 1 + workerOff) % world
  {
    WrapIsMod(rank + world - r - 1 + workerOff, world);
  }

  /**
   * How many rounds segment i needs to reach worker k: worker k starts with the segment
   * at distance 0 and, after round r, also holds the one at distance r + 1.
   */
  function Dist(k: nat, i: nat, world: nat, workerOff: nat): (d: nat)
    requires k < world && i < world && workerOff < world
    ensures d < world
  {
    Wrap(k + workerOff - i + world, world)
  }

  /** Ring consistency: what worker k receives in round r is what its predecessor sends in round r. */
  lemma {:induction false} RingConsistent(k: nat, world: nat, r: nat, workerOff: nat)
    requires k < world && r < world && workerOff < world
    ensures RecvRank(k, world, r, workerOff) == SendRank(Prev(k, world), world, r, workerOff)
  {
  }

  /** A worker forwards in round r + 1 the segment it received in round r. */
  lemma {:induction false} Forwards(k: nat, world: nat, r: nat, workerOff: nat)
    requires k < world && r + 1 < world && workerOff < world
    ensures SendRank(k, world, r + 1, workerOff) == RecvRank(k, world, r, workerOff)
  {
  }

  /** No segment is received twice in the `world` rounds. */
  lemma {:induction false} RecvRankInjective(k: nat, world: nat, r1: nat, r2: nat, workerOff: nat)
    requires k < world && r1 < world && r2 < world && workerOff < world
    requires RecvRank(k, world, r1, workerOff) == RecvRank(k, world, r2, workerOff)
    ensures r1 == r2
  {
  }

  /** The round in which worker k receives segment i: every segment is received in some round. */
  function RoundReceiving(k: nat, world: nat, i: nat, workerOff: nat): (r: nat)
    requires k < world && i < world && workerOff < world
    ensures r < world && RecvRank(k, world, r, workerOff) == i
  {
    Wrap(Dist(k, i, world, workerOff) + world - 1, world)
  }

  /** The last round re-receives the segment the worker started with. */
  lemma {:induction false} LastRoundReceivesOwn(k: nat, world: nat, workerOff: nat)
    requires k < world && workerOff < world
    ensures RecvRank(k, world, world - 1, workerOff) == SendRank(k, world, 0, workerOff)
  {
  }

  /** The starting segment of worker k is the one at distance 0, and only that one. */
  lemma {:induction false} DistZero(k: nat, i: nat, world: nat, workerOff: nat)
    requires k < world && i < world && workerOff < world
    ensures Dist(k, i, world, workerOff) == 0 <==> i == SendRank(k, world, 0, workerOff)
  {
  }

  /**
   * Distances of the segment received in round r: it had reached the predecessor after
   * r rounds, and reaches the receiver after r + 1 (after 0, the last round being a repeat).
   */
  lemma {:induction false} DistOfReceived(k: nat, world: nat, r: nat, workerOff: nat)
    requires k < world && r < world && workerOff < world
    ensures Dist(Prev(k, world), RecvRank(k, world, r, workerOff), world, workerOff) == r
    ensures Dist(k, RecvRank(k, world, r, workerOff), world, workerOff) == if r + 1 < world then r + 1 else 0
  {
  }

  /** The only segment at distance r + 1 from worker k is the one it receives in round r. */
  lemma {:induction false} DistUnique(k: nat, i: nat, world: nat, r: nat, workerOff: nat)
    requires k < world && i < world && r + 1 < world && workerOff < world
    requires Dist(k, i, world, workerOff) == r + 1
    ensures i == RecvRank(k, world, r, workerOff)
  {
  }
}
