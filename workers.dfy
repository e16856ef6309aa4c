/** How the supervisor splits the nonce space between its worker
    processes: worker number i (from 1) starts at i - 1 and every worker
    steps by the number of workers, so the workers' progressions are the
    residue classes modulo that number. */
module Workers {

  import Arith
  import Search

  /** The `start` and `step` one worker's `run` is given. */
  datatype Assignment = Assignment(start: int, step: int)

  /** The loop over `range(1, workers + 1)`: one assignment per worker, in
      order; none at all when the count is not positive. */
  method AssignWorkers(workers: int) returns (assignments: seq<Assignment>)
    ensures |assignments| == if workers > 0 then workers else 0
    ensures forall j :: 0 <= j < |assignments| ==> assignments[j] == Assignment(j, workers)
  {
    assignments := [];
    var i := 1;
    while i < workers + 1
      invariant 1 <= i <= (if workers > 0 then workers + 1 else 1)
      invariant |assignments| == i - 1
      invariant forall j :: 0 <= j < |assignments| ==> assignments[j] == Assignment(j, workers)
    {
      assignments := assignments + [Assignment(i - 1, workers)];
      i := i + 1;
    }
  }

  /** A search configured with the assignment's start and step. */
  predicate Runs(cfg: Search.Config, a: Assignment) {
    cfg.start == a.start && cfg.step == a.step
  }

  /** Two workers of the same supervisor never try the same nonce, and one
      worker never tries a nonce twice: the same nonce means the same worker
      at the same attempt. */
  lemma Disjoint(workers: int, j1: int, j2: int, cfg1: Search.Config, cfg2: Search.Config, k1: nat, k2: nat)
    requires 0 <= j1 < workers && 0 <= j2 < workers
    requires Runs(cfg1, Assignment(j1, workers)) && Runs(cfg2, Assignment(j2, workers))
    requires Search.Nonce(cfg1, k1) == Search.Nonce(cfg2, k2)
    ensures j1 == j2 && k1 == k2
  {
    assert (k1 - k2) * workers == j2 - j1;
    if k1 != k2 {
      Arith.MulAwayFromZero(workers, k1 - k2);
      assert false;
    }
  }

  /** Every natural number is tried by the worker whose start is its
      remainder modulo the number of workers, at the attempt numbered by
      its quotient. */
  lemma Covering(workers: int, n: nat, cfg: Search.Config)
    requires workers > 0
    requires Runs(cfg, Assignment(n % workers, workers))
    ensures 0 <= n % workers < workers && n / workers >= 0
    ensures Search.Nonce(cfg, n / workers) == n
  {
    var q := n / workers;
    assert n == q * workers + n % workers;
    if q < 0 {
      Arith.MulAwayFromZero(workers, q);
      assert false;
    }
  }

  /** With four workers the second one tries 1, 5, 9, ... */
  method FourWorkers() returns (second: Assignment)
    ensures second == Assignment(1, 4)
    ensures forall cfg: Search.Config, k: nat :: Runs(cfg, second) ==> Search.Nonce(cfg, k) == 1 + 4 * k
  {
    var assignments := AssignWorkers(4);
    second := assignments[1];
  }
}
