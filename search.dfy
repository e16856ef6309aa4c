/** The search a worker runs (`run`): derive the threshold and the prefix
    once, then hash prefix + nonce for the nonces start, start + step,
    start + 2 step, ... until a candidate is a block, a share is refused,
    or something raises. Every 5,000,000 attempts a checkpoint reads the
    clock, and past 90 seconds the inner pass restarts with the nonce
    where it was.

    The outside world enters as functions: SHA-256, the base-58 decoder,
    the pool's answer to a share, and the seconds elapsed at a checkpoint
    (keyed by the nonce reached there, which never repeats: see
    NoNonceTwice). */
module Search {

  import opened Wrappers
  import opened Bytes
  import opened Builtins
  import Hex
  import Difficulty
  import Address
  import Header
  import Arith

  /** What the node's `get_mining_info` reports. */
  datatype Job = Job(difficulty: real, lastBlock: Header.LastBlock, pendingTransactions: seq<string>)

  /** The foreign functions `run` calls. */
  datatype World = World(
    sha256: Bytes -> Digest,
    base58: string -> Option<Bytes>,
    poolAccepts: Bytes -> bool,
    elapsed: int -> real)

  /** What `run` computes before its loop: the threshold, the closure
      `check_block_is_valid` built on it, and the prefix. */
  datatype Mining = Mining(
    threshold: Difficulty.Threshold,
    checkBlockIsValid: Bytes -> Option<Difficulty.Verdict>,
    prefix: Bytes)

  /** `check_block_is_valid`: hash the candidate, then judge its hex digest
      against the threshold. */
  function CheckBlockIsValid(threshold: Difficulty.Threshold, sha256: Bytes -> Digest)
    : Bytes -> Option<Difficulty.Verdict>
  {
    c => Difficulty.Check(Hex.ToHex(sha256(c)), threshold)
  }

  datatype SetupError = BadAddress | BadTransaction | BadPrefix(error: Header.PrefixError)

  /** Lines 35-72 of `run`: the threshold, then the address, the digest and
      the prefix, each of which may raise. */
  function Setup(job: Job, address: string, configured: Option<int>, timestamp: int, world: World)
    : Result<Mining, SetupError>
  {
    var previousHash := Header.BlockHash(job.lastBlock);
    var threshold := Difficulty.MakeThreshold(job.difficulty, previousHash, configured);
    match Address.StringToBytes(address, world.base58)
    case None => Err(BadAddress)
    case Some(addressBytes) =>
      match Address.TransactionsDigest(job.pendingTransactions, world.sha256)
      case None => Err(BadTransaction)
      case Some(digestHex) =>
        match Header.Prefix(previousHash, addressBytes, digestHex, timestamp, job.difficulty)
        case Err(e) => Err(BadPrefix(e))
        case Ok(prefix) => Ok(Mining(threshold, CheckBlockIsValid(threshold, world.sha256), prefix))
  }

  /** The digest field never fails to read: it is a hex digest. */
  lemma SetupDigestReads(job: Job, address: string, configured: Option<int>, timestamp: int, world: World)
    ensures Setup(job, address, configured, timestamp, world) != Err(BadPrefix(Header.BadDigest))
  {
    if Address.JoinHex(job.pendingTransactions).Some? {
      Address.DigestReadsBack(job.pendingTransactions, world.sha256);
    }
  }

  /** Each way setting up can fail, in the order `run` meets them: the
      address first, then the transactions, then the prefix; and a setup
      that succeeds carries the prefix `Header.Prefix` builds from the
      decoded address and the transactions digest. */
  lemma SetupPrefix(job: Job, address: string, configured: Option<int>, timestamp: int, world: World)
    ensures var s := Setup(job, address, configured, timestamp, world);
            var a := Address.StringToBytes(address, world.base58);
            var d := Address.TransactionsDigest(job.pendingTransactions, world.sha256);
            && (s == Err(BadAddress) <==> a.None?)
            && (s == Err(BadTransaction) <==> a.Some? && d.None?)
            && (s.Err? && s.error.BadPrefix? <==>
                  a.Some? && d.Some? &&
                  Header.Prefix(Header.BlockHash(job.lastBlock), a.value, d.value, timestamp, job.difficulty).Err?)
            && (s.Ok? ==>
                  a.Some? && d.Some? &&
                  Header.Prefix(Header.BlockHash(job.lastBlock), a.value, d.value, timestamp, job.difficulty)
                    == Ok(s.value.prefix))
  {
  }

  /** Everything the loop depends on. */
  datatype Config = Config(mining: Mining, start: int, step: int, world: World)

  /** Attempts between two checkpoints, counted in units of `step`. */
  const CHECKPOINT: int := 5_000_000

  /** Seconds after which a checkpoint restarts the inner pass. */
  const TIMEOUT: real := 90.0

  /** The nonce of the k-th attempt. */
  function Nonce(cfg: Config, k: nat): int {
    cfg.start + k * cfg.step
  }

  /** How one attempt ends. Only Continue lets the search go on. */
  datatype Attempt =
    | Overflow(nonce: int)              // the nonce does not fit 4 bytes
    | IndexFault(candidate: Bytes)      // the digest is indexed out of range
    | ShareRejected(candidate: Bytes)   // the pool refused a share: exit()
    | Mined(candidate: Bytes)           // a block: submitted to the node, then exit()
    | StepZero(candidate: Bytes)        // `% check` with check == 0
    | ClockZero(candidate: Bytes)       // the hashrate divides by 0 elapsed seconds
    | Continue(candidate: Bytes, share: bool, timedOut: bool)

  /** The verdict on a candidate. */
  function Judge(cfg: Config, c: Bytes): Option<Difficulty.Verdict> {
    cfg.mining.checkBlockIsValid(c)
  }

  /** The checkpoint test `(i - start) % check == 0`, made once the nonce
      has advanced to `next`; a zero `check` is handled before it. */
  predicate AtCheckpoint(cfg: Config, next: int)
    requires cfg.step != 0
  {
    (next - cfg.start) % (CHECKPOINT * cfg.step) == 0
  }

  /** The attempt on nonce n, in the order the loop body does things:
      build the candidate, judge it, post a share, stop on a block, advance
      the nonce, and at a checkpoint read the clock. */
  function AttemptOn(cfg: Config, n: int): Attempt {
    match Header.Candidate(cfg.mining.prefix, n)
    case None => Overflow(n)
    case Some(c) =>
      match Judge(cfg, c)
      case None => IndexFault(c)
      case Some(v) =>
        if v.share && !cfg.world.poolAccepts(c) then ShareRejected(c)
        else if v.block then Mined(c)
        else if cfg.step == 0 then StepZero(c)
        else if !AtCheckpoint(cfg, n + cfg.step) then Continue(c, v.share, false)
        else
          var seconds := cfg.world.elapsed(n + cfg.step);
          if seconds == 0.0 then ClockZero(c)
          else Continue(c, v.share, seconds > TIMEOUT)
  }

  /** The k-th attempt. */
  function AttemptAt(cfg: Config, k: nat): Attempt {
    AttemptOn(cfg, Nonce(cfg, k))
  }

  /** The share posted by the attempt on nonce n, if any: a candidate whose
      digest passes the share test. */
  function ShareOn(cfg: Config, n: int): seq<Bytes> {
    match Header.Candidate(cfg.mining.prefix, n)
    case None => []
    case Some(c) =>
      match Judge(cfg, c)
      case Some(v) => if v.share then [c] else []
      case None => []
  }

  /** The first n attempts all let the search go on. */
  predicate ContinuesBefore(cfg: Config, n: nat) {
    n == 0 || (ContinuesBefore(cfg, n - 1) && AttemptAt(cfg, n - 1).Continue?)
  }

  /** ContinuesBefore says that each of the first n attempts continues. */
  lemma {:induction false} ContinuesBeforeEach(cfg: Config, n: nat, k: nat)
    requires ContinuesBefore(cfg, n) && k < n
    ensures AttemptAt(cfg, k).Continue?
  {
    if k < n - 1 {
      ContinuesBeforeEach(cfg, n - 1, k);
    }
  }

  /** The shares posted by the first n attempts, in order. */
  function SharesBefore(cfg: Config, n: nat): seq<Bytes> {
    if n == 0 then [] else SharesBefore(cfg, n - 1) + ShareOn(cfg, Nonce(cfg, n - 1))
  }

  /** How many of the first n attempts ended at a checkpoint past the
      timeout, that is, how many times the inner pass restarted. */
  function TimeoutsBefore(cfg: Config, n: nat): nat {
    if n == 0 then 0
    else
      var a := AttemptAt(cfg, n - 1);
      TimeoutsBefore(cfg, n - 1) + (if a.Continue? && a.timedOut then 1 else 0)
  }

  /** After an attempt that continues, the next one is a step further on,
      the share list grows by this attempt's share, and the restart count
      by one if its checkpoint timed out. */
  lemma Advance(cfg: Config, k: nat, c: Bytes, share: bool, timedOut: bool)
    requires ContinuesBefore(cfg, k)
    requires AttemptAt(cfg, k) == Continue(c, share, timedOut)
    ensures ContinuesBefore(cfg, k + 1)
    ensures Nonce(cfg, k + 1) == Nonce(cfg, k) + cfg.step
    ensures SharesBefore(cfg, k + 1) == SharesBefore(cfg, k) + (if share then [c] else [])
    ensures TimeoutsBefore(cfg, k + 1) == TimeoutsBefore(cfg, k) + (if timedOut then 1 else 0)
  {
    assert (k + 1) * cfg.step == k * cfg.step + cfg.step;
  }

  /** How far the nonce still is from leaving the 4-byte range. */
  function Remaining(i: int, step: int): nat {
    if step > 0 then (if i < 0x1_0000_0000 then 0x1_0000_0000 - i else 0)
    else if step < 0 then (if i >= 0 then i + 1 else 0)
    else 0
  }

  /** One pass of the inner `while True` loop of `run` (lines 74-104),
      entered at the attempt numbered `tried0` on nonce `i0`. It ends either
      with how the search ends (Some) or, when a checkpoint finds the time
      out, with None and the nonce moved on: exactly one of its attempts
      timed out, the last one. */
  method Pass(cfg: Config, i0: int, tried0: nat, shares0: seq<Bytes>)
    returns (ended: Option<Attempt>, i: int, tried: nat, shares: seq<Bytes>)
    requires i0 == Nonce(cfg, tried0) && ContinuesBefore(cfg, tried0)
    requires shares0 == SharesBefore(cfg, tried0)
    ensures tried >= tried0 && ContinuesBefore(cfg, tried)
    ensures TimeoutsBefore(cfg, tried) == TimeoutsBefore(cfg, tried0) + (if ended.None? then 1 else 0)
    ensures ended.Some? ==> ended.value == AttemptAt(cfg, tried) && !ended.value.Continue?
                            && shares == SharesBefore(cfg, tried + 1)
    ensures ended.None? ==> i == Nonce(cfg, tried) && shares == SharesBefore(cfg, tried)
                            && Remaining(i, cfg.step) < Remaining(i0, cfg.step)
  {
    var prefix, start, step := cfg.mining.prefix, cfg.start, cfg.step;
    i, tried, shares := i0, tried0, shares0;
    var found := true;
    var check := CHECKPOINT * step;
    var candidate: Bytes;
    while true
      invariant i == Nonce(cfg, tried) && tried >= tried0
      invariant ContinuesBefore(cfg, tried)
      invariant shares == SharesBefore(cfg, tried)
      invariant TimeoutsBefore(cfg, tried) == TimeoutsBefore(cfg, tried0)
      invariant Remaining(i, step) <= Remaining(i0, step)
      decreases Remaining(i, step)
    {
      var encoded := Header.Candidate(prefix, i);
      if encoded.None? {
        return Some(Overflow(i)), i, tried, shares;
      }
      candidate := encoded.value;
      var verdict := Judge(cfg, candidate);
      if verdict.None? {
        return Some(IndexFault(candidate)), i, tried, shares;
      }
      if verdict.value.share {
        shares := shares + [candidate];
        if !cfg.world.poolAccepts(candidate) {
          return Some(ShareRejected(candidate)), i, tried, shares;
        }
      }
      if verdict.value.block {
        break;
      }
      ghost var previous := i;
      i := i + step;
      if check == 0 {
        return Some(StepZero(candidate)), i, tried, shares;
      }
      assert Remaining(i, step) < Remaining(previous, step);
      if AtCheckpoint(cfg, i) {
        var seconds := cfg.world.elapsed(i);
        if seconds == 0.0 {
          return Some(ClockZero(candidate)), i, tried, shares;
        }
        if seconds > TIMEOUT {
          found := false;
        }
      }
      Advance(cfg, tried, candidate, verdict.value.share, !found);
      tried := tried + 1;
      if !found {
        break;
      }
    }
    ended := if found then Some(Mined(candidate)) else None;
  }

  /** The outer `while True` loop of `run`: passes follow each other, each
      starting where the last one left the nonce. The attempts before the
      last all continue; the last one is how the search ends; the shares
      posted are exactly those of the attempts made, in order; and the
      inner pass restarted once per timed-out checkpoint. */
  method Run(cfg: Config) returns (outcome: Attempt, tried: nat, shares: seq<Bytes>, restarts: nat)
    ensures ContinuesBefore(cfg, tried)
    ensures outcome == AttemptAt(cfg, tried) && !outcome.Continue?
    ensures shares == SharesBefore(cfg, tried + 1)
    ensures restarts == TimeoutsBefore(cfg, tried)
  {
    var i := cfg.start;
    tried, shares, restarts := 0, [], 0;
    while true
      invariant i == Nonce(cfg, tried)
      invariant ContinuesBefore(cfg, tried)
      invariant shares == SharesBefore(cfg, tried)
      invariant restarts == TimeoutsBefore(cfg, tried)
      decreases Remaining(i, cfg.step)
    {
      var ended;
      ended, i, tried, shares := Pass(cfg, i, tried, shares);
      if ended.Some? {
        return ended.value, tried, shares, restarts;
      }
      restarts := restarts + 1;
    }
  }

  /** The clock is read after attempt k (numbered from 0) exactly when
      k + 1 attempts have been made and that count is a multiple of
      5,000,000, whatever the sign of the step. */
  lemma CheckpointExact(cfg: Config, k: nat)
    requires cfg.step != 0
    ensures AtCheckpoint(cfg, Nonce(cfg, k) + cfg.step) <==> (k + 1) % CHECKPOINT == 0
  {
    assert Nonce(cfg, k) + cfg.step - cfg.start == (k + 1) * cfg.step;
    Arith.ModMultiple(k + 1, cfg.step, CHECKPOINT);
  }

  /** With a nonzero step no nonce is tried twice: a restart after a
      timeout goes on from where the nonce was. */
  lemma NoNonceTwice(cfg: Config, k1: nat, k2: nat)
    requires cfg.step != 0 && k1 != k2
    ensures Nonce(cfg, k1) != Nonce(cfg, k2)
  {
    assert Nonce(cfg, k1) - Nonce(cfg, k2) == (k1 - k2) * cfg.step;
    Arith.MulAwayFromZero(cfg.step, k1 - k2);
  }

  /** Every attempt that lets the search go on was made on a nonce that
      fits 4 bytes: the search stops at the end of the range rather than
      wrapping around. */
  lemma NonceInRange(cfg: Config, n: nat, k: nat)
    requires ContinuesBefore(cfg, n) && k < n
    ensures 0 <= Nonce(cfg, k) < 0x1_0000_0000
  {
    ContinuesBeforeEach(cfg, n, k);
  }

  /** The shares posted are candidates whose digest passes the share test,
      at most one per attempt. */
  lemma {:induction false} SharesAreValid(cfg: Config, n: nat)
    ensures |SharesBefore(cfg, n)| <= n
    ensures forall j :: 0 <= j < |SharesBefore(cfg, n)| ==>
              Judge(cfg, SharesBefore(cfg, n)[j]).Some? && Judge(cfg, SharesBefore(cfg, n)[j]).value.share
  {
    if n > 0 {
      SharesAreValid(cfg, n - 1);
    }
  }

  /** With the judge Setup builds, every share posted before the n-th
      attempt has a digest that passes the share test of the threshold. */
  lemma SharesPassShareTest(cfg: Config, difficulty: real, previousHash: string, configured: Option<int>,
                            n: nat)
    requires cfg.mining.checkBlockIsValid == CheckBlockIsValid(
               Difficulty.MakeThreshold(difficulty, previousHash, configured), cfg.world.sha256)
    ensures var t := Difficulty.MakeThreshold(difficulty, previousHash, configured);
            forall j :: 0 <= j < |SharesBefore(cfg, n)| ==>
              Difficulty.Check(Hex.ToHex(cfg.world.sha256(SharesBefore(cfg, n)[j])), t).Some? &&
              Difficulty.Check(Hex.ToHex(cfg.world.sha256(SharesBefore(cfg, n)[j])), t).value.share
  {
    var t := Difficulty.MakeThreshold(difficulty, previousHash, configured);
    SharesAreValid(cfg, n);
    forall j | 0 <= j < |SharesBefore(cfg, n)|
      ensures Difficulty.Check(Hex.ToHex(cfg.world.sha256(SharesBefore(cfg, n)[j])), t).Some?
      ensures Difficulty.Check(Hex.ToHex(cfg.world.sha256(SharesBefore(cfg, n)[j])), t).value.share
    {
      var c := SharesBefore(cfg, n)[j];
      assert Judge(cfg, c) == Difficulty.Check(Hex.ToHex(cfg.world.sha256(c)), t);
    }
  }

  /** The judge Setup builds is the block test of the job's threshold on
      the hex digest of the candidate. */
  lemma SetupJudge(job: Job, address: string, configured: Option<int>, timestamp: int, world: World)
    requires Setup(job, address, configured, timestamp, world).Ok?
    ensures var t := Difficulty.MakeThreshold(job.difficulty, Header.BlockHash(job.lastBlock), configured);
            var m := Setup(job, address, configured, timestamp, world).value;
            m.threshold == t && m.checkBlockIsValid == CheckBlockIsValid(t, world.sha256)
  {
  }

  /** The candidate a search ends with as Mined is the prefix followed by
      the nonce reached; its hex digest passes the block test of the
      threshold, and also the share test, so the pool was sent it, and
      accepted it, before it was submitted as a block. */
  lemma MinedIsBlock(cfg: Config, difficulty: real, previousHash: string, configured: Option<int>,
                     k: nat, c: Bytes)
    requires cfg.mining.checkBlockIsValid == CheckBlockIsValid(
               Difficulty.MakeThreshold(difficulty, previousHash, configured), cfg.world.sha256)
    requires AttemptAt(cfg, k) == Mined(c)
    ensures Header.Candidate(cfg.mining.prefix, Nonce(cfg, k)) == Some(c)
    ensures var t := Difficulty.MakeThreshold(difficulty, previousHash, configured);
            Difficulty.Check(Hex.ToHex(cfg.world.sha256(c)), t) == Some(Difficulty.Verdict(true, true))
    ensures cfg.world.poolAccepts(c)
  {
    var t := Difficulty.MakeThreshold(difficulty, previousHash, configured);
    var h := Hex.ToHex(cfg.world.sha256(c));
    assert Judge(cfg, c) == Difficulty.Check(h, t);
    Difficulty.BlockImpliesShare(h, difficulty, previousHash, configured);
  }

  /** A candidate that is both a share and a block, but whose share the
      pool refuses, ends the search without being submitted. */
  lemma RejectedShareHidesBlock(cfg: Config, k: nat, c: Bytes)
    requires Header.Candidate(cfg.mining.prefix, Nonce(cfg, k)) == Some(c)
    requires Judge(cfg, c) == Some(Difficulty.Verdict(true, true))
    requires !cfg.world.poolAccepts(c)
    ensures AttemptAt(cfg, k) == ShareRejected(c)
    ensures !AttemptAt(cfg, k).Mined?
  {
  }

  /** How the search of `run` ends after attempt k, for a job whose judge
      is `CheckBlockIsValid` on the job's threshold: as Mined only on a
      candidate passing both tests and accepted by the pool, with every
      share posted passing the share test. */
  lemma SearchEndsWell(cfg: Config, difficulty: real, previousHash: string, configured: Option<int>,
                       k: nat)
    requires cfg.mining.checkBlockIsValid == CheckBlockIsValid(
               Difficulty.MakeThreshold(difficulty, previousHash, configured), cfg.world.sha256)
    ensures var t := Difficulty.MakeThreshold(difficulty, previousHash, configured);
            var a := AttemptAt(cfg, k);
            a.Mined? ==>
              && Difficulty.Check(Hex.ToHex(cfg.world.sha256(a.candidate)), t) == Some(Difficulty.Verdict(true, true))
              && cfg.world.poolAccepts(a.candidate)
    ensures var t := Difficulty.MakeThreshold(difficulty, previousHash, configured);
            var shares := SharesBefore(cfg, k + 1);
            forall j :: 0 <= j < |shares| ==>
              Difficulty.Check(Hex.ToHex(cfg.world.sha256(shares[j])), t).Some? &&
              Difficulty.Check(Hex.ToHex(cfg.world.sha256(shares[j])), t).value.share
  {
    if AttemptAt(cfg, k).Mined? {
      MinedIsBlock(cfg, difficulty, previousHash, configured, k, AttemptAt(cfg, k).candidate);
    }
    SharesPassShareTest(cfg, difficulty, previousHash, configured, k + 1);
  }

  /** The search of `run` for a job whose judge is `CheckBlockIsValid`
      on the job's threshold: a search that ends as Mined ends on a
      candidate whose digest passes both tests of that threshold and that
      the pool accepted as a share; every share posted passes the share
      test. */
  method Mine(cfg: Config, difficulty: real, previousHash: string, configured: Option<int>)
    returns (outcome: Attempt, tried: nat, shares: seq<Bytes>)
    requires cfg.mining.checkBlockIsValid == CheckBlockIsValid(
               Difficulty.MakeThreshold(difficulty, previousHash, configured), cfg.world.sha256)
    ensures ContinuesBefore(cfg, tried) && outcome == AttemptAt(cfg, tried) && !outcome.Continue?
    ensures shares == SharesBefore(cfg, tried + 1)
    ensures var t := Difficulty.MakeThreshold(difficulty, previousHash, configured);
            outcome.Mined? ==>
              && Difficulty.Check(Hex.ToHex(cfg.world.sha256(outcome.candidate)), t) == Some(Difficulty.Verdict(true, true))
              && cfg.world.poolAccepts(outcome.candidate)
    ensures var t := Difficulty.MakeThreshold(difficulty, previousHash, configured);
            forall j :: 0 <= j < |shares| ==>
              Difficulty.Check(Hex.ToHex(cfg.world.sha256(shares[j])), t).Some? &&
              Difficulty.Check(Hex.ToHex(cfg.world.sha256(shares[j])), t).value.share
  {
    var restarts;
    outcome, tried, shares, restarts := Run(cfg);
    SearchEndsWell(cfg, difficulty, previousHash, configured, tried);
  }

  /** `run` as a whole: set up, then search from `start` by `step`. A
      setup error is raised before any hashing; otherwise the search runs
      on the job's threshold, with the guarantees of `Mine`. */
  method Worker(job: Job, address: string, configured: Option<int>, timestamp: int, world: World,
                start: int, step: int)
    returns (r: Result<Attempt, SetupError>, tried: nat, shares: seq<Bytes>)
    ensures Setup(job, address, configured, timestamp, world).Err? ==>
              r == Err(Setup(job, address, configured, timestamp, world).error) && tried == 0 && shares == []
    ensures var s := Setup(job, address, configured, timestamp, world);
            s.Ok? ==>
              var cfg := Config(s.value, start, step, world);
              && ContinuesBefore(cfg, tried)
              && r == Ok(AttemptAt(cfg, tried)) && !r.value.Continue?
              && shares == SharesBefore(cfg, tried + 1)
    ensures var t := Difficulty.MakeThreshold(job.difficulty, Header.BlockHash(job.lastBlock), configured);
            r.Ok? && r.value.Mined? ==>
              && Difficulty.Check(Hex.ToHex(world.sha256(r.value.candidate)), t) == Some(Difficulty.Verdict(true, true))
              && world.poolAccepts(r.value.candidate)
    ensures var t := Difficulty.MakeThreshold(job.difficulty, Header.BlockHash(job.lastBlock), configured);
            forall j :: 0 <= j < |shares| ==>
              Difficulty.Check(Hex.ToHex(world.sha256(shares[j])), t).Some? &&
              Difficulty.Check(Hex.ToHex(world.sha256(shares[j])), t).value.share
  {
    var setup := Setup(job, address, configured, timestamp, world);
    if setup.Err? {
      return Err(setup.error), 0, [];
    }
    SetupJudge(job, address, configured, timestamp, world);
    var outcome;
    outcome, tried, shares := Mine(Config(setup.value, start, step, world), job.difficulty,
                            Header.BlockHash(job.lastBlock), configured);
    r := Ok(outcome);
  }
}
