// The worker (worker.c): decode the assigned range, scan its ranks in order,
// hash each candidate and report the first one that meets the difficulty.
module Worker {
  import opened Types
  import opened Arith
  import opened HashUtils
  import opened Server

  /** The candidate of rank r: its hash, text first, has the required trailing zeros. */
  predicate Passes(config: WorkConfig, r: nat)
    requires |config.charset| >= 1
  {
    MeetsDifficulty(HashOf(config.text, Encode(r, config.nonceLength, config.charset)), config.difficulty)
  }

  /** How a scan ends: `found` set with the rank it stopped at and what was sent, or not. */
  datatype Outcome = Found(rank: nat, report: Report) | Exhausted

  /**
   * The loop body before the test: rank i written into current_nonce, the
   * candidate hashed after the text, the difficulty checked.
   */
  method TryRank(config: WorkConfig, i: u64, current: array<byte>) returns (candidate: seq<byte>, hash: u64, ok: bool)
    requires ValidConfig(config) && current.Length == MAX_NONCE_SIZE
    modifies current
    ensures candidate == Encode(i as nat, config.nonceLength, config.charset)
    ensures current[..config.nonceLength] == candidate && current[config.nonceLength] == 0
    ensures forall k :: config.nonceLength < k < current.Length ==> current[k] == old(current[k])
    ensures hash as nat == HashOf(config.text, candidate)
    ensures ok <==> Passes(config, i as nat)
  {
    var len, text := config.nonceLength, config.text;
    NumberToNonce(i, current, len, config.charset);
    candidate := current[..len];
    hash := CalculateHash(text, |text|, candidate, len);
    assert text[..|text|] == text && candidate[..len] == candidate;
    ok := VerifyDifficulty(hash, config.difficulty);
  }

  /**
   * The search loop: ranks lo..hi inclusive, in increasing order, each
   * encoded into current_nonce, hashed and tested; the first that passes is
   * reported and ends the scan. attempts counts the ranks tried.
   */
  method Scan(config: WorkConfig, lo: u64, hi: u64) returns (outcome: Outcome, attempts: u64)
    requires ValidConfig(config) && hi as nat < Pow(|config.charset|, config.nonceLength)
    ensures outcome.Found? ==>
      lo as nat <= outcome.rank <= hi as nat && Passes(config, outcome.rank) &&
      (forall r :: lo as nat <= r < outcome.rank ==> !Passes(config, r)) &&
      attempts as nat == outcome.rank - lo as nat + 1
    ensures outcome.Found? ==>
      outcome.report.nonce == Encode(outcome.rank, config.nonceLength, config.charset) &&
      outcome.report.hash as nat == HashOf(config.text, outcome.report.nonce)
    ensures outcome.Exhausted? ==>
      (forall r :: lo as nat <= r <= hi as nat ==> !Passes(config, r)) &&
      attempts as nat == if lo <= hi then hi as nat - lo as nat + 1 else 0
  {
    SpaceFits(|config.charset|, config.nonceLength);
    var current := new byte[MAX_NONCE_SIZE];
    attempts := 0;
    var i := lo;
    while i <= hi
      invariant lo <= i && i as nat <= if lo <= hi then hi as nat + 1 else lo as nat
      invariant attempts as nat == i as nat - lo as nat
      invariant forall r :: lo as nat <= r < i as nat ==> !Passes(config, r)
    {
      var candidate, hash, ok := TryRank(config, i, current);
      attempts := attempts + 1;
      if ok {
        outcome := Found(i as nat, Report(candidate, hash));
        return;
      }
      i := i + 1;
    }
    outcome := Exhausted;
  }

  /**
   * A worker's whole scan: the two range nonces decoded into start_num and
   * end_num (a nonce with a symbol outside the charset decodes to 0), then
   * the loop over that interval.
   */
  method Search(config: WorkConfig, range: WorkRange) returns (outcome: Outcome, attempts: u64)
    requires ValidConfig(config)
    requires |range.startNonce| == config.nonceLength == |range.endNonce|
    ensures var lo, hi := RankOrZero(range.startNonce, config.charset), RankOrZero(range.endNonce, config.charset);
      outcome.Found? ==>
        lo <= outcome.rank <= hi && Passes(config, outcome.rank) &&
        (forall r :: lo <= r < outcome.rank ==> !Passes(config, r)) &&
        attempts as nat == outcome.rank - lo + 1 &&
        outcome.report.nonce == Encode(outcome.rank, config.nonceLength, config.charset) &&
        outcome.report.hash as nat == HashOf(config.text, outcome.report.nonce)
    ensures var lo, hi := RankOrZero(range.startNonce, config.charset), RankOrZero(range.endNonce, config.charset);
      outcome.Exhausted? ==>
        (forall r :: lo <= r <= hi ==> !Passes(config, r)) &&
        attempts as nat == if lo <= hi then hi - lo + 1 else 0
  {
    var len, cs := config.nonceLength, config.charset;
    var startNum := NonceToNumber(range.startNonce, len, cs);
    var endNum := NonceToNumber(range.endNonce, len, cs);
    assert range.startNonce[..len] == range.startNonce && range.endNonce[..len] == range.endNonce;
    outcome, attempts := Scan(config, startNum, endNum);
  }

  /** Rank r lies in the interval worker id decodes from the two nonces it is sent. */
  predicate InScan(config: WorkConfig, workers: nat, id: nat, r: nat)
    requires ValidConfig(config) && 1 <= workers <= Pow(|config.charset|, config.nonceLength) && id < workers
  {
    var range := AssignedRange(config, workers, id);
    RankOrZero(range.startNonce, config.charset) <= r <= RankOrZero(range.endNonce, config.charset)
  }

  /**
   * The workers' scans together cover the space once: every rank below
   * size^len lies in the decoded interval of exactly one worker, its owner.
   */
  lemma {:induction false} ScansPartitionSpace(config: WorkConfig, workers: nat, r: nat)
    requires ValidConfig(config) && 1 <= workers <= Pow(|config.charset|, config.nonceLength)
    requires r < Pow(|config.charset|, config.nonceLength)
    ensures InScan(config, workers, Owner(r, Pow(|config.charset|, config.nonceLength), workers), r)
    ensures forall id :: 0 <= id < workers && InScan(config, workers, id, r) ==>
      id == Owner(r, Pow(|config.charset|, config.nonceLength), workers)
  {
    var total := Pow(|config.charset|, config.nonceLength);
    var o := Owner(r, total, workers);
    OwnerOwns(r, total, workers);
    AssignedRangeDecodes(config, workers, o);
    forall id | 0 <= id < workers && InScan(config, workers, id, r)
      ensures id == o
    {
      AssignedRangeDecodes(config, workers, id);
      OwnerUnique(r, id, total, workers);
    }
  }

  /**
   * When every worker's scan of its decoded interval comes back empty, no
   * nonce of the space meets the difficulty.
   */
  lemma {:induction false} AllExhaustedNoSolution(config: WorkConfig, workers: nat)
    requires ValidConfig(config) && 1 <= workers <= Pow(|config.charset|, config.nonceLength)
    requires forall id, r :: 0 <= id < workers && InScan(config, workers, id, r) ==> !Passes(config, r)
    ensures forall r :: 0 <= r < Pow(|config.charset|, config.nonceLength) ==> !Passes(config, r)
  {
    var total := Pow(|config.charset|, config.nonceLength);
    forall r | 0 <= r < total
      ensures !Passes(config, r)
    {
      ScansPartitionSpace(config, workers, r);
    }
  }
}
