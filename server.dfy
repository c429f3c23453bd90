// The coordinator (servidor.c): the split of the rank space among the workers,
// the ordinal each session takes, and first-report-wins arbitration.
module Server {
  import opened Types
  import opened Arith
  import opened HashUtils

  /** Size of the thread table; main accepts total_workers sessions into it. */
  const MAX_WORKERS: nat := 10

  // ---------------------------------------------------------------------------
  // Range partition
  // ---------------------------------------------------------------------------

  /** First rank of worker id: id * (total / workers). */
  function RangeStart(id: nat, total: nat, workers: nat): nat
    requires workers >= 1
  {
    id * (total / workers)
  }

  /** One past the last rank of worker id; the last worker absorbs the remainder. */
  function RangeEnd(id: nat, total: nat, workers: nat): nat
    requires workers >= 1
  {
    if id == workers - 1 then total else (id + 1) * (total / workers)
  }

  /**
   * With at least one rank per worker, every range is non-empty and inside the
   * space, the first starts at 0, the last ends at total, and each range ends
   * where the next begins.
   */
  lemma {:induction false} RangeShape(id: nat, total: nat, workers: nat)
    requires 1 <= workers <= total && id < workers
    ensures RangeStart(id, total, workers) < RangeEnd(id, total, workers) <= total
    ensures id == 0 ==> RangeStart(id, total, workers) == 0
    ensures id == workers - 1 ==> RangeEnd(id, total, workers) == total
    ensures id + 1 < workers ==> RangeEnd(id, total, workers) == RangeStart(id + 1, total, workers)
  {
    var size := total / workers;
    DivModBounds(total, workers);
    assert size >= 1;
    MulMonotone(id + 1, workers, size);
    MulSucc(id, size);
    assert workers * size <= total;
  }

  /** A lower-numbered worker's range ends at or before a higher-numbered one starts. */
  lemma {:induction false} RangesDisjoint(i: nat, j: nat, total: nat, workers: nat)
    requires 1 <= workers <= total && i < j < workers
    ensures RangeEnd(i, total, workers) <= RangeStart(j, total, workers)
  {
  }

  /** The worker whose range holds rank r: the quotient by the range size, capped at the last. */
  function Owner(r: nat, total: nat, workers: nat): (id: nat)
    requires 1 <= workers <= total
    ensures id < workers
  {
    var q := r / (total / workers);
    if q < workers - 1 then q else workers - 1
  }

  /** Every rank of the space lies in its owner's range. */
  lemma {:induction false} OwnerOwns(r: nat, total: nat, workers: nat)
    requires 1 <= workers <= total && r < total
    ensures RangeStart(Owner(r, total, workers), total, workers) <= r < RangeEnd(Owner(r, total, workers), total, workers)
  {
    var size := total / workers;
    RangeShape(0, total, workers);
    assert size >= 1;
    var q := r / size;
    DivModBounds(r, size);
    MulSucc(q, size);
    if q >= workers - 1 {
      MulMonotone(workers - 1, q, size);
    }
  }

  /** No other worker's range holds r: the ranges partition [0, total). */
  lemma {:induction false} OwnerUnique(r: nat, id: nat, total: nat, workers: nat)
    requires 1 <= workers <= total && id < workers
    requires RangeStart(id, total, workers) <= r < RangeEnd(id, total, workers)
    ensures id == Owner(r, total, workers)
  {
    var o := Owner(r, total, workers);
    RangeShape(id, total, workers);
    OwnerOwns(r, total, workers);
    if id < o {
      RangesDisjoint(id, o, total, workers);
    } else if o < id {
      RangesDisjoint(o, id, total, workers);
    }
  }

  // ---------------------------------------------------------------------------
  // Range assignment
  // ---------------------------------------------------------------------------

  /** The product loop: charset_size multiplied in nonce_length times, starting from 1. */
  method TotalSpace(charsetSize: nat, nonceLength: nat) returns (total: u64)
    requires charsetSize < U64_LIMIT && Pow(charsetSize, nonceLength) < U64_LIMIT
    ensures total as nat == Pow(charsetSize, nonceLength)
  {
    total := 1;
    var i := 0;
    while i < nonceLength
      invariant 0 <= i <= nonceLength
      invariant total as nat == Pow(charsetSize, i)
    {
      assert Pow(charsetSize, i + 1) <= Pow(charsetSize, nonceLength) by {
        if charsetSize >= 1 {
          PowMonotoneExp(charsetSize, i + 1, nonceLength);
        }
      }
      total := total * charsetSize as u64;
      i := i + 1;
    }
  }

  /** Lines 61-64 on machine words: the first rank and the last (end - 1) of worker id. */
  method RangeBounds(total: u64, workers: nat, id: nat) returns (start: u64, last: u64)
    requires 1 <= workers <= total as nat && id < workers
    ensures start as nat == RangeStart(id, total as nat, workers)
    ensures last as nat + 1 == RangeEnd(id, total as nat, workers)
  {
    RangeShape(id, total as nat, workers);
    var rangeSize := total / workers as u64;
    start := id as u64 * rangeSize;
    var end := if id == workers - 1 then total else (id as u64 + 1) * rangeSize;
    last := end - 1;
  }

  /**
   * The pair of nonces worker id is sent: the numerals of the first rank of
   * its range and of the last one (end - 1).
   */
  function AssignedRange(config: WorkConfig, workers: nat, id: nat): WorkRange
    requires ValidConfig(config) && 1 <= workers && id < workers
    requires workers <= Pow(|config.charset|, config.nonceLength)
  {
    var total := Pow(|config.charset|, config.nonceLength);
    RangeShape(id, total, workers);
    WorkRange(Encode(RangeStart(id, total, workers), config.nonceLength, config.charset),
              Encode(RangeEnd(id, total, workers) - 1, config.nonceLength, config.charset))
  }

  /**
   * Both nonces sent to worker id are charset nonces of nonce_length symbols,
   * and they decode to the first and the last rank of its range, so the
   * bounds are inclusive at both ends.
   */
  lemma {:induction false} AssignedRangeDecodes(config: WorkConfig, workers: nat, id: nat)
    requires ValidConfig(config) && 1 <= workers && id < workers
    requires workers <= Pow(|config.charset|, config.nonceLength)
    ensures var range := AssignedRange(config, workers, id);
      |range.startNonce| == config.nonceLength == |range.endNonce| &&
      ValidNonce(range.startNonce, config.charset) && ValidNonce(range.endNonce, config.charset)
    ensures var range, total := AssignedRange(config, workers, id), Pow(|config.charset|, config.nonceLength);
      RankOrZero(range.startNonce, config.charset) == RangeStart(id, total, workers) &&
      RankOrZero(range.endNonce, config.charset) + 1 == RangeEnd(id, total, workers)
  {
    var len, cs := config.nonceLength, config.charset;
    var total := Pow(|cs|, len);
    RangeShape(id, total, workers);
    var start, last := RangeStart(id, total, workers), RangeEnd(id, total, workers) - 1;
    EncodeValid(start, len, cs);
    EncodeValid(last, len, cs);
    RankRoundTrip(start, len, cs);
    RankRoundTrip(last, len, cs);
  }

  /**
   * Lines 56-70: the space size, the bounds of worker id's range, and the
   * two nonces written with number_to_nonce.
   */
  method AssignRange(config: WorkConfig, workers: nat, id: nat) returns (range: WorkRange)
    requires ValidConfig(config) && 1 <= workers && id < workers
    requires workers <= Pow(|config.charset|, config.nonceLength)
    ensures range == AssignedRange(config, workers, id)
    ensures |range.startNonce| == config.nonceLength == |range.endNonce|
    ensures ValidNonce(range.startNonce, config.charset) && ValidNonce(range.endNonce, config.charset)
    ensures var total := Pow(|config.charset|, config.nonceLength);
      RankOrZero(range.startNonce, config.charset) == RangeStart(id, total, workers) &&
      RankOrZero(range.endNonce, config.charset) + 1 == RangeEnd(id, total, workers)
  {
    var len, cs := config.nonceLength, config.charset;
    SpaceFits(|cs|, len);
    var total := TotalSpace(|cs|, len);
    var start, last := RangeBounds(total, workers, id);
    var startBuf := new byte[MAX_NONCE_SIZE];
    var endBuf := new byte[MAX_NONCE_SIZE];
    NumberToNonce(start, startBuf, len, cs);
    NumberToNonce(last, endBuf, len, cs);
    range := WorkRange(startBuf[..len], endBuf[..len]);
    AssignedRangeDecodes(config, workers, id);
  }

  // ---------------------------------------------------------------------------
  // Arbitration
  // ---------------------------------------------------------------------------

  /** What a worker sends on success: its nonce bytes and their hash. */
  datatype Report = Report(nonce: seq<byte>, hash: u64)

  /** solution_found with solution_nonce and solution_hash, read as one value. */
  datatype Solution = Unsolved | Solved(nonce: seq<byte>, hash: u64)

  /** The critical section: the first report is recorded, later ones are ignored. */
  function Record(s: Solution, r: Report): Solution
  {
    if s.Unsolved? then Solved(r.nonce, r.hash) else s
  }

  /** Reports arriving one after another, in the order the mutex admits them. */
  function RecordAll(s: Solution, rs: seq<Report>): Solution
    decreases |rs|
  {
    if rs == [] then s else RecordAll(Record(s, rs[0]), rs[1..])
  }

  /** A recorded solution survives every later report. */
  lemma {:induction false} SolvedIsFinal(s: Solution, rs: seq<Report>)
    requires s.Solved?
    ensures RecordAll(s, rs) == s
    decreases |rs|
  {
    if rs != [] {
      SolvedIsFinal(Record(s, rs[0]), rs[1..]);
    }
  }

  /** Whatever the order, the run's solution is the first report admitted. */
  lemma {:induction false} FirstReportWins(rs: seq<Report>)
    requires rs != []
    ensures RecordAll(Unsolved, rs) == Solved(rs[0].nonce, rs[0].hash)
  {
    SolvedIsFinal(Solved(rs[0].nonce, rs[0].hash), rs[1..]);
  }

  /** The coordinator's shared state (ServerState without the mutex). */
  class ServerState {
    const config: WorkConfig
    const totalWorkers: nat
    var workersConnected: nat
    var solutionFound: bool
    var solutionNonce: seq<byte>
    var solutionHash: u64

    /** What main sets up: a configuration the buffers allow, at least one rank per worker. */
    ghost predicate Valid()
      reads this
    {
      ValidConfig(config) &&
      1 <= totalWorkers <= MAX_WORKERS &&
      totalWorkers <= Pow(|config.charset|, config.nonceLength) &&
      workersConnected <= totalWorkers
    }

    /** The arbitration state as a value. */
    function Current(): (s: Solution)
      reads this
      ensures s.Solved? <==> solutionFound
    {
      if solutionFound then Solved(solutionNonce, solutionHash) else Unsolved
    }

    /** The state after the memset in main: no session yet, no solution. */
    constructor (config: WorkConfig, totalWorkers: nat)
      requires ValidConfig(config) && 1 <= totalWorkers <= MAX_WORKERS
      requires totalWorkers <= Pow(|config.charset|, config.nonceLength)
      ensures Valid() && this.config == config && this.totalWorkers == totalWorkers
      ensures workersConnected == 0 && Current() == Unsolved
    {
      this.config := config;
      this.totalWorkers := totalWorkers;
      workersConnected := 0;
      solutionFound := false;
      solutionNonce := [];
      solutionHash := 0;
    }

    /**
     * A session starts: it takes the next ordinal (post-increment) and the
     * range of that ordinal. Nothing about the solution changes.
     */
    method Connect() returns (id: nat, range: WorkRange)
      requires Valid() && workersConnected < totalWorkers
      modifies this
      ensures Valid()
      ensures id == old(workersConnected) && workersConnected == id + 1
      ensures Current() == old(Current())
      ensures range == AssignedRange(config, totalWorkers, id)
      ensures |range.startNonce| == config.nonceLength == |range.endNonce|
      ensures ValidNonce(range.startNonce, config.charset) && ValidNonce(range.endNonce, config.charset)
      ensures var total := Pow(|config.charset|, config.nonceLength);
        RankOrZero(range.startNonce, config.charset) == RangeStart(id, total, totalWorkers) &&
        RankOrZero(range.endNonce, config.charset) + 1 == RangeEnd(id, total, totalWorkers)
    {
      id := workersConnected;
      workersConnected := workersConnected + 1;
      range := AssignRange(config, totalWorkers, id);
    }

    /**
     * The rest of a session: unless a solution is already recorded, wait for
     * one report (None when the worker disconnects first), record it if the
     * flag is still clear, and answer with the stop byte 1.
     */
    method AwaitReport(report: Option<Report>) returns (stop: byte)
      requires Valid()
      modifies this
      ensures Valid() && workersConnected == old(workersConnected)
      ensures stop == 1
      ensures Current() == if report.Some? then Record(old(Current()), report.value) else old(Current())
    {
      if !solutionFound {
        if report.Some? {
          if !solutionFound {
            solutionFound := true;
            solutionNonce := report.value.nonce;
            solutionHash := report.value.hash;
          }
        }
      }
      stop := 1;
    }
  }
}
