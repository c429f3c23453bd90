# Distributed proof-of-work search, modelled in Dafny

The system hashes a text followed by a fixed-length nonce ("relleno") drawn
from a charset. It looks for a nonce whose hash ends in `difficulty` decimal
zeros. A coordinator splits the space of all nonces into one contiguous
interval per worker and sends each worker its first and last nonce. Each
worker scans its interval in order and reports the first hit. The
coordinator records the first report it receives and sends every worker a
stop byte.

The model has four modules:

- `Types` (`types.dfy`): the bounds and records of `hash_utils.h`.
  - C `char` is a `byte` (0..255, the unsigned view `calculate_hash` uses), and the terminator is 0.
  - `uint64_t` is the newtype `u64`, so every arithmetic step on it is checked to stay below 2^64.
  - `WorkConfig` and `WorkRange` are values.
- `Arith` (`arith.dfy`): `Pow` and the division and modulus facts the codec needs.
- `HashUtils` (`hash_utils.dfy`): the five helpers of `hash_utils.c`. Each loop is a method proved against a specification function:
  - `HashOf`, a fold, for the hash;
  - `MeetsDifficulty`, divisibility by 10^d, for the difficulty test;
  - `Encode`, `Value` and `RankOrZero`, the base-|charset| numeral, for the nonce and rank conversions;
  - `Successor`, the odometer step, for `increment_nonce`.

  Lemmas then relate these functions: the round trips, wrap-around modulo size^len, and the fact that the odometer step adds one to the rank.
- `Server` (`server.dfy`): the range partition of `handle_worker`.
  - It is given as the functions `RangeStart`, `RangeEnd` and `Owner`, proved to partition [0, size^len).
  - `AssignRange` computes one worker's pair of nonces on machine words.
  - First-report-wins arbitration is modelled as a fold (`Record`, `RecordAll`).
  - The class `ServerState` holds the fields the sessions update: the connection counter and the solution slot.
- `Worker` (`worker.dfy`): the scan loop of `worker.c`.
  - It is proved to stop at the smallest passing rank of its interval, or to report that the interval has none.
  - Lemmas show that the workers' intervals together cover every nonce exactly once, so if every scan is empty, no nonce meets the difficulty.

## Model

| member | source | states |
|---|---|---|
| HashUtils.CalculateHash | hash_utils.c:8-22 | the returned hash is the fold h := (31*h + byte) mod 999999937 over the first text_len text bytes and then the first nonce_len nonce bytes, starting from 0; it is below the prime, and 0 for two empty inputs |
| HashUtils.HashOfConcat | hash_utils.c:8-22 | hashing text then nonce in two loops equals one fold over their concatenation |
| HashUtils.VerifyDifficulty | hash_utils.c:24-32 | returns 1 exactly when the hash is divisible by 10^difficulty; any difficulty <= 0 passes |
| HashUtils.HighDifficultyOnlyZero | hash_utils.c:24-32 | for hashes below the prime and difficulty >= 10 only hash 0 passes |
| HashUtils.FindIndex | hash_utils.c:47-53 | the charset scan returns the first position holding the symbol, or -1 exactly when it is absent |
| HashUtils.IndexOfDistinct | hash_utils.c:48-53 | with a charset of distinct symbols the scan returns the position of the symbol itself |
| HashUtils.NumberToNonce | hash_utils.c:35-41 | writes the len-digit base-|charset| numeral of num (higher digits dropped) into nonce[0..len) and the terminator at nonce[len], leaving the rest of the buffer unchanged |
| HashUtils.NonceToNumber | hash_utils.c:43-61 | returns the rank of the first len symbols when all are in the charset, 0 otherwise; the rank is below size^len, so the u64 accumulator never wraps |
| HashUtils.EncodeAt | hash_utils.c:36-38 | position i of the numeral of num holds the symbol (num / size^(len-1-i)) mod size |
| HashUtils.SpaceFits | hash_utils.c:35-61 | with len < 10 and at most 64 symbols the space size^len is at most 2^54, below 2^64 |
| HashUtils.RankRoundTrip | hash_utils.c:35-61 | decoding the nonce made from num gives num mod size^len, and num itself when it is in range |
| HashUtils.NonceRoundTrip | hash_utils.c:35-61 | encoding the rank of a charset nonce gives back the same nonce, and that rank is below size^len |
| HashUtils.EncodeWraps | hash_utils.c:35-41 | number_to_nonce of num equals number_to_nonce of num mod size^len |
| HashUtils.InvalidLooksLikeZero | hash_utils.c:55 | a nonce with a symbol outside the charset decodes to the same 0 as the first nonce cs[0]...cs[0] |
| HashUtils.IncrementNonce | hash_utils.c:64-87 | the buffer's first len bytes and the result are exactly the odometer successor of the old nonce; bytes from len onward are unchanged |
| HashUtils.SuccessorRank | hash_utils.c:64-87 | on a charset nonce, increment returns 1 exactly when rank+1 < size^len; it then advances the rank by one, and on 0 every position is reset to cs[0] |
| HashUtils.SuccessorCarry | hash_utils.c:78-83 | a position is rewritten only when every position to its right held the last symbol |
| HashUtils.IterateFromZero | hash_utils.c:64-87 | k increments from the all-cs[0] nonce produce the numeral of k |
| HashUtils.SuccessorSweep | hash_utils.c:64-87 | starting from the all-cs[0] nonce, the first size^len - 1 increments report success and the next reports overflow |
| Server.RangeShape | servidor.c:61-64 | with workers <= total each range is non-empty and inside [0, total); range 0 starts at 0, the last ends at total, and each ends where the next starts |
| Server.RangesDisjoint | servidor.c:61-64 | a lower worker's range ends at or before a higher worker's starts |
| Server.OwnerOwns | servidor.c:61-64 | every rank below total lies in the range of its owner |
| Server.OwnerUnique | servidor.c:61-64 | a rank lies in no range other than its owner's |
| Server.TotalSpace | servidor.c:56-59 | the product loop computes charset_size^nonce_length |
| Server.RangeBounds | servidor.c:61-64 | computes on 64-bit words the start of worker id's range and end - 1, without overflow |
| Server.AssignedRangeDecodes | servidor.c:61-70 | the two nonces sent to worker id have nonce_length charset symbols and decode to the first and the last rank of its range |
| Server.AssignRange | servidor.c:56-70 | the nonces written are the numerals of start and end - 1; both are charset nonces of nonce_length symbols whose ranks are the first and last rank of worker id's range |
| Server.SolvedIsFinal | servidor.c:87-100 | once a solution is recorded, no later report changes it |
| Server.FirstReportWins | servidor.c:87-100 | over any order of reports, the recorded solution is the first report admitted |
| Server.ServerState.constructor | servidor.c:12-23 | the initial state has no session and no solution |
| Server.ServerState.Connect | servidor.c:46-75 | a session takes the post-incremented ordinal and that ordinal's pair of nonces, both nonce_length charset nonces decoding to the first and last rank of its range; the solution slot is unchanged |
| Server.ServerState.AwaitReport | servidor.c:81-107 | the report, if any arrives, is recorded only when none was recorded before; the answer is the stop byte 1 |
| Worker.TryRank | worker.c:70-86 | current_nonce holds the numeral of rank i followed by the terminator, the rest of the buffer unchanged; the candidate sent is that numeral, its hash is the fold of text then candidate, and the test passes exactly when that hash meets the difficulty |
| Worker.Scan | worker.c:68-102 | ranks lo..hi are tried in order; on a hit the reported rank is in range, passes, and no smaller rank of the range passes; otherwise no rank of the range passes; attempts counts the ranks tried |
| Worker.Search | worker.c:55-102 | the same as Scan over the ranks decoded from start_nonce and end_nonce, with the report's nonce and hash being the winning candidate and its hash |
| Worker.ScansPartitionSpace | servidor.c:61-70 | every rank below size^len lies between the decoded start and end nonce of exactly one worker, its owner |
| Worker.AllExhaustedNoSolution | worker.c:104-106 | if no rank between any worker's decoded start and end nonce passes (what Search reports on exhaustion), no nonce of the space meets the difficulty |

## Left out

- Sockets: `send`, `recv`, `accept` and `close` are left out. A worker's report reaches `AwaitReport` as an `Option<Report>` parameter, with `None` meaning the peer closed first.
- Accept failures in `main` are left out, so an ordinal whose session never starts leaves its range unscanned.
- Threads and the mutex are not modelled. `RecordAll` takes the reports in the order the mutex admits them.
  - The unlocked read of `solution_found` in the loop guard at servidor.c:81 is modelled as a read of the current state.
  - The data race itself is not modelled.
- The framing of a report is not modelled.
  - The worker sends nonce_length bytes, while the server reads up to MAX_NONCE_SIZE bytes and `strcpy`s them without a terminator.
  - The model passes the nonce as a value.
- Logging (`printf`), `clock()` and the floating-point hash rate are left out, including the progress print every 100000 attempts.
- `load_text`, argument parsing with `atoi`, and the build-up of the charset in `main` are left out. The configuration is a parameter.
- The byte layout of `WorkConfig` and `WorkRange` on the wire is not modelled.
- Server.AssignRange requires 1 <= total_workers <= size^len. With fewer ranks than workers, `range_size` is 0, and `end - 1` wraps for the non-last workers. The model excludes that case rather than modelling the wrap.
- Server.ServerState.constructor requires nonce_length < 10, at most 64 distinct charset symbols, text shorter than 10000 bytes and at most 10 workers. Each of these is what the fixed-size buffers of `hash_utils.h` and `servidor.c` allow. Together they make size^len at most 2^54, so `total_space` never wraps.
- HashUtils.NumberToNonce requires a non-empty charset even when len is 0. In C, `num % 0` would be undefined as soon as the loop runs.
- Worker.Search does not model the `strcpy` of start_nonce into current_nonce at worker.c:56-57, because the loop overwrites current_nonce before reading it.
- Worker.Search does not model the loop `i <= end_num` never ending at `end_num == UINT64_MAX`, because end_num is below size^len <= 2^54.
- A difficulty of 10 or more does not rule out a solution: hash 0 passes every difficulty (`HighDifficultyOnlyZero`).
