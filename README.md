# Pool miner search, modelled in Dafny

This project models the search engine of a proof-of-work pool miner
(`pool_miner.py`). A worker is given a mining job: a difficulty, the last
block and the pending transaction hashes. From the job it works out two
thresholds:

- a **block** threshold: the SHA-256 hex digest of a candidate must start
  with the last `int(difficulty)` hex digits of the previous block hash;
- a **share** threshold: the digest must start with the first
  `share_difficulty` of those digits.

When the difficulty has a fractional part f, a block also needs the next
digit to be one of the first `ceil(16 (1 - f))` hex digits.

The worker builds a byte prefix: an optional 0x02 tag, the previous hash,
the miner address, the transactions digest, the timestamp and ten times the
difficulty. It then hashes the prefix followed by a 4-byte nonce, for the
nonces `start, start + step, start + 2 step, ...`.
- A share is posted to the pool, and a refusal ends the worker.
- A block ends the search and is submitted.
- Every 5,000,000 attempts a checkpoint reads the clock. Past 90 seconds the
  inner pass restarts, with the nonce left where it was.

The supervisor gives worker i (from 1) the start i - 1 and the step
`workers`.

Modules:

- `Bytes` covers `int.to_bytes(n, 'little')`, which raises rather than
  wraps, and its inverse.
- `Hex` covers `bytes.fromhex`, which skips ASCII white space before each
  pair and accepts both cases, and `hex()`.
- `Builtins` covers the Python operations the miner depends on, with
  Python's edge cases:
  - `int()` truncates toward zero;
  - `% 1` floors;
  - `math.ceil`;
  - slicing with negative or out-of-range bounds;
  - indexing that raises.
- `Difficulty` covers the thresholds and `check_block_is_valid`. The
  difficulty is an exact real number.
- `Address` covers `string_to_bytes` (hex first, base 58 only as a
  fallback) and the transactions digest.
- `Header` covers the sentinel last block, the prefix, the candidate and a
  parser that reads a prefix back.
- `Search` covers `run`:
  - `Setup` is everything before the loop, with each way it can raise.
  - `AttemptOn` is a function stating what one attempt does, in the loop's
    own order.
  - `Pass` is the inner `while True`, as a method.
  - `Run` is the outer `while True`, as a method.
  - The methods are proved against `AttemptAt`, `SharesBefore` and
    `TimeoutsBefore`.
- `Workers` covers the start/step assignment and the proof that the
  workers' nonces partition the naturals.
- `Arith` holds remainder facts used by the checkpoint and partition
  proofs.

SHA-256, the base-58 decoder, the pool's answer to a share and the clock are
foreign. They enter as function-valued parameters (`Search.World`). A SHA-256
result is any 32-byte string.

The search always ends; the model needs no fuel. It ends for one of these
reasons:
- a block;
- a refused share;
- the nonce leaving [0, 2^32), where `to_bytes` raises (`Overflow`);
- the digest being indexed out of range (`IndexFault`);
- a zero step, where `% check` divides by zero (`StepZero`);
- zero elapsed seconds at a checkpoint, where the hash-rate print divides
  by zero (`ClockZero`).

## Model

| member | source | states |
|---|---|---|
| Bytes.ToBytes | pool_miner.py:70 | `to_bytes` succeeds exactly for 0 <= v < 256^n and then gives n bytes; otherwise it raises |
| Bytes.FromToLittleEndian | pool_miner.py:70 | decoding the little-endian bytes of a value that fits gives the value back |
| Bytes.ToFromLittleEndian | pool_miner.py:70 | encoding the value of any byte string gives the same bytes back |
| Bytes.LeastSignificantFirst | pool_miner.py:70 | the first byte written is the value modulo 256 |
| Bytes.NonceFieldRange | pool_miner.py:77 | a 4-byte field accepts exactly 0..2^32-1; 2^32 raises instead of wrapping to 0 |
| Hex.FromHex | pool_miner.py:19 | a decoding has at most half as many bytes as the text has characters |
| Hex.ToHex | pool_miner.py:26 | `hexdigest()` writes two lower-case digits per byte |
| Hex.DigitsTable | pool_miner.py:46 | the charset string lists exactly the lower-case hex digits, each at its value |
| Hex.FromToHex | pool_miner.py:26 | `fromhex` of a hex digest gives back the digest's bytes |
| Hex.OddDigitCountRejected | pool_miner.py:18-21 | an odd number of digits makes `fromhex` raise |
| Hex.FromHexOfDigits | pool_miner.py:70 | an even number of lower-case digits is read as half as many bytes |
| Builtins.Truncate | pool_miner.py:38 | `int(x)` lies within one of x, on x's side of zero |
| Builtins.FracPart | pool_miner.py:36 | `x % 1` is in [0, 1), and x minus it is a whole number (so it is x - floor(x)); it is 0 exactly for whole x |
| Builtins.Ceil | pool_miner.py:48 | `ceil(x)` is the least integer not below x |
| Builtins.SliceBound | pool_miner.py:43-44 | a slice bound counts from the end when negative and is clamped to [0, n] |
| Builtins.SliceFrom | pool_miner.py:43 | `s[j:]` is the suffix of s of length len(s) minus the clamped bound of j |
| Builtins.SliceTo | pool_miner.py:44 | `s[:j]` is the prefix of s whose length is the clamped bound of j |
| Builtins.At | pool_miner.py:54 | `s[j]` is defined exactly for -len <= j < len and is s[j] for j >= 0 |
| Builtins.StartsWith | pool_miner.py:54 | `h.startswith(p)` holds exactly when p is no longer than h and equals h's first len(p) characters |
| Difficulty.MakeThreshold | pool_miner.py:35-50 | the share chunk is a prefix of the block chunk; the charset is a prefix of the hex digits |
| Difficulty.ShareDifficulty | pool_miner.py:38 | `SHARE_DIFFICULTY or int(difficulty) - 2`; its properties are stated by `ShareDifficultyOr` |
| Difficulty.ShareDifficultyOr | pool_miner.py:38 | a configured 0 behaves exactly like no setting: both give `int(difficulty) - 2`; any other configured value is used as is |
| Difficulty.CharsetCount | pool_miner.py:48 | `ceil(16 (1 - f))`; its range and monotonicity are stated by `CharsetCountRange` and `CharsetCountAntitone` |
| Difficulty.Check | pool_miner.py:52-58 | share iff the digest starts with the share chunk; a block starts with the chunk, and for a whole difficulty (any chunk, any share difficulty) the test never raises and block iff the digest starts with the chunk; it raises exactly in the fractional branch, on a digest starting with the chunk, when `int(difficulty)` is out of its index range |
| Difficulty.BlockImpliesShare | pool_miner.py:43-58 | every candidate valid as a block is valid as a share, in both branches |
| Difficulty.CheckDefined | pool_miner.py:52-54 | the test raises only when `int(difficulty)` is not a position in the digest |
| Difficulty.ChunkIsSuffix | pool_miner.py:43 | the chunk is the last n digits of the previous hash; for n = 0 (`[-0:]`) it is the whole hash |
| Difficulty.ShareChunkIsHead | pool_miner.py:44 | the share chunk is the first k digits of the chunk; a negative k drops digits from the end; 0 configured counts as unset; a k beyond the chunk's length keeps the whole chunk |
| Difficulty.WholeDifficulty | pool_miner.py:55-58 | with a whole difficulty n: block iff the digest starts with the previous hash's last n digits; share iff it starts with the first k of them |
| Difficulty.CharsetCountRange | pool_miner.py:47-49 | for 0 < f < 1 the charset has between 1 and 16 digits |
| Difficulty.CharsetCountAntitone | pool_miner.py:48 | a larger fractional part never allows more digits |
| Difficulty.InDigitsPrefix | pool_miner.py:46-49 | a character is among the first `count` digits iff it is a lower-case digit of value below `count` |
| Difficulty.CharsetMeaning | pool_miner.py:46-49 | the charset is the first ceil(16 (1 - f)) digits: exactly the digits of value below 16 (1 - f) |
| Difficulty.FractionalBlock | pool_miner.py:52-54 | in the fractional branch, block iff the digest starts with the chunk and its next digit is in the charset |
| Difficulty.CharsetShrinks | pool_miner.py:46-49 | whatever the whole parts, a larger fractional part gives a charset contained in the smaller one's |
| Difficulty.HalfDigitExample | pool_miner.py:46-54 | difficulty 5.5 allows '0'..'7' after the chunk: '7' is a block, '8' is not |
| Difficulty.WholeDifficultyExample | pool_miner.py:38-58 | difficulty 3, share difficulty 1: "a9..." is a share only, "abc4..." is both |
| Address.HexShadowsBase58 | pool_miner.py:17-22 | a string that is valid hex is decoded as hex, never as base 58 |
| Address.Base58Fallback | pool_miner.py:17-22 | a string that is not hex is whatever the base-58 decoder makes of it |
| Address.HexAddressRoundTrip | pool_miner.py:17-19 | the hex form of any bytes decodes to those bytes |
| Address.HexLookingBase58 | pool_miner.py:17-22 | the base-58 text "11" is read as the hex byte 0x11 |
| Address.InvalidAddress | pool_miner.py:17-22 | "0O" is not hex, and with a decoder that rejects it (the base-58 alphabet has neither '0' nor 'O') `string_to_bytes` raises |
| Address.StringToBytes | pool_miner.py:17-22 | hex first, base 58 on failure; stated by `HexShadowsBase58`, `Base58Fallback` and `InvalidAddress` |
| Address.JoinHex | pool_miner.py:26 | the join succeeds iff every transaction hash is hex; a single hash contributes exactly its `fromhex` bytes (with `JoinHexAppend` this fixes the join of any list) |
| Address.JoinHexAppend | pool_miner.py:26 | joining xs + ys gives the join of xs followed by the join of ys, and fails if either fails |
| Address.TransactionsDigest | pool_miner.py:25-26 | the digest exists iff every transaction hash is hex, and is then 64 characters |
| Address.DigestReadsBack | pool_miner.py:26 | the digest is 64 lower-case digits that read back as the 32 hashed bytes |
| Address.FlatDigest | pool_miner.py:25-26 | only the concatenation is hashed: ["ab","cd"] and ["abcd"] give the same digest |
| Header.SentinelHash | pool_miner.py:41 | the sentinel is 64 digits that read back as 30062005 in 32 little-endian bytes |
| Header.Defaults | pool_miner.py:41-42 | a missing hash becomes the sentinel and a missing id becomes 0; present values are kept |
| Header.BlockHash | pool_miner.py:41 | the stored hash or the sentinel; stated by `Defaults` |
| Header.BlockId | pool_miner.py:42 | the stored id or 0; stated by `Defaults` |
| Header.Tag | pool_miner.py:71-72 | the tag is one byte for a 33-byte address and empty otherwise |
| Header.EncodedDifficulty | pool_miner.py:70 | for a non-negative difficulty, `int(10 d)` is the whole number in (10 d - 1, 10 d] |
| Header.Prefix | pool_miner.py:70-72 | the prefix and each way building it raises; stated by `PrefixBuilt`, `PrefixLength` and `PrefixRoundTrip` |
| Header.Candidate | pool_miner.py:77 | the candidate exists exactly for nonces in [0, 2^32) |
| Header.SentinelBytes | pool_miner.py:41 | the sentinel's 32 bytes decode to 30062005 |
| Header.CandidateIsToBytes | pool_miner.py:77 | the candidate is the prefix followed by `to_bytes(4, 'little')` of the nonce, and raises exactly when that does |
| Header.PrefixLength | pool_miner.py:70-72 | the prefix is (1 if the address has 33 bytes else 0) + 70 + the address length |
| Header.PrefixBuilt | pool_miner.py:70 | the prefix is built iff both hex fields read, the timestamp fits 32 bits and `int(10 d)` fits 16 bits |
| Header.FieldSlices | pool_miner.py:70 | the concatenated fields are recovered at fixed offsets |
| Header.ParseLayout | pool_miner.py:70-72 | parsing tag ‖ fields returns the fields |
| Header.PrefixRoundTrip | pool_miner.py:70-72 | the prefix parses back to previous hash, address, digest, timestamp and `int(10 d)`; byte 0 is 0x02 for a 33-byte address |
| Header.CandidateLayout | pool_miner.py:77 | the candidate is the prefix plus exactly 4 bytes that decode to the nonce |
| Search.SetupDigestReads | pool_miner.py:65-70 | setting up never fails on reading the transactions digest back |
| Search.Setup | pool_miner.py:35-72 | the work before the loop; stated by `SetupPrefix`, `SetupJudge` and `SetupDigestReads` |
| Search.SetupPrefix | pool_miner.py:60-72 | setup fails on the address exactly when `string_to_bytes` does, then on the transactions exactly when the digest does, then on the prefix exactly when `Header.Prefix` does; on success its prefix is `Header.Prefix` of the decoded address and the digest |
| Search.AttemptOn | pool_miner.py:77-102 | one attempt in the loop's order; stated by `Pass`, `Run`, `MinedIsBlock`, `CheckpointExact` and `RejectedShareHidesBlock` |
| Search.Nonce | pool_miner.py:62 | the nonce of attempt k is start + k step; stated by `NoNonceTwice`, `NonceInRange` and `Workers.Covering` |
| Search.AtCheckpoint | pool_miner.py:97 | the checkpoint test `(i - start) % check == 0`; stated by `CheckpointExact` |
| Search.SetupJudge | pool_miner.py:35-58 | the judge `run` builds is the block/share test of the job's threshold on the hex digest |
| Search.CheckBlockIsValid | pool_miner.py:52-58 | the two `check_block_is_valid` closures: hash, `hexdigest`, then `Check`; stated by `SetupJudge`, `MinedIsBlock` and `SharesPassShareTest` |
| Search.ContinuesBeforeEach | pool_miner.py:73-103 | when the first n attempts continue, so does each one of them |
| Search.Advance | pool_miner.py:97 | after an attempt that continues, the next nonce is one step on; shares and restart count grow by that attempt's |
| Search.Pass | pool_miner.py:74-103 | one inner pass does the attempts `AttemptAt` describes, in order: it ends with the first that stops the search, or restarts after one timed-out checkpoint with the nonce moved on |
| Search.Run | pool_miner.py:73-114 | all attempts before the last continue; the last one ends the search; shares are exactly those posted, in order; restarts equal timed-out checkpoints |
| Search.CheckpointExact | pool_miner.py:97 | the clock is read after attempt k exactly when k + 1 is a multiple of 5,000,000 |
| Search.NoNonceTwice | pool_miner.py:97-102 | with a nonzero step no nonce is tried twice; restarts do not reset it |
| Search.NonceInRange | pool_miner.py:77 | every attempt that continues used a nonce in [0, 2^32) |
| Search.SharesAreValid | pool_miner.py:78-94 | each share posted passes the share test, at most one per attempt |
| Search.MinedIsBlock | pool_miner.py:77-106 | a Mined end carries the candidate for that nonce; its digest passes the block test and the share test; the pool accepted it first |
| Search.RejectedShareHidesBlock | pool_miner.py:79-96 | a block whose share is refused ends the search unsubmitted |
| Search.SharesPassShareTest | pool_miner.py:78-94 | with the judge Setup builds, every share posted has a digest passing the share test of the job's threshold |
| Search.SearchEndsWell | pool_miner.py:77-106 | a search ending after attempt k as Mined ends on a candidate passing both tests and accepted by the pool; every share posted passes the share test |
| Search.Mine | pool_miner.py:73-114 | the search for a job's judge ends at its first stopping attempt, every earlier attempt continuing, with exactly the shares posted; a Mined end is a block accepted by the pool and every share passes the share test |
| Search.Worker | pool_miner.py:34-114 | `run` as a whole: a setup error is raised before any hashing; otherwise the outcome is the first stopping attempt of the search on Setup's configuration, with exactly the shares posted, a Mined end a block of the job's threshold accepted by the pool and every share a valid share |
| Workers.AssignWorkers | pool_miner.py:145-147 | worker j (from 0) gets start j and step `workers`; no workers for a count <= 0 |
| Workers.Disjoint | pool_miner.py:145-147 | two workers' progressions share no nonce, and the same nonce means the same worker and attempt |
| Workers.Covering | pool_miner.py:145-147 | every natural number n is tried by worker n mod W, at attempt n div W |
| Workers.FourWorkers | pool_miner.py:145-147 | with four workers the second tries 1, 5, 9, ... |

## Left out

- The HTTP calls are left out:
  - the share POST becomes the oracle `poolAccepts`, with a network error counted as a refusal;
  - the block submission and its reply are not modelled; the search ends at `Mined`;
  - the fields `txs`, `id` and `share_difficulty` of the posted JSON are not modelled;
  - `get_mining_info` and `get_mining_address` are not modelled; the job arrives as a `Search.Job` value with its keys present.
- The supervisor is left out, because it is process control, not mining logic:
  - starting and killing processes;
  - the 180-second kill;
  - `is_alive` polling.
- `worker` re-raises at once, so its retry loop and `time.sleep(3)` are dead code; `run` is modelled as called once.
- Clocks are left out. The timestamp is an input. Elapsed seconds are an oracle keyed by the nonce reached.
- The prints are left out, and so is the hash rate, except for the division by zero elapsed time.
- SHA-256 and base-58 decoding are foreign. They are parameters, so properties that depend on their values (such as collisions) are not stated.
- IEEE floats are left out. The difficulty is an exact real, so rounding artefacts of `% 1`, `16 * (1 - decimal)` and `difficulty * 10` do not appear.
- Command-line parsing is left out. `SHARE_DIFFICULTY` is the parameter `configured`.
- Header.PrefixRoundTrip: byte 0 being 0x02 is proved only for a 33-byte address. The converse is false: without a tag the previous hash comes first, and it may itself begin with 0x02. The layout is stated as a parse round-trip instead.
- The elapsed-time oracle may be any function of the nonce reached. The source measures from one start time that is never reset, so after a first timeout every later checkpoint times out too. The model does not impose this.
