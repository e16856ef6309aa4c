/** The bytes that are hashed: the per-job prefix (optional address tag,
    previous block hash, miner address, transactions digest, timestamp,
    ten times the difficulty) followed by a 4-byte nonce. Every integer
    field is little-endian. */
module Header {

  import opened Wrappers
  import opened Bytes
  import opened Builtins
  import Hex

  /** The node's `last_block` record; either key may be missing. */
  datatype LastBlock = LastBlock(hash: Option<string>, id: Option<int>)

  /** The number whose 32 little-endian bytes make the sentinel hash. */
  const SENTINEL_VALUE: nat := 30_06_2005

  /** The hash used when the node reports no previous block: the number
      30062005 as 32 little-endian bytes, in hex. */
  function SentinelHash(): (h: string)
    ensures |h| == 64
    ensures Hex.FromHex(h) == Some(LittleEndian(SENTINEL_VALUE, 32))
  {
    Hex.FromToHex(LittleEndian(SENTINEL_VALUE, 32));
    Hex.ToHex(LittleEndian(SENTINEL_VALUE, 32))
  }

  function BlockHash(last: LastBlock): string {
    if last.hash.Some? then last.hash.value else SentinelHash()
  }

  function BlockId(last: LastBlock): int {
    if last.id.Some? then last.id.value else 0
  }

  /** A missing hash becomes the sentinel, a missing id becomes 0, and a
      present value is kept as it is. */
  lemma Defaults(last: LastBlock)
    ensures last.hash.None? ==> BlockHash(last) == SentinelHash() && |BlockHash(last)| == 64
    ensures last.hash.Some? ==> BlockHash(last) == last.hash.value
    ensures last.id.None? ==> BlockId(last) == 0
    ensures last.id.Some? ==> BlockId(last) == last.id.value
  {
  }

  /** The 32 bytes the sentinel hash reads back as decode to 30062005:
      the value fits, so `to_bytes` raised nothing and lost nothing. */
  lemma SentinelBytes()
    ensures FromLittleEndian(LittleEndian(SENTINEL_VALUE, 32)) == SENTINEL_VALUE
  {
    assert SENTINEL_VALUE < Pow256(4);
    Pow256Monotone(4, 32);
    FromToLittleEndian(SENTINEL_VALUE, 32);
  }

  /** The places where building the prefix raises: a previous hash or
      digest that is not hex, or a timestamp or difficulty field that does
      not fit its width (or is negative). */
  datatype PrefixError = BadPreviousHash | BadDigest | TimestampOverflow | DifficultyOverflow

  /** The difficulty field: `int(difficulty * 10)`, truncated, not rounded. */
  function EncodedDifficulty(difficulty: real): (r: int)
    ensures difficulty >= 0.0 ==> r as real <= difficulty * 10.0 < r as real + 1.0
  {
    Truncate(difficulty * 10.0)
  }

  /** The address tag: 0x02 in front of a 33-byte (compressed) address. */
  function Tag(address: Bytes): (t: Bytes)
    ensures |t| == (if |address| == 33 then 1 else 0)
  {
    if |address| == 33 then [2] else []
  }

  /** The per-job prefix. */
  function Prefix(previousHash: string, address: Bytes, digestHex: string, timestamp: int, difficulty: real)
    : Result<Bytes, PrefixError>
  {
    match (Hex.FromHex(previousHash), Hex.FromHex(digestHex),
           ToBytes(timestamp, 4), ToBytes(EncodedDifficulty(difficulty), 2))
    case (None, _, _, _) => Err(BadPreviousHash)
    case (_, None, _, _) => Err(BadDigest)
    case (_, _, None, _) => Err(TimestampOverflow)
    case (_, _, _, None) => Err(DifficultyOverflow)
    case (Some(previous), Some(digest), Some(time), Some(level)) =>
      Ok(Tag(address) + previous + address + digest + time + level)
  }

  /** The prefix followed by the nonce; None is the OverflowError of
      `to_bytes` for a nonce outside [0, 2^32). */
  function Candidate(prefix: Bytes, nonce: int): (r: Option<Bytes>)
    ensures r.Some? <==> 0 <= nonce < 0x1_0000_0000
  {
    if 0 <= nonce < 0x1_0000_0000 then Some(prefix + LittleEndian(nonce, 4)) else None
  }

  /** The candidate is `prefix + nonce.to_bytes(4, 'little')`, raising
      exactly when `to_bytes` does. */
  lemma CandidateIsToBytes(prefix: Bytes, nonce: int)
    ensures ToBytes(nonce, 4).None? ==> Candidate(prefix, nonce).None?
    ensures ToBytes(nonce, 4).Some? ==> Candidate(prefix, nonce) == Some(prefix + ToBytes(nonce, 4).value)
  {
    NonceFieldRange(nonce);
  }

  /** The fields a prefix carries. */
  datatype Fields = Fields(
    previous: Bytes, address: Bytes, digest: Bytes, timestamp: nat, encodedDifficulty: nat)

  /** Reads a prefix back, given the length of the address in it. */
  function ParsePrefix(p: Bytes, addressLength: nat): Option<Fields> {
    var t := if addressLength == 33 then 1 else 0;
    var a := addressLength;
    if |p| != t + 70 + a || (t == 1 && p[0] != 2) then None
    else
      var q := p[t..];
      Some(Fields(q[..32], q[32..32 + a], q[32 + a..64 + a],
                  FromLittleEndian(q[64 + a..68 + a]), FromLittleEndian(q[68 + a..70 + a])))
  }

  /** The prefix is as long as its fields: one tag byte when the address
      has 33 bytes, 32 + 32 + 4 + 2 = 70 bytes of fixed fields, and the
      address. */
  lemma PrefixLength(previousHash: string, address: Bytes, digestHex: string, timestamp: int, difficulty: real)
    requires Prefix(previousHash, address, digestHex, timestamp, difficulty).Ok?
    requires |Hex.FromHex(previousHash).value| == 32 && |Hex.FromHex(digestHex).value| == 32
    ensures |Prefix(previousHash, address, digestHex, timestamp, difficulty).value|
              == (if |address| == 33 then 1 else 0) + 70 + |address|
  {
  }

  /** The prefix is built exactly when both hex fields read and the
      timestamp fits 32 bits and ten times the difficulty fits 16 bits. */
  lemma PrefixBuilt(previousHash: string, address: Bytes, digestHex: string, timestamp: int, difficulty: real)
    ensures Prefix(previousHash, address, digestHex, timestamp, difficulty).Ok? <==>
              && Hex.FromHex(previousHash).Some? && Hex.FromHex(digestHex).Some?
              && 0 <= timestamp < 0x1_0000_0000
              && 0 <= EncodedDifficulty(difficulty) < 0x1_0000
  {
    NonceFieldRange(timestamp);
    assert Pow256(2) == 0x1_0000;
  }

  /** The fields laid end to end are recovered by slicing at the offsets
      ParsePrefix uses. */
  lemma FieldSlices(q: Bytes, previous: Bytes, address: Bytes, digest: Bytes, time: Bytes, level: Bytes)
    requires q == previous + address + digest + time + level
    requires |previous| == 32 && |digest| == 32 && |time| == 4 && |level| == 2
    ensures var a := |address|;
            && |q| == 70 + a
            && q[..32] == previous && q[32..32 + a] == address && q[32 + a..64 + a] == digest
            && q[64 + a..68 + a] == time && q[68 + a..70 + a] == level
  {
    var a := |address|;
    assert q[..32] == previous;
    assert q[32..] == address + digest + time + level;
    assert q[32..32 + a] == address;
    assert q[32 + a..] == digest + time + level;
    assert q[32 + a..64 + a] == digest;
    assert q[64 + a..] == time + level;
  }

  /** Laying out fields of the right widths behind the tag and parsing
      the result gives the fields back. */
  lemma ParseLayout(previous: Bytes, address: Bytes, digest: Bytes, time: Bytes, level: Bytes)
    requires |previous| == 32 && |digest| == 32 && |time| == 4 && |level| == 2
    ensures ParsePrefix(Tag(address) + previous + address + digest + time + level, |address|)
              == Some(Fields(previous, address, digest, FromLittleEndian(time), FromLittleEndian(level)))
  {
    var q := previous + address + digest + time + level;
    var t := Tag(address);
    var p := t + q;
    assert t + previous + address + digest + time + level == p;
    FieldSlices(q, previous, address, digest, time, level);
    assert |p| == |t| + 70 + |address|;
    assert |address| == 33 ==> p[0] == 2;
    assert p[|t|..] == q;
  }

  /** Reading the prefix back recovers every field: the layout is tag,
      previous hash, address, digest, timestamp, difficulty, and the first
      byte is 0x02 when the address has 33 bytes. */
  lemma {:induction false} PrefixRoundTrip(previousHash: string, address: Bytes, digestHex: string,
                                           timestamp: int, difficulty: real)
    requires Prefix(previousHash, address, digestHex, timestamp, difficulty).Ok?
    requires |Hex.FromHex(previousHash).value| == 32 && |Hex.FromHex(digestHex).value| == 32
    ensures var p := Prefix(previousHash, address, digestHex, timestamp, difficulty).value;
            && (|address| == 33 ==> p[0] == 2)
            && (|address| != 33 ==> p[..32] == Hex.FromHex(previousHash).value)
            && ParsePrefix(p, |address|) == Some(Fields(
                 Hex.FromHex(previousHash).value, address, Hex.FromHex(digestHex).value,
                 timestamp, EncodedDifficulty(difficulty)))
  {
    var previous, digest := Hex.FromHex(previousHash).value, Hex.FromHex(digestHex).value;
    PrefixBuilt(previousHash, address, digestHex, timestamp, difficulty);
    var time, level := LittleEndian(timestamp, 4), LittleEndian(EncodedDifficulty(difficulty), 2);
    var p := Prefix(previousHash, address, digestHex, timestamp, difficulty).value;
    assert p == Tag(address) + previous + address + digest + time + level;
    ParseLayout(previous, address, digest, time, level);
    FromToLittleEndian(timestamp, 4);
    FromToLittleEndian(EncodedDifficulty(difficulty), 2);
  }

  /** A candidate is the prefix and exactly four more bytes, which read
      back as the nonce. */
  lemma CandidateLayout(prefix: Bytes, nonce: int)
    requires 0 <= nonce < 0x1_0000_0000
    ensures var c := Candidate(prefix, nonce).value;
            && |c| == |prefix| + 4 && c[..|prefix|] == prefix
            && FromLittleEndian(c[|prefix|..]) == nonce
  {
    var c := Candidate(prefix, nonce).value;
    assert c[|prefix|..] == LittleEndian(nonce, 4);
    FromToLittleEndian(nonce, 4);
  }
}
