/** The share and block thresholds a job's difficulty sets, and the test
    `check_block_is_valid` applies to the hex digest of a candidate.

    The difficulty is an exact real number. Its whole part n asks the hash to
    start with the last n hex digits of the previous block hash; a non-zero
    fractional part f further asks the next digit to be among the first
    ceil(16 * (1 - f)) hex digits. A share asks only for the first
    `share_difficulty` digits of the same chunk. */
module Difficulty {

  import opened Wrappers
  import opened Builtins
  import Hex

  /** Everything `run` derives from the difficulty before it starts hashing. */
  datatype Threshold = Threshold(
    whole: int,          // int(difficulty)
    fraction: real,      // difficulty % 1
    chunk: string,       // the previous hash sliced from -int(difficulty)
    shareChunk: string,  // chunk sliced up to share_difficulty
    charset: string)     // the digits allowed right after the chunk

  /** `SHARE_DIFFICULTY or int(difficulty) - 2`: a configured 0 counts as
      no configuration at all. */
  function ShareDifficulty(configured: Option<int>, difficulty: real): int {
    if configured.Some? && configured.value != 0 then configured.value
    else Truncate(difficulty) - 2
  }

  /** A configured share difficulty of 0 is the same as none: both give
      `int(difficulty) - 2`; any other configured value is used as it is. */
  lemma ShareDifficultyOr(configured: Option<int>, difficulty: real)
    ensures ShareDifficulty(Some(0), difficulty) == ShareDifficulty(None, difficulty) == Truncate(difficulty) - 2
    ensures configured.Some? && configured.value != 0 ==> ShareDifficulty(configured, difficulty) == configured.value
  {
  }

  /** `ceil(16 * (1 - decimal))`, the number of digits allowed after the chunk. */
  function CharsetCount(fraction: real): int {
    Ceil(16.0 * (1.0 - fraction))
  }

  function MakeThreshold(difficulty: real, previousHash: string, configured: Option<int>): (t: Threshold)
    ensures t.whole == Truncate(difficulty) && t.fraction == FracPart(difficulty)
    ensures t.shareChunk <= t.chunk
    ensures t.charset <= Hex.DIGITS
  {
    var whole := Truncate(difficulty);
    var fraction := FracPart(difficulty);
    var chunk := SliceFrom(previousHash, -whole);
    var shareChunk := SliceTo(chunk, ShareDifficulty(configured, difficulty));
    var charset := if fraction > 0.0 then SliceTo(Hex.DIGITS, CharsetCount(fraction)) else Hex.DIGITS;
    Threshold(whole, fraction, chunk, shareChunk, charset)
  }

  /** The pair (share valid, block valid). */
  datatype Verdict = Verdict(share: bool, block: bool)

  /** `check_block_is_valid` once the digest is known. Indexing the digest
      at `int(difficulty)` happens only when it already starts with the
      chunk; out of range it raises IndexError, which is None here. */
  function Check(blockHash: string, t: Threshold): (r: Option<Verdict>)
    ensures r.Some? ==> (r.value.share <==> t.shareChunk <= blockHash)
    ensures r.Some? && r.value.block ==> t.chunk <= blockHash
    ensures r.None? <==> t.fraction > 0.0 && t.chunk <= blockHash && !(-|blockHash| <= t.whole < |blockHash|)
    ensures t.fraction <= 0.0 ==> r.Some? && (r.value.block <==> t.chunk <= blockHash)
  {
    var share := StartsWith(blockHash, t.shareChunk);
    if t.fraction > 0.0 then
      if !StartsWith(blockHash, t.chunk) then Some(Verdict(share, false))
      else match At(blockHash, t.whole)
        case None => None
        case Some(c) => Some(Verdict(share, c in t.charset))
    else Some(Verdict(share, StartsWith(blockHash, t.chunk)))
  }

  /** Every block is also a share, in both branches: the share chunk is a
      prefix of the block chunk. */
  lemma BlockImpliesShare(blockHash: string, difficulty: real, previousHash: string, configured: Option<int>)
    requires Check(blockHash, MakeThreshold(difficulty, previousHash, configured)).Some?
    requires Check(blockHash, MakeThreshold(difficulty, previousHash, configured)).value.block
    ensures Check(blockHash, MakeThreshold(difficulty, previousHash, configured)).value.share
  {
    var t := MakeThreshold(difficulty, previousHash, configured);
    assert t.chunk <= blockHash;
    assert blockHash[..|t.shareChunk|] == t.chunk[..|t.shareChunk|];
  }

  /** The check never raises on a digest of the usual length as long as
      the whole part of the difficulty is a valid position in it. */
  lemma CheckDefined(blockHash: string, t: Threshold)
    requires 0 <= t.whole < |blockHash|
    ensures Check(blockHash, t).Some?
  {
  }

  /** The block chunk is the last n digits of the previous hash for
      1 <= n <= its length, and the whole of it when n is 0 (the slice
      `[-0:]`). */
  lemma ChunkIsSuffix(difficulty: real, previousHash: string, configured: Option<int>)
    requires 0 <= Truncate(difficulty) <= |previousHash|
    ensures Truncate(difficulty) >= 1 ==>
      MakeThreshold(difficulty, previousHash, configured).chunk
        == previousHash[|previousHash| - Truncate(difficulty)..]
    ensures Truncate(difficulty) == 0 ==>
      MakeThreshold(difficulty, previousHash, configured).chunk == previousHash
  {
  }

  /** The share chunk is the first `share_difficulty` digits of the block
      chunk when that count is in range; a negative count drops that many
      digits from its end, as a negative Python slice does. */
  lemma ShareChunkIsHead(difficulty: real, previousHash: string, configured: Option<int>)
    ensures var t := MakeThreshold(difficulty, previousHash, configured);
            var k := ShareDifficulty(configured, difficulty);
            && (0 <= k <= |t.chunk| ==> t.shareChunk == t.chunk[..k])
            && (k < 0 <= |t.chunk| + k ==> t.shareChunk == t.chunk[..|t.chunk| + k])
            && (|t.chunk| + k < 0 ==> t.shareChunk == [])
            && (k > |t.chunk| ==> t.shareChunk == t.chunk)
  {
  }

  /** With a whole difficulty n (1 <= n <= the hash length) and a share
      difficulty k in [0, n]: a hash is a block iff it starts with the last
      n digits of the previous hash, and a share iff it starts with the
      first k of those. */
  lemma {:induction false} WholeDifficulty(blockHash: string, difficulty: real, previousHash: string, configured: Option<int>)
    requires FracPart(difficulty) == 0.0
    requires 1 <= Truncate(difficulty) <= |previousHash|
    requires 0 <= ShareDifficulty(configured, difficulty) <= Truncate(difficulty)
    ensures var n := Truncate(difficulty);
            var k := ShareDifficulty(configured, difficulty);
            var from := |previousHash| - n;
            Check(blockHash, MakeThreshold(difficulty, previousHash, configured))
              == Some(Verdict(previousHash[from..from + k] <= blockHash, previousHash[from..] <= blockHash))
  {
    var n := Truncate(difficulty);
    var k := ShareDifficulty(configured, difficulty);
    var from := |previousHash| - n;
    var t := MakeThreshold(difficulty, previousHash, configured);
    ChunkIsSuffix(difficulty, previousHash, configured);
    ShareChunkIsHead(difficulty, previousHash, configured);
    assert t.chunk == previousHash[from..];
    assert t.shareChunk == previousHash[from..from + k];
  }

  /** For 0 < f < 1 the allowed-digit count lies between 1 and 16. */
  lemma CharsetCountRange(fraction: real)
    requires 0.0 < fraction < 1.0
    ensures 1 <= CharsetCount(fraction) <= 16
  {
  }

  /** A larger fractional part never allows more digits. */
  lemma {:induction false} CharsetCountAntitone(f1: real, f2: real)
    requires 0.0 < f1 <= f2 < 1.0
    ensures CharsetCount(f2) <= CharsetCount(f1)
  {
    var y1, y2 := 16.0 * (1.0 - f1), 16.0 * (1.0 - f2);
    assert y2 <= y1;
    assert (-y1).Floor <= (-y2).Floor;
  }

  /** A character is among the first `count` lower-case digits iff it is
      a lower-case digit of value below `count`. */
  lemma InDigitsPrefix(count: nat, c: char)
    requires count <= 16
    ensures c in Hex.DIGITS[..count] <==> c in Hex.DIGITS && Hex.DigitValue(c).value < count
  {
    if c in Hex.DIGITS {
      var j :| 0 <= j < 16 && Hex.DIGITS[j] == c;
      Hex.DigitsTable(j, c);
      if j < count {
        assert Hex.DIGITS[..count][j] == c;
      } else {
        assert forall i :: 0 <= i < count ==> Hex.DIGITS[..count][i] != c by {
          forall i | 0 <= i < count ensures Hex.DIGITS[..count][i] != c {
            Hex.DigitsTable(i, c);
          }
        }
      }
    }
  }

  /** In the fractional branch the charset is the first
      ceil(16 * (1 - f)) lower-case digits, and a character belongs to it
      iff it is a lower-case digit whose value is below 16 * (1 - f). */
  lemma {:induction false} CharsetMeaning(difficulty: real, previousHash: string, configured: Option<int>, c: char)
    requires FracPart(difficulty) > 0.0
    ensures var t := MakeThreshold(difficulty, previousHash, configured);
            && |t.charset| == CharsetCount(t.fraction)
            && t.charset == Hex.DIGITS[..CharsetCount(t.fraction)]
            && (c in t.charset <==>
                  c in Hex.DIGITS && (Hex.DigitValue(c).value as real) < 16.0 * (1.0 - t.fraction))
  {
    var t := MakeThreshold(difficulty, previousHash, configured);
    var count := CharsetCount(t.fraction);
    CharsetCountRange(t.fraction);
    assert t.charset == Hex.DIGITS[..count];
    InDigitsPrefix(count, c);
    if c in Hex.DIGITS {
      var v := Hex.DigitValue(c).value;
      assert v < count <==> v as real < 16.0 * (1.0 - t.fraction);
    }
  }

  /** In the fractional branch a block starts with the chunk and has, right
      after it, a digit from the charset. */
  lemma FractionalBlock(blockHash: string, difficulty: real, previousHash: string, configured: Option<int>)
    requires FracPart(difficulty) > 0.0
    requires 0 <= Truncate(difficulty) < |blockHash|
    ensures var t := MakeThreshold(difficulty, previousHash, configured);
            Check(blockHash, t) == Some(Verdict(
              t.shareChunk <= blockHash,
              t.chunk <= blockHash && blockHash[t.whole] in t.charset))
  {
  }

  /** A larger fractional part gives a charset contained in the one for a
      smaller fractional part, whatever the whole parts. */
  lemma CharsetShrinks(d1: real, d2: real, previousHash: string, configured: Option<int>)
    requires 0.0 < FracPart(d1) <= FracPart(d2)
    ensures MakeThreshold(d2, previousHash, configured).charset
              <= MakeThreshold(d1, previousHash, configured).charset
  {
    CharsetCountAntitone(FracPart(d1), FracPart(d2));
    CharsetCountRange(FracPart(d1));
    CharsetCountRange(FracPart(d2));
  }

  /** Difficulty 5.5: eight digits '0'..'7' may follow the chunk, so a
      hash continuing the chunk with '7' is a block and with '8' is not. */
  lemma HalfDigitExample(previousHash: string, rest: string)
    requires |previousHash| >= 5
    ensures var t := MakeThreshold(5.5, previousHash, None);
            var chunk := previousHash[|previousHash| - 5..];
            && t.charset == "01234567"
            && Check(chunk + "7" + rest, t).value.block
            && !Check(chunk + "8" + rest, t).value.block
  {
    var t := MakeThreshold(5.5, previousHash, None);
    var chunk := previousHash[|previousHash| - 5..];
    assert FracPart(5.5) == 0.5;
    assert CharsetCount(0.5) == 8;
    assert t.chunk == chunk;
    assert (chunk + "7" + rest)[5] == '7';
    assert (chunk + "8" + rest)[5] == '8';
  }

  /** Difficulty 3 with share difficulty 1 and a previous hash ending in
      "abc": "a9..." is a share but not a block, "abc4..." is both. */
  lemma WholeDifficultyExample(head: string, rest: string)
    ensures var t := MakeThreshold(3.0, head + "abc", Some(1));
            && t.chunk == "abc" && t.shareChunk == "a"
            && Check("a9" + rest, t) == Some(Verdict(true, false))
            && Check("abc4" + rest, t) == Some(Verdict(true, true))
  {
    var t := MakeThreshold(3.0, head + "abc", Some(1));
    assert (head + "abc")[|head|..] == "abc";
    assert t.chunk == "abc";
    assert "a" <= "a9" + rest;
    assert !("abc" <= "a9" + rest) by {
      assert ("a9" + rest)[1] == '9';
    }
    assert "abc" <= "abc4" + rest;
  }
}
