/** Decoding the miner's address (`string_to_bytes`) and the digest of the
    pending transactions (`get_transactions_merkle_tree`). Base-58 decoding
    and SHA-256 are foreign code: the caller supplies them as functions. */
module Address {

  import opened Wrappers
  import opened Bytes
  import Hex

  /** Hex first; base-58 only when `fromhex` raises. None stands for the
      error the base-58 decoder raises. */
  function StringToBytes(address: string, base58: string -> Option<Bytes>): Option<Bytes> {
    match Hex.FromHex(address)
    case Some(b) => Some(b)
    case None => base58(address)
  }

  /** Hex takes priority: a string that is valid hex is never given to the
      base-58 decoder, whatever that decoder would have made of it. */
  lemma HexShadowsBase58(address: string, base58: string -> Option<Bytes>)
    requires Hex.FromHex(address).Some?
    ensures StringToBytes(address, base58) == Hex.FromHex(address)
  {
  }

  /** Base-58 decides exactly the strings that are not hex. */
  lemma Base58Fallback(address: string, base58: string -> Option<Bytes>)
    requires Hex.FromHex(address).None?
    ensures StringToBytes(address, base58) == base58(address)
  {
  }

  /** The hex form of any byte string decodes back to those bytes. */
  lemma HexAddressRoundTrip(b: Bytes, base58: string -> Option<Bytes>)
    ensures StringToBytes(Hex.ToHex(b), base58) == Some(b)
  {
    Hex.FromToHex(b);
  }

  /** "11" is read as the single byte 0x11 although, in base 58, it would
      be two zero bytes: a base-58 address made only of hex digits is
      misread. */
  lemma HexLookingBase58(base58: string -> Option<Bytes>)
    ensures StringToBytes("11", base58) == Some([0x11])
  {
    assert Hex.ToHex([0x11]) == "11";
    Hex.FromToHex([0x11]);
  }

  /** "0O" is not hex ('O' is no hex digit) and not base 58 either (the
      base-58 alphabet leaves out '0' and 'O'), so it raises. */
  lemma InvalidAddress(base58: string -> Option<Bytes>)
    requires base58("0O") == None
    ensures Hex.FromHex("0O") == None
    ensures StringToBytes("0O", base58) == None
  {
  }

  /** The raw bytes of all transaction hashes, in order; None when one of
      them is not hex. */
  function JoinHex(transactions: seq<string>): (r: Option<Bytes>)
    ensures r.Some? <==> forall i :: 0 <= i < |transactions| ==> Hex.FromHex(transactions[i]).Some?
    ensures |transactions| == 1 ==> r == Hex.FromHex(transactions[0])
  {
    if |transactions| == 0 then Some([])
    else match (Hex.FromHex(transactions[0]), JoinHex(transactions[1..]))
      case (Some(head), Some(tail)) =>
        assert |transactions| == 1 ==> transactions[1..] == [] && tail == [] && head + tail == head;
        Some(head + tail)
      case _ =>
        assert forall i :: 1 <= i < |transactions| ==> transactions[1..][i - 1] == transactions[i];
        None
  }

  /** Joining is concatenation: the join of two lists is the join of the
      first followed by the join of the second, and fails when either
      join fails. */
  lemma {:induction false} JoinHexAppend(xs: seq<string>, ys: seq<string>)
    ensures JoinHex(xs).Some? && JoinHex(ys).Some? ==>
              JoinHex(xs + ys) == Some(JoinHex(xs).value + JoinHex(ys).value)
    ensures JoinHex(xs).None? || JoinHex(ys).None? ==> JoinHex(xs + ys).None?
  {
    if |xs| == 0 {
      assert xs + ys == ys;
      assert JoinHex(xs) == Some([]);
      if JoinHex(ys).Some? {
        assert [] + JoinHex(ys).value == JoinHex(ys).value;
      }
    } else {
      assert (xs + ys)[0] == xs[0];
      assert (xs + ys)[1..] == xs[1..] + ys;
      JoinHexAppend(xs[1..], ys);
      if JoinHex(xs).Some? && JoinHex(ys).Some? {
        var head := Hex.FromHex(xs[0]).value;
        assert head + (JoinHex(xs[1..]).value + JoinHex(ys).value)
            == (head + JoinHex(xs[1..]).value) + JoinHex(ys).value;
      }
    }
  }

  /** `get_transactions_merkle_tree`: despite its name, one SHA-256 over the
      concatenation, as a lower-case hex string. */
  function TransactionsDigest(transactions: seq<string>, sha256: Bytes -> Digest): (r: Option<string>)
    ensures r.Some? <==> forall i :: 0 <= i < |transactions| ==> Hex.FromHex(transactions[i]).Some?
    ensures r.Some? ==> |r.value| == 64
  {
    match JoinHex(transactions)
    case None => None
    case Some(b) => Some(Hex.ToHex(sha256(b)))
  }

  /** The digest is 64 lower-case digits and reads back as the 32 bytes of
      the hash of the concatenated transactions. */
  lemma DigestReadsBack(transactions: seq<string>, sha256: Bytes -> Digest)
    requires JoinHex(transactions).Some?
    ensures var h := TransactionsDigest(transactions, sha256);
            var d: Bytes := sha256(JoinHex(transactions).value);
            && h.Some? && |h.value| == 64
            && (forall i :: 0 <= i < 64 ==> Hex.IsLowerDigit(h.value[i]))
            && Hex.FromHex(h.value) == Some(d)
  {
    Hex.FromToHex(sha256(JoinHex(transactions).value));
  }

  /** Only the concatenation matters: ["ab", "cd"] and ["abcd"] have the
      same digest, so this is not a Merkle tree. */
  lemma FlatDigest(sha256: Bytes -> Digest)
    ensures TransactionsDigest(["ab", "cd"], sha256) == TransactionsDigest(["abcd"], sha256)
  {
    var ab: Bytes, cd: Bytes, abcd: Bytes := [0xab], [0xcd], [0xab, 0xcd];
    assert Hex.FromHex("ab") == Some(ab) by {
      assert Hex.ToHex(ab) == "ab";
      Hex.FromToHex(ab);
    }
    assert Hex.FromHex("cd") == Some(cd) by {
      assert Hex.ToHex(cd) == "cd";
      Hex.FromToHex(cd);
    }
    assert Hex.FromHex("abcd") == Some(abcd) by {
      assert abcd[1..] == cd;
      assert Hex.ToHex(abcd) == "abcd";
      Hex.FromToHex(abcd);
    }
    assert JoinHex(["cd"]) == Some(cd) by {
      assert ["cd"][1..] == [];
      assert cd + [] == cd;
    }
    assert JoinHex(["abcd"]) == Some(abcd) by {
      assert ["abcd"][1..] == [];
      assert abcd + [] == abcd;
    }
    assert JoinHex(["ab", "cd"]) == Some(abcd) by {
      assert ["ab", "cd"][1..] == ["cd"];
      assert ab + cd == abcd;
    }
  }
}
