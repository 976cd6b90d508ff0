/** The bytes themselves: where each field of the wire types and of the storage keys stands and what its bytes
    are (Appendix A.2.2 of the Polkadot Protocol Specification; src/support.rs, src/system.rs, src/balances.rs,
    src/proof_of_existence.rs). */
module Layout {
  import opened Types
  import opened ScaleNumbers
  import opened Scale
  import opened Storage
  import opened StorageKeys

  // ---- numbers -----------------------------------------------------------------------------------

  lemma NextDigit(n: nat, p: nat)
    requires p > 0
    ensures n / 0x100 / p == n / (0x100 * p)
  {
    var q, r := n / 0x100, n % 0x100;
    var t, u := q / p, q % p;
    assert n == t * (0x100 * p) + (0x100 * u + r) by {
      assert q == t * p + u;
      assert t * (0x100 * p) == 0x100 * (t * p);
    }
    DivMod(t, 0x100 * p, 0x100 * u + r);
  }

  /** Byte `i` of a little-endian number is its digit of weight 256 to the i. */
  lemma {:induction false} LEDigits(n: nat, width: nat, i: nat)
    requires n < Pow256(width) && i < width
    ensures EncodeLE(n, width)[i] == n / Pow256(i) % 0x100
  {
    if i > 0 {
      LEDigits(n / 0x100, width - 1, i - 1);
      NextDigit(n, Pow256(i - 1));
    }
  }

  lemma U32Bytes(n: U32)
    ensures EncodeU32(n) == [n % 0x100, n / 0x100 % 0x100, n / 0x1_0000 % 0x100, n / 0x100_0000 % 0x100]
  {
    Widths();
    forall i | 0 <= i < 4
      ensures EncodeU32(n)[i] == n / Pow256(i) % 0x100
    {
      LEDigits(n, 4, i);
    }
    assert Pow256(0) == 1 && Pow256(1) == 0x100 && Pow256(3) == 0x100_0000;
  }

  lemma U128Bytes(n: U128, i: nat)
    requires i < 16
    ensures |EncodeU128(n)| == 16 && EncodeU128(n)[i] == n / Pow256(i) % 0x100
  {
    Widths();
    LEDigits(n, 16, i);
  }

  /** The four modes of a length, told apart by the two low bits of the first byte. */
  lemma CompactBytes(n: U32)
    ensures n < 0x40 ==> EncodeCompact(n) == [4 * n]
    ensures 0x40 <= n < 0x4000 ==> EncodeCompact(n) == [n % 0x40 * 4 + 1, n / 0x40]
    ensures 0x4000 <= n < 0x4000_0000 ==> EncodeCompact(n) == EncodeU32(4 * n + 2)
    ensures 0x4000_0000 <= n ==> EncodeCompact(n) == [3] + EncodeU32(n)
  {
    Widths();
    if 0x40 <= n < 0x4000 {
      LEDigits(4 * n + 1, 2, 0);
      LEDigits(4 * n + 1, 2, 1);
      TwoByteMode(n);
    }
  }

  lemma TwoByteMode(n: nat)
    requires n < 0x4000
    ensures (4 * n + 1) % 0x100 == n % 0x40 * 4 + 1 && (4 * n + 1) / 0x100 % 0x100 == n / 0x40
  {}

  // ---- wire types --------------------------------------------------------------------------------

  /** Pallet index, function index, then the arguments. */
  lemma CallBytes(to: AccountId32, amount: U128, claim: Content)
    ensures EncodeCall(Balances(Transfer(to, amount))) == [0x00, 0x00] + (to.bytes + EncodeU128(amount))
    ensures var text := EncodeCompact(|claim.utf8|) + claim.utf8;
            && EncodeCall(ProofOfExistence(CreateClaim(claim))) == [0x01, 0x00] + text
            && EncodeCall(ProofOfExistence(RevokeClaim(claim))) == [0x01, 0x01] + text
  {
    Assoc([0, 0], to.bytes, EncodeU128(amount));
  }

  /** 32 bytes of signer, 64 of signature, 4 of nonce, then the call; what is signed leaves the signature out. */
  lemma ExtrinsicBytes(e: Extrinsic)
    ensures var b := EncodeExtrinsic(e);
            && |b| > 100 && b[..32] == e.signer.bytes && b[32..96] == e.signature
            && b[96..100] == EncodeU32(e.nonce) && b[100..] == EncodeCall(e.call)
            && SignedPayload(e.signer, e.nonce, e.call) == b[..32] + b[96..]
  {
    assert |EncodeCall(e.call)| > 0;
    Assoc(e.signer.bytes, EncodeU32(e.nonce), EncodeCall(e.call));
    FourParts(e.signer.bytes, e.signature, EncodeU32(e.nonce), EncodeCall(e.call), EncodeExtrinsic(e));
  }

  lemma FourParts(x: Bytes32, y: Bytes64, z: Bytes, w: Bytes, b: Bytes)
    requires |z| == 4 && b == x + (y + (z + w))
    ensures |b| == 100 + |w| && b[..32] == x && b[32..96] == y && b[96..100] == z && b[100..] == w && b[96..] == z + w
  {}

  /** 4 bytes of block number, the compact count, then the extrinsics one after the other. */
  lemma BlockBytes(k: Block)
    requires |k.extrinsics| <= U32_MAX
    ensures var b, n := EncodeBlock(k), EncodeCompact(|k.extrinsics|);
            && |b| >= 4 + |n| && b[..4] == EncodeU32(k.header.blockNumber) && b[4..4 + |n|] == n
            && b[4 + |n|..] == EncodeAll(k.extrinsics)
  {
    var number, n, xs := EncodeU32(k.header.blockNumber), EncodeCompact(|k.extrinsics|), EncodeAll(k.extrinsics);
    ThreeParts(number, n, xs, EncodeBlock(k));
  }

  lemma ThreeParts(x: Bytes, y: Bytes, z: Bytes, b: Bytes)
    requires |x| == 4 && b == x + (y + z)
    ensures |b| >= 4 + |y| && b[..4] == x && b[4..4 + |y|] == y && b[4 + |y|..] == z
  {}

  // ---- storage keys ------------------------------------------------------------------------------

  /** The keys, byte by byte. */
  lemma KeyBytes(who: AccountId32, claim: Content)
    ensures Key(Height) == [115, 121, 115, 116, 101, 109, 58, 98, 108, 111, 99, 107, 95, 110, 117, 109, 98, 101, 114]
    ensures Key(Nonce(who)) == [115, 121, 115, 116, 101, 109, 58, 110, 111, 110, 99, 101, 58] + who.bytes
    ensures Key(Balance(who)) == [98, 97, 108, 97, 110, 99, 101, 115, 58] + who.bytes
    ensures Key(Claim(claim)) == [112, 111, 101, 58] + (EncodeCompact(|claim.utf8|) + claim.utf8)
  {
    assert PREFIX_BLOCK_NUMBER ==
           [115, 121, 115, 116, 101, 109, 58, 98, 108, 111, 99, 107, 95, 110, 117, 109, 98, 101, 114];
    assert PREFIX_NONCE == [115, 121, 115, 116, 101, 109, 58, 110, 111, 110, 99, 101, 58];
    assert PREFIX_BALANCE == [98, 97, 108, 97, 110, 99, 101, 115, 58];
    assert PREFIX_POE == [112, 111, 101, 58];
  }

  /** What is written under them: a height or a nonce in 4 bytes, a balance in 16, an owner in 32. */
  lemma WriteBytes(n: U32, amount: U128, who: AccountId32, claim: Content)
    ensures var b := [n % 0x100, n / 0x100 % 0x100, n / 0x1_0000 % 0x100, n / 0x100_0000 % 0x100];
            && EncodeWrite(PutHeight(n)) == Put(Key(Height), b)
            && EncodeWrite(PutNonce(who, n)) == Put(Key(Nonce(who)), b)
    ensures EncodeWrite(PutBalance(who, amount)) == Put(Key(Balance(who)), EncodeU128(amount))
    ensures EncodeWrite(PutClaim(claim, who)) == Put(Key(Claim(claim)), who.bytes)
    ensures EncodeWrite(DeleteClaim(claim)) == Delete(Key(Claim(claim)))
  {
    U32Bytes(n);
  }
}
